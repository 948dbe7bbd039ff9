/** Image references: the ephemeral image of a component in the temporary
    registry (`getEphemeralComponentFullpath`, lib/node/builder/builder.ts:1020-1023)
    and its publish paths (`getPrecommitComponentPublishPaths` and
    `getPostcommitComponentPublishPaths`, 1025-1039), whose registry prefixes
    lose their trailing slashes. */
module Images {
  import opened Wrappers
  import opened Text
  import opened Config

  /** A value interpolated into a template literal: `undefined` when absent. */
  function Rendered(o: Option<string>): (r: string)
    ensures o.Some? ==> r == o.value
  {
    if o.Some? then o.value else "undefined"
  }

  /** `list[0]`, which reads `undefined` past the end. */
  function First(list: seq<string>): Option<string> {
    if list == [] then None else Some(list[0])
  }

  /** `${tempRegistry}/${project ? project + '/' : ''}${image_name}:${tag ?? hash}`:
      the first temporary registry, the project, the image name, and the given
      tag, or the component hash when no tag is given. */
  function EphemeralPath(cfg: BuilderConfig, project: string, imageName: Option<string>, hash: string,
                         tag: Option<string>): (r: string)
    ensures var reg := Rendered(First(StringArray(cfg.registry.temp)));
      && StartsWith(r, reg + "/")
      && EndsWith(r, ":" + (if tag.Some? then tag.value else hash))
  {
    var reg := Rendered(First(StringArray(cfg.registry.temp)));
    var head := reg + "/" + (if project != "" then project + "/" else "") + Rendered(imageName) + ":";
    var last := if tag.Some? then tag.value else hash;
    var mid := (if project != "" then project + "/" else "") + Rendered(imageName);
    assert head + last == (reg + "/") + mid + (":" + last) by {
      assert head == (reg + "/") + mid + ":";
    }
    ConcatEnds(reg + "/", mid, ":" + last);
    head + last
  }

  lemma ConcatEnds(a: string, b: string, c: string)
    ensures StartsWith(a + b + c, a) && EndsWith(a + b + c, c)
  {
    assert (a + b + c)[..|a|] == a;
    assert (a + b + c)[|a + b + c| - |c|..] == c;
  }

  /** The hashed ephemeral image tells components apart by their hash: of two
      images of the same project and name, the hashed paths agree only when the
      hashes do. */
  lemma EphemeralPathSeparatesHashes(cfg: BuilderConfig, project: string, imageName: Option<string>, h1: string, h2: string)
    ensures EphemeralPath(cfg, project, imageName, h1, None) == EphemeralPath(cfg, project, imageName, h2, None) <==> h1 == h2
  {
    var reg := Rendered(First(StringArray(cfg.registry.temp)));
    var head := reg + "/" + (if project != "" then project + "/" else "") + Rendered(imageName) + ":";
    assert EphemeralPath(cfg, project, imageName, h1, None) == head + h1;
    assert EphemeralPath(cfg, project, imageName, h2, None) == head + h2;
    if head + h1 == head + h2 {
      assert h1 == (head + h1)[|head|..];
      assert h2 == (head + h2)[|head|..];
    }
  }

  /** The middle of an ephemeral image: `project/` when there is a project,
      then the image name. */
  function ImagePart(project: string, imageName: Option<string>): string {
    (if project != "" then project + "/" else "") + Rendered(imageName)
  }

  /** The ephemeral image tells images apart by their project and name: with
      the same registry and the same tag (or hash), two paths agree exactly
      when their `project/` and image-name parts do. */
  lemma EphemeralPathSeparatesImages(cfg: BuilderConfig, p1: string, n1: Option<string>, p2: string, n2: Option<string>,
                                     hash: string, tag: Option<string>)
    ensures EphemeralPath(cfg, p1, n1, hash, tag) == EphemeralPath(cfg, p2, n2, hash, tag)
            <==> ImagePart(p1, n1) == ImagePart(p2, n2)
  {
    var pre := Rendered(First(StringArray(cfg.registry.temp))) + "/";
    var post := ":" + (if tag.Some? then tag.value else hash);
    EphemeralPathParts(cfg, p1, n1, hash, tag);
    EphemeralPathParts(cfg, p2, n2, hash, tag);
    CancelEnds(pre, ImagePart(p1, n1), ImagePart(p2, n2), post);
  }

  /** The three parts of an ephemeral image. */
  lemma EphemeralPathParts(cfg: BuilderConfig, project: string, imageName: Option<string>, hash: string, tag: Option<string>)
    ensures EphemeralPath(cfg, project, imageName, hash, tag)
            == Rendered(First(StringArray(cfg.registry.temp))) + "/" + ImagePart(project, imageName)
               + (":" + (if tag.Some? then tag.value else hash))
  {
  }

  lemma CancelEnds(a: string, b1: string, b2: string, c: string)
    ensures a + b1 + c == a + b2 + c <==> b1 == b2
  {
    if a + b1 + c == a + b2 + c {
      assert b1 == (a + b1 + c)[|a|..|a + b1 + c| - |c|];
      assert b2 == (a + b2 + c)[|a|..|a + b2 + c| - |c|];
    }
  }

  /** `s` with its trailing slashes removed. */
  function TrimSlashes(s: string): (r: string)
    decreases |s|
  {
    if s != [] && s[|s| - 1] == '/' then TrimSlashes(s[..|s| - 1]) else s
  }

  /** The trimmed string is the longest prefix not ending in a slash: it is a
      prefix, what was cut off is slashes only, and it does not end in one. */
  lemma {:induction false} TrimSlashesFacts(s: string)
    ensures TrimSlashes(s) <= s && !EndsWith(TrimSlashes(s), "/")
    ensures forall i :: |TrimSlashes(s)| <= i < |s| ==> s[i] == '/'
    decreases |s|
  {
    if s != [] && s[|s| - 1] == '/' {
      TrimSlashesFacts(s[..|s| - 1]);
    } else if s != [] {
      assert s[|s| - 1..] == [s[|s| - 1]];
    }
  }

  /** Trimming twice trims no more. */
  lemma TrimSlashesIdempotent(s: string)
    ensures TrimSlashes(TrimSlashes(s)) == TrimSlashes(s)
  {
    TrimSlashesFacts(s);
    var t := TrimSlashes(s);
    if t != [] {
      assert t[|t| - 1..] == [t[|t| - 1]];
    }
  }

  /** `while (reg.endsWith('/')) { reg = reg.slice(0, -1) }` */
  method StripTrailingSlashes(s: string) returns (r: string)
    ensures r == TrimSlashes(s)
    ensures r <= s && !EndsWith(r, "/")
    ensures forall i :: |r| <= i < |s| ==> s[i] == '/'
  {
    r := s;
    while EndsWith(r, "/")
      invariant r <= s && TrimSlashes(r) == TrimSlashes(s)
      invariant forall i :: |r| <= i < |s| ==> s[i] == '/'
      decreases |r|
    {
      assert r[|r| - 1..] == "/";
      assert r[|r| - 1] == '/';
      r := r[..|r| - 1];
    }
    if r != [] {
      assert r[|r| - 1..] == [r[|r| - 1]];
    }
  }

  /** The publish paths for the registries `targets`: each registry, trailing
      slashes removed, followed by `/` and the image name. */
  function PathsFor(targets: seq<string>, imageName: Option<string>): seq<string> {
    seq(|targets|, i requires 0 <= i < |targets| => TrimSlashes(targets[i]) + "/" + Rendered(imageName))
  }

  /** The registries' `map`, with the trimming loop inside. */
  method PublishPaths(targets: seq<string>, imageName: Option<string>) returns (paths: seq<string>)
    ensures paths == PathsFor(targets, imageName)
    ensures |paths| == |targets|
    ensures forall i :: 0 <= i < |targets| ==> paths[i] == TrimSlashes(targets[i]) + "/" + Rendered(imageName)
  {
    paths := [];
    var i := 0;
    while i < |targets|
      invariant 0 <= i <= |targets| && |paths| == i
      invariant forall j :: 0 <= j < i ==> paths[j] == TrimSlashes(targets[j]) + "/" + Rendered(imageName)
    {
      var reg := StripTrailingSlashes(targets[i]);
      paths := paths + [reg + "/" + Rendered(imageName)];
      i := i + 1;
    }
  }

  /** `flag === true || (flag === 'ci-only' && options.ci)` */
  predicate ShouldPublish(flag: PublishFlag, ci: bool) {
    flag == Flag(true) || (flag == CiOnly && ci)
  }
}
