/** The `docker buildx build` command line of one component
    (`buildComponent`, lib/node/builder/builder.ts:120-300): the fixed options,
    the builder, the image tags, the build arguments, the registry cache and
    the build context, together with the list of every image the build pushes.
    Whether a cache image exists (`docker manifest inspect`) is the parameter
    `cached`; `pathlib.join` is the parameter `join`. */
module Invocation {
  import opened Wrappers
  import opened Text
  import opened ArgMaps
  import opened Config
  import opened Manifest
  import opened Sorting
  import opened Images
  import opened Pool

  /** The arguments of the spawned `docker` process and the images it pushes. */
  datatype Command = Command(args: seq<string>, images: seq<string>)

  /** `flag, v` for each `v` of `vals`, in order. */
  function Flagged(flag: string, vals: seq<string>): (r: seq<string>)
    ensures |r| == 2 * |vals|
    ensures forall i :: 0 <= i < |vals| ==> r[2 * i] == flag && r[2 * i + 1] == vals[i]
    decreases |vals|
  {
    if vals == [] then []
    else
      var init := vals[..|vals| - 1];
      assert forall i :: 0 <= i < |init| ==> init[i] == vals[i];
      Flagged(flag, init) + [flag, vals[|vals| - 1]]
  }

  lemma {:induction false} FlaggedAppend(flag: string, a: seq<string>, b: seq<string>)
    ensures Flagged(flag, a + b) == Flagged(flag, a) + Flagged(flag, b)
    decreases |b|
  {
    if b != [] {
      var b' := b[..|b| - 1];
      FlaggedAppend(flag, a, b');
      assert (a + b)[..|a + b| - 1] == a + b';
      assert (a + b)[|a + b| - 1] == b[|b| - 1];
      assert Flagged(flag, a + b) == Flagged(flag, a + b') + [flag, b[|b| - 1]];
      assert Flagged(flag, b) == Flagged(flag, b') + [flag, b[|b| - 1]];
      assert Flagged(flag, a) + Flagged(flag, b') + [flag, b[|b| - 1]] == Flagged(flag, a) + (Flagged(flag, b') + [flag, b[|b| - 1]]);
    } else {
      assert a + b == a;
    }
  }

  lemma FlaggedStep(flag: string, vals: seq<string>, i: nat)
    requires i < |vals|
    ensures Flagged(flag, vals[..i + 1]) == Flagged(flag, vals[..i]) + [flag, vals[i]]
  {
    assert vals[..i + 1][..i] == vals[..i];
  }

  /** Appends `flag, v` for each `v` of `vals`. */
  method PushFlagged(args: seq<string>, flag: string, vals: seq<string>) returns (args': seq<string>)
    ensures args' == args + Flagged(flag, vals)
  {
    args' := args;
    var i := 0;
    while i < |vals|
      invariant 0 <= i <= |vals|
      invariant args' == args + Flagged(flag, vals[..i])
    {
      FlaggedStep(flag, vals, i);
      args' := args' + [flag, vals[i]];
      i := i + 1;
    }
    assert vals[..i] == vals;
  }

  // ---------------------------------------------------------------------------
  // The fixed options
  // ---------------------------------------------------------------------------

  /** `-D` for a debug build, `buildx build --progress=plain --pull --push`,
      a second `--pull` when the run pulls and the component does not opt out,
      `--no-cache` when the run or the component disables the cache, the
      Dockerfile, and the target stage when one is named. */
  function LeadingArgs(opts: BuilderOptions, c: Component, d: DockerSpec, file: string): seq<string> {
    (if d.debug then ["-D"] else [])
      + ["buildx", "build", "--progress=plain", "--pull", "--push"]
      + (if opts.pull && !d.noPull then ["--pull"] else [])
      + (if !opts.cache || c.noCache then ["--no-cache"] else [])
      + ["--file", file]
      + (if Truthy(d.target) then ["--target", d.target.value] else [])
  }

  /** The cache is bypassed exactly when the run or the component disables it
      (for a Dockerfile path and a target that are not themselves the flag). */
  lemma NoCacheFlag(opts: BuilderOptions, c: Component, d: DockerSpec, file: string)
    requires file != "--no-cache" && d.target != Some("--no-cache")
    ensures "--no-cache" in LeadingArgs(opts, c, d, file) <==> !opts.cache || c.noCache
  {
    var l := LeadingArgs(opts, c, d, file);
    if "--no-cache" in l {
      var i :| 0 <= i < |l| && l[i] == "--no-cache";
      assert !opts.cache || c.noCache;
    }
  }

  /** `compo.docker.context ? pathlib.join(compo.dir, compo.docker.context) : compo.dir` */
  function ContextDir(join: (string, string) -> string, c: Component, d: DockerSpec): string {
    if Truthy(d.context) then join(c.dir, d.context.value) else c.dir
  }

  // ---------------------------------------------------------------------------
  // Image tags
  // ---------------------------------------------------------------------------

  /** `${path}:${suffix}` for each path. */
  function Suffixed(paths: seq<string>, suffix: string): (r: seq<string>)
    ensures |r| == |paths| && forall i :: 0 <= i < |paths| ==> r[i] == paths[i] + ":" + suffix
  {
    seq(|paths|, i requires 0 <= i < |paths| => paths[i] + ":" + suffix)
  }

  predicate PublishesPrecommit(opts: BuilderOptions, cfg: BuilderConfig, c: Component) {
    c.publish && cfg.isPrecommit == Some(true)
      && ShouldPublish(cfg.registry.precommit.publish, opts.ci)
      && StringArray(cfg.registry.precommit.target) != []
  }

  predicate PublishesPostcommit(opts: BuilderOptions, cfg: BuilderConfig, c: Component) {
    c.publish && cfg.isPostcommit == Some(true)
      && ShouldPublish(cfg.registry.postcommit.publish, opts.ci)
      && StringArray(cfg.registry.postcommit.target) != []
  }

  predicate PublishesLatest(opts: BuilderOptions, cfg: BuilderConfig, c: Component) {
    PublishesPostcommit(opts, cfg, c) && ShouldPublish(cfg.registry.postcommit.publishLatest, opts.ci)
  }

  function PrecommitImages(opts: BuilderOptions, cfg: BuilderConfig, c: Component, d: DockerSpec): seq<string> {
    if PublishesPrecommit(opts, cfg, c)
    then Suffixed(PathsFor(StringArray(cfg.registry.precommit.target), d.imageName), Rendered(opts.tag))
    else []
  }

  function PostcommitImages(opts: BuilderOptions, cfg: BuilderConfig, c: Component, d: DockerSpec): seq<string> {
    if PublishesPostcommit(opts, cfg, c)
    then Suffixed(PathsFor(StringArray(cfg.registry.postcommit.target), d.imageName), Rendered(opts.tag))
    else []
  }

  function LatestImages(opts: BuilderOptions, cfg: BuilderConfig, c: Component, d: DockerSpec): seq<string> {
    if PublishesLatest(opts, cfg, c)
    then Suffixed(PathsFor(StringArray(cfg.registry.postcommit.target), d.imageName), "latest")
    else []
  }

  /** `allFullImagePaths`: the hashed and the custom ephemeral image, then the
      precommit, the postcommit and the `latest` publish images. */
  function ImageList(opts: BuilderOptions, cfg: BuilderConfig, c: Component, d: DockerSpec): seq<string> {
    [EphemeralPath(cfg, c.project, d.imageName, c.hash, None), EphemeralPath(cfg, c.project, d.imageName, c.hash, opts.tag)]
      + PrecommitImages(opts, cfg, c, d) + PostcommitImages(opts, cfg, c, d) + LatestImages(opts, cfg, c, d)
  }

  /** Every build pushes its hashed ephemeral image first, tagged with the
      component hash, and then the image tagged with the run's tag (the hash
      again when the run has none). */
  lemma EphemeralImagesFirst(opts: BuilderOptions, cfg: BuilderConfig, c: Component, d: DockerSpec)
    ensures var l := ImageList(opts, cfg, c, d);
      && |l| >= 2
      && l[0] == EphemeralPath(cfg, c.project, d.imageName, c.hash, None)
      && EndsWith(l[0], ":" + c.hash)
      && EndsWith(l[1], ":" + (if opts.tag.Some? then opts.tag.value else c.hash))
  {
    var l := ImageList(opts, cfg, c, d);
    assert l[0] == EphemeralPath(cfg, c.project, d.imageName, c.hash, None);
    assert l[1] == EphemeralPath(cfg, c.project, d.imageName, c.hash, opts.tag);
  }

  /** A component that does not publish is pushed to the temporary registry only. */
  lemma UnpublishedStaysEphemeral(opts: BuilderOptions, cfg: BuilderConfig, c: Component, d: DockerSpec)
    requires !c.publish
    ensures ImageList(opts, cfg, c, d) == [EphemeralPath(cfg, c.project, d.imageName, c.hash, None),
                                          EphemeralPath(cfg, c.project, d.imageName, c.hash, opts.tag)]
  {
  }

  /** An image of `Suffixed(PathsFor(targets, name), suffix)`. */
  ghost predicate PathOf(targets: seq<string>, name: Option<string>, suffix: string, img: string) {
    exists t :: t in targets && img == TrimSlashes(t) + "/" + Rendered(name) + ":" + suffix
  }

  /** The suffixed publish paths are exactly the target registries' paths. */
  lemma SuffixedPaths(targets: seq<string>, name: Option<string>, suffix: string)
    ensures forall img :: img in Suffixed(PathsFor(targets, name), suffix) <==> PathOf(targets, name, suffix, img)
  {
    var s := Suffixed(PathsFor(targets, name), suffix);
    forall img ensures img in s <==> PathOf(targets, name, suffix, img) {
      if img in s {
        var i :| 0 <= i < |s| && s[i] == img;
        assert targets[i] in targets;
      }
      if PathOf(targets, name, suffix, img) {
        var t :| t in targets && img == TrimSlashes(t) + "/" + Rendered(name) + ":" + suffix;
        var i :| 0 <= i < |targets| && targets[i] == t;
        assert s[i] == img;
      }
    }
  }

  /** A publish image is the image name under a target registry of a policy
      that allows publishing in the current mode. */
  ghost predicate PublishedTo(opts: BuilderOptions, cfg: BuilderConfig, c: Component, d: DockerSpec, img: string) {
    || (PublishesPrecommit(opts, cfg, c) && PathOf(StringArray(cfg.registry.precommit.target), d.imageName, Rendered(opts.tag), img))
    || (PublishesPostcommit(opts, cfg, c) && PathOf(StringArray(cfg.registry.postcommit.target), d.imageName, Rendered(opts.tag), img))
    || (PublishesLatest(opts, cfg, c) && PathOf(StringArray(cfg.registry.postcommit.target), d.imageName, "latest", img))
  }

  /** The images of one publish policy: the suffixed paths when it is enabled,
      none otherwise. */
  lemma PolicyImages(s: seq<string>, on: bool, targets: seq<string>, name: Option<string>, suffix: string)
    requires s == if on then Suffixed(PathsFor(targets, name), suffix) else []
    ensures forall img :: img in s <==> on && PathOf(targets, name, suffix, img)
  {
    if on {
      SuffixedPaths(targets, name, suffix);
    }
  }

  lemma ImageTail(opts: BuilderOptions, cfg: BuilderConfig, c: Component, d: DockerSpec)
    ensures ImageList(opts, cfg, c, d)[2..]
      == PrecommitImages(opts, cfg, c, d) + PostcommitImages(opts, cfg, c, d) + LatestImages(opts, cfg, c, d)
  {
  }

  /** Beyond the two ephemeral images, the images pushed are exactly the
      publish images of the enabled policies: each of their target
      registries, and nothing else. */
  lemma PublishedImagesExactly(opts: BuilderOptions, cfg: BuilderConfig, c: Component, d: DockerSpec)
    ensures forall img :: img in ImageList(opts, cfg, c, d)[2..] <==> PublishedTo(opts, cfg, c, d, img)
  {
    var pre, post := StringArray(cfg.registry.precommit.target), StringArray(cfg.registry.postcommit.target);
    var a, b, e := PrecommitImages(opts, cfg, c, d), PostcommitImages(opts, cfg, c, d), LatestImages(opts, cfg, c, d);
    ImageTail(opts, cfg, c, d);
    PolicyImages(a, PublishesPrecommit(opts, cfg, c), pre, d.imageName, Rendered(opts.tag));
    PolicyImages(b, PublishesPostcommit(opts, cfg, c), post, d.imageName, Rendered(opts.tag));
    PolicyImages(e, PublishesLatest(opts, cfg, c), post, d.imageName, "latest");
    forall img ensures img in a + b + e <==> img in a || img in b || img in e {
    }
  }

  /** The publish loop: `--tag` and the image for each path. */
  method PushTags(args: seq<string>, images: seq<string>, paths: seq<string>, suffix: string)
    returns (args': seq<string>, images': seq<string>)
    ensures args' == args + Flagged("--tag", Suffixed(paths, suffix))
    ensures images' == images + Suffixed(paths, suffix)
  {
    ghost var all := Suffixed(paths, suffix);
    args', images' := args, images;
    var i := 0;
    while i < |paths|
      invariant 0 <= i <= |paths|
      invariant args' == args + Flagged("--tag", all[..i])
      invariant images' == images + all[..i]
    {
      var fullPath := paths[i] + ":" + suffix;
      FlaggedStep("--tag", all, i);
      assert all[..i + 1] == all[..i] + [fullPath];
      args' := args' + ["--tag", fullPath];
      images' := images' + [fullPath];
      i := i + 1;
    }
    assert all[..i] == all;
  }

  // ---------------------------------------------------------------------------
  // Build arguments
  // ---------------------------------------------------------------------------

  /** `buildArgsFinal`: the inherited arguments, overridden by the temporary
      ones, overridden by the component's own. */
  function FinalArgs(d: DockerSpec): ArgMap {
    Assign(Assign(Assign([], d.buildArgsInherited.GetOr([])), d.buildArgsTemp.GetOr([])), d.buildArgs.GetOr([]))
  }

  /** `${name}=${value}` for each entry. */
  function Exprs(m: ArgMap): (r: seq<string>)
    ensures |r| == |m| && forall i :: 0 <= i < |m| ==> r[i] == m[i].0 + "=" + m[i].1
  {
    seq(|m|, i requires 0 <= i < |m| => m[i].0 + "=" + m[i].1)
  }

  /** `allBuildArgExprs`: the expressions without repetition. */
  function BuildArgExprs(d: DockerSpec): seq<string> {
    Unique(Exprs(FinalArgs(d)))
  }

  predicate ArgsDistinct(d: DockerSpec) {
    DistinctKeys(d.buildArgsInherited.GetOr([])) && DistinctKeys(d.buildArgsTemp.GetOr([])) && DistinctKeys(d.buildArgs.GetOr([]))
  }

  /** A build argument takes the component's own value when it sets one, else
      the temporary value (a parent image), else the inherited value. */
  lemma FinalArgsLookup(d: DockerSpec, k: string)
    requires ArgsDistinct(d)
    ensures var inh, tmp, own := d.buildArgsInherited.GetOr([]), d.buildArgsTemp.GetOr([]), d.buildArgs.GetOr([]);
      Lookup(FinalArgs(d), k) ==
        if k in Keys(own) then Lookup(own, k)
        else if k in Keys(tmp) then Lookup(tmp, k)
        else Lookup(inh, k)
  {
    var inh, tmp, own := d.buildArgsInherited.GetOr([]), d.buildArgsTemp.GetOr([]), d.buildArgs.GetOr([]);
    AssignLookup([], inh, k);
    AssignLookup(Assign([], inh), tmp, k);
    AssignLookup(Assign(Assign([], inh), tmp), own, k);
  }

  /** The final arguments form an object: no key twice. */
  lemma FinalArgsDistinct(d: DockerSpec)
    ensures DistinctKeys(FinalArgs(d))
  {
    var inh, tmp, own := d.buildArgsInherited.GetOr([]), d.buildArgsTemp.GetOr([]), d.buildArgs.GetOr([]);
    AssignKeys([], inh);
    AssignKeys(Assign([], inh), tmp);
    AssignKeys(Assign(Assign([], inh), tmp), own);
  }

  /** Each build argument reaches the command line once, as `name=value` with
      its final value, and nothing else does. */
  lemma BuildArgExprsExactly(d: DockerSpec)
    ensures Distinct(BuildArgExprs(d))
    ensures forall e :: e in BuildArgExprs(d) <==> exists k :: Lookup(FinalArgs(d), k).Some? && e == k + "=" + Lookup(FinalArgs(d), k).value
  {
    FinalArgsDistinct(d);
    ExprsExactly(FinalArgs(d));
  }

  lemma ExprsExactly(m: ArgMap)
    requires DistinctKeys(m)
    ensures Distinct(Unique(Exprs(m)))
    ensures forall e :: e in Unique(Exprs(m)) <==> exists k :: Lookup(m, k).Some? && e == k + "=" + Lookup(m, k).value
  {
    var x := Exprs(m);
    UniqueFacts(x);
    forall e ensures e in x <==> exists k :: Lookup(m, k).Some? && e == k + "=" + Lookup(m, k).value {
      if e in x {
        var i :| 0 <= i < |x| && x[i] == e;
        LookupEntry(m, i);
        assert Lookup(m, m[i].0).Some? && e == m[i].0 + "=" + Lookup(m, m[i].0).value;
      }
      if exists k :: Lookup(m, k).Some? && e == k + "=" + Lookup(m, k).value {
        var k :| Lookup(m, k).Some? && e == k + "=" + Lookup(m, k).value;
        var i := EntryIndex(m, k, Lookup(m, k).value);
        assert x[i] == e;
      }
    }
  }

  /** The position of an entry that `Lookup` finds. */
  lemma EntryIndex(m: ArgMap, k: string, v: string) returns (i: nat)
    requires Lookup(m, k) == Some(v)
    ensures i < |m| && m[i] == (k, v)
  {
    var j :| 0 <= j < |m| && m[j] == (k, v);
    i := j;
  }

  /** In an object every entry is what `Lookup` reads for its key. */
  lemma {:induction false} LookupEntry(m: ArgMap, i: nat)
    requires DistinctKeys(m) && i < |m|
    ensures Lookup(m, m[i].0) == Some(m[i].1)
    decreases i
  {
    if i > 0 && m[0].0 != m[i].0 {
      assert DistinctKeys(m[1..]);
      assert m[1..][i - 1] == m[i];
      LookupEntry(m[1..], i - 1);
    }
  }

  // ---------------------------------------------------------------------------
  // Registry cache
  // ---------------------------------------------------------------------------

  /** `${cacheRegistry}/${compo.fullname}`, lower-cased. */
  function CacheImage(reg: string, fullname: string): string {
    Lower(reg + "/" + fullname)
  }

  /** A branch as an image tag: `/` written `__`. */
  function BranchTag(branch: string): string {
    ReplaceAll(branch, "/", "__")
  }

  /** `${imagePath}:${branch.replace(/\//g, '__')}`, lower-cased. */
  function BranchRef(image: string, branch: string): string {
    Lower(image + ":" + BranchTag(branch))
  }

  /** `defaultCacheToOpts`: mode `max` and compression level 3 unless the
      component configures them. */
  function CacheToOpts(cc: CacheConfig): string {
    "mode=" + (if cc.mode.Some? then cc.mode.value else "max")
      + ",ignore-error=true,compression=zstd,compression-level="
      + NatToString(if cc.compressionLevel.Some? then cc.compressionLevel.value else 3)
      + ",image-manifest=true"
  }

  /** The base and the head reference of each registry, in that order. */
  function CacheRefs(regs: seq<string>, fullname: string, base: string, head: string): (r: seq<string>)
    ensures |r| == 2 * |regs|
    ensures forall i :: 0 <= i < |regs| ==>
      r[2 * i] == BranchRef(CacheImage(regs[i], fullname), base) && r[2 * i + 1] == BranchRef(CacheImage(regs[i], fullname), head)
    decreases |regs|
  {
    if regs == [] then []
    else
      var init := regs[..|regs| - 1];
      var img := CacheImage(regs[|regs| - 1], fullname);
      assert forall i :: 0 <= i < |init| ==> init[i] == regs[i];
      CacheRefs(init, fullname, base, head) + [BranchRef(img, base), BranchRef(img, head)]
  }

  /** The cache is exported to the head reference of a registry unless that
      reference is the base reference, which postcommit builds export anyway. */
  predicate ExportsCache(img: string, base: string, head: string, postcommit: bool) {
    BranchRef(img, head) != BranchRef(img, base) || postcommit
  }

  /** The `--cache-to` values, one per exporting registry. */
  function CacheTos(regs: seq<string>, fullname: string, base: string, head: string, postcommit: bool, opts: string): seq<string>
    decreases |regs|
  {
    if regs == [] then []
    else
      var img := CacheImage(regs[|regs| - 1], fullname);
      CacheTos(regs[..|regs| - 1], fullname, base, head, postcommit, opts)
        + (if ExportsCache(img, base, head, postcommit)
           then [Lower("type=registry,ref=" + BranchRef(img, head) + "," + opts)] else [])
  }

  /** The `--cache-from` values: the references whose image exists, in order. */
  function CacheFroms(refs: seq<string>, cached: string -> bool): seq<string>
    decreases |refs|
  {
    if refs == [] then []
    else
      CacheFroms(refs[..|refs| - 1], cached)
        + (if cached(refs[|refs| - 1]) then ["type=registry,ref=" + refs[|refs| - 1]] else [])
  }

  /** The cache options, or `None` when a cache registry is configured but a
      branch is not known, which makes the branch's `replace` throw. */
  function CacheArgs(cfg: BuilderConfig, c: Component, d: DockerSpec, cached: string -> bool): Option<seq<string>> {
    var regs := StringArray(cfg.registry.cache);
    if regs == [] then Some([])
    else if cfg.baseBranch.None? || cfg.headBranch.None? then None
    else
      var base, head := cfg.baseBranch.value, cfg.headBranch.value;
      Some(Flagged("--cache-to", CacheTos(regs, c.fullname, base, head, cfg.isPostcommit == Some(true), CacheToOpts(d.cacheConfig)))
        + Flagged("--cache-from", CacheFroms(CacheRefs(regs, c.fullname, base, head), cached)))
  }

  lemma {:induction false} LowerConcat(a: string, b: string)
    ensures Lower(a + b) == Lower(a) + Lower(b)
  {
    assert forall i :: 0 <= i < |a + b| ==> (a + b)[i] == if i < |a| then a[i] else b[i - |a|];
  }

  /** Two references into the same image differ exactly when the lower-cased
      branch tags do. */
  lemma BranchRefsDiffer(img: string, base: string, head: string)
    ensures BranchRef(img, head) != BranchRef(img, base) <==> Lower(BranchTag(head)) != Lower(BranchTag(base))
  {
    LowerConcat(img + ":", BranchTag(head));
    LowerConcat(img + ":", BranchTag(base));
    var p := Lower(img + ":");
    if BranchRef(img, head) == BranchRef(img, base) {
      assert Lower(BranchTag(head)) == (p + Lower(BranchTag(head)))[|p|..];
      assert Lower(BranchTag(base)) == (p + Lower(BranchTag(base)))[|p|..];
    }
  }

  /** A branch tag holds no `/`, so a branch reference is a valid image tag. */
  lemma {:induction false} BranchTagHasNoSlash(branch: string)
    ensures '/' !in Lower(BranchTag(branch))
    decreases |branch|
  {
    NoSlashAfterEncoding(branch);
    var t := BranchTag(branch);
    forall i | 0 <= i < |t| ensures Lower(t)[i] != '/' {
      assert t[i] in t;
    }
  }

  lemma {:induction false} NoSlashAfterEncoding(s: string)
    ensures '/' !in ReplaceAll(s, "/", "__")
    decreases |s|
  {
    if |s| >= 1 {
      if s[..1] == "/" {
        NoSlashAfterEncoding(s[1..]);
        assert ReplaceAll(s, "/", "__") == "__" + ReplaceAll(s[1..], "/", "__");
      } else {
        NoSlashAfterEncoding(s[1..]);
        assert s[0] != '/' by { assert s[..1] == [s[0]]; }
        assert ReplaceAll(s, "/", "__") == [s[0]] + ReplaceAll(s[1..], "/", "__");
      }
    }
  }

  /** A postcommit build exports the cache to every registry; a build whose
      head and base branches give the same tag exports nothing otherwise. */
  lemma {:induction false} CacheExports(regs: seq<string>, fullname: string, base: string, head: string, postcommit: bool, opts: string)
    ensures postcommit ==> |CacheTos(regs, fullname, base, head, postcommit, opts)| == |regs|
    ensures !postcommit && Lower(BranchTag(head)) == Lower(BranchTag(base)) ==> CacheTos(regs, fullname, base, head, postcommit, opts) == []
    ensures !postcommit && Lower(BranchTag(head)) != Lower(BranchTag(base)) ==> |CacheTos(regs, fullname, base, head, postcommit, opts)| == |regs|
    decreases |regs|
  {
    if regs != [] {
      CacheExports(regs[..|regs| - 1], fullname, base, head, postcommit, opts);
      BranchRefsDiffer(CacheImage(regs[|regs| - 1], fullname), base, head);
    }
  }

  /** Each existing reference, and no other, is imported from, in order. */
  lemma {:induction false} CacheFromsExactly(refs: seq<string>, cached: string -> bool)
    ensures forall e :: e in CacheFroms(refs, cached) <==> exists r :: r in refs && cached(r) && e == "type=registry,ref=" + r
    decreases |refs|
  {
    if refs != [] {
      CacheFromsExactly(refs[..|refs| - 1], cached);
      assert refs == refs[..|refs| - 1] + [refs[|refs| - 1]];
    }
  }

  lemma CacheStep(regs: seq<string>, fullname: string, base: string, head: string, postcommit: bool, opts: string, i: nat)
    requires i < |regs|
    ensures var img := CacheImage(regs[i], fullname);
      && CacheRefs(regs[..i + 1], fullname, base, head) == CacheRefs(regs[..i], fullname, base, head) + [BranchRef(img, base), BranchRef(img, head)]
      && CacheTos(regs[..i + 1], fullname, base, head, postcommit, opts) == CacheTos(regs[..i], fullname, base, head, postcommit, opts)
           + (if ExportsCache(img, base, head, postcommit) then [Lower("type=registry,ref=" + BranchRef(img, head) + "," + opts)] else [])
  {
    assert regs[..i + 1][..i] == regs[..i];
  }

  lemma FromStep(refs: seq<string>, cached: string -> bool, i: nat)
    requires i < |refs|
    ensures CacheFroms(refs[..i + 1], cached) == CacheFroms(refs[..i], cached)
      + (if cached(refs[i]) then ["type=registry,ref=" + refs[i]] else [])
  {
    assert refs[..i + 1][..i] == refs[..i];
  }

  /** The registry loop of `addCacheOpts`: the references to look up, and the
      `--cache-to` options. */
  method CacheToLoop(regs: seq<string>, fullname: string, base: string, head: string, postcommit: bool, opts: string)
    returns (refs: seq<string>, toArgs: seq<string>)
    ensures refs == CacheRefs(regs, fullname, base, head)
    ensures toArgs == Flagged("--cache-to", CacheTos(regs, fullname, base, head, postcommit, opts))
  {
    toArgs, refs := [], [];
    ghost var tos: seq<string> := [];
    var i := 0;
    while i < |regs|
      invariant 0 <= i <= |regs|
      invariant refs == CacheRefs(regs[..i], fullname, base, head)
      invariant tos == CacheTos(regs[..i], fullname, base, head, postcommit, opts)
      invariant toArgs == Flagged("--cache-to", tos)
    {
      var img := CacheImage(regs[i], fullname);
      var refBase, refHead := BranchRef(img, base), BranchRef(img, head);
      CacheStep(regs, fullname, base, head, postcommit, opts, i);
      refs := refs + [refBase, refHead];
      if refHead != refBase || postcommit {
        var v := Lower("type=registry,ref=" + refHead + "," + opts);
        FlaggedAppend("--cache-to", tos, [v]);
        tos := tos + [v];
        toArgs := toArgs + ["--cache-to", v];
      }
      i := i + 1;
    }
    assert regs[..i] == regs;
  }

  /** The settled look-ups of `addCacheOpts`: `--cache-from` for each
      reference whose image exists. */
  method CacheFromLoop(refs: seq<string>, cached: string -> bool) returns (fromArgs: seq<string>)
    ensures fromArgs == Flagged("--cache-from", CacheFroms(refs, cached))
  {
    fromArgs := [];
    ghost var froms: seq<string> := [];
    var j := 0;
    while j < |refs|
      invariant 0 <= j <= |refs|
      invariant froms == CacheFroms(refs[..j], cached)
      invariant fromArgs == Flagged("--cache-from", froms)
    {
      FromStep(refs, cached, j);
      if cached(refs[j]) {
        var v := "type=registry,ref=" + refs[j];
        FlaggedAppend("--cache-from", froms, [v]);
        froms := froms + [v];
        fromArgs := fromArgs + ["--cache-from", v];
      }
      j := j + 1;
    }
    assert refs[..j] == refs;
  }

  /** `addCacheOpts`: nothing without a cache registry; otherwise the
      `--cache-to` options, then the `--cache-from` options. */
  method CacheOptions(cfg: BuilderConfig, c: Component, d: DockerSpec, cached: string -> bool) returns (r: Option<seq<string>>)
    ensures r == CacheArgs(cfg, c, d, cached)
  {
    var regs := StringArray(cfg.registry.cache);
    if regs == [] {
      return Some([]);
    }
    if cfg.baseBranch.None? || cfg.headBranch.None? {
      return None;
    }
    var base, head := cfg.baseBranch.value, cfg.headBranch.value;
    var refs, toArgs := CacheToLoop(regs, c.fullname, base, head, cfg.isPostcommit == Some(true), CacheToOpts(d.cacheConfig));
    var fromArgs := CacheFromLoop(refs, cached);
    r := Some(toArgs + fromArgs);
  }

  // ---------------------------------------------------------------------------
  // The command
  // ---------------------------------------------------------------------------

  /** The tag options and `allFullImagePaths`: the two ephemeral images, then
      the publish images of the enabled policies. */
  method Tags(opts: BuilderOptions, cfg: BuilderConfig, c: Component, d: DockerSpec) returns (args: seq<string>, images: seq<string>)
    ensures images == ImageList(opts, cfg, c, d)
    ensures args == Flagged("--tag", images)
  {
    var hashed := EphemeralPath(cfg, c.project, d.imageName, c.hash, None);
    var custom := EphemeralPath(cfg, c.project, d.imageName, c.hash, opts.tag);
    args := ["--tag", hashed, "--tag", custom];
    images := [hashed, custom];
    assert Flagged("--tag", images) == ["--tag", hashed, "--tag", custom];
    args, images := PushPrecommit(opts, cfg, c, d, args, images);
    args, images := PushPostcommit(opts, cfg, c, d, args, images);
  }

  /** The precommit publish block. */
  method PushPrecommit(opts: BuilderOptions, cfg: BuilderConfig, c: Component, d: DockerSpec, args: seq<string>, images: seq<string>)
    returns (args': seq<string>, images': seq<string>)
    requires args == Flagged("--tag", images)
    ensures images' == images + PrecommitImages(opts, cfg, c, d)
    ensures args' == Flagged("--tag", images')
  {
    args', images' := args, images;
    if PublishesPrecommit(opts, cfg, c) {
      var paths := PublishPaths(StringArray(cfg.registry.precommit.target), d.imageName);
      args', images' := PushTags(args', images', paths, Rendered(opts.tag));
    }
    FlaggedAppend("--tag", images, PrecommitImages(opts, cfg, c, d));
  }

  /** The postcommit publish block, with its `latest` images. */
  method PushPostcommit(opts: BuilderOptions, cfg: BuilderConfig, c: Component, d: DockerSpec, args: seq<string>, images: seq<string>)
    returns (args': seq<string>, images': seq<string>)
    requires args == Flagged("--tag", images)
    ensures images' == images + PostcommitImages(opts, cfg, c, d) + LatestImages(opts, cfg, c, d)
    ensures args' == Flagged("--tag", images')
  {
    ghost var post, latest := PostcommitImages(opts, cfg, c, d), LatestImages(opts, cfg, c, d);
    args', images' := args, images;
    if PublishesPostcommit(opts, cfg, c) {
      var paths := PublishPaths(StringArray(cfg.registry.postcommit.target), d.imageName);
      args', images' := PushTags(args', images', paths, Rendered(opts.tag));
      FlaggedAppend("--tag", images, post);
      if ShouldPublish(cfg.registry.postcommit.publishLatest, opts.ci) {
        args', images' := PushTags(args', images', paths, "latest");
        FlaggedAppend("--tag", images + post, latest);
      } else {
        assert images' == images + post + latest;
      }
    } else {
      assert images' == images + post + latest;
    }
  }

  /** The command line and image list for the component `c`, built with the
      builder `chosen` (empty for none); `None` when the cache options throw.
      The component has passed preparation, so its `docker` section exists. */
  method BuildCommand(opts: BuilderOptions, cfg: BuilderConfig, join: (string, string) -> string, c: Component,
                      chosen: string, cached: string -> bool)
    returns (cmd: Option<Command>)
    requires c.docker.Some?
    ensures cmd.None? <==> CacheArgs(cfg, c, c.docker.value, cached).None?
    ensures cmd.Some? ==>
      var d := c.docker.value;
      && cmd.value.images == ImageList(opts, cfg, c, d)
      && cmd.value.args == LeadingArgs(opts, c, d, join(c.dir, DockerfileName(c))) + BuilderArgs(chosen)
           + Flagged("--tag", ImageList(opts, cfg, c, d))
           + Flagged("--build-arg", BuildArgExprs(d))
           + CacheArgs(cfg, c, d, cached).value
           + [ContextDir(join, c, d)]
  {
    var d := c.docker.value;
    var args := LeadingArgs(opts, c, d, join(c.dir, DockerfileName(c))) + BuilderArgs(chosen);
    var tagArgs, images := Tags(opts, cfg, c, d);
    args := args + tagArgs;
    args := PushFlagged(args, "--build-arg", BuildArgExprs(d));
    var cache := CacheOptions(cfg, c, d, cached);
    if cache.None? {
      return None;
    }
    args := args + cache.value + [ContextDir(join, c, d)];
    cmd := Some(Command(args, images));
  }
}
