/** Build preparation (`buildPrepComponent`, lib/node/builder/builder.ts:407-494):
    the image name default, the inherited build arguments, and the
    `ARG EXTEND_FROM_<name>` declarations of the Dockerfile, which name a parent
    component whose ephemeral image is passed in as a temporary build argument.
    Reading the Dockerfile and `pathlib.join` are parameters of the model. */
module Prep {
  import opened Wrappers
  import opened Text
  import opened ArgMaps
  import opened Config
  import opened Manifest
  import opened Images

  const Marker := "ARG EXTEND_FROM_"

  /** The prefix of the temporary build argument naming a parent's image. */
  const ArgPrefix := "EXTEND_FROM_"

  datatype PrepError =
    | BuilderNotSpecified(manifestPath: string)
    | DockerfileMissing(path: string, dockerfile: string)
    | ExtendAfterFrom(path: string, line: string, lineNumber: nat)
    | ParentMissing(path: string, depName: string, parentName: string, manifestPath: string)

  predicate IsFrom(line: string) {
    StartsWith(line, "FROM")
  }

  predicate HasMarker(line: string) {
    Contains(line, Marker)
  }

  // ---------------------------------------------------------------------------
  // The Dockerfile scan. It is stated for any pair of line tests `isFrom` and
  // `hasMarker`; the preparation passes `IsFrom` and `HasMarker`.
  // ---------------------------------------------------------------------------

  /** The index of the first `FROM` line, or the number of lines. */
  function FirstFrom(lines: seq<string>, isFrom: string -> bool): (r: nat)
    ensures r <= |lines|
    ensures forall i :: 0 <= i < r ==> !isFrom(lines[i])
    ensures r < |lines| ==> isFrom(lines[r])
  {
    if lines == [] then 0
    else if isFrom(lines[0]) then 0
    else
      var r := 1 + FirstFrom(lines[1..], isFrom);
      assert forall i :: 1 <= i < r ==> lines[i] == lines[1..][i - 1];
      r
  }

  /** The lines carrying the marker, in order. */
  function Marked(lines: seq<string>, hasMarker: string -> bool): seq<string>
    decreases |lines|
  {
    if lines == [] then []
    else Marked(lines[..|lines| - 1], hasMarker) + (if hasMarker(lines[|lines| - 1]) then [lines[|lines| - 1]] else [])
  }

  lemma {:induction false} MarkedExactly(lines: seq<string>, hasMarker: string -> bool)
    ensures forall x :: x in Marked(lines, hasMarker) <==> x in lines && hasMarker(x)
    decreases |lines|
  {
    if lines != [] {
      MarkedExactly(lines[..|lines| - 1], hasMarker);
      assert lines == lines[..|lines| - 1] + [lines[|lines| - 1]];
    }
  }

  /** The errors for the marked lines that follow line `f`, each with its
      1-based line number; `FROM` lines themselves are skipped. */
  function LateErrors(path: string, lines: seq<string>, f: nat, isFrom: string -> bool, hasMarker: string -> bool): seq<PrepError>
    decreases |lines|
  {
    if lines == [] then []
    else
      var n := |lines|;
      LateErrors(path, lines[..n - 1], f, isFrom, hasMarker)
        + (if n - 1 > f && !isFrom(lines[n - 1]) && hasMarker(lines[n - 1])
           then [ExtendAfterFrom(path, lines[n - 1], n)] else [])
  }

  /** The marked line `j` is late: it follows line `f` and is no `FROM` line. */
  predicate Late(lines: seq<string>, f: nat, isFrom: string -> bool, hasMarker: string -> bool, j: int) {
    f < j < |lines| && !isFrom(lines[j]) && hasMarker(lines[j])
  }

  /** One error per marked line after line `f`, naming that line and its number. */
  lemma {:induction false} LateErrorsExactly(path: string, lines: seq<string>, f: nat, isFrom: string -> bool, hasMarker: string -> bool)
    ensures forall e :: e in LateErrors(path, lines, f, isFrom, hasMarker) <==>
      exists j :: Late(lines, f, isFrom, hasMarker, j) && e == ExtendAfterFrom(path, lines[j], j + 1)
    decreases |lines|
  {
    if lines != [] {
      var n := |lines|;
      var init := lines[..n - 1];
      LateErrorsExactly(path, init, f, isFrom, hasMarker);
      forall e ensures e in LateErrors(path, lines, f, isFrom, hasMarker) <==>
        exists j :: Late(lines, f, isFrom, hasMarker, j) && e == ExtendAfterFrom(path, lines[j], j + 1)
      {
        if e in LateErrors(path, init, f, isFrom, hasMarker) {
          var j :| Late(init, f, isFrom, hasMarker, j) && e == ExtendAfterFrom(path, init[j], j + 1);
          assert lines[j] == init[j];
          assert Late(lines, f, isFrom, hasMarker, j);
        }
        if exists j :: Late(lines, f, isFrom, hasMarker, j) && e == ExtendAfterFrom(path, lines[j], j + 1) {
          var j :| Late(lines, f, isFrom, hasMarker, j) && e == ExtendAfterFrom(path, lines[j], j + 1);
          if j < n - 1 {
            assert init[j] == lines[j];
            assert Late(init, f, isFrom, hasMarker, j);
          }
        }
      }
    }
  }

  /** The line loop: marked lines before the first `FROM` are collected, a
      marked line after it is an error carrying its 1-based line number. */
  method ScanDockerfile(path: string, lines: seq<string>, isFrom: string -> bool, hasMarker: string -> bool)
    returns (collected: seq<string>, errors: seq<PrepError>)
    ensures collected == Marked(lines[..FirstFrom(lines, isFrom)], hasMarker)
    ensures errors == LateErrors(path, lines, FirstFrom(lines, isFrom), isFrom, hasMarker)
  {
    ghost var f := FirstFrom(lines, isFrom);
    collected, errors := [], [];
    var beforeFrom := true;
    var lineNumber := 0;
    while lineNumber < |lines|
      invariant 0 <= lineNumber <= |lines|
      invariant beforeFrom <==> lineNumber <= f
      invariant collected == Marked(lines[..if lineNumber <= f then lineNumber else f], hasMarker)
      invariant errors == LateErrors(path, lines[..lineNumber], f, isFrom, hasMarker)
    {
      var line := lines[lineNumber];
      assert lines[..lineNumber + 1][..lineNumber] == lines[..lineNumber];
      assert lines[..lineNumber + 1][lineNumber] == line;
      lineNumber := lineNumber + 1;
      if isFrom(line) {
        beforeFrom := false;
      } else if hasMarker(line) {
        if beforeFrom {
          collected := collected + [line];
        } else {
          errors := errors + [ExtendAfterFrom(path, line, lineNumber)];
        }
      }
    }
    assert lines[..lineNumber] == lines;
  }

  // ---------------------------------------------------------------------------
  // Parent names
  // ---------------------------------------------------------------------------

  /** `line.replace('ARG EXTEND_FROM_', '').split('=')[0].split(' ')[0].toLowerCase()` */
  function DepName(line: string): (r: string)
    ensures '=' !in r && ' ' !in r && IsLowerCase(r)
  {
    var field := Split(ReplaceFirst(line, Marker, ""), '=')[0];
    var head := Split(field, ' ')[0];
    SplitHeadPrefix(field, ' ');
    var r := Lower(head);
    assert forall i :: 0 <= i < |r| ==> r[i] != '=' && r[i] != ' ' by {
      forall i | 0 <= i < |r| ensures r[i] != '=' && r[i] != ' ' {
        assert head[i] == field[i] && field[i] in field;
        assert head[i] in head;
        assert r[i] == LowerChar(head[i]);
      }
    }
    r
  }

  /** The first field of a split is a prefix of the string split. */
  lemma {:induction false} SplitHeadPrefix(s: string, c: char)
    ensures Split(s, c)[0] <= s
    decreases |s|
  {
    if s != [] {
      SplitHeadPrefix(s[1..], c);
      assert s == [s[0]] + s[1..];
    }
  }

  function DepNames(lines: seq<string>): (r: seq<string>)
    ensures |r| == |lines| && forall i :: 0 <= i < |lines| ==> r[i] == DepName(lines[i])
  {
    seq(|lines|, i requires 0 <= i < |lines| => DepName(lines[i]))
  }

  /** `depName.replace(/__/g, '/')` */
  function Original(depName: string): string {
    ReplaceAll(depName, "__", "/")
  }

  /** `depNameOriginal.replace(/_/g, '-')` */
  function Hyphenated(depName: string): string {
    ReplaceChar(Original(depName), '_', '-')
  }

  predicate Matches(s: string, a: string, b: string) {
    s == a || s == b
  }

  /** Every listed key has a component. */
  predicate Listed(reg: Registry) {
    forall k :: k in reg.order ==> k in reg.comps
  }

  /** The first of `keys` whose component's bare name is `a` or `b`. */
  function FirstByName(comps: map<string, Component>, keys: seq<string>, a: string, b: string): (r: Option<string>)
    requires forall k :: k in keys ==> k in comps
    ensures r.Some? ==> r.value in keys
    decreases |keys|
  {
    if keys == [] then None
    else if Matches(comps[keys[0]].name, a, b) then Some(keys[0])
    else FirstByName(comps, keys[1..], a, b)
  }

  /** The first of `keys` whose component's fullname is `a` or `b`. */
  function FirstByFullname(comps: map<string, Component>, keys: seq<string>, a: string, b: string): (r: Option<string>)
    requires forall k :: k in keys ==> k in comps
    ensures r.Some? ==> r.value in keys
    decreases |keys|
  {
    if keys == [] then None
    else if Matches(comps[keys[0]].fullname, a, b) then Some(keys[0])
    else FirstByFullname(comps, keys[1..], a, b)
  }

  /** The search finds the first key whose bare name matches, and finds none
      exactly when no key's bare name does. */
  lemma {:induction false} FirstByNameFacts(comps: map<string, Component>, keys: seq<string>, a: string, b: string)
    requires forall k :: k in keys ==> k in comps
    ensures var r := FirstByName(comps, keys, a, b);
      && (r.Some? ==> exists i :: 0 <= i < |keys| && keys[i] == r.value && Matches(comps[keys[i]].name, a, b)
                        && forall j :: 0 <= j < i ==> !Matches(comps[keys[j]].name, a, b))
      && (r.None? <==> forall k :: k in keys ==> !Matches(comps[k].name, a, b))
    decreases |keys|
  {
    if keys != [] && !Matches(comps[keys[0]].name, a, b) {
      FirstByNameFacts(comps, keys[1..], a, b);
      var r := FirstByName(comps, keys, a, b);
      if r.Some? {
        var i :| 0 <= i < |keys[1..]| && keys[1..][i] == r.value && Matches(comps[keys[1..][i]].name, a, b)
                 && forall j :: 0 <= j < i ==> !Matches(comps[keys[1..][j]].name, a, b);
        assert keys[i + 1] == keys[1..][i];
        assert forall j :: 1 <= j < i + 1 ==> keys[j] == keys[1..][j - 1];
      }
      assert forall k :: k in keys <==> k == keys[0] || k in keys[1..];
    } else if keys != [] {
      assert keys[0] == FirstByName(comps, keys, a, b).value;
    }
  }

  /** The same for fullnames. */
  lemma {:induction false} FirstByFullnameFacts(comps: map<string, Component>, keys: seq<string>, a: string, b: string)
    requires forall k :: k in keys ==> k in comps
    ensures var r := FirstByFullname(comps, keys, a, b);
      && (r.Some? ==> exists i :: 0 <= i < |keys| && keys[i] == r.value && Matches(comps[keys[i]].fullname, a, b)
                        && forall j :: 0 <= j < i ==> !Matches(comps[keys[j]].fullname, a, b))
      && (r.None? <==> forall k :: k in keys ==> !Matches(comps[k].fullname, a, b))
    decreases |keys|
  {
    if keys != [] && !Matches(comps[keys[0]].fullname, a, b) {
      FirstByFullnameFacts(comps, keys[1..], a, b);
      var r := FirstByFullname(comps, keys, a, b);
      if r.Some? {
        var i :| 0 <= i < |keys[1..]| && keys[1..][i] == r.value && Matches(comps[keys[1..][i]].fullname, a, b)
                 && forall j :: 0 <= j < i ==> !Matches(comps[keys[1..][j]].fullname, a, b);
        assert keys[i + 1] == keys[1..][i];
        assert forall j :: 1 <= j < i + 1 ==> keys[j] == keys[1..][j - 1];
      }
      assert forall k :: k in keys <==> k == keys[0] || k in keys[1..];
    } else if keys != [] {
      assert keys[0] == FirstByFullname(comps, keys, a, b).value;
    }
  }

  /** `found[0]`, where `found` lists the bare names of all components in key
      order followed by all their fullnames, kept when equal to the declared
      name read with `__` as `/`, or that read with `_` as `-`. */
  function ParentOf(reg: Registry, depName: string): (r: Option<string>)
    requires Listed(reg)
    ensures r.Some? ==> r.value in reg.order
  {
    var a, b := Original(depName), Hyphenated(depName);
    match FirstByName(reg.comps, reg.order, a, b)
    case Some(k) => Some(k)
    case None => FirstByFullname(reg.comps, reg.order, a, b)
  }

  /** A parent is found exactly when some component's bare name or fullname
      matches; the parent found matches, and a bare-name match is preferred
      to any fullname match. */
  lemma ParentOfExactly(reg: Registry, depName: string)
    requires Listed(reg)
    ensures var a, b, r := Original(depName), Hyphenated(depName), ParentOf(reg, depName);
      && (r.Some? ==> Matches(reg.comps[r.value].name, a, b) || Matches(reg.comps[r.value].fullname, a, b))
      && (r.None? <==> forall k :: k in reg.order ==> !Matches(reg.comps[k].name, a, b) && !Matches(reg.comps[k].fullname, a, b))
      && ((exists k :: k in reg.order && Matches(reg.comps[k].name, a, b)) ==> r.Some? && Matches(reg.comps[r.value].name, a, b))
  {
    var a, b := Original(depName), Hyphenated(depName);
    FirstByNameFacts(reg.comps, reg.order, a, b);
    FirstByFullnameFacts(reg.comps, reg.order, a, b);
  }

  // ---------------------------------------------------------------------------
  // The temporary build arguments
  // ---------------------------------------------------------------------------

  /** The parent of `depName` has no `docker` section, so reading its image
      name throws. */
  predicate Throws(reg: Registry, depName: string)
    requires Listed(reg)
  {
    var p := ParentOf(reg, depName);
    p.Some? && reg.comps[p.value].docker.None?
  }

  /** The parent of `depName` is found and has an image. */
  predicate Resolves(reg: Registry, depName: string)
    requires Listed(reg)
  {
    var p := ParentOf(reg, depName);
    p.Some? && reg.comps[p.value].docker.Some?
  }

  /** The parent's hashed ephemeral image. */
  function ParentImage(reg: Registry, cfg: BuilderConfig, depName: string): string
    requires Listed(reg) && Resolves(reg, depName)
  {
    var p := reg.comps[ParentOf(reg, depName).value];
    EphemeralPath(cfg, p.project, p.docker.value.imageName, p.hash, None)
  }

  /** The number of names handled before one throws. */
  function Handled(reg: Registry, names: seq<string>): (r: nat)
    requires Listed(reg)
    ensures r <= |names|
    decreases |names|
  {
    if names == [] then 0
    else if Throws(reg, names[0]) then 0
    else 1 + Handled(reg, names[1..])
  }

  /** No name before the `Handled` one throws, and that one does. */
  lemma {:induction false} HandledFacts(reg: Registry, names: seq<string>)
    requires Listed(reg)
    ensures forall i :: 0 <= i < Handled(reg, names) ==> !Throws(reg, names[i])
    ensures Handled(reg, names) < |names| ==> Throws(reg, names[Handled(reg, names)])
    decreases |names|
  {
    if names != [] && !Throws(reg, names[0]) {
      HandledFacts(reg, names[1..]);
      assert forall i :: 1 <= i < |names| ==> names[i] == names[1..][i - 1];
    }
  }

  /** Up to the `Handled` name, a name throws exactly when it is that one. */
  lemma HandledAt(reg: Registry, names: seq<string>, i: nat)
    requires Listed(reg) && i <= Handled(reg, names) && i < |names|
    ensures Throws(reg, names[i]) <==> Handled(reg, names) == i
  {
    HandledFacts(reg, names);
  }

  /** The errors for the names without a parent, in order. */
  function MissingParents(reg: Registry, path: string, manifestPath: string, names: seq<string>): seq<PrepError>
    requires Listed(reg)
    decreases |names|
  {
    if names == [] then []
    else
      var n := names[|names| - 1];
      MissingParents(reg, path, manifestPath, names[..|names| - 1])
        + (if ParentOf(reg, n).None? then [ParentMissing(path, n, Original(n), manifestPath)] else [])
  }

  /** One error per name without a parent. */
  lemma {:induction false} MissingParentsExactly(reg: Registry, path: string, manifestPath: string, names: seq<string>)
    requires Listed(reg)
    ensures forall e :: e in MissingParents(reg, path, manifestPath, names) <==>
      exists n :: n in names && ParentOf(reg, n).None? && e == ParentMissing(path, n, Original(n), manifestPath)
    decreases |names|
  {
    if names != [] {
      MissingParentsExactly(reg, path, manifestPath, names[..|names| - 1]);
      assert names == names[..|names| - 1] + [names[|names| - 1]];
    }
  }

  /** `temp` after `build_args_temp["EXTEND_FROM_" + n] = <image of the parent>`
      for each of `names` in turn whose parent has an image, the map created
      on first use. */
  function TempArgs(reg: Registry, cfg: BuilderConfig, names: seq<string>, temp: Option<ArgMap>): Option<ArgMap>
    requires Listed(reg)
    decreases |names|
  {
    if names == [] then temp
    else
      var n := names[|names| - 1];
      var t := TempArgs(reg, cfg, names[..|names| - 1], temp);
      if Resolves(reg, n) then Some(Put(t.GetOr([]), ArgPrefix + n, ParentImage(reg, cfg, n))) else t
  }

  /** Some name among `names` resolves. */
  predicate AnyResolves(reg: Registry, names: seq<string>)
    requires Listed(reg)
  {
    exists n :: n in names && Resolves(reg, n)
  }

  /** The key of a temporary argument determines the name it was made from. */
  lemma ArgKey(n: string, key: string)
    ensures key == ArgPrefix + n <==> StartsWith(key, ArgPrefix) && key[|ArgPrefix|..] == n
  {
    if key == ArgPrefix + n {
      assert key[..|ArgPrefix|] == ArgPrefix;
      assert key[|ArgPrefix|..] == n;
    }
    if StartsWith(key, ArgPrefix) && key[|ArgPrefix|..] == n {
      assert key == key[..|ArgPrefix|] + key[|ArgPrefix|..];
    }
  }

  /** The temporary arguments exist once some parent has an image; the key
      `EXTEND_FROM_<name>` of a name whose parent has an image reads that
      parent's image, and every other key reads as before. */
  lemma {:induction false} TempArgsLookup(reg: Registry, cfg: BuilderConfig, names: seq<string>, temp: Option<ArgMap>, key: string)
    requires Listed(reg)
    ensures TempArgs(reg, cfg, names, temp).Some? <==> temp.Some? || AnyResolves(reg, names)
    ensures Lookup(TempArgs(reg, cfg, names, temp).GetOr([]), key) ==
      if StartsWith(key, ArgPrefix) && key[|ArgPrefix|..] in names && Resolves(reg, key[|ArgPrefix|..])
      then Some(ParentImage(reg, cfg, key[|ArgPrefix|..]))
      else Lookup(temp.GetOr([]), key)
    decreases |names|
  {
    if names != [] {
      var init, n := names[..|names| - 1], names[|names| - 1];
      TempArgsLookup(reg, cfg, init, temp, key);
      assert forall m :: m in names <==> m in init || m == n by {
        assert names == init + [n];
      }
      if Resolves(reg, n) {
        var t := TempArgs(reg, cfg, init, temp);
        PutLookup(t.GetOr([]), ArgPrefix + n, ParentImage(reg, cfg, n), key);
        ArgKey(n, key);
      }
    }
  }

  /** The dependency loop: a name without a parent is an error; otherwise the
      parent's image becomes `build_args_temp["EXTEND_FROM_" + name]`. A parent
      without a `docker` section throws, which ends the preparation there. */
  method ResolveExtends(reg: Registry, cfg: BuilderConfig, path: string, manifestPath: string,
                        names: seq<string>, temp: Option<ArgMap>)
    returns (temp': Option<ArgMap>, errors: seq<PrepError>, threw: bool)
    requires Listed(reg)
    ensures threw <==> Handled(reg, names) < |names|
    ensures errors == MissingParents(reg, path, manifestPath, names[..Handled(reg, names)])
    ensures temp' == TempArgs(reg, cfg, names[..Handled(reg, names)], temp)
  {
    ghost var h := Handled(reg, names);
    temp', errors, threw := temp, [], false;
    var i := 0;
    while i < |names|
      invariant 0 <= i <= h
      invariant errors == MissingParents(reg, path, manifestPath, names[..i])
      invariant temp' == TempArgs(reg, cfg, names[..i], temp)
    {
      var n := names[i];
      ResolveStep(reg, cfg, path, manifestPath, names, i, temp);
      HandledAt(reg, names, i);
      if ParentOf(reg, n).None? {
        errors := errors + [ParentMissing(path, n, Original(n), manifestPath)];
      } else if Throws(reg, n) {
        threw := true;
        return;
      } else {
        temp' := Some(Put(temp'.GetOr([]), ArgPrefix + n, ParentImage(reg, cfg, n)));
      }
      i := i + 1;
    }
    assert names[..i] == names;
  }

  /** One name of the dependency loop. */
  lemma ResolveStep(reg: Registry, cfg: BuilderConfig, path: string, manifestPath: string, names: seq<string>, i: nat, temp: Option<ArgMap>)
    requires Listed(reg) && i < |names|
    ensures var n, prefix := names[i], names[..i + 1];
      && MissingParents(reg, path, manifestPath, prefix) == MissingParents(reg, path, manifestPath, names[..i])
           + (if ParentOf(reg, n).None? then [ParentMissing(path, n, Original(n), manifestPath)] else [])
      && TempArgs(reg, cfg, prefix, temp) == if Resolves(reg, n)
           then Some(Put(TempArgs(reg, cfg, names[..i], temp).GetOr([]), ArgPrefix + n, ParentImage(reg, cfg, n)))
           else TempArgs(reg, cfg, names[..i], temp)
  {
    assert names[..i + 1][..i] == names[..i];
  }

  // ---------------------------------------------------------------------------
  // The preparation
  // ---------------------------------------------------------------------------

  /** The docker section before the `ARG EXTEND_FROM_` pass: `image_name`
      defaults to the component name and is lower-cased, and the configured
      build arguments, when given, become the inherited ones. */
  function BaseDocker(cfg: BuilderConfig, c: Component): (d: DockerSpec)
    ensures var d0 := c.docker.GetOr(EmptyDocker);
      && d == d0.(imageName := d.imageName, buildArgsInherited := d.buildArgsInherited)
      && d.imageName == Some(Lower(if Truthy(d0.imageName) then d0.imageName.value else c.name))
      && IsLowerCase(d.imageName.value)
      && d.buildArgsInherited == if cfg.buildArgs.Some? then cfg.buildArgs else d0.buildArgsInherited
  {
    var d0 := c.docker.GetOr(EmptyDocker);
    var name := Lower(if Truthy(d0.imageName) then d0.imageName.value else c.name);
    assert IsLowerCase(name);
    d0.(imageName := Some(name), buildArgsInherited := if cfg.buildArgs.Some? then cfg.buildArgs else d0.buildArgsInherited)
  }

  /** The Dockerfile's lines. */
  function Lines(data: string): seq<string> {
    Split(data, '\n')
  }

  /** The names declared by `ARG EXTEND_FROM_` before the first `FROM`. */
  function DeclaredParents(data: string): seq<string> {
    var lines := Lines(data);
    DepNames(Marked(lines[..FirstFrom(lines, IsFrom)], HasMarker))
  }

  /** `buildPrepComponent` for the component `c` of `reg`, with `data` the
      Dockerfile's content (`None` when it could not be read) and `join`
      `pathlib.join`. It returns the updated component, the errors it pushed,
      and whether it threw. */
  method BuildPrep(reg: Registry, cfg: BuilderConfig, join: (string, string) -> string, c: Component, data: Option<string>)
    returns (c': Component, errors: seq<PrepError>, threw: bool)
    requires Listed(reg)
    // only the docker builder is prepared
    ensures c.builder != Some(Docker) ==> c' == c && errors == [BuilderNotSpecified(c.manifestPath)] && !threw
    // an unreadable or empty Dockerfile is reported and nothing changes
    ensures c.builder == Some(Docker) && (data.None? || data.value == "") ==>
      c' == c && errors == [DockerfileMissing(join(c.dir, DockerfileName(c)), DockerfileName(c))] && !threw
    ensures c.builder == Some(Docker) && data.Some? && data.value != "" ==>
      var path, lines, names := join(c.dir, DockerfileName(c)), Lines(data.value), DeclaredParents(data.value);
      var h := Handled(reg, names);
      // only the docker section changes
      && c' == c.(docker := Some(BaseDocker(cfg, c).(buildArgsTemp := TempArgs(reg, cfg, names[..h], c.docker.GetOr(EmptyDocker).buildArgsTemp))))
      // late declarations first, then the names without a parent
      && errors == LateErrors(path, lines, FirstFrom(lines, IsFrom), IsFrom, HasMarker) + MissingParents(reg, path, c.manifestPath, names[..h])
      && (threw <==> h < |names|)
  {
    if c.builder != Some(Docker) {
      return c, [BuilderNotSpecified(c.manifestPath)], false;
    }
    var dockerfile := DockerfileName(c);
    var path := join(c.dir, dockerfile);
    if data.None? || data.value == "" {
      return c, [DockerfileMissing(path, dockerfile)], false;
    }
    var d := c.docker.GetOr(EmptyDocker);
    if !Truthy(d.imageName) {
      d := d.(imageName := Some(c.name));
    }
    d := d.(imageName := Some(Lower(d.imageName.value)));
    if cfg.buildArgs.Some? {
      d := d.(buildArgsInherited := cfg.buildArgs);
    }
    assert d == BaseDocker(cfg, c);
    var lines := Lines(data.value);
    var collected, lateErrors := ScanDockerfile(path, lines, IsFrom, HasMarker);
    var names := DepNames(collected);
    var temp, missing;
    temp, missing, threw := ResolveExtends(reg, cfg, path, c.manifestPath, names, d.buildArgsTemp);
    d := d.(buildArgsTemp := temp);
    c' := c.(docker := Some(d));
    errors := lateErrors + missing;
  }

  /** A declaration after the first `FROM` is reported with its line number. */
  lemma LateDeclarationReported(path: string, data: string, j: nat)
    requires var lines := Lines(data);
      FirstFrom(lines, IsFrom) < j < |lines| && !IsFrom(lines[j]) && HasMarker(lines[j])
    ensures var lines := Lines(data);
      ExtendAfterFrom(path, lines[j], j + 1) in LateErrors(path, lines, FirstFrom(lines, IsFrom), IsFrom, HasMarker)
  {
    var lines := Lines(data);
    LateErrorsExactly(path, lines, FirstFrom(lines, IsFrom), IsFrom, HasMarker);
    assert Late(lines, FirstFrom(lines, IsFrom), IsFrom, HasMarker, j);
  }

  /** Every declared parent name comes from a marked line before the first
      `FROM`; a declaration after it is never used as a parent. */
  lemma DeclaredBeforeFrom(data: string, n: string)
    requires n in DeclaredParents(data)
    ensures var lines := Lines(data);
      exists j :: 0 <= j < FirstFrom(lines, IsFrom) && HasMarker(lines[j]) && n == DepName(lines[j])
  {
    var lines := Lines(data);
    MarkedNames(lines, FirstFrom(lines, IsFrom), HasMarker, n);
  }

  lemma MarkedNames(lines: seq<string>, f: nat, hasMarker: string -> bool, n: string)
    requires f <= |lines| && n in DepNames(Marked(lines[..f], hasMarker))
    ensures exists j :: 0 <= j < f && hasMarker(lines[j]) && n == DepName(lines[j])
  {
    var m := Marked(lines[..f], hasMarker);
    var i :| 0 <= i < |m| && DepNames(m)[i] == n;
    MarkedExactly(lines[..f], hasMarker);
    assert m[i] in m;
    var j :| 0 <= j < f && lines[..f][j] == m[i];
    assert lines[j] == m[i];
  }
}
