/** Components and their registration (`getComponentsMap`,
    lib/node/builder/builder.ts:496-553; the record shape is `ComponentManifest`
    in lib/node/builder/model.ts). The component map is a JavaScript object
    keyed by fullname; its keys keep insertion order, which later stages rely
    on, so the model keeps that order next to the map. */
module Manifest {
  import opened Wrappers
  import opened Text
  import opened ArgMaps
  import opened Config

  const DefaultTimeout: int := 1800

  datatype BuilderKind = Docker | Shell | NoBuild

  /** `docker.cache_config` */
  datatype CacheConfig = CacheConfig(mode: Option<string>, compressionLevel: Option<nat>)

  /** The `docker` section of a component manifest. */
  datatype DockerSpec = DockerSpec(
    context: Option<string>,
    dockerfile: Option<string>,
    imageName: Option<string>,
    target: Option<string>,
    debug: bool,
    noPull: bool,
    buildArgs: Option<ArgMap>,
    buildArgsInherited: Option<ArgMap>,
    buildArgsTemp: Option<ArgMap>,
    cacheConfig: CacheConfig)

  /** `compo.docker = {}` */
  const EmptyDocker := DockerSpec(None, None, None, None, false, false, None, None, None, CacheConfig(None, None))

  /** A manifest file as the YAML parser returns it. */
  datatype ParsedManifest = ParsedManifest(
    name: Option<string>,
    project: Option<string>,
    dependsOn: Option<StrOrList>,
    timeout: Option<int>,
    publish: bool,
    builder: Option<BuilderKind>,
    docker: Option<DockerSpec>,
    noCache: bool,
    noPrebuilt: bool,
    ignore: Option<StrOrList>)

  /** What reading and parsing one manifest file gives: the read fails
      (`getFileContent` resolves `data: null`), the YAML parser yields no
      record, or it yields the record. */
  datatype ManifestFile = ReadFails | ParseFails | Loaded(m: ParsedManifest)

  /** A registered component. `dependsOn` is the `depends_on` list as
      validation and grouping read it (absent, empty and blank all give no
      dependency). Registration normalises `depends_on` only when it is truthy,
      so an empty string is kept as a string: `emptyDependsOn` records that
      case, which hashing cannot iterate. `hash`, `hashLong` and `affectedBy`
      are filled in by hashing and are empty before. */
  datatype Component = Component(
    name: string,
    project: string,
    nameHyphen: string,
    fullname: string,
    nameSafe: string,
    manifestPath: string,
    dir: string,
    dependsOn: seq<string>,
    emptyDependsOn: bool,
    timeout: int,
    publish: bool,
    builder: Option<BuilderKind>,
    docker: Option<DockerSpec>,
    noCache: bool,
    noPrebuilt: bool,
    ignore: Option<StrOrList>,
    hash: string,
    hashLong: string,
    affectedBy: seq<string>)

  /** `compo.docker?.dockerfile ?? 'Dockerfile'` */
  function DockerfileName(c: Component): string {
    if c.docker.Some? && c.docker.value.dockerfile.Some? then c.docker.value.dockerfile.value else "Dockerfile"
  }

  /** `project ? project + '/' + name : name` */
  function QualifyName(project: string, name: string): (r: string)
    ensures project == "" ==> r == name
    ensures project != "" ==> r == project + "/" + name
  {
    if project != "" then project + "/" + name else name
  }

  /** `pathlib.dirname(file)` for a path without trailing separator. */
  function Dirname(path: string): string
    decreases |path|
  {
    if path == [] then "."
    else if path[|path| - 1] == '/' then (if |path| == 1 then "/" else path[..|path| - 1])
    else Dirname(path[..|path| - 1])
  }

  /** The component map: its keys in insertion order, and the map itself. */
  datatype Registry = Registry(order: seq<string>, comps: map<string, Component>)

  const EmptyRegistry := Registry([], map[])

  /** The keys are listed once each, the listed keys are the map's keys, and
      every component sits under its own fullname. */
  ghost predicate Valid(reg: Registry) {
    && (forall i, j :: 0 <= i < j < |reg.order| ==> reg.order[i] != reg.order[j])
    && (forall k :: k in reg.comps <==> k in reg.order)
    && (forall k :: k in reg.comps ==> reg.comps[k].fullname == k)
  }

  /** A name using both `-` and `_` is refused. */
  predicate MixesSeparators(name: string) {
    '-' in name && '_' in name
  }

  /** A manifest that registration accepts by name: it has a non-empty name
      that does not mix `-` and `_`. */
  predicate AcceptableName(m: ParsedManifest) {
    m.name.Some? && m.name.value != "" && !MixesSeparators(m.name.value)
  }

  /** The identity registration gives a name: `_` becomes `-`, the project
      (if any) is prefixed with `/`. */
  function Fullname(m: ParsedManifest): string
    requires AcceptableName(m)
  {
    QualifyName(if Truthy(m.project) then m.project.value else "", ReplaceChar(m.name.value, '_', '-'))
  }

  /** The names and defaults registration derives: `name_hyphen`, `fullname`,
      `name_safe` (the fullname with `/` as `__`, lower-cased), the manifest's
      directory, the `depends_on` list and the 1800-second default timeout. */
  function Canonicalize(file: string, m: ParsedManifest): (c: Component)
    requires AcceptableName(m)
    ensures c.fullname == Fullname(m)
    ensures c.emptyDependsOn <==> m.dependsOn == Some(Str(""))
    ensures c.emptyDependsOn ==> c.dependsOn == []
  {
    var name := m.name.value;
    var nameHyphen := ReplaceChar(name, '_', '-');
    var project := if Truthy(m.project) then m.project.value else "";
    var fullname := QualifyName(project, nameHyphen);
    Component(
      name, project, nameHyphen, fullname, Lower(ReplaceAll(fullname, "/", "__")),
      file, Dirname(file), StringArray(m.dependsOn), m.dependsOn == Some(Str("")),
      m.timeout.GetOr(DefaultTimeout), m.publish, m.builder, m.docker, m.noCache, m.noPrebuilt, m.ignore,
      "", "", [])
  }

  /** The naming invariant of every registered component. */
  predicate Canonical(c: Component) {
    && c.name != "" && !MixesSeparators(c.name)
    && c.nameHyphen == ReplaceChar(c.name, '_', '-')
    && c.fullname == QualifyName(c.project, c.nameHyphen)
    && c.nameSafe == Lower(ReplaceAll(c.fullname, "/", "__"))
  }

  datatype RegistrationError =
    | ReadError(file: string)
    | Unparsable(file: string)
    | NameMissing(file: string)
    | NameMixesSeparators(file: string)
    | DuplicateComponent(file: string, fullname: string, registeredBy: string)

  datatype RegState = RegState(reg: Registry, errors: seq<RegistrationError>)

  /** The per-file callback of `getComponentsMap`. A file that cannot be read
      adds the read error and then, since the parser yields no record to
      assign `manifest_path` to, the parse error; a file that does not parse
      into a record adds the parse error. A manifest whose fullname is taken
      is refused with an error when it comes from another file, and silently
      skipped when the same file is seen again. */
  function Register(st: RegState, file: string, parsed: ManifestFile): (r: RegState)
    requires Valid(st.reg)
    ensures Valid(r.reg)
    // the map only grows, at the end, by a fresh key holding the canonical record
    ensures r.reg == st.reg || (
      && parsed.Loaded? && AcceptableName(parsed.m)
      && var fn := Fullname(parsed.m);
      && fn !in st.reg.comps
      && r.reg == Registry(st.reg.order + [fn], st.reg.comps[fn := Canonicalize(file, parsed.m)]))
    // errors are only added: two for an unreadable file, else at most one,
    // and only when the manifest is refused
    ensures st.errors <= r.errors
    ensures |r.errors| <= |st.errors| + (if parsed.ReadFails? then 2 else 1)
    ensures r.errors != st.errors ==> r.reg == st.reg
  {
    match parsed
    case ReadFails => st.(errors := st.errors + [ReadError(file), Unparsable(file)])
    case ParseFails => st.(errors := st.errors + [Unparsable(file)])
    case Loaded(m) =>
      if !(m.name.Some? && m.name.value != "") then st.(errors := st.errors + [NameMissing(file)])
      else if MixesSeparators(m.name.value) then st.(errors := st.errors + [NameMixesSeparators(file)])
      else
        var fn := Fullname(m);
        if fn in st.reg.comps then
          if file != st.reg.comps[fn].manifestPath then
            st.(errors := st.errors + [DuplicateComponent(file, fn, st.reg.comps[fn].manifestPath)])
          else st
        else
          st.(reg := Registry(st.reg.order + [fn], st.reg.comps[fn := Canonicalize(file, m)]))
  }

  /** Which errors one registration raises when it refuses a file by itself:
      an unreadable file gives the read error and then the parse error, a file
      that does not parse the parse error, and a missing name or a name mixing
      `-` and `_` their own error; the map is unchanged in each case. */
  lemma RegisterOutcome(st: RegState, file: string, parsed: ManifestFile)
    requires Valid(st.reg)
    ensures var r := Register(st, file, parsed);
      && (parsed.ReadFails? ==> r.errors == st.errors + [ReadError(file), Unparsable(file)])
      && (parsed.ParseFails? ==> r.errors == st.errors + [Unparsable(file)])
      && (parsed.Loaded? && !(parsed.m.name.Some? && parsed.m.name.value != "") ==>
            r.errors == st.errors + [NameMissing(file)])
      && (parsed.Loaded? && parsed.m.name.Some? && parsed.m.name.value != "" && MixesSeparators(parsed.m.name.value) ==>
            r.errors == st.errors + [NameMixesSeparators(file)])
      && (!parsed.Loaded? || !AcceptableName(parsed.m) ==> r.reg == st.reg)
  {
  }

  /** A manifest with an acceptable name is registered under its fullname when
      that is fresh, refused as a duplicate when another file holds it, and
      skipped when the same file holds it. */
  lemma RegisterAccepted(st: RegState, file: string, m: ParsedManifest)
    requires Valid(st.reg) && AcceptableName(m)
    ensures var r := Register(st, file, Loaded(m)); var fn := Fullname(m);
      && (fn !in st.reg.comps ==>
            r.errors == st.errors && fn in r.reg.comps && r.reg.comps[fn] == Canonicalize(file, m))
      && (fn in st.reg.comps && st.reg.comps[fn].manifestPath != file ==>
            r.errors == st.errors + [DuplicateComponent(file, fn, st.reg.comps[fn].manifestPath)])
      && (fn in st.reg.comps && st.reg.comps[fn].manifestPath == file ==> r == st)
  {
  }

  /** The registration callbacks applied in the order the files were handled. */
  function RegisterAll(entries: seq<(string, ManifestFile)>): (r: RegState)
    ensures Valid(r.reg)
    decreases |entries|
  {
    if entries == [] then RegState(EmptyRegistry, [])
    else
      var prev := RegisterAll(entries[..|entries| - 1]);
      var e := entries[|entries| - 1];
      Register(prev, e.0, e.1)
  }

  /** `getComponentsMap`: the map when no file produced an error, else all the errors. */
  function GetComponentsMap(entries: seq<(string, ManifestFile)>): Result<Registry, seq<RegistrationError>>
  {
    var st := RegisterAll(entries);
    if st.errors == [] then Ok(st.reg) else Err(st.errors)
  }

  // ---------------------------------------------------------------------------
  // Lemmas
  // ---------------------------------------------------------------------------

  /** Every registered component carries the canonical names: `fullname` is the
      project, `/`, and the name with `_` replaced by `-` (no prefix for an
      empty project); `name_safe` is the fullname with `/` as `__`, lower-cased. */
  lemma {:induction false} RegisteredAreCanonical(entries: seq<(string, ManifestFile)>)
    ensures forall k :: k in RegisterAll(entries).reg.comps ==> Canonical(RegisterAll(entries).reg.comps[k])
    decreases |entries|
  {
    if entries != [] {
      RegisteredAreCanonical(entries[..|entries| - 1]);
    }
  }

  /** `b` keeps every entry and every error of `a`. */
  predicate Extends(a: RegState, b: RegState) {
    && (forall k :: k in a.reg.comps ==> k in b.reg.comps && b.reg.comps[k] == a.reg.comps[k])
    && a.errors <= b.errors
  }

  lemma ExtendsTrans(a: RegState, b: RegState, c: RegState)
    requires Extends(a, b) && Extends(b, c)
    ensures Extends(a, c)
  {
  }

  /** One registration step keeps every entry and every error. */
  lemma RegisterKeeps(st: RegState, file: string, parsed: ManifestFile)
    requires Valid(st.reg)
    ensures Extends(st, Register(st, file, parsed))
  {
  }

  lemma RegisterAllStep(entries: seq<(string, ManifestFile)>)
    requires entries != []
    ensures Extends(RegisterAll(entries[..|entries| - 1]), RegisterAll(entries))
  {
    var e := entries[|entries| - 1];
    RegisterKeeps(RegisterAll(entries[..|entries| - 1]), e.0, e.1);
  }

  /** The first registration of a fullname is never replaced or removed later,
      and errors are never taken back. */
  lemma {:induction false} FirstRegistrationWins(entries: seq<(string, ManifestFile)>, i: nat)
    requires i <= |entries|
    ensures Extends(RegisterAll(entries[..i]), RegisterAll(entries))
    decreases |entries| - i
  {
    if i == |entries| {
      assert entries[..i] == entries;
    } else {
      var init := entries[..|entries| - 1];
      assert Extends(RegisterAll(entries[..i]), RegisterAll(init)) by {
        FirstRegistrationWins(init, i);
        assert init[..i] == entries[..i];
      }
      RegisterAllStep(entries);
      ExtendsTrans(RegisterAll(entries[..i]), RegisterAll(init), RegisterAll(entries));
    }
  }

  /** A prefix of the handled files: */
  lemma PrefixStep(entries: seq<(string, ManifestFile)>, i: nat)
    requires i < |entries|
    ensures RegisterAll(entries[..i + 1]) == Register(RegisterAll(entries[..i]), entries[i].0, entries[i].1)
  {
    assert entries[..i + 1][..i] == entries[..i];
  }

  /** After a file with an acceptable name, its fullname is registered. */
  lemma RegisteredAfter(entries: seq<(string, ManifestFile)>, i: nat)
    requires i < |entries| && entries[i].1.Loaded? && AcceptableName(entries[i].1.m)
    ensures Fullname(entries[i].1.m) in RegisterAll(entries[..i + 1]).reg.comps
  {
    PrefixStep(entries, i);
  }

  /** Either an error has been raised, or `fn` is held by `file`. */
  predicate HeldOrFailed(st: RegState, fn: string, file: string) {
    st.errors != [] || (fn in st.reg.comps && st.reg.comps[fn].manifestPath == file)
  }

  /** From the file that registers a fullname on, that file keeps it unless an
      error is raised. */
  lemma {:induction false} HeldFrom(entries: seq<(string, ManifestFile)>, i: nat)
    requires i < |entries| && entries[i].1.Loaded? && AcceptableName(entries[i].1.m)
    ensures HeldOrFailed(RegisterAll(entries), Fullname(entries[i].1.m), entries[i].0)
    decreases |entries|
  {
    var init := entries[..|entries| - 1];
    var e := entries[|entries| - 1];
    if i == |entries| - 1 {
      RegisterAccepted(RegisterAll(init), e.0, e.1.m);
    } else {
      assert init[i] == entries[i];
      HeldFrom(init, i);
      RegisterKeeps(RegisterAll(init), e.0, e.1);
    }
  }

  /** Two manifests from different files with the same fullname make
      `getComponentsMap` fail, whichever was handled first. */
  lemma {:induction false} DuplicateFullnameFails(entries: seq<(string, ManifestFile)>, i: nat, j: nat)
    requires i < j < |entries|
    requires entries[i].1.Loaded? && AcceptableName(entries[i].1.m)
    requires entries[j].1.Loaded? && AcceptableName(entries[j].1.m)
    requires Fullname(entries[i].1.m) == Fullname(entries[j].1.m)
    requires entries[i].0 != entries[j].0
    ensures GetComponentsMap(entries).Err?
    decreases |entries|
  {
    var init := entries[..|entries| - 1];
    var e := entries[|entries| - 1];
    assert init[i] == entries[i];
    if j == |entries| - 1 {
      HeldFrom(init, i);
      RegisterAccepted(RegisterAll(init), e.0, e.1.m);
    } else {
      assert init[j] == entries[j];
      DuplicateFullnameFails(init, i, j);
      RegisterKeeps(RegisterAll(init), e.0, e.1);
    }
  }
}
