/** The hash assembly of `calculateComponentHashes`
    (lib/node/builder/builder.ts:716-794) and `shasumStringArray` (931-938).

    The groups are flattened into one list of components (629-638), which are
    hashed in turn.
    A component's hash covers its listed sources, its manifest, its Dockerfile
    (for the docker builder), every file under a listed directory that neither a
    default exclude nor the component's `ignore` list rules out, and the long
    hashes of its dependencies, which all sit in earlier groups and so are
    already final. The file system, the glob expansion, the per-file digest,
    path arithmetic and SHA-512 are parameters of the model. */
module Hashing {
  import opened Wrappers
  import opened Text
  import opened Config
  import opened Manifest
  import opened Graph
  import opened Groups
  import opened Sorting

  /** What `lstat` says of a path: nothing (the call failed), a directory, or
      anything else (a file, a link). */
  datatype PathKind = Missing | Directory | NotDirectory

  /** The primitives the hash computation consults. `sources` gives the
      existing `src` paths of a component (by fullname) as the earlier source
      check found them; `glob(cwd, expr, excludes)` lists the files that the
      glob expression `expr` matches from the directory `cwd`, leaving out
      those an exclusion pattern (a `!` pattern) matches; `fileDigest`
      is `shasumFile` (the salted, truncated SHA-512 of a file); `sha` is the
      truncated SHA-512 of a message, in hex. */
  datatype HashEnv = HashEnv(
    sources: string -> seq<string>,
    join: (string, string) -> string,
    stat: string -> PathKind,
    glob: (string, string, seq<string>) -> seq<string>,
    fileDigest: string -> string,
    relative: (string, string) -> string,
    sha: string -> string)

  datatype HashError = PathNotFound(path: string, name: string, manifestPath: string)

  // ---------------------------------------------------------------------------
  // Which files a component depends on
  // ---------------------------------------------------------------------------

  /** The paths to hash: the sources, then the manifest, then (docker builder
      only) the Dockerfile. */
  function ValidPaths(env: HashEnv, c: Component): (r: seq<string>)
    ensures |r| == |env.sources(c.fullname)| + if c.builder == Some(Docker) then 2 else 1
    ensures r[..|env.sources(c.fullname)|] == env.sources(c.fullname)
    ensures r[|env.sources(c.fullname)|] == c.manifestPath
    ensures c.builder == Some(Docker) ==> r[|r| - 1] == env.join(c.dir, DockerfileName(c))
  {
    env.sources(c.fullname) + [c.manifestPath] +
      (if c.builder == Some(Docker) then [env.join(c.dir, DockerfileName(c))] else [])
  }

  /** The paths `lstat` reports as `kind`, in order. */
  function OfKind(env: HashEnv, paths: seq<string>, kind: PathKind): seq<string>
    decreases |paths|
  {
    if paths == [] then []
    else
      var p := paths[|paths| - 1];
      OfKind(env, paths[..|paths| - 1], kind) + (if env.stat(p) == kind then [p] else [])
  }

  lemma {:induction false} OfKindExactly(env: HashEnv, paths: seq<string>, kind: PathKind)
    ensures forall p :: p in OfKind(env, paths, kind) <==> p in paths && env.stat(p) == kind
    decreases |paths|
  {
    if paths != [] {
      OfKindExactly(env, paths[..|paths| - 1], kind);
      assert forall x :: x in paths <==> x in paths[..|paths| - 1] || x == paths[|paths| - 1];
    }
  }

  /** `defaultExcludes`: never hashed, whatever the component says. */
  const DefaultExcludes: seq<string> := ["**/.DS_Store", "**/.hash*", "**/node_modules", "**/generated-sources"]

  /** A pattern as an exclusion: `!` in front unless it has one. */
  function Negated(pattern: string): (r: string)
    ensures StartsWith(r, "!")
    ensures StartsWith(pattern, "!") ==> r == pattern
  {
    if StartsWith(pattern, "!") then pattern else "!" + pattern
  }

  function NegatedAll(patterns: seq<string>): (r: seq<string>)
    ensures |r| == |patterns| && forall i :: 0 <= i < |patterns| ==> r[i] == Negated(patterns[i])
  {
    seq(|patterns|, i requires 0 <= i < |patterns| => Negated(patterns[i]))
  }

  /** The exclusions `getGlobMatched` passes to the glob: the default
      excludes and the `ignore` patterns (absent reads as none, a single
      string as a list of it), each once, as `!` patterns. */
  function Excludes(ignore: Option<StrOrList>): seq<string> {
    NegatedAll(Unique(DefaultExcludes + StringArray(ignore)))
  }

  /** Every default exclude and every `ignore` pattern is among the
      exclusions, and nothing else is. */
  lemma ExcludesExactly(ignore: Option<StrOrList>)
    ensures forall x :: x in DefaultExcludes + StringArray(ignore) ==> Negated(x) in Excludes(ignore)
    ensures forall e :: e in Excludes(ignore) ==> exists x :: x in DefaultExcludes + StringArray(ignore) && e == Negated(x)
  {
    var all := DefaultExcludes + StringArray(ignore);
    var u := Unique(all);
    UniqueFacts(all);
    forall x | x in all ensures Negated(x) in Excludes(ignore) {
      var i :| 0 <= i < |u| && u[i] == x;
      assert Excludes(ignore)[i] == Negated(x);
    }
    forall e | e in Excludes(ignore) ensures exists x :: x in all && e == Negated(x) {
      var i :| 0 <= i < |u| && Excludes(ignore)[i] == e;
      assert u[i] in all;
    }
  }

  /** The files the glob finds under `dir` for component `c`. */
  function UnderDir(env: HashEnv, c: Component, dir: string): seq<string> {
    env.glob(c.dir, dir + "/**/*", Excludes(c.ignore))
  }

  /** The files found under the directories `dirs`, one directory after another. */
  function UnderDirs(env: HashEnv, c: Component, dirs: seq<string>): seq<string>
    decreases |dirs|
  {
    if dirs == [] then [] else UnderDirs(env, c, dirs[..|dirs| - 1]) + UnderDir(env, c, dirs[|dirs| - 1])
  }

  lemma {:induction false} UnderDirsExactly(env: HashEnv, c: Component, dirs: seq<string>)
    ensures forall x :: x in UnderDirs(env, c, dirs) <==> exists d :: d in dirs && x in UnderDir(env, c, d)
    decreases |dirs|
  {
    if dirs != [] {
      var d := dirs[|dirs| - 1];
      UnderDirsExactly(env, c, dirs[..|dirs| - 1]);
      assert forall x :: x in dirs <==> x in dirs[..|dirs| - 1] || x == d;
    }
  }

  /** The file list before deduplication: the paths that are not directories,
      then the contents of the directories. */
  function Gathered(env: HashEnv, c: Component, paths: seq<string>): seq<string> {
    OfKind(env, paths, NotDirectory) + UnderDirs(env, c, OfKind(env, paths, Directory))
  }

  /** One "not found" error per missing path, in order. */
  function MissingErrors(env: HashEnv, c: Component, paths: seq<string>): (r: seq<HashError>)
    decreases |paths|
  {
    if paths == [] then []
    else
      var p := paths[|paths| - 1];
      MissingErrors(env, c, paths[..|paths| - 1]) + (if env.stat(p) == Missing then [PathNotFound(p, c.name, c.manifestPath)] else [])
  }

  /** The sorted, duplicate-free file list the hash is taken over. */
  function HashedFiles(env: HashEnv, c: Component): seq<string> {
    SortedUnique(Gathered(env, c, ValidPaths(env, c)))
  }

  /** The stat pass and the directory pass over the paths of `c`: files are
      collected, directories queued and expanded after all the paths, and a
      missing path becomes an error. */
  method ExpandPaths(env: HashEnv, c: Component) returns (allFiles: seq<string>, errors: seq<HashError>)
    ensures allFiles == Gathered(env, c, ValidPaths(env, c))
    ensures errors == MissingErrors(env, c, ValidPaths(env, c))
  {
    var paths := ValidPaths(env, c);
    var dirs: seq<string> := [];
    allFiles, errors := [], [];
    var i := 0;
    while i < |paths|
      invariant 0 <= i <= |paths|
      invariant allFiles == OfKind(env, paths[..i], NotDirectory)
      invariant dirs == OfKind(env, paths[..i], Directory)
      invariant errors == MissingErrors(env, c, paths[..i])
    {
      assert paths[..i + 1][..i] == paths[..i];
      var path := paths[i];
      if env.stat(path) == Missing {
        errors := errors + [PathNotFound(path, c.name, c.manifestPath)];
      } else if env.stat(path) == Directory {
        dirs := dirs + [path];
      } else {
        allFiles := allFiles + [path];
      }
      i := i + 1;
    }
    assert paths[..i] == paths;
    var j := 0;
    var expanded: seq<string> := [];
    while j < |dirs|
      invariant 0 <= j <= |dirs|
      invariant expanded == UnderDirs(env, c, dirs[..j])
    {
      assert dirs[..j + 1][..j] == dirs[..j];
      expanded := expanded + env.glob(c.dir, dirs[j] + "/**/*", Excludes(c.ignore));
      j := j + 1;
    }
    assert dirs[..j] == dirs;
    allFiles := allFiles + expanded;
  }

  /** A file is hashed exactly when it is a listed path that is not a
      directory, or lies under a listed directory; the list is ascending and
      names each file once. */
  lemma HashedFilesExactly(env: HashEnv, c: Component)
    ensures var paths := ValidPaths(env, c);
      forall x :: x in HashedFiles(env, c) <==>
        (x in paths && env.stat(x) == NotDirectory) ||
        (exists d :: d in paths && env.stat(d) == Directory && x in UnderDir(env, c, d))
    ensures Sorted(HashedFiles(env, c)) && Distinct(HashedFiles(env, c))
  {
    SortedUniqueFacts(Gathered(env, c, ValidPaths(env, c)));
    OfKindExactly(env, ValidPaths(env, c), NotDirectory);
    OfKindExactly(env, ValidPaths(env, c), Directory);
    UnderDirsExactly(env, c, OfKind(env, ValidPaths(env, c), Directory));
  }

  /** The manifest is always among the hashed paths, and so is the Dockerfile
      of a docker component; each is hashed when it exists as a file. */
  lemma ManifestAndDockerfileHashed(env: HashEnv, c: Component)
    ensures env.stat(c.manifestPath) == NotDirectory ==> c.manifestPath in HashedFiles(env, c)
    ensures c.builder == Some(Docker) && env.stat(env.join(c.dir, DockerfileName(c))) == NotDirectory ==>
      env.join(c.dir, DockerfileName(c)) in HashedFiles(env, c)
  {
    var paths := ValidPaths(env, c);
    HashedFilesExactly(env, c);
    assert c.manifestPath in paths;
    if c.builder == Some(Docker) {
      assert env.join(c.dir, DockerfileName(c)) == paths[|paths| - 1];
    }
  }

  // ---------------------------------------------------------------------------
  // The hash of one component
  // ---------------------------------------------------------------------------

  /** `arr.join('')` */
  function Concat(arr: seq<string>): string
    decreases |arr|
  {
    if arr == [] then "" else Concat(arr[..|arr| - 1]) + arr[|arr| - 1]
  }

  /** The message `shasumStringArray(context, arr)` digests: the salt naming
      the context, then the strings back to back. */
  function SaltedMessage(context: string, arr: seq<string>): (r: string)
    ensures StartsWith(r, "sha512-truncated-to-32-byte; context=" + context)
  {
    var salt := "sha512-truncated-to-32-byte; context=" + context;
    assert (salt + Concat(arr))[..|salt|] == salt;
    salt + Concat(arr)
  }

  /** The provenance entry of a dependency. */
  function DependencyEntry(parent: Component): string {
    "dependency; " + parent.fullname + " @" + parent.hashLong
  }

  /** The provenance entry of a file, with its path relative to the component's directory. */
  function FileEntry(env: HashEnv, dir: string, file: string): string {
    "file; " + env.relative(dir, file) + " @" + env.fileDigest(file)
  }

  function Digests(env: HashEnv, files: seq<string>): seq<string>
    decreases |files|
  {
    if files == [] then [] else Digests(env, files[..|files| - 1]) + [env.fileDigest(files[|files| - 1])]
  }

  function FileEntries(env: HashEnv, dir: string, files: seq<string>): seq<string>
    decreases |files|
  {
    if files == [] then [] else FileEntries(env, dir, files[..|files| - 1]) + [FileEntry(env, dir, files[|files| - 1])]
  }

  lemma {:induction false} FileEntriesAt(env: HashEnv, dir: string, files: seq<string>)
    ensures |FileEntries(env, dir, files)| == |files|
    ensures forall i :: 0 <= i < |files| ==> FileEntries(env, dir, files)[i] == FileEntry(env, dir, files[i])
    decreases |files|
  {
    if files != [] {
      FileEntriesAt(env, dir, files[..|files| - 1]);
    }
  }

  /** The three fields the computation sets, from the dependency entries and
      the file list; nothing else of the component changes. */
  function WithHash(env: HashEnv, c: Component, depEntries: seq<string>, files: seq<string>): Component {
    var hashLong := env.sha(SaltedMessage(c.fullname, depEntries + Digests(env, files)));
    c.(affectedBy := depEntries + FileEntries(env, c.dir, files),
       hashLong := hashLong,
       hash := "_" + Prefix(hashLong, 24))
  }

  /** What the new fields hold: `affected_by` lists the dependency entries, in
      the order given, then one entry per file, in the file list's order; the
      long hash digests the component's fullname with the dependency entries
      and the file digests; the short hash is `_` and the first 24 characters
      of the long one (25 characters when the long one has at least 24). */
  lemma WithHashFields(env: HashEnv, c: Component, depEntries: seq<string>, files: seq<string>)
    ensures var r := WithHash(env, c, depEntries, files);
      && r.(affectedBy := c.affectedBy, hashLong := c.hashLong, hash := c.hash) == c
      && |r.affectedBy| == |depEntries| + |files|
      && r.affectedBy[..|depEntries|] == depEntries
      && (forall i :: 0 <= i < |files| ==> r.affectedBy[|depEntries| + i] == FileEntry(env, c.dir, files[i]))
      && r.hashLong == env.sha(SaltedMessage(c.fullname, depEntries + Digests(env, files)))
      && r.hash[0] == '_' && r.hash[1..] <= r.hashLong
      && (|r.hashLong| >= 24 ==> |r.hash| == 25)
  {
    var r := WithHash(env, c, depEntries, files);
    FileEntriesAt(env, c.dir, files);
    assert r.affectedBy[..|depEntries|] == depEntries;
    forall i | 0 <= i < |files| ensures r.affectedBy[|depEntries| + i] == FileEntry(env, c.dir, files[i]) {
      assert r.affectedBy[|depEntries| + i] == FileEntries(env, c.dir, files)[i];
    }
    assert r.hash[1..] == Prefix(r.hashLong, 24);
  }

  /** The hash does not depend on the order or the repetitions in which the
      files were enumerated: the same set of files gives the same component. */
  lemma HashIgnoresEnumerationOrder(env: HashEnv, c: Component, depEntries: seq<string>, xs: seq<string>, ys: seq<string>)
    requires forall x :: x in xs <==> x in ys
    ensures WithHash(env, c, depEntries, SortedUnique(xs)) == WithHash(env, c, depEntries, SortedUnique(ys))
  {
    SortedUniqueOrderFree(xs, ys);
  }

  // ---------------------------------------------------------------------------
  // Looking up the dependencies
  // ---------------------------------------------------------------------------

  /** The provenance entries of the components `ks`, read from `comps`. */
  function EntriesOf(comps: map<string, Component>, ks: seq<string>): (r: seq<string>)
    requires forall k :: k in ks ==> k in comps
    ensures |r| == |ks|
    decreases |ks|
  {
    if ks == [] then []
    else
      assert ks[|ks| - 1] in ks;
      EntriesOf(comps, ks[..|ks| - 1]) + [DependencyEntry(comps[ks[|ks| - 1]])]
  }

  /** The provenance entries of the `depends_on` entries `ds`, each looked up
      in `comps` by its qualified fullname. */
  function QualifiedEntries(comps: map<string, Component>, project: string, ds: seq<string>): (r: seq<string>)
    requires forall d :: d in ds ==> QualifyDep(project, d) in comps
    ensures |r| == |ds|
    decreases |ds|
  {
    if ds == [] then []
    else
      var d := ds[|ds| - 1];
      assert d in ds;
      QualifiedEntries(comps, project, ds[..|ds| - 1]) + [DependencyEntry(comps[QualifyDep(project, d)])]
  }

  /** When every entry of `ds` resolves, looking each one up by its qualified
      fullname reads exactly the resolved-dependency list validation built. */
  lemma {:induction false} QualifiedIsResolved(reg: Registry, comps: map<string, Component>, project: string, ds: seq<string>)
    requires comps.Keys == reg.comps.Keys
    requires forall d :: d in ds ==> QualifyDep(project, d) in reg.comps
    ensures QualifiedEntries(comps, project, ds) == EntriesOf(comps, ResolvedList(reg, project, ds))
    decreases |ds|
  {
    if ds != [] {
      var init := ds[..|ds| - 1];
      assert forall d :: d in init ==> d in ds;
      QualifiedIsResolved(reg, comps, project, init);
      var prev := ResolvedList(reg, project, init);
      var q := QualifyDep(project, ds[|ds| - 1]);
      assert ds[|ds| - 1] in ds;
      assert ResolvedList(reg, project, ds) == prev + [q];
      assert (prev + [q])[..|prev|] == prev;
    }
  }

  /** The dependency entries of a component, each `depends_on` entry looked up
      by its qualified fullname (the corrected `findParentComponentByName`). */
  method DependencyEntries(comps: map<string, Component>, c: Component) returns (entries: seq<string>)
    requires forall d :: d in c.dependsOn ==> QualifyDep(c.project, d) in comps
    ensures entries == QualifiedEntries(comps, c.project, c.dependsOn)
  {
    entries := [];
    var i := 0;
    while i < |c.dependsOn|
      invariant 0 <= i <= |c.dependsOn|
      invariant forall d :: d in c.dependsOn[..i] ==> d in c.dependsOn
      invariant entries == QualifiedEntries(comps, c.project, c.dependsOn[..i])
    {
      assert c.dependsOn[..i + 1][..i] == c.dependsOn[..i];
      assert c.dependsOn[i] in c.dependsOn;
      var parent := comps[QualifyDep(c.project, c.dependsOn[i])];
      entries := entries + [DependencyEntry(parent)];
      i := i + 1;
    }
    assert c.dependsOn[..i] == c.dependsOn;
  }

  // ---------------------------------------------------------------------------
  // The reference definition
  // ---------------------------------------------------------------------------

  /** `g` lists the resolved dependencies of every component, and every entry
      of every `depends_on` resolves. */
  predicate ResolvedGraph(reg: Registry, g: Edges) {
    && g.Keys == reg.comps.Keys
    && (forall k {:trigger DepsOf(reg, k)} :: k in g ==> g[k] == DepsOf(reg, k))
    && AllDepsResolve(reg)
  }

  /** The levels rank the graph: every node is placed, and every dependency
      lies strictly below its dependant. */
  predicate Ranked(reg: Registry, g: Edges, level: map<string, nat>) {
    && g.Keys == reg.comps.Keys && level.Keys == g.Keys
    && forall k {:trigger DepsBelow(g, level, k, level[k])} :: k in level ==> DepsBelow(g, level, k, level[k])
  }

  /** The hashed component `k`: its dependencies' entries carry their own
      hashed long hashes. */
  function Hashed(env: HashEnv, reg: Registry, g: Edges, level: map<string, nat>, k: string): Component
    requires Ranked(reg, g, level) && k in reg.comps
    decreases level[k], 1, 0
  {
    var c := reg.comps[k];
    assert DepsBelow(g, level, k, level[k]);
    WithHash(env, c, HashedEntries(env, reg, g, level, level[k], g[k]), HashedFiles(env, c))
  }

  /** The entries of the hashed dependencies `ds`, all below level `n`. */
  function HashedEntries(env: HashEnv, reg: Registry, g: Edges, level: map<string, nat>, n: nat, ds: seq<string>): (r: seq<string>)
    requires Ranked(reg, g, level)
    requires forall d :: d in ds ==> d in level && level[d] < n
    ensures |r| == |ds|
    decreases n, 0, |ds|
  {
    if ds == [] then []
    else
      var d := ds[|ds| - 1];
      assert d in ds;
      HashedEntries(env, reg, g, level, n, ds[..|ds| - 1]) + [DependencyEntry(Hashed(env, reg, g, level, d))]
  }

  /** Entry `i` is that of the `i`-th hashed dependency. */
  lemma {:induction false} HashedEntriesAt(env: HashEnv, reg: Registry, g: Edges, level: map<string, nat>, n: nat,
                                           ds: seq<string>, i: nat)
    requires Ranked(reg, g, level)
    requires forall d :: d in ds ==> d in level && level[d] < n
    requires i < |ds|
    ensures ds[i] in reg.comps
    ensures HashedEntries(env, reg, g, level, n, ds)[i] == DependencyEntry(Hashed(env, reg, g, level, ds[i]))
    decreases |ds|
  {
    assert ds[i] in ds;
    if i < |ds| - 1 {
      assert ds[..|ds| - 1][i] == ds[i];
      HashedEntriesAt(env, reg, g, level, n, ds[..|ds| - 1], i);
    }
  }

  /** Entries read from a map that already holds the hashed dependencies are
      the hashed entries. */
  lemma {:induction false} EntriesOfHashed(env: HashEnv, reg: Registry, g: Edges, level: map<string, nat>, n: nat,
                                           comps: map<string, Component>, ds: seq<string>)
    requires Ranked(reg, g, level)
    requires forall d :: d in ds ==> d in level && level[d] < n
    requires forall d :: d in ds ==> d in comps && d in reg.comps && comps[d] == Hashed(env, reg, g, level, d)
    ensures EntriesOf(comps, ds) == HashedEntries(env, reg, g, level, n, ds)
    decreases |ds|
  {
    if ds != [] {
      EntriesOfHashed(env, reg, g, level, n, comps, ds[..|ds| - 1]);
      assert ds[|ds| - 1] in ds;
    }
  }

  /** A hashed component's `affected_by` starts with one entry per resolved
      dependency, in `depends_on` order, each carrying that dependency's own
      hashed long hash; the files follow. */
  lemma HashCoversDependencies(env: HashEnv, reg: Registry, g: Edges, level: map<string, nat>, k: string)
    requires Ranked(reg, g, level) && k in reg.comps
    ensures var r := Hashed(env, reg, g, level, k);
      && |r.affectedBy| == |g[k]| + |HashedFiles(env, reg.comps[k])|
      && forall i :: 0 <= i < |g[k]| ==>
        g[k][i] in reg.comps && r.affectedBy[i] == DependencyEntry(Hashed(env, reg, g, level, g[k][i]))
  {
    var c := reg.comps[k];
    assert DepsBelow(g, level, k, level[k]);
    var e := HashedEntries(env, reg, g, level, level[k], g[k]);
    WithHashFields(env, c, e, HashedFiles(env, c));
    forall i | 0 <= i < |g[k]|
      ensures g[k][i] in reg.comps && Hashed(env, reg, g, level, k).affectedBy[i] == DependencyEntry(Hashed(env, reg, g, level, g[k][i]))
    {
      HashedEntriesAt(env, reg, g, level, level[k], g[k], i);
      assert Hashed(env, reg, g, level, k).affectedBy[..|e|][i] == e[i];
    }
  }

  /** Any grouping obeying the grouping rule gives the same hashes. */
  lemma HashesIndependentOfLayering(env: HashEnv, reg: Registry, g: Edges, l1: map<string, nat>, l2: map<string, nat>, k: string)
    requires Layered(g, l1) && Layered(g, l2) && g.Keys == reg.comps.Keys && k in reg.comps
    ensures Ranked(reg, g, l1) && Ranked(reg, g, l2)
    ensures Hashed(env, reg, g, l1, k) == Hashed(env, reg, g, l2, k)
  {
    LayeringUnique(g, l1, l2);
  }

  // ---------------------------------------------------------------------------
  // The computation
  // ---------------------------------------------------------------------------

  /** The components of the groups, one group after another. */
  function Flatten(groups: seq<seq<string>>): seq<string>
    decreases |groups|
  {
    if groups == [] then [] else Flatten(groups[..|groups| - 1]) + groups[|groups| - 1]
  }

  /** The errors of the components `ks`, in order. */
  function ErrorsOf(env: HashEnv, reg: Registry, ks: seq<string>): seq<HashError>
    requires forall k :: k in ks ==> k in reg.comps
    decreases |ks|
  {
    if ks == [] then []
    else
      var k := ks[|ks| - 1];
      assert k in ks;
      ErrorsOf(env, reg, ks[..|ks| - 1]) + MissingErrors(env, reg.comps[k], ValidPaths(env, reg.comps[k]))
  }

  /** Every component, hashed. */
  function HashedMap(env: HashEnv, reg: Registry, g: Edges, level: map<string, nat>): (m: map<string, Component>)
    requires Ranked(reg, g, level)
    ensures m.Keys == reg.comps.Keys
  {
    map k | k in reg.comps :: Hashed(env, reg, g, level, k)
  }

  /** `comps` holds the `target` value of the components in `done` and the
      `orig` value of the others. */
  predicate UpTo(done: seq<string>, comps: map<string, Component>,
                 target: map<string, Component>, orig: map<string, Component>)
  {
    && target.Keys == orig.Keys && comps.Keys == orig.Keys
    && forall k :: k in orig ==> comps[k] == if k in done then target[k] else orig[k]
  }

  /** Setting the next component to its target value. */
  lemma UpToStep(done: seq<string>, comps: map<string, Component>,
                 target: map<string, Component>, orig: map<string, Component>, k: string)
    requires UpTo(done, comps, target, orig) && k in orig
    ensures UpTo(done + [k], comps[k := target[k]], target, orig)
  {
    var comps' := comps[k := target[k]];
    forall k' | k' in orig
      ensures comps'[k'] == if k' in done + [k] then target[k'] else orig[k']
    {
      if k' != k {
        assert k' in done + [k] <==> k' in done;
      }
    }
  }

  /** Once every component is done, the map is the target. */
  lemma UpToAll(done: seq<string>, comps: map<string, Component>,
                target: map<string, Component>, orig: map<string, Component>)
    requires UpTo(done, comps, target, orig) && forall k :: k in orig ==> k in done
    ensures comps == target
  {
  }

  /** `s` lists components of the graph by ascending level. */
  ghost predicate ByLevel(s: seq<string>, level: map<string, nat>) {
    && (forall i :: 0 <= i < |s| ==> s[i] in level)
    && (forall i, j :: 0 <= i < j < |s| ==> level[s[i]] <= level[s[j]])
  }

  /** In a list without repetition, ascending by level and holding every
      node, whatever lies below the level of entry `j` comes before it. */
  lemma EarlierLevels(s: seq<string>, level: map<string, nat>, j: nat)
    requires Distinct(s) && ByLevel(s, level) && j < |s|
    requires forall k :: k in level ==> k in s
    ensures s[j] !in s[..j]
    ensures forall d :: d in level && level[d] < level[s[j]] ==> d in s[..j]
  {
    forall d | d in level && level[d] < level[s[j]] ensures d in s[..j] {
      var i :| 0 <= i < |s| && s[i] == d;
      assert i < j;
      assert s[..j][i] == d;
    }
    assert forall i :: 0 <= i < j ==> s[..j][i] == s[i] != s[j];
  }

  /** Group `n` lists the components of level `n`, once each. */
  lemma GroupFacts(order: seq<string>, level: map<string, nat>, groups: seq<seq<string>>, n: nat)
    requires Distinct(order) && GroupsByLevel(order, level, groups) && n < |groups|
    ensures Distinct(groups[n])
    ensures forall k :: k in groups[n] <==> k in order && k in level && level[k] == n
  {
    assert groups[n] == Members(order, level, n);
    MembersOfDistinct(order, level, n);
  }

  /** Adding the components of the next level keeps the list ascending and
      without repetition. */
  lemma AppendLevel(a: seq<string>, b: seq<string>, level: map<string, nat>, n: nat)
    requires Distinct(a) && ByLevel(a, level) && forall k :: k in a ==> level[k] < n
    requires Distinct(b) && forall k :: k in b ==> k in level && level[k] == n
    ensures Distinct(a + b) && ByLevel(a + b, level)
  {
    var s := a + b;
    forall i | 0 <= i < |s| ensures s[i] in level {
      if i >= |a| { assert s[i] == b[i - |a|]; }
    }
    forall i, j | 0 <= i < j < |s| ensures level[s[i]] <= level[s[j]] && s[i] != s[j] {
      if j < |a| {
      } else if i < |a| {
        assert s[j] == b[j - |a|] && s[j] in b;
        assert s[i] in a;
      } else {
        assert s[i] == b[i - |a|] && s[j] == b[j - |a|];
      }
    }
  }

  /** The groups one after another list every component once, by ascending
      level: the first `m` groups are exactly the components below level `m`. */
  lemma {:induction false} FlattenFacts(order: seq<string>, level: map<string, nat>, groups: seq<seq<string>>, m: nat)
    requires Distinct(order) && GroupsByLevel(order, level, groups) && m <= |groups|
    ensures forall k :: k in Flatten(groups[..m]) <==> k in order && k in level && level[k] < m
    ensures Distinct(Flatten(groups[..m])) && ByLevel(Flatten(groups[..m]), level)
  {
    if m > 0 {
      FlattenFacts(order, level, groups, m - 1);
      GroupFacts(order, level, groups, m - 1);
      assert groups[..m][..m - 1] == groups[..m - 1];
      assert Flatten(groups[..m]) == Flatten(groups[..m - 1]) + groups[m - 1];
      AppendLevel(Flatten(groups[..m - 1]), groups[m - 1], level, m - 1);
    }
  }

  /** Hashing the next component `k`: it is still as registered, its
      dependencies are all looked up and already hashed, so what the loop
      computes for it is its hashed component. */
  lemma HashOne(env: HashEnv, reg: Registry, g: Edges, level: map<string, nat>, done: seq<string>,
                comps: map<string, Component>, k: string)
    requires ResolvedGraph(reg, g) && Ranked(reg, g, level)
    requires UpTo(done, comps, HashedMap(env, reg, g, level), reg.comps)
    requires k in reg.comps && k !in done
    requires forall d :: d in level && level[d] < level[k] ==> d in done
    ensures comps[k] == reg.comps[k]
    ensures forall d :: d in reg.comps[k].dependsOn ==> QualifyDep(reg.comps[k].project, d) in comps
    ensures var c := reg.comps[k];
      WithHash(env, c, QualifiedEntries(comps, c.project, c.dependsOn), HashedFiles(env, c)) == HashedMap(env, reg, g, level)[k]
  {
    HashOneDeps(reg, done, comps, HashedMap(env, reg, g, level), k);
    HashOneEntries(env, reg, g, level, done, comps, k);
    assert HashedMap(env, reg, g, level)[k] == Hashed(env, reg, g, level, k);
  }

  /** The component is still as registered and its dependencies are looked up. */
  lemma HashOneDeps(reg: Registry, done: seq<string>, comps: map<string, Component>,
                    target: map<string, Component>, k: string)
    requires AllDepsResolve(reg) && UpTo(done, comps, target, reg.comps)
    requires k in reg.comps && k !in done
    ensures comps[k] == reg.comps[k]
    ensures forall d :: d in reg.comps[k].dependsOn ==> QualifyDep(reg.comps[k].project, d) in comps
  {
  }

  /** The looked-up dependencies are the hashed ones. */
  lemma HashOneEntries(env: HashEnv, reg: Registry, g: Edges, level: map<string, nat>, done: seq<string>,
                       comps: map<string, Component>, k: string)
    requires ResolvedGraph(reg, g) && Ranked(reg, g, level)
    requires UpTo(done, comps, HashedMap(env, reg, g, level), reg.comps)
    requires k in reg.comps
    requires forall d :: d in level && level[d] < level[k] ==> d in done
    requires forall d :: d in reg.comps[k].dependsOn ==> QualifyDep(reg.comps[k].project, d) in comps
    ensures DepsBelow(g, level, k, level[k])
    ensures QualifiedEntries(comps, reg.comps[k].project, reg.comps[k].dependsOn)
      == HashedEntries(env, reg, g, level, level[k], g[k])
  {
    var target := HashedMap(env, reg, g, level);
    var c := reg.comps[k];
    QualifiedIsResolved(reg, comps, c.project, c.dependsOn);
    assert g[k] == DepsOf(reg, k);
    assert DepsBelow(g, level, k, level[k]);
    forall d | d in g[k] ensures d in comps && d in reg.comps && comps[d] == Hashed(env, reg, g, level, d) {
      assert d in done;
      assert comps[d] == target[d];
    }
    EntriesOfHashed(env, reg, g, level, level[k], comps, g[k]);
  }

  /** One turn of the hashing loop: setting entry `j` to what the loop
      computes for it leaves the first `j + 1` entries hashed. */
  lemma HashStep(env: HashEnv, reg: Registry, g: Edges, level: map<string, nat>, components: seq<string>, j: nat,
                 comps: map<string, Component>)
    requires ResolvedGraph(reg, g) && Ranked(reg, g, level)
    requires Distinct(components) && ByLevel(components, level) && j < |components|
    requires forall k :: k in level ==> k in components
    requires UpTo(components[..j], comps, HashedMap(env, reg, g, level), reg.comps)
    ensures components[j] in comps && comps[components[j]] == reg.comps[components[j]]
    ensures var c := reg.comps[components[j]];
      && (forall d :: d in c.dependsOn ==> QualifyDep(c.project, d) in comps)
      && UpTo(components[..j + 1],
              comps[components[j] := WithHash(env, c, QualifiedEntries(comps, c.project, c.dependsOn), HashedFiles(env, c))],
              HashedMap(env, reg, g, level), reg.comps)
  {
    var k := components[j];
    EarlierLevels(components, level, j);
    HashOne(env, reg, g, level, components[..j], comps, k);
    UpToStep(components[..j], comps, HashedMap(env, reg, g, level), reg.comps, k);
    PrefixAppend(components, j);
  }

  /** `components`: the members of the groups in turn, as one list. */
  method Components(groups: seq<seq<string>>) returns (components: seq<string>)
    ensures components == Flatten(groups)
  {
    components := [];
    var n := 0;
    while n < |groups|
      invariant 0 <= n <= |groups|
      invariant components == Flatten(groups[..n])
    {
      var group := groups[n];
      var j := 0;
      while j < |group|
        invariant 0 <= j <= |group|
        invariant components == Flatten(groups[..n]) + group[..j]
      {
        components := components + [group[j]];
        PrefixAppend(group, j);
        j := j + 1;
      }
      assert group[..j] == group;
      assert groups[..n + 1][..n] == groups[..n];
      n := n + 1;
    }
    assert groups[..n] == groups;
  }

  /** The hashing loop: every component of every group is hashed, with its
      dependencies read from the map being updated. All components are hashed
      even when paths are missing; the errors are returned in component order.
      A component whose `depends_on` is the empty string makes the loop throw
      when it is reached (`"".forEach` is not a function, builder.ts:782), so
      the promise rejects: `thrown` is set, and the map holds the components
      hashed before it. */
  method CalculateComponentHashes(env: HashEnv, reg: Registry, g: Edges, ghost level: map<string, nat>, groups: seq<seq<string>>)
    returns (hashed: Registry, errors: seq<HashError>, thrown: bool)
    requires Valid(reg) && g == ResolvedEdges(reg) && AllDepsResolve(reg)
    requires Ranked(reg, g, level) && GroupsByLevel(reg.order, level, groups)
    ensures hashed.order == reg.order
    ensures forall k :: k in Flatten(groups) <==> k in reg.comps
    ensures thrown <==> exists k :: k in reg.comps && reg.comps[k].emptyDependsOn
    ensures !thrown ==> hashed.comps == HashedMap(env, reg, g, level)
    ensures !thrown ==> errors == ErrorsOf(env, reg, Flatten(groups))
    ensures thrown ==> ThrownAt(reg, Flatten(groups), hashed.comps, HashedMap(env, reg, g, level))
  {
    assert ResolvedGraph(reg, g);
    assert Distinct(reg.order);
    var components := Components(groups);
    FlattenFacts(reg.order, level, groups, |groups|);
    assert groups[..|groups|] == groups;
    var comps;
    comps, errors, thrown := HashComponents(env, reg, g, level, components);
    hashed := reg.(comps := comps);
  }

  /** The state the hashing loop throws in: `components[j]` is the first
      component with an empty-string `depends_on`, and exactly the components
      before it are hashed. */
  ghost predicate ThrownAt(reg: Registry, components: seq<string>, comps: map<string, Component>,
                           target: map<string, Component>)
  {
    exists j :: 0 <= j < |components| && components[j] in reg.comps && reg.comps[components[j]].emptyDependsOn
      && (forall i :: 0 <= i < j ==> components[i] in reg.comps && !reg.comps[components[i]].emptyDependsOn)
      && UpTo(components[..j], comps, target, reg.comps)
  }

  /** The components in turn, each hashed and its errors collected, up to the
      first one whose `depends_on` is the empty string. */
  method HashComponents(env: HashEnv, reg: Registry, g: Edges, ghost level: map<string, nat>, components: seq<string>)
    returns (comps: map<string, Component>, errors: seq<HashError>, thrown: bool)
    requires ResolvedGraph(reg, g) && Ranked(reg, g, level)
    requires Distinct(components) && ByLevel(components, level)
    requires forall k :: k in level ==> k in components
    requires forall k :: k in components ==> k in reg.comps
    ensures thrown <==> exists k :: k in components && reg.comps[k].emptyDependsOn
    ensures !thrown ==> comps == HashedMap(env, reg, g, level)
    ensures !thrown ==> errors == ErrorsOf(env, reg, components)
    ensures thrown ==> ThrownAt(reg, components, comps, HashedMap(env, reg, g, level))
  {
    ghost var target := HashedMap(env, reg, g, level);
    comps, errors, thrown := reg.comps, [], false;
    var j := 0;
    assert components[..0] == [];
    while j < |components|
      invariant 0 <= j <= |components|
      invariant UpTo(components[..j], comps, target, reg.comps)
      invariant errors == ErrorsOf(env, reg, components[..j])
      invariant forall i :: 0 <= i < j ==> !reg.comps[components[i]].emptyDependsOn
    {
      if reg.comps[components[j]].emptyDependsOn {
        ThrowsHere(reg, components, comps, target, j);
        thrown := true;
        return;
      }
      comps, errors := HashNext(env, reg, g, level, components, j, comps, errors);
      j := j + 1;
    }
    NeverThrows(reg, components);
    Finished(env, reg, components, comps, target, errors);
  }

  /** The loop stops at the first component with an empty-string `depends_on`. */
  lemma ThrowsHere(reg: Registry, components: seq<string>, comps: map<string, Component>,
                   target: map<string, Component>, j: nat)
    requires forall k :: k in components ==> k in reg.comps
    requires j < |components| && reg.comps[components[j]].emptyDependsOn
    requires forall i :: 0 <= i < j ==> !reg.comps[components[i]].emptyDependsOn
    requires UpTo(components[..j], comps, target, reg.comps)
    ensures ThrownAt(reg, components, comps, target)
    ensures exists k :: k in components && reg.comps[k].emptyDependsOn
  {
    assert components[j] in components;
  }

  /** A loop that ran to the end met no empty-string `depends_on`. */
  lemma NeverThrows(reg: Registry, components: seq<string>)
    requires forall k :: k in components ==> k in reg.comps
    requires forall i :: 0 <= i < |components| ==> !reg.comps[components[i]].emptyDependsOn
    ensures !exists k :: k in components && reg.comps[k].emptyDependsOn
  {
    forall k | k in components ensures !reg.comps[k].emptyDependsOn {
      var i :| 0 <= i < |components| && components[i] == k;
    }
  }

  /** One turn of the hashing loop: component `j` is hashed and its errors added. */
  method HashNext(env: HashEnv, reg: Registry, g: Edges, ghost level: map<string, nat>, components: seq<string>, j: nat,
                  comps: map<string, Component>, errors: seq<HashError>)
    returns (comps': map<string, Component>, errors': seq<HashError>)
    requires ResolvedGraph(reg, g) && Ranked(reg, g, level)
    requires Distinct(components) && ByLevel(components, level) && j < |components|
    requires forall k :: k in level ==> k in components
    requires forall k :: k in components ==> k in reg.comps
    requires UpTo(components[..j], comps, HashedMap(env, reg, g, level), reg.comps)
    requires errors == ErrorsOf(env, reg, components[..j])
    ensures UpTo(components[..j + 1], comps', HashedMap(env, reg, g, level), reg.comps)
    ensures errors' == ErrorsOf(env, reg, components[..j + 1])
  {
    var k := components[j];
    HashStep(env, reg, g, level, components, j, comps);
    var c := comps[k];
    var allFiles, errs := ExpandPaths(env, c);
    var deps := DependencyEntries(comps, c);
    comps' := comps[k := WithHash(env, c, deps, SortedUnique(allFiles))];
    ErrorsStep(env, reg, components, j);
    errors' := errors + errs;
  }

  /** After the last component: the map is the target and all errors are in. */
  lemma Finished(env: HashEnv, reg: Registry, components: seq<string>, comps: map<string, Component>,
                 target: map<string, Component>, errors: seq<HashError>)
    requires forall k :: k in components ==> k in reg.comps
    requires forall k :: k in reg.comps ==> k in components
    requires UpTo(components[..|components|], comps, target, reg.comps)
    requires errors == ErrorsOf(env, reg, components[..|components|])
    ensures comps == target && errors == ErrorsOf(env, reg, components)
  {
    assert components[..|components|] == components;
    UpToAll(components, comps, target, reg.comps);
  }

  /** The errors of one more component. */
  lemma ErrorsStep(env: HashEnv, reg: Registry, ks: seq<string>, j: nat)
    requires forall k :: k in ks ==> k in reg.comps
    requires j < |ks|
    ensures forall k :: k in ks[..j + 1] ==> k in reg.comps
    ensures ErrorsOf(env, reg, ks[..j + 1])
      == ErrorsOf(env, reg, ks[..j]) + MissingErrors(env, reg.comps[ks[j]], ValidPaths(env, reg.comps[ks[j]]))
  {
    assert ks[..j + 1][..j] == ks[..j];
    assert ks[j] in ks;
  }

  /** The members of one level are listed once each. */
  lemma {:induction false} MembersOfDistinct(order: seq<string>, level: map<string, nat>, n: nat)
    requires forall i, j :: 0 <= i < j < |order| ==> order[i] != order[j]
    ensures forall i, j :: 0 <= i < j < |Members(order, level, n)| ==>
      Members(order, level, n)[i] != Members(order, level, n)[j]
    decreases |order|
  {
    if order != [] {
      MembersOfDistinct(order[1..], level, n);
      var m := Members(order, level, n);
      var rest := Members(order[1..], level, n);
      assert order[0] !in order[1..];
      assert order[0] !in rest;
      if order[0] in level && level[order[0]] == n {
        assert m == [order[0]] + rest;
        forall i, j | 0 <= i < j < |m| ensures m[i] != m[j] {
          if i == 0 {
            assert m[j] == rest[j - 1];
          } else {
            assert m[i] == rest[i - 1] && m[j] == rest[j - 1];
          }
        }
      }
    }
  }

  // ---------------------------------------------------------------------------
  // The lookup as the source writes it
  // ---------------------------------------------------------------------------

  /** `peerCompo.name === name || peerCompo.fullname === name` */
  predicate NamedBy(c: Component, name: string) {
    c.name == name || c.fullname == name
  }

  /** `findParentComponentByName` as written: the first component, in key
      order, whose bare name or fullname is `name`, whatever its project. */
  function FindParentByName(comps: map<string, Component>, keys: seq<string>, name: string): (r: Option<string>)
    requires forall k :: k in keys ==> k in comps
    ensures r.Some? ==> r.value in keys && NamedBy(comps[r.value], name)
    ensures r.None? <==> forall k :: k in keys ==> !NamedBy(comps[k], name)
    ensures r.Some? && keys != [] && NamedBy(comps[keys[0]], name) ==> r.value == keys[0]
    decreases |keys|
  {
    if keys == [] then None
    else if NamedBy(comps[keys[0]], name) then Some(keys[0])
    else
      assert forall k :: k in keys <==> k in keys[1..] || k == keys[0];
      FindParentByName(comps, keys[1..], name)
  }

  /** The dependency entries as written: `None` when some entry finds no
      component, where the source dereferences `null` and throws. */
  function AsWrittenEntries(reg: Registry, ds: seq<string>): (r: Option<seq<string>>)
    requires forall k :: k in reg.order ==> k in reg.comps
    ensures r.Some? ==> |r.value| == |ds|
    decreases |ds|
  {
    if ds == [] then Some([])
    else
      match AsWrittenEntries(reg, ds[..|ds| - 1])
      case None => None
      case Some(prev) =>
        match FindParentByName(reg.comps, reg.order, ds[|ds| - 1])
        case None => None
        case Some(k) => Some(prev + [DependencyEntry(reg.comps[k])])
  }

  /** A bare component of project `project` whose name, with `_` replaced
      by `-`, is `hyphen`, as registration would record it. */
  function Plain(project: string, name: string, hyphen: string, dependsOn: seq<string>): (c: Component)
    ensures c.name == name && c.project == project && c.dependsOn == dependsOn
    ensures c.fullname == project + "/" + hyphen
  {
    Component(name, project, hyphen, project + "/" + hyphen, "", project + "/m.yml", project,
              dependsOn, false, DefaultTimeout, false, None, None, false, false, None, "", "", [])
  }

  /** Two projects each have a component `x`, registered `q/x` first;
      `p/y` depends on `x`. */
  const Twins: Registry :=
    Registry(["q/x", "p/x", "p/y"],
             map["q/x" := Plain("q", "x", "x", []), "p/x" := Plain("p", "x", "x", []),
                 "p/y" := Plain("p", "y", "y", ["x"])])

  lemma TwinsValid()
    ensures Valid(Twins) && AllDepsResolve(Twins)
  {
    TwinsDistinct();
    TwinsNames();
    TwinsDepsResolve();
  }

  lemma TwinsDistinct()
    ensures forall i, j :: 0 <= i < j < |Twins.order| ==> Twins.order[i] != Twins.order[j]
    ensures forall k :: k in Twins.comps <==> k in Twins.order
  {
    assert "q/x" != "p/x" && "p/x" != "p/y" && "q/x" != "p/y" by {
      assert "q/x"[0] != "p/x"[0] && "p/x"[2] != "p/y"[2];
    }
  }

  lemma TwinsNames()
    ensures forall k :: k in Twins.comps ==> Twins.comps[k].fullname == k
  {
    assert "q" + "/" + "x" == "q/x" && "p" + "/" + "x" == "p/x" && "p" + "/" + "y" == "p/y";
  }

  lemma TwinsDepsResolve()
    ensures AllDepsResolve(Twins)
  {
    assert forall k, d :: k in Twins.comps && d in Twins.comps[k].dependsOn ==> k == "p/y" && d == "x";
    assert QualifyDep("p", "x") == "p/x";
  }

  /** Validation and grouping resolve `x` to the component of its own project. */
  lemma TwinsResolved()
    ensures "p/y" in Twins.comps && DepsOf(Twins, "p/y") == ["p/x"]
  {
    assert QualifyDep("p", "x") == "p/x";
    assert ["x"][..0] == [];
  }

  /** The lookup as written takes the component registered first. */
  lemma TwinsLookup()
    ensures FindParentByName(Twins.comps, Twins.order, "x") == Some("q/x")
  {
    assert NamedBy(Twins.comps["q/x"], "x");
  }

  /** `p/y`'s hash covers `q/x` where the resolved dependency is `p/x` (and,
      when `q/x` sits in a later group, a hash not yet computed). */
  lemma CrossProjectParent()
    ensures Valid(Twins) && AllDepsResolve(Twins)
    ensures "p/y" in Twins.comps && DepsOf(Twins, "p/y") == ["p/x"]
    ensures AsWrittenEntries(Twins, ["x"]) == Some([DependencyEntry(Twins.comps["q/x"])])
    ensures AsWrittenEntries(Twins, ["x"]) != Some(EntriesOf(Twins.comps, DepsOf(Twins, "p/y")))
  {
    TwinsValid();
    TwinsResolved();
    TwinsLookup();
    var e := DependencyEntry(Twins.comps["q/x"]);
    assert ["x"][..0] == [] && ["x"][0] == "x";
    assert AsWrittenEntries(Twins, []) == Some([]);
    assert AsWrittenEntries(Twins, ["x"]) == Some([] + [e]);
    assert [] + [e] == [e];
    assert EntriesOf(Twins.comps, ["p/x"]) == [DependencyEntry(Twins.comps["p/x"])] by {
      assert ["p/x"][..0] == [];
    }
    assert DependencyEntry(Twins.comps["q/x"]) != DependencyEntry(Twins.comps["p/x"]) by {
      assert DependencyEntry(Twins.comps["q/x"])[12] == 'q';
      assert DependencyEntry(Twins.comps["p/x"])[12] == 'p';
    }
  }

  /** A component named `a_b` in project `p`, registered as `p/a-b`; `p/c`
      depends on `a-b`. */
  const Underscored: Registry :=
    Registry(["p/a-b", "p/c"],
             map["p/a-b" := Plain("p", "a_b", "a-b", []), "p/c" := Plain("p", "c", "c", ["a-b"])])

  lemma UnderscoredValid()
    ensures Valid(Underscored) && AllDepsResolve(Underscored)
  {
    UnderscoredDistinct();
    UnderscoredNames();
    UnderscoredDepsResolve();
  }

  lemma UnderscoredDistinct()
    ensures forall i, j :: 0 <= i < j < |Underscored.order| ==> Underscored.order[i] != Underscored.order[j]
    ensures forall k :: k in Underscored.comps <==> k in Underscored.order
  {
    assert "p/a-b" != "p/c" by { assert "p/a-b"[2] != "p/c"[2]; }
  }

  lemma UnderscoredNames()
    ensures forall k :: k in Underscored.comps ==> Underscored.comps[k].fullname == k
  {
    assert "p" + "/" + "a-b" == "p/a-b" && "p" + "/" + "c" == "p/c";
  }

  lemma UnderscoredDepsResolve()
    ensures AllDepsResolve(Underscored)
  {
    assert forall k, d :: k in Underscored.comps && d in Underscored.comps[k].dependsOn ==> k == "p/c" && d == "a-b";
    assert QualifyDep("p", "a-b") == "p/a-b";
  }

  /** The dependency `a-b` resolves during validation. */
  lemma UnderscoredResolved()
    ensures "p/c" in Underscored.comps && DepsOf(Underscored, "p/c") == ["p/a-b"]
  {
    assert QualifyDep("p", "a-b") == "p/a-b";
    assert ["a-b"][..0] == [];
  }

  /** The lookup as written compares `a-b` with the bare name `a_b` and the
      fullname `p/a-b`, finds nothing, and the source throws. */
  lemma UnderscoredParentNotFound()
    ensures Valid(Underscored) && AllDepsResolve(Underscored)
    ensures "p/c" in Underscored.comps && DepsOf(Underscored, "p/c") == ["p/a-b"]
    ensures FindParentByName(Underscored.comps, Underscored.order, "a-b") == None
    ensures AsWrittenEntries(Underscored, ["a-b"]) == None
  {
    UnderscoredValid();
    UnderscoredResolved();
    assert !NamedBy(Underscored.comps["p/a-b"], "a-b") by {
      assert "a_b"[1] != "a-b"[1];
      assert |"p/a-b"| != |"a-b"|;
    }
    assert !NamedBy(Underscored.comps["p/c"], "a-b") by {
      assert |"c"| != |"a-b"|;
      assert |"p/c"| == |"a-b"| && "p/c"[0] != "a-b"[0];
    }
    assert ["a-b"][..0] == [];
  }
}
