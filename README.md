# vulcan builder core, modelled in Dafny

This project models the core of the vulcan component builder: the code that
turns a tree of component manifests into Docker builds. It covers build
planning and the bookkeeping of build execution. The verified properties are
stated alongside each operation. The steps are:

1. **Registration.** Every manifest found becomes a component with canonical
   names (`fullname`, `name_safe`). Duplicates and bad names are refused.
2. **Validation.** Each `depends_on` entry is qualified with the referrer's
   project. An entry that does not resolve is reported, and so is a cycle.
3. **Grouping.** The validated map is ordered into build groups by dependency
   level.
4. **Hashing.** Each component gets a content hash. The hash covers its
   files and the hashes of its dependencies.
5. **Preparation.** Before a component builds, `ARG EXTEND_FROM_<parent>`
   declarations in its Dockerfile become the parent's ephemeral image, passed
   as a temporary build argument.
6. **Command line.** The `docker buildx build` command line is assembled:
   - the builder-pool pick;
   - image tags and publish paths;
   - build-argument precedence;
   - registry cache import and export.
7. **Supervision.** Each output line of the build is classified, and
   completion is guarded: the build finishes and resolves once only, and a
   section header is printed when the output owner changes.
8. **Driving.** The build groups are driven in order, and the run stops at
   the first phase that leaves errors.
9. **Configuration and status.** The active builder configuration is chosen
   and memoised, and the branch pair and the precommit/postcommit mode are
   derived from it. Components carry a build status with four
   classifications.

Modules follow the stages:

| Module | Covers |
|---|---|
| `Wrappers` | `Option`, `Result` |
| `Text` | the JavaScript string operations used |
| `ArgMaps` | insertion-ordered objects and `Object.assign` |
| `Config` | configuration, options, `getActiveBuilderConfig`, `resolveBuildEnvironment` |
| `BuildStatus` | `model.ts` status predicates |
| `Manifest` | `getComponentsMap` |
| `Graph` | `getDependencyErrors` |
| `Groups` | `orderBuildsInGroups` |
| `Sorting` | `uniqueStringArray` and the file-list sort |
| `Hashing` | `calculateComponentHashes` hash assembly |
| `Images` | ephemeral and publish image paths |
| `Prep` | `buildPrepComponent` |
| `Pool` | builder-pool selection |
| `Invocation` | the `docker` command line |
| `Process` | output classification, completion guards, output sections |
| `Driver` | `buildAllGroups` |

State that the source changes in place is modelled as such:
- `lastUsedBuilderIndex` is `Pool.Selector`.
- `currentOutputOwner` and the console are `Process.OutputMux`.
- The closure flags of one build are `Process.BuildRun`.
- The memoised configuration is `Config.ConfigChain`.
- The growing argument lists, the loops over the Dockerfile lines, the
  grouping rounds and the hashing loop are methods with loop invariants.

Each such method is proved against a specification function. The properties
are proved about that function.

I/O comes into the model as parameters:
- file contents, `lstat`, glob expansion, file digests and SHA-512;
- `pathlib.join` and `pathlib.relative`;
- the result of `git rev-parse`;
- whether a cache image exists;
- the random draw;
- clock readings.

## Model

| member | source | states |
|---|---|---|
| BuildStatus.PendingExactly | lib/node/builder/model.ts:74-77 | a status is pending iff it is unset, `waiting` or `building` |
| BuildStatus.FinalExactly | lib/node/builder/model.ts:78-80 | final is exactly not pending, i.e. every set status other than `waiting` and `building` |
| BuildStatus.ContinuableExactly | lib/node/builder/model.ts:81-84 | continuable iff `success`, `skipped` or `redundant`; every continuable status is final |
| BuildStatus.ContinuableOrFlowStop | lib/node/builder/model.ts:83-87 | a set status is exactly one of continuable and flow-stop; an unset one is neither |
| BuildStatus.FlowStopExactly | lib/node/builder/model.ts:85-87 | flow-stop iff set and not continuable, so `waiting` and `building` are flow-stop; flow-stop and final means one of the four failing or cancelled states |
| Config.StringArrayFacts | lib/node/builder/builder.ts:1007-1018 | every element of `stringArray`'s result comes from its input; a single string yields itself unless it is blank, and never a blank element; a list passes through unchanged |
| Config.ConfigChain.GetActive | lib/node/builder/builder.ts:1116-1123 | returns the memoised configuration once set; otherwise returns and memoises the nearest document |
| Config.ActivationIsStable | lib/node/builder/builder.ts:1116-1123 | two activations in a row return the same configuration, the nearest one when nothing was memoised |
| Config.ResolveBuildEnvironment | lib/node/builder/builder.ts:1125-1169 | the precommit context defaults to `dev` outside CI; base branch is the option, else the configuration, else `main`; head branch is the option, else the configuration, else git's trimmed answer when it succeeded quietly, else `main`. The modes are set and opposite; a context forces precommit; otherwise an absent flag means the branches differ. The warning fires iff the two flags were equal; nothing else changes |
| ArgMaps.Lookup | lib/node/builder/builder.ts:251 | reading a key of an object: `undefined` iff the key is absent, else an entry's value |
| ArgMaps.Put | lib/node/builder/builder.ts:482 | assigning a key keeps an existing key in place, appends a new one, and keeps keys distinct |
| ArgMaps.PutLookup | lib/node/builder/builder.ts:482 | after an assignment its key reads the new value and every other key reads as before |
| ArgMaps.AssignLookup | lib/node/builder/builder.ts:248-250 | after `Object.assign(t, s)` a key reads from `s` when `s` has it, else from `t` |
| ArgMaps.AssignKeys | lib/node/builder/builder.ts:248-250 | `Object.assign` keeps `t`'s keys in place, appends `s`'s new keys in order, and keeps keys distinct |
| ArgMaps.AssignIntoEmpty | lib/node/builder/builder.ts:248 | assigning into an empty object copies the entries |
| Text.IndexOf | lib/node/builder/builder.ts:327 | `indexOf` returns -1 or an occurrence, and there is no earlier occurrence |
| Text.Split | lib/node/builder/builder.ts:326 | `split` on one character gives at least one field, none containing the separator |
| Text.SplitJoin | lib/node/builder/builder.ts:433 | joining the fields of a split with its separator gives back the string |
| Text.Tokens | lib/node/builder/builder.ts:326 | the tokens of a line are non-empty and contain no space |
| Text.TrimStart | lib/node/builder/builder.ts:1141 | the trimmed string is a suffix of the input and does not start with white space |
| Text.NoUnderscoreAfterHyphenation | lib/node/builder/builder.ts:526 | replacing every `_` by `-` leaves no `_` |
| Text.SlashEncodingRoundTrip | lib/node/builder/builder.ts:459 | on strings without `_`, encoding `/` as `__` and decoding `__` as `/` is the identity |
| Text.LowerIdempotent | lib/node/builder/builder.ts:427 | lower-casing twice is lower-casing once |
| Text.SlashEncodingKeepsLowerCase | lib/node/builder/builder.ts:529 | encoding `/` as `__` keeps a lower-case fullname lower-case |
| Manifest.Canonicalize | lib/node/builder/builder.ts:516-543 | the record registration derives carries the fullname of the manifest. A `depends_on` that is the empty string is falsy, so it is kept as a string and not normalised (542): the record marks it, and validation and grouping read it as no dependency |
| Manifest.Register | lib/node/builder/builder.ts:513-547 | one registration keeps the map valid. It only adds the canonical record under a fresh fullname at the end of the key order. It adds two errors for an unreadable file and at most one otherwise, and never both an entry and an error |
| Manifest.RegisterOutcome | lib/node/builder/builder.ts:513-547 | an unreadable file adds the read error (943-946) and then the parse error (544-545); an unparsable file, a missing name, and a name mixing `-` and `_` each add their one error; none of them changes the map |
| Manifest.RegisterAccepted | lib/node/builder/builder.ts:526-538 | an acceptable name is registered with its canonical record when its fullname is fresh. It is refused as a duplicate that names the first file when another file holds it. It changes nothing when the same file holds it |
| Manifest.RegisteredAreCanonical | lib/node/builder/builder.ts:526-529 | every registered component's fullname is `project/` plus its name with `_` as `-` (no prefix for no project), and its `name_safe` is the fullname with `/` as `__`, lower-cased |
| Manifest.FirstRegistrationWins | lib/node/builder/builder.ts:530-538 | later files never replace or remove an entry and never take back an error |
| Manifest.RegisteredAfter | lib/node/builder/builder.ts:538 | after a file with an acceptable name, its fullname is in the map |
| Manifest.HeldFrom | lib/node/builder/builder.ts:530-538 | from the file that registers a fullname on, that file keeps it unless an error is raised |
| Manifest.DuplicateFullnameFails | lib/node/builder/builder.ts:530-535 | two manifests from different files with the same fullname make `getComponentsMap` fail, in either order |
| Graph.BrokenListEmpty | lib/node/builder/builder.ts:560-570 | a component reports no entry iff every entry resolves, and then each entry yields one resolved dependency |
| Graph.BrokenInEmpty | lib/node/builder/builder.ts:557-571 | no "not found" error iff every entry of every component resolves |
| Graph.ResolvedEdges | lib/node/builder/builder.ts:569 | the resolved-dependency graph has a node per component and is closed |
| Graph.AcyclicExactly | lib/node/builder/builder.ts:572-582 | the peeling check passes iff the resolved graph has no cycle, which is when serialising the map succeeds |
| Graph.AcyclicHasReady | lib/node/builder/builder.ts:600-611 | in an acyclic graph every non-empty set of nodes has a member with no dependency inside the set |
| Graph.DependencyErrorsExactly | lib/node/builder/builder.ts:555-583 | `getDependencyErrors` returns no errors iff every dependency resolves and the resolved graph is acyclic |
| Graph.ResolveComponent | lib/node/builder/builder.ts:560-570 | one component's loop yields its resolved dependencies and its "not found" errors, as specified |
| Graph.CollectDependencies | lib/node/builder/builder.ts:557-571 | the outer loop yields the errors in component order and every resolved list |
| Graph.GetDependencyErrors | lib/node/builder/builder.ts:555-583 | returns `None` (null) exactly when there are no errors; otherwise the unresolved entries in order, then one cycle error if there is a cycle |
| Groups.AllDepsReady | lib/node/builder/builder.ts:605-608 | true iff every resolved dependency is already built |
| Groups.SelectReady | lib/node/builder/builder.ts:603-611 | a round selects the waiting components, in order, whose dependencies are all built |
| Groups.CollectRoots | lib/node/builder/builder.ts:591-599 | group 0 is the components without `depends_on`, in registration order; the rest wait |
| Groups.OrderBuildsInGroups | lib/node/builder/builder.ts:585-627 | every component gets a level. A level is 0 iff there is no `depends_on`, else one more than its highest dependency. The groups list the levels in registration order, with no empty group. The groups alone form a build plan: each component is in exactly one group, group 0 is exactly the components without `depends_on`, and every dependency is in an earlier group |
| Groups.GroupsPlan | lib/node/builder/builder.ts:585-627 | the levels the loop assigns give a build plan: each component in exactly one group, group 0 is exactly the components without `depends_on`, and every dependency in an earlier group |
| Groups.DependenciesBuildEarlier | lib/node/builder/builder.ts:603-617 | every dependency of a component in group `n` is in an earlier group |
| Groups.EachInOneGroup | lib/node/builder/builder.ts:585-627 | every component is in exactly one group |
| Groups.LayeringUnique | lib/node/builder/builder.ts:600-621 | the grouping rule fixes the levels: two placements obeying it are equal |
| Groups.LevelZeroExactly | lib/node/builder/builder.ts:593 | level 0 holds exactly the components without resolved dependencies |
| Sorting.LessEqTotal | lib/node/builder/builder.ts:772 | the string order is total (it is also reflexive, antisymmetric and transitive, by the lemmas beside it) |
| Sorting.SortFacts | lib/node/builder/builder.ts:772 | the sort permutes its input into ascending order and keeps a repetition-free list repetition-free |
| Sorting.UniqueFacts | lib/node/builder/builder.ts:999-1005 | `uniqueStringArray` keeps exactly the elements of its input, once each |
| Sorting.UniqueOrder | lib/node/builder/builder.ts:999-1005 | `uniqueStringArray` keeps first occurrences in input order: of two elements of the result, the earlier one occurs first in the input |
| Sorting.SortedUniqueFacts | lib/node/builder/builder.ts:772 | the hashed file list holds every file once, ascending |
| Sorting.SortedSetsEqual | lib/node/builder/builder.ts:772 | two ascending repetition-free lists with the same elements are equal |
| Sorting.SortedUniqueOrderFree | lib/node/builder/builder.ts:772 | the file list depends only on which files were found, not on their order or repetitions |
| Hashing.Components | lib/node/builder/builder.ts:632-638 | the groups flattened into one list |
| Hashing.ValidPaths | lib/node/builder/builder.ts:718-725 | the paths are the sources, then the manifest, then (docker only) the Dockerfile |
| Hashing.ExcludesExactly | lib/node/builder/builder.ts:810-820 | the exclusions passed to the glob are exactly the default excludes and the component's `ignore` patterns, each as a `!` pattern |
| Hashing.ExpandPaths | lib/node/builder/builder.ts:726-771 | collects the non-directory paths, then the files the glob finds under each directory with the component's exclusions, and one error per missing path |
| Hashing.HashedFilesExactly | lib/node/builder/builder.ts:716-772 | a file is hashed iff it is a listed non-directory path or the glob finds it under a listed directory with the component's exclusions (the default excludes and its `ignore` list); the list is ascending without repetition |
| Hashing.ManifestAndDockerfileHashed | lib/node/builder/builder.ts:719-724 | an existing manifest is always hashed, and so is an existing Dockerfile of a docker component |
| Hashing.SaltedMessage | lib/node/builder/builder.ts:931-938 | the digested message starts with the salt naming the context |
| Hashing.WithHashFields | lib/node/builder/builder.ts:786-793 | only the three fields change. `affected_by` is the dependency entries, then one entry per file in order. The long hash is the SHA of the fullname-salted entries and digests. The short hash is `_` and a prefix of the long hash, 25 characters long for a long hash of at least 24 |
| Hashing.HashIgnoresEnumerationOrder | lib/node/builder/builder.ts:772-793 | the same set of files gives the same hashed component, whatever the enumeration order |
| Hashing.HashCoversDependencies | lib/node/builder/builder.ts:781-789 | `affected_by` starts with one entry per resolved dependency, in `depends_on` order, each with that dependency's own hashed long hash |
| Hashing.HashesIndependentOfLayering | lib/node/builder/builder.ts:716-794 | any grouping obeying the grouping rule gives the same hashes |
| Hashing.QualifiedIsResolved | lib/node/builder/builder.ts:561-569 | looking each entry up by its qualified fullname reads exactly the resolved-dependency list |
| Hashing.DependencyEntries | lib/node/builder/builder.ts:781-785 | the dependency entries, each looked up by qualified fullname |
| Hashing.FlattenFacts | lib/node/builder/builder.ts:632-638 | the flattened groups list each component once, by ascending level |
| Hashing.HashComponents | lib/node/builder/builder.ts:716-794 | the loop throws iff some component's `depends_on` is the empty string (`"".forEach` at 782 is not a function). When it throws, it does so at the first such component, with exactly the components before it hashed. Otherwise every component holds its hashed value and the errors are in component order |
| Hashing.HashNext | lib/node/builder/builder.ts:716-793 | one turn hashes the next component, reading already-final dependency hashes, and appends its errors |
| Hashing.CalculateComponentHashes | lib/node/builder/builder.ts:629-799 | the promise rejects iff some component's `depends_on` is the empty string, and the components hashed before the throw keep their hashes. Otherwise every component is hashed, key order unchanged, and the errors are returned in group order |
| Hashing.FindParentByName | lib/node/builder/builder.ts:1041-1051 | the first component in key order whose bare name or fullname matches, or none iff none matches |
| Hashing.CrossProjectParent | lib/node/builder/builder.ts:782-784 | on a valid map, the lookup as written covers `q/x` where validation resolved `p/x` |
| Hashing.UnderscoredParentNotFound | lib/node/builder/builder.ts:782-784 | on a valid map, the lookup as written finds no parent for a resolved dependency whose name has `_` |
| Images.EphemeralPath | lib/node/builder/builder.ts:1020-1023 | the ephemeral image starts with the first temporary registry and `/`, and ends with `:` and the tag, or the hash when no tag is given |
| Images.EphemeralPathSeparatesHashes | lib/node/builder/builder.ts:1020-1023 | two hashed ephemeral images of a component agree iff their hashes do |
| Images.EphemeralPathSeparatesImages | lib/node/builder/builder.ts:1020-1023 | with the same registry and tag (or hash), two ephemeral images agree iff their `project/` and image-name parts do |
| Images.TrimSlashesFacts | lib/node/builder/builder.ts:1028 | the trimmed registry is a prefix not ending in `/`, and only slashes were cut |
| Images.TrimSlashesIdempotent | lib/node/builder/builder.ts:1028 | trimming twice trims no more |
| Images.StripTrailingSlashes | lib/node/builder/builder.ts:1028 | the trimming loop computes the trimmed registry |
| Images.PublishPaths | lib/node/builder/builder.ts:1025-1039 | one path per target: the trimmed registry, `/`, the image name |
| Prep.FirstFrom | lib/node/builder/builder.ts:435-441 | the first line starting with `FROM`, or the number of lines |
| Prep.ScanDockerfile | lib/node/builder/builder.ts:431-453 | marked lines before the first `FROM` are collected; each later marked non-`FROM` line is an error |
| Prep.LateErrorsExactly | lib/node/builder/builder.ts:442-451 | one error per marked line after the first `FROM`, with its 1-based number |
| Prep.LateDeclarationReported | lib/node/builder/builder.ts:445-450 | a declaration after the first `FROM` is reported with its line number |
| Prep.DeclaredBeforeFrom | lib/node/builder/builder.ts:437-444 | every declared parent comes from a marked line before the first `FROM` |
| Prep.DepName | lib/node/builder/builder.ts:457 | a declared name has no `=` and no space, and is lower-case |
| Prep.ParentOfExactly | lib/node/builder/builder.ts:454-471 | a parent is found iff some bare name or fullname matches the name read with `__` as `/` or with `_` as `-`, and a bare-name match wins |
| Prep.MissingParentsExactly | lib/node/builder/builder.ts:462-470 | one error per declared name without a parent |
| Prep.TempArgsLookup | lib/node/builder/builder.ts:481-482 | the temporary arguments exist once a parent is found. `EXTEND_FROM_<name>` reads that parent's ephemeral image, and other keys read as before |
| Prep.ResolveExtends | lib/node/builder/builder.ts:458-483 | the dependency loop. It throws iff a parent has no `docker` section, and the errors and temporary arguments are those of the names before that |
| Prep.BaseDocker | lib/node/builder/builder.ts:421-430 | `image_name` defaults to the component name and is lower-cased; configured build arguments become inherited; nothing else changes |
| Prep.BuildPrep | lib/node/builder/builder.ts:407-494 | a non-docker component gets the one "builder not specified" error. A missing or empty Dockerfile gets its one error. Otherwise only the docker section changes, and the errors are the late declarations, then the missing parents |
| Pool.Advance | lib/node/builder/builder.ts:149 | the wrapped index stays below the pool size |
| Pool.RoundRobinFromStart | lib/node/builder/builder.ts:148-150 | from a fresh start, pick `k` uses builder `k % n` |
| Pool.Selector.Choose | lib/node/builder/builder.ts:142-158 | round robin advances and wraps the shared index, random uses the draw, and no pool or strategy chooses nothing and leaves the index |
| Pool.RoundRobinRun | lib/node/builder/builder.ts:141-158 | over `k` round-robin builds from a fresh start, build `i` runs on builder `i % n` |
| Invocation.Flagged | lib/node/builder/builder.ts:175-176 | the flag, then the value, for each value in order |
| Invocation.FlaggedAppend | lib/node/builder/builder.ts:160-198 | flagging distributes over concatenation |
| Invocation.PushFlagged | lib/node/builder/builder.ts:252-254 | a push loop appends the flagged values |
| Invocation.NoCacheFlag | lib/node/builder/builder.ts:130 | `--no-cache` is passed iff the run or the component disables the cache |
| Invocation.EphemeralImagesFirst | lib/node/builder/builder.ts:139-162 | the first image is the hashed ephemeral image, ending in `:hash`; the second ends in `:tag`, or `:hash` without a tag |
| Invocation.UnpublishedStaysEphemeral | lib/node/builder/builder.ts:166-198 | a component that does not publish pushes its two ephemeral images only |
| Invocation.SuffixedPaths | lib/node/builder/builder.ts:1025-1039 | the suffixed publish images are exactly the target registries' paths |
| Invocation.PolicyImages | lib/node/builder/builder.ts:166-198 | a policy's images are its suffixed paths when it is enabled, none otherwise |
| Invocation.PublishedImagesExactly | lib/node/builder/builder.ts:164-198 | beyond the two ephemeral images, exactly the images of enabled policies are pushed. A policy is enabled when the component publishes, the mode matches, `shouldPublish` holds and there are targets. `:latest` is pushed only with a passing postcommit `publish_latest` |
| Invocation.PushTags | lib/node/builder/builder.ts:173-177 | the publish loop appends `--tag` and the image for each path, to both lists |
| Invocation.FinalArgsLookup | lib/node/builder/builder.ts:245-250 | a build argument takes the component's own value, else the temporary value, else the inherited value |
| Invocation.FinalArgsDistinct | lib/node/builder/builder.ts:243-250 | the final arguments hold no key twice |
| Invocation.BuildArgExprsExactly | lib/node/builder/builder.ts:251-254 | each final argument appears once as `name=value`, and nothing else does |
| Invocation.CacheRefs | lib/node/builder/builder.ts:266-271 | per cache registry, the base reference then the head reference |
| Invocation.BranchRefsDiffer | lib/node/builder/builder.ts:267-272 | two references to one image differ iff the lower-cased branch tags do |
| Invocation.BranchTagHasNoSlash | lib/node/builder/builder.ts:268-269 | a branch tag contains no `/` |
| Invocation.CacheExports | lib/node/builder/builder.ts:272-274 | postcommit exports to every registry; otherwise every registry iff the branch tags differ, and none when they are equal |
| Invocation.CacheFromsExactly | lib/node/builder/builder.ts:276-288 | exactly the existing references are imported |
| Invocation.CacheToLoop | lib/node/builder/builder.ts:261-275 | the registry loop computes the references and the `--cache-to` options |
| Invocation.CacheFromLoop | lib/node/builder/builder.ts:276-288 | the settled look-ups give `--cache-from` for each existing reference |
| Invocation.CacheOptions | lib/node/builder/builder.ts:257-289 | nothing without a cache registry; else the cache-to then the cache-from options; `None` when a branch is unknown and the source throws |
| Invocation.Tags | lib/node/builder/builder.ts:160-198 | the image list is the ephemeral images then the publish images, each passed as `--tag` |
| Invocation.PushPrecommit | lib/node/builder/builder.ts:166-178 | the precommit block appends its images and their tags |
| Invocation.PushPostcommit | lib/node/builder/builder.ts:180-198 | the postcommit block appends its images, then the `latest` images, and their tags |
| Invocation.BuildCommand | lib/node/builder/builder.ts:121-292 | the command is the leading options, builder, tags, build arguments, cache options and context, in that order, with the image list; `None` iff the cache options throw |
| Process.LongestPrefix | lib/node/builder/builder.ts:310-311 | the digits `parseInt` reads: a prefix of matching characters followed by a non-matching one |
| Process.SingleCharParse | lib/node/builder/builder.ts:310 | `parseInt(c) >= 0` for one character iff it is a digit |
| Process.ParseUnsigned | lib/node/builder/builder.ts:311 | a string starting with a decimal digit (not `0x`) parses to its leading digits' value |
| Process.ParseIntOfNat | lib/node/builder/builder.ts:311 | a number followed by a non-digit parses back to the number |
| Process.CharAt | lib/node/builder/builder.ts:310 | `charAt` gives at most one character |
| Process.BracketedStep | lib/node/builder/builder.ts:308-313 | a second token `[` + digit makes a steps line |
| Process.NumberedStep | lib/node/builder/builder.ts:308-313 | a third token of a number and `]` makes a steps line |
| Process.ErrorEchoExactly | lib/node/builder/builder.ts:314-348 | a line is echoed as an error iff it is not the marker, `CACHED` or a steps line, and is an unignored `ERROR:` line, an unignored application error, or inside a section it does not close |
| Process.ErrorLineToggles | lib/node/builder/builder.ts:340-342 | an unignored `ERROR:` line flips the section flag after a leading `#` has cleared it |
| Process.SectionChanges | lib/node/builder/builder.ts:332-342 | the flag changes only by a `#` line closing the section or an `ERROR:` line flipping it |
| Process.HashLineCloses | lib/node/builder/builder.ts:332-334 | a `#` line that is not an `ERROR:` line leaves no section open |
| Process.RegistryCacheLinesAreNoErrors | lib/node/builder/builder.ts:316 | a registry-cache line outside a section is never echoed as an error |
| Process.FailureOf | lib/node/builder/builder.ts:363-368 | a failed build's error names its Dockerfile |
| Process.ResolveOnce | lib/node/builder/builder.ts:118-119 | the promise resolves at most once, with the first value |
| Process.FinishOnce | lib/node/builder/builder.ts:349-354 | `finishProc` acts on its first call only |
| Process.FinishOutcome | lib/node/builder/builder.ts:349-373 | a first `finishProc` succeeds iff the code is 0 and adds exactly one error otherwise |
| Process.FeedFacts | lib/node/builder/builder.ts:325-331 | before `close`, a build has finished, resolved true and without error iff the cache-export marker came by |
| Process.BuildOutcome | lib/node/builder/builder.ts:325-401 | a build succeeds iff the marker came by or the exit code is 0; the later `close` is a no-op; a failure adds exactly one error |
| Process.HeaderShape | lib/node/builder/builder.ts:200-203 | the header is at least 80 characters, names the component after ten characters, then holds a space and dashes only |
| Process.HeaderInjective | lib/node/builder/builder.ts:200-203 | different components have different headers |
| Process.NewOwnerPrintsHeader | lib/node/builder/builder.ts:206-213 | output from another component prints a blank line and the new header |
| Process.OutputMux.Rectify | lib/node/builder/builder.ts:206-213 | the owner becomes the header, and the header is printed only on a change |
| Process.OutputMux.Echo | lib/node/builder/builder.ts:317-324 | a section rectification, then the line |
| Process.BuildRun.TryResolve | lib/node/builder/builder.ts:119 | the state after `tryResolve` |
| Process.BuildRun.FinishProc | lib/node/builder/builder.ts:349-373 | the state after `finishProc`, and what it prints: nothing on a second call |
| Process.BuildRun.HandleLine | lib/node/builder/builder.ts:325-348 | the state, the printed lines and the console owner after one output line: the build's header once the line is echoed or finishes the build, else unchanged |
| Process.BuildRun.Track | lib/node/builder/builder.ts:332-347 | a non-marker line updates the section flag, echoes by its classification, and makes the build the console owner exactly when it echoes |
| Process.FinishedOwnsConsole | lib/node/builder/builder.ts:325-373 | once the build has finished, the console belongs to it, whatever lines follow |
| Process.FeedLines | lib/node/builder/builder.ts:375-393 | the state after every output line, and the console: what the lines printed, in order, and the owner |
| Process.Supervise | lib/node/builder/builder.ts:375-401 | every line, then `close`: success iff the marker came by or the code is 0, and one error exactly on failure. The console shows what the lines printed, then the closing message unless the marker already finished the build, and the build owns the console afterwards |
| Driver.ConcatEmpty | lib/node/builder/builder.ts:94-96 | a phase leaves no error iff no component adds one |
| Driver.SuccessExactly | lib/node/builder/builder.ts:93-106 | the run returns null iff no component of any group adds an error, and then every group was prepared and built, in order |
| Driver.StopsAtFirstFailure | lib/node/builder/builder.ts:93-106 | a failed run stops in a group `k`: earlier groups were clean, group `k` was built only after a clean preparation, no later group was touched, and the errors are that phase's |
| Driver.Settle | lib/node/builder/builder.ts:94-95 | one phase adds each component's errors in order |
| Driver.RunGroup | lib/node/builder/builder.ts:94-103 | a group is prepared, and built only when the preparation left no error |
| Driver.BuildAllGroups | lib/node/builder/builder.ts:93-106 | the loop starts what the run specifies and returns null or its errors |

## Left out

- Process spawning, `readline` and log streams are left out. The output lines, the exit code and the clock readings are inputs.
- The prebuilt probe (builder.ts:220-241) is not modelled: it runs a shell command. `runCommand`, `killLogTail`, `nohupDisown` and `getTempDir` are left out for the same reason.
- The file system and globbing are parameters:
  - `lstat` is `stat`;
  - the glob expansion of a directory is `glob`, which receives the exclusion list;
  - the source check before hashing is `sources`;
  - the Dockerfile content is `data`.
  Glob errors inside directories, and rejected `lstat` promises, are not modelled.
- `findBuilderConfig` walks up the directory tree and reads YAML. The model takes its chain as given.
- YAML parsing is not modelled: a manifest arrives parsed, unparsable, or unreadable. `copy` (a JSON round trip) is the identity.
- SHA-512 and the per-file digest are parameters. A file digest that fails is not dropped: the model digests every file.
- The prebuild scripts (builder.ts:639-694) and the `src` glob pass (696-715) are not modelled: they run commands and glob. Their outcome is the `sources` parameter.
- Colours, `elapsed()` formatting and durations are left out. Durations and time stamps are string parameters.
- `Promise.allSettled` runs the components of a group concurrently. The model runs them one after another.
  - The shared error list is in component order, where the source has completion order.
  - The output lines of concurrent builds are not interleaved.
- Within one build, stdout and stderr lines are given as one sequence in arrival order, and `close` comes after all lines.
- The random strategy's `Math.floor(Math.random() * pool.length)` is the parameter `draw`.
- `dockerCacheFromResolve` (docker manifest inspect) is the parameter `cached`, and a rejected look-up is not modelled. The `[CACHE_MISS]` log line is not modelled.
- The command line written to the log file, the `STARTED` and `ARG` echo lines, and the group listing printed by `buildAllGroups` are not modelled.
- JavaScript object keys that look like integers are ordered first by the engine. The model keeps plain insertion order.
- Manifest.Register, Graph.GetDependencyErrors: the component map is a plain JavaScript object, so it also answers for keys inherited from `Object.prototype`. A fullname such as `constructor` or `toString` (no project) is refused by the source as a duplicate "registered by undefined" (builder.ts:530), and `depends_on: [toString]` resolves (563), after which `orderBuildsInGroups` waits forever. The model's maps hold only their own keys: it registers such a component and reports the dependency as not found.
- Strings:
  - `toLowerCase` covers ASCII letters only.
  - `trim` removes the ASCII white space, no-break space and byte-order mark; other Unicode spaces are not modelled.
  - `localeCompare` is modelled as character-code order.
- Process.ParseInt: models `parseInt` up to the sign and the digits it reads; floating-point precision of long numbers is not modelled, because only `>= 0` is used.
- Invocation.CacheOptions: a missing branch makes the source throw; the model returns `None` for the whole command.
- Prep.BuildPrep: the `!parentCompo` branch (builder.ts:471-480) is not modelled: it is reached only with a non-empty `found`, whose first entry always has a component.
- Prep.BuildPrep: a parent without a `docker` section makes the source throw; the model returns `threw` and stops the loop.
- Groups.OrderBuildsInGroups: requires a map that passed validation, as its callers ensure. On a map with a cycle, the loop at builder.ts:600-621 never ends. A component whose only entries do not resolve waits for nothing and joins the first round. When no component is a root, `totalList[1].push` (614) throws.
- Hashing.CalculateComponentHashes: requires a map whose dependencies all resolve (a validated map). The corrected lookup is used; the lookup as written is modelled separately. When the loop throws on an empty-string `depends_on`, the source's promise rejects with the TypeError and hands back no error list; the model's `errors` output then carries no promise.
- For a non-docker component, `buildComponent` returns `undefined` and starts nothing. This is not a separate member because the driver's `build` parameter covers it.
- The code does not check that an `EXTEND_FROM` parent is listed in `depends_on`: it only checks that some component of the map has a matching name. The model follows the code.

## Findings

| source | as written | input that shows it | evidently intended | confidence | as-written member | corrected member |
|---|---|---|---|---|---|---|
| lib/node/builder/builder.ts:782-784 | the dependency entry of an unqualified `depends_on` name is found by `findParentComponentByName`, the first component in key order whose bare name matches, whatever its project | `q/x` registered before `p/x`; `p/y` has `depends_on: [x]`. Validation resolves `p/x`, but the hash of `p/y` covers `q/x` | look the entry up by the fullname qualified with the referrer's project, as `getDependencyErrors` does | high (not executed) | Hashing.CrossProjectParent | Hashing.DependencyEntries |
| lib/node/builder/builder.ts:782-784 | the lookup compares the `depends_on` entry with the bare `name` and the `fullname`, but never with `name_hyphen` | project `p` has `a_b` (fullname `p/a-b`), and `p/c` has `depends_on: [a-b]`, which validation accepts. No component matches `a-b`, and `parentCompo.fullname` throws | the same qualified lookup, which finds `p/a-b` | high (not executed) | Hashing.UnderscoredParentNotFound | Hashing.QualifiedIsResolved |
