/** The builder configuration (`builder.config.yml`), the run options, the
    activation of the nearest configuration of a chain (`getActiveBuilderConfig`,
    lib/node/builder/builder.ts:1116-1123) and the derivation of the branch pair
    and the precommit/postcommit mode (`resolveBuildEnvironment`, 1125-1169). */
module Config {
  import opened Wrappers
  import opened Text
  import opened ArgMaps

  /** A YAML field that may hold one string or a list of strings. */
  datatype StrOrList = Str(s: string) | List(items: seq<string>)

  /** `stringArray(input)`: a single string becomes a one-element list unless
      it is blank, an absent value becomes the empty list, a list is kept as is. */
  function StringArray(v: Option<StrOrList>): (r: seq<string>)
    ensures v.None? ==> r == []
    ensures v.Some? && v.value.Str? ==> r == if IsBlank(v.value.s) then [] else [v.value.s]
    ensures v.Some? && v.value.List? ==> r == v.value.items
  {
    match v
    case None => []
    case Some(Str(s)) => if IsBlank(s) then [] else [s]
    case Some(List(items)) => items
  }

  /** What `stringArray` promises its callers: every element comes from the
      input, a single string yields itself unless it is blank, and a list is
      passed through unchanged. */
  lemma StringArrayFacts(v: Option<StrOrList>)
    ensures forall x :: x in StringArray(v) ==> v.Some? && (if v.value.Str? then x == v.value.s else x in v.value.items)
    ensures v.Some? && v.value.Str? ==> forall x :: x in StringArray(v) ==> !IsBlank(x)
    ensures v.Some? && v.value.Str? && !IsBlank(v.value.s) ==> StringArray(v) == [v.value.s]
    ensures v.Some? && v.value.List? ==> StringArray(v) == v.value.items
  {
  }

  /** A string option that JavaScript treats as true: present and non-empty. */
  predicate Truthy(o: Option<string>) {
    o.Some? && o.value != ""
  }

  /** A publish flag: `true`/`false`, `'ci-only'`, or absent. */
  datatype PublishFlag = Unset | Flag(on: bool) | CiOnly

  datatype PublishPolicy = PublishPolicy(
    publish: PublishFlag,
    publishLatest: PublishFlag,
    target: Option<StrOrList>)

  /** `docker.registry`: the ephemeral (`temp`) and cache registries and the
      precommit and postcommit publish policies. */
  datatype RegistryInfo = RegistryInfo(
    temp: Option<StrOrList>,
    cache: Option<StrOrList>,
    precommit: PublishPolicy,
    postcommit: PublishPolicy)

  /** `docker.task_assign`: `type` (e.g. "builder-pool"), `strategy`
      ("roundrobin" or "random") and the pool of builder names. */
  datatype TaskAssign = TaskAssign(
    kind: Option<string>,
    strategy: Option<string>,
    builderPool: Option<StrOrList>)

  /** One configuration document (`TypedBuilderConfig`). */
  datatype BuilderConfig = BuilderConfig(
    headBranch: Option<string>,
    baseBranch: Option<string>,
    isPrecommit: Option<bool>,
    isPostcommit: Option<bool>,
    taskAssign: TaskAssign,
    buildArgs: Option<ArgMap>,
    registry: RegistryInfo)

  /** The run options the builder consults (`BuilderCustomOptions`). */
  datatype BuilderOptions = BuilderOptions(
    tag: Option<string>,
    ci: bool,
    precommitContext: Option<string>,
    baseBranch: Option<string>,
    headBranch: Option<string>,
    prebuilt: bool,
    cache: bool,
    pull: bool)

  /** What `git rev-parse --abbrev-ref HEAD` produced: exit code, outputs, and
      whether the child process reported an error object. */
  datatype GitResult = GitResult(code: int, stdout: string, stderr: string, failed: bool)

  /** One configuration file found while walking up from the working directory;
      a file may hold a list of documents. */
  datatype ChainEntry = ChainEntry(file: string, configs: seq<BuilderConfig>)

  /** The first document of the nearest file, if any (`chain[0]?.config?.[0]`). */
  function Nearest(chain: seq<ChainEntry>): (r: Option<BuilderConfig>)
    ensures r.Some? <==> chain != [] && chain[0].configs != []
    ensures r.Some? ==> r.value == chain[0].configs[0]
  {
    if chain != [] && chain[0].configs != [] then Some(chain[0].configs[0]) else None
  }

  /** The configuration chain, nearest file first, and its memoised active
      configuration (`BuilderConfigChain`). */
  class ConfigChain {
    var chain: seq<ChainEntry>
    var active: Option<BuilderConfig>

    constructor (chain: seq<ChainEntry>)
      ensures this.chain == chain && active == None
    {
      this.chain := chain;
      active := None;
    }

    /** `getActiveBuilderConfig`: the memoised configuration once one is set,
        otherwise the nearest document, which is then memoised. With an empty
        chain there is nothing to memoise and every call looks again. */
    method GetActive() returns (c: Option<BuilderConfig>)
      modifies this
      ensures chain == old(chain)
      ensures old(active).Some? ==> c == old(active) && active == old(active)
      ensures old(active).None? ==> c == Nearest(chain) && active == c
    {
      if active.Some? {
        return active;
      }
      c := Nearest(chain);
      active := c;
    }
  }

  /** Two activations in a row give the same configuration, whatever the chain. */
  method ActivationIsStable(cc: ConfigChain) returns (c1: Option<BuilderConfig>, c2: Option<BuilderConfig>)
    modifies cc
    ensures c1 == c2
    ensures old(cc.active).None? ==> c1 == Nearest(old(cc.chain))
  {
    c1 := cc.GetActive();
    c2 := cc.GetActive();
  }

  /** The head branch `git` gives: its trimmed output, when it succeeded quietly. */
  function GitBranch(git: GitResult): Option<string> {
    if !git.failed && git.stderr == "" && git.code == 0 && Trim(git.stdout) != "" then Some(Trim(git.stdout))
    else None
  }

  /** `resolveBuildEnvironment`, with the `git` call's result as an input (it is
      consulted only when no head branch is configured or given). Besides the
      new configuration and options it returns whether the "cannot be the same
      value" warning was printed. */
  method ResolveBuildEnvironment(config: BuilderConfig, options: BuilderOptions, git: GitResult)
    returns (config': BuilderConfig, options': BuilderOptions, warned: bool)
    // outside CI a precommit context defaults to 'dev'; nothing else in the options changes
    ensures options' == options.(precommitContext :=
      if !options.ci && !Truthy(options.precommitContext) then Some("dev") else options.precommitContext)
    // an option overrides the configuration, which overrides the default 'main'
    ensures config'.baseBranch == Some(
      if Truthy(options.baseBranch) then options.baseBranch.value
      else if Truthy(config.baseBranch) then config.baseBranch.value
      else "main")
    // for the head branch, git's answer comes between the configuration and 'main'
    ensures config'.headBranch == Some(
      if Truthy(options.headBranch) then options.headBranch.value
      else if Truthy(config.headBranch) then config.headBranch.value
      else GitBranch(git).GetOr("main"))
    // the two modes always end up set and mutually exclusive
    ensures config'.isPrecommit.Some? && config'.isPostcommit == Some(!config'.isPrecommit.value)
    // a precommit context (always present outside CI) forces precommit mode
    ensures Truthy(options'.precommitContext) ==> config'.isPrecommit == Some(true)
    ensures !options.ci ==> config'.isPrecommit == Some(true) && config'.isPostcommit == Some(false)
    // otherwise an explicit flag is kept, and an absent one means "branches differ"
    ensures !Truthy(options'.precommitContext) ==> config'.isPrecommit == Some(
      if config.isPrecommit.Some? then config.isPrecommit.value
      else config'.baseBranch != config'.headBranch)
    // the warning fires exactly when the two flags were equal before the override
    ensures warned <==>
      !Truthy(options'.precommitContext) &&
      (if config.isPostcommit.Some? then config.isPostcommit.value else config'.baseBranch == config'.headBranch)
        == config'.isPrecommit.value
    // the other fields of the configuration are untouched
    ensures config'.taskAssign == config.taskAssign && config'.buildArgs == config.buildArgs
    ensures config'.registry == config.registry
  {
    options' := options;
    if !options'.ci && !Truthy(options'.precommitContext) {
      options' := options'.(precommitContext := Some("dev"));
    }
    var base := config.baseBranch;
    var head := config.headBranch;
    if !Truthy(base) {
      base := Some("main");
    }
    if Truthy(options'.headBranch) {
      head := options'.headBranch;
    }
    if Truthy(options'.baseBranch) {
      base := options'.baseBranch;
    }
    if !Truthy(head) {
      head := Some(GitBranch(git).GetOr("main"));
    }
    var pre := config.isPrecommit;
    var post := config.isPostcommit;
    if Truthy(options'.precommitContext) {
      pre, post := Some(true), Some(false);
    } else {
      if pre.None? {
        pre := Some(base != head);
      }
      if post.None? {
        post := Some(base == head);
      }
    }
    warned := post.value == pre.value;
    post := Some(!pre.value);
    config' := config.(baseBranch := base, headBranch := head, isPrecommit := pre, isPostcommit := post);
  }
}
