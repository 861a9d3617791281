/** Resolution of a model reference against a configuration and the environment. */
module Registry {
  import opened Config
  import opened Environment
  import opened Sorting
  import opened Wrappers

  datatype Resolved = Resolved(provider: string, kind: Kind, baseUrl: Option<string>, apiKey: Option<string>, model: string)

  datatype StartupError =
    | InvalidConfig | NoSuchAgent | BadReference | UnknownProvider | ModelNotAllowed | MissingKey | NotImplemented

  function Lookup(providers: seq<(string, ProviderSpec)>, name: string): Option<ProviderSpec> {
    if providers == [] then None
    else if providers[0].0 == name then Some(providers[0].1)
    else Lookup(providers[1..], name)
  }

  function Resolve(cfg: Config, env: Environ, ref: string): Result<Resolved, StartupError> {
    match SplitRef(ref)
    case None => Err(BadReference)
    case Some((name, model)) =>
      match Lookup(cfg.providers, name)
      case None => Err(UnknownProvider)
      case Some(spec) =>
        if "*" !in spec.allowedModels && model !in spec.allowedModels then Err(ModelNotAllowed)
        else if !Falsy(spec.apiKeyEnv) && Get(env, spec.apiKeyEnv.value) == "" then Err(MissingKey)
        else if spec.kind == Anthropic then Err(NotImplemented)
        else Ok(Resolved(name, spec.kind, spec.baseUrl,
                         if Falsy(spec.apiKeyEnv) then None else Some(Get(env, spec.apiKeyEnv.value)), model))
  }

  lemma {:induction false} LookupFinds(providers: seq<(string, ProviderSpec)>, name: string)
    ensures Lookup(providers, name).Some? ==> (name, Lookup(providers, name).value) in providers
    ensures Lookup(providers, name) == None ==> forall i :: 0 <= i < |providers| ==> providers[i].0 != name
  {
    if providers != [] {
      LookupFinds(providers[1..], name);
      assert providers == [providers[0]] + providers[1..];
    }
  }

  /** A resolved provider says what the reference and the configured entry say, with a key exactly
      where the entry names one, and never a kind the runtime does not know. */
  lemma ResolvedFaithfully(cfg: Config, env: Environ, ref: string)
    requires Resolve(cfg, env, ref).Ok?
    ensures var r := Resolve(cfg, env, ref).value;
            && ref == r.provider + "/" + r.model && '/' !in r.provider && r.provider != "" && r.model != ""
            && r.kind == OpenAiCompatible
            && exists spec :: (r.provider, spec) in cfg.providers
                 && r.baseUrl == spec.baseUrl && ("*" in spec.allowedModels || r.model in spec.allowedModels)
                 && (r.apiKey.Some? <==> !Falsy(spec.apiKeyEnv))
                 && (r.apiKey.Some? ==> r.apiKey.value == Get(env, spec.apiKeyEnv.value) && r.apiKey.value != "")
  {
    var (name, model) := SplitRef(ref).value;
    SplitRefInvertsJoin(ref, name, model);
    LookupFinds(cfg.providers, name);
    var spec := Lookup(cfg.providers, name).value;
    assert (name, spec) in cfg.providers;
  }

  /** Exactly when and why resolution fails; a missing key is reported before an unsupported kind. */
  lemma ResolutionFailures(cfg: Config, env: Environ, name: string, model: string, spec: ProviderSpec)
    requires name != "" && '/' !in name && model != ""
    requires (name, spec) in cfg.providers
    requires forall i, j :: 0 <= i < j < |cfg.providers| ==> cfg.providers[i].0 != cfg.providers[j].0
    ensures var r := Resolve(cfg, env, name + "/" + model);
            var allowed := "*" in spec.allowedModels || model in spec.allowedModels;
            var keyed := Falsy(spec.apiKeyEnv) || Get(env, spec.apiKeyEnv.value) != "";
            && (r.Ok? <==> allowed && keyed && spec.kind == OpenAiCompatible)
            && (r == Err(ModelNotAllowed) <==> !allowed)
            && (r == Err(MissingKey) <==> allowed && !keyed)
            && (r == Err(NotImplemented) <==> allowed && keyed && spec.kind == Anthropic)
  {
    hide Get;
    SplitRefInvertsJoin(name + "/" + model, name, model);
    LookupFinds(cfg.providers, name);
    var i :| 0 <= i < |cfg.providers| && cfg.providers[i] == (name, spec);
    var found := Lookup(cfg.providers, name).value;
    var j :| 0 <= j < |cfg.providers| && cfg.providers[j] == (name, found);
    assert i == j;
  }

  function Refs(cfg: Config, primary: string): seq<string> {
    [primary] + cfg.fallback
  }

  /** A provider chain that comes from the references one by one. */
  ghost predicate ResolvesTo(cfg: Config, env: Environ, refs: seq<string>, chain: seq<Resolved>) {
    |chain| == |refs| && forall i :: 0 <= i < |refs| ==> Resolve(cfg, env, refs[i]) == Ok(chain[i])
  }

  function Pair(r: Resolved): (string, string) { (r.provider, r.model) }

  function Pairs(chain: seq<Resolved>): (ps: seq<(string, string)>)
    ensures |ps| == |chain| && forall i :: 0 <= i < |chain| ==> ps[i] == Pair(chain[i])
  {
    seq(|chain|, i requires 0 <= i < |chain| => Pair(chain[i]))
  }

  lemma ResolvedFromRef(cfg: Config, env: Environ, ref: string, r: Resolved)
    requires Resolve(cfg, env, ref) == Ok(r)
    ensures ref == r.provider + "/" + r.model
  {
    ResolvedFaithfully(cfg, env, ref);
  }

  /** The chain of an accepted configuration is short and never asks the same model twice. */
  lemma ChainDistinct(cfg: Config, env: Environ, agent: string, chain: seq<Resolved>)
    requires Accepted(cfg) && agent in cfg.agents
    requires ResolvesTo(cfg, env, Refs(cfg, cfg.agents[agent].model), chain)
    ensures 1 <= |chain| <= FALLBACK_MAX_LENGTH + 1
    ensures Distinct(Pairs(chain))
  {
    var primary := cfg.agents[agent].model;
    var refs := Refs(cfg, primary);
    assert primary in AgentModels(cfg);
    hide Resolve, Falsy;
    forall i, j | 0 <= i < j < |chain| ensures Pair(chain[i]) != Pair(chain[j]) {
      ResolvedFromRef(cfg, env, refs[i], chain[i]);
      ResolvedFromRef(cfg, env, refs[j], chain[j]);
      assert refs[i] != refs[j] by {
        assert refs[j] == cfg.fallback[j - 1];
        assert i > 0 ==> refs[i] == cfg.fallback[i - 1];
      }
    }
  }

  /** With an accepted configuration whatever resolves has an endpoint. */
  lemma ResolvedHasEndpoint(cfg: Config, env: Environ, ref: string)
    requires Accepted(cfg) && Resolve(cfg, env, ref).Ok?
    ensures Resolve(cfg, env, ref).value.baseUrl.Some? && Resolve(cfg, env, ref).value.baseUrl.value != ""
  {
    var (name, model) := SplitRef(ref).value;
    LookupFinds(cfg.providers, name);
    var spec := Lookup(cfg.providers, name).value;
    var i :| 0 <= i < |cfg.providers| && cfg.providers[i] == (name, spec);
    AcceptedExactly(cfg);
    assert cfg.providers[i].1 == spec;
  }

  /** The two earliest failures: a text that is no reference, and a provider that is not configured. */
  lemma UnresolvableReferences(cfg: Config, env: Environ, ref: string)
    ensures Resolve(cfg, env, ref) == Err(BadReference) <==> !IsReference(ref)
    ensures Resolve(cfg, env, ref) == Err(UnknownProvider) <==>
              exists p, m :: p != "" && '/' !in p && m != "" && ref == p + "/" + m && forall i :: 0 <= i < |cfg.providers| ==> cfg.providers[i].0 != p
  {
    SplitsExactlyReferences(ref);
    if SplitRef(ref).Some? {
      var (name, model) := SplitRef(ref).value;
      SplitRefInvertsJoin(ref, name, model);
      LookupFinds(cfg.providers, name);
      if Resolve(cfg, env, ref) == Err(UnknownProvider) { assert Lookup(cfg.providers, name) == None; }
    }
    if p, m :| p != "" && '/' !in p && m != "" && ref == p + "/" + m && forall i :: 0 <= i < |cfg.providers| ==> cfg.providers[i].0 != p {
      SplitRefInvertsJoin(ref, p, m);
      LookupFinds(cfg.providers, p);
    }
  }
}
