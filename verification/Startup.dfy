/** Start-up: every configured key is checked and registered with the scrubber, the chain is
    resolved, and the connector is set going. */
module Startup {
  import opened Config
  import opened Environment
  import M = Memory
  import opened Registry
  import opened Scrubber
  import opened SecretStore
  import opened Sorting
  import opened Telegram
  import opened Text
  import opened Wrappers

  function KeyOf(spec: ProviderSpec, env: Environ): string {
    if Falsy(spec.apiKeyEnv) then "" else Strip(Get(env, spec.apiKeyEnv.value))
  }

  /** The entry names no key, or names one that is set to more than blanks. */
  predicate KeyPresent(spec: ProviderSpec, env: Environ) {
    Falsy(spec.apiKeyEnv) || KeyOf(spec, env) != ""
  }

  predicate NamesKey(spec: ProviderSpec) {
    spec.apiKeyEnv.Some? && spec.apiKeyEnv.value != ""
  }

  /** The stripped key of every configured provider, used or not. */
  ghost predicate AllKeysRegistered(cfg: Config, env: Environ, secrets: seq<string>) {
    forall i :: 0 <= i < |cfg.providers| && NamesKey(cfg.providers[i].1) ==>
      Strip(Get(env, cfg.providers[i].1.apiKeyEnv.value)) != "" && Strip(Get(env, cfg.providers[i].1.apiKeyEnv.value)) in secrets
  }

  /** The chain is the agent's model and then the fallbacks, in order, each resolved. */
  ghost predicate IsChain(cfg: Config, env: Environ, chain: seq<Resolved>) {
    && "personal-assistant" in cfg.agents && |chain| == 1 + |cfg.fallback|
    && Resolve(cfg, env, cfg.agents["personal-assistant"].model) == Ok(chain[0])
    && forall i :: 0 <= i < |cfg.fallback| ==> Resolve(cfg, env, cfg.fallback[i]) == Ok(chain[i + 1])
  }

  ghost predicate StartsUp(cfg: Config, env: Environ) {
    && Accepted(cfg) && AGENT_GROUP in cfg.agents
    && (forall i :: 0 <= i < |cfg.providers| ==> KeyPresent(cfg.providers[i].1, env))
    && forall i :: 0 <= i < |Refs(cfg, cfg.agents[AGENT_GROUP].model)| ==> Resolve(cfg, env, Refs(cfg, cfg.agents[AGENT_GROUP].model)[i]).Ok?
  }

  method RegisterKeys(cfg: Config, env: Environ, store: Store) returns (missing: bool)
    requires store.Valid()
    modifies store
    ensures store.Valid() && forall s :: s in old(store.secrets) ==> s in store.secrets
    ensures missing <==> exists i :: 0 <= i < |cfg.providers| && !KeyPresent(cfg.providers[i].1, env)
    ensures missing <==> exists i :: 0 <= i < |cfg.providers| && NamesKey(cfg.providers[i].1) && Strip(Get(env, cfg.providers[i].1.apiKeyEnv.value)) == ""
    ensures !missing ==> AllKeysRegistered(cfg, env, store.secrets)
    ensures !missing ==> forall i :: 0 <= i < |cfg.providers| && !Falsy(cfg.providers[i].1.apiKeyEnv) ==> KeyOf(cfg.providers[i].1, env) in store.secrets
    ensures forall s :: s in store.secrets ==>
              s in old(store.secrets) || exists i :: 0 <= i < |cfg.providers| && NamesKey(cfg.providers[i].1) && s == Strip(Get(env, cfg.providers[i].1.apiKeyEnv.value))
  {
    hide Strip, Get;
    for i := 0 to |cfg.providers|
      invariant store.Valid() && forall s :: s in old(store.secrets) ==> s in store.secrets
      invariant forall k :: 0 <= k < i ==> KeyPresent(cfg.providers[k].1, env)
      invariant forall k :: 0 <= k < i && !Falsy(cfg.providers[k].1.apiKeyEnv) ==> KeyOf(cfg.providers[k].1, env) in store.secrets
      invariant forall s :: s in store.secrets ==>
                  s in old(store.secrets) || exists k :: 0 <= k < i && NamesKey(cfg.providers[k].1) && s == Strip(Get(env, cfg.providers[k].1.apiKeyEnv.value))
    {
      var spec := cfg.providers[i].1;
      if !Falsy(spec.apiKeyEnv) {
        var key := Strip(Get(env, spec.apiKeyEnv.value));
        if key == "" {
          return true;
        }
        store.RegisterSecret(Str(key));
      }
    }
    return false;
  }

  /** main() up to the connector: the resolved chain, or why there is none. */
  method Start(cfg: Config, env: Environ, store: Store) returns (r: Result<seq<Resolved>, StartupError>)
    requires store.Valid()
    modifies store
    ensures store.Valid() && forall s :: s in old(store.secrets) ==> s in store.secrets
    ensures r.Ok? <==> StartsUp(cfg, env)
    ensures r.Ok? ==> ResolvesTo(cfg, env, Refs(cfg, cfg.agents[AGENT_GROUP].model), r.value)
    ensures r.Ok? ==> IsChain(cfg, env, r.value)
    ensures r.Ok? ==> KeysRegistered(r.value, store.secrets) && AllKeysRegistered(cfg, env, store.secrets)
    ensures r == Err(InvalidConfig) <==> !Accepted(cfg)
    ensures r == Err(NoSuchAgent) <==> Accepted(cfg) && "personal-assistant" !in cfg.agents
    ensures Accepted(cfg) && "personal-assistant" in cfg.agents
            && (exists i :: 0 <= i < |cfg.providers| && NamesKey(cfg.providers[i].1) && Strip(Get(env, cfg.providers[i].1.apiKeyEnv.value)) == "")
            ==> r == Err(MissingKey)
  {
    hide Accepted, KeyOf, AllKeysRegistered, Strip, Get, NamesKey;
    var ok := Validate(cfg);
    if !ok {
      return Err(InvalidConfig);
    }
    if AGENT_GROUP !in cfg.agents {
      return Err(NoSuchAgent);
    }
    var missing := RegisterKeys(cfg, env, store);
    if missing {
      return Err(MissingKey);
    }
    ghost var refs := Refs(cfg, cfg.agents[AGENT_GROUP].model);
    var primary := Resolve(cfg, env, cfg.agents[AGENT_GROUP].model);
    if primary.Err? {
      assert refs[0] == cfg.agents[AGENT_GROUP].model;
      return Err(primary.error);
    }
    var chain := [primary.value];
    for i := 0 to |cfg.fallback|
      invariant |chain| == i + 1 && forall k :: 0 <= k <= i ==> Resolve(cfg, env, refs[k]) == Ok(chain[k])
    {
      var fallback := Resolve(cfg, env, cfg.fallback[i]);
      assert refs[i + 1] == cfg.fallback[i];
      if fallback.Err? {
        return Err(fallback.error);
      }
      chain := chain + [fallback.value];
    }
    ChainKeysRegistered(cfg, env, refs, chain, store.secrets);
    return Ok(chain);
  }

  ghost predicate KeysRegistered(chain: seq<Resolved>, secrets: seq<string>) {
    forall i :: 0 <= i < |chain| && chain[i].apiKey.Some? ==> Strip(chain[i].apiKey.value) != "" && Strip(chain[i].apiKey.value) in secrets
  }

  /** Every key that resolution hands out belongs to a configured provider, so the loop over all
      providers has registered it. */
  lemma ChainKeysRegistered(cfg: Config, env: Environ, refs: seq<string>, chain: seq<Resolved>, secrets: seq<string>)
    requires ResolvesTo(cfg, env, refs, chain)
    requires forall i :: 0 <= i < |cfg.providers| ==> KeyPresent(cfg.providers[i].1, env)
    requires forall i :: 0 <= i < |cfg.providers| && !Falsy(cfg.providers[i].1.apiKeyEnv) ==> KeyOf(cfg.providers[i].1, env) in secrets
    ensures KeysRegistered(chain, secrets)
  {
    hide Strip, Get, Resolve;
    forall i | 0 <= i < |chain| && chain[i].apiKey.Some?
      ensures Strip(chain[i].apiKey.value) != "" && Strip(chain[i].apiKey.value) in secrets
    {
      assert Resolve(cfg, env, refs[i]) == Ok(chain[i]);
      ResolvedFaithfully(cfg, env, refs[i]);
      var spec :| (chain[i].provider, spec) in cfg.providers && (chain[i].apiKey.Some? <==> !Falsy(spec.apiKeyEnv))
        && chain[i].apiKey.value == Get(env, spec.apiKeyEnv.value);
      var k :| 0 <= k < |cfg.providers| && cfg.providers[k] == (chain[i].provider, spec);
      assert KeyPresent(cfg.providers[k].1, env);
    }
  }

  datatype BootError = NotStarted(startup: StartupError) | BadEnvironment(env: EnvError)

  /** Boot as a whole: start up, read the connector's environment, register its token, resolve the
      primary again and build the handler. */
  method Boot(cfg: Config, env: Environ, store: Store, memory: M.Store) returns (r: Result<Connector, BootError>)
    requires store.Valid()
    modifies store
    ensures store.Valid()
    ensures r.Ok? <==> StartsUp(cfg, env) && LoadedEnv(env).Ok?
    ensures r.Ok? ==>
              && fresh(r.value) && r.value.memory == memory && r.value.journal == []
              && r.value.allowlist == LoadedEnv(env).value.1 && IsChain(cfg, env, r.value.chain)
              && (forall i :: 0 <= i < |r.value.chain| ==> r.value.chain[i].baseUrl.Some? && r.value.chain[i].baseUrl.value != "")
              && ResolvesTo(cfg, env, Refs(cfg, cfg.agents[AGENT_GROUP].model), r.value.chain)
              && 1 <= |r.value.chain| <= 6 && Distinct(Pairs(r.value.chain))
              && KeysRegistered(r.value.chain, store.secrets) && LoadedEnv(env).value.0 in store.secrets
  {
    hide LoadedEnv, Resolve, StartsUp, KeysRegistered, AllKeysRegistered, IsChain, Strip, Get, Malformed, Mentions, Distinct, Pairs;
    var chain := Start(cfg, env, store);
    if chain.Err? {
      return Err(NotStarted(chain.error));
    }
    var loaded := LoadEnv(env);
    if loaded.Err? {
      return Err(BadEnvironment(loaded.error));
    }
    LoadedTokenSet(env);
    ghost var before := store.secrets;
    store.RegisterSecret(Str(loaded.value.0));
    KeysStayRegistered(chain.value, before, store.secrets);
    StartedChain(cfg, env, chain.value);
    ChainHasEndpoints(cfg, env, chain.value);
    var primary := Resolve(cfg, env, cfg.agents[AGENT_GROUP].model).value;
    var connector := new Connector(loaded.value.1, primary, chain.value[1..], memory);
    return Ok(connector);
  }

  lemma KeysStayRegistered(chain: seq<Resolved>, before: seq<string>, secrets: seq<string>)
    requires KeysRegistered(chain, before) && forall s :: s in before ==> s in secrets
    ensures KeysRegistered(chain, secrets)
  {
    hide Strip;
  }

  lemma ChainHasEndpoints(cfg: Config, env: Environ, chain: seq<Resolved>)
    requires StartsUp(cfg, env) && ResolvesTo(cfg, env, Refs(cfg, cfg.agents[AGENT_GROUP].model), chain)
    ensures forall i :: 0 <= i < |chain| ==> chain[i].baseUrl.Some? && chain[i].baseUrl.value != ""
  {
    hide Resolve, Accepted, KeyOf;
    var refs := Refs(cfg, cfg.agents[AGENT_GROUP].model);
    forall i | 0 <= i < |chain| ensures chain[i].baseUrl.Some? && chain[i].baseUrl.value != "" {
      assert Resolve(cfg, env, refs[i]) == Ok(chain[i]);
      ResolvedHasEndpoint(cfg, env, refs[i]);
    }
  }

  lemma StartedChain(cfg: Config, env: Environ, chain: seq<Resolved>)
    requires StartsUp(cfg, env) && ResolvesTo(cfg, env, Refs(cfg, cfg.agents[AGENT_GROUP].model), chain)
    ensures 1 <= |chain| <= 6 && Distinct(Pairs(chain)) && [chain[0]] + chain[1..] == chain
    ensures AGENT_GROUP in cfg.agents && Resolve(cfg, env, cfg.agents[AGENT_GROUP].model) == Ok(chain[0])
  {
    hide Resolve, Accepted, KeyOf;
    var refs := Refs(cfg, cfg.agents[AGENT_GROUP].model);
    assert refs[0] == cfg.agents[AGENT_GROUP].model;
    ChainDistinct(cfg, env, AGENT_GROUP, chain);
  }

  lemma LoadedTokenSet(env: Environ)
    ensures LoadedEnv(env).Ok? ==> LoadedEnv(env).value.0 != ""
  {
    hide Strip, Get, Ids, SplitOn;
  }

  /** After start-up no scrubbed text contains the key of any provider of the chain, as long as the
      stripped key is clear of the marker; nor does it after any later registration. */
  lemma KeysNeverShown(chain: seq<Resolved>, secrets: seq<string>, later: seq<string>, text: string)
    requires KeysRegistered(chain, secrets) && Published(later) && forall s :: s in secrets ==> s in later
    ensures forall i :: 0 <= i < |chain| && chain[i].apiKey.Some? && Clear(Strip(chain[i].apiKey.value), MARK) ==>
              !Contains(Scrub(text, later), chain[i].apiKey.value)
  {
    hide Scrub, Strip;
    forall i | 0 <= i < |chain| && chain[i].apiKey.Some? && Clear(Strip(chain[i].apiKey.value), MARK)
      ensures !Contains(Scrub(text, later), chain[i].apiKey.value)
    {
      var key := chain[i].apiKey.value;
      ScrubBringsNone(text, later, Strip(key));
      StripIsPiece(key);
      if Contains(Scrub(text, later), key) {
        ContainsTransitive(Scrub(text, later), key, Strip(key));
      }
    }
  }
}
