/** config.yaml after parsing, and the validation that decides whether it is accepted. */
module Config {
  import opened Environment
  import opened Sorting
  import opened Wrappers

  datatype Kind = OpenAiCompatible | Anthropic

  datatype ProviderSpec = ProviderSpec(kind: Kind, baseUrl: Option<string>, apiKeyEnv: Option<string>, allowedModels: seq<string>)

  datatype AgentSpec = AgentSpec(model: string, systemPrompt: string, connectors: seq<string>)

  /** Providers in file order, by name; the names are the keys of a dictionary. */
  datatype Config = Config(providers: seq<(string, ProviderSpec)>, agents: map<string, AgentSpec>, fallback: seq<string>)

  const FALLBACK_MAX_LENGTH := 5

  /** The one agent that is run. */
  const AGENT_GROUP := "personal-assistant"

  function Falsy(v: Option<string>): bool { v == None || v.value == "" }

  // ----- "<provider>/<model-id>" references

  /** split("/", 1) with both parts non-empty, else None. */
  function SplitRef(ref: string): Option<(string, string)> {
    var n := Until(ref, '/');
    if n == |ref| || n == 0 || n + 1 == |ref| then None else Some((ref[..n], ref[n + 1..]))
  }

  /** Splitting inverts joining, and accepts nothing that is not a join. */
  lemma SplitRefInvertsJoin(ref: string, p: string, m: string)
    ensures SplitRef(ref) == Some((p, m)) <==> p != "" && '/' !in p && m != "" && ref == p + "/" + m
  {
    var n := Until(ref, '/');
    if p != "" && '/' !in p && m != "" && ref == p + "/" + m {
      assert ref[|p|] == '/' && ref[..|p|] == p;
      UntilAt(ref, '/', |p|);
      assert ref[..n] == p && ref[n + 1..] == m;
    }
    if n < |ref| { assert ref == ref[..n] + "/" + ref[n + 1..]; }
  }

  /** A provider name without a slash, a slash, and a model name that may hold more of them. */
  ghost predicate IsReference(s: string) {
    exists p, m :: p != "" && '/' !in p && m != "" && s == p + "/" + m
  }

  lemma SplitsExactlyReferences(ref: string)
    ensures SplitRef(ref).Some? <==> IsReference(ref)
  {
    if SplitRef(ref).Some? {
      SplitRefInvertsJoin(ref, SplitRef(ref).value.0, SplitRef(ref).value.1);
    }
    if p, m :| p != "" && '/' !in p && m != "" && ref == p + "/" + m {
      SplitRefInvertsJoin(ref, p, m);
    }
  }

  // ----- Validation

  datatype Problem = TooLong | DuplicateEntry | RepeatsPrimary

  ghost predicate FallbackValid(fallback: seq<string>, agentModels: set<string>) {
    && |fallback| <= FALLBACK_MAX_LENGTH && Distinct(fallback)
    && forall i :: 0 <= i < |fallback| ==> fallback[i] !in agentModels
  }

  method FallbackInvariants(fallback: seq<string>, agentModels: set<string>) returns (problem: Option<Problem>)
    ensures problem == None <==> FallbackValid(fallback, agentModels)
    ensures problem == Some(TooLong) <==> |fallback| > 5
    ensures problem == Some(DuplicateEntry) <==> |fallback| <= 5 && exists i, j :: 0 <= i < j < |fallback| && fallback[i] == fallback[j]
    ensures problem == None ==> forall i, j :: 0 <= i < j < |fallback| ==> fallback[i] != fallback[j]
    ensures problem == None ==> forall i :: 0 <= i < |fallback| ==> fallback[i] !in agentModels
    ensures problem == Some(RepeatsPrimary) ==> exists i :: 0 <= i < |fallback| && fallback[i] in agentModels
  {
    if |fallback| > FALLBACK_MAX_LENGTH {
      return Some(TooLong);
    }
    var seen: set<string> := {};
    for i := 0 to |fallback|
      invariant Distinct(fallback[..i])
      invariant forall s :: s in seen <==> s in fallback[..i]
    {
      assert fallback[..i + 1] == fallback[..i] + [fallback[i]];
      if fallback[i] in seen {
        return Some(DuplicateEntry);
      }
      seen := seen + {fallback[i]};
    }
    assert fallback[..|fallback|] == fallback;
    if seen * agentModels != {} {
      return Some(RepeatsPrimary);
    }
    assert forall i :: 0 <= i < |fallback| && fallback[i] in agentModels ==> fallback[i] in seen * agentModels;
    return None;
  }

  method FallbackEntriesHaveSlash(fallback: seq<string>) returns (ok: bool)
    ensures ok <==> forall i :: 0 <= i < |fallback| ==> SplitRef(fallback[i]).Some?
  {
    for i := 0 to |fallback|
      invariant forall k :: 0 <= k < i ==> SplitRef(fallback[k]).Some?
    {
      if SplitRef(fallback[i]) == None {
        return false;
      }
    }
    return true;
  }

  function AgentModels(cfg: Config): set<string> {
    set name | name in cfg.agents :: cfg.agents[name].model
  }

  /** What a configuration must satisfy to be loaded. */
  ghost predicate Accepted(cfg: Config) {
    && (forall i :: 0 <= i < |cfg.providers| && cfg.providers[i].1.kind == OpenAiCompatible ==> !Falsy(cfg.providers[i].1.baseUrl))
    && (forall name :: name in cfg.agents ==> SplitRef(cfg.agents[name].model).Some?)
    && (forall i :: 0 <= i < |cfg.fallback| ==> SplitRef(cfg.fallback[i]).Some?)
    && FallbackValid(cfg.fallback, AgentModels(cfg))
  }

  method Validate(cfg: Config) returns (ok: bool)
    ensures ok <==> Accepted(cfg)
  {
    for i := 0 to |cfg.providers|
      invariant forall k :: 0 <= k < i && cfg.providers[k].1.kind == OpenAiCompatible ==> !Falsy(cfg.providers[k].1.baseUrl)
    {
      if cfg.providers[i].1.kind == OpenAiCompatible && Falsy(cfg.providers[i].1.baseUrl) {
        return false;
      }
    }
    if exists name :: name in cfg.agents && SplitRef(cfg.agents[name].model) == None {
      return false;
    }
    ok := FallbackEntriesHaveSlash(cfg.fallback);
    if ok {
      var problem := FallbackInvariants(cfg.fallback, AgentModels(cfg));
      ok := problem == None;
    }
  }

  /** What a configuration is accepted for, entry by entry. */
  lemma AcceptedExactly(cfg: Config)
    ensures Accepted(cfg) <==>
              && (forall i :: 0 <= i < |cfg.providers| && cfg.providers[i].1.kind == OpenAiCompatible ==>
                    cfg.providers[i].1.baseUrl.Some? && cfg.providers[i].1.baseUrl.value != "")
              && (forall name :: name in cfg.agents ==> IsReference(cfg.agents[name].model))
              && |cfg.fallback| <= 5
              && (forall i :: 0 <= i < |cfg.fallback| ==> IsReference(cfg.fallback[i]))
              && (forall i, j :: 0 <= i < j < |cfg.fallback| ==> cfg.fallback[i] != cfg.fallback[j])
              && forall i, name :: 0 <= i < |cfg.fallback| && name in cfg.agents ==> cfg.fallback[i] != cfg.agents[name].model
  {
    hide SplitRef, IsReference;
    forall name | name in cfg.agents ensures SplitRef(cfg.agents[name].model).Some? <==> IsReference(cfg.agents[name].model) {
      SplitsExactlyReferences(cfg.agents[name].model);
    }
    forall i | 0 <= i < |cfg.fallback| ensures SplitRef(cfg.fallback[i]).Some? <==> IsReference(cfg.fallback[i]) {
      SplitsExactlyReferences(cfg.fallback[i]);
    }
    forall name | name in cfg.agents ensures cfg.agents[name].model in AgentModels(cfg) {}
  }

  /** An entry of the other kind is never the reason for a refusal. */
  lemma AnthropicEntryIsFree(cfg: Config, name: string, spec: ProviderSpec)
    requires spec.kind == Anthropic
    ensures Accepted(cfg.(providers := cfg.providers + [(name, spec)])) <==> Accepted(cfg)
  {
    hide SplitRef, FallbackValid;
    var more := cfg.(providers := cfg.providers + [(name, spec)]);
    assert AgentModels(more) == AgentModels(cfg);
    forall i | 0 <= i < |cfg.providers| ensures more.providers[i] == cfg.providers[i] {}
  }
}
