/** From `init` to boot: what the two rendered files read back as, and exactly when a boot from them
    comes up with what the user entered. */
module RoundTrip {
  import opened Config
  import C = Console
  import opened Environment
  import I = Init
  import opened Numbers
  import P = Polling
  import opened Registry
  import opened Startup
  import opened Telegram
  import opened Wrappers
  import opened Writers

  /** Booting with this environment and configuration gives this token, this one chat and this
      provider, and no fallbacks. */
  ghost predicate BootsTo(env: Environ, cfg: Config, token: string, chat: int, resolved: Resolved) {
    && StartsUp(cfg, env) && LoadedEnv(env) == Ok((token, {chat}))
    && ResolvesTo(cfg, env, Refs(cfg, cfg.agents[AGENT_GROUP].model), [resolved])
  }

  /** A model is named, the key has a variable, and that variable takes over neither of the other two. */
  predicate Coherent(token: string, chat: int, keyName: string, key: string, model: string) {
    && model != "" && keyName != ""
    && (keyName == TOKEN_NAME ==> key == token)
    && (keyName == IDS_NAME ==> Ids(SplitOn(key, ',')) == Some({chat}))
  }

  /** What the user must not enter: something incoherent, or a name that does not read back because it
      is empty, looks like a comment or holds "=". */
  predicate Bootable(token: string, chat: int, keyName: string, key: string, model: string) {
    Coherent(token, chat, keyName, key, model) && NameReads(keyName)
  }

  /** What the prompts, the validators and PROVIDER_DEFAULTS guarantee about the values entered
      (DraftIsEntered). */
  predicate Entered(token: string, keyName: string, key: string, providerKey: string, baseUrl: string) {
    && token != "" && Stripped(token) && '\n' !in token
    && key != "" && Stripped(key) && '\n' !in key
    && '\n' !in keyName && providerKey != "" && '/' !in providerKey && baseUrl != ""
  }

  /** Token and ids are there as written, unless the key's line takes one over. */
  predicate OthersKept(env: Environ, token: string, chat: int, keyName: string, key: string) {
    && Get(env, TOKEN_NAME) == (if keyName == TOKEN_NAME then key else token)
    && Get(env, IDS_NAME) == (if keyName == IDS_NAME then key else IntToString(chat))
  }

  /** For any environment with token and ids as written: the agent comes up as entered exactly when the
      entries are coherent and the key is there under its name. */
  lemma BootsExactly(env: Environ, token: string, chat: int, keyName: string, key: string, providerKey: string, baseUrl: string, model: string)
    requires Entered(token, keyName, key, providerKey, baseUrl)
    requires keyName != "" && Get(env, keyName) == key ==> OthersKept(env, token, chat, keyName, key)
    ensures BootsTo(env, BuildConfig(providerKey, baseUrl, keyName, model),
                    token, chat, Resolved(providerKey, OpenAiCompatible, Some(baseUrl), Some(key), model))
       <==> Coherent(token, chat, keyName, key, model) && Get(env, keyName) == key
  {
    hide LoadedEnv, StartsUp, ResolvesTo, Resolve, BuildConfig, Ids, SplitOn, Get;
    ConfigBoots(env, keyName, key, providerKey, baseUrl, model);
    if keyName != "" && Get(env, keyName) == key {
      EnvironmentLoads(env, token, chat, keyName, key);
    }
  }

  /** With the environment that .env describes. */
  lemma RoundTripExactly(token: string, chat: int, keyName: string, key: string, providerKey: string, baseUrl: string, model: string)
    requires Entered(token, keyName, key, providerKey, baseUrl)
    ensures BootsTo(ReadEnv(EnvText(token, chat, keyName, key)), BuildConfig(providerKey, baseUrl, keyName, model),
                    token, chat, Resolved(providerKey, OpenAiCompatible, Some(baseUrl), Some(key), model))
       <==> Bootable(token, chat, keyName, key, model)
  {
    hide EnvText, ReadEnv, BootsTo, Get;
    EnvReads(token, chat, keyName, key);
    BootsExactly(ReadEnv(EnvText(token, chat, keyName, key)), token, chat, keyName, key, providerKey, baseUrl, model);
  }

  predicate NameReads(keyName: string) {
    keyName != "" && keyName[0] != '#' && '=' !in keyName
  }

  /** The values of the three names in the environment read back. */
  lemma EnvReads(token: string, chat: int, keyName: string, key: string)
    requires '\n' !in token && '\n' !in key && '\n' !in keyName
    ensures var env := ReadEnv(EnvText(token, chat, keyName, key));
            && (NameReads(keyName) ==> Get(env, keyName) == key)
            && (!NameReads(keyName) && keyName != "" ==> Get(env, keyName) == "")
            && (keyName != "" && '=' !in keyName ==> OthersKept(env, token, chat, keyName, key))
  {
    hide EnvText, ReadEnv, IntToString, ReadLine, Quoted, Get, OthersKept;
    EnvTextReadsBack(token, chat, keyName, key);
    var top := ReadLine(Assignment(keyName, Quoted(key)));
    if NameReads(keyName) {
      AssignmentReadsBack(keyName, key);
      KeyOnTop(token, chat, keyName, key);
    } else if keyName != "" {
      BadNameReads(keyName, key);
      NoKeyOnTop(top, token, chat, keyName, key);
    }
  }

  lemma KeyOnTop(token: string, chat: int, keyName: string, key: string)
    ensures var env := [(keyName, key)] + [(IDS_NAME, IntToString(chat)), (TOKEN_NAME, token)];
            Get(env, keyName) == key && OthersKept(env, token, chat, keyName, key)
  {
    hide Get, IntToString;
    var rest := [(IDS_NAME, IntToString(chat)), (TOKEN_NAME, token)];
    TwoNames();
    GetTwo(IDS_NAME, IntToString(chat), TOKEN_NAME, token);
    GetOver((keyName, key), rest);
  }

  lemma NoKeyOnTop(top: Environ, token: string, chat: int, keyName: string, key: string)
    requires !NameReads(keyName) && keyName != "" && |top| <= 1 && (top != [] ==> top[0].0 != keyName) && ('=' !in keyName ==> top == [])
    ensures var env := top + [(IDS_NAME, IntToString(chat)), (TOKEN_NAME, token)];
            Get(env, keyName) == "" && ('=' !in keyName ==> OthersKept(env, token, chat, keyName, key))
  {
    hide Get, IntToString;
    var rest := [(IDS_NAME, IntToString(chat)), (TOKEN_NAME, token)];
    TwoNames();
    PlainName(TOKEN_NAME);
    PlainName(IDS_NAME);
    GetTwo(IDS_NAME, IntToString(chat), TOKEN_NAME, token);
    if top == [] {
      assert top + rest == rest;
    } else {
      assert top == [top[0]];
      GetOver(top[0], rest);
    }
  }

  lemma TwoNames()
    ensures IDS_NAME != TOKEN_NAME
  {
    assert IDS_NAME[0] != TOKEN_NAME[0];
  }

  lemma GetTwo(a: string, v: string, b: string, w: string)
    requires a != b
    ensures Get([(a, v), (b, w)], a) == v && Get([(a, v), (b, w)], b) == w
    ensures forall name :: name != a && name != b ==> Get([(a, v), (b, w)], name) == ""
  {
    assert [(a, v), (b, w)][1..] == [(b, w)];
    forall name ensures Get([(b, w)], name) == if name == b then w else "" {
      assert [(b, w)][1..] == [];
    }
  }

  lemma GetOver(top: (string, string), rest: Environ)
    ensures forall name :: Get([top] + rest, name) == if name == top.0 then top.1 else Get(rest, name)
  {
    assert ([top] + rest)[1..] == rest;
  }

  /** A line whose name does not read gives at most one entry, under another name. */
  lemma BadNameReads(keyName: string, key: string)
    requires !NameReads(keyName) && keyName != ""
    ensures var top := ReadLine(Assignment(keyName, Quoted(key)));
            |top| <= 1 && (top != [] ==> top[0].0 != keyName) && ('=' !in keyName ==> top == [])
  {
    hide Quoted;
    var line := Assignment(keyName, Quoted(key));
    var n := Until(line, '=');
    if '=' in keyName {
      var k :| 0 <= k < |keyName| && keyName[k] == '=';
      assert line[k] == '=';
      UntilAtMost(line, '=', k);
    } else {
      assert line[0] == '#';
    }
  }

  lemma ConfigBoots(env: Environ, keyName: string, key: string, providerKey: string, baseUrl: string, model: string)
    requires key != "" && Stripped(key) && providerKey != "" && '/' !in providerKey && baseUrl != ""
    ensures var cfg := BuildConfig(providerKey, baseUrl, keyName, model);
            (StartsUp(cfg, env)
             && ResolvesTo(cfg, env, Refs(cfg, cfg.agents[AGENT_GROUP].model),
                           [Resolved(providerKey, OpenAiCompatible, Some(baseUrl), Some(key), model)]))
            <==> model != "" && keyName != "" && Get(env, keyName) == key
  {
    hide Get, Strip;
    var cfg := BuildConfig(providerKey, baseUrl, keyName, model);
    var ref := providerKey + "/" + model;
    assert Refs(cfg, ref) == [ref];
    SplitRefInvertsJoin(ref, providerKey, model);
    StripIsPiece(key);
    if model != "" && keyName != "" && Get(env, keyName) == key {
      SingleProviderResolves(env, keyName, key, providerKey, baseUrl, model);
      OneAgentModel(providerKey, baseUrl, keyName, model);
    } else if model == "" {
      EmptyModelRejected(providerKey);
      assert SplitRef(cfg.agents[AGENT_GROUP].model) == None;
    } else {
      NoKeyResolved(env, keyName, key, providerKey, baseUrl, model);
      assert Refs(cfg, ref)[0] == ref;
    }
  }

  lemma OneAgentModel(providerKey: string, baseUrl: string, keyName: string, model: string)
    ensures AgentModels(BuildConfig(providerKey, baseUrl, keyName, model)) == {providerKey + "/" + model}
  {
    var cfg := BuildConfig(providerKey, baseUrl, keyName, model);
    assert AGENT_GROUP in cfg.agents;
  }

  lemma EmptyModelRejected(providerKey: string)
    requires '/' !in providerKey
    ensures SplitRef(providerKey + "/" + "") == None
  {
    var ref := providerKey + "/" + "";
    assert ref[|providerKey|] == '/' && ref[..|providerKey|] == providerKey;
    UntilAt(ref, '/', |providerKey|);
  }

  lemma SingleProviderResolves(env: Environ, keyName: string, key: string, providerKey: string, baseUrl: string, model: string)
    requires providerKey != "" && '/' !in providerKey && model != "" && keyName != "" && key != "" && Get(env, keyName) == key
    ensures Resolve(BuildConfig(providerKey, baseUrl, keyName, model), env, providerKey + "/" + model)
         == Ok(Resolved(providerKey, OpenAiCompatible, Some(baseUrl), Some(key), model))
  {
    hide Get;
    SplitRefInvertsJoin(providerKey + "/" + model, providerKey, model);
    var cfg := BuildConfig(providerKey, baseUrl, keyName, model);
    assert Lookup(cfg.providers, providerKey) == Some(cfg.providers[0].1);
    assert model in [model];
  }

  lemma NoKeyResolved(env: Environ, keyName: string, key: string, providerKey: string, baseUrl: string, model: string)
    requires providerKey != "" && '/' !in providerKey && model != "" && (keyName != "" ==> Get(env, keyName) != key)
    ensures Resolve(BuildConfig(providerKey, baseUrl, keyName, model), env, providerKey + "/" + model)
         != Ok(Resolved(providerKey, OpenAiCompatible, Some(baseUrl), Some(key), model))
  {
    hide Get;
    SplitRefInvertsJoin(providerKey + "/" + model, providerKey, model);
    var cfg := BuildConfig(providerKey, baseUrl, keyName, model);
    assert Lookup(cfg.providers, providerKey) == Some(cfg.providers[0].1);
  }

  lemma EnvironmentLoads(env: Environ, token: string, chat: int, keyName: string, key: string)
    requires token != "" && Stripped(token) && key != "" && Stripped(key) && OthersKept(env, token, chat, keyName, key)
    ensures LoadedEnv(env) == Ok((token, {chat}))
       <==> (keyName == TOKEN_NAME ==> key == token) && (keyName == IDS_NAME ==> Ids(SplitOn(key, ',')) == Some({chat}))
  {
    hide Get, Strip, SplitOn, Ids;
    StripIsPiece(token);
    StripIsPiece(key);
    RenderedIds(chat);
    assert IDS_NAME != TOKEN_NAME by { assert IDS_NAME[0] != TOKEN_NAME[0]; }
  }

  /** A rendered chat id is a list of one id. */
  lemma RenderedIds(chat: int)
    ensures Strip(IntToString(chat)) == IntToString(chat)
    ensures Ids(SplitOn(IntToString(chat), ',')) == Some({chat})
  {
    var s := IntToString(chat);
    IntRoundTrip(chat);
    assert !IsSpace(s[0]) && !IsSpace(s[|s| - 1]);
    StripIsPiece(s);
    assert ',' !in s;
    SplitOnFirst(s, ',', "");
    hide IntToString, ParseInt, Strip;
    assert [s][..0] == [] && Ids([]) == Some({});
    assert {} + {chat} == {chat};
  }

  // ----- Through docker compose

  /** What compose hands on under its own name when .env sets it (docker-compose.yaml:64-71). */
  const COMPOSE_NAMES := {TOKEN_NAME, IDS_NAME, "OPENROUTER_API_KEY", "DEEPINFRA_API_KEY", "GROQ_API_KEY"}

  /** What it sets to a default unless .env has a value (73-74), and what it sets to a constant (78-79). */
  const DATA_DIR := "AGENT_DATA_DIR"
  const LOG_LEVEL := "LOG_LEVEL"
  const PROXY := "http://proxy:8888"
  const COMPOSE_CONSTANTS: Environ := [("HTTPS_PROXY", PROXY), ("HTTP_PROXY", PROXY)]

  function Forwarded(env: Environ, names: set<string>): Environ {
    if env == [] then []
    else if env[0].0 in names then [env[0]] + Forwarded(env[1..], names)
    else Forwarded(env[1..], names)
  }

  /** ${name:-otherwise} */
  function Knob(env: Environ, name: string, otherwise: string): (string, string) {
    (name, if Get(env, name) == "" then otherwise else Get(env, name))
  }

  /** The agent's environment in its container; `image` is what the image sets by itself. */
  function ComposeEnv(env: Environ, image: Environ): Environ {
    Forwarded(env, COMPOSE_NAMES) + ([Knob(env, DATA_DIR, "/data")] + ([Knob(env, LOG_LEVEL, "INFO")] + (COMPOSE_CONSTANTS + image)))
  }

  /** Names in a process environment hold no "=". */
  ghost predicate ProperNames(env: Environ) {
    forall i :: 0 <= i < |env| ==> '=' !in env[i].0
  }

  lemma {:induction false} ForwardedGet(env: Environ, names: set<string>, name: string)
    ensures Get(Forwarded(env, names), name) == if name in names then Get(env, name) else ""
    ensures name !in names ==> forall i :: 0 <= i < |Forwarded(env, names)| ==> Forwarded(env, names)[i].0 != name
  {
    if env != [] {
      ForwardedGet(env[1..], names, name);
      if env[0].0 in names { assert Forwarded(env, names)[1..] == Forwarded(env[1..], names); }
    }
  }

  lemma {:induction false} GetConcat(a: Environ, b: Environ, name: string)
    ensures Get(a, name) != "" ==> Get(a + b, name) == Get(a, name)
    ensures (forall i :: 0 <= i < |a| ==> a[i].0 != name) ==> Get(a + b, name) == Get(b, name)
  {
    if a == [] {
      assert a + b == b;
    } else {
      assert (a + b)[1..] == a[1..] + b;
      GetConcat(a[1..], b, name);
    }
  }

  lemma {:induction false} GetProper(env: Environ, name: string)
    requires ProperNames(env) && '=' in name
    ensures Get(env, name) == ""
  {
    if env != [] {
      assert env[0].0 != name;
      assert forall i :: 0 <= i < |env[1..]| ==> env[1..][i] == env[i + 1];
      GetProper(env[1..], name);
    }
  }

  /** A name's value in the container: .env's for the names compose hands on, else what is set there anyway. */
  lemma ComposeGet(env: Environ, image: Environ, name: string)
    ensures name in COMPOSE_NAMES && Get(env, name) != "" ==> Get(ComposeEnv(env, image), name) == Get(env, name)
    ensures name == DATA_DIR || name == LOG_LEVEL ==>
              Get(ComposeEnv(env, image), name) == Knob(env, name, if name == DATA_DIR then "/data" else "INFO").1
    ensures name !in COMPOSE_NAMES && name != DATA_DIR && name != LOG_LEVEL ==>
              Get(ComposeEnv(env, image), name) == Get(COMPOSE_CONSTANTS + image, name)
  {
    hide Get, Forwarded;
    var dir, level, rest := Knob(env, DATA_DIR, "/data"), Knob(env, LOG_LEVEL, "INFO"), COMPOSE_CONSTANTS + image;
    ForwardedGet(env, COMPOSE_NAMES, name);
    GetConcat(Forwarded(env, COMPOSE_NAMES), [dir] + ([level] + rest), name);
    GetOver(dir, [level] + rest);
    GetOver(level, rest);
    KnobsAreOthers();
  }

  lemma KnobsAreOthers()
    ensures DATA_DIR !in COMPOSE_NAMES && LOG_LEVEL !in COMPOSE_NAMES && DATA_DIR != LOG_LEVEL
  {
    assert |LOG_LEVEL| == 9 && |DATA_DIR| == 14;
    assert |TOKEN_NAME| == 18 && |IDS_NAME| == 25 && |"OPENROUTER_API_KEY"| == 18 && |"DEEPINFRA_API_KEY"| == 17 && |"GROQ_API_KEY"| == 12;
  }

  predicate HandedOn(name: string) {
    name in COMPOSE_NAMES || name == DATA_DIR || name == LOG_LEVEL
  }

  /** Through compose: exactly when the entries are coherent and the key's variable is handed on, or
      the container happens to set it to that very key. */
  lemma ComposedExactly(image: Environ, token: string, chat: int, keyName: string, key: string, providerKey: string, baseUrl: string, model: string)
    requires Entered(token, keyName, key, providerKey, baseUrl) && ProperNames(image)
    ensures BootsTo(ComposeEnv(ReadEnv(EnvText(token, chat, keyName, key)), image), BuildConfig(providerKey, baseUrl, keyName, model),
                    token, chat, Resolved(providerKey, OpenAiCompatible, Some(baseUrl), Some(key), model))
       <==> Coherent(token, chat, keyName, key, model) && (HandedOn(keyName) || Get(COMPOSE_CONSTANTS + image, keyName) == key)
  {
    hide EnvText, ReadEnv, BootsTo, Get, ComposeEnv, Coherent;
    var env := ReadEnv(EnvText(token, chat, keyName, key));
    EnvReads(token, chat, keyName, key);
    ComposeGet(env, image, keyName);
    HandedOnReads(keyName);
    if '=' in keyName {
      assert ProperNames(COMPOSE_CONSTANTS + image);
      GetProper(COMPOSE_CONSTANTS + image, keyName);
    } else if keyName != "" {
      ComposeGet(env, image, TOKEN_NAME);
      ComposeGet(env, image, IDS_NAME);
    }
    BootsExactly(ComposeEnv(env, image), token, chat, keyName, key, providerKey, baseUrl, model);
  }

  /** Every default of the list names a model and a variable of its own that is handed on: a run that
      picks one boots, with and without compose. */
  lemma DefaultProvidersBoot(p: I.ProviderChoice, token: string, chat: int, key: string)
    requires p in I.PROVIDER_DEFAULTS
    ensures Bootable(token, chat, p.keyName, key, p.model) && HandedOn(p.keyName)
  {
    hide Ids, SplitOn;
    assert |TOKEN_NAME| == 18 && |IDS_NAME| == 25 && TOKEN_NAME[0] == 'T';
    assert p.keyName in ["OPENROUTER_API_KEY", "DEEPINFRA_API_KEY", "GROQ_API_KEY"];
    assert p.keyName[0] != 'T' && |p.keyName| < 25;
    HandedOnReads(p.keyName);
  }

  lemma HandedOnReads(name: string)
    ensures HandedOn(name) ==> NameReads(name)
  {
    if HandedOn(name) { assert forall i :: 0 <= i < |name| ==> name[i] != '='; }
  }

  // ----- From a finished run of init

  /** No line read from a terminal holds a line break. */
  ghost predicate PlainLines(script: seq<C.Input>) {
    forall i :: 0 <= i < |script| && script[i].Line? ==> '\n' !in script[i].text
  }

  lemma EnteredIsPlain(script: seq<C.Input>, from: nat, to: nat, v: string)
    requires PlainLines(script) && to <= |script| && I.WasEntered(script, from, to, v)
    ensures Stripped(v) && '\n' !in v
  {
    var k :| from <= k < to && script[k].Line? && v == Strip(script[k].text);
    StrippedLineIsPlain(script[k].text);
  }

  lemma StrippedLineIsPlain(line: string)
    requires '\n' !in line
    ensures Stripped(Strip(line)) && '\n' !in Strip(line)
  {
    hide Strip;
    StripIsPiece(line);
    var i, j := StripTakesSpaces(line);
    forall c | c in line[i..j] ensures c in line {}
  }

  predicate PlainProvider(p: I.ProviderChoice) {
    '\n' !in p.keyName && p.name != "" && '/' !in p.name
  }

  lemma DefaultIsPlain(p: I.ProviderChoice)
    requires p in I.PROVIDER_DEFAULTS
    ensures PlainProvider(p)
  {
  }

  lemma CustomIsPlain(script: seq<C.Input>, k: nat, p: I.ProviderChoice)
    requires PlainLines(script) && k + 3 <= |script| && I.CustomAt(script, k, p)
    ensures PlainProvider(p)
  {
    hide Strip;
    StrippedLineIsPlain(script[k + 1].text);
    assert p.name == "custom";
  }

  lemma ProviderIsPlain(detect: string -> Option<string>, script: seq<C.Input>, from: nat, to: nat, p: I.ProviderChoice)
    requires PlainLines(script) && to <= |script| && I.ProviderFrom(detect, script, from, to, p)
    ensures PlainProvider(p)
  {
    hide Strip, ParseNat, C.Affirms, PlainProvider, PlainLines, I.CustomAt, I.Picks;
    if p in I.PROVIDER_DEFAULTS {
      DefaultIsPlain(p);
    } else {
      var start :| from <= start <= to && I.ChosenBy(script, start, to, p);
      var pick, end :| start <= pick < end <= to && I.PickedAt(script, start, pick, end, p);
      CustomIsPlain(script, pick + 1, p);
    }
  }

  /** A draft that the run vouches for is made of values as the round trip expects them. */
  lemma DraftIsEntered(d: I.Draft, t: I.Trail, detect: string -> Option<string>, script: seq<C.Input>, from: nat, to: nat,
                       existing: bool, accepted: set<(I.Target, string)>, all: seq<P.Update>)
    requires PlainLines(script) && I.Vouched(d, t, detect, script, from, to, existing, accepted, all)
    ensures Entered(d.token, d.provider.keyName, d.key, d.provider.name, d.provider.baseUrl)
  {
    hide I.WasEntered, I.ProviderFrom, I.Consent, P.ConfirmedIn, P.TypedIn, Strip, PlainLines;
    EnteredIsPlain(script, t.provider, t.token, d.key);
    EnteredIsPlain(script, t.token, t.chat, d.token);
    ProviderIsPlain(detect, script, t.provider, t.token, d.provider);
    StripIsPiece(d.key);
    StripIsPiece(d.token);
  }

  /** Such runs exist, and their drafts are not confined to good ones: every custom provider, key,
      token and id that a terminal can deliver makes up the draft of a run. */
  lemma CustomRunExists(p: I.ProviderChoice, key: string, token: string, chat: int, detect: string -> Option<string>)
    returns (t: I.Trail, script: seq<C.Input>, accepted: set<(I.Target, string)>)
    requires p.name == "custom" && PlainValue(p.baseUrl) && PlainValue(p.keyName) && PlainValue(p.model)
    requires exists i :: 0 <= i < |p.baseUrl| && p.baseUrl[i] != '/'
    requires key != "" && PlainValue(key) && token != "" && PlainValue(token)
    ensures PlainLines(script) && I.Vouched(I.Draft(p, key, token, chat), t, detect, script, 0, |script|, false, accepted, [])
  {
    hide Strip, ParseInt, IntToString, ParseNat, PlainLines, I.ProviderFrom, I.WasEntered, I.Usable, P.TypedIn, P.ConfirmedIn;
    t := I.Trail(0, 6, 7, P.ChatSearch(0, false, 0, [], [None]));
    script := [C.Line(""), C.Line(IntToString(4)), C.Line(p.baseUrl), C.Line(p.keyName), C.Line(p.model), C.Line(key), C.Line(token),
               C.Line(""), C.Line(IntToString(chat))];
    accepted := {(I.ProviderKey(p.baseUrl), key), (I.BotToken, token)};
    CustomChosen(detect, script, p);
    LineEntered(script, 5, 0, 6, key);
    LineEntered(script, 6, 6, 7, token);
    NotBlank(I.ProviderKey(p.baseUrl), key);
    NotBlank(I.BotToken, token);
    IdTyped(t.search, script, 7, chat);
    FourReads();
    UnquotedId(chat);
    PlainScript(script);
  }

  lemma PlainScript(script: seq<C.Input>)
    requires |script| == 9 && forall i :: 0 <= i < 9 ==> script[i].Line? && '\n' !in script[i].text
    ensures PlainLines(script)
  {
  }

  lemma CustomChosen(detect: string -> Option<string>, script: seq<C.Input>, p: I.ProviderChoice)
    requires p.name == "custom" && Stripped(p.baseUrl) && Stripped(p.keyName) && Stripped(p.model) && |script| >= 6
    requires script[1..5] == [C.Line(IntToString(4)), C.Line(p.baseUrl), C.Line(p.keyName), C.Line(p.model)]
    ensures I.ProviderFrom(detect, script, 0, 6, p)
  {
    hide Strip, ParseNat, IntToString, I.DetectedAt;
    StripIsPiece(p.baseUrl);
    StripIsPiece(p.keyName);
    StripIsPiece(p.model);
    FourReads();
    assert script[1] == script[1..5][0] && script[2] == script[1..5][1] && script[3] == script[1..5][2] && script[4] == script[1..5][3];
    assert I.Picks(script[1], 4) && I.CustomAt(script, 2, p);
    PickedSecond(script, p);
    assert I.ChosenBy(script, 1, 6, p);
  }

  lemma PickedSecond(script: seq<C.Input>, p: I.ProviderChoice)
    requires |script| >= 6 && I.Picks(script[1], 4) && I.CustomAt(script, 2, p)
    ensures I.PickedAt(script, 1, 1, 5, p)
  {
    hide I.Picks, I.CustomAt;
  }

  lemma LineEntered(script: seq<C.Input>, k: nat, from: nat, to: nat, v: string)
    requires from <= k < to <= |script| && script[k] == C.Line(v) && Stripped(v)
    ensures I.WasEntered(script, from, to, v)
  {
    hide Strip;
    StripIsPiece(v);
  }

  lemma NotBlank(target: I.Target, v: string)
    requires v != "" && Stripped(v) && (target.ProviderKey? ==> exists i :: 0 <= i < |target.baseUrl| && target.baseUrl[i] != '/')
    ensures I.Usable(target, v)
  {
    hide Strip;
    StripIsPiece(v);
  }

  /** One poll that captured nothing, a bare Enter, and the id. */
  lemma IdTyped(search: P.ChatSearch, script: seq<C.Input>, start: nat, chat: int)
    requires search.polls == [None] && |script| == start + 2
    requires script[start] == C.Line("") && script[start + 1] == C.Line(IntToString(chat))
    ensures P.TypedIn(search, script, start, |script|, chat)
  {
    hide Strip, ParseInt, IntToString;
    StripIsPiece("");
    RenderedIds(chat);
    IntRoundTrip(chat);
  }

  predicate PlainValue(v: string) {
    Stripped(v) && '\n' !in v
  }

  lemma FourReads()
    ensures ParseNat(Strip(IntToString(4))) == Some(4) && I.AllDigits(Strip(IntToString(4))) && '\n' !in IntToString(4)
  {
    RenderedIds(4);
    UnquotedId(4);
    NatRoundTrip(4);
  }

  /** So init finishes, without complaint, with files that cannot boot as entered: an empty model name does. */
  lemma UnbootableRunExists(baseUrl: string, keyName: string, key: string, token: string, chat: int, detect: string -> Option<string>)
    returns (d: I.Draft, t: I.Trail, script: seq<C.Input>, accepted: set<(I.Target, string)>)
    requires PlainValue(baseUrl) && PlainValue(keyName) && exists i :: 0 <= i < |baseUrl| && baseUrl[i] != '/'
    requires key != "" && PlainValue(key) && token != "" && PlainValue(token)
    ensures PlainLines(script) && I.Vouched(d, t, detect, script, 0, |script|, false, accepted, [])
    ensures d == I.Draft(I.ProviderChoice("custom", baseUrl, keyName, ""), key, token, chat)
    ensures !Bootable(d.token, d.chat, d.provider.keyName, d.key, d.provider.model)
  {
    hide PlainValue, PlainLines, I.Vouched;
    d := I.Draft(I.ProviderChoice("custom", baseUrl, keyName, ""), key, token, chat);
    assert PlainValue("") by { EmptyIsPlain(); }
    t, script, accepted := CustomRunExists(d.provider, key, token, chat, detect);
  }

  lemma EmptyIsPlain()
    ensures PlainValue("")
  {
  }

  /** The files of a finished run boot the agent with what the user entered exactly when the entries
      are bootable; through compose, exactly when they are coherent and the key's variable is handed on,
      or set in the container to that very key. */
  lemma FinishedRunBoots(d: I.Draft, t: I.Trail, detect: string -> Option<string>, script: seq<C.Input>, from: nat, to: nat,
                         existing: bool, accepted: set<(I.Target, string)>, all: seq<P.Update>, before: Files, image: Environ)
    requires PlainLines(script) && I.Vouched(d, t, detect, script, from, to, existing, accepted, all) && ProperNames(image)
    ensures var files := Stopped(before, Plan(I.EnvOf(d), I.ConfigOf(d)), I.PointOf(None));
            var resolved := Resolved(d.provider.name, OpenAiCompatible, Some(d.provider.baseUrl), Some(d.key), d.provider.model);
            var keyName := d.provider.keyName;
            && files.env.Holds? && files.config.Holds?
            && (BootsTo(ReadEnv(files.env.content), files.config.content, d.token, d.chat, resolved)
                <==> Bootable(d.token, d.chat, keyName, d.key, d.provider.model))
            && (BootsTo(ComposeEnv(ReadEnv(files.env.content), image), files.config.content, d.token, d.chat, resolved)
                <==> Coherent(d.token, d.chat, keyName, d.key, d.provider.model)
                     && (HandedOn(keyName) || Get(COMPOSE_CONSTANTS + image, keyName) == d.key))
  {
    hide I.Vouched, Entered, BootsTo, Bootable, Coherent, EnvText, BuildConfig, ReadEnv, ComposeEnv, AllDone, HandedOn, Get;
    var p := d.provider;
    PlanUnfolds(before, I.EnvOf(d), I.ConfigOf(d));
    DraftIsEntered(d, t, detect, script, from, to, existing, accepted, all);
    RoundTripExactly(d.token, d.chat, p.keyName, d.key, p.name, p.baseUrl, p.model);
    ComposedExactly(image, d.token, d.chat, p.keyName, d.key, p.name, p.baseUrl, p.model);
  }
}
