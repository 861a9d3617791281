/** What `init` writes: the .env text with its quoting, the configuration, and the two files put
    down by writes to temporary names and renames. */
module Writers {
  import opened Config
  import opened Environment
  import opened Numbers
  import opened Text
  import opened Wrappers

  // ----- Quoting

  const QUOTE_TRIGGERS := " \"$'\\`#"
  const BACKSLASH := "\\"
  const QUOTE := "\""

  predicate NeedsQuotes(v: string) {
    exists i :: 0 <= i < |v| && v[i] in QUOTE_TRIGGERS
  }

  /** One pass over the characters. */
  function Escaped(v: string): string {
    if v == "" then "" else EscapedChar(v[0]) + Escaped(v[1..])
  }

  function EscapedChar(c: char): string {
    if c == '\\' || c == '"' then ['\\', c] else [c]
  }

  function Quoted(v: string): string {
    if NeedsQuotes(v) then QUOTE + Escaped(v) + QUOTE else v
  }

  method QuoteEnvValue(v: string) returns (q: string)
    ensures q == Quoted(v)
    ensures (forall i :: 0 <= i < |v| ==> v[i] !in [' ', '"', '$', '\'', '\\', '`', '#']) ==> q == v
    ensures (exists i :: 0 <= i < |v| && v[i] in [' ', '"', '$', '\'', '\\', '`', '#']) ==>
              q == "\"" + Replace(Replace(v, "\\", "\\\\"), "\"", "\\\"") + "\""
  {
    TriggersExactly();
    for i := 0 to |v|
      invariant forall k :: 0 <= k < i ==> v[k] !in QUOTE_TRIGGERS
    {
      if v[i] in QUOTE_TRIGGERS {
        var slashed := ReplaceAll(v, BACKSLASH, "\\\\");
        var escaped := ReplaceAll(slashed, QUOTE, "\\\"");
        TwoPassesAreOne(v);
        return QUOTE + escaped + QUOTE;
      }
    }
    return v;
  }

  lemma TriggersExactly()
    ensures forall c :: c in QUOTE_TRIGGERS <==> c in [' ', '"', '$', '\'', '\\', '`', '#']
  {
    assert QUOTE_TRIGGERS == [' ', '"', '$', '\'', '\\', '`', '#'];
  }

  /** The two replacements, backslashes first, escape each character once. */
  lemma {:induction false} TwoPassesAreOne(v: string)
    ensures Replace(Replace(v, BACKSLASH, "\\\\"), QUOTE, "\\\"") == Escaped(v)
  {
    if v != "" {
      var t := Replace(v[1..], BACKSLASH, "\\\\");
      TwoPassesAreOne(v[1..]);
      ReplaceChar(v[0], v[1..], '\\', "\\\\");
      assert v == [v[0]] + v[1..];
      if v[0] == '\\' {
        assert "\\\\" + t == ['\\'] + (['\\'] + t);
        ReplaceChar('\\', ['\\'] + t, '"', "\\\"");
        ReplaceChar('\\', t, '"', "\\\"");
        assert ['\\'] + (['\\'] + Escaped(v[1..])) == EscapedChar('\\') + Escaped(v[1..]);
      } else {
        ReplaceChar(v[0], t, '"', "\\\"");
      }
    }
  }

  // ----- Reading a value back

  /** The text of a double-quoted value after its opening quote, up to a closing quote that ends it;
      a backslash takes a quote or a backslash literally. */
  function Unquote(s: string): Option<string>
    decreases |s|
  {
    if s == "" then None
    else if s[0] == '"' then (if |s| == 1 then Some("") else None)
    else
      var escape := s[0] == '\\' && |s| > 1 && (s[1] == '\\' || s[1] == '"');
      match Unquote(if escape then s[2..] else s[1..])
      case None => None
      case Some(rest) => Some([if escape then s[1] else s[0]] + rest)
  }

  function ReadValue(raw: string): Option<string> {
    if raw != "" && raw[0] == '"' then Unquote(raw[1..]) else Some(raw)
  }

  lemma {:induction false} UnquoteEscaped(v: string)
    ensures Unquote(Escaped(v) + QUOTE) == Some(v)
  {
    if v != "" {
      var rest := Escaped(v[1..]) + QUOTE;
      UnquoteEscaped(v[1..]);
      var s := Escaped(v) + QUOTE;
      assert s == EscapedChar(v[0]) + rest;
      if v[0] == '\\' || v[0] == '"' {
        assert s[2..] == rest;
      } else {
        assert s[1..] == rest;
      }
      assert v == [v[0]] + v[1..];
    }
  }

  /** One scan inverts the two-pass escape, for every value. */
  lemma ValueReadsBack(v: string)
    ensures ReadValue(Quoted(v)) == Some(v)
  {
    if NeedsQuotes(v) {
      UnquoteEscaped(v);
      assert Quoted(v)[1..] == Escaped(v) + QUOTE;
    } else if v != "" {
      assert v[0] !in QUOTE_TRIGGERS;
      assert '"' in QUOTE_TRIGGERS;
    }
  }

  lemma {:induction false} EscapedKeepsLines(v: string)
    requires '\n' !in v
    ensures '\n' !in Escaped(v)
  {
    if v != "" {
      assert v[0] in v;
      EscapedKeepsLines(v[1..]);
    }
  }

  lemma QuotedKeepsLines(v: string)
    requires '\n' !in v
    ensures '\n' !in Quoted(v)
  {
    EscapedKeepsLines(v);
  }

  // ----- The .env text

  function Assignment(name: string, value: string): string {
    name + "=" + value
  }

  method RenderEnv(token: string, chat: int, keyName: string, key: string) returns (text: string)
    ensures text == EnvText(token, chat, keyName, key)
    ensures text == "TELEGRAM_BOT_TOKEN" + "=" + Quoted(token) + "\n"
                    + ("ALLOWED_TELEGRAM_CHAT_IDS" + "=" + IntToString(chat) + "\n" + (keyName + "=" + Quoted(key) + "\n" + ""))
  {
    var quotedToken := QuoteEnvValue(token);
    var quotedKey := QuoteEnvValue(key);
    text := Assignment(TOKEN_NAME, quotedToken) + "\n" + (Assignment(IDS_NAME, IntToString(chat)) + "\n" + (Assignment(keyName, quotedKey) + "\n" + ""));
  }

  function EnvText(token: string, chat: int, keyName: string, key: string): string {
    Assignment(TOKEN_NAME, Quoted(token)) + "\n"
    + (Assignment(IDS_NAME, IntToString(chat)) + "\n" + (Assignment(keyName, Quoted(key)) + "\n" + ""))
  }

  /** NAME=value, split at the first "="; blank lines, comments and lines that do not read are skipped. */
  function ReadLine(line: string): Environ {
    var n := Until(line, '=');
    if line == "" || line[0] == '#' || n == |line| then []
    else match ReadValue(line[n + 1..])
      case None => []
      case Some(value) => [(line[..n], value)]
  }

  /** A later line overrides an earlier one. */
  function ReadLines(lines: seq<string>): Environ {
    if lines == [] then [] else ReadLines(lines[1..]) + ReadLine(lines[0])
  }

  function ReadEnv(text: string): Environ {
    ReadLines(SplitOn(text, '\n'))
  }

  lemma AssignmentReadsBack(name: string, v: string)
    requires name != "" && '=' !in name && name[0] != '#'
    ensures ReadLine(Assignment(name, Quoted(v))) == [(name, v)]
  {
    var line := Assignment(name, Quoted(v));
    assert line[..|name|] == name && line[|name| + 1..] == Quoted(v);
    UntilAt(line, '=', |name|);
    ValueReadsBack(v);
  }

  /** What the rendered text reads back as: the key's line over the ids over the token. */
  lemma EnvTextReadsBack(token: string, chat: int, keyName: string, key: string)
    requires '\n' !in token && '\n' !in key && '\n' !in keyName
    ensures ReadEnv(EnvText(token, chat, keyName, key))
         == ReadLine(Assignment(keyName, Quoted(key))) + [(IDS_NAME, IntToString(chat)), (TOKEN_NAME, token)]
  {
    hide Quoted, ReadLine, IntToString, SplitOn, ReadLines, Assignment;
    var a, b, c := Assignment(TOKEN_NAME, Quoted(token)), Assignment(IDS_NAME, IntToString(chat)), Assignment(keyName, Quoted(key));
    OneLine(TOKEN_NAME, token);
    OneLine(keyName, key);
    UnquotedId(chat);
    OneLine(IDS_NAME, IntToString(chat));
    SplitLines(a, b, c);
    FourLines(a, b, c);
    AssignmentReadsBack(TOKEN_NAME, token);
    AssignmentReadsBack(IDS_NAME, IntToString(chat));
  }

  lemma OneLine(name: string, v: string)
    requires '\n' !in v && '\n' !in name
    ensures '\n' !in Assignment(name, Quoted(v))
  {
    QuotedKeepsLines(v);
  }

  lemma SplitLines(a: string, b: string, c: string)
    requires '\n' !in a && '\n' !in b && '\n' !in c
    ensures SplitOn(a + "\n" + (b + "\n" + (c + "\n" + "")), '\n') == [a, b, c, ""]
  {
    hide SplitOn;
    SplitOnFirst(a, '\n', b + "\n" + (c + "\n" + ""));
    SplitOnFirst(b, '\n', c + "\n" + "");
    SplitOnFirst(c, '\n', "");
    SplitOnFirst("", '\n', "");
    assert [b] + ([c] + [""]) == [b, c, ""] && [a] + [b, c, ""] == [a, b, c, ""];
  }

  lemma FourLines(a: string, b: string, c: string)
    ensures ReadLines([a, b, c, ""]) == ReadLine(c) + (ReadLine(b) + ReadLine(a))
  {
    assert [a, b, c, ""][1..] == [b, c, ""] && [b, c, ""][1..] == [c, ""] && [c, ""][1..] == [""] && [""][1..] == [];
    assert ReadLine("") == [];
    assert ReadLines([c, ""]) == ReadLine(c);
  }

  lemma PlainName(name: string)
    requires name == TOKEN_NAME || name == IDS_NAME
    ensures '=' !in name && name != "" && name[0] != '#' && '\n' !in name
  {
  }

  lemma UnquotedId(chat: int)
    ensures Quoted(IntToString(chat)) == IntToString(chat) && '\n' !in IntToString(chat)
  {
    var s := IntToString(chat);
    forall i | 0 <= i < |s| ensures s[i] !in QUOTE_TRIGGERS {
      assert IsDigit(s[i]) || s[i] == '-';
    }
  }

  // ----- The configuration

  function BuildConfig(providerKey: string, baseUrl: string, keyName: string, model: string): Config {
    Config([(providerKey, ProviderSpec(OpenAiCompatible, Some(baseUrl), Some(keyName), [model]))],
           map[AGENT_GROUP := AgentSpec(providerKey + "/" + model, "You are a helpful assistant.", ["telegram"])],
           [])
  }

  /** The one agent, and nothing else that the program looks at. */
  lemma BuiltConfigExactly(providerKey: string, baseUrl: string, keyName: string, model: string)
    ensures var cfg := BuildConfig(providerKey, baseUrl, keyName, model);
            && |cfg.providers| == 1 && cfg.fallback == [] && cfg.agents.Keys == {"personal-assistant"}
            && cfg.agents["personal-assistant"].systemPrompt == "You are a helpful assistant."
            && cfg.agents["personal-assistant"].connectors == ["telegram"]
  {
  }

  // ----- The two files

  /** A file: missing, cut short by an interrupted write, or with whole content. */
  datatype File<T> = Missing | CutShort | Holds(content: T)

  /** The four files; config.yaml is represented by the configuration it parses to. */
  datatype Files = Files(env: File<string>, config: File<Config>, envTmp: File<string>, configTmp: File<Config>)

  datatype Op = WriteEnv(text: string) | WriteConfig(cfg: Config) | RenameEnv | RenameConfig

  function Done(f: Files, op: Op): Files {
    match op
    case WriteEnv(text) => f.(envTmp := Holds(text))
    case WriteConfig(cfg) => f.(configTmp := Holds(cfg))
    case RenameEnv => f.(env := f.envTmp, envTmp := Missing)
    case RenameConfig => f.(config := f.configTmp, configTmp := Missing)
  }

  /** A write that is interrupted cuts its file short; a rename happens or does not. */
  function Torn(f: Files, op: Op): Files {
    match op
    case WriteEnv(_) => f.(envTmp := CutShort)
    case WriteConfig(_) => f.(configTmp := CutShort)
    case _ => f
  }

  function AllDone(f: Files, ops: seq<Op>): Files {
    if ops == [] then f else Done(AllDone(f, ops[..|ops| - 1]), ops[|ops| - 1])
  }

  /** Where the world stops the write: after so many operations, possibly within the next one. */
  datatype StopPoint = StopPoint(after: nat, within: bool)

  function Stopped(f: Files, ops: seq<Op>, stop: StopPoint): Files {
    if stop.after >= |ops| then AllDone(f, ops)
    else
      var done := AllDone(f, ops[..stop.after]);
      if stop.within then Torn(done, ops[stop.after]) else done
  }

  function Plan(text: string, cfg: Config): seq<Op> {
    [WriteEnv(text), WriteConfig(cfg), RenameEnv, RenameConfig]
  }

  class Directory {
    var env: File<string>
    var config: File<Config>
    var envTmp: File<string>
    var configTmp: File<Config>

    function Snapshot(): Files
      reads this
    {
      Files(env, config, envTmp, configTmp)
    }

    constructor (files: Files)
      ensures Snapshot() == files
    {
      env, config, envTmp, configTmp := files.env, files.config, files.envTmp, files.configTmp;
    }

    /** write_files, stopped where `stop` says. */
    method WriteFiles(newEnv: string, newConfig: Config, stop: StopPoint) returns (finished: bool)
      modifies this
      ensures Snapshot() == Stopped(old(Snapshot()), Plan(newEnv, newConfig), stop)
      ensures finished <==> stop.after >= 4
    {
      PlanUnfolds(Snapshot(), newEnv, newConfig);
      hide AllDone;
      if stop == StopPoint(0, false) {
        return false;
      }
      envTmp := CutShort;
      if stop == StopPoint(0, true) {
        return false;
      }
      envTmp := Holds(newEnv);
      if stop == StopPoint(1, false) {
        return false;
      }
      configTmp := CutShort;
      if stop == StopPoint(1, true) {
        return false;
      }
      configTmp := Holds(newConfig);
      if stop.after == 2 {
        return false;
      }
      env, envTmp := envTmp, Missing;
      if stop.after == 3 {
        return false;
      }
      config, configTmp := configTmp, Missing;
      return true;
    }
  }

  lemma PlanUnfolds(f: Files, text: string, cfg: Config)
    ensures var p := Plan(text, cfg);
            && AllDone(f, p[..0]) == f
            && AllDone(f, p[..1]) == f.(envTmp := Holds(text))
            && AllDone(f, p[..2]) == f.(envTmp := Holds(text), configTmp := Holds(cfg))
            && AllDone(f, p[..3]) == f.(env := Holds(text), envTmp := Missing, configTmp := Holds(cfg))
            && AllDone(f, p) == Files(Holds(text), Holds(cfg), Missing, Missing)
  {
    hide AllDone;
    var p := Plan(text, cfg);
    NoneDone(f, p);
    OneMore(f, p, 0);
    OneMore(f, p, 1);
    OneMore(f, p, 2);
    OneMore(f, p, 3);
    assert p[..4] == p;
  }

  lemma NoneDone(f: Files, ops: seq<Op>)
    ensures AllDone(f, ops[..0]) == f
  {
  }

  lemma OneMore(f: Files, ops: seq<Op>, n: nat)
    requires n < |ops|
    ensures AllDone(f, ops[..n + 1]) == Done(AllDone(f, ops[..n]), ops[n])
  {
    assert ops[..n + 1][..n] == ops[..n];
  }

  /** Wherever the write stops, each of the two files is wholly old or wholly new, and config.yaml is
      new only if .env is. */
  lemma FilesStayWhole(f: Files, text: string, cfg: Config, stop: StopPoint)
    ensures var after := Stopped(f, Plan(text, cfg), stop);
            && (after.env == f.env || after.env == Holds(text))
            && (after.config == f.config || (after.config == Holds(cfg) && after.env == Holds(text)))
  {
    PlanUnfolds(f, text, cfg);
  }

  /** What a stop leaves in the temporary files: whole or cut-short secrets up to the first rename. */
  lemma TemporaryFilesLeft(f: Files, text: string, cfg: Config, stop: StopPoint)
    ensures var after := Stopped(f, Plan(text, cfg), stop);
            && (after.envTmp == Holds(text) <==> 1 <= stop.after <= 2 || (stop == StopPoint(0, false) && f.envTmp == Holds(text)))
            && (after.configTmp == Holds(cfg) <==> 2 <= stop.after <= 3 || ((stop.after == 0 || stop == StopPoint(1, false)) && f.configTmp == Holds(cfg)))
            && (stop == StopPoint(0, true) ==> after.envTmp == CutShort)
            && (stop == StopPoint(1, true) ==> after.configTmp == CutShort)
            && (stop.after >= 3 ==> after.envTmp == Missing)
            && (stop.after >= 4 ==> after.configTmp == Missing)
  {
    PlanUnfolds(f, text, cfg);
  }

  /** write_files promises that an interrupt leaves the two files untouched. It does exactly when it
      comes before the first rename, or the renames that were done put down what was there. */
  lemma UntouchedExactlyBeforeRenames(f: Files, text: string, cfg: Config, stop: StopPoint)
    ensures var after := Stopped(f, Plan(text, cfg), stop);
            after.env == f.env && after.config == f.config
            <==> stop.after <= 2 || (f.env == Holds(text) && (stop.after == 3 || f.config == Holds(cfg)))
  {
    PlanUnfolds(f, text, cfg);
  }

  /** The two files are a matching pair, both old or both new, unless the write stops between the
      two renames and each of them changes something. */
  lemma PairedUnlessBetweenRenames(f: Files, text: string, cfg: Config, stop: StopPoint)
    ensures var after := Stopped(f, Plan(text, cfg), stop);
            (after.env == f.env && after.config == f.config) || (after.env == Holds(text) && after.config == Holds(cfg))
            <==> !(stop.after == 3 && f.env != Holds(text) && f.config != Holds(cfg))
  {
    PlanUnfolds(f, text, cfg);
  }

  /** Such a stop exists for every content: on a first run it leaves the new .env alone in the directory. */
  lemma StopBetweenRenames(text: string, cfg: Config) returns (f: Files, stop: StopPoint)
    ensures f == Files(Missing, Missing, Missing, Missing)
    ensures Stopped(f, Plan(text, cfg), stop) == Files(Holds(text), Missing, Missing, Holds(cfg))
  {
    f, stop := Files(Missing, Missing, Missing, Missing), StopPoint(3, false);
    PlanUnfolds(f, text, cfg);
  }
}
