/** The command-line flow of `init`: provider key, bot token, chat id, then the two files. The
    validators and the key-shape detection are oracles; the user is a finite script of lines and
    Ctrl-C presses. */
module Init {
  import opened Config
  import opened Console
  import opened Environment
  import opened Numbers
  import opened Polling
  import opened Wrappers
  import opened Writers

  datatype ProviderChoice = ProviderChoice(name: string, baseUrl: string, keyName: string, model: string)

  const PROVIDER_DEFAULTS: seq<ProviderChoice> := [
    ProviderChoice("openrouter", "https://openrouter.ai/api/v1", "OPENROUTER_API_KEY", "meta-llama/llama-3.3-70b-instruct"),
    ProviderChoice("deepinfra", "https://api.deepinfra.com/v1/openai", "DEEPINFRA_API_KEY", "meta-llama/Llama-3.3-70B-Instruct"),
    ProviderChoice("groq", "https://api.groq.com/openai/v1", "GROQ_API_KEY", "llama-3.3-70b-versatile")
  ]

  /** What to validate: a key at an endpoint, or a bot token. */
  datatype Target = ProviderKey(baseUrl: string) | BotToken

  datatype Verdict = Accepted | Rejected | Raised

  /** KeyboardInterrupt, or any exception that nothing catches. */
  datatype Stop = KeyboardInterrupt | Crash

  /** What the validators insist on before they ask the endpoint. */
  predicate Usable(target: Target, value: string) {
    Strip(value) != "" && (target.ProviderKey? ==> exists i :: 0 <= i < |target.baseUrl| && target.baseUrl[i] != '/')
  }

  /** One call of a validator. */
  datatype Ask = Ask(target: Target, value: string, verdict: Verdict)

  class Validators {
    /** Everything a validator has said yes to. */
    ghost var accepted: set<(Target, string)>
    /** All calls, in order. */
    ghost var asked: seq<Ask>
    /** How often a validator has raised. */
    ghost var raised: nat

    constructor ()
      ensures accepted == {} && raised == 0 && asked == []
    {
      accepted, raised, asked := {}, 0, [];
    }

    /** Blank values are rejected locally; otherwise the endpoint decides. */
    method Validate(target: Target, value: string) returns (v: Verdict)
      modifies this
      ensures Strip(value) == "" || (target.ProviderKey? && forall i :: 0 <= i < |target.baseUrl| ==> target.baseUrl[i] == '/') ==> v == Rejected
      ensures v == Verdict.Accepted ==> Usable(target, value) && accepted == old(accepted) + {(target, value)}
      ensures v != Verdict.Accepted ==> accepted == old(accepted)
      ensures raised == if v == Raised then old(raised) + 1 else old(raised)
      ensures asked == old(asked) + [Ask(target, value, v)]
    {
      if !Usable(target, value) {
        asked := asked + [Ask(target, value, Rejected)];
        return Rejected;
      }
      var answer: Verdict :| answer in {Verdict.Accepted, Rejected, Raised};
      raised := if answer == Raised then raised + 1 else raised;
      if answer == Verdict.Accepted {
        accepted := accepted + {(target, value)};
      }
      asked := asked + [Ask(target, value, answer)];
      return answer;
    }
  }

  function StopOf(a: Answer): Stop
    requires !a.Text?
  {
    if a.Interrupt? then KeyboardInterrupt else Crash
  }

  /** A step ended because the user pressed Ctrl-C or chose to quit, or because the input ran out. */
  ghost predicate StoppedBy(terminal: Terminal, stop: Stop)
    requires terminal.Valid()
    reads terminal
  {
    match stop
    case KeyboardInterrupt =>
      terminal.at > 0 && (terminal.script[terminal.at - 1].CtrlC? || Lower(Strip(terminal.script[terminal.at - 1].text)) == "q")
    case Crash => terminal.at == |terminal.script|
  }

  datatype MenuChoice = Retry | NewValue | Quit

  /** What a line says to the retry menu, if anything: bare Enter or r, n, or q, in any case. */
  predicate MenuLine(input: Input, choice: MenuChoice) {
    && input.Line?
    && var raw := Lower(Strip(input.text));
       match choice
       case Retry => raw == "" || raw == "r"
       case NewValue => raw == "n"
       case Quit => raw == "q"
  }

  /** Lines that say nothing to the menu. */
  predicate NoChoice(script: seq<Input>, from: nat, to: nat)
    requires to <= |script|
  {
    forall k :: from <= k < to ==>
      script[k].Line? && !MenuLine(script[k], Retry) && !MenuLine(script[k], NewValue) && !MenuLine(script[k], Quit)
  }

  /** _retry_menu: the first line that makes a choice decides. */
  method RetryMenu(terminal: Terminal) returns (r: Result<MenuChoice, Stop>)
    requires terminal.Valid()
    modifies terminal
    ensures terminal.Valid() && terminal.at >= old(terminal.at)
    ensures r.Ok? ==> terminal.at > old(terminal.at) && NoChoice(terminal.script, old(terminal.at), terminal.at - 1) && MenuLine(terminal.script[terminal.at - 1], r.value)
    ensures r.Ok? ==>
              var raw := Lower(Strip(terminal.script[terminal.at - 1].text));
              match r.value case Retry => raw == "" || raw == "r" case NewValue => raw == "n" case Quit => raw == "q"
    ensures r.Ok? ==>
              forall k :: old(terminal.at) <= k < terminal.at - 1 ==>
                terminal.script[k].Line? && Lower(Strip(terminal.script[k].text)) !in ["", "r", "n", "q"]
    ensures r == Err(KeyboardInterrupt) ==>
              terminal.at > old(terminal.at) && NoChoice(terminal.script, old(terminal.at), terminal.at - 1) && terminal.script[terminal.at - 1].CtrlC?
    ensures r == Err(Crash) ==> terminal.at == |terminal.script| && NoChoice(terminal.script, old(terminal.at), terminal.at)
  {
    hide Strip, Lower;
    while true
      invariant terminal.Valid() && terminal.at >= old(terminal.at) && NoChoice(terminal.script, old(terminal.at), terminal.at)
      decreases |terminal.script| - terminal.at
    {
      var a := terminal.Prompt();
      if !a.Text? {
        return Err(StopOf(a));
      }
      var raw := Lower(a.text);
      if raw == "" || raw == "r" {
        return Ok(Retry);
      }
      if raw == "n" {
        return Ok(NewValue);
      }
      if raw == "q" {
        return Ok(Quit);
      }
    }
  }

  /** The value is a stripped line that was read from positions `from` to `to`. */
  ghost predicate WasEntered(script: seq<Input>, from: nat, to: nat, value: string)
    requires to <= |script|
  {
    exists k :: from <= k < to && script[k].Line? && value == Strip(script[k].text)
  }

  /** The validator has accepted the value. */
  ghost predicate Approved(target: Target, value: string, accepted: set<(Target, string)>) {
    (target, value) in accepted && Usable(target, value)
  }

  // ----- The retry loop: which values are tried, and where in the script they come from

  /** The first value is the one given, or else the next line, stripped. `mark` is the position in the
      script at which the value is tried. */
  predicate FirstTry(script: seq<Input>, start: nat, initial: Option<string>, value: string, mark: nat) {
    match initial
    case Some(given) => value == given && mark == start
    case None => mark == start + 1 <= |script| && script[start].Line? && value == Strip(script[start].text)
  }

  /** After a rejected value: a retry repeats it, and a new value is the line after that choice. */
  predicate NextTry(script: seq<Input>, value: string, mark: nat, value': string, mark': nat) {
    && mark < mark' <= |script|
    && ((NoChoice(script, mark, mark' - 1) && MenuLine(script[mark' - 1], Retry) && value' == value)
        || (mark + 2 <= mark' && NoChoice(script, mark, mark' - 2) && MenuLine(script[mark' - 2], NewValue)
            && script[mark' - 1].Line? && value' == Strip(script[mark' - 1].text)))
  }

  ghost predicate Tries(script: seq<Input>, start: nat, initial: Option<string>, target: Target, asks: seq<Ask>, marks: seq<nat>) {
    && |marks| == |asks| && (forall k :: 0 <= k < |asks| ==> asks[k].target == target)
    && (asks != [] ==> FirstTry(script, start, initial, asks[0].value, marks[0]))
    && forall k :: 0 <= k < |asks| - 1 ==> Follows(script, asks, marks, k)
  }

  predicate Follows(script: seq<Input>, asks: seq<Ask>, marks: seq<nat>, k: nat)
    requires k + 1 < |asks| == |marks|
  {
    asks[k].verdict == Rejected && NextTry(script, asks[k].value, marks[k], asks[k + 1].value, marks[k + 1])
  }

  /** The user's part after a rejected value, if it is the last: the input runs out, or Ctrl-C or quit. */
  predicate GivenUp(script: seq<Input>, mark: nat, to: nat, stop: Stop) {
    && mark <= to <= |script|
    && (match stop
        case Crash => to == |script| && (NoChoice(script, mark, to) || (mark < to && NoChoice(script, mark, to - 1) && MenuLine(script[to - 1], NewValue)))
        case KeyboardInterrupt =>
          || (mark < to && NoChoice(script, mark, to - 1) && (script[to - 1].CtrlC? || MenuLine(script[to - 1], Quit)))
          || (mark + 2 <= to && NoChoice(script, mark, to - 2) && MenuLine(script[to - 2], NewValue) && script[to - 1].CtrlC?))
  }

  /** How the loop ends after these tries: with the value accepted last; or when a validator raises, the
      input runs out, the user presses Ctrl-C or quits. */
  ghost predicate TriesEnd(script: seq<Input>, start: nat, initial: Option<string>, asks: seq<Ask>, marks: seq<nat>, to: nat, r: Result<string, Stop>)
    requires |marks| == |asks|
  {
    if asks == [] then
      && initial == None
      && ((r == Err(Crash) && to == start == |script|) || (r == Err(KeyboardInterrupt) && to == start + 1 <= |script| && script[start].CtrlC?))
    else
      var last, mark := asks[|asks| - 1], marks[|asks| - 1];
      match last.verdict
      case Accepted => r == Ok(last.value) && to == mark
      case Raised => r == Err(Crash) && to == mark
      case Rejected => r.Err? && GivenUp(script, mark, to, r.error)
  }

  lemma OneMoreTry(script: seq<Input>, start: nat, initial: Option<string>, target: Target, asks: seq<Ask>, marks: seq<nat>, ask: Ask, mark: nat)
    requires Tries(script, start, initial, target, asks, marks) && ask.target == target
    requires asks == [] ==> FirstTry(script, start, initial, ask.value, mark)
    requires asks != [] ==>
               var last := asks[|asks| - 1];
               last.verdict == Rejected && NextTry(script, last.value, marks[|asks| - 1], ask.value, mark)
    ensures Tries(script, start, initial, target, asks + [ask], marks + [mark])
  {
    hide FirstTry, NextTry;
    var asks', marks' := asks + [ask], marks + [mark];
    forall k | 0 <= k < |asks'| - 1 ensures Follows(script, asks', marks', k) {
      if k + 1 < |asks| { assert Follows(script, asks, marks, k); }
    }
  }

  /** _retry_validator: tries values until the validator accepts one, which is returned. `marks` are the
      positions at which the values of this call were tried. */
  method RetryValidator(target: Target, initial: Option<string>, validators: Validators, terminal: Terminal)
    returns (r: Result<string, Stop>, ghost marks: seq<nat>)
    requires terminal.Valid()
    modifies validators, terminal
    ensures terminal.Valid() && terminal.at >= old(terminal.at) && old(validators.accepted) <= validators.accepted
    ensures r.Ok? ==> Approved(target, r.value, validators.accepted)
    ensures validators.raised >= old(validators.raised)
    ensures r.Err? ==> StoppedBy(terminal, r.error) || (r.error == Crash && validators.raised > old(validators.raised))
    ensures r.Ok? ==> initial == Some(r.value) || WasEntered(terminal.script, old(terminal.at), terminal.at, r.value)
    ensures |validators.asked| >= |old(validators.asked)|
    ensures var asks := validators.asked[|old(validators.asked)|..];
            && validators.asked == old(validators.asked) + asks && |marks| == |asks|
            && Tries(terminal.script, old(terminal.at), initial, target, asks, marks)
            && TriesEnd(terminal.script, old(terminal.at), initial, asks, marks, terminal.at, r)
  {
    hide Strip, Lower, Usable, NoChoice, MenuLine, NextTry, FirstTry, Tries, TriesEnd, GivenUp, WasEntered, AboutToTry;
    ghost var script, start, before := terminal.script, terminal.at, validators.asked;
    ghost var asks: seq<Ask> := [];
    marks := [];
    var first := FirstValue(initial, terminal);
    NeverTried(script, start, initial, target, terminal.at, first);
    assert before[|before|..] == [];
    if first.Err? {
      return first, marks;
    }
    var value := first.value;
    while true
      invariant terminal.Valid() && terminal.at >= start && old(validators.accepted) <= validators.accepted
      invariant validators.raised == old(validators.raised) && validators.asked == before + asks
      invariant |marks| == |asks| && AboutToTry(script, start, initial, target, asks, marks, value, terminal.at)
      decreases |script| - terminal.at
    {
      ghost var mark := terminal.at;
      var verdict := validators.Validate(target, value);
      Tried(script, start, initial, target, asks, marks, value, mark, verdict);
      asks, marks := asks + [Ask(target, value, verdict)], marks + [mark];
      assert validators.asked[|before|..] == asks;
      if verdict == Verdict.Accepted {
        return Ok(value), marks;
      }
      if verdict == Raised {
        return Err(Crash), marks;
      }
      var next := NextValue(value, terminal);
      AfterRejection(script, start, initial, target, asks, marks, value, terminal.at, next);
      if next.Err? {
        return next, marks;
      }
      value := next.value;
    }
  }

  /** The value is next to be tried at position `at`, after these tries. */
  ghost predicate AboutToTry(script: seq<Input>, start: nat, initial: Option<string>, target: Target, asks: seq<Ask>, marks: seq<nat>, value: string, at: nat)
  {
    && start <= at <= |script| && Tries(script, start, initial, target, asks, marks)
    && (asks == [] ==> FirstTry(script, start, initial, value, at))
    && (asks != [] ==>
          var last := asks[|asks| - 1];
          last.verdict == Rejected && NextTry(script, last.value, marks[|asks| - 1], value, at))
    && (initial == Some(value) || WasEntered(script, start, at, value))
  }

  method FirstValue(initial: Option<string>, terminal: Terminal) returns (r: Result<string, Stop>)
    requires terminal.Valid()
    modifies terminal
    ensures terminal.Valid() && terminal.at >= old(terminal.at)
    ensures r.Ok? ==> FirstTry(terminal.script, old(terminal.at), initial, r.value, terminal.at)
    ensures r.Err? ==>
              && initial == None && StoppedBy(terminal, r.error)
              && (if r.error == Crash then terminal.at == old(terminal.at) == |terminal.script|
                  else terminal.at == old(terminal.at) + 1 && terminal.script[old(terminal.at)].CtrlC?)
  {
    hide Strip;
    if initial.Some? {
      return Ok(initial.value);
    }
    var a := terminal.Prompt();
    return if a.Text? then Ok(a.text) else Err(StopOf(a));
  }

  lemma NeverTried(script: seq<Input>, start: nat, initial: Option<string>, target: Target, at: nat, first: Result<string, Stop>)
    requires start <= at <= |script|
    requires first.Ok? ==> FirstTry(script, start, initial, first.value, at)
    requires first.Err? ==> initial == None && (if first.error == Crash then at == start == |script| else at == start + 1 && script[start].CtrlC?)
    ensures Tries(script, start, initial, target, [], [])
    ensures first.Ok? ==> AboutToTry(script, start, initial, target, [], [], first.value, at)
    ensures first.Err? ==> TriesEnd(script, start, initial, [], [], at, first)
  {
    hide Strip;
    if first.Ok? && initial == None { StillEntered(script, start, at, first.value); }
  }

  lemma Tried(script: seq<Input>, start: nat, initial: Option<string>, target: Target, asks: seq<Ask>, marks: seq<nat>, value: string, mark: nat, verdict: Verdict)
    requires |marks| == |asks| && AboutToTry(script, start, initial, target, asks, marks, value, mark)
    ensures Tries(script, start, initial, target, asks + [Ask(target, value, verdict)], marks + [mark])
    ensures verdict == Verdict.Accepted ==> TriesEnd(script, start, initial, asks + [Ask(target, value, verdict)], marks + [mark], mark, Ok(value))
    ensures verdict == Raised ==> TriesEnd(script, start, initial, asks + [Ask(target, value, verdict)], marks + [mark], mark, Err(Crash))
    ensures initial == Some(value) || WasEntered(script, start, mark, value)
    ensures start <= mark
  {
    hide Tries, FirstTry, NextTry, GivenUp, WasEntered;
    OneMoreTry(script, start, initial, target, asks, marks, Ask(target, value, verdict), mark);
  }

  lemma AfterRejection(script: seq<Input>, start: nat, initial: Option<string>, target: Target, asks: seq<Ask>, marks: seq<nat>, value: string, to: nat,
                       next: Result<string, Stop>)
    requires |marks| == |asks| > 0 && Tries(script, start, initial, target, asks, marks) && asks[|asks| - 1] == Ask(target, value, Rejected)
    requires start <= marks[|asks| - 1] <= to <= |script|
    requires initial == Some(value) || WasEntered(script, start, marks[|asks| - 1], value)
    requires next.Ok? ==>
               && NextTry(script, value, marks[|asks| - 1], next.value, to)
               && (next.value == value || WasEntered(script, marks[|asks| - 1], to, next.value))
    requires next.Err? ==> GivenUp(script, marks[|asks| - 1], to, next.error)
    ensures next.Ok? ==> AboutToTry(script, start, initial, target, asks, marks, next.value, to)
    ensures next.Err? ==> TriesEnd(script, start, initial, asks, marks, to, next)
  {
    hide Tries, FirstTry, NextTry, GivenUp, WasEntered;
    if next.Ok? {
      LaterToo(script, start, marks[|asks| - 1], to, next.value);
      StillEnteredLater(script, start, marks[|asks| - 1], to, next.value);
    }
  }

  /** The menu after a rejected value, and the prompt for a new one. */
  method NextValue(value: string, terminal: Terminal) returns (r: Result<string, Stop>)
    requires terminal.Valid()
    modifies terminal
    ensures terminal.Valid() && terminal.at >= old(terminal.at)
    ensures r.Ok? ==> terminal.at > old(terminal.at) && NextTry(terminal.script, value, old(terminal.at), r.value, terminal.at)
    ensures r.Ok? ==> r.value == value || WasEntered(terminal.script, old(terminal.at), terminal.at, r.value)
    ensures r.Err? ==> GivenUp(terminal.script, old(terminal.at), terminal.at, r.error) && StoppedBy(terminal, r.error)
  {
    hide Strip, Lower, NoChoice, MenuLine;
    var choice := RetryMenu(terminal);
    match choice
    case Err(KeyboardInterrupt) => return Err(KeyboardInterrupt);
    case Err(Crash) => return Err(Crash);
    case Ok(Quit) =>
      QuitReads(terminal.script[terminal.at - 1]);
      return Err(KeyboardInterrupt);
    case Ok(Retry) => return Ok(value);
    case Ok(NewValue) =>
      var a := terminal.Prompt();
      if !a.Text? {
        return Err(StopOf(a));
      }
      return Ok(a.text);
  }

  lemma LaterToo(script: seq<Input>, start: nat, mark: nat, to: nat, value: string)
    requires mark <= to <= |script|
    ensures WasEntered(script, start, mark, value) ==> WasEntered(script, start, to, value)
  {
    hide Strip;
  }

  lemma QuitReads(input: Input)
    requires MenuLine(input, Quit)
    ensures input.Line? && Lower(Strip(input.text)) == "q"
  {
  }

  // ----- Picking a provider

  predicate AllDigits(s: string) {
    s != "" && forall i :: 0 <= i < |s| ==> IsDigit(s[i])
  }

  /** The line is this number, in digits only. */
  predicate Picks(input: Input, n: nat) {
    input.Line? && AllDigits(Strip(input.text)) && ParseNat(Strip(input.text)) == Some(n)
  }

  /** Lines that are no number on the list. */
  predicate NoPick(script: seq<Input>, from: nat, to: nat)
    requires to <= |script|
  {
    forall k :: from <= k < to ==> script[k].Line? && !Picks(script[k], 1) && !Picks(script[k], 2) && !Picks(script[k], 3) && !Picks(script[k], 4)
  }

  /** A number names one of the three defaults. */
  predicate NumberedAt(script: seq<Input>, k: nat, p: ProviderChoice)
    requires k < |script|
  {
    || (Picks(script[k], 1) && p == PROVIDER_DEFAULTS[0])
    || (Picks(script[k], 2) && p == PROVIDER_DEFAULTS[1])
    || (Picks(script[k], 3) && p == PROVIDER_DEFAULTS[2])
  }

  predicate CustomAt(script: seq<Input>, k: nat, p: ProviderChoice)
    requires k + 3 <= |script|
  {
    && script[k].Line? && script[k + 1].Line? && script[k + 2].Line?
    && p == ProviderChoice("custom", Strip(script[k].text), Strip(script[k + 1].text), Strip(script[k + 2].text))
  }

  /** The first number on the list, at `pick`, decides: for a default, or for the three lines after it. */
  predicate PickedAt(script: seq<Input>, from: nat, pick: nat, to: nat, p: ProviderChoice)
    requires to <= |script|
  {
    && from <= pick < to && NoPick(script, from, pick)
    && ((to == pick + 1 && NumberedAt(script, pick, p)) || (to == pick + 4 && Picks(script[pick], 4) && CustomAt(script, pick + 1, p)))
  }

  /** Ctrl-C, or the end of the input, at the next prompt or at one of the three for a custom provider. */
  predicate PickStopped(script: seq<Input>, from: nat, pick: nat, to: nat, stop: Stop)
    requires to <= |script|
  {
    && from <= pick <= to && NoPick(script, from, pick)
    && (pick < to && script[pick].Line? ==> Picks(script[pick], 4) && to <= pick + 4 && forall k :: pick < k < to - 1 ==> script[k].Line?)
    && (pick < to && script[pick].CtrlC? ==> to == pick + 1)
    && (match stop
        case KeyboardInterrupt => pick < to && script[to - 1].CtrlC?
        case Crash => to == |script| && to < pick + 4 && forall k :: pick <= k < to ==> script[k].Line?)
  }

  ghost predicate ChosenBy(script: seq<Input>, from: nat, to: nat, p: ProviderChoice)
    requires to <= |script|
  {
    exists pick, end :: from <= pick < end <= to && PickedAt(script, from, pick, end, p)
  }

  /** _select_provider_from_list, with the custom provider's three prompts. */
  method SelectProvider(terminal: Terminal) returns (r: Result<ProviderChoice, Stop>, ghost pick: nat)
    requires terminal.Valid()
    modifies terminal
    ensures terminal.Valid() && terminal.at >= old(terminal.at)
    ensures r.Err? ==> StoppedBy(terminal, r.error) && PickStopped(terminal.script, old(terminal.at), pick, terminal.at, r.error)
    ensures r.Ok? ==> PickedAt(terminal.script, old(terminal.at), pick, terminal.at, r.value)
  {
    hide Strip, ParseNat;
    while true
      invariant terminal.Valid() && terminal.at >= old(terminal.at) && NoPick(terminal.script, old(terminal.at), terminal.at)
      decreases |terminal.script| - terminal.at
    {
      pick := terminal.at;
      var a := terminal.Prompt();
      if !a.Text? {
        return Err(StopOf(a)), pick;
      }
      if AllDigits(a.text) {
        var choice := ParseNat(a.text);
        if choice.Some? && 1 <= choice.value <= |PROVIDER_DEFAULTS| {
          assert NumberedAt(terminal.script, pick, PROVIDER_DEFAULTS[choice.value - 1]);
          return Ok(PROVIDER_DEFAULTS[choice.value - 1]), pick;
        }
        if choice == Some(|PROVIDER_DEFAULTS| + 1) {
          r := PromptCustomProvider(terminal);
          return r, pick;
        }
      }
    }
  }

  method PromptCustomProvider(terminal: Terminal) returns (r: Result<ProviderChoice, Stop>)
    requires terminal.Valid()
    modifies terminal
    ensures terminal.Valid() && terminal.at >= old(terminal.at)
    ensures r.Err? ==> StoppedBy(terminal, r.error)
    ensures r.Ok? ==> terminal.at == old(terminal.at) + 3 && CustomAt(terminal.script, old(terminal.at), r.value)
    ensures r == Err(KeyboardInterrupt) ==>
              && old(terminal.at) < terminal.at <= old(terminal.at) + 3 && terminal.script[terminal.at - 1].CtrlC?
              && forall k :: old(terminal.at) <= k < terminal.at - 1 ==> terminal.script[k].Line?
    ensures r == Err(Crash) ==>
              && terminal.at == |terminal.script| < old(terminal.at) + 3
              && forall k :: old(terminal.at) <= k < terminal.at ==> terminal.script[k].Line?
  {
    hide Strip;
    var baseUrl := terminal.Prompt();
    if !baseUrl.Text? {
      return Err(StopOf(baseUrl));
    }
    var keyName := terminal.Prompt();
    if !keyName.Text? {
      return Err(StopOf(keyName));
    }
    var model := terminal.Prompt();
    if !model.Text? {
      return Err(StopOf(model));
    }
    return Ok(ProviderChoice("custom", baseUrl.text, keyName.text, model.text));
  }

  /** The default whose name the key's shape suggests. */
  method DefaultFor(name: Option<string>) returns (r: Option<ProviderChoice>)
    ensures r.Some? ==> r.value in PROVIDER_DEFAULTS && name == Some(r.value.name)
    ensures r == None ==> forall i :: 0 <= i < |PROVIDER_DEFAULTS| ==> name != Some(PROVIDER_DEFAULTS[i].name)
  {
    for i := 0 to |PROVIDER_DEFAULTS|
      invariant forall k :: 0 <= k < i ==> name != Some(PROVIDER_DEFAULTS[k].name)
    {
      if name == Some(PROVIDER_DEFAULTS[i].name) {
        return Some(PROVIDER_DEFAULTS[i]);
      }
    }
    return None;
  }

  /** The line at `start` has the shape of a key of this default. */
  predicate LooksLike(detect: string -> Option<string>, script: seq<Input>, start: nat, p: ProviderChoice) {
    && start < |script| && script[start].Line? && Strip(script[start].text) != ""
    && p in PROVIDER_DEFAULTS && detect(Strip(script[start].text)) == Some(p.name)
  }

  /** The line at `from` looked like a key of this default, and the user said to proceed with it. */
  predicate DetectedAt(detect: string -> Option<string>, script: seq<Input>, from: nat, to: nat, p: ProviderChoice)
    requires to <= |script|
  {
    from + 2 <= to && LooksLike(detect, script, from, p) && script[from + 1].Line? && Affirms(script[from + 1].text, true)
  }

  ghost predicate ProviderFrom(detect: string -> Option<string>, script: seq<Input>, from: nat, to: nat, p: ProviderChoice)
    requires to <= |script|
  {
    DetectedAt(detect, script, from, to, p) || exists start :: from <= start <= to && ChosenBy(script, start, to, p)
  }

  /** How the provider step went: where the list was shown, if it was; where the number was entered and
      the provider complete; how many of the validator's calls belong to a detected key; and where the
      values of either round were tried. */
  datatype ProviderTrail = ProviderTrail(list: Option<nat>, pick: nat, chosen: nat, split: nat, first: seq<nat>, second: seq<nat>)

  /** The list was never shown: the detected key was accepted after an affirming line, its validator
      crashed, or the step was stopped at one of its first two prompts. */
  ghost predicate WithoutList(detect: string -> Option<string>, script: seq<Input>, start: nat, to: nat, asks: seq<Ask>, marks: seq<nat>,
                              r: Result<(ProviderChoice, string), Stop>)
    requires to <= |script|
  {
    || (asks == [] && start <= |script| && r == Err(KeyboardInterrupt) && to == start + 1 && script[start].CtrlC?)
    || (asks == [] && r == Err(Crash) && to == start == |script|)
    || (exists p :: LooksLike(detect, script, start, p) &&
          (|| (asks == [] && r == Err(KeyboardInterrupt) && to == start + 2 && script[start + 1].CtrlC?)
           || (asks == [] && r == Err(Crash) && to == start + 1 == |script|)
           || (DetectedAt(detect, script, start, to, p) && |marks| == |asks|
               && Tries(script, start + 2, Some(Strip(script[start].text)), ProviderKey(p.baseUrl), asks, marks)
               && ((r.Ok? && r.value.0 == p && TriesEnd(script, start + 2, Some(Strip(script[start].text)), asks, marks, to, Ok(r.value.1)))
                   || (r == Err(Crash) && TriesEnd(script, start + 2, Some(Strip(script[start].text)), asks, marks, to, Err(Crash)))))))
  }

  /** Why the list was shown at position `list`: the line is no key that is recognised, the user did not
      want to proceed, or gave up on the detected key. */
  ghost predicate ListReached(detect: string -> Option<string>, script: seq<Input>, start: nat, list: nat, asks: seq<Ask>, marks: seq<nat>)
    requires list <= |script|
  {
    || (asks == [] && list == start + 1 && script[start].Line? && forall p :: !LooksLike(detect, script, start, p))
    || (exists p :: LooksLike(detect, script, start, p) && start + 2 <= list && script[start + 1].Line? &&
          (|| (asks == [] && list == start + 2 && !Affirms(script[start + 1].text, true))
           || (DetectedAt(detect, script, start, list, p) && |marks| == |asks|
               && Tries(script, start + 2, Some(Strip(script[start].text)), ProviderKey(p.baseUrl), asks, marks)
               && TriesEnd(script, start + 2, Some(Strip(script[start].text)), asks, marks, list, Err(KeyboardInterrupt)))))
  }

  /** With the list: a provider is picked from there, and then a key for it is entered and tried. */
  ghost predicate WithList(script: seq<Input>, list: nat, t: ProviderTrail, to: nat, asks: seq<Ask>, r: Result<(ProviderChoice, string), Stop>)
    requires to <= |script|
  {
    || (asks == [] && r.Err? && PickStopped(script, list, t.pick, to, r.error))
    || (exists p :: t.chosen <= to && PickedAt(script, list, t.pick, t.chosen, p) && |t.second| == |asks|
          && Tries(script, t.chosen, None, ProviderKey(p.baseUrl), asks, t.second)
          && (match r
              case Ok((q, key)) => q == p && TriesEnd(script, t.chosen, None, asks, t.second, to, Ok(key))
              case Err(stop) => TriesEnd(script, t.chosen, None, asks, t.second, to, Err(stop))))
  }

  ghost predicate ProviderStep(detect: string -> Option<string>, script: seq<Input>, start: nat, t: ProviderTrail, to: nat, asks: seq<Ask>,
                               r: Result<(ProviderChoice, string), Stop>)
    requires to <= |script|
  {
    match t.list
    case None => WithoutList(detect, script, start, to, asks, t.first, r)
    case Some(list) =>
      && list <= to && t.split <= |asks|
      && ListReached(detect, script, start, list, asks[..t.split], t.first) && WithList(script, list, t, to, asks[t.split..], r)
  }

  /** The first part of _step_provider, for a line that is not empty: None when the list is to be shown. */
  method TryDetected(detect: string -> Option<string>, raw: string, validators: Validators, terminal: Terminal, ghost start: nat)
    returns (r: Option<Result<(ProviderChoice, string), Stop>>, ghost marks: seq<nat>)
    requires terminal.Valid() && terminal.at == start + 1 && terminal.script[start].Line? && raw == Strip(terminal.script[start].text) != ""
    modifies validators, terminal
    ensures terminal.Valid() && terminal.at > start && |validators.asked| >= |old(validators.asked)|
    ensures old(validators.accepted) <= validators.accepted && validators.raised >= old(validators.raised)
    ensures validators.asked[..|old(validators.asked)|] == old(validators.asked)
    ensures r.Some? && r.value.Err? ==> StoppedBy(terminal, r.value.error) || (r.value.error == Crash && validators.raised > old(validators.raised))
    ensures r.Some? && r.value.Ok? ==>
              && DetectedAt(detect, terminal.script, start, terminal.at, r.value.value.0)
              && WasEntered(terminal.script, start, terminal.at, r.value.value.1)
              && Approved(ProviderKey(r.value.value.0.baseUrl), r.value.value.1, validators.accepted)
    ensures r.Some? ==> WithoutList(detect, terminal.script, start, terminal.at, validators.asked[|old(validators.asked)|..], marks, r.value)
    ensures r == None ==> ListReached(detect, terminal.script, start, terminal.at, validators.asked[|old(validators.asked)|..], marks)
  {
    hide Strip, Affirms, Usable, Approved, Tries, TriesEnd, NoChoice, MenuLine;
    ghost var script, before := terminal.script, validators.asked;
    marks := [];
    assert before[|before|..] == [];
    var detected := DefaultFor(detect(raw));
    if detected == None {
      return None, marks;
    }
    assert LooksLike(detect, script, start, detected.value);
    var proceed := terminal.Confirm(true);
    if proceed.Broken? {
      return Some(Err(StopOf(proceed.cause))), marks;
    }
    if proceed == No {
      return None, marks;
    }
    var key;
    key, marks := RetryValidator(ProviderKey(detected.value.baseUrl), Some(raw), validators, terminal);
    assert DetectedAt(detect, script, start, terminal.at, detected.value);
    assert script[start].text == terminal.script[start].text;
    TriedDetected(detect, script, start, terminal.at, detected.value, validators.asked[|before|..], marks, key);
    match key
    case Ok(value) =>
      StillEntered(script, start, terminal.at, raw);
      StillEnteredLater(script, start, start + 2, terminal.at, value);
      return Some(Ok((detected.value, value))), marks;
    case Err(Crash) => return Some(Err(Crash)), marks;
    case Err(KeyboardInterrupt) => return None, marks;
  }

  lemma TriedDetected(detect: string -> Option<string>, script: seq<Input>, start: nat, to: nat, p: ProviderChoice, asks: seq<Ask>, marks: seq<nat>,
                      key: Result<string, Stop>)
    requires to <= |script| && DetectedAt(detect, script, start, to, p) && |marks| == |asks|
    requires Tries(script, start + 2, Some(Strip(script[start].text)), ProviderKey(p.baseUrl), asks, marks)
    requires TriesEnd(script, start + 2, Some(Strip(script[start].text)), asks, marks, to, key)
    ensures key.Ok? ==> WithoutList(detect, script, start, to, asks, marks, Ok((p, key.value)))
    ensures key == Err(Crash) ==> WithoutList(detect, script, start, to, asks, marks, Err(Crash))
    ensures key == Err(KeyboardInterrupt) ==> ListReached(detect, script, start, to, asks, marks)
  {
    hide Tries, TriesEnd, Strip, Affirms;
  }

  lemma StillEntered(script: seq<Input>, start: nat, to: nat, value: string)
    requires start < to <= |script| && script[start].Line? && value == Strip(script[start].text)
    ensures WasEntered(script, start, to, value)
  {
    hide Strip;
  }

  lemma StillEnteredLater(script: seq<Input>, start: nat, later: nat, to: nat, value: string)
    requires start <= later && to <= |script|
    ensures WasEntered(script, later, to, value) ==> WasEntered(script, start, to, value)
  {
    hide Strip;
  }

  /** The second part of _step_provider: the list, then a key for what was picked. */
  method PickAndTry(validators: Validators, terminal: Terminal)
    returns (r: Result<(ProviderChoice, string), Stop>, ghost t: ProviderTrail)
    requires terminal.Valid()
    modifies validators, terminal
    ensures terminal.Valid() && terminal.at >= old(terminal.at) && |validators.asked| >= |old(validators.asked)|
    ensures old(validators.accepted) <= validators.accepted && validators.raised >= old(validators.raised)
    ensures validators.asked[..|old(validators.asked)|] == old(validators.asked)
    ensures r.Err? ==> StoppedBy(terminal, r.error) || (r.error == Crash && validators.raised > old(validators.raised))
    ensures r.Ok? ==>
              && ChosenBy(terminal.script, old(terminal.at), terminal.at, r.value.0)
              && WasEntered(terminal.script, old(terminal.at), terminal.at, r.value.1)
              && Approved(ProviderKey(r.value.0.baseUrl), r.value.1, validators.accepted)
    ensures WithList(terminal.script, old(terminal.at), t, terminal.at, validators.asked[|old(validators.asked)|..], r)
  {
    hide Strip, ParseNat, Usable, Approved, Tries, TriesEnd, PickedAt, PickStopped, NoChoice, MenuLine;
    ghost var script, list := terminal.script, terminal.at;
    var choice;
    ghost var pick;
    choice, pick := SelectProvider(terminal);
    t := ProviderTrail(None, pick, terminal.at, 0, [], []);
    if choice.Err? {
      return Err(choice.error), t;
    }
    var key;
    ghost var marks;
    key, marks := RetryValidator(ProviderKey(choice.value.baseUrl), None, validators, terminal);
    PickedIsChosen(script, list, pick, t.chosen, terminal.at, choice.value);
    t := t.(second := marks);
    TriedPicked(script, list, t, terminal.at, validators.asked[|old(validators.asked)|..], choice.value, key);
    match key
    case Err(stop) => return Err(stop), t;
    case Ok(value) =>
      StillEnteredLater(script, list, t.chosen, terminal.at, value);
      return Ok((choice.value, value)), t;
  }

  lemma TriedPicked(script: seq<Input>, list: nat, t: ProviderTrail, to: nat, asks: seq<Ask>, p: ProviderChoice, key: Result<string, Stop>)
    requires t.chosen <= to <= |script| && PickedAt(script, list, t.pick, t.chosen, p) && |t.second| == |asks|
    requires Tries(script, t.chosen, None, ProviderKey(p.baseUrl), asks, t.second)
    requires TriesEnd(script, t.chosen, None, asks, t.second, to, key)
    ensures key.Ok? ==> WithList(script, list, t, to, asks, Ok((p, key.value)))
    ensures key.Err? ==> WithList(script, list, t, to, asks, Err(key.error))
  {
    hide Tries, TriesEnd, PickedAt, PickStopped;
  }

  lemma WithListSame(script: seq<Input>, list: nat, t: ProviderTrail, t': ProviderTrail, to: nat, asks: seq<Ask>, r: Result<(ProviderChoice, string), Stop>)
    requires to <= |script| && WithList(script, list, t, to, asks, r)
    requires t'.pick == t.pick && t'.chosen == t.chosen && t'.second == t.second
    ensures WithList(script, list, t', to, asks, r)
  {
    hide PickStopped, PickedAt, Tries, TriesEnd;
  }

  /** _step_provider: a Ctrl-C in the retry loop of a detected key falls back to the list. */
  method StepProvider(detect: string -> Option<string>, validators: Validators, terminal: Terminal)
    returns (r: Result<(ProviderChoice, string), Stop>, ghost t: ProviderTrail)
    requires terminal.Valid()
    modifies validators, terminal
    ensures terminal.Valid() && terminal.at >= old(terminal.at) && |validators.asked| >= |old(validators.asked)|
    ensures old(validators.accepted) <= validators.accepted && validators.raised >= old(validators.raised)
    ensures r.Err? ==> StoppedBy(terminal, r.error) || (r.error == Crash && validators.raised > old(validators.raised))
    ensures r.Ok? ==>
              && ProviderFrom(detect, terminal.script, old(terminal.at), terminal.at, r.value.0)
              && WasEntered(terminal.script, old(terminal.at), terminal.at, r.value.1)
              && Approved(ProviderKey(r.value.0.baseUrl), r.value.1, validators.accepted)
    ensures validators.asked[..|old(validators.asked)|] == old(validators.asked)
    ensures ProviderStep(detect, terminal.script, old(terminal.at), t, terminal.at, validators.asked[|old(validators.asked)|..], r)
  {
    hide Strip, Approved, WithoutList, ListReached, WithList, WasEntered, ChosenBy, DetectedAt;
    ghost var script, start, before := terminal.script, terminal.at, validators.asked;
    t := ProviderTrail(None, 0, 0, 0, [], []);
    var raw := terminal.Prompt();
    assert before[|before|..] == [];
    if !raw.Text? {
      StoppedAtOnce(detect, script, start, terminal.at, StopOf(raw));
      return Err(StopOf(raw)), t;
    }
    if raw.text == "" {
      BlankLine(detect, script, start);
    } else {
      var ended;
      ghost var first;
      ended, first := TryDetected(detect, raw.text, validators, terminal, start);
      t := t.(first := first);
      if ended.Some? {
        return ended.value, t;
      }
    }
    ghost var list, middle := terminal.at, validators.asked;
    var picked;
    ghost var u;
    picked, u := PickAndTry(validators, terminal);
    t := ProviderTrail(Some(list), u.pick, u.chosen, |middle| - |before|, t.first, u.second);
    ghost var asks := validators.asked[|before|..];
    WithListSame(script, list, u, t, terminal.at, validators.asked[|middle|..], picked);
    assert asks[..t.split] == middle[|before|..] && asks[t.split..] == validators.asked[|middle|..];
    if picked.Ok? {
      ListedIsFrom(detect, script, start, list, terminal.at, picked.value.0);
      StillEnteredLater(script, start, list, terminal.at, picked.value.1);
    }
    return picked, t;
  }

  lemma StoppedAtOnce(detect: string -> Option<string>, script: seq<Input>, start: nat, to: nat, stop: Stop)
    requires to <= |script|
    requires if stop == Crash then to == start == |script| else to == start + 1 && script[start].CtrlC?
    ensures WithoutList(detect, script, start, to, [], [], Err(stop))
  {
  }

  lemma BlankLine(detect: string -> Option<string>, script: seq<Input>, start: nat)
    requires start < |script| && script[start].Line? && Strip(script[start].text) == ""
    ensures ListReached(detect, script, start, start + 1, [], [])
  {
    hide Strip;
  }

  lemma ListedIsFrom(detect: string -> Option<string>, script: seq<Input>, start: nat, list: nat, to: nat, p: ProviderChoice)
    requires start <= list <= to <= |script| && ChosenBy(script, list, to, p)
    ensures ProviderFrom(detect, script, start, to, p)
  {
    hide ChosenBy, DetectedAt;
  }

  lemma PickedIsChosen(script: seq<Input>, from: nat, pick: nat, end: nat, to: nat, p: ProviderChoice)
    requires end <= to <= |script| && PickedAt(script, from, pick, end, p)
    ensures ChosenBy(script, from, to, p)
  {
    hide NoPick, Picks, NumberedAt, CustomAt;
  }

  predicate Existing(files: Files) {
    files.env != File.Missing || files.config != File.Missing
  }

  predicate Reads(input: Input, word: string) {
    input.Line? && Strip(input.text) == word
  }

  /** Lines that answer none of 1, 2 and 3. */
  predicate NoAnswer(script: seq<Input>, from: nat, to: nat)
    requires to <= |script|
  {
    forall k :: from <= k < to ==> script[k].Line? && !Reads(script[k], "1") && !Reads(script[k], "2") && !Reads(script[k], "3")
  }

  /** Before position `to` the user agreed to overwrite, if there was anything to overwrite: the first
      answer was 2. */
  predicate Consent(script: seq<Input>, from: nat, to: nat, existing: bool)
    requires to <= |script|
  {
    if existing then from < to && NoAnswer(script, from, to - 1) && Reads(script[to - 1], "2") else from == to
  }

  /** The first answer is to keep the files, or to cancel. */
  predicate Keeps(script: seq<Input>, from: nat) {
    exists k :: from <= k < |script| && NoAnswer(script, from, k) && (Reads(script[k], "1") || Reads(script[k], "3"))
  }

  /** _step_existing_files: whether to go on. */
  method StepExistingFiles(directory: Directory, terminal: Terminal) returns (r: Result<bool, Stop>)
    requires terminal.Valid()
    modifies terminal
    ensures terminal.Valid() && terminal.at >= old(terminal.at) && (r.Err? ==> StoppedBy(terminal, r.error))
    ensures !Existing(directory.Snapshot()) ==> r == Ok(true)
    ensures r == Ok(true) ==> Consent(terminal.script, old(terminal.at), terminal.at, Existing(directory.Snapshot()))
    ensures r == Ok(false) <==> Existing(directory.Snapshot()) && Keeps(terminal.script, old(terminal.at))
    ensures r.Ok? && !(directory.env == File.Missing && directory.config == File.Missing) ==>
              && terminal.at > old(terminal.at) && terminal.script[terminal.at - 1].Line?
              && Strip(terminal.script[terminal.at - 1].text) in (if r.value then ["2"] else ["1", "3"])
              && forall k :: old(terminal.at) <= k < terminal.at - 1 ==>
                   terminal.script[k].Line? && Strip(terminal.script[k].text) !in ["1", "2", "3"]
  {
    hide Strip;
    if !Existing(directory.Snapshot()) {
      return Ok(true);
    }
    while true
      invariant terminal.Valid() && terminal.at >= old(terminal.at) && NoAnswer(terminal.script, old(terminal.at), terminal.at)
      decreases |terminal.script| - terminal.at
    {
      ghost var k := terminal.at;
      var a := terminal.Prompt();
      if !a.Text? {
        return Err(StopOf(a));
      }
      if a.text == "1" || a.text == "3" {
        assert Reads(terminal.script[k], "1") || Reads(terminal.script[k], "3");
        return Ok(false);
      }
      if a.text == "2" {
        assert Reads(terminal.script[k], "2");
        return Ok(true);
      }
    }
  }

  /** What a run drew its files from. */
  datatype Draft = Draft(provider: ProviderChoice, key: string, token: string, chat: int)

  function EnvOf(d: Draft): string {
    EnvText(d.token, d.chat, d.provider.keyName, d.key)
  }

  function ConfigOf(d: Draft): Config {
    BuildConfig(d.provider.name, d.provider.baseUrl, d.provider.keyName, d.provider.model)
  }

  /** Where in the script the steps of a run began, and how its search for the chat went. */
  datatype Trail = Trail(provider: nat, token: nat, chat: nat, search: ChatSearch)

  /** The draft is what the user and the world put into the run between `from` and `to`, step by step:
      consent to overwrite, the provider chosen, key and token entered and accepted by their
      validators, and the chat id settled last, either typed or confirmed right after its message was
      captured. */
  ghost predicate Vouched(d: Draft, t: Trail, detect: string -> Option<string>, script: seq<Input>, from: nat, to: nat,
                          existing: bool, accepted: set<(Target, string)>, all: seq<Update>)
  {
    && from <= t.provider <= t.token <= t.chat < to <= |script|
    && Consent(script, from, t.provider, existing)
    && ProviderFrom(detect, script, t.provider, t.token, d.provider)
    && WasEntered(script, t.provider, t.token, d.key) && Approved(ProviderKey(d.provider.baseUrl), d.key, accepted)
    && WasEntered(script, t.token, t.chat, d.token) && Approved(BotToken, d.token, accepted)
    && (ConfirmedIn(t.search, all, script, t.chat, to, d.chat) || TypedIn(t.search, script, t.chat, to, d.chat))
  }

  datatype Outcome = Finished | KeptFiles | Aborted | Failed

  /** The write of the files is stopped here, by Ctrl-C or by an error. */
  datatype Abort = Abort(point: StopPoint, cause: Stop)

  function PointOf(abort: Option<Abort>): StopPoint {
    if abort == None then StopPoint(4, false) else abort.value.point
  }

  /** Provider, token and chat id, in this order, each where the one before it ended. */
  ghost predicate Gathered(d: Draft, t: Trail, detect: string -> Option<string>, script: seq<Input>, from: nat, to: nat,
                           accepted: set<(Target, string)>, all: seq<Update>)
  {
    && from == t.provider <= t.token <= t.chat < to <= |script|
    && ProviderFrom(detect, script, t.provider, t.token, d.provider)
    && WasEntered(script, t.provider, t.token, d.key) && Approved(ProviderKey(d.provider.baseUrl), d.key, accepted)
    && WasEntered(script, t.token, t.chat, d.token) && Approved(BotToken, d.token, accepted)
    && (ConfirmedIn(t.search, all, script, t.chat, to, d.chat) || TypedIn(t.search, script, t.chat, to, d.chat))
  }

  lemma NowVouched(d: Draft, t: Trail, detect: string -> Option<string>, script: seq<Input>, from: nat, asked: nat, to: nat,
                   existing: bool, accepted: set<(Target, string)>, all: seq<Update>)
    requires from <= asked && asked <= |script| && Consent(script, from, asked, existing)
    requires Gathered(d, t, detect, script, asked, to, accepted, all)
    ensures Vouched(d, t, detect, script, from, to, existing, accepted, all)
  {
    hide Consent, ProviderFrom, WasEntered, Approved, ConfirmedIn, TypedIn;
  }

  /** The three steps between the question about existing files and the writing of new ones. */
  method Gather(detect: string -> Option<string>, validators: Validators, terminal: Terminal, server: Server)
    returns (r: Result<Draft, Outcome>, ghost trail: Trail)
    requires terminal.Valid() && server.Valid()
    modifies validators, terminal, server
    ensures terminal.Valid()
    ensures r.Err? ==> r.error == Outcome.Aborted || r.error == Outcome.Failed
    ensures r == Err(Outcome.Aborted) ==> StoppedBy(terminal, KeyboardInterrupt)
    ensures r == Err(Outcome.Failed) ==>
              StoppedBy(terminal, Crash) || validators.raised > old(validators.raised) || server.faults > old(server.faults)
    ensures r.Ok? ==>
              && Gathered(r.value, trail, detect, terminal.script, old(terminal.at), terminal.at, validators.accepted, server.all)
              && Faithful(trail.search, server.all, old(server.arrived), old(server.dropped))
              && server.clears == old(server.clears) + [(trail.search.cleared, trail.search.sound)]
  {
    hide Strip, Lower, ConfirmedIn, TypedIn, AbortedIn, RanOutIn, Server.Valid, Faithful, ProviderFrom, WasEntered,
         Approved, ProviderStep, Tries, TriesEnd, WaitedOut, Refused;
    trail := Trail(terminal.at, terminal.at, terminal.at, ChatSearch(0, false, 0, [], []));
    ghost var providerAt := terminal.at;
    var provider;
    ghost var steps;
    provider, steps := StepProvider(detect, validators, terminal);
    if provider.Err? {
      return Err(OutcomeOf(provider.error)), trail;
    }
    ghost var tokenAt := terminal.at;
    ghost var accepted := validators.accepted;
    var token;
    ghost var marks;
    token, marks := RetryValidator(BotToken, None, validators, terminal);
    if token.Err? {
      return Err(OutcomeOf(token.error)), trail;
    }
    StaysApproved(ProviderKey(provider.value.0.baseUrl), provider.value.1, accepted, validators.accepted);
    ghost var chatAt := terminal.at;
    var chat;
    ghost var search;
    chat, search := StepChatId(server, terminal);
    EndingMeans(chat, search, server.all, terminal.script, chatAt, terminal.at, server.faults > old(server.faults));
    if chat == ChatResult.Aborted {
      return Err(Outcome.Aborted), trail;
    }
    if chat == Crashed {
      return Err(Outcome.Failed), trail;
    }
    trail := Trail(providerAt, tokenAt, chatAt, search);
    return Ok(Draft(provider.value.0, provider.value.1, token.value, chat.chat)), trail;
  }

  /** main(), over any script, oracle answers and abort points. Either the run ends before a draft is
      complete, for a reason outside, and no file changes; or the draft is vouched for, and the files
      are those that writing it leaves behind when stopped where `abort` says. */
  method RunInit(detect: string -> Option<string>, directory: Directory, validators: Validators, terminal: Terminal, server: Server,
                 abort: Option<Abort>)
    returns (outcome: Outcome, ghost draft: Option<Draft>, ghost trail: Trail)
    requires terminal.Valid() && server.Valid()
    modifies directory, validators, terminal, server
    ensures terminal.Valid()
    ensures draft == None ==> directory.Snapshot() == old(directory.Snapshot()) && outcome != Finished
    ensures draft == None && outcome == Outcome.Aborted ==> StoppedBy(terminal, KeyboardInterrupt)
    ensures draft == None && outcome == Outcome.Failed ==>
              StoppedBy(terminal, Crash) || validators.raised > old(validators.raised) || server.faults > old(server.faults)
    ensures outcome == KeptFiles <==> old(Existing(directory.Snapshot())) && Keeps(terminal.script, old(terminal.at))
    ensures outcome == KeptFiles ==> draft == None
    ensures draft.Some? ==>
              && Vouched(draft.value, trail, detect, terminal.script, old(terminal.at), terminal.at,
                         old(Existing(directory.Snapshot())), validators.accepted, server.all)
              && Faithful(trail.search, server.all, old(server.arrived), old(server.dropped))
              && server.clears == old(server.clears) + [(trail.search.cleared, trail.search.sound)]
    ensures draft.Some? ==>
              && directory.Snapshot() == Stopped(old(directory.Snapshot()), Plan(EnvOf(draft.value), ConfigOf(draft.value)), PointOf(abort))
              && outcome == if abort == None then Finished else OutcomeOf(abort.value.cause)
  {
    hide EnvText, Server.Valid, Faithful, Gathered, Vouched, Consent, Keeps, Stopped, Plan, StoppedBy;
    draft := None;
    ghost var start, existing := terminal.at, Existing(directory.Snapshot());
    trail := Trail(start, start, start, ChatSearch(0, false, 0, [], []));
    var go := StepExistingFiles(directory, terminal);
    if go.Err? {
      return OutcomeOf(go.error), draft, trail;
    }
    if !go.value {
      return KeptFiles, draft, trail;
    }
    ghost var asked := terminal.at;
    var gathered;
    gathered, trail := Gather(detect, validators, terminal, server);
    if gathered.Err? {
      return gathered.error, draft, trail;
    }
    var d := gathered.value;
    draft := Some(d);
    NowVouched(d, trail, detect, terminal.script, start, asked, terminal.at, existing, validators.accepted, server.all);
    var envText := RenderEnv(d.token, d.chat, d.provider.keyName, d.key);
    var finished := directory.WriteFiles(envText, ConfigOf(d), PointOf(abort));
    return if abort == None then Finished else OutcomeOf(abort.value.cause), draft, trail;
  }

  /** A search ended by Ctrl-C or the end of the input ends the run that way too. */
  lemma EndingMeans(r: ChatResult, s: ChatSearch, all: seq<Update>, script: seq<Input>, start: nat, at: nat, failed: bool)
    requires EndsAs(r, s, all, script, start, at, failed) && at <= |script|
    ensures r.Confirmed? || r.Typed? ==> start < at
    ensures r == ChatResult.Aborted ==> at > 0 && script[at - 1].CtrlC?
    ensures r == Crashed && !failed ==> at == |script|
  {
    hide Refused, Affirms, NoIds, LastLineIsId;
  }

  lemma StaysApproved(target: Target, value: string, before: set<(Target, string)>, accepted: set<(Target, string)>)
    requires Approved(target, value, before) && before <= accepted
    ensures Approved(target, value, accepted)
  {
  }

  function OutcomeOf(stop: Stop): Outcome {
    if stop == KeyboardInterrupt then Outcome.Aborted else Outcome.Failed
  }
}
