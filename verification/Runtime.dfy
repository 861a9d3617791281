/** The prompt envelope and the provider fallback chain. The model call itself is an oracle. */
module Runtime {
  import opened Config
  import opened Environment
  import opened Numbers
  import opened Registry
  import opened Sorting
  import opened Text
  import opened Wrappers

  // ----- The prompt envelope

  const CLOSE := "</user_message>"
  const ESCAPED := "<\\/user_message>"
  const OPEN := "<user_message chat_id=\""
  const AFTER_ID := "\">\n"

  method FrameUserText(text: string, chat: int) returns (framed: string)
    ensures framed == Frame(text, chat)
    ensures framed == "<user_message chat_id=\"" + IntToString(chat) + "\">\n" + Replace(text, "</user_message>", "<\\/user_message>") + "\n" + "</user_message>"
  {
    var escaped := ReplaceAll(text, CLOSE, ESCAPED);
    framed := OPEN + IntToString(chat) + AFTER_ID + escaped + "\n" + CLOSE;
  }

  function Header(chat: int): string {
    OPEN + IntToString(chat) + AFTER_ID
  }

  function Escape(text: string): string {
    Replace(text, CLOSE, ESCAPED)
  }

  function Frame(text: string, chat: int): string {
    Header(chat) + Escape(text) + "\n" + CLOSE
  }

  lemma TagsAreClear()
    ensures Clear(CLOSE, ESCAPED) && Clear(ESCAPED, CLOSE)
    ensures forall k :: 0 < k < |ESCAPED| ==> !Agrees(ESCAPED, ESCAPED, k)
  {
    forall k: int | -|ESCAPED| < k < |CLOSE| ensures !Agrees(CLOSE, ESCAPED, k) { Unaligned(CLOSE, ESCAPED, k); }
    forall k: int | -|CLOSE| < k < |ESCAPED| ensures !Agrees(ESCAPED, CLOSE, k) { Unaligned(ESCAPED, CLOSE, k); }
    forall k: int | 0 < k < |ESCAPED| ensures !Agrees(ESCAPED, ESCAPED, k) { Unaligned(ESCAPED, ESCAPED, k); }
  }

  /** Both tags have '<' at the start only, and differ in their second character. */
  lemma Unaligned(q: string, m: string, k: int)
    requires q in [CLOSE, ESCAPED] && m in [CLOSE, ESCAPED] && -|m| < k < |q| && (k != 0 || q != m)
    ensures !Agrees(q, m, k)
  {
    OnlyFirst(q);
    OnlyFirst(m);
    if k > 0 {
      assert q[k] != m[k - k];
    } else if k < 0 {
      assert q[0] != m[0 - k];
    } else {
      assert q[1] != m[1 - k];
    }
  }

  lemma OnlyFirst(tag: string)
    requires tag in [CLOSE, ESCAPED]
    ensures tag[0] == '<' && forall i :: 0 < i < |tag| ==> tag[i] != '<' && tag[i] != '\n'
  {
  }

  /** Whatever the text, the closing tag occurs in the framed message at its very end and nowhere else. */
  lemma ClosesOnceAtEnd(text: string, chat: int)
    ensures forall i :: OccursAt(Frame(text, chat), CLOSE, i) <==> i == |Frame(text, chat)| - |CLOSE|
  {
    TagsAreClear();
    ReplaceBringsNone(text, CLOSE, ESCAPED, CLOSE);
    hide Header, Replace, Contains, OccursAt;
    forall i | 0 <= i < |Header(chat)| ensures StartsNoClose(Header(chat), i) { HeaderHasNoClose(chat, i); }
    ClosesOnce(Header(chat), Escape(text));
    Reassociate(Header(chat), Escape(text), "\n");
    Reassociate(Header(chat), Escape(text) + "\n", CLOSE);
  }

  /** No closing tag starts here, whatever follows the header. */
  predicate StartsNoClose(h: string, i: nat)
    requires i < |h|
  {
    if i + 1 < |h| then h[i] != '<' || h[i + 1] != '/' else h[i] == '\n'
  }

  lemma ClosesOnce(h: string, e: string)
    requires !Contains(e, CLOSE) && forall i :: 0 <= i < |h| ==> StartsNoClose(h, i)
    ensures var f := h + (e + "\n" + CLOSE);
            forall i :: OccursAt(f, CLOSE, i) <==> i == |f| - |CLOSE|
  {
    hide Contains, OccursAt;
    var f := h + (e + "\n" + CLOSE);
    forall i ensures OccursAt(f, CLOSE, i) <==> i == |f| - |CLOSE| {
      if 0 <= i < |h| {
        assert StartsNoClose(h, i);
        NotInHeader(h, e + "\n" + CLOSE, i);
      } else if |h| <= i < |f| - |CLOSE| {
        BodyHasNoClose(h, e, i - |h|);
      } else {
        AtEndOrOutside(h + (e + "\n"), CLOSE, i);
        Reassociate(h, e + "\n", CLOSE);
      }
    }
  }

  lemma AtEndOrOutside(front: string, p: string, i: int)
    requires i < 0 || i >= |front|
    ensures p != "" ==> (OccursAt(front + p, p, i) <==> i == |front|)
  {
  }

  lemma NotInHeader(h: string, rest: string, i: nat)
    requires i < |h| && rest != ""
    requires StartsNoClose(h, i)
    ensures !OccursAt(h + rest, CLOSE, i)
  {
    var f := h + rest;
    assert f[i] == h[i] && (i + 1 < |h| ==> f[i + 1] == h[i + 1]);
    NotStarting(f, i);
  }

  lemma NotStarting(f: string, i: nat)
    requires i + 1 < |f| && (f[i] != '<' || f[i + 1] != '/')
    ensures !OccursAt(f, CLOSE, i)
  {
    assert CLOSE[0] == '<' && CLOSE[1] == '/';
    if i + |CLOSE| <= |f| {
      var piece := f[i..i + |CLOSE|];
      assert piece[0] == f[i] && piece[1] == f[i + 1];
    }
  }

  lemma HeaderHasNoClose(chat: int, i: nat)
    requires i < |Header(chat)|
    ensures StartsNoClose(Header(chat), i)
  {
    var h, n := Header(chat), IntToString(chat);
    if i + 1 < |h| {
      OpenHasNoSlash(i);
      assert i < |OPEN| ==> h[i] == OPEN[i];
      assert i + 1 < |OPEN| ==> h[i + 1] == OPEN[i + 1];
      assert |OPEN| <= i < |OPEN| + |n| ==> h[i] == n[i - |OPEN|];
      assert |OPEN| + |n| <= i ==> h[i] == AFTER_ID[i - |OPEN| - |n|];
    }
  }

  lemma OpenHasNoSlash(i: nat)
    ensures i < |OPEN| ==> (OPEN[i] == '<' ==> i == 0) && OPEN[i] != '/'
  {
  }

  lemma BodyHasNoClose(h: string, e: string, j: nat)
    requires !Contains(e, CLOSE) && j <= |e|
    ensures !OccursAt(h + (e + "\n" + CLOSE), CLOSE, |h| + j)
  {
    var f := h + (e + "\n" + CLOSE);
    OnlyFirst(CLOSE);
    var piece := f[|h| + j..|h| + j + |CLOSE|];
    if j + |CLOSE| <= |e| {
      assert piece == e[j..j + |CLOSE|];
      assert !OccursAt(e, CLOSE, j);
    } else {
      assert piece[|e| - j] == f[|h| + |e|] == '\n';
    }
  }

  // ----- Reading the envelope back

  /** Header, id up to the next quote, body up to the closing tag at the end. */
  function ParseFrame(f: string): Option<(int, string)> {
    if !(OPEN <= f) then None
    else
      var rest := f[|OPEN|..];
      var q := Until(rest, '"');
      match ParseInt(rest[..q])
      case None => None
      case Some(chat) =>
        match BodyOf(rest[q..])
        case None => None
        case Some(body) => Some((chat, body))
  }

  function BodyOf(tail: string): Option<string> {
    if AFTER_ID <= tail && |AFTER_ID| + 1 + |CLOSE| <= |tail| && tail[|tail| - |CLOSE| - 1..] == "\n" + CLOSE
    then Some(tail[|AFTER_ID|..|tail| - |CLOSE| - 1])
    else None
  }

  lemma BodyReadsBack(body: string)
    ensures BodyOf(AFTER_ID + body + ("\n" + CLOSE)) == Some(body)
  {
  }

  /** Chat id and escaped body can be read back; unescaping recovers the text exactly when the text
      had no escaped tag of its own. */
  lemma FrameReadsBack(text: string, chat: int)
    ensures ParseFrame(Frame(text, chat)) == Some((chat, Escape(text)))
    ensures Replace(Escape(text), ESCAPED, CLOSE) == text <==> !Contains(text, ESCAPED)
  {
    IntRoundTrip(chat);
    PiecesReadBack(IntToString(chat), Escape(text), chat);
    TagsAreClear();
    ReplaceRoundTrip(text, CLOSE, ESCAPED);
  }

  lemma PiecesReadBack(n: string, body: string, chat: int)
    requires '"' !in n && ParseInt(n) == Some(chat)
    ensures ParseFrame(OPEN + n + AFTER_ID + body + "\n" + CLOSE) == Some((chat, body))
  {
    var end := "\n" + CLOSE;
    var tail := AFTER_ID + body + end;
    var f := OPEN + n + AFTER_ID + body + "\n" + CLOSE;
    BodyReadsBack(body);
    hide ParseInt, BodyOf;
    assert f == OPEN + (n + tail);
    assert f[|OPEN|..] == n + tail;
    assert (n + tail)[..|n|] == n && (n + tail)[|n|..] == tail;
    UntilAt(n + tail, '"', |n|);
  }

  /** Among texts that bring no escaped tag along, the frame determines chat and text. */
  lemma FrameInjective(a: string, b: string, chat: int, chat': int)
    requires Frame(a, chat) == Frame(b, chat') && !Contains(a, ESCAPED) && !Contains(b, ESCAPED)
    ensures chat == chat' && a == b
  {
    FrameReadsBack(a, chat);
    FrameReadsBack(b, chat');
  }

  /** No other message has this one's frame. */
  ghost predicate FrameIdentifies(a: string, chat: int) {
    forall b, c :: Frame(b, c) == Frame(a, chat) ==> b == a && c == chat
  }

  /** Among all texts, exactly those are determined by their frame that hold neither the tag nor its
      escaped form. */
  lemma FrameInjectiveExactly(a: string, chat: int)
    ensures FrameIdentifies(a, chat) <==> !Contains(a, CLOSE) && !Contains(a, ESCAPED)
  {
    hide Frame, Escape, Contains, Replace;
    if Contains(a, CLOSE) || Contains(a, ESCAPED) {
      var b := FrameTwin(a, chat);
      assert Frame(b, chat) == Frame(a, chat) && b != a;
    } else {
      forall b, c | Frame(b, c) == Frame(a, chat) ensures b == a && c == chat {
        FrameReadsBack(a, chat);
        FrameReadsBack(b, c);
        PlainTextOnlyFromItself(a, b);
      }
    }
  }

  /** A text with either tag shares its frame with another text, in every chat. */
  lemma FrameTwin(a: string, chat: int) returns (b: string)
    requires Contains(a, CLOSE) || Contains(a, ESCAPED)
    ensures b != a && Frame(b, chat) == Frame(a, chat)
  {
    hide Contains, Replace;
    TagsAreClear();
    if Contains(a, CLOSE) {
      b := Escape(a);
      ReplaceBringsNone(a, CLOSE, ESCAPED, CLOSE);
      ReplaceAbsent(b, CLOSE, ESCAPED);
    } else {
      b := Replace(a, ESCAPED, CLOSE);
      ReplaceBringsSome(a, ESCAPED, CLOSE);
      forall k | 0 < k < |CLOSE| ensures !Agrees(CLOSE, CLOSE, k) { Unaligned(CLOSE, CLOSE, k); }
      ReplaceRoundTrip(a, ESCAPED, CLOSE);
      ReplaceAbsent(a, CLOSE, ESCAPED);
    }
  }

  lemma PlainTextOnlyFromItself(a: string, b: string)
    requires !Contains(a, CLOSE) && !Contains(a, ESCAPED) && Escape(b) == Escape(a)
    ensures b == a
  {
    hide Contains, Replace;
    ReplaceAbsent(a, CLOSE, ESCAPED);
    if Contains(b, CLOSE) {
      ReplaceBringsSome(b, CLOSE, ESCAPED);
      assert false;
    }
    ReplaceAbsent(b, CLOSE, ESCAPED);
  }

  // ----- The fallback chain

  datatype CallOutcome = Reply(text: string) | Raise(exception: string)

  datatype Attempt = Attempt(provider: string, model: string, exception: string)

  datatype ChainResult =
    | Answered(text: string)
    | PrimaryRaised(exception: string)
    | AllProvidersFailed(attempts: seq<Attempt>)

  /** The attempts of a chain of which every call raised. */
  function Attempts(chain: seq<Resolved>, outcomes: nat -> CallOutcome): seq<Attempt>
    requires forall i :: 0 <= i < |chain| ==> outcomes(i).Raise?
  {
    seq(|chain|, i requires 0 <= i < |chain| => Attempt(chain[i].provider, chain[i].model, outcomes(i).exception))
  }

  /** `outcomes(i)` is what the i-th call of this message does. `calls` records the providers asked. */
  method ReplyWithFallback(primary: Resolved, fallbacks: seq<Resolved>, outcomes: nat -> CallOutcome)
    returns (result: ChainResult, calls: seq<Resolved>)
    ensures 1 <= |calls| <= 1 + |fallbacks| && calls == ([primary] + fallbacks)[..|calls|]
    ensures forall i :: 0 <= i < |calls| - 1 ==> outcomes(i).Raise?
    ensures result.Answered? <==> outcomes(|calls| - 1).Reply?
    ensures result.Answered? ==> result.text == outcomes(|calls| - 1).text
    ensures !result.Answered? ==> calls == [primary] + fallbacks
    ensures result.PrimaryRaised? <==> fallbacks == [] && outcomes(0).Raise?
    ensures result.PrimaryRaised? ==> result.exception == outcomes(0).exception
    ensures result.AllProvidersFailed? <==> fallbacks != [] && forall i :: 0 <= i <= |fallbacks| ==> outcomes(i).Raise?
    ensures result.AllProvidersFailed? ==>
              && |result.attempts| == 1 + |fallbacks|
              && forall i :: 0 <= i <= |fallbacks| ==>
                   var asked := if i == 0 then primary else fallbacks[i - 1];
                   result.attempts[i] == Attempt(asked.provider, asked.model, outcomes(i).exception)
    ensures result == ChainAnswer([primary] + fallbacks, outcomes) && calls == Asks([primary] + fallbacks, outcomes)
  {
    var chain := [primary] + fallbacks;
    calls := [];
    if fallbacks == [] {
      calls := [primary];
      var outcome := outcomes(0);
      ChainAnswerAt(chain, outcomes, if outcome.Reply? then 0 else 1);
      return if outcome.Reply? then Answered(outcome.text) else PrimaryRaised(outcome.exception), calls;
    }
    var attempts: seq<Attempt> := [];
    for idx := 0 to |chain|
      invariant calls == chain[..idx] && |attempts| == idx
      invariant forall i :: 0 <= i < idx ==> outcomes(i).Raise?
      invariant forall i :: 0 <= i < idx ==> attempts[i] == Attempt(chain[i].provider, chain[i].model, outcomes(i).exception)
    {
      calls := calls + [chain[idx]];
      var outcome := outcomes(idx);
      if outcome.Reply? {
        ChainAnswerAt(chain, outcomes, idx);
        return Answered(outcome.text), calls;
      }
      attempts := attempts + [Attempt(chain[idx].provider, chain[idx].model, outcome.exception)];
    }
    ChainAnswerAt(chain, outcomes, |chain|);
    return AllProvidersFailed(attempts), calls;
  }

  /** The index of the first call that answers, or the length of the chain. */
  function FirstReply(n: nat, outcomes: nat -> CallOutcome): (k: nat)
    ensures k <= n && (forall i :: 0 <= i < k ==> outcomes(i).Raise?) && (k < n ==> outcomes(k).Reply?)
  {
    if n == 0 then 0
    else
      var k := FirstReply(n - 1, outcomes);
      if k < n - 1 || outcomes(n - 1).Reply? then k else n
  }

  function ChainAnswer(chain: seq<Resolved>, outcomes: nat -> CallOutcome): ChainResult
    requires chain != []
  {
    var k := FirstReply(|chain|, outcomes);
    if k < |chain| then Answered(outcomes(k).text)
    else if |chain| == 1 then PrimaryRaised(outcomes(0).exception)
    else AllProvidersFailed(Attempts(chain, outcomes))
  }

  /** The providers asked: up to and including the first that answers. */
  function Asks(chain: seq<Resolved>, outcomes: nat -> CallOutcome): seq<Resolved>
    requires chain != []
  {
    var k := FirstReply(|chain|, outcomes);
    if k < |chain| then chain[..k + 1] else chain
  }

  lemma ChainAnswerAt(chain: seq<Resolved>, outcomes: nat -> CallOutcome, k: nat)
    requires chain != [] && k <= |chain| && (forall i :: 0 <= i < k ==> outcomes(i).Raise?) && (k < |chain| ==> outcomes(k).Reply?)
    ensures FirstReply(|chain|, outcomes) == k
  {
  }

  /** One message to an agent of an accepted configuration never asks the same model twice, and gives
      up only after asking every model of the chain. */
  lemma CallsDistinct(cfg: Config, env: Environ, agent: string, chain: seq<Resolved>, outcomes: nat -> CallOutcome)
    requires Accepted(cfg) && agent in cfg.agents && ResolvesTo(cfg, env, Refs(cfg, cfg.agents[agent].model), chain)
    ensures chain != [] && Asks(chain, outcomes) <= chain && |Asks(chain, outcomes)| <= FALLBACK_MAX_LENGTH + 1
    ensures Distinct(Pairs(Asks(chain, outcomes)))
    ensures !ChainAnswer(chain, outcomes).Answered? ==> Asks(chain, outcomes) == chain && forall i :: 0 <= i < |chain| ==> outcomes(i).Raise?
  {
    hide Accepted, ResolvesTo;
    ChainDistinct(cfg, env, agent, chain);
    var calls := Asks(chain, outcomes);
    forall i, j | 0 <= i < j < |calls| ensures Pairs(calls)[i] != Pairs(calls)[j] {
      assert Pairs(chain)[i] != Pairs(chain)[j];
    }
  }
}
