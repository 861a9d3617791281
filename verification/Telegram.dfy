/** The Telegram connector: its environment, and the handler run once per update. The model calls,
    the store and the send may each fail; an oracle says what happens. */
module Telegram {
  import opened Environment
  import M = Memory
  import opened Numbers
  import opened Registry
  import opened Runtime
  import opened Sorting
  import T = Text
  import opened Wrappers

  // ----- The environment

  datatype EnvError = NoToken | NoIds | InvalidInteger | NoValidIds

  /** The ids of a list of segments, blank ones skipped; None when one is not an integer. */
  function Ids(segments: seq<string>): Option<set<int>> {
    if segments == [] then Some({})
    else
      var before, s := Ids(segments[..|segments| - 1]), Strip(segments[|segments| - 1]);
      if before == None || s == "" then before
      else match ParseInt(s)
        case None => None
        case Some(id) => Some(before.value + {id})
  }

  /** Some segment that is not blank is not an integer. */
  ghost predicate Malformed(segments: seq<string>) {
    exists s :: s in segments && Strip(s) != "" && ParseInt(Strip(s)) == None
  }

  /** Some segment that is not blank reads as this id. */
  ghost predicate Mentions(segments: seq<string>, id: int) {
    exists s :: s in segments && Strip(s) != "" && ParseInt(Strip(s)) == Some(id)
  }

  lemma {:induction false} IdsMeaning(segments: seq<string>)
    ensures Ids(segments) == None <==> Malformed(segments)
    ensures Ids(segments).Some? ==> forall id :: id in Ids(segments).value <==> Mentions(segments, id)
  {
    hide ParseInt, Strip;
    if segments != [] {
      var front, last := segments[..|segments| - 1], segments[|segments| - 1];
      assert segments == front + [last];
      IdsMeaning(front);
    }
  }

  /** _load_env: the first check that fails decides the error; otherwise the stripped token and
      exactly the ids that the list mentions. */
  method LoadEnv(env: Environ) returns (r: Result<(string, set<int>), EnvError>)
    ensures r == LoadedEnv(env)
    ensures var token, raw := Strip(Get(env, "TELEGRAM_BOT_TOKEN")), Strip(Get(env, "ALLOWED_TELEGRAM_CHAT_IDS"));
            && (r == Err(NoToken) <==> token == "")
            && (r == Err(NoIds) <==> token != "" && raw == "")
            && (r == Err(InvalidInteger) <==> token != "" && raw != "" && Malformed(SplitOn(raw, ',')))
            && (r == Err(NoValidIds) <==> token != "" && raw != "" && forall s :: s in SplitOn(raw, ',') ==> Strip(s) == "")
            && (r.Ok? ==> r.value.0 == token && forall id :: id in r.value.1 <==> Mentions(SplitOn(raw, ','), id))
  {
    hide Strip, Get, ParseInt, SplitOn, Ids;
    var token := Strip(Get(env, TOKEN_NAME));
    if token == "" {
      return Err(NoToken);
    }
    var raw := Strip(Get(env, IDS_NAME));
    if raw == "" {
      return Err(NoIds);
    }
    var ids := ParseIds(SplitOn(raw, ','));
    IdsMeaning(SplitOn(raw, ','));
    if ids == None {
      return Err(InvalidInteger);
    }
    NoneMentioned(SplitOn(raw, ','), ids.value);
    if ids.value == {} {
      return Err(NoValidIds);
    }
    return Ok((token, ids.value));
  }

  lemma NoneMentioned(segments: seq<string>, ids: set<int>)
    requires !Malformed(segments) && forall id :: id in ids <==> Mentions(segments, id)
    ensures ids == {} <==> forall s :: s in segments ==> Strip(s) == ""
  {
    hide Strip, ParseInt;
    if s :| s in segments && Strip(s) != "" {
      assert ParseInt(Strip(s)).Some? && Mentions(segments, ParseInt(Strip(s)).value);
    }
    if forall s :: s in segments ==> Strip(s) == "" {
      forall id ensures id !in ids { assert !Mentions(segments, id); }
      assert ids == {};
    }
  }

  method ParseIds(segments: seq<string>) returns (r: Option<set<int>>)
    ensures r == Ids(segments)
  {
    hide ParseInt, Strip;
    var allowlist: set<int> := {};
    for i := 0 to |segments|
      invariant Ids(segments[..i]) == Some(allowlist)
    {
      assert segments[..i + 1][..i] == segments[..i];
      var s := Strip(segments[i]);
      if s != "" {
        var id := ParseInt(s);
        if id == None {
          IdsPrefixFails(segments, i + 1);
          return None;
        }
        allowlist := allowlist + {id.value};
      }
    }
    assert segments[..|segments|] == segments;
    return Some(allowlist);
  }

  lemma {:induction false} IdsPrefixFails(segments: seq<string>, n: nat)
    requires n <= |segments| && Ids(segments[..n]) == None
    ensures Ids(segments) == None
    decreases |segments|
  {
    hide ParseInt, Strip;
    if n < |segments| {
      assert segments[..|segments| - 1][..n] == segments[..n];
      IdsPrefixFails(segments[..|segments| - 1], n);
    } else {
      assert segments[..n] == segments;
    }
  }

  function LoadedEnv(env: Environ): Result<(string, set<int>), EnvError> {
    var token, raw := Strip(Get(env, TOKEN_NAME)), Strip(Get(env, IDS_NAME));
    if token == "" then Err(NoToken)
    else if raw == "" then Err(NoIds)
    else match Ids(SplitOn(raw, ','))
      case None => Err(InvalidInteger)
      case Some(ids) => if ids == {} then Err(NoValidIds) else Ok((token, ids))
  }

  // ----- Truncation

  const MAX_TEXT := 4096
  const TRUNCATION_MARKER := "\n\U{2026}[truncated]"
  const HISTORY_LIMIT := 20
  const STATUS := "Having trouble reaching the LLM right now, please try again in a minute."

  function Truncate(text: string): (r: string)
    ensures |r| == if |text| <= 4096 then |text| else 4096
    ensures |text| <= 4096 ==> r == text
    ensures |text| > 4096 ==> exists k :: 0 <= k <= |text| && r == text[..k] + "\n\U{2026}[truncated]"
  {
    if |text| <= MAX_TEXT then text
    else
      var keep := MAX_TEXT - |TRUNCATION_MARKER|;
      text[..keep] + TRUNCATION_MARKER
  }

  // ----- One update

  /** What an update carries: a message without text has text None. */
  datatype Update = Update(chat: Option<int>, text: Option<string>)

  /** What the world does while an update is handled. A failing append stores nothing (the insert is
      one transaction); `calls(i)` is the i-th provider call; an undelivered send may or may not raise. */
  datatype Oracle = Oracle(userTs: int, userStored: bool, historyRead: bool, calls: nat -> CallOutcome,
                           replyTs: int, replyStored: bool, delivered: bool)

  datatype Event =
    | Stored(row: M.Row)
    | Asked(chat: int, history: seq<M.Turn>, asked: seq<Resolved>, result: ChainResult)
    | Sent(to: int, text: string)
    | SendFailed(to: int, text: string)

  function IsAllowed(chat: int, allowlist: set<int>): bool { chat in allowlist }

  predicate Admitted(u: Update, allowlist: set<int>) {
    u.chat.Some? && u.text.Some? && IsAllowed(u.chat.value, allowlist)
  }

  function Delivery(to: int, text: string, delivered: bool): Event {
    if delivered then Sent(to, text) else SendFailed(to, text)
  }

  /** Everything one update does, in order; `rows` is the store it finds. */
  function EventsBy(rows: seq<M.Row>, allowlist: set<int>, chain: seq<Resolved>, u: Update, o: Oracle): seq<Event>
    requires chain != []
  {
    if !Admitted(u, allowlist) || !o.userStored then []
    else
      var chat := u.chat.value;
      var userRow := M.Row(chat, o.userTs, M.User, u.text.value);
      [Stored(userRow)]
      + (if !o.historyRead then [] else ReplyEvents(M.Window(rows + [userRow], chat, HISTORY_LIMIT), chain, chat, o))
  }

  function ReplyEvents(history: seq<M.Turn>, chain: seq<Resolved>, chat: int, o: Oracle): seq<Event>
    requires chain != []
  {
    var result := ChainAnswer(chain, o.calls);
    [Asked(chat, history, Asks(chain, o.calls), result)]
    + (match result
       case PrimaryRaised(_) => []
       case AllProvidersFailed(_) => [Delivery(chat, STATUS, o.delivered)]
       case Answered(text) => AnswerEvents(chat, Truncate(text), o))
  }

  function AnswerEvents(chat: int, outbound: string, o: Oracle): seq<Event> {
    if !o.replyStored then []
    else [Stored(M.Row(chat, o.replyTs, M.Assistant, outbound)), Delivery(chat, outbound, o.delivered)]
  }

  function RowsOf(e: Event): seq<M.Row> {
    if e.Stored? then [e.row] else []
  }

  function StoredRows(log: seq<Event>): seq<M.Row> {
    if log == [] then [] else StoredRows(log[..|log| - 1]) + RowsOf(log[|log| - 1])
  }

  lemma {:induction false} StoredRowsConcat(a: seq<Event>, b: seq<Event>)
    ensures StoredRows(a + b) == StoredRows(a) + StoredRows(b)
  {
    if b == [] {
      assert a + b == a;
    } else {
      var front, last := b[..|b| - 1], b[|b| - 1];
      StoredRowsConcat(a, front);
      assert (a + b)[..|a + b| - 1] == a + front;
      T.Reassociate(StoredRows(a), StoredRows(front), RowsOf(last));
    }
  }

  lemma StoredRowsOne(e: Event)
    ensures StoredRows([]) == [] && StoredRows([e]) == RowsOf(e)
  {
    assert [e][..0] == [];
  }

  lemma StoredRowsAppend(log: seq<Event>, e: Event)
    ensures StoredRows(log + [e]) == StoredRows(log) + RowsOf(e)
  {
    assert (log + [e])[..|log|] == log;
  }

  class Connector {
    const allowlist: set<int>
    const chain: seq<Resolved>
    const memory: M.Store
    /** What the handler did to the store, the providers and the chats. */
    var journal: seq<Event>

    constructor (allowlist: set<int>, primary: Resolved, fallbacks: seq<Resolved>, memory: M.Store)
      ensures this.allowlist == allowlist && this.chain == [primary] + fallbacks && this.memory == memory && journal == []
    {
      this.allowlist, this.chain, this.memory, journal := allowlist, [primary] + fallbacks, memory, [];
    }

    method Handle(u: Update, o: Oracle)
      requires chain != []
      modifies this`journal, memory
      ensures journal == old(journal) + EventsBy(old(memory.rows), allowlist, chain, u, o)
      ensures memory.rows == old(memory.rows) + StoredRows(EventsBy(old(memory.rows), allowlist, chain, u, o))
    {
      if u.chat == None || u.text == None {
        return;
      }
      var chat, text := u.chat.value, u.text.value;
      if !IsAllowed(chat, allowlist) {
        return;
      }
      if !o.userStored {
        return;
      }
      memory.Append(chat, M.User, text, o.userTs);
      var userRow := M.Row(chat, o.userTs, M.User, text);
      journal := journal + [Stored(userRow)];
      StoredRowsOne(Stored(userRow));
      hide ReplyEvents, StoredRows, M.Window;
      if !o.historyRead {
        return;
      }
      var history := memory.History(chat, HISTORY_LIMIT);
      ghost var reply := ReplyEvents(history, chain, chat, o);
      StoredRowsConcat([Stored(userRow)], reply);
      T.Reassociate(old(memory.rows), [userRow], StoredRows(reply));
      T.Reassociate(old(journal), [Stored(userRow)], reply);
      Answer(chat, history, o);
    }

    /** The second half of the handler: ask the chain, store and send what it says. */
    method Answer(chat: int, history: seq<M.Turn>, o: Oracle)
      requires chain != []
      modifies this`journal, memory
      ensures journal == old(journal) + ReplyEvents(history, chain, chat, o)
      ensures memory.rows == old(memory.rows) + StoredRows(ReplyEvents(history, chain, chat, o))
    {
      hide ChainAnswer, Asks, Truncate, StoredRows, AnswerEvents;
      assert [chain[0]] + chain[1..] == chain;
      var result, asked := ReplyWithFallback(chain[0], chain[1..], o.calls);
      var ask := Asked(chat, history, asked, result);
      journal := journal + [ask];
      StoredRowsOne(ask);
      match result {
        case PrimaryRaised(_) =>
          assert [ask] + [] == [ask];
        case AllProvidersFailed(_) =>
          var sent := Delivery(chat, STATUS, o.delivered);
          journal := journal + [sent];
          StoredRowsAppend([ask], sent);
        case Answered(replyText) =>
          var outbound := Truncate(replyText);
          StoredRowsConcat([ask], AnswerEvents(chat, outbound, o));
          PersistAndSend(chat, outbound, o);
      }
    }

    /** The truncated reply is stored before it is sent. */
    method PersistAndSend(chat: int, outbound: string, o: Oracle)
      modifies this`journal, memory
      ensures journal == old(journal) + AnswerEvents(chat, outbound, o)
      ensures memory.rows == old(memory.rows) + StoredRows(AnswerEvents(chat, outbound, o))
    {
      hide StoredRows;
      if o.replyStored {
        memory.Append(chat, M.Assistant, outbound, o.replyTs);
        var stored, sent := Stored(M.Row(chat, o.replyTs, M.Assistant, outbound)), Delivery(chat, outbound, o.delivered);
        journal := journal + [stored];
        journal := journal + [sent];
        StoredRowsOne(stored);
        StoredRowsAppend([stored], sent);
        assert [stored, sent] == [stored] + [sent];
      } else {
        StoredRowsOne(Delivery(chat, outbound, true));
      }
    }

    /** The polling loop: updates are handled one at a time. */
    method RunPolling(inputs: seq<(Update, Oracle)>)
      requires chain != []
      modifies this`journal, memory
      ensures journal == old(journal) + RunEvents(old(memory.rows), allowlist, chain, inputs)
      ensures memory.rows == old(memory.rows) + StoredRows(RunEvents(old(memory.rows), allowlist, chain, inputs))
    {
      hide EventsBy;
      ghost var start := memory.rows;
      for i := 0 to |inputs|
        invariant journal == old(journal) + RunEvents(start, allowlist, chain, inputs[..i])
        invariant memory.rows == start + StoredRows(RunEvents(start, allowlist, chain, inputs[..i]))
      {
        ghost var before := RunEvents(start, allowlist, chain, inputs[..i]);
        ghost var events := EventsBy(memory.rows, allowlist, chain, inputs[i].0, inputs[i].1);
        RunStep(start, allowlist, chain, inputs, i);
        StoredRowsConcat(before, events);
        T.Reassociate(start, StoredRows(before), StoredRows(events));
        T.Reassociate(old(journal), before, events);
        Handle(inputs[i].0, inputs[i].1);
      }
      assert inputs[..|inputs|] == inputs;
    }
  }

  lemma RunStep(rows: seq<M.Row>, allowlist: set<int>, chain: seq<Resolved>, inputs: seq<(Update, Oracle)>, i: nat)
    requires chain != [] && i < |inputs|
    ensures var before := RunEvents(rows, allowlist, chain, inputs[..i]);
            RunEvents(rows, allowlist, chain, inputs[..i + 1])
            == before + EventsBy(rows + StoredRows(before), allowlist, chain, inputs[i].0, inputs[i].1)
  {
    hide EventsBy;
    assert inputs[..i + 1][..i] == inputs[..i];
  }

  /** The journal of a whole run, starting from the rows of an earlier one. */
  function RunEvents(rows: seq<M.Row>, allowlist: set<int>, chain: seq<Resolved>, inputs: seq<(Update, Oracle)>): seq<Event>
    requires chain != []
  {
    if inputs == [] then []
    else
      var before := RunEvents(rows, allowlist, chain, inputs[..|inputs| - 1]);
      var (u, o) := inputs[|inputs| - 1];
      before + EventsBy(rows + StoredRows(before), allowlist, chain, u, o)
  }

  // ----- What every run keeps in the store

  /** `user`, optionally followed by `assistant`, repeated. */
  predicate TurnTaking(roles: seq<M.Row>) {
    forall i :: 0 <= i < |roles| && roles[i].role == M.Assistant ==> i > 0 && roles[i - 1].role == M.User
  }

  ghost predicate StoreInv(rows: seq<M.Row>, allowlist: set<int>) {
    && (forall i :: 0 <= i < |rows| ==> rows[i].chat in allowlist)
    && forall chat :: TurnTaking(M.ChatRows(rows, chat))
  }

  lemma {:induction false} ChatRowsConcat(a: seq<M.Row>, b: seq<M.Row>, chat: int)
    ensures M.ChatRows(a + b, chat) == M.ChatRows(a, chat) + M.ChatRows(b, chat)
  {
    if b == [] {
      assert a + b == a;
    } else {
      var front := b[..|b| - 1];
      assert (a + b)[..|a + b| - 1] == a + front;
      ChatRowsConcat(a, front, chat);
      T.Reassociate(M.ChatRows(a, chat), M.ChatRows(front, chat), if b[|b| - 1].chat == chat then [b[|b| - 1]] else []);
    }
  }

  /** A message with text from a chat in the allow-list, whatever its id, is stored, asked about with the
      window that ends in it, and answered as the chain says; the truncated answer is stored even if it
      cannot be sent, and a failed store or exhausted chain leaves what is listed here and no more. */
  lemma AllowedMessageIsHandled(rows: seq<M.Row>, allowlist: set<int>, chain: seq<Resolved>, chat: int, text: string, o: Oracle)
    requires chain != [] && chat in allowlist && o.userStored
    ensures var e := EventsBy(rows, allowlist, chain, Update(Some(chat), Some(text)), o);
            var row := M.Row(chat, o.userTs, M.User, text);
            && e != [] && e[0] == Stored(row) && (|e| == 1 <==> !o.historyRead)
            && (o.historyRead ==> e[1] == Asked(chat, M.Window(rows + [row], chat, 20), Asks(chain, o.calls), ChainAnswer(chain, o.calls)))
            && (o.historyRead ==>
                  match ChainAnswer(chain, o.calls)
                  case PrimaryRaised(_) => |e| == 2
                  case AllProvidersFailed(_) =>
                    var status := "Having trouble reaching the LLM right now, please try again in a minute.";
                    |e| == 3 && e[2] == if o.delivered then Sent(chat, status) else SendFailed(chat, status)
                  case Answered(reply) =>
                    if !o.replyStored then |e| == 2
                    else && |e| == 4 && e[2] == Stored(M.Row(chat, o.replyTs, M.Assistant, Truncate(reply)))
                         && e[3] == if o.delivered then Sent(chat, Truncate(reply)) else SendFailed(chat, Truncate(reply)))
  {
    hide M.Window, Truncate, ChainAnswer, Asks;
  }

  /** Nothing at all happens for an update without a chat or text, or from a chat that is not listed. */
  lemma OtherUpdatesAreDropped(rows: seq<M.Row>, allowlist: set<int>, chain: seq<Resolved>, u: Update, o: Oracle)
    requires chain != []
    ensures EventsBy(rows, allowlist, chain, u, o) == [] <==>
              u.chat == None || u.text == None || u.chat.value !in allowlist || !o.userStored
  {
  }

  /** One update stores nothing, a user row, or a user row and an assistant row of one allowed chat. */
  lemma UpdateStores(rows: seq<M.Row>, allowlist: set<int>, chain: seq<Resolved>, u: Update, o: Oracle)
    requires chain != []
    ensures var added := StoredRows(EventsBy(rows, allowlist, chain, u, o));
            && (added == [] <==> u.chat == None || u.text == None || u.chat.value !in allowlist || !o.userStored)
            && |added| <= 2
            && (|added| >= 1 ==> added[0] == M.Row(u.chat.value, o.userTs, M.User, u.text.value) && added[0].chat in allowlist)
            && (|added| == 2 ==> added[1].role == M.Assistant && added[1].chat == u.chat.value)
  {
    hide M.Window, ReplyEvents;
    if Admitted(u, allowlist) && o.userStored {
      var userRow := M.Row(u.chat.value, o.userTs, M.User, u.text.value);
      StoredRowsAppend([], Stored(userRow));
      if o.historyRead {
        ReplyAdds(userRow, M.Window(rows + [userRow], u.chat.value, HISTORY_LIMIT), chain, o);
      }
    }
  }

  lemma ReplyAdds(userRow: M.Row, history: seq<M.Turn>, chain: seq<Resolved>, o: Oracle)
    requires chain != []
    ensures var added := StoredRows([Stored(userRow)] + ReplyEvents(history, chain, userRow.chat, o));
            && 1 <= |added| <= 2 && added[0] == userRow
            && (|added| == 2 ==> added[1].role == M.Assistant && added[1].chat == userRow.chat)
  {
    hide ChainAnswer, Asks, Truncate, StoredRows;
    var reply := ReplyEvents(history, chain, userRow.chat, o);
    StoredRowsOne(Stored(userRow));
    StoredRowsConcat([Stored(userRow)], reply);
    ReplyStores(reply);
  }

  lemma ReplyStores(reply: seq<Event>)
    requires 1 <= |reply| <= 3 && reply[0].Asked?
    requires |reply| == 2 ==> !reply[1].Stored?
    requires |reply| == 3 ==> reply[1].Stored? && !reply[2].Stored?
    ensures StoredRows(reply) == if |reply| == 3 then [reply[1].row] else []
  {
    hide StoredRows;
    StoredRowsOne(reply[0]);
    if |reply| == 1 {
      assert reply == [reply[0]];
    } else {
      StoredRowsAppend([reply[0]], reply[1]);
      if |reply| == 2 {
        assert reply == [reply[0]] + [reply[1]];
      } else {
        StoredRowsAppend([reply[0]] + [reply[1]], reply[2]);
        assert reply == [reply[0]] + [reply[1]] + [reply[2]];
      }
    }
  }

  /** In every run, whatever fails, each stored row belongs to an allowed chat and each chat's rows
      take turns. */
  lemma {:induction false} RunKeepsStoreInv(rows: seq<M.Row>, allowlist: set<int>, chain: seq<Resolved>, inputs: seq<(Update, Oracle)>)
    requires chain != [] && StoreInv(rows, allowlist)
    ensures StoreInv(rows + StoredRows(RunEvents(rows, allowlist, chain, inputs)), allowlist)
  {
    hide EventsBy;
    if inputs == [] {
      assert rows + [] == rows;
    } else {
      var front := inputs[..|inputs| - 1];
      var (u, o) := inputs[|inputs| - 1];
      RunKeepsStoreInv(rows, allowlist, chain, front);
      var before := RunEvents(rows, allowlist, chain, front);
      var now := rows + StoredRows(before);
      var added := EventsBy(now, allowlist, chain, u, o);
      UpdateStores(now, allowlist, chain, u, o);
      StoredRowsConcat(before, added);
      T.Reassociate(rows, StoredRows(before), StoredRows(added));
      AddedKeepStoreInv(now, allowlist, StoredRows(added));
    }
  }

  lemma AddedKeepStoreInv(rows: seq<M.Row>, allowlist: set<int>, added: seq<M.Row>)
    requires StoreInv(rows, allowlist) && |added| <= 2
    requires |added| >= 1 ==> added[0].role == M.User && added[0].chat in allowlist
    requires |added| == 2 ==> added[1].chat == added[0].chat
    ensures StoreInv(rows + added, allowlist)
  {
    forall chat ensures TurnTaking(M.ChatRows(rows + added, chat)) {
      ChatRowsConcat(rows, added, chat);
      assert TurnTaking(M.ChatRows(rows, chat));
      FewChatRows(added, chat);
      TurnsExtend(M.ChatRows(rows, chat), M.ChatRows(added, chat));
    }
  }

  lemma TurnsExtend(rows: seq<M.Row>, added: seq<M.Row>)
    requires TurnTaking(rows) && |added| <= 2 && (added != [] ==> added[0].role == M.User)
    ensures TurnTaking(rows + added)
  {
  }

  lemma FewChatRows(added: seq<M.Row>, chat: int)
    requires |added| <= 2 && (|added| == 2 ==> added[1].chat == added[0].chat)
    ensures M.ChatRows(added, chat) == if added != [] && added[0].chat == chat then added else []
  {
    if |added| == 1 {
      assert added[..0] == [];
    } else if |added| == 2 {
      assert added[..1] == [added[0]] && added[..1][..0] == [];
    }
  }

  // ----- What is stored agrees with what is sent

  /** How the events of a run hang together: a question follows the user row it answers, an
      assistant row follows the answer it truncates and is followed by its delivery or a failed
      send, and nothing is sent but a stored assistant row or the status line after an exhausted
      chain. */
  ghost predicate Orderly(log: seq<Event>, chain: seq<Resolved>) {
    forall i :: 0 <= i < |log| ==> OrderlyAt(log, chain, i)
  }

  ghost predicate OrderlyAt(log: seq<Event>, chain: seq<Resolved>, i: int)
    requires 0 <= i < |log|
  {
    match log[i]
    case Stored(row) =>
      row.role == M.Assistant ==>
        && i > 0 && log[i - 1].Asked? && log[i - 1].chat == row.chat
        && log[i - 1].result.Answered? && row.content == Truncate(log[i - 1].result.text)
        && i + 1 < |log| && IsDelivery(log[i + 1], row.chat, row.content)
    case Asked(chat, history, asked, result) =>
      && i > 0 && log[i - 1].Stored? && log[i - 1].row.chat == chat && log[i - 1].row.role == M.User
      && asked <= chain && asked != []
      && (result.AllProvidersFailed? ==> asked == chain && |chain| > 1 && i + 1 < |log| && IsDelivery(log[i + 1], chat, STATUS))
      && (result.PrimaryRaised? ==> |chain| == 1)
    case _ => i > 0 && DeliversPrevious(log[i - 1], log[i])
  }

  predicate IsDelivery(e: Event, to: int, text: string) {
    e == Sent(to, text) || e == SendFailed(to, text)
  }

  predicate DeliversPrevious(cause: Event, e: Event) {
    match cause
    case Stored(row) => row.role == M.Assistant && IsDelivery(e, row.chat, row.content)
    case Asked(chat, _, _, result) => result.AllProvidersFailed? && IsDelivery(e, chat, STATUS)
    case _ => false
  }

  lemma UpdateOrderly(rows: seq<M.Row>, allowlist: set<int>, chain: seq<Resolved>, u: Update, o: Oracle)
    requires chain != []
    ensures Orderly(EventsBy(rows, allowlist, chain, u, o), chain)
  {
    hide M.Window, ReplyEvents;
    if Admitted(u, allowlist) && o.userStored {
      var userRow := M.Row(u.chat.value, o.userTs, M.User, u.text.value);
      if o.historyRead {
        ReplyOrderly(M.Window(rows + [userRow], u.chat.value, HISTORY_LIMIT), chain, userRow, o);
      }
    }
  }

  lemma ReplyOrderly(history: seq<M.Turn>, chain: seq<Resolved>, userRow: M.Row, o: Oracle)
    requires chain != [] && userRow.role == M.User
    ensures Orderly([Stored(userRow)] + ReplyEvents(history, chain, userRow.chat, o), chain)
  {
    hide Truncate;
    var reply := ReplyEvents(history, chain, userRow.chat, o);
    var e := [Stored(userRow)] + reply;
    assert forall i :: 1 <= i < |e| ==> e[i] == reply[i - 1];
  }

  lemma OrderlyConcat(a: seq<Event>, b: seq<Event>, chain: seq<Resolved>)
    requires Orderly(a, chain) && Orderly(b, chain)
    ensures Orderly(a + b, chain)
  {
    var log := a + b;
    forall i | 0 <= i < |log| ensures OrderlyAt(log, chain, i) {
      if i < |a| {
        assert OrderlyAt(a, chain, i);
      } else {
        assert OrderlyAt(b, chain, i - |a|);
      }
    }
  }

  lemma {:induction false} RunOrderly(rows: seq<M.Row>, allowlist: set<int>, chain: seq<Resolved>, inputs: seq<(Update, Oracle)>)
    requires chain != []
    ensures Orderly(RunEvents(rows, allowlist, chain, inputs), chain)
  {
    if inputs != [] {
      var front := inputs[..|inputs| - 1];
      var (u, o) := inputs[|inputs| - 1];
      RunOrderly(rows, allowlist, chain, front);
      var before := RunEvents(rows, allowlist, chain, front);
      UpdateOrderly(rows + StoredRows(before), allowlist, chain, u, o);
      OrderlyConcat(before, EventsBy(rows + StoredRows(before), allowlist, chain, u, o), chain);
    }
  }

  function Messages(log: seq<Event>): nat {
    if log == [] then 0 else (if log[0].Sent? then 1 else 0) + Messages(log[1..])
  }

  lemma {:induction false} MessagesConcat(a: seq<Event>, b: seq<Event>)
    ensures Messages(a + b) == Messages(a) + Messages(b)
  {
    if a == [] {
      assert a + b == b;
    } else {
      assert (a + b)[1..] == a[1..] + b;
      MessagesConcat(a[1..], b);
    }
  }

  /** At most one message goes out per update, and none for updates that are dropped. */
  lemma {:induction false} RunSendsAtMostOnePerUpdate(rows: seq<M.Row>, allowlist: set<int>, chain: seq<Resolved>, inputs: seq<(Update, Oracle)>)
    requires chain != []
    ensures Messages(RunEvents(rows, allowlist, chain, inputs)) <= AdmittedCount(inputs, allowlist)
  {
    NoMessages();
    hide EventsBy, Messages;
    if inputs != [] {
      var front := inputs[..|inputs| - 1];
      var (u, o) := inputs[|inputs| - 1];
      RunSendsAtMostOnePerUpdate(rows, allowlist, chain, front);
      var before := RunEvents(rows, allowlist, chain, front);
      var e := EventsBy(rows + StoredRows(before), allowlist, chain, u, o);
      MessagesConcat(before, e);
      UpdateSendsAtMostOne(rows + StoredRows(before), allowlist, chain, u, o);
    }
  }

  lemma NoMessages()
    ensures Messages([]) == 0
  {
  }

  lemma UpdateSendsAtMostOne(rows: seq<M.Row>, allowlist: set<int>, chain: seq<Resolved>, u: Update, o: Oracle)
    requires chain != []
    ensures Messages(EventsBy(rows, allowlist, chain, u, o)) <= if FromListed(u, allowlist) then 1 else 0
  {
    hide M.Window, Truncate, ChainAnswer, Asks;
    OneMessage(EventsBy(rows, allowlist, chain, u, o));
  }

  predicate FromListed(u: Update, allowlist: set<int>) {
    u.chat.Some? && u.text.Some? && u.chat.value in allowlist
  }

  function AdmittedCount(inputs: seq<(Update, Oracle)>, allowlist: set<int>): nat {
    if inputs == [] then 0
    else AdmittedCount(inputs[..|inputs| - 1], allowlist) + (if FromListed(inputs[|inputs| - 1].0, allowlist) then 1 else 0)
  }

  lemma {:induction false} OneMessage(e: seq<Event>)
    requires forall i :: 0 <= i < |e| - 1 ==> !e[i].Sent?
    ensures Messages(e) <= if e == [] then 0 else 1
  {
    if e != [] { OneMessage(e[1..]); }
  }

  /** Nothing fails while the update is handled, and some provider of the chain answers. */
  predicate AllWell(chain: seq<Resolved>, o: Oracle)
    requires chain != []
  {
    o.userStored && o.historyRead && o.replyStored && o.delivered && ChainAnswer(chain, o.calls).Answered?
  }

  lemma AnsweredWhenNothingFails(rows: seq<M.Row>, allowlist: set<int>, chain: seq<Resolved>, u: Update, o: Oracle)
    requires chain != [] && Admitted(u, allowlist) && AllWell(chain, o)
    ensures var e := EventsBy(rows, allowlist, chain, u, o);
            && |e| == 4 && e[3] == Sent(u.chat.value, Truncate(ChainAnswer(chain, o.calls).text))
            && forall i :: 0 <= i < 3 ==> !e[i].Sent?
  {
    hide M.Window, Truncate, ChainAnswer, Asks;
  }

  lemma {:induction false} LastIsTheMessage(e: seq<Event>)
    requires e != [] && e[|e| - 1].Sent? && forall i :: 0 <= i < |e| - 1 ==> !e[i].Sent?
    ensures Messages(e) == 1
  {
    if |e| > 1 { LastIsTheMessage(e[1..]); } else { assert e[1..] == []; }
  }

  /** The other half: in a run in which nothing fails, every admitted update is answered by exactly one
      message. */
  lemma {:induction false} RunAnswersEveryUpdate(rows: seq<M.Row>, allowlist: set<int>, chain: seq<Resolved>, inputs: seq<(Update, Oracle)>)
    requires chain != [] && forall i :: 0 <= i < |inputs| ==> AllWell(chain, inputs[i].1)
    ensures Messages(RunEvents(rows, allowlist, chain, inputs)) == AdmittedCount(inputs, allowlist)
  {
    hide AllWell, Truncate;
    if inputs != [] {
      var front := inputs[..|inputs| - 1];
      var (u, o) := inputs[|inputs| - 1];
      RunAnswersEveryUpdate(rows, allowlist, chain, front);
      var before := RunEvents(rows, allowlist, chain, front);
      var e := EventsBy(rows + StoredRows(before), allowlist, chain, u, o);
      MessagesConcat(before, e);
      hide EventsBy, StoredRows;
      if Admitted(u, allowlist) {
        AnsweredWhenNothingFails(rows + StoredRows(before), allowlist, chain, u, o);
        LastIsTheMessage(e);
      } else {
        DroppedDoesNothing(rows + StoredRows(before), allowlist, chain, u, o);
      }
    }
  }

  lemma DroppedDoesNothing(rows: seq<M.Row>, allowlist: set<int>, chain: seq<Resolved>, u: Update, o: Oracle)
    requires chain != [] && !Admitted(u, allowlist)
    ensures EventsBy(rows, allowlist, chain, u, o) == []
  {
  }

  // ----- What the model is shown

  /** While the clock does not run backwards, the history shown with a message is the chat's window
      slid by that very message. */
  lemma HistoryShownEndsWithMessage(rows: seq<M.Row>, allowlist: set<int>, chain: seq<Resolved>, u: Update, o: Oracle)
    requires chain != [] && Admitted(u, allowlist) && o.userStored && o.historyRead
    requires M.NotAhead(rows, M.Row(u.chat.value, o.userTs, M.User, u.text.value))
    ensures var e := EventsBy(rows, allowlist, chain, u, o);
            && |e| >= 2 && e[1].Asked?
            && e[1].history == M.Last(HISTORY_LIMIT, M.Window(rows, u.chat.value, HISTORY_LIMIT) + [M.Turn(M.User, u.text.value)])
            && e[1].history != [] && e[1].history[|e[1].history| - 1] == M.Turn(M.User, u.text.value)
  {
    var row := M.Row(u.chat.value, o.userTs, M.User, u.text.value);
    M.AppendSlidesWindow(rows, row, HISTORY_LIMIT, u.chat.value + 1);
    hide M.Window, ChainAnswer, Asks, Truncate;
    assert EventsBy(rows, allowlist, chain, u, o)[1] == ReplyEvents(M.Window(rows + [row], u.chat.value, HISTORY_LIMIT), chain, u.chat.value, o)[0];
  }

  /** What the model is shown at this point of the log: the last turns of the chat, in the order in
      which they were stored, the message asked about included. */
  ghost predicate ShowsLastTurns(rows: seq<M.Row>, log: seq<Event>, i: nat)
    requires i < |log|
  {
    log[i].Asked? ==>
      var stored := M.ChatRows(rows + StoredRows(log[..i]), log[i].chat);
      log[i].history == M.Turns(M.Last(HISTORY_LIMIT, stored))
  }

  /** Over a whole run with timestamps in order, however it goes, every question shows the model the
      last turns of its chat as they were stored. */
  lemma {:induction false} RunShowsLastTurns(rows: seq<M.Row>, allowlist: set<int>, chain: seq<Resolved>, inputs: seq<(Update, Oracle)>)
    requires chain != [] && Sorted(rows + StoredRows(RunEvents(rows, allowlist, chain, inputs)), M.Ts)
    ensures var log := RunEvents(rows, allowlist, chain, inputs);
            forall i :: 0 <= i < |log| ==> ShowsLastTurns(rows, log, i)
  {
    hide EventsBy, Sorted, ShowsLastTurns, StoredRows;
    if inputs != [] {
      var front := inputs[..|inputs| - 1];
      var (u, o) := inputs[|inputs| - 1];
      var before := RunEvents(rows, allowlist, chain, front);
      var e := EventsBy(rows + StoredRows(before), allowlist, chain, u, o);
      StoredRowsConcat(before, e);
      T.Reassociate(rows, StoredRows(before), StoredRows(e));
      SortedPrefix(rows + StoredRows(before), StoredRows(e));
      RunShowsLastTurns(rows, allowlist, chain, front);
      forall i | 0 <= i < |before + e| ensures ShowsLastTurns(rows, before + e, i) {
        if i < |before| {
          EarlierShows(rows, before, e, i);
        } else {
          UpdateShows(rows, before, allowlist, chain, u, o, i - |before|);
        }
      }
    }
  }

  lemma SortedPrefix(a: seq<M.Row>, b: seq<M.Row>)
    requires Sorted(a + b, M.Ts)
    ensures Sorted(a, M.Ts)
  {
    forall i, j | 0 <= i < j < |a| ensures M.Ts(a[i]) <= M.Ts(a[j]) { assert (a + b)[i] == a[i] && (a + b)[j] == a[j]; }
  }

  lemma EarlierShows(rows: seq<M.Row>, before: seq<Event>, e: seq<Event>, i: nat)
    requires i < |before| && ShowsLastTurns(rows, before, i)
    ensures ShowsLastTurns(rows, before + e, i)
  {
    assert (before + e)[..i] == before[..i];
  }

  lemma UpdateShows(rows: seq<M.Row>, before: seq<Event>, allowlist: set<int>, chain: seq<Resolved>, u: Update, o: Oracle, j: nat)
    requires chain != [] && j < |EventsBy(rows + StoredRows(before), allowlist, chain, u, o)|
    requires Sorted(rows + StoredRows(before) + StoredRows(EventsBy(rows + StoredRows(before), allowlist, chain, u, o)), M.Ts)
    ensures ShowsLastTurns(rows, before + EventsBy(rows + StoredRows(before), allowlist, chain, u, o), |before| + j)
  {
    hide EventsBy, StoredRows, Sorted, M.Window;
    var now := rows + StoredRows(before);
    var e := EventsBy(now, allowlist, chain, u, o);
    if e[j].Asked? {
      var row := AskedSecond(now, allowlist, chain, u, o, j);
      var log := before + e;
      assert log[..|before| + j] == before + [e[0]];
      StoredRowsAppend(before, e[0]);
      T.Reassociate(rows, StoredRows(before), [row]);
      StoredRowsConcat([e[0]], e[1..]);
      StoredRowsOne(e[0]);
      assert e == [e[0]] + e[1..];
      T.Reassociate(now, [row], StoredRows(e[1..]));
      SortedPrefix(now + [row], StoredRows(e[1..]));
      M.WindowOfOrderedRows(now + [row], row.chat, HISTORY_LIMIT);
    }
  }

  /** A question comes right after the user row it is about, and shows the window at that moment. */
  lemma AskedSecond(now: seq<M.Row>, allowlist: set<int>, chain: seq<Resolved>, u: Update, o: Oracle, j: nat) returns (row: M.Row)
    requires chain != [] && j < |EventsBy(now, allowlist, chain, u, o)| && EventsBy(now, allowlist, chain, u, o)[j].Asked?
    ensures var e := EventsBy(now, allowlist, chain, u, o);
            j == 1 && e[0] == Stored(row) && e[1].chat == row.chat && e[1].history == M.Window(now + [row], row.chat, HISTORY_LIMIT)
  {
    hide M.Window, Truncate, ChainAnswer, Asks;
    row := M.Row(u.chat.value, o.userTs, M.User, u.text.value);
  }
}
