/** Capturing a chat id with getUpdates: the server's offset protocol, one polling call, and the
    loop around it that lets the user reject, wait or type an id. */
module Polling {
  import opened Console
  import opened Environment
  import opened Numbers
  import opened Wrappers

  /** An update; `chat` is the chat id of a message, None for anything else. */
  datatype Update = Update(id: int, chat: Option<int>)

  datatype FetchResult = UrlError | OtherError | Updates(updates: seq<Update>)

  const RETRY_SLEEP := 1.0
  const DEFAULT_DEADLINE := 300

  /** No update from `from` up to `to` is a message. */
  ghost predicate Quiet(updates: seq<Update>, from: int, to: int) {
    forall i :: 0 <= from <= i < to && i < |updates| ==> updates[i].chat == None
  }

  ghost predicate NoMessages(updates: seq<Update>) {
    Quiet(updates, 0, |updates|)
  }

  /** The getUpdates side of the Telegram Bot API, with the clock. `all` lists every update the bot
      will ever get, by increasing id; all[..arrived] have arrived and all[..dropped] are forgotten.
      Methods choose freely what the network, the users and the clock do. */
  class Server {
    const all: seq<Update>
    var arrived: nat
    var dropped: nat
    var now: real
    /** How long one fetch, and one sleep of a second, may take. */
    const fetchMax: real
    const sleepMax: real

    /** What the world did: batches with a message delivered, fetches failed other than by URLError, Ctrl-C presses. */
    ghost var messageBatches: nat
    ghost var faults: nat
    ghost var interrupts: nat
    /** For each clearing of the backlog, how many updates had arrived then and whether the answer was sound. */
    ghost var clears: seq<(nat, bool)>

    ghost predicate Valid()
      reads this
    {
      && fetchMax >= 0.0 && sleepMax >= RETRY_SLEEP
      && dropped <= arrived <= |all|
      && (forall i :: 0 <= i < |all| ==> all[i].id > 0)
      && forall i, j :: 0 <= i < j < |all| ==> all[i].id < all[j].id
    }

    method Pass(most: real)
      requires Valid() && most >= 0.0
      modifies this`arrived, this`now
      ensures Valid() && arrived >= old(arrived)
      ensures old(now) <= now <= old(now) + most
    {
      var more: nat :| arrived + more <= |all|;
      arrived := arrived + more;
      var step: real :| 0.0 <= step <= most;
      now := now + step;
    }

    /** getUpdates with an offset that is not negative: confirms what lies below it and delivers
        the earliest updates left. A failing call may or may not have reached the server, and a
        body that cannot be read counts as no updates. */
    method Fetch(offset: int) returns (r: FetchResult)
      requires Valid() && offset >= 0
      modifies this`arrived, this`dropped, this`now, this`messageBatches, this`faults
      ensures Valid() && arrived >= old(arrived) && dropped >= old(dropped)
      ensures old(now) <= now <= old(now) + fetchMax
      ensures forall j :: old(dropped) <= j < dropped ==> all[j].id < offset
      ensures r.Updates? && r.updates != [] ==>
                && dropped + |r.updates| <= arrived && r.updates == all[dropped..dropped + |r.updates|]
                && all[dropped].id >= offset
      ensures messageBatches == if r.Updates? && !NoMessages(r.updates) then old(messageBatches) + 1 else old(messageBatches)
      ensures faults == if r == OtherError then old(faults) + 1 else old(faults)
    {
      Pass(fetchMax);
      var reached: bool := *;
      if reached {
        var next := dropped;
        while next < arrived && all[next].id < offset
          invariant old(dropped) <= next <= arrived
          invariant forall j :: old(dropped) <= j < next ==> all[j].id < offset
        {
          next := next + 1;
        }
        dropped := next;
        var n: nat :| dropped + n <= arrived;
        var readable: bool := *;
        if readable {
          messageBatches := if NoMessages(all[dropped..dropped + n]) then messageBatches else messageBatches + 1;
          return Updates(all[dropped..dropped + n]);
        }
      }
      var failure: FetchResult :| failure in {UrlError, OtherError, Updates([])};
      faults := if failure == OtherError then faults + 1 else faults;
      return failure;
    }

    /** Whether Ctrl-C was pressed. */
    method CtrlC() returns (pressed: bool)
      requires Valid()
      modifies this`interrupts
      ensures Valid()
      ensures interrupts == if pressed then old(interrupts) + 1 else old(interrupts)
    {
      pressed := *;
      interrupts := if pressed then interrupts + 1 else interrupts;
    }

    /** getUpdates with offset -1: forgets all but the last update and delivers that one. `sound`
        tells whether the answer is really the server's. */
    method FetchLast() returns (r: FetchResult, ghost sound: bool)
      requires Valid()
      modifies this`arrived, this`dropped, this`now, this`faults, this`clears
      ensures Valid() && arrived >= old(arrived) && dropped >= old(dropped)
      ensures clears == old(clears) + [(arrived, sound)]
      ensures (dropped == old(dropped) || dropped == arrived - 1) && now >= old(now)
      ensures sound ==> r.Updates?
      ensures sound && dropped == arrived ==> r.updates == []
      ensures sound && dropped < arrived ==> dropped == arrived - 1 && r.updates == [all[dropped]]
      ensures !sound && r.Updates? ==> r.updates == []
      ensures faults == if r == OtherError then old(faults) + 1 else old(faults)
    {
      Pass(fetchMax);
      var reached: bool := *;
      if reached {
        if dropped < arrived {
          dropped := arrived - 1;
        }
        var readable: bool := *;
        if readable {
          clears := clears + [(arrived, true)];
          return Updates(all[dropped..arrived]), true;
        }
      }
      var failure: FetchResult :| failure in {UrlError, OtherError, Updates([])};
      faults := if failure == OtherError then faults + 1 else faults;
      clears := clears + [(arrived, false)];
      return failure, false;
    }

    method Sleep()
      requires Valid()
      modifies this`arrived, this`now
      ensures Valid() && arrived >= old(arrived)
      ensures old(now) + RETRY_SLEEP <= now <= old(now) + sleepMax
    {
      Pass(sleepMax - RETRY_SLEEP);
      now := now + RETRY_SLEEP;
    }
  }

  /** With this offset the server goes on at index `from`: nothing before it is delivered any more,
      and no message from it on has been forgotten. */
  ghost predicate ResumesAt(all: seq<Update>, dropped: int, offset: int, from: int) {
    && offset >= 0 && 0 <= from <= |all|
    && (forall j :: from <= j < |all| ==> all[j].id >= offset)
    && (forall j :: 0 <= j < from ==> all[j].id < offset || j < dropped)
    && Quiet(all, from, dropped)
  }

  ghost predicate NextMessage(all: seq<Update>, from: int, m: int) {
    0 <= from <= m < |all| && all[m].chat.Some? && Quiet(all, from, m)
  }

  /** clear_backlog. If the fetch really succeeded, capturing starts with the first update to arrive
      after it; if not, with the first that the server has not forgotten, which may be an old one. */
  method ClearBacklog(server: Server) returns (offset: int, ghost from: int, ghost sound: bool, failed: bool)
    requires server.Valid()
    modifies server`arrived, server`dropped, server`now, server`faults, server`clears
    ensures server.Valid() && server.arrived >= old(server.arrived)
    ensures server.clears == old(server.clears) + [(server.arrived, sound)] && server.now >= old(server.now)
    ensures server.faults == if failed then old(server.faults) + 1 else old(server.faults)
    ensures !failed ==> ResumesAt(server.all, server.dropped, offset, from) && server.dropped <= from
    ensures sound ==> !failed && from == server.arrived
    ensures !sound ==> from == server.dropped && (from == old(server.dropped) || from == server.arrived - 1)
  {
    var r;
    r, sound := server.FetchLast();
    from, failed := server.dropped, false;
    match r
    case UrlError =>
      return 0, from, sound, false;
    case OtherError =>
      return 0, from, sound, true;
    case Updates(updates) =>
      if updates == [] {
        return 0, from, sound, false;
      }
      from := server.arrived;
      return updates[|updates| - 1].id + 1, from, sound, false;
  }

  /** The loop over one batch: stops at the first message; the offset follows the last update seen. */
  method FirstChat(updates: seq<Update>) returns (hit: nat, offset: int)
    requires updates != []
    ensures hit <= |updates| && Quiet(updates, 0, hit)
    ensures hit < |updates| ==> updates[hit].chat.Some? && offset == updates[hit].id + 1
    ensures hit == |updates| ==> offset == updates[|updates| - 1].id + 1
  {
    offset := 0;
    for i := 0 to |updates|
      invariant Quiet(updates, 0, i)
      invariant i > 0 ==> offset == updates[i - 1].id + 1
    {
      offset := updates[i].id + 1;
      if updates[i].chat.Some? {
        return i, offset;
      }
    }
    return |updates|, offset;
  }

  datatype PollResult = Captured(chat: int, next: int) | Timeout | Interrupted | Failed

  lemma OffsetNatural(all: seq<Update>, dropped: int, offset: int, from: int)
    requires ResumesAt(all, dropped, offset, from)
    ensures offset >= 0 && 0 <= from <= |all|
  {
  }

  /** Forgetting what lies below the offset takes nothing away that was still to come. */
  lemma StillResumes(all: seq<Update>, dropped: int, dropped': int, offset: int, from: int)
    requires ResumesAt(all, dropped, offset, from) && 0 <= dropped <= dropped' <= |all|
    requires forall j :: dropped <= j < dropped' ==> all[j].id < offset
    ensures ResumesAt(all, dropped', offset, from)
  {
  }

  lemma OriginalResumes(all: seq<Update>, dropped: int, dropped': int, start: int, from: int, offset: int, at: int)
    requires ResumesAt(all, dropped, start, from) && ResumesAt(all, dropped', offset, at) && from <= at && 0 <= dropped <= dropped'
    requires Quiet(all, from, at)
    ensures ResumesAt(all, dropped', start, from)
  {
  }

  lemma ValidBounds(server: Server)
    requires server.Valid()
    ensures server.dropped <= server.arrived <= |server.all| && server.fetchMax >= 0.0 && server.sleepMax >= RETRY_SLEEP
    ensures NoMessages([]) && forall i :: Quiet(server.all, i, i)
  {
  }

  /** A delivered batch starts where the offset says, and the offset after any part of it goes on right there. */
  lemma BatchResumes(server: Server, offset: int, at: int, n: int, k: nat)
    requires server.Valid() && ResumesAt(server.all, server.dropped, offset, at)
    requires k < n && server.dropped + n <= server.arrived && server.all[server.dropped].id >= offset
    ensures at <= server.dropped && Quiet(server.all, at, server.dropped)
    ensures ResumesAt(server.all, server.dropped, server.all[server.dropped + k].id + 1, server.dropped + k + 1)
  {
  }

  lemma NotAllQuiet(updates: seq<Update>, hit: nat)
    requires hit < |updates| && updates[hit].chat.Some?
    ensures !NoMessages(updates)
  {
  }

  lemma FoundNext(all: seq<Update>, from: int, at: int, first: int, updates: seq<Update>, hit: int)
    requires 0 <= from <= at <= first && first + |updates| <= |all| && updates == all[first..first + |updates|]
    requires 0 <= hit < |updates| && updates[hit].chat.Some? && Quiet(updates, 0, hit)
    requires Quiet(all, from, at) && Quiet(all, at, first)
    ensures NextMessage(all, from, first + hit) && all[first + hit] == updates[hit]
  {
    assert forall j :: first <= j <= first + hit ==> all[j] == updates[j - first];
  }

  lemma NothingFound(all: seq<Update>, from: int, at: int, first: int, updates: seq<Update>)
    requires 0 <= first && first + |updates| <= |all| && updates == all[first..first + |updates|]
    requires 0 <= from <= at <= first && Quiet(all, from, at) && Quiet(all, at, first) && Quiet(updates, 0, |updates|)
    ensures NoMessages(updates) && Quiet(all, from, first + |updates|)
    ensures updates != [] ==> updates[|updates| - 1] == all[first + |updates| - 1]
  {
    assert forall j :: first <= j < first + |updates| ==> all[j] == updates[j - first];
  }

  /** One batch, seen from where the search stands: its first message is the next one, or there is
      none and the search goes on behind it. */
  method TakeBatch(server: Server, updates: seq<Update>, offset: int, ghost from: int, ghost at: int)
    returns (chat: Option<int>, next: int, ghost m: int, ghost at': int)
    requires server.Valid() && ResumesAt(server.all, server.dropped, offset, at) && from <= at && Quiet(server.all, from, at) && from >= 0
    requires updates != [] && server.dropped + |updates| <= server.arrived
    requires updates == server.all[server.dropped..server.dropped + |updates|] && server.all[server.dropped].id >= offset
    ensures chat.Some? ==>
              && NextMessage(server.all, from, m) && server.all[m].chat == chat && next == server.all[m].id + 1
              && m < server.arrived && ResumesAt(server.all, server.dropped, next, m + 1)
    ensures chat == None ==>
              && at < at' <= |server.all| && Quiet(server.all, from, at') && next == updates[|updates| - 1].id + 1
              && ResumesAt(server.all, server.dropped, next, at')
    ensures chat == None <==> NoMessages(updates)
  {
    hide ResumesAt, NextMessage, Quiet, NoMessages, Server.Valid;
    ValidBounds(server);
    var hit;
    hit, next := FirstChat(updates);
    var n := |updates|;
    BatchResumes(server, offset, at, n, if hit < n then hit else n - 1);
    if hit < n {
      m, at' := server.dropped + hit, at;
      FoundNext(server.all, from, at, server.dropped, updates, hit);
      NotAllQuiet(updates, hit);
      return updates[hit].chat, next, m, at';
    }
    NothingFound(server.all, from, at, server.dropped, updates);
    return None, next, at, server.dropped + n;
  }

  /** The iterations that slept fit into the time spent, and the time into the deadline plus one fetch and one sleep. */
  ghost predicate Paced(server: Server, began: real, timeout: int, now: real, sleeps: int) {
    && 0 <= sleeps && began + sleeps as real <= now
    && (timeout >= 0 ==> sleeps <= timeout && now < began + timeout as real + server.fetchMax + server.sleepMax)
  }

  lemma KeepsPace(server: Server, began: real, timeout: int, sleeps: int, now: real, fetched: real, slept: real)
    requires Paced(server, began, timeout, now, sleeps) && now < began + timeout as real
    requires now <= fetched <= now + server.fetchMax && fetched + RETRY_SLEEP <= slept <= fetched + server.sleepMax
    ensures Paced(server, began, timeout, fetched, sleeps) && Paced(server, began, timeout, slept, sleeps + 1) && sleeps < timeout
  {
  }

  lemma StartsPaced(server: Server, began: real, timeout: int)
    requires server.fetchMax >= 0.0 && server.sleepMax >= RETRY_SLEEP
    ensures Paced(server, began, timeout, began, 0)
  {
  }

  /** poll_for_chat_id: captures the first message from `from` on, at index `m`. Every other outcome
      leaves the caller's offset good. `sleeps` and `batches` count the iterations by kind. */
  method PollForChatId(server: Server, start: int, timeout: int, ghost from: int)
    returns (r: PollResult, ghost m: int, ghost sleeps: int, ghost batches: int)
    requires server.Valid() && ResumesAt(server.all, server.dropped, start, from)
    modifies server`arrived, server`dropped, server`now, server`messageBatches, server`faults, server`interrupts
    ensures server.Valid() && server.arrived >= old(server.arrived)
    ensures server.interrupts == if r == Interrupted then old(server.interrupts) + 1 else old(server.interrupts)
    ensures r == Failed <==> server.faults > old(server.faults)
    ensures server.faults >= old(server.faults) && (r != Failed ==> server.faults == old(server.faults))
    ensures r == Timeout ==> server.messageBatches == old(server.messageBatches)
    ensures r.Captured? ==>
              && NextMessage(server.all, from, m) && server.all[m].chat == Some(r.chat) && r.next == server.all[m].id + 1
              && m < server.arrived && ResumesAt(server.all, server.dropped, r.next, m + 1)
    ensures !r.Captured? ==> ResumesAt(server.all, server.dropped, start, from)
    ensures Paced(server, old(server.now), timeout, server.now, sleeps) && 0 <= batches <= |server.all| - from
    ensures r == Timeout ==> server.now >= old(server.now) + timeout as real
  {
    hide ResumesAt, NextMessage, Quiet, NoMessages, Server.Valid, Paced;
    ValidBounds(server);
    StartsPaced(server, server.now, timeout);
    var offset := start;
    OffsetNatural(server.all, server.dropped, start, from);
    var deadline := server.now + timeout as real;
    ghost var at := from;
    sleeps, batches, m := 0, 0, from;
    var interrupted;
    while server.now < deadline
      invariant server.interrupts == old(server.interrupts) && server.faults == old(server.faults)
      invariant server.messageBatches == old(server.messageBatches)
      invariant server.Valid() && server.arrived >= old(server.arrived)
      invariant ResumesAt(server.all, server.dropped, offset, at) && 0 <= from <= at <= |server.all|
      invariant Quiet(server.all, from, at)
      invariant ResumesAt(server.all, server.dropped, start, from)
      invariant Paced(server, old(server.now), timeout, server.now, sleeps)
      invariant 0 <= batches <= at - from
      decreases |server.all| - at + timeout - sleeps
    {
      ghost var dropped, now := server.dropped, server.now;
      assert offset >= 0 by { OffsetNatural(server.all, dropped, offset, at); }
      var fetched := server.Fetch(offset);
      ValidBounds(server);
      KeepsPace(server, old(server.now), timeout, sleeps, now, server.now, server.now + RETRY_SLEEP);
      StillResumes(server.all, dropped, server.dropped, offset, at);
      OriginalResumes(server.all, dropped, server.dropped, start, from, offset, at);
      if fetched == OtherError {
        return Failed, m, sleeps, batches;
      }
      interrupted := server.CtrlC();
      if interrupted {
        return Interrupted, m, sleeps, batches;
      }
      if fetched == UrlError || fetched.updates == [] {
        ghost var woke := server.now;
        server.Sleep();
        KeepsPace(server, old(server.now), timeout, sleeps, now, woke, server.now);
        sleeps := sleeps + 1;
        interrupted := server.CtrlC();
        if interrupted {
          return Interrupted, m, sleeps, batches;
        }
        continue;
      }
      var chat;
      chat, offset, m, at := TakeBatch(server, fetched.updates, offset, from, at);
      if chat.Some? {
        return Captured(chat.value, offset), m, sleeps, batches;
      }
      batches := batches + 1;
    }
    return Timeout, m, sleeps, batches;
  }

  datatype ChatResult = Confirmed(chat: int) | Typed(chat: int) | Aborted | Crashed

  /** The last line the user entered is this integer. */
  predicate LastLineIsId(script: seq<Input>, at: nat, chat: int)
    requires at <= |script|
  {
    at > 0 && script[at - 1].Line? && ParseInt(Strip(script[at - 1].text)) == Some(chat)
  }

  /** The last line the user entered says yes. */
  predicate LastLineAffirms(script: seq<Input>, at: nat)
    requires at <= |script|
  {
    at > 0 && script[at - 1].Line? && Affirms(script[at - 1].text, true)
  }

  /** Lines from `from` up to `to`, none of which reads as an integer. */
  predicate NoIds(script: seq<Input>, from: nat, to: nat)
    requires to <= |script|
  {
    forall k :: from <= k < to ==> script[k].Line? && ParseInt(Strip(script[k].text)) == None
  }

  /** _prompt_manual_chat_id: prompts until a line reads as an integer, and returns the first that does. */
  method PromptManualChatId(terminal: Terminal) returns (r: ChatResult)
    requires terminal.Valid()
    modifies terminal
    ensures terminal.Valid() && terminal.at >= old(terminal.at) && !r.Confirmed?
    ensures (r == Aborted ==> terminal.Stopped(Interrupt)) && (r == Crashed ==> terminal.Stopped(EndOfInput))
    ensures r.Typed? ==> terminal.at > old(terminal.at) && LastLineIsId(terminal.script, terminal.at, r.chat)
    ensures r == Crashed ==> NoIds(terminal.script, old(terminal.at), terminal.at)
    ensures r != Crashed ==> terminal.at > old(terminal.at) && NoIds(terminal.script, old(terminal.at), terminal.at - 1)
  {
    hide ParseInt, Strip;
    while true
      invariant terminal.Valid() && terminal.at >= old(terminal.at) && NoIds(terminal.script, old(terminal.at), terminal.at)
      decreases |terminal.script| - terminal.at
    {
      var a := terminal.Prompt();
      match a
      case EndOfInput => return Crashed;
      case Interrupt => return Aborted;
      case Text(raw) =>
        var id := ParseInt(raw);
        if id.Some? {
          return Typed(id.value);
        }
    }
  }

  function After(from: int, captures: seq<int>): int {
    if captures == [] then from else captures[|captures| - 1] + 1
  }

  /** The captures are the message updates from `from` on, in order and without gaps. */
  ghost predicate ConsecutiveMessages(all: seq<Update>, from: int, captures: seq<int>) {
    captures != [] ==>
      var front := captures[..|captures| - 1];
      ConsecutiveMessages(all, from, front) && NextMessage(all, After(from, front), captures[|captures| - 1])
  }

  lemma NoCaptures(all: seq<Update>, from: int)
    ensures ConsecutiveMessages(all, from, []) && After(from, []) == from
  {
  }

  lemma CaptureNext(all: seq<Update>, from: int, captures: seq<int>, m: int)
    requires ConsecutiveMessages(all, from, captures) && NextMessage(all, After(from, captures), m)
    ensures ConsecutiveMessages(all, from, captures + [m]) && After(from, captures + [m]) == m + 1
    ensures After(from, captures) <= m < |all|
  {
    assert (captures + [m])[..|captures|] == captures;
  }

  lemma {:induction false} CapturesAreMessages(all: seq<Update>, from: int, captures: seq<int>)
    requires ConsecutiveMessages(all, from, captures)
    ensures captures != [] ==> 0 <= from
    ensures forall k :: 0 <= k < |captures| ==> from <= captures[k] < After(from, captures) <= |all| && all[captures[k]].chat.Some?
  {
    hide Quiet;
    if captures != [] {
      var front, last := captures[..|captures| - 1], captures[|captures| - 1];
      CapturesAreMessages(all, from, front);
      assert captures == front + [last];
    }
  }

  lemma {:induction false} CapturesIncrease(all: seq<Update>, from: int, captures: seq<int>)
    requires ConsecutiveMessages(all, from, captures)
    ensures forall j, k :: 0 <= j < k < |captures| ==> captures[j] < captures[k]
  {
    hide Quiet;
    if captures != [] {
      var front, last := captures[..|captures| - 1], captures[|captures| - 1];
      CapturesIncrease(all, from, front);
      CapturesAreMessages(all, from, front);
      assert captures == front + [last];
    }
  }

  /** A message from the start up to the last capture is a capture. */
  lemma {:induction false} CapturesCover(all: seq<Update>, from: int, captures: seq<int>, m: int)
    requires ConsecutiveMessages(all, from, captures) && 0 <= from <= m < After(from, captures) <= |all| && all[m].chat.Some?
    ensures m in captures
  {
    hide Quiet;
    var front, last := captures[..|captures| - 1], captures[|captures| - 1];
    assert captures == front + [last];
    if m < After(from, front) {
      CapturesCover(all, from, front, m);
    } else if m < last {
      NotQuiet(all, After(from, front), last, m);
    }
  }

  lemma NotQuiet(all: seq<Update>, from: int, to: int, m: int)
    requires 0 <= from <= m < to <= |all| && all[m].chat.Some?
    ensures !Quiet(all, from, to)
  {
  }

  /** No message is skipped and none captured twice. */
  lemma CapturesInOrder(all: seq<Update>, from: int, captures: seq<int>)
    requires ConsecutiveMessages(all, from, captures)
    ensures forall k :: 0 <= k < |captures| ==> 0 <= from <= captures[k] < |all| && all[captures[k]].chat.Some?
    ensures forall j, k :: 0 <= j < k < |captures| ==> captures[j] < captures[k]
    ensures forall m :: captures != [] && from <= m <= captures[|captures| - 1] && all[m].chat.Some? ==> m in captures
  {
    hide ConsecutiveMessages;
    CapturesAreMessages(all, from, captures);
    CapturesIncrease(all, from, captures);
    forall m | captures != [] && from <= m <= captures[|captures| - 1] && all[m].chat.Some? ensures m in captures {
      CapturesCover(all, from, captures, m);
    }
  }

  /** How one search for the chat went: how many updates had arrived when the backlog was cleared,
      whether that answer was sound, the index the search started from, the indices captured, and for
      each poll the index it captured, or none when it timed out or was interrupted. */
  datatype ChatSearch = ChatSearch(cleared: nat, sound: bool, from: int, captures: seq<int>, polls: seq<Option<int>>)

  function Caught(polls: seq<Option<int>>): seq<int> {
    if polls == [] then []
    else Caught(polls[..|polls| - 1]) + (if polls[|polls| - 1].Some? then [polls[|polls| - 1].value] else [])
  }

  function Misses(polls: seq<Option<int>>): nat {
    if polls == [] then 0 else Misses(polls[..|polls| - 1]) + (if polls[|polls| - 1].Some? then 0 else 1)
  }

  lemma PollAdded(polls: seq<Option<int>>, poll: Option<int>)
    ensures Caught(polls + [poll]) == Caught(polls) + (if poll.Some? then [poll.value] else [])
    ensures Misses(polls + [poll]) == Misses(polls) + if poll.Some? then 0 else 1
  {
    assert (polls + [poll])[..|polls|] == polls;
  }

  // ----- The dialog: each poll is followed by one question, which the next line of the script answers

  /** The first `n` answers are lines that do not say yes. */
  predicate Refused(script: seq<Input>, start: nat, n: nat) {
    start + n <= |script| && forall k :: start <= k < start + n ==> script[k].Line? && !Affirms(script[k].text, true)
  }

  predicate Agreed(script: seq<Input>, k: nat) {
    k < |script| && script[k].Line? && Affirms(script[k].text, true)
  }

  /** Every poll but the last was answered by a no. The last one captured a message, and the user said
      yes to its chat. */
  predicate ConfirmedIn(s: ChatSearch, all: seq<Update>, script: seq<Input>, start: nat, at: nat, chat: int) {
    && s.polls != [] && at == start + |s.polls| && Refused(script, start, |s.polls| - 1) && Agreed(script, at - 1)
    && var last := s.polls[|s.polls| - 1];
       last.Some? && 0 <= last.value < |all| && all[last.value].chat == Some(chat)
  }

  /** The last poll captured nothing, the user said yes to typing the id, then entered lines that are no
      integers, and then this one. */
  predicate TypedIn(s: ChatSearch, script: seq<Input>, start: nat, at: nat, chat: int) {
    && s.polls != [] && s.polls[|s.polls| - 1] == None
    && var asked := start + |s.polls|;
       && asked < at <= |script| && Refused(script, start, |s.polls| - 1) && Agreed(script, asked - 1)
       && NoIds(script, asked, at - 1) && LastLineIsId(script, at, chat)
  }

  /** Ctrl-C, as the answer to the last question or while an id was being typed. */
  predicate AbortedIn(s: ChatSearch, script: seq<Input>, start: nat, at: nat) {
    && s.polls != [] && start < at <= |script| && script[at - 1].CtrlC? && Refused(script, start, |s.polls| - 1)
    && var asked := start + |s.polls|;
       at == asked || (asked < at && s.polls[|s.polls| - 1] == None && Agreed(script, asked - 1) && NoIds(script, asked, at - 1))
  }

  /** The input ran out there. */
  predicate RanOutIn(s: ChatSearch, script: seq<Input>, start: nat) {
    && s.polls != [] && Refused(script, start, |s.polls| - 1)
    && var asked := start + |s.polls|;
       |script| == asked - 1 || (asked <= |script| && s.polls[|s.polls| - 1] == None && Agreed(script, asked - 1) && NoIds(script, asked, |script|))
  }

  /** The captures are the messages from the start on, without gaps, and the start is where it should
      be: behind everything that had arrived by the clearing or, if that failed, at the first update
      the server had not forgotten. `arrived` and `forgotten` describe the server before the search. */
  ghost predicate Faithful(s: ChatSearch, all: seq<Update>, arrived: nat, forgotten: nat) {
    && arrived <= s.cleared <= |all|
    && (if s.sound then s.from == s.cleared else s.from == forgotten || s.from == s.cleared - 1)
    && ConsecutiveMessages(all, s.from, s.captures) && s.captures == Caught(s.polls)
  }

  /** The chat of the message captured last. */
  ghost predicate LastCaptured(s: ChatSearch, all: seq<Update>, chat: int) {
    s.captures != [] && 0 <= s.captures[|s.captures| - 1] < |all| && all[s.captures[|s.captures| - 1]].chat == Some(chat)
  }

  /** Whatever happened to the backlog, no message that arrived after it was cleared is passed over;
      if the clearing was sound, no older one is captured. */
  lemma SearchMissesNothing(s: ChatSearch, all: seq<Update>, arrived: nat, forgotten: nat)
    requires Faithful(s, all, arrived, forgotten) && forgotten <= arrived && s.captures != []
    ensures Quiet(all, s.cleared, s.captures[0])
    ensures forall m :: s.cleared <= m <= s.captures[|s.captures| - 1] && all[m].chat.Some? ==> m in s.captures
    ensures s.sound ==> forall k :: 0 <= k < |s.captures| ==> arrived <= s.cleared <= s.captures[k]
  {
    hide ConsecutiveMessages, Quiet;
    CapturesInOrder(all, s.from, s.captures);
    forall m | s.cleared <= m < s.captures[0] ensures all[m].chat == None {
      assert m !in s.captures;
    }
    QuietBefore(all, s.cleared, s.captures[0]);
  }

  /** A search captures nothing from before the clearing exactly when no message was pending between its
      start and the clearing; a sound clearing leaves nothing in between. */
  lemma NoStaleCaptureExactly(s: ChatSearch, all: seq<Update>, arrived: nat, forgotten: nat)
    requires Faithful(s, all, arrived, forgotten) && forgotten <= arrived && s.captures != []
    ensures (forall k :: 0 <= k < |s.captures| ==> s.cleared <= s.captures[k]) <==> Quiet(all, s.from, s.cleared)
    ensures s.sound ==> Quiet(all, s.from, s.cleared)
  {
    hide ConsecutiveMessages, Quiet;
    CapturesInOrder(all, s.from, s.captures);
    var first := s.captures[0];
    if first < s.cleared {
      NotQuiet(all, s.from, s.cleared, first);
    } else {
      forall m | s.from <= m < s.cleared ensures all[m].chat == None {
        assert m !in s.captures;
      }
      QuietBefore(all, s.from, s.cleared);
    }
  }

  /** So a failed clearing with one old message pending captures that message. */
  lemma StaleCapture(chat: int) returns (s: ChatSearch, all: seq<Update>)
    ensures Faithful(s, all, 1, 0) && !s.sound && s.cleared == 1
    ensures s.captures == [0] && all == [Update(1, Some(chat))]
  {
    s, all := ChatSearch(1, false, 0, [0], [Some(0)]), [Update(1, Some(chat))];
    assert [Some(0)][..0] == [];
    NoCaptures(all, 0);
    assert NextMessage(all, 0, 0);
    CaptureNext(all, 0, [], 0);
    assert [] + [0] == [0];
  }

  lemma QuietBefore(all: seq<Update>, from: int, to: int)
    requires to <= |all| && forall m :: 0 <= from <= m < to ==> all[m].chat == None
    ensures Quiet(all, from, to)
  {
  }

  /** _step_chat_id, over any run of rejections, timeouts, interrupts and failures. */
  method StepChatId(server: Server, terminal: Terminal) returns (r: ChatResult, ghost search: ChatSearch)
    requires server.Valid() && terminal.Valid()
    modifies server`arrived, server`dropped, server`now, server`messageBatches, server`faults, server`interrupts, server`clears, terminal
    ensures server.Valid() && terminal.Valid() && terminal.at >= old(terminal.at)
    ensures server.clears == old(server.clears) + [(search.cleared, search.sound)] && search.cleared <= server.arrived
    ensures Faithful(search, server.all, old(server.arrived), old(server.dropped))
    ensures EndsAs(r, search, server.all, terminal.script, old(terminal.at), terminal.at, server.faults > old(server.faults))
    ensures server.interrupts >= old(server.interrupts)
    ensures WaitedOut(old(server.now), server.now, Misses(search.polls), server.interrupts - old(server.interrupts))
  {
    hide ParseInt, Strip, Affirms, ResumesAt, Server.Valid, ConsecutiveMessages, After, Faithful, Caught, Misses, WaitedOut,
         Refused, EndsAs;
    ghost var from, sound;
    var offset, failed;
    offset, from, sound, failed := ClearBacklog(server);
    search := ChatSearch(server.arrived, sound, from, [], []);
    StartsFaithful(server, search, old(server.arrived), old(server.dropped));
    NobodyAsked(terminal.script, terminal.at);
    NoWaitYet(old(server.now), server.now);
    if failed {
      FailedEnd(search, server.all, terminal.script, old(terminal.at));
      return Crashed, search;
    }
    while true
      invariant server.Valid() && ResumesAt(server.all, server.dropped, offset, After(search.from, search.captures))
      invariant server.clears == old(server.clears) + [(search.cleared, search.sound)] && search.cleared <= server.arrived
      invariant Faithful(search, server.all, old(server.arrived), old(server.dropped))
      invariant terminal.Valid() && server.faults == old(server.faults) && server.interrupts >= old(server.interrupts)
      invariant terminal.at == old(terminal.at) + |search.polls| && Refused(terminal.script, old(terminal.at), |search.polls|)
      invariant WaitedOut(old(server.now), server.now, Misses(search.polls), server.interrupts - old(server.interrupts))
      decreases |terminal.script| - terminal.at
    {
      var polled;
      var ended: Option<ChatResult> := None;
      polled, offset, search := PollOnce(server, offset, search, old(server.arrived), old(server.dropped), old(server.now), server.interrupts - old(server.interrupts));
      match polled {
        case Failed =>
          FailedEnd(search, server.all, terminal.script, old(terminal.at));
          return Crashed, search;
        case Captured(chat, _) =>
          ended := AskAboutCapture(terminal, chat, search, server.all, old(terminal.at));
        case _ =>
          ended := AskForTyping(terminal, search, server.all, old(terminal.at));
      }
      if ended.Some? {
        return ended.value, search;
      }
    }
  }

  lemma FailedEnd(s: ChatSearch, all: seq<Update>, script: seq<Input>, start: nat)
    requires Refused(script, start, |s.polls|)
    ensures EndsAs(Crashed, s, all, script, start, start + |s.polls|, true)
  {
  }

  /** "Use this chat ID?" after a capture: the search ends, unless the user says no. */
  method AskAboutCapture(terminal: Terminal, chat: int, ghost s: ChatSearch, ghost all: seq<Update>, ghost start: nat) returns (ended: Option<ChatResult>)
    requires terminal.Valid() && s.polls != [] && terminal.at == start + |s.polls| - 1 && Refused(terminal.script, start, |s.polls| - 1)
    requires var last := s.polls[|s.polls| - 1]; last.Some? && 0 <= last.value < |all| && all[last.value].chat == Some(chat)
    modifies terminal
    ensures terminal.Valid() && terminal.at >= old(terminal.at)
    ensures ended == None ==> terminal.at == start + |s.polls| && Refused(terminal.script, start, |s.polls|)
    ensures ended.Some? ==> EndsAs(ended.value, s, all, terminal.script, start, terminal.at, false)
  {
    hide Affirms, Refused, AbortedIn, RanOutIn, ConfirmedIn;
    ghost var n := |s.polls| - 1;
    var keep := terminal.Confirm(true);
    match keep {
      case Yes =>
        YesToCapture(s, all, terminal.script, start, n, s.polls[n].value, chat);
        return Some(Confirmed(chat));
      case No =>
        OneMoreNo(terminal.script, start, n);
        return None;
      case Broken(cause) =>
        NoAnswer(s, terminal.script, start, n);
        return Some(if cause.Interrupt? then Aborted else Crashed);
    }
  }

  /** "Enter chat ID manually?" after a timeout or an interrupt: the user types the id, or the search goes on. */
  method AskForTyping(terminal: Terminal, ghost s: ChatSearch, ghost all: seq<Update>, ghost start: nat) returns (ended: Option<ChatResult>)
    requires terminal.Valid() && s.polls != [] && terminal.at == start + |s.polls| - 1 && Refused(terminal.script, start, |s.polls| - 1)
    requires s.polls[|s.polls| - 1] == None
    modifies terminal
    ensures terminal.Valid() && terminal.at >= old(terminal.at)
    ensures ended == None ==> terminal.at == start + |s.polls| && Refused(terminal.script, start, |s.polls|)
    ensures ended.Some? ==> EndsAs(ended.value, s, all, terminal.script, start, terminal.at, false)
  {
    hide Affirms, Refused, AbortedIn, RanOutIn, TypedIn, NoIds, LastLineIsId;
    ghost var n := |s.polls| - 1;
    var manual := terminal.Confirm(true);
    match manual {
      case Yes =>
        var typed := PromptManualChatId(terminal);
        YesToTyping(s, terminal.script, start, n, terminal.at, if typed.Typed? then typed.chat else 0);
        return Some(typed);
      case No =>
        OneMoreNo(terminal.script, start, n);
        return None;
      case Broken(cause) =>
        NoAnswer(s, terminal.script, start, n);
        return Some(if cause.Interrupt? then Aborted else Crashed);
    }
  }

  /** One poll of the search, entered into its record. `cuts` counts the interrupts so far. */
  method PollOnce(server: Server, offset: int, ghost s: ChatSearch, ghost arrived: nat, ghost forgotten: nat, ghost began: real, ghost cuts: int)
    returns (polled: PollResult, next: int, ghost more: ChatSearch)
    requires server.Valid() && ResumesAt(server.all, server.dropped, offset, After(s.from, s.captures))
    requires Faithful(s, server.all, arrived, forgotten) && WaitedOut(began, server.now, Misses(s.polls), cuts)
    modifies server`arrived, server`dropped, server`now, server`messageBatches, server`faults, server`interrupts
    ensures server.Valid() && server.arrived >= old(server.arrived) && server.interrupts >= old(server.interrupts)
    ensures if polled == Failed then server.faults > old(server.faults) && more == s else server.faults == old(server.faults)
    ensures polled != Failed ==> |more.polls| == |s.polls| + 1 && more.polls[..|s.polls|] == s.polls
    ensures polled != Failed ==> (polled.Captured? <==> more.polls[|s.polls|].Some?)
    ensures polled.Captured? ==>
              && 0 <= more.polls[|s.polls|].value < |server.all| && server.all[more.polls[|s.polls|].value].chat == Some(polled.chat)
    ensures more.cleared == s.cleared && more.sound == s.sound && more.from == s.from
    ensures Faithful(more, server.all, arrived, forgotten) && ResumesAt(server.all, server.dropped, next, After(more.from, more.captures))
    ensures WaitedOut(began, server.now, Misses(more.polls), cuts + server.interrupts - old(server.interrupts))
  {
    hide ResumesAt, Server.Valid, ConsecutiveMessages, After, Faithful, Caught, Misses, WaitedOut, NextMessage, Paced;
    ghost var m, sleeps, batches;
    polled, m, sleeps, batches := PollForChatId(server, offset, DEFAULT_DEADLINE, After(s.from, s.captures));
    TimePassed(server, old(server.now), DEFAULT_DEADLINE, sleeps);
    WaitsOn(began, old(server.now), server.now, Misses(s.polls), cuts);
    match polled {
      case Failed =>
        next, more := offset, s;
      case Captured(_, after) =>
        next, more := after, ChatSearch(s.cleared, s.sound, s.from, s.captures + [m], s.polls + [Some(m)]);
        StaysFaithful(s, more, server.all, arrived, forgotten, m);
        IsMessage(server.all, After(s.from, s.captures), m);
      case _ =>
        next, more := offset, s.(polls := s.polls + [None]);
        MissFaithful(s, more, server.all, arrived, forgotten);
    }
  }

  lemma TimePassed(server: Server, began: real, timeout: int, sleeps: int)
    requires Paced(server, began, timeout, server.now, sleeps)
    ensures server.now >= began
  {
  }

  lemma IsMessage(all: seq<Update>, from: int, m: int)
    requires NextMessage(all, from, m)
    ensures 0 <= m < |all|
  {
  }

  /** Spelled out. An id is returned only after a yes, which is the first yes of the dialog: every earlier
      answer is a line that says something else, after which the search went on. A confirmed id is that
      of the last poll's message. A typed one is the first line after the yes that reads as an integer. */
  lemma EndingSpelledOut(r: ChatResult, s: ChatSearch, all: seq<Update>, script: seq<Input>, start: nat, at: nat, failed: bool)
    requires EndsAs(r, s, all, script, start, at, failed) && at <= |script|
    ensures r.Confirmed? || r.Typed? ==>
              && s.polls != [] && start + |s.polls| <= at
              && (forall k :: start <= k < start + |s.polls| - 1 ==> script[k].Line? && !Affirms(script[k].text, true))
              && script[start + |s.polls| - 1].Line? && Affirms(script[start + |s.polls| - 1].text, true)
    ensures r.Confirmed? ==>
              && at == start + |s.polls| && s.polls[|s.polls| - 1].Some?
              && var m := s.polls[|s.polls| - 1].value; 0 <= m < |all| && all[m].chat == Some(r.chat)
    ensures r.Typed? ==>
              && s.polls[|s.polls| - 1] == None && start + |s.polls| < at
              && (forall k :: start + |s.polls| <= k < at - 1 ==> script[k].Line? && ParseInt(Strip(script[k].text)) == None)
              && script[at - 1].Line? && ParseInt(Strip(script[at - 1].text)) == Some(r.chat)
  {
    hide Affirms, ParseInt, Strip;
  }

  lemma StartsFaithful(server: Server, s: ChatSearch, arrived: nat, forgotten: nat)
    requires server.Valid() && arrived <= s.cleared == server.arrived && s.captures == [] && s.polls == []
    requires if s.sound then s.from == s.cleared else s.from == forgotten || s.from == s.cleared - 1
    ensures Faithful(s, server.all, arrived, forgotten) && After(s.from, s.captures) == s.from && Misses([]) == 0
  {
    NoCaptures(server.all, s.from);
  }

  lemma StaysFaithful(s: ChatSearch, more: ChatSearch, all: seq<Update>, arrived: nat, forgotten: nat, m: int)
    requires Faithful(s, all, arrived, forgotten) && NextMessage(all, After(s.from, s.captures), m)
    requires more.captures == s.captures + [m] && more.polls == s.polls + [Some(m)]
    requires more.cleared == s.cleared && more.sound == s.sound && more.from == s.from
    ensures Faithful(more, all, arrived, forgotten) && After(more.from, more.captures) == m + 1
    ensures Misses(more.polls) == Misses(s.polls)
  {
    hide ConsecutiveMessages, After, Caught, NextMessage, Misses;
    CaptureNext(all, s.from, s.captures, m);
    PollAdded(s.polls, Some(m));
  }

  lemma MissFaithful(s: ChatSearch, more: ChatSearch, all: seq<Update>, arrived: nat, forgotten: nat)
    requires Faithful(s, all, arrived, forgotten) && more == s.(polls := s.polls + [None])
    ensures Faithful(more, all, arrived, forgotten) && Misses(more.polls) == Misses(s.polls) + 1
  {
    hide ConsecutiveMessages, Caught, Misses;
    PollAdded(s.polls, None);
  }

  // ----- One question of the dialog

  lemma NobodyAsked(script: seq<Input>, start: nat)
    requires start <= |script|
    ensures Refused(script, start, 0)
  {
  }

  lemma OneMoreNo(script: seq<Input>, start: nat, n: nat)
    requires Refused(script, start, n) && start + n < |script| && script[start + n].Line? && !Affirms(script[start + n].text, true)
    ensures Refused(script, start, n + 1)
  {
    hide Affirms;
  }

  lemma YesToCapture(s: ChatSearch, all: seq<Update>, script: seq<Input>, start: nat, n: nat, m: int, chat: int)
    requires |s.polls| == n + 1 && s.polls[n] == Some(m) && 0 <= m < |all| && all[m].chat == Some(chat)
    requires Refused(script, start, n) && start + n < |script| && script[start + n].Line? && Affirms(script[start + n].text, true)
    ensures ConfirmedIn(s, all, script, start, start + n + 1, chat)
  {
    hide Affirms, Refused;
  }

  /** The answer was a Ctrl-C, or there was none. */
  lemma NoAnswer(s: ChatSearch, script: seq<Input>, start: nat, n: nat)
    requires |s.polls| == n + 1 && Refused(script, start, n)
    ensures start + n < |script| && script[start + n].CtrlC? ==> AbortedIn(s, script, start, start + n + 1)
    ensures start + n == |script| ==> RanOutIn(s, script, start)
  {
    hide Affirms, Refused;
  }

  lemma YesToTyping(s: ChatSearch, script: seq<Input>, start: nat, n: nat, at: nat, chat: int)
    requires |s.polls| == n + 1 && s.polls[n] == None
    requires Refused(script, start, n) && start + n < |script| && script[start + n].Line? && Affirms(script[start + n].text, true)
    requires start + n + 1 <= at <= |script|
    ensures start + n + 1 < at && NoIds(script, start + n + 1, at - 1) && LastLineIsId(script, at, chat) ==> TypedIn(s, script, start, at, chat)
    ensures start + n + 1 < at && NoIds(script, start + n + 1, at - 1) && script[at - 1].CtrlC? ==> AbortedIn(s, script, start, at)
    ensures NoIds(script, start + n + 1, at) && at == |script| ==> RanOutIn(s, script, start)
  {
    hide Affirms, Refused, NoIds, LastLineIsId;
  }

  /** Of the polls that captured nothing, all but the interrupted ones waited for the whole deadline. */
  predicate WaitedOut(began: real, now: real, misses: int, interrupts: int) {
    now >= began + 300.0 * (misses - interrupts) as real
  }

  lemma WaitsOn(began: real, now: real, later: real, misses: int, interrupts: int)
    requires WaitedOut(began, now, misses, interrupts) && later >= now
    ensures WaitedOut(began, later, misses, interrupts) && WaitedOut(began, later, misses + 1, interrupts + 1)
    ensures later >= now + 300.0 ==> WaitedOut(began, later, misses + 1, interrupts)
  {
  }

  lemma NoWaitYet(began: real, now: real)
    requires now >= began
    ensures WaitedOut(began, now, 0, 0)
  {
  }

  /** What an ending of the search means in terms of the script and the polls. */
  ghost predicate EndsAs(r: ChatResult, s: ChatSearch, all: seq<Update>, script: seq<Input>, start: nat, at: nat, failed: bool) {
    match r
    case Confirmed(chat) => ConfirmedIn(s, all, script, start, at, chat)
    case Typed(chat) => TypedIn(s, script, start, at, chat)
    case Aborted => AbortedIn(s, script, start, at)
    case Crashed =>
      if failed then at == start + |s.polls| && Refused(script, start, |s.polls|)
      else at == |script| && RanOutIn(s, script, start)
  }
}
