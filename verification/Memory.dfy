/** The conversation store: one row per turn, read back as a window of the newest turns of a chat. */
module Memory {
  import opened Sorting

  datatype Role = User | Assistant

  /** A row of the turns table; its rowid is its index, since rows are never deleted. */
  datatype Row = Row(chat: int, ts: int, role: Role, content: string)

  datatype Turn = Turn(role: Role, content: string)

  function Ts(row: Row): int { row.ts }

  function ChatRows(rows: seq<Row>, chat: int): (r: seq<Row>)
    ensures forall x :: x in r ==> x in rows && x.chat == chat
  {
    if rows == [] then []
    else ChatRows(rows[..|rows| - 1], chat) + (if rows[|rows| - 1].chat == chat then [rows[|rows| - 1]] else [])
  }

  function Reverse<T>(xs: seq<T>): seq<T> {
    seq(|xs|, i requires 0 <= i < |xs| => xs[|xs| - 1 - i])
  }

  function Turns(rows: seq<Row>): seq<Turn> {
    seq(|rows|, i requires 0 <= i < |rows| => Turn(rows[i].role, rows[i].content))
  }

  function Last<T>(n: nat, xs: seq<T>): seq<T> {
    if n <= |xs| then xs[|xs| - n..] else xs
  }

  /** SELECT ... WHERE chat_id = ? ORDER BY ts DESC, rowid DESC LIMIT ? */
  function Select(rows: seq<Row>, chat: int, limit: nat): seq<Row> {
    var ordered := Reverse(StableSort(ChatRows(rows, chat), Ts));
    if limit <= |ordered| then ordered[..limit] else ordered
  }

  function Window(rows: seq<Row>, chat: int, limit: nat): seq<Turn> {
    Turns(Last(limit, StableSort(ChatRows(rows, chat), Ts)))
  }

  class Store {
    var rows: seq<Row>

    /** Opens a database that may already hold turns. */
    constructor (existing: seq<Row>)
      ensures rows == existing
    {
      rows := existing;
    }

    method Append(chat: int, role: Role, content: string, now: int)
      modifies this
      ensures rows == old(rows) + [Row(chat, now, role, content)]
    {
      rows := rows + [Row(chat, now, role, content)];
    }

    method History(chat: int, limit: nat) returns (turns: seq<Turn>)
      ensures turns == Window(rows, chat, limit)
    {
      hide StableSort, ChatRows, Select, Window, Reverse;
      var fetched := Reverse(Select(rows, chat, limit));
      SelectReversed(rows, chat, limit);
      turns := [];
      for i := 0 to |fetched|
        invariant turns == Turns(fetched)[..i]
      {
        turns := turns + [Turn(fetched[i].role, fetched[i].content)];
      }
    }
  }

  lemma ReversePrefix<T>(xs: seq<T>, n: nat)
    requires n <= |xs|
    ensures Reverse(Reverse(xs)[..n]) == xs[|xs| - n..]
  {
    forall k | 0 <= k < n ensures Reverse(Reverse(xs)[..n])[k] == xs[|xs| - n + k] {
      assert Reverse(xs)[..n][n - 1 - k] == Reverse(xs)[n - 1 - k];
    }
  }

  lemma SelectReversed(rows: seq<Row>, chat: int, limit: nat)
    ensures Reverse(Select(rows, chat, limit)) == Last(limit, StableSort(ChatRows(rows, chat), Ts))
    ensures Turns(Reverse(Select(rows, chat, limit))) == Window(rows, chat, limit)
  {
    hide StableSort, ChatRows;
    var sorted := StableSort(ChatRows(rows, chat), Ts);
    var n := if limit <= |sorted| then limit else |sorted|;
    assert Select(rows, chat, limit) == Reverse(sorted)[..n];
    ReversePrefix(sorted, n);
  }

  // ----- What the window holds, for any timestamps

  /** Row a comes before row b in the order by (ts, rowid). */
  predicate Before(rows: seq<Row>, a: nat, b: nat)
    requires a < |rows| && b < |rows|
  {
    rows[a].ts < rows[b].ts || (rows[a].ts == rows[b].ts && a < b)
  }

  ghost predicate Ascending(rows: seq<Row>, ids: seq<nat>) {
    && (forall k :: 0 <= k < |ids| ==> ids[k] < |rows|)
    && forall j, k :: 0 <= j < k < |ids| ==> Before(rows, ids[j], ids[k])
  }

  ghost predicate RowsOf(rows: seq<Row>, ids: seq<nat>, picked: seq<Row>) {
    |picked| == |ids| && forall k :: 0 <= k < |ids| ==> ids[k] < |rows| && picked[k] == rows[ids[k]]
  }

  lemma {:induction false} InsertPosition<T>(ys: seq<T>, x: T, key: T -> int) returns (p: nat)
    requires Sorted(ys, key)
    ensures p <= |ys| && Insert(ys, x, key) == ys[..p] + [x] + ys[p..]
    ensures forall i :: 0 <= i < p ==> key(ys[i]) <= key(x)
    ensures forall i :: p <= i < |ys| ==> key(x) < key(ys[i])
  {
    if ys == [] || key(ys[|ys| - 1]) <= key(x) {
      p := |ys|;
    } else {
      var front := ys[..|ys| - 1];
      p := InsertPosition(front, x, key);
      assert ys[..p] == front[..p] && ys[p..] == front[p..] + [ys[|ys| - 1]];
    }
  }

  ghost predicate Lists(rows: seq<Row>, chat: int, ids: seq<nat>) {
    && Ascending(rows, ids) && RowsOf(rows, ids, StableSort(ChatRows(rows, chat), Ts))
    && forall id: nat :: id in ids <==> id < |rows| && rows[id].chat == chat
  }

  /** All row ids of a chat, in the order of the query. */
  lemma {:induction false} OrderedIds(rows: seq<Row>, chat: int) returns (ids: seq<nat>)
    ensures Lists(rows, chat, ids)
    decreases |rows|
  {
    hide StableSort;
    if rows == [] {
      ids := [];
      assert StableSort(ChatRows(rows, chat), Ts) == [];
    } else {
      ids := OrderedIds(rows[..|rows| - 1], chat);
      if rows[|rows| - 1].chat == chat {
        ids := AddId(rows, chat, ids);
      } else {
        SkipRow(rows, chat, ids);
      }
    }
  }

  lemma SkipRow(rows: seq<Row>, chat: int, ids: seq<nat>)
    requires rows != [] && rows[|rows| - 1].chat != chat && Lists(rows[..|rows| - 1], chat, ids)
    ensures Lists(rows, chat, ids)
  {
    hide StableSort;
    var n, front := |rows| - 1, rows[..|rows| - 1];
    assert ChatRows(rows, chat) == ChatRows(front, chat);
    forall k | 0 <= k < |ids| ensures ids[k] < n && rows[ids[k]] == front[ids[k]] {}
    forall j, k | 0 <= j < k < |ids| ensures Before(rows, ids[j], ids[k]) { assert Before(front, ids[j], ids[k]); }
    forall id: nat ensures id in ids <==> id < |rows| && rows[id].chat == chat {
      if id < n { assert rows[id] == front[id]; }
    }
  }

  lemma AddId(rows: seq<Row>, chat: int, ids: seq<nat>) returns (wider: seq<nat>)
    requires rows != [] && rows[|rows| - 1].chat == chat && Lists(rows[..|rows| - 1], chat, ids)
    ensures Lists(rows, chat, wider)
  {
    hide StableSort, Ascending, RowsOf;
    var n, front := |rows| - 1, rows[..|rows| - 1];
    SameLength(front, ids, StableSort(ChatRows(front, chat), Ts));
    var sorted := StableSort(ChatRows(front, chat), Ts);
    StableSortIsStable(ChatRows(front, chat), Ts);
    var p := InsertPosition(sorted, rows[n], Ts);
    SortAppended(ChatRows(front, chat), rows[n]);
    PlaceNewest(rows, ids, sorted, p);
    wider := ids[..p] + [n] + ids[p..];
    HasNewest(rows, chat, ids, p);
  }

  lemma HasNewest(rows: seq<Row>, chat: int, ids: seq<nat>, p: nat)
    requires rows != [] && rows[|rows| - 1].chat == chat && p <= |ids|
    requires forall id: nat :: id in ids <==> id < |rows| - 1 && rows[..|rows| - 1][id].chat == chat
    ensures forall id: nat :: id in ids[..p] + [|rows| - 1] + ids[p..] <==> id < |rows| && rows[id].chat == chat
  {
    var n, front, wider := |rows| - 1, rows[..|rows| - 1], ids[..p] + [|rows| - 1] + ids[p..];
    assert ids == ids[..p] + ids[p..];
    forall id: nat ensures id in wider <==> id < |rows| && rows[id].chat == chat {
      assert id in wider <==> id in ids || id == n;
      if id < n { assert rows[id] == front[id]; }
    }
  }

  lemma SameLength(rows: seq<Row>, ids: seq<nat>, picked: seq<Row>)
    requires RowsOf(rows, ids, picked)
    ensures |picked| == |ids|
  {
  }

  lemma SortAppended(xs: seq<Row>, x: Row)
    ensures StableSort(xs + [x], Ts) == Insert(StableSort(xs, Ts), x, Ts)
  {
    assert (xs + [x])[..|xs|] == xs;
  }

  lemma PlaceNewest(rows: seq<Row>, ids: seq<nat>, sorted: seq<Row>, p: nat)
    requires rows != [] && Ascending(rows[..|rows| - 1], ids) && RowsOf(rows[..|rows| - 1], ids, sorted) && p <= |ids|
    requires forall i :: 0 <= i < p ==> sorted[i].ts <= rows[|rows| - 1].ts
    requires forall i :: p <= i < |ids| ==> rows[|rows| - 1].ts < sorted[i].ts
    ensures Ascending(rows, ids[..p] + [|rows| - 1] + ids[p..])
    ensures RowsOf(rows, ids[..p] + [|rows| - 1] + ids[p..], sorted[..p] + [rows[|rows| - 1]] + sorted[p..])
  {
    var n, front := |rows| - 1, rows[..|rows| - 1];
    forall k | 0 <= k < |ids| ensures ids[k] < n && rows[ids[k]] == sorted[k] { assert front[ids[k]] == sorted[k]; }
    forall j, k | 0 <= j < k < |ids| ensures Before(rows, ids[j], ids[k]) { assert Before(front, ids[j], ids[k]); }
    AscendingAround(rows, ids[..p], n, ids[p..]);
  }

  lemma AscendingAround(rows: seq<Row>, low: seq<nat>, id: nat, high: seq<nat>)
    requires id < |rows| && Ascending(rows, low) && Ascending(rows, high)
    requires forall k :: 0 <= k < |low| ==> Before(rows, low[k], id)
    requires forall k :: 0 <= k < |high| ==> Before(rows, id, high[k])
    ensures Ascending(rows, low + [id] + high)
  {
    forall j, k | 0 <= j < |low| && 0 <= k < |high| ensures Before(rows, low[j], high[k]) {
      assert Before(rows, low[j], id) && Before(rows, id, high[k]);
    }
  }

  /** The rows `ids` are the newest `limit` rows of the chat by (ts, rowid), oldest first. */
  ghost predicate Newest(rows: seq<Row>, chat: int, limit: nat, ids: seq<nat>) {
    && Ascending(rows, ids) && |ids| <= limit
    && (forall k :: 0 <= k < |ids| ==> rows[ids[k]].chat == chat)
    && (forall id: nat :: id < |rows| && rows[id].chat == chat && id !in ids ==>
          |ids| == limit && forall k :: 0 <= k < |ids| ==> Before(rows, id, ids[k]))
  }

  /** For any timestamps, history returns the `limit` greatest rows of the chat by (ts, rowid), in
      ascending order. */
  lemma HistoryIsNewest(rows: seq<Row>, chat: int, limit: nat) returns (ids: seq<nat>, picked: seq<Row>)
    ensures Window(rows, chat, limit) == Turns(picked) && RowsOf(rows, ids, picked)
    ensures Newest(rows, chat, limit, ids)
  {
    hide StableSort;
    var all := OrderedIds(rows, chat);
    var sorted := StableSort(ChatRows(rows, chat), Ts);
    var d := if limit <= |all| then |all| - limit else 0;
    ids, picked := all[d..], sorted[d..];
    assert Last(limit, sorted) == picked;
    TailIsNewest(rows, chat, limit, all, d);
  }

  lemma TailIsNewest(rows: seq<Row>, chat: int, limit: nat, all: seq<nat>, d: nat)
    requires Lists(rows, chat, all) && d == if limit <= |all| then |all| - limit else 0
    ensures Newest(rows, chat, limit, all[d..])
  {
    hide StableSort;
    var ids := all[d..];
    forall j, k | 0 <= j < k < |ids| ensures Before(rows, ids[j], ids[k]) { assert Before(rows, all[d + j], all[d + k]); }
    forall k | 0 <= k < |ids| ensures rows[ids[k]].chat == chat { assert ids[k] in all; }
    forall id: nat | id < |rows| && rows[id].chat == chat && id !in ids
      ensures |ids| == limit && forall k :: 0 <= k < |ids| ==> Before(rows, id, ids[k])
    {
      assert id in all;
      var j :| 0 <= j < |all| && all[j] == id;
      assert j < d;
      forall k | 0 <= k < |ids| ensures Before(rows, id, ids[k]) { assert Before(rows, all[j], all[d + k]); }
    }
  }

  // ----- The sliding window

  predicate NotAhead(rows: seq<Row>, row: Row) {
    forall i :: 0 <= i < |rows| && rows[i].chat == row.chat ==> rows[i].ts <= row.ts
  }

  /** A new row is the newest of its chat exactly when no earlier row of the chat carries a later
      time. */
  lemma NewestExactlyWhenNotAhead(rows: seq<Row>, row: Row)
    ensures StableSort(ChatRows(rows + [row], row.chat), Ts) == StableSort(ChatRows(rows, row.chat), Ts) + [row]
       <==> NotAhead(rows, row)
  {
    hide StableSort;
    var older := ChatRows(rows, row.chat);
    var sorted := StableSort(older, Ts);
    assert ChatRows(rows + [row], row.chat) == older + [row] by { assert (rows + [row])[..|rows|] == rows; }
    SortAppended(older, row);
    StableSortIsStable(older, Ts);
    LastExactlyWhenLargest(sorted, row);
    ChatRowsHasAll(rows, row.chat);
    forall x ensures x in sorted <==> x in rows && x.chat == row.chat {
      assert x in multiset(sorted) <==> x in multiset(older);
    }
    if NotAhead(rows, row) {
      forall x | x in sorted ensures x.ts <= row.ts { var i :| 0 <= i < |rows| && rows[i] == x; }
    }
  }

  /** The rows of the chat that carry a later time than the row about to be stored. */
  function Ahead(rows: seq<Row>, row: Row): set<nat> {
    set id: nat | id < |rows| && rows[id].chat == row.chat && rows[id].ts > row.ts
  }

  /** history shows the row just stored exactly when fewer than `limit` rows of its chat carry a later
      time; so a clock that was set back hides a message only if it left that many rows ahead. */
  lemma ShownExactlyWhenFewAhead(rows: seq<Row>, row: Row, limit: nat) returns (ids: seq<nat>, picked: seq<Row>)
    ensures Window(rows + [row], row.chat, limit) == Turns(picked) && RowsOf(rows + [row], ids, picked)
    ensures Newest(rows + [row], row.chat, limit, ids)
    ensures |rows| in ids <==> |Ahead(rows, row)| < limit
  {
    ids, picked := HistoryIsNewest(rows + [row], row.chat, limit);
    if |rows| in ids {
      ShownLeavesFewAhead(rows, row, limit, ids);
    } else {
      HiddenByRowsAhead(rows, row, limit, ids);
    }
  }

  /** Unless the limit is zero, history shows the row just stored last exactly when no row of its chat
      carries a later time. */
  lemma ShownLastExactlyWhenNotAhead(rows: seq<Row>, row: Row, limit: nat) returns (ids: seq<nat>, picked: seq<Row>)
    requires limit > 0
    ensures Window(rows + [row], row.chat, limit) == Turns(picked) && RowsOf(rows + [row], ids, picked)
    ensures Newest(rows + [row], row.chat, limit, ids)
    ensures ids != [] && (ids[|ids| - 1] == |rows| <==> NotAhead(rows, row))
  {
    hide Window, RowsOf;
    ids, picked := HistoryIsNewest(rows + [row], row.chat, limit);
    var all, n := rows + [row], |rows|;
    assert all[n] == row;
    if ids != [] && ids[|ids| - 1] == n {
      LastLeavesNoneAhead(rows, row, limit, ids);
    } else if NotAhead(rows, row) {
      NotAheadIsLast(rows, row, limit, ids);
    }
  }

  lemma LastLeavesNoneAhead(rows: seq<Row>, row: Row, limit: nat, ids: seq<nat>)
    requires Newest(rows + [row], row.chat, limit, ids) && ids != [] && ids[|ids| - 1] == |rows|
    ensures NotAhead(rows, row)
  {
    var all, n, last := rows + [row], |rows|, |ids| - 1;
    forall i | 0 <= i < n && rows[i].chat == row.chat ensures rows[i].ts <= row.ts {
      assert all[i] == rows[i] && all[n] == row;
      if i in ids {
        var k :| 0 <= k < |ids| && ids[k] == i;
        assert k < last && Before(all, ids[k], ids[last]);
      } else {
        assert Before(all, i, ids[last]);
      }
    }
  }

  lemma NotAheadIsLast(rows: seq<Row>, row: Row, limit: nat, ids: seq<nat>)
    requires Newest(rows + [row], row.chat, limit, ids) && limit > 0 && NotAhead(rows, row)
    ensures ids != [] && ids[|ids| - 1] == |rows|
  {
    var all, n := rows + [row], |rows|;
    assert all[n] == row;
    forall i: nat | i < |all| && all[i].chat == row.chat ensures !Before(all, n, i) {
      if i < n { assert all[i] == rows[i]; }
    }
    assert n !in ids ==> |ids| == limit;
    assert ids != [] && all[ids[0]].chat == row.chat && !Before(all, n, ids[0]);
    assert n in ids;
    var k :| 0 <= k < |ids| && ids[k] == n;
    var last := |ids| - 1;
    assert !Before(all, n, ids[last]);
  }

  lemma ShownLeavesFewAhead(rows: seq<Row>, row: Row, limit: nat, ids: seq<nat>)
    requires Newest(rows + [row], row.chat, limit, ids) && |rows| in ids
    ensures |Ahead(rows, row)| < limit
  {
    var all, n := rows + [row], |rows|;
    var k :| 0 <= k < |ids| && ids[k] == n;
    forall id | id in Ahead(rows, row) + {n} ensures id in ids {
      if id != n { assert all[id] == rows[id] && !Before(all, id, ids[k]); }
    }
    FewerThanListed(Ahead(rows, row) + {n}, ids);
  }

  lemma HiddenByRowsAhead(rows: seq<Row>, row: Row, limit: nat, ids: seq<nat>)
    requires Newest(rows + [row], row.chat, limit, ids) && |rows| !in ids
    ensures |Ahead(rows, row)| >= limit
  {
    var all, n := rows + [row], |rows|;
    assert all[n] == row;
    forall k | 0 <= k < |ids| ensures ids[k] in Ahead(rows, row) {
      assert Before(all, n, ids[k]) && all[ids[k]].chat == row.chat;
      assert ids[k] < n && all[ids[k]] == rows[ids[k]];
    }
    forall j, k | 0 <= j < k < |ids| ensures ids[j] != ids[k] { assert Before(all, ids[j], ids[k]); }
    DistinctAreFewer(ids, Ahead(rows, row));
  }

  lemma {:induction false} FewerThanListed(s: set<nat>, ids: seq<nat>)
    requires forall id :: id in s ==> id in ids
    ensures |s| <= |ids|
  {
    if ids == [] {
      assert s == {};
    } else {
      FewerThanListed(s - {ids[0]}, ids[1..]);
    }
  }

  lemma {:induction false} DistinctAreFewer(ids: seq<nat>, s: set<nat>)
    requires Distinct(ids) && forall k :: 0 <= k < |ids| ==> ids[k] in s
    ensures |ids| <= |s|
  {
    if ids != [] {
      DistinctAreFewer(ids[1..], s - {ids[0]});
    }
  }

  /** For every row and limit there is a store of `limit` rows that hides the row just stored. */
  lemma SetBackClockHides(row: Row, limit: nat) returns (rows: seq<Row>)
    ensures |rows| == limit && Turn(row.role, row.content) !in Window(rows + [row], row.chat, limit)
  {
    hide Window, Newest, Ahead, RowsOf;
    var later := Row(row.chat, row.ts + 1, row.role, row.content + "!");
    rows := seq(limit, _ => later);
    var ids, picked := ShownExactlyWhenFewAhead(rows, row, limit);
    AllAhead(rows, row, later);
    OnlyEarlierPicked(rows, row, later, ids, picked);
  }

  lemma AllAhead(rows: seq<Row>, row: Row, later: Row)
    requires later.chat == row.chat && later.ts > row.ts && forall i :: 0 <= i < |rows| ==> rows[i] == later
    ensures |Ahead(rows, row)| >= |rows|
  {
    var ids: seq<nat> := seq(|rows|, i => i);
    forall k | 0 <= k < |ids| ensures ids[k] in Ahead(rows, row) { assert rows[k] == later; }
    DistinctAreFewer(ids, Ahead(rows, row));
  }

  lemma OnlyEarlierPicked(rows: seq<Row>, row: Row, later: Row, ids: seq<nat>, picked: seq<Row>)
    requires RowsOf(rows + [row], ids, picked) && |rows| !in ids
    requires later.content == row.content + "!" && forall i :: 0 <= i < |rows| ==> rows[i] == later
    ensures Turn(row.role, row.content) !in Turns(picked)
  {
    assert |later.content| != |row.content|;
    forall k | 0 <= k < |picked| ensures Turns(picked)[k].content == later.content {
      assert ids[k] in ids && picked[k] == (rows + [row])[ids[k]];
    }
  }

  lemma LastExactlyWhenLargest(sorted: seq<Row>, row: Row)
    requires Sorted(sorted, Ts)
    ensures Insert(sorted, row, Ts) == sorted + [row] <==> forall x :: x in sorted ==> x.ts <= row.ts
  {
    var p := InsertPosition(sorted, row, Ts);
    if p < |sorted| {
      assert (sorted[..p] + [row] + sorted[p..])[|sorted|] == sorted[|sorted| - 1];
      assert sorted[|sorted| - 1].ts > row.ts;
    }
  }

  lemma {:induction false} ChatRowsHasAll(rows: seq<Row>, chat: int)
    ensures forall x :: x in rows && x.chat == chat ==> x in ChatRows(rows, chat)
  {
    if rows != [] {
      ChatRowsHasAll(rows[..|rows| - 1], chat);
      assert rows == rows[..|rows| - 1] + [rows[|rows| - 1]];
    }
  }

  /** While the clock does not run backwards, appending slides the chat's window by one turn and
      leaves every other chat's alone. */
  lemma AppendSlidesWindow(rows: seq<Row>, row: Row, limit: nat, other: int)
    requires NotAhead(rows, row) && other != row.chat
    ensures Window(rows + [row], row.chat, limit)
         == Last(limit, Window(rows, row.chat, limit) + [Turn(row.role, row.content)])
    ensures Window(rows + [row], other, limit) == Window(rows, other, limit)
  {
    hide StableSort;
    NewestExactlyWhenNotAhead(rows, row);
    LastSlides(limit, StableSort(ChatRows(rows, row.chat), Ts), row);
    assert ChatRows(rows + [row], other) == ChatRows(rows, other) by { assert (rows + [row])[..|rows|] == rows; }
  }

  /** With timestamps in order, the window is the last `limit` rows of the chat as they were inserted. */
  lemma WindowOfOrderedRows(rows: seq<Row>, chat: int, limit: nat)
    requires Sorted(rows, Ts)
    ensures Window(rows, chat, limit) == Turns(Last(limit, ChatRows(rows, chat)))
  {
    ChatRowsOrdered(rows, chat);
    SortSorted(ChatRows(rows, chat), Ts);
  }

  lemma {:induction false} ChatRowsOrdered(rows: seq<Row>, chat: int)
    requires Sorted(rows, Ts)
    ensures Sorted(ChatRows(rows, chat), Ts)
  {
    if rows != [] {
      var front, last := rows[..|rows| - 1], rows[|rows| - 1];
      ChatRowsOrdered(front, chat);
      forall x | x in ChatRows(front, chat) ensures x.ts <= last.ts {
        var i :| 0 <= i < |front| && front[i] == x;
        assert Ts(rows[i]) <= Ts(rows[|rows| - 1]);
      }
    }
  }

  lemma LastSlides(n: nat, sorted: seq<Row>, row: Row)
    ensures Turns(Last(n, sorted + [row])) == Last(n, Turns(Last(n, sorted)) + [Turn(row.role, row.content)])
  {
    var a, b := Turns(Last(n, sorted + [row])), Last(n, Turns(Last(n, sorted)) + [Turn(row.role, row.content)]);
    assert |a| == |b|;
    forall i | 0 <= i < |a| ensures a[i] == b[i] {}
  }
}
