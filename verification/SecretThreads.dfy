/** register_secret and _scrub_text run by any number of threads, one shared-memory access per
    step, in any interleaving. */
module SecretThreads {
  import opened Scrubber
  import opened SecretStore
  import opened Sorting
  import opened Text

  datatype Task = Register(value: PyValue) | ScrubLine(text: string)

  /** Where a thread is. A writer takes the lock, looks for its value, builds the new list, binds
      it and releases the lock; a reader tests the global for emptiness, then binds the list it
      iterates. `since` is the index of the list published when the reader began. */
  datatype Pc =
    | Ready
    | Holding
    | Missing
    | Built(list: seq<string>)
    | Leaving
    | NotEmpty(since: nat)
    | Finished
    | Scrubbed(out: string, since: nat, used: nat)

  /** `published` lists every binding of the global, the current one last; `order` the values in
      the order in which they entered it. */
  datatype State = State(published: seq<seq<string>>, order: seq<string>, lock: nat, pcs: seq<Pc>)

  /** `lock` holds the thread number plus one, 0 when free. */
  function Current(st: State): seq<string>
    requires st.published != []
  {
    st.published[|st.published| - 1]
  }

  function WriterStep(st: State, t: nat, value: PyValue): State
    requires t < |st.pcs| && st.published != []
  {
    match st.pcs[t]
    case Ready =>
      if value.OtherType? || value.text == "" then st.(pcs := st.pcs[t := Finished])
      else if st.lock == 0 then st.(lock := t + 1, pcs := st.pcs[t := Holding])
      else st
    case Holding =>
      st.(pcs := st.pcs[t := if value.Str? && value.text in Current(st) then Leaving else Missing])
    case Missing =>
      st.(pcs := st.pcs[t := Built(StableSort(Current(st) + (if value.Str? then [value.text] else []), ByLength))])
    case Built(list) =>
      st.(published := st.published + [list], order := st.order + (if value.Str? then [value.text] else []),
          pcs := st.pcs[t := Leaving])
    case Leaving => st.(lock := 0, pcs := st.pcs[t := Finished])
    case _ => st
  }

  function ReaderStep(st: State, t: nat, text: string): State
    requires t < |st.pcs| && st.published != [] && NonEmpty(Current(st))
  {
    var now := |st.published| - 1;
    match st.pcs[t]
    case Ready =>
      st.(pcs := st.pcs[t := if Current(st) == [] then Scrubbed(text, now, now) else NotEmpty(now)])
    case NotEmpty(since) => st.(pcs := st.pcs[t := Scrubbed(Scrub(text, Current(st)), since, now)])
    case _ => st
  }

  function Step(st: State, tasks: seq<Task>, t: nat): State
    requires Inv(st, tasks)
  {
    if t >= |tasks| then st
    else match tasks[t]
      case Register(value) => WriterStep(st, t, value)
      case ScrubLine(text) => ReaderStep(st, t, text)
  }

  /** What the import leaves behind, with every thread about to start. */
  ghost predicate Initial(st: State, tasks: seq<Task>) {
    && Published(st.order) && st.published == [st.order] && st.lock == 0
    && |st.pcs| == |tasks| && forall t :: 0 <= t < |tasks| ==> st.pcs[t] == Ready
  }

  // ----- The invariant

  predicate InCritical(pc: Pc) {
    pc.Holding? || pc.Missing? || pc.Built? || pc.Leaving?
  }

  /** Every list ever published is the stable sort of the values so far, in lock order. */
  predicate History(st: State) {
    && 0 < |st.published| <= |st.order| + 1
    && Distinct(st.order) && NonEmpty(st.order)
    && forall k :: 0 <= k < |st.published| ==> st.published[k] == StableSort(Entered(st, k), ByLength)
  }

  /** The values that had entered when list k was published. */
  function Entered(st: State, k: nat): seq<string>
    requires k < |st.published| <= |st.order| + 1
  {
    st.order[..|st.order| - |st.published| + 1 + k]
  }

  predicate ThreadInv(st: State, task: Task, pc: Pc, t: nat)
    requires st.published != []
  {
    && (InCritical(pc) <==> st.lock == t + 1)
    && (match task
        case Register(value) =>
          && !pc.NotEmpty? && !pc.Scrubbed?
          && (InCritical(pc) ==> value.Str? && value.text != "")
          && (pc.Missing? || pc.Built? ==> value.text !in st.order)
          && (pc.Built? ==> pc.list == StableSort(Current(st) + [value.text], ByLength))
          && (pc.Leaving? || (pc.Finished? && value.Str? && value.text != "") ==> value.text in st.order)
        case ScrubLine(text) =>
          && (pc.Ready? || pc.NotEmpty? || pc.Scrubbed?)
          && (pc.NotEmpty? ==> pc.since < |st.published|)
          && (pc.Scrubbed? ==>
                && pc.since <= pc.used < |st.published| && NonEmpty(st.published[pc.used])
                && pc.out == Scrub(text, st.published[pc.used])))
  }

  predicate Inv(st: State, tasks: seq<Task>) {
    && History(st) && NonEmpty(Current(st)) && |st.pcs| == |tasks| && st.lock <= |tasks|
    && forall t :: 0 <= t < |tasks| ==> ThreadInv(st, tasks[t], st.pcs[t], t)
  }

  lemma {:induction false} CurrentSorts(st: State)
    requires History(st)
    ensures Current(st) == StableSort(st.order, ByLength) && Published(Current(st))
    ensures forall v :: v in Current(st) <==> v in st.order
  {
    assert Entered(st, |st.published| - 1) == st.order;
    SortedPublishes(st.order);
  }

  lemma InitialInv(st: State, tasks: seq<Task>)
    requires Initial(st, tasks)
    ensures Inv(st, tasks)
  {
    hide StableSort;
    assert History(st) by {
      assert Entered(st, 0) == st.order;
      SortSorted(st.order, ByLength);
    }
    assert Current(st) == st.order;
    forall t | 0 <= t < |tasks| ensures ThreadInv(st, tasks[t], st.pcs[t], t) { assert st.pcs[t] == Ready; }
  }

  lemma PublishKeepsHistory(st: State, v: string, list: seq<string>)
    requires History(st) && v != "" && v !in st.order
    requires list == StableSort(Current(st) + [v], ByLength)
    ensures History(st.(published := st.published + [list], order := st.order + [v]))
  {
    hide StableSort;
    var st' := st.(published := st.published + [list], order := st.order + [v]);
    CurrentSorts(st);
    SortIncrementally(st.order, v, ByLength);
    forall k | 0 <= k < |st'.published| ensures st'.published[k] == StableSort(Entered(st', k), ByLength) {
      if k < |st.published| {
        assert Entered(st', k) == Entered(st, k);
      } else {
        assert Entered(st', k) == st'.order;
      }
    }
  }

  lemma StepKeepsInv(st: State, tasks: seq<Task>, t: nat)
    requires Inv(st, tasks)
    ensures Inv(Step(st, tasks, t), tasks)
  {
    hide StableSort, Scrub;
    var st' := Step(st, tasks, t);
    if t < |tasks| {
      StepKeepsHistory(st, tasks, t);
      StepMoves(st, tasks, t);
      CurrentSorts(st');
      forall u | 0 <= u < |tasks| ensures ThreadInv(st', tasks[u], st'.pcs[u], u) {
        if u == t { OwnStep(st, tasks, t); } else { OtherThread(st, st', tasks[u], st.pcs[u], u, t); }
      }
    }
  }

  lemma StepKeepsHistory(st: State, tasks: seq<Task>, t: nat)
    requires Inv(st, tasks) && t < |tasks|
    ensures History(Step(st, tasks, t))
  {
    hide StableSort, Scrub;
    var st' := Step(st, tasks, t);
    assert ThreadInv(st, tasks[t], st.pcs[t], t);
    if tasks[t].Register? && st.pcs[t].Built? {
      PublishKeepsHistory(st, tasks[t].value.text, st.pcs[t].list);
    } else {
      assert st'.published == st.published && st'.order == st.order;
      assert forall k :: 0 <= k < |st.published| ==> Entered(st', k) == Entered(st, k);
    }
  }

  /** What a step of thread t can change: the list only under the lock, the lock only for itself. */
  lemma StepMoves(st: State, tasks: seq<Task>, t: nat)
    requires Inv(st, tasks) && t < |tasks|
    ensures var st' := Step(st, tasks, t);
            && st.published <= st'.published && st.order <= st'.order
            && ((st'.published == st.published && st'.order == st.order) || st.lock == t + 1)
            && (st'.lock == st.lock || (st.lock == 0 && st'.lock == t + 1) || (st.lock == t + 1 && st'.lock == 0))
            && |st'.pcs| == |st.pcs| && (forall u :: 0 <= u < |st.pcs| && u != t ==> st'.pcs[u] == st.pcs[u])
            && |st'.order| - |st'.published| == |st.order| - |st.published|
  {
    hide StableSort, Scrub;
    assert ThreadInv(st, tasks[t], st.pcs[t], t);
  }

  lemma OtherThread(st: State, st': State, task: Task, pc: Pc, u: nat, t: nat)
    requires u != t && st.published != [] && ThreadInv(st, task, pc, u)
    requires st.published <= st'.published && st.order <= st'.order
    requires (st'.published == st.published && st'.order == st.order) || st.lock == t + 1
    requires st'.lock == st.lock || (st.lock == 0 && st'.lock == t + 1) || (st.lock == t + 1 && st'.lock == 0)
    ensures ThreadInv(st', task, pc, u)
  {
    hide StableSort, Scrub;
  }

  lemma OwnStep(st: State, tasks: seq<Task>, t: nat)
    requires Inv(st, tasks) && t < |tasks|
    requires Step(st, tasks, t).published != []
    ensures ThreadInv(Step(st, tasks, t), tasks[t], Step(st, tasks, t).pcs[t], t)
  {
    hide StableSort, Scrub;
    CurrentSorts(st);
    assert ThreadInv(st, tasks[t], st.pcs[t], t);
    match tasks[t]
    case Register(value) => OwnWriterStep(st, value, t);
    case ScrubLine(text) => OwnReaderStep(st, text, t);
  }

  lemma OwnWriterStep(st: State, value: PyValue, t: nat)
    requires t < |st.pcs| && st.published != []
    requires ThreadInv(st, Register(value), st.pcs[t], t)
    requires forall v :: v in Current(st) <==> v in st.order
    ensures ThreadInv(WriterStep(st, t, value), Register(value), WriterStep(st, t, value).pcs[t], t)
  {
    hide StableSort, Scrub;
  }

  lemma OwnReaderStep(st: State, text: string, t: nat)
    requires t < |st.pcs| && st.published != [] && NonEmpty(Current(st))
    requires ThreadInv(st, ScrubLine(text), st.pcs[t], t)
    ensures ThreadInv(ReaderStep(st, t, text), ScrubLine(text), ReaderStep(st, t, text).pcs[t], t)
  {
    assert Scrub(text, []) == text;
  }

  // ----- Runs: any schedule, any number of steps

  function Run(st: State, tasks: seq<Task>, schedule: seq<nat>): (r: State)
    requires Inv(st, tasks)
    ensures Inv(r, tasks)
    decreases |schedule|
  {
    if schedule == [] then st
    else
      StepKeepsInv(st, tasks, schedule[0]);
      Run(Step(st, tasks, schedule[0]), tasks, schedule[1..])
  }

  /** Nothing published is ever taken back or changed, and the values only accumulate. */
  ghost predicate Extends(st': State, st: State) {
    st.published <= st'.published && st.order <= st'.order
  }

  lemma {:induction false} RunExtends(st: State, tasks: seq<Task>, schedule: seq<nat>)
    requires Inv(st, tasks)
    ensures Extends(Run(st, tasks, schedule), st)
    decreases |schedule|
  {
    if schedule != [] {
      if schedule[0] < |tasks| { StepMoves(st, tasks, schedule[0]); }
      StepKeepsInv(st, tasks, schedule[0]);
      RunExtends(Step(st, tasks, schedule[0]), tasks, schedule[1..]);
    }
  }

  /** In every interleaving every published list is free of duplicates and empty values, longest
      first, and the stable sort of the values so far in lock order; a list holds everything an
      earlier one held. */
  lemma PublishedLists(st: State, tasks: seq<Task>, schedule: seq<nat>)
    requires Initial(st, tasks)
    ensures Inv(st, tasks)
    ensures var end := Run(st, tasks, schedule);
            && (forall k :: 0 <= k < |end.published| ==>
                  Published(end.published[k]) && IsStableSort(end.published[k], Entered(end, k), ByLength))
            && (forall j, k, v :: 0 <= j <= k < |end.published| && v in end.published[j] ==> v in end.published[k])
  {
    InitialInv(st, tasks);
    var end := Run(st, tasks, schedule);
    forall k | 0 <= k < |end.published|
      ensures Published(end.published[k]) && IsStableSort(end.published[k], Entered(end, k), ByLength)
      ensures forall v :: v in end.published[k] <==> v in Entered(end, k)
    {
      ListSorts(end, k);
    }
    forall j, k, v | 0 <= j <= k < |end.published| && v in end.published[j] ensures v in end.published[k] {
      ListSorts(end, j);
      ListSorts(end, k);
      assert Entered(end, j) <= Entered(end, k);
    }
  }

  lemma ListSorts(st: State, k: nat)
    requires History(st) && k < |st.published|
    ensures Published(st.published[k]) && IsStableSort(st.published[k], Entered(st, k), ByLength)
    ensures forall v :: v in st.published[k] <==> v in Entered(st, k)
  {
    assert st.published[k] == StableSort(Entered(st, k), ByLength);
    SortedPublishes(Entered(st, k));
    StableSortIsStable(Entered(st, k), ByLength);
  }

  /** No completed registration is lost: its value is in the list current at that time and in
      every later one, whatever the other threads do. */
  lemma RegistrationsNeverLost(st: State, tasks: seq<Task>, before: seq<nat>, after: seq<nat>, w: nat, v: string)
    requires Initial(st, tasks) && Inv(st, tasks)
    requires w < |tasks| && tasks[w] == Register(Str(v)) && v != ""
    requires Run(st, tasks, before).pcs[w] == Finished
    ensures v in Current(Run(Run(st, tasks, before), tasks, after))
  {
    var mid := Run(st, tasks, before);
    var end := Run(mid, tasks, after);
    assert ThreadInv(mid, tasks[w], mid.pcs[w], w);
    RunExtends(mid, tasks, after);
    CurrentSorts(end);
  }

  /** A reader scrubs against one published list, and everything whose registration had completed
      when the reader started is in it. */
  lemma ReaderSeesCompletedRegistrations(st: State, tasks: seq<Task>, before: seq<nat>, after: seq<nat>, w: nat, v: string, r: nat)
    requires Initial(st, tasks) && Inv(st, tasks)
    requires w < |tasks| && tasks[w] == Register(Str(v)) && v != ""
    requires r < |tasks| && tasks[r].ScrubLine?
    requires Run(st, tasks, before).pcs[w] == Finished && Run(st, tasks, before).pcs[r] == Ready
    requires Run(Run(st, tasks, before), tasks, after).pcs[r].Scrubbed?
    ensures var end := Run(Run(st, tasks, before), tasks, after);
            exists list :: list in end.published && Published(list) && v in list
              && end.pcs[r].out == Scrub(tasks[r].text, list)
              && (Clear(v, MARK) ==> !Contains(end.pcs[r].out, v))
  {
    hide Run, Scrub, Contains, Clear, Published;
    var mid := Run(st, tasks, before);
    var end := Run(mid, tasks, after);
    assert ThreadInv(mid, tasks[w], mid.pcs[w], w) && ThreadInv(end, tasks[r], end.pcs[r], r);
    RunExtends(mid, tasks, after);
    SinceKept(mid, tasks, after, r, |mid.published| - 1);
    var k := end.pcs[r].used;
    ListSorts(end, k);
    assert mid.order <= Entered(end, k) by { GrowTogether(st, tasks, before + after); RunSplit(st, tasks, before, after); GrowTogether(st, tasks, before); }
    var list := end.published[k];
    if Clear(v, MARK) { ScrubBringsNone(tasks[r].text, list, v); }
  }

  predicate Since(st: State, r: nat, since: nat) {
    r < |st.pcs| && match st.pcs[r] case NotEmpty(s) => since <= s case Scrubbed(_, s, _) => since <= s case _ => true
  }

  lemma SinceStep(st: State, tasks: seq<Task>, t: nat, r: nat, since: nat)
    requires Inv(st, tasks) && r < |tasks| && tasks[r].ScrubLine? && since < |st.published|
    requires Since(st, r, since)
    ensures Since(Step(st, tasks, t), r, since) && since < |Step(st, tasks, t).published|
  {
    hide StableSort, Scrub;
  }

  /** A reader that had not started when list `since` was current uses no older list. */
  lemma {:induction false} SinceKept(st: State, tasks: seq<Task>, schedule: seq<nat>, r: nat, since: nat)
    requires Inv(st, tasks) && r < |tasks| && tasks[r].ScrubLine? && since < |st.published|
    requires Since(st, r, since)
    ensures Since(Run(st, tasks, schedule), r, since)
    decreases |schedule|
  {
    hide StableSort, Scrub, Inv;
    if schedule != [] {
      StepKeepsInv(st, tasks, schedule[0]);
      SinceStep(st, tasks, schedule[0], r, since);
      SinceKept(Step(st, tasks, schedule[0]), tasks, schedule[1..], r, since);
    }
  }

  /** Each publication brings in one value. */
  lemma {:induction false} GrowTogether(st: State, tasks: seq<Task>, schedule: seq<nat>)
    requires Inv(st, tasks)
    ensures var end := Run(st, tasks, schedule);
            |end.order| - |end.published| == |st.order| - |st.published|
    decreases |schedule|
  {
    if schedule != [] {
      if schedule[0] < |tasks| { StepMoves(st, tasks, schedule[0]); }
      StepKeepsInv(st, tasks, schedule[0]);
      GrowTogether(Step(st, tasks, schedule[0]), tasks, schedule[1..]);
    }
  }

  lemma {:induction false} RunSplit(st: State, tasks: seq<Task>, a: seq<nat>, b: seq<nat>)
    requires Inv(st, tasks)
    ensures Run(st, tasks, a + b) == Run(Run(st, tasks, a), tasks, b)
    decreases |a|
  {
    if a == [] {
      assert a + b == b;
    } else {
      StepKeepsInv(st, tasks, a[0]);
      assert (a + b)[1..] == a[1..] + b;
      RunSplit(Step(st, tasks, a[0]), tasks, a[1..], b);
    }
  }

  // ----- Progress: the lock never blocks anyone for good

  predicate Done(pc: Pc) { pc.Finished? || pc.Scrubbed? }

  /** How many steps a thread is from its end, when it is not kept waiting. */
  function Left(pc: Pc): nat {
    match pc
    case Ready => 5
    case Holding => 4
    case Missing => 3
    case Built(_) => 2
    case Leaving => 1
    case NotEmpty(_) => 1
    case _ => 0
  }

  lemma SoloStep(st: State, tasks: seq<Task>, t: nat)
    requires Inv(st, tasks) && t < |tasks| && (st.lock == 0 || st.lock == t + 1)
    ensures var st' := Step(st, tasks, t);
            && |st'.pcs| == |st.pcs| && (st'.lock == 0 || st'.lock == t + 1)
            && (Left(st'.pcs[t]) < Left(st.pcs[t]) || (Done(st.pcs[t]) && st' == st))
            && forall u :: 0 <= u < |st.pcs| && u != t ==> st'.pcs[u] == st.pcs[u]
  {
    hide StableSort, Scrub;
    assert ThreadInv(st, tasks[t], st.pcs[t], t);
  }

  function Times(t: nat, n: nat): seq<nat> {
    if n == 0 then [] else [t] + Times(t, n - 1)
  }

  /** A thread that finds the lock free, or holds it, ends after a few steps of its own and leaves
      the lock free. */
  lemma {:induction false} SoloFinishes(st: State, tasks: seq<Task>, t: nat, n: nat)
    requires Inv(st, tasks) && t < |tasks| && (st.lock == 0 || st.lock == t + 1) && Left(st.pcs[t]) <= n
    ensures var end := Run(st, tasks, Times(t, n));
            && end.lock == 0 && Done(end.pcs[t])
            && forall u :: 0 <= u < |tasks| && u != t ==> end.pcs[u] == st.pcs[u]
    decreases n
  {
    hide StableSort, Scrub, WriterStep, ReaderStep;
    assert ThreadInv(st, tasks[t], st.pcs[t], t);
    if n > 0 {
      SoloStep(st, tasks, t);
      StepKeepsInv(st, tasks, t);
      assert Times(t, n)[0] == t && Times(t, n)[1..] == Times(t, n - 1);
      SoloFinishes(Step(st, tasks, t), tasks, t, n - 1);
    }
  }

  lemma {:induction false} FinishFrom(st: State, tasks: seq<Task>, k: nat) returns (schedule: seq<nat>)
    requires Inv(st, tasks) && st.lock == 0 && k <= |tasks|
    requires forall t :: 0 <= t < k ==> Done(st.pcs[t])
    ensures forall t :: 0 <= t < |tasks| ==> Done(Run(st, tasks, schedule).pcs[t])
    decreases |tasks| - k
  {
    hide StableSort, Scrub, Step;
    if k == |tasks| {
      schedule := [];
    } else {
      SoloFinishes(st, tasks, k, 5);
      var rest := FinishFrom(Run(st, tasks, Times(k, 5)), tasks, k + 1);
      schedule := Times(k, 5) + rest;
      RunSplit(st, tasks, Times(k, 5), rest);
    }
  }

  /** From every reachable state all threads can still finish. */
  lemma AllCanFinish(st: State, tasks: seq<Task>, before: seq<nat>) returns (schedule: seq<nat>)
    requires Initial(st, tasks) && Inv(st, tasks)
    ensures forall t :: 0 <= t < |tasks| ==> Done(Run(Run(st, tasks, before), tasks, schedule).pcs[t])
  {
    hide StableSort, Scrub, Step;
    var mid := Run(st, tasks, before);
    if mid.lock == 0 {
      schedule := FinishFrom(mid, tasks, 0);
    } else {
      var holder: nat := mid.lock - 1;
      SoloFinishes(mid, tasks, holder, 5);
      var rest := FinishFrom(Run(mid, tasks, Times(holder, 5)), tasks, 0);
      schedule := Times(holder, 5) + rest;
      RunSplit(mid, tasks, Times(holder, 5), rest);
    }
  }

  /** With nobody in its way, a writer's five steps are one call of register_secret. */
  lemma LoneWriterRegisters(st: State, tasks: seq<Task>, t: nat, value: PyValue)
    requires Inv(st, tasks) && t < |tasks| && tasks[t] == Register(value) && st.pcs[t] == Ready && st.lock == 0
    ensures var end := Run(st, tasks, [t, t, t, t, t]);
            end.pcs[t] == Finished && end.lock == 0 && Current(end) == Registered(Current(st), value)
  {
    hide Run, Inv, WriterStep, Registered;
    Basics(st, tasks);
    var one := FirstStep(st, tasks, t, value, [t, t, t, t]);
    var two := FirstStep(one, tasks, t, value, [t, t, t]);
    var three := FirstStep(two, tasks, t, value, [t, t]);
    var four := FirstStep(three, tasks, t, value, [t]);
    var five := FirstStep(four, tasks, t, value, []);
    assert [t] + [t, t, t, t] == [t, t, t, t, t] && [t] + [t, t, t] == [t, t, t, t] && [t] + [t, t] == [t, t, t] && [t] + [t] == [t, t] && [t] + [] == [t];
    NoMoreSteps(five, tasks);
    FiveSteps(st, one, two, three, four, five, t, value);
  }

  lemma Basics(st: State, tasks: seq<Task>)
    requires Inv(st, tasks)
    ensures |st.pcs| == |tasks| && st.published != []
  {
    hide StableSort;
  }

  lemma NoMoreSteps(st: State, tasks: seq<Task>)
    requires Inv(st, tasks)
    ensures Run(st, tasks, []) == st
  {
    hide Inv;
  }

  lemma FirstStep(st: State, tasks: seq<Task>, t: nat, value: PyValue, rest: seq<nat>) returns (next: State)
    requires Inv(st, tasks) && t < |tasks| && tasks[t] == Register(value)
    ensures t < |st.pcs| && st.published != [] && next == WriterStep(st, t, value)
    ensures Inv(next, tasks) && Run(st, tasks, [t] + rest) == Run(next, tasks, rest)
    ensures t < |next.pcs| && next.published != []
  {
    hide WriterStep;
    next := Step(st, tasks, t);
    StepKeepsInv(st, tasks, t);
    Basics(st, tasks);
    Basics(next, tasks);
    hide Inv;
    assert ([t] + rest)[0] == t && ([t] + rest)[1..] == rest;
  }

  lemma FiveSteps(st: State, one: State, two: State, three: State, four: State, five: State, t: nat, value: PyValue)
    requires t < |st.pcs| && st.published != [] && st.pcs[t] == Ready && st.lock == 0 && one == WriterStep(st, t, value)
    requires t < |one.pcs| && one.published != [] && two == WriterStep(one, t, value)
    requires t < |two.pcs| && two.published != [] && three == WriterStep(two, t, value)
    requires t < |three.pcs| && three.published != [] && four == WriterStep(three, t, value)
    requires t < |four.pcs| && four.published != [] && five == WriterStep(four, t, value)
    ensures t < |five.pcs| && five.published != []
    ensures five.pcs[t] == Finished && five.lock == 0 && Current(five) == Registered(Current(st), value)
  {
    hide StableSort;
  }
}
