/** The bounded, per-class FIFO with weighted round-robin dequeue of
    scheduler/admission/queue.go: its imperative form (class `Queue`), the
    function each method computes, and what holds over every run of calls. */
module AdmissionQueue {

  datatype PriorityClass = High | Medium | Low

  /** A 70/20/10 split as a ten-slot repeating cycle. */
  const WEIGHT_SEQUENCE: seq<PriorityClass> :=
    [High, High, High, High, High, High, High, Medium, Medium, Low]

  datatype AdmitResult = Admitted | ErrQueueFull

  datatype Dispatch<T> = Empty | Served(request: T, priorityClass: PriorityClass)

  /** The queue as a value. Everything below holds for any slot table that mentions every
      class; the repository's own table, WEIGHT_SEQUENCE, is plugged in by class Queue. */
  datatype QueueState<T> = QueueState(table: seq<PriorityClass>, buckets: map<PriorityClass, seq<T>>,
                                      cursor: nat, capacity: int)
  {
    ghost predicate Valid() {
      && cursor < |table|
      && (forall c: PriorityClass :: c in table)
      && (forall c: PriorityClass :: c in buckets)
      && (forall c: PriorityClass :: buckets[c] == [] || |buckets[c]| <= capacity)
    }

    function Len(): nat
      requires Valid()
    {
      |buckets[High]| + |buckets[Medium]| + |buckets[Low]|
    }

    ghost function Contents(): multiset<T>
      requires Valid()
    {
      multiset(buckets[High]) + multiset(buckets[Medium]) + multiset(buckets[Low])
    }
  }

  // ---------- What one call does ----------

  function AdmitTo<T>(s: QueueState<T>, c: PriorityClass, x: T): (r: (QueueState<T>, AdmitResult))
    requires s.Valid()
    ensures r.0.Valid()
  {
    if |s.buckets[c]| >= s.capacity then (s, ErrQueueFull)
    else (s.(buckets := s.buckets[c := s.buckets[c] + [x]]), Admitted)
  }

  /** The slot after this one in the endlessly repeated cycle of `length` slots. */
  function Succ(length: nat, at: nat): (next: nat)
    ensures length > 0 ==> next < length
  {
    if at + 1 < length then at + 1 else 0
  }

  function Forward(length: nat, at: nat, n: nat): (to: nat)
    ensures at < length ==> to < length
    decreases n
  {
    if n == 0 then at else Forward(length, Succ(length, at), n - 1)
  }

  /** How many of the n slots from `at` on come before the first one whose class is backlogged. */
  function Skipped<T>(table: seq<PriorityClass>, b: map<PriorityClass, seq<T>>, at: nat, n: nat): (k: nat)
    requires at < |table| && forall c: PriorityClass :: c in b
    ensures k <= n
    decreases n
  {
    if n == 0 || b[table[at]] != [] then 0 else 1 + Skipped(table, b, Succ(|table|, at), n - 1)
  }

  function NextOf<T>(s: QueueState<T>): (r: (QueueState<T>, Dispatch<T>))
    requires s.Valid()
    ensures r.0.Valid()
  {
    var k := Skipped(s.table, s.buckets, s.cursor, |s.table|);
    var at := Forward(|s.table|, s.cursor, k);
    var c := s.table[at];
    if k == |s.table| || s.buckets[c] == [] then (s, Empty)
    else
      (s.(buckets := s.buckets[c := s.buckets[c][1..]], cursor := Succ(|s.table|, at)),
       Served(s.buckets[c][0], c))
  }

  // ---------- The queue itself ----------

  class Queue<T> {
    var buckets: map<PriorityClass, seq<T>>
    var cursor: nat
    const capacity: int

    ghost predicate Valid()
      reads this
    {
      State().Valid()
    }

    ghost function State(): QueueState<T>
      reads this
    {
      QueueState(WEIGHT_SEQUENCE, buckets, cursor, capacity)
    }

    constructor (capacityPerClass: int)
      ensures Valid()
      ensures State() == QueueState(WEIGHT_SEQUENCE, map[High := [], Medium := [], Low := []], 0, capacityPerClass)
    {
      buckets := map[High := [], Medium := [], Low := []];
      cursor := 0;
      capacity := capacityPerClass;
      new;
      forall c: PriorityClass
        ensures c in WEIGHT_SEQUENCE && c in buckets && buckets[c] == []
      {
        assert WEIGHT_SEQUENCE[0] == High && WEIGHT_SEQUENCE[7] == Medium && WEIGHT_SEQUENCE[9] == Low;
        match c case High => case Medium => case Low =>
      }
    }

    method Admit(c: PriorityClass, x: T) returns (r: AdmitResult)
      requires Valid()
      modifies this
      ensures Valid()
      ensures (State(), r) == AdmitTo(old(State()), c, x)
    {
      var b := buckets[c];
      if |b| >= capacity {
        return ErrQueueFull;
      }
      buckets := buckets[c := b + [x]];
      return Admitted;
    }

    method Next() returns (r: Dispatch<T>)
      requires Valid()
      modifies this
      ensures Valid()
      ensures (State(), r) == NextOf(old(State()))
    {
      ghost var before := State();
      ScanStart(before);
      hide NextOf, Skipped, Forward, Scanning;
      for i := 0 to |WEIGHT_SEQUENCE|
        invariant State() == before.(cursor := cursor) && Scanning(before, i, cursor)
      {
        ScanStep(before, i, cursor);
        var c := WEIGHT_SEQUENCE[cursor];
        cursor := (cursor + 1) % |WEIGHT_SEQUENCE|;
        var b := buckets[c];
        if |b| > 0 {
          buckets := buckets[c := b[1..]];
          return Served(b[0], c);
        }
      }
      ScanEnd(before, cursor);
      return Empty;
    }

    method Len() returns (n: nat)
      requires Valid()
      ensures n == State().Len()
    {
      n := |buckets[High]| + |buckets[Medium]| + |buckets[Low]|;
    }
  }

  // ---------- Going round the cycle ----------

  lemma {:induction false} ForwardSucc(length: nat, at: nat, n: nat)
    ensures Forward(length, at, n + 1) == Succ(length, Forward(length, at, n))
    decreases n
  {
    if n > 0 { ForwardSucc(length, Succ(length, at), n - 1); }
  }

  lemma {:induction false} ForwardSplit(length: nat, at: nat, m: nat, n: nat)
    ensures Forward(length, at, m + n) == Forward(length, Forward(length, at, m), n)
    decreases m
  {
    if m > 0 { ForwardSplit(length, Succ(length, at), m - 1, n); }
  }

  lemma {:induction false} ForwardSteps(length: nat, at: nat, n: nat)
    requires at + n < length
    ensures Forward(length, at, n) == at + n
    decreases n
  {
    if n > 0 { ForwardSteps(length, at + 1, n - 1); }
  }

  /** From any slot, any slot is less than one cycle ahead. */
  lemma Reach(length: nat, at: nat, slot: nat) returns (i: nat)
    requires at < length && slot < length
    ensures i < length && Forward(length, at, i) == slot
  {
    if at <= slot {
      i := slot - at;
      ForwardSteps(length, at, i);
    } else {
      i := length - at + slot;
      ForwardSteps(length, at, length - 1 - at);
      ForwardSplit(length, at, length - 1 - at, 1 + slot);
      assert Forward(length, length - 1, 1 + slot) == Forward(length, 0, slot);
      ForwardSteps(length, 0, slot);
    }
  }

  /** One cycle on, the cursor is back where it was. */
  lemma ForwardCycle(length: nat, at: nat)
    requires at < length
    ensures Forward(length, at, length) == at
  {
    ForwardSteps(length, at, length - 1 - at);
    ForwardSplit(length, at, length - 1 - at, 1 + at);
    assert Forward(length, length - 1, 1 + at) == Forward(length, 0, at);
    ForwardSteps(length, 0, at);
  }

  // ---------- One call of Next ----------

  /** After i slots of the scan, all of them of empty classes, the cursor is i slots on. */
  ghost predicate Scanning<T>(s: QueueState<T>, i: nat, cursor: nat) {
    && s.Valid() && i <= |s.table| && cursor == Forward(|s.table|, s.cursor, i)
    && Skipped(s.table, s.buckets, s.cursor, |s.table|) == i + Skipped(s.table, s.buckets, cursor, |s.table| - i)
  }

  lemma ScanStart<T>(s: QueueState<T>)
    requires s.Valid()
    ensures Scanning(s, 0, s.cursor)
  {
    assert Forward(|s.table|, s.cursor, 0) == s.cursor;
  }

  /** What the next slot of the scan decides. */
  lemma ScanStep<T>(s: QueueState<T>, i: nat, at: nat)
    requires i < |s.table| && Scanning(s, i, at)
    ensures s.Valid() && at < |s.table|
    ensures var c := s.table[at];
            if s.buckets[c] == [] then Scanning(s, i + 1, Succ(|s.table|, at))
            else NextOf(s) == (s.(buckets := s.buckets[c := s.buckets[c][1..]], cursor := Succ(|s.table|, at)),
                               Served(s.buckets[c][0], c))
  {
    ForwardSucc(|s.table|, s.cursor, i);
  }

  lemma ScanEnd<T>(s: QueueState<T>, cursor: nat)
    requires Scanning(s, |s.table|, cursor)
    ensures cursor == s.cursor && NextOf(s) == (s, Empty)
  {
    ForwardCycle(|s.table|, s.cursor);
  }

  /** The slots skipped are those whose class is empty, and the scan stops at the first that is not. */
  lemma {:induction false} SkippedMeans<T>(table: seq<PriorityClass>, b: map<PriorityClass, seq<T>>, at: nat, n: nat)
    requires at < |table| && forall c: PriorityClass :: c in b
    ensures var k := Skipped(table, b, at, n);
            && (forall i | 0 <= i < k :: b[table[Forward(|table|, at, i)]] == [])
            && (k < n ==> b[table[Forward(|table|, at, k)]] != [])
    decreases n
  {
    if n == 0 || b[table[at]] != [] {
    } else {
      var next := Succ(|table|, at);
      SkippedMeans(table, b, next, n - 1);
      forall i | 0 <= i < Skipped(table, b, at, n)
        ensures b[table[Forward(|table|, at, i)]] == []
      {
        if i > 0 { assert Forward(|table|, at, i) == Forward(|table|, next, i - 1); }
      }
    }
  }

  /** Next reports empty exactly when nothing is queued, and then moves nothing;
      otherwise it removes the oldest request of the class it names. */
  lemma NextIsWorkConserving<T>(s: QueueState<T>)
    requires s.Valid()
    ensures var (s', d) := NextOf(s);
            && (d.Empty? <==> forall c: PriorityClass :: s.buckets[c] == [])
            && (d.Empty? ==> s' == s)
            && (d.Served? ==>
                  && s.buckets[d.priorityClass] == [d.request] + s'.buckets[d.priorityClass]
                  && (forall c | c != d.priorityClass :: s'.buckets[c] == s.buckets[c])
                  && s'.capacity == s.capacity && s'.table == s.table)
  {
    SkippedMeans(s.table, s.buckets, s.cursor, |s.table|);
    forall c: PriorityClass | NextOf(s).1.Empty?
      ensures s.buckets[c] == []
    {
      assert c in s.table;
      var slot :| 0 <= slot < |s.table| && s.table[slot] == c;
      var i := Reach(|s.table|, s.cursor, slot);
    }
  }

  lemma AdmitConserves<T>(s: QueueState<T>, c: PriorityClass, x: T)
    requires s.Valid()
    ensures var (s', r) := AdmitTo(s, c, x);
            if r.Admitted? then s'.Contents() == s.Contents() + multiset{x} && s'.Len() == s.Len() + 1
            else s' == s
  {
  }

  lemma NextConserves<T>(s: QueueState<T>)
    requires s.Valid() && NextOf(s).1.Served?
    ensures NextOf(s).0.Contents() + multiset{NextOf(s).1.request} == s.Contents()
    ensures NextOf(s).0.Len() + 1 == s.Len()
  {
    NextIsWorkConserving(s);
    hide NextOf, QueueState.Contents;
    var (s', d) := NextOf(s);
    OneLess(s, s', d.priorityClass, d.request);
    assert |s.buckets[d.priorityClass]| == 1 + |s'.buckets[d.priorityClass]|;
    match d.priorityClass case High => case Medium => case Low =>
  }

  lemma OneLess<T>(s: QueueState<T>, s': QueueState<T>, c: PriorityClass, x: T)
    requires s.Valid() && s'.Valid()
    requires s.buckets[c] == [x] + s'.buckets[c]
    requires forall d | d != c :: s'.buckets[d] == s.buckets[d]
    ensures s'.Contents() + multiset{x} == s.Contents()
  {
  }

  // ---------- Runs: any interleaving of admissions and dequeues ----------

  datatype Call<T> = AdmitCall(priorityClass: PriorityClass, request: T) | NextCall

  function Apply<T>(s: QueueState<T>, call: Call<T>): (s': QueueState<T>)
    requires s.Valid()
    ensures s'.Valid()
  {
    match call
    case AdmitCall(c, x) => AdmitTo(s, c, x).0
    case NextCall => NextOf(s).0
  }

  function Run<T>(s: QueueState<T>, calls: seq<Call<T>>): (s': QueueState<T>)
    requires s.Valid()
    ensures s'.Valid()
    decreases calls
  {
    if calls == [] then s else Run(Apply(s, calls[0]), calls[1..])
  }

  function NextCalls<T>(calls: seq<Call<T>>): nat {
    if calls == [] then 0 else (if calls[0].NextCall? then 1 else 0) + NextCalls(calls[1..])
  }

  /** The requests one call hands out for class c. */
  function Handed<T>(s: QueueState<T>, call: Call<T>, c: PriorityClass): seq<T>
    requires s.Valid()
  {
    if call.NextCall? then
      var d := NextOf(s).1;
      if d.Served? && d.priorityClass == c then [d.request] else []
    else []
  }

  /** The requests one call takes in for class c. */
  function Taken<T>(s: QueueState<T>, call: Call<T>, c: PriorityClass): seq<T>
    requires s.Valid()
  {
    if call.AdmitCall? && call.priorityClass == c && AdmitTo(s, c, call.request).1.Admitted?
    then [call.request] else []
  }

  /** All requests of class c dequeued over a run, in order. */
  function Dequeued<T>(s: QueueState<T>, calls: seq<Call<T>>, c: PriorityClass): seq<T>
    requires s.Valid()
    decreases calls
  {
    if calls == [] then []
    else Handed(s, calls[0], c) + Dequeued(Apply(s, calls[0]), calls[1..], c)
  }

  /** All requests of class c accepted over a run, in order. */
  function Accepted<T>(s: QueueState<T>, calls: seq<Call<T>>, c: PriorityClass): seq<T>
    requires s.Valid()
    decreases calls
  {
    if calls == [] then []
    else Taken(s, calls[0], c) + Accepted(Apply(s, calls[0]), calls[1..], c)
  }

  lemma OneCallIsFifo<T>(s: QueueState<T>, call: Call<T>, c: PriorityClass)
    requires s.Valid()
    ensures Handed(s, call, c) + Apply(s, call).buckets[c] == s.buckets[c] + Taken(s, call, c)
  {
  }

  lemma Glue<T>(start: seq<T>, handed: seq<T>, mid: seq<T>, taken: seq<T>, later: seq<T>, end: seq<T>, accepted: seq<T>)
    requires handed + mid == start + taken && later + end == mid + accepted
    ensures (handed + later) + end == start + (taken + accepted)
  {
    assert (handed + later) + end == handed + (later + end);
    assert handed + (mid + accepted) == (handed + mid) + accepted;
    assert (start + taken) + accepted == start + (taken + accepted);
  }

  /** Within a class, dequeue order is admission order over any run: nothing is lost, doubled or overtaken. */
  lemma {:induction false} FifoPerClass<T>(s: QueueState<T>, calls: seq<Call<T>>, c: PriorityClass)
    requires s.Valid()
    ensures Dequeued(s, calls, c) + Run(s, calls).buckets[c] == s.buckets[c] + Accepted(s, calls, c)
    decreases calls
  {
    if calls == [] {
    } else {
      var s' := Apply(s, calls[0]);
      FifoPerClass(s', calls[1..], c);
      OneCallIsFifo(s, calls[0], c);
      Glue(s.buckets[c], Handed(s, calls[0], c), s'.buckets[c], Taken(s, calls[0], c),
           Dequeued(s', calls[1..], c), Run(s', calls[1..]).buckets[c], Accepted(s', calls[1..], c));
    }
  }

  // ---------- Slot arithmetic ----------

  /** How many of the n slots from `from` on belong to a class in `classes`. */
  function SlotsIn(table: seq<PriorityClass>, classes: set<PriorityClass>, from: nat, n: nat): (k: nat)
    requires from < |table|
    ensures k <= n
    decreases n
  {
    if n == 0 then 0
    else (if table[from] in classes then 1 else 0) + SlotsIn(table, classes, Succ(|table|, from), n - 1)
  }

  /** The slots a class owns in one cycle of the table. */
  function Weight(table: seq<PriorityClass>, c: PriorityClass): nat
    requires |table| > 0
  {
    SlotsIn(table, {c}, 0, |table|)
  }

  lemma {:induction false} SlotsSplit(table: seq<PriorityClass>, classes: set<PriorityClass>, from: nat, m: nat, n: nat)
    requires from < |table|
    ensures SlotsIn(table, classes, from, m + n)
         == SlotsIn(table, classes, from, m) + SlotsIn(table, classes, Forward(|table|, from, m), n)
    decreases m
  {
    if m == 0 {
    } else {
      SlotsSplit(table, classes, Succ(|table|, from), m - 1, n);
    }
  }

  lemma {:induction false} NoSlots(table: seq<PriorityClass>, classes: set<PriorityClass>, from: nat, n: nat)
    requires from < |table|
    requires forall i | 0 <= i < n :: table[Forward(|table|, from, i)] !in classes
    ensures SlotsIn(table, classes, from, n) == 0
    decreases n
  {
    if n == 0 {
    } else {
      var next := Succ(|table|, from);
      assert Forward(|table|, from, 0) == from;
      forall i | 0 <= i < n - 1
        ensures table[Forward(|table|, next, i)] !in classes
      {
        assert Forward(|table|, from, i + 1) == Forward(|table|, next, i);
      }
      NoSlots(table, classes, next, n - 1);
    }
  }

  /** A whole cycle holds the same slots wherever it starts. */
  lemma {:induction false} CycleShare(table: seq<PriorityClass>, classes: set<PriorityClass>, from: nat)
    requires from < |table|
    ensures SlotsIn(table, classes, from, |table|) == SlotsIn(table, classes, 0, |table|)
  {
    if from == 0 {
    } else {
      var before, n := from - 1, |table| - 1;
      CycleShare(table, classes, before);
      SlotsSplit(table, classes, from, n, 1);
      ForwardCycle(|table|, before);
      assert Forward(|table|, from, n) == before;
      LastSlot(table, classes, before);
    }
  }

  lemma LastSlot(table: seq<PriorityClass>, classes: set<PriorityClass>, at: nat)
    requires at < |table|
    ensures SlotsIn(table, classes, at, 1) == if table[at] in classes then 1 else 0
  {
  }

  lemma OneMore(n: nat, x: nat)
    requires n > 0
    ensures n * x == x + (n - 1) * x
  {
  }

  /** Every full cycle contributes the weight, and the rest whatever the rest holds. */
  lemma {:induction false} CyclesShare(table: seq<PriorityClass>, c: PriorityClass, from: nat, cycles: nat, extra: nat)
    requires from < |table|
    ensures SlotsIn(table, {c}, from, cycles * |table| + extra)
         == cycles * Weight(table, c) + SlotsIn(table, {c}, from, extra)
    decreases cycles
  {
    if cycles == 0 {
    } else {
      var rest := (cycles - 1) * |table| + extra;
      OneMore(cycles, |table|);
      OneMore(cycles, Weight(table, c));
      CyclesShare(table, c, from, cycles - 1, extra);
      CycleShare(table, {c}, from);
      ForwardCycle(|table|, from);
      SlotsSplit(table, {c}, from, |table|, rest);
    }
  }

  /** A slot is of class c or it is not. */
  lemma {:induction false} OwnAndOther(table: seq<PriorityClass>, c: PriorityClass, from: nat, n: nat)
    requires from < |table|
    ensures SlotsIn(table, {c}, from, n) + SlotsIn(table, Others(c), from, n) == n
    decreases n
  {
    EveryClass();
    if n > 0 { OwnAndOther(table, c, Succ(|table|, from), n - 1); }
  }

  function AllClasses(): set<PriorityClass> {
    {High, Medium, Low}
  }

  lemma EveryClass()
    ensures forall c: PriorityClass :: c in AllClasses()
  {
    forall c: PriorityClass
      ensures c in AllClasses()
    {
      match c case High => case Medium => case Low =>
    }
  }

  function Others(c: PriorityClass): set<PriorityClass> {
    AllClasses() - {c}
  }

  /** However the slots of a class are spread, k + 1 = cycles * weight + r + 1 of them come up within `cycles`
      cycles, all the slots of the others, and r + 1 more. */
  lemma SlotsComeUp(table: seq<PriorityClass>, c: PriorityClass, from: nat, cycles: nat, r: nat, n: nat)
    requires from < |table| && r < Weight(table, c)
    requires n >= cycles * |table| + (|table| - Weight(table, c)) + r + 1
    ensures SlotsIn(table, {c}, from, n) > cycles * Weight(table, c) + r
  {
    var w := Weight(table, c);
    var m := |table| - w + r + 1;
    CyclesShare(table, c, from, cycles, m);
    SlotsSplit(table, {c}, from, cycles * |table| + m, n - (cycles * |table| + m));
    OwnAndOther(table, c, from, m);
    OwnAndOther(table, c, from, |table|);
    CycleShare(table, {c}, from);
    SlotsSplit(table, Others(c), from, m, |table| - m);
  }

  // ---------- Fairness ----------

  /** Class c has something queued whenever Next is called. */
  ghost predicate AlwaysBacklogged<T>(s: QueueState<T>, calls: seq<Call<T>>, c: PriorityClass)
    requires s.Valid()
    decreases calls
  {
    calls != [] ==>
      && (calls[0].NextCall? ==> s.buckets[c] != [])
      && AlwaysBacklogged(Apply(s, calls[0]), calls[1..], c)
  }

  /** The number of slots the cursor passes in one call. */
  function Passed<T>(s: QueueState<T>, call: Call<T>): nat
    requires s.Valid()
  {
    if call.NextCall? && NextOf(s).1.Served? then Skipped(s.table, s.buckets, s.cursor, |s.table|) + 1 else 0
  }

  function Travel<T>(s: QueueState<T>, calls: seq<Call<T>>): nat
    requires s.Valid()
    decreases calls
  {
    if calls == [] then 0 else Passed(s, calls[0]) + Travel(Apply(s, calls[0]), calls[1..])
  }

  /** A dequeue that finds class c backlogged passes exactly as many slots of c as it serves requests of c. */
  lemma OnePass<T>(s: QueueState<T>, c: PriorityClass)
    requires s.Valid() && s.buckets[c] != []
    ensures |Handed(s, NextCall, c)| == SlotsIn(s.table, {c}, s.cursor, Passed(s, NextCall))
    ensures NextOf(s).0.cursor == Forward(|s.table|, s.cursor, Passed(s, NextCall))
    ensures Passed(s, NextCall) >= 1
  {
    NextIsWorkConserving(s);
    var k := Skipped(s.table, s.buckets, s.cursor, |s.table|);
    SkippedMeans(s.table, s.buckets, s.cursor, |s.table|);
    NoSlots(s.table, {c}, s.cursor, k);
    SlotsSplit(s.table, {c}, s.cursor, k, 1);
    ForwardSucc(|s.table|, s.cursor, k);
    LastSlot(s.table, {c}, Forward(|s.table|, s.cursor, k));
  }

  lemma OneCallPass<T>(s: QueueState<T>, call: Call<T>, c: PriorityClass)
    requires s.Valid() && (call.NextCall? ==> s.buckets[c] != [])
    ensures Apply(s, call).table == s.table
    ensures Apply(s, call).cursor == Forward(|s.table|, s.cursor, Passed(s, call))
    ensures |Handed(s, call, c)| == SlotsIn(s.table, {c}, s.cursor, Passed(s, call))
    ensures call.NextCall? ==> Passed(s, call) >= 1
  {
    if call.NextCall? {
      OnePass(s, c);
      NextIsWorkConserving(s);
    }
  }

  /** While backlogged, a class is served once for every slot of its own the cursor passes. */
  lemma {:induction false} ServedPerSlotPassed<T>(s: QueueState<T>, calls: seq<Call<T>>, c: PriorityClass)
    requires s.Valid() && AlwaysBacklogged(s, calls, c)
    ensures |Dequeued(s, calls, c)| == SlotsIn(s.table, {c}, s.cursor, Travel(s, calls))
    ensures Travel(s, calls) >= NextCalls(calls)
    decreases calls
  {
    if calls == [] {
    } else {
      hide Apply, NextOf, Handed, Passed, Succ, Forward, QueueState.Valid;
      OneCallPass(s, calls[0], c);
      ServedPerSlotPassed(Apply(s, calls[0]), calls[1..], c);
      SlotsSplit(s.table, {c}, s.cursor, Passed(s, calls[0]), Travel(Apply(s, calls[0]), calls[1..]));
    }
  }

  lemma BlockSlots(table: seq<PriorityClass>, c: PriorityClass, from: nat, n: nat, m: nat)
    requires from < |table| && from + n <= |table| && n <= m && forall i | from <= i < from + n :: table[i] == c
    ensures SlotsIn(table, {c}, from, m) >= n
  {
    OwnBlock(table, c, from, n);
    SlotsSplit(table, {c}, from, n, m - n);
  }

  /** A class that is never found empty gets at least its weight in every cycle's worth of
      dequeues, whatever the other classes do and whatever is admitted in between. */
  lemma GuaranteedShare<T>(s: QueueState<T>, calls: seq<Call<T>>, c: PriorityClass, cycles: nat)
    requires s.Valid() && AlwaysBacklogged(s, calls, c)
    requires NextCalls(calls) >= cycles * |s.table|
    ensures |Dequeued(s, calls, c)| >= cycles * Weight(s.table, c)
  {
    ServedPerSlotPassed(s, calls, c);
    hide Dequeued, NextCalls, Travel, AlwaysBacklogged, QueueState.Valid;
    CyclesShare(s.table, c, s.cursor, cycles, Travel(s, calls) - cycles * |s.table|);
  }

  lemma {:induction false} StillWaitingMeansBacklogged<T>(s: QueueState<T>, calls: seq<Call<T>>, c: PriorityClass, k: nat)
    requires s.Valid() && k < |s.buckets[c]|
    requires |Dequeued(s, calls, c)| <= k
    ensures AlwaysBacklogged(s, calls, c)
    decreases calls
  {
    if calls == [] {
    } else {
      OneCallIsFifo(s, calls[0], c);
      StillWaitingMeansBacklogged(Apply(s, calls[0]), calls[1..], c, k - |Handed(s, calls[0], c)|);
    }
  }

  /** No starvation: the request at position k = cycles * weight + r of its bucket is the k-th one dequeued from
      it, once any run has made `cycles` cycles of dequeues, one for every slot of the other classes, and r + 1 more. */
  lemma BoundedWaiting<T>(s: QueueState<T>, calls: seq<Call<T>>, c: PriorityClass, k: nat, cycles: nat, r: nat)
    requires s.Valid() && k < |s.buckets[c]|
    requires k == cycles * Weight(s.table, c) + r && r < Weight(s.table, c)
    requires NextCalls(calls) >= cycles * |s.table| + (|s.table| - Weight(s.table, c)) + r + 1
    ensures k < |Dequeued(s, calls, c)|
    ensures Dequeued(s, calls, c)[k] == s.buckets[c][k]
  {
    if |Dequeued(s, calls, c)| <= k {
      StillWaitingMeansBacklogged(s, calls, c, k);
      ServedPerSlotPassed(s, calls, c);
      SlotsComeUp(s.table, c, s.cursor, cycles, r, Travel(s, calls));
      assert false;
    }
    FifoPerClass(s, calls, c);
    assert (Dequeued(s, calls, c) + Run(s, calls).buckets[c])[k] == Dequeued(s, calls, c)[k];
  }

  // ---------- Exact proportional share of any set of classes ----------

  /** Every slot among the next n that belongs to `classes` will find its class backlogged. */
  ghost predicate Stocked<T>(s: QueueState<T>, classes: set<PriorityClass>, n: nat)
    requires s.Valid()
  {
    && (forall c: PriorityClass | c in classes :: |s.buckets[c]| >= SlotsIn(s.table, {c}, s.cursor, n))
    && (forall c: PriorityClass | c !in classes :: s.buckets[c] == [])
  }

  ghost predicate AdmitsOnly<T>(calls: seq<Call<T>>, classes: set<PriorityClass>) {
    forall call | call in calls :: call.AdmitCall? ==> call.priorityClass in classes
  }

  lemma OwnedSlotCounts(table: seq<PriorityClass>, c: PriorityClass, from: nat, n: nat, i: nat)
    requires from < |table| && i < n && table[Forward(|table|, from, i)] == c
    ensures SlotsIn(table, {c}, from, n) >= 1
  {
    SlotsSplit(table, {c}, from, i, n - i);
  }

  lemma {:induction false} SubsetSlots(table: seq<PriorityClass>, c: PriorityClass, classes: set<PriorityClass>,
                                       from: nat, n: nat)
    requires from < |table| && c in classes
    ensures SlotsIn(table, {c}, from, n) <= SlotsIn(table, classes, from, n)
    decreases n
  {
    if n > 0 { SubsetSlots(table, c, classes, Succ(|table|, from), n - 1); }
  }

  lemma {:induction false} SomeClassHasASlot(table: seq<PriorityClass>, classes: set<PriorityClass>, from: nat, n: nat)
      returns (i: nat)
    requires from < |table| && SlotsIn(table, classes, from, n) >= 1
    ensures i < n && table[Forward(|table|, from, i)] in classes
    decreases n
  {
    if table[from] in classes {
      i := 0;
    } else {
      var j := SomeClassHasASlot(table, classes, Succ(|table|, from), n - 1);
      i := j + 1;
    }
  }

  /** In a stocked window that has a slot for `classes`, Next serves one of them, and
      the slot it serves is the only one of theirs it passes. */
  lemma StockedPass<T>(s: QueueState<T>, classes: set<PriorityClass>, n: nat) returns (p: nat)
    requires s.Valid() && Stocked(s, classes, n) && SlotsIn(s.table, classes, s.cursor, n) >= 1
    ensures p == Passed(s, NextCall) && 1 <= p <= n
    ensures SlotsIn(s.table, classes, s.cursor, p) == 1
    ensures NextOf(s).1.Served? && NextOf(s).1.priorityClass in classes
  {
    var table, length := s.table, |s.table|;
    var k := Skipped(table, s.buckets, s.cursor, length);
    SkippedMeans(table, s.buckets, s.cursor, length);
    NextIsWorkConserving(s);
    forall i | 0 <= i < k && i < n
      ensures table[Forward(length, s.cursor, i)] !in classes
    {
      var c := table[Forward(length, s.cursor, i)];
      if c in classes { OwnedSlotCounts(table, c, s.cursor, n, i); }
    }
    var j := SomeClassHasASlot(table, classes, s.cursor, n);
    OwnedSlotCounts(table, table[Forward(length, s.cursor, j)], s.cursor, n, j);
    p := k + 1;
    NoSlots(table, classes, s.cursor, k);
    SlotsSplit(table, classes, s.cursor, k, 1);
    LastSlot(table, classes, Forward(length, s.cursor, k));
  }

  /** What one dequeue does to a stocked window: it moves p slots on, and each of `classes`
      has been served once per slot it owned among them. */
  lemma StockedStep<T>(s: QueueState<T>, classes: set<PriorityClass>, n: nat, p: nat)
    requires s.Valid() && Stocked(s, classes, n) && NextOf(s).1.Served?
    requires p == Passed(s, NextCall) && p <= n && NextOf(s).1.priorityClass in classes
    ensures NextOf(s).0.cursor == Forward(|s.table|, s.cursor, p)
    ensures forall c: PriorityClass | c in classes ::
              |Handed(s, NextCall, c)| == SlotsIn(s.table, {c}, s.cursor, p)
    ensures Stocked(NextOf(s).0, classes, n - p)
  {
    NextIsWorkConserving(s);
    OnePass(s, NextOf(s).1.priorityClass);
    var s' := NextOf(s).0;
    forall c: PriorityClass | c in classes
      ensures |Handed(s, NextCall, c)| == SlotsIn(s.table, {c}, s.cursor, p)
      ensures |s'.buckets[c]| >= SlotsIn(s.table, {c}, s'.cursor, n - p)
    {
      SlotsSplit(s.table, {c}, s.cursor, p, n - p);
      if s.buckets[c] != [] { OnePass(s, c); }
    }
  }

  lemma WindowStep<T>(s: QueueState<T>, classes: set<PriorityClass>, n: nat, c: PriorityClass) returns (rest: nat)
    requires s.Valid() && Stocked(s, classes, n) && SlotsIn(s.table, classes, s.cursor, n) >= 1
    ensures NextOf(s).0.table == s.table && Stocked(NextOf(s).0, classes, rest)
    ensures SlotsIn(s.table, classes, s.cursor, n) == 1 + SlotsIn(s.table, classes, NextOf(s).0.cursor, rest)
    ensures if c in classes
            then SlotsIn(s.table, {c}, s.cursor, n)
              == |Handed(s, NextCall, c)| + SlotsIn(s.table, {c}, NextOf(s).0.cursor, rest)
            else |Handed(s, NextCall, c)| == 0
  {
    NextIsWorkConserving(s);
    hide NextOf, Handed, Passed, SlotsIn, Stocked, Succ, Forward;
    var p := StockedPass(s, classes, n);
    StockedStep(s, classes, n, p);
    SlotsSplit(s.table, classes, s.cursor, p, n - p);
    SlotsSplit(s.table, {c}, s.cursor, p, n - p);
    rest := n - p;
  }

  /** Over the next n slots each of `classes` is served once per slot it owns there, and nobody
      else is, as long as those slots are stocked; more of `classes` may arrive meanwhile. */
  lemma {:induction false} WindowShare<T>(s: QueueState<T>, calls: seq<Call<T>>, classes: set<PriorityClass>,
                                          n: nat, c: PriorityClass)
    requires s.Valid() && Stocked(s, classes, n) && AdmitsOnly(calls, classes)
    requires NextCalls(calls) == SlotsIn(s.table, classes, s.cursor, n)
    ensures |Dequeued(s, calls, c)| == if c in classes then SlotsIn(s.table, {c}, s.cursor, n) else 0
    decreases calls
  {
    if calls == [] {
      if c in classes { SubsetSlots(s.table, c, classes, s.cursor, n); }
    } else {
      assert calls[0] in calls;
      assert AdmitsOnly(calls[1..], classes);
      if calls[0].NextCall? {
        var rest := WindowStep(s, classes, n, c);
        WindowShare(NextOf(s).0, calls[1..], classes, rest, c);
      } else {
        WindowShare(Apply(s, calls[0]), calls[1..], classes, n, c);
      }
    }
  }

  /** From any cursor: when every class of a set holds at least its weight and the others stay empty,
      the next (sum of the weights) dequeues serve each class of the set exactly its weight. */
  lemma ExactShare<T>(s: QueueState<T>, calls: seq<Call<T>>, classes: set<PriorityClass>, c: PriorityClass)
    requires s.Valid() && AdmitsOnly(calls, classes)
    requires forall b: PriorityClass | b in classes :: |s.buckets[b]| >= Weight(s.table, b)
    requires forall b: PriorityClass | b !in classes :: s.buckets[b] == []
    requires NextCalls(calls) == SlotsIn(s.table, classes, 0, |s.table|)
    ensures |Dequeued(s, calls, c)| == if c in classes then Weight(s.table, c) else 0
  {
    CycleShare(s.table, classes, s.cursor);
    forall b: PriorityClass
      ensures SlotsIn(s.table, {b}, s.cursor, |s.table|) == Weight(s.table, b)
    {
      CycleShare(s.table, {b}, s.cursor);
    }
    WindowShare(s, calls, classes, |s.table|, c);
  }

  // ---------- The repository's table ----------

  /** The weights of the table are the advertised 7, 2 and 1. */
  lemma TableWeights(classes: set<PriorityClass>)
    ensures SlotsIn(WEIGHT_SEQUENCE, classes, 0, 10)
         == (if High in classes then 7 else 0) + (if Medium in classes then 2 else 0) + (if Low in classes then 1 else 0)
  {
  }

  /** How many calls of Next the request at 0-based position k of its bucket may have to wait for. */
  function LongestWait(c: PriorityClass, k: nat): (n: nat)
    ensures n >= 1 && n <= 10 * match c case High => (k + 7) / 7 case Medium => (k + 2) / 2 case Low => k + 1
  {
    match c
    case High => 10 * (k / 7) + 4 + k % 7
    case Medium => 10 * (k / 2) + 9 + k % 2
    case Low => 10 * (k + 1)
  }

  /** No starvation, in the repository's numbers: LongestWait, at most 10 * ceil((k + 1) / 7), / 2 or / 1 calls
      of Next, always suffices ... */
  lemma WaitingBound<T>(s: QueueState<T>, calls: seq<Call<T>>, c: PriorityClass, k: nat)
    requires s.Valid() && s.table == WEIGHT_SEQUENCE && k < |s.buckets[c]|
    requires NextCalls(calls) >= LongestWait(c, k)
    ensures k < |Dequeued(s, calls, c)| && Dequeued(s, calls, c)[k] == s.buckets[c][k]
  {
    hide Dequeued, NextCalls, SlotsIn;
    TableWeights({c});
    var w := match c case High => 7 case Medium => 2 case Low => 1;
    BoundedWaiting(s, calls, c, k, k / w, k % w);
  }

  /** The first slot after those of class c. */
  function AfterOwnSlots(c: PriorityClass): nat {
    match c case High => 7 case Medium => 9 case Low => 0
  }

  /** ... and one call less does not, for any class and any position: from the slot after its own, with every
      class well stocked, a class has then been served only k times. */
  lemma BoundIsTight<T>(s: QueueState<T>, calls: seq<Call<T>>, c: PriorityClass, k: nat)
    requires s.Valid() && s.table == WEIGHT_SEQUENCE && s.cursor == AfterOwnSlots(c)
    requires forall d: PriorityClass :: |s.buckets[d]| >= LongestWait(c, k)
    requires NextCalls(calls) == LongestWait(c, k) - 1
    ensures |Dequeued(s, calls, c)| == k
  {
    hide Dequeued, NextCalls, SlotsIn, LongestWait;
    var all, n := AllClasses(), LongestWait(c, k) - 1;
    EveryClass();
    AllSlots(s.table, all, s.cursor, n);
    WindowShare(s, calls, all, n, c);
    LongestWaitIsReached(c, k);
  }

  lemma {:induction false} AllSlots(table: seq<PriorityClass>, classes: set<PriorityClass>, from: nat, n: nat)
    requires from < |table| && forall c: PriorityClass :: c in classes
    ensures SlotsIn(table, classes, from, n) == n
    decreases n
  {
    if n > 0 { AllSlots(table, classes, Succ(|table|, from), n - 1); }
  }

  lemma {:induction false} OwnBlock(table: seq<PriorityClass>, c: PriorityClass, from: nat, n: nat)
    requires from < |table| && from + n <= |table| && forall i | from <= i < from + n :: table[i] == c
    ensures SlotsIn(table, {c}, from, n) == n
    decreases n
  {
    if n > 1 { OwnBlock(table, c, from + 1, n - 1); }
  }

  /** When the slots of a class are one block, from the slot after the block its next slot comes last. */
  lemma LastToCome(table: seq<PriorityClass>, c: PriorityClass, from: nat, block: nat, cycles: nat, r: nat)
    requires from < |table| && r < Weight(table, c)
    requires block + Weight(table, c) <= |table| && forall i | block <= i < block + Weight(table, c) :: table[i] == c
    requires Forward(|table|, from, |table| - Weight(table, c)) == block
    ensures SlotsIn(table, {c}, from, cycles * |table| + (|table| - Weight(table, c)) + r) == cycles * Weight(table, c) + r
  {
    var w := Weight(table, c);
    OwnBlock(table, c, block, w);
    OwnBlock(table, c, block, r);
    CycleShare(table, {c}, from);
    SlotsSplit(table, {c}, from, |table| - w, w);
    SlotsSplit(table, {c}, from, |table| - w, r);
    CyclesShare(table, c, from, cycles, |table| - w + r);
  }

  lemma LongestWaitIsReached(c: PriorityClass, k: nat)
    ensures SlotsIn(WEIGHT_SEQUENCE, {c}, AfterOwnSlots(c), LongestWait(c, k) - 1) == k
  {
    TableWeights({c});
    hide SlotsIn;
    match c
    case High =>
      ForwardSteps(10, 7, 2);
      ForwardSplit(10, 7, 2, 1);
      LastToCome(WEIGHT_SEQUENCE, High, 7, 0, k / 7, k % 7);
    case Medium =>
      ForwardSplit(10, 9, 1, 7);
      ForwardSteps(10, 0, 7);
      LastToCome(WEIGHT_SEQUENCE, Medium, 9, 7, k / 2, k % 2);
    case Low =>
      ForwardSteps(10, 0, 9);
      LastToCome(WEIGHT_SEQUENCE, Low, 0, 9, k, 0);
  }

  /** With all three classes backlogged throughout, every ten dequeues split exactly 7/2/1. */
  lemma SevenTwoOne<T>(s: QueueState<T>, calls: seq<Call<T>>)
    requires s.Valid() && s.table == WEIGHT_SEQUENCE && NextCalls(calls) == 10
    requires forall c: PriorityClass :: AlwaysBacklogged(s, calls, c)
    ensures |Dequeued(s, calls, High)| == 7 && |Dequeued(s, calls, Medium)| == 2 && |Dequeued(s, calls, Low)| == 1
  {
    hide *;
    ShareOfTen(s, calls, High);
    ShareOfTen(s, calls, Medium);
    ShareOfTen(s, calls, Low);
    DequeuesAddUp(s, calls);
  }

  lemma ShareOfTen<T>(s: QueueState<T>, calls: seq<Call<T>>, c: PriorityClass)
    requires s.Valid() && s.table == WEIGHT_SEQUENCE && NextCalls(calls) == 10 && AlwaysBacklogged(s, calls, c)
    ensures |Dequeued(s, calls, c)| >= match c case High => 7 case Medium => 2 case Low => 1
  {
    hide Dequeued, NextCalls, AlwaysBacklogged, QueueState.Valid;
    TableWeights({c});
    GuaranteedShare(s, calls, c, 1);
  }

  lemma {:induction false} DequeuesAddUp<T>(s: QueueState<T>, calls: seq<Call<T>>)
    requires s.Valid()
    ensures |Dequeued(s, calls, High)| + |Dequeued(s, calls, Medium)| + |Dequeued(s, calls, Low)| <= NextCalls(calls)
    decreases calls
  {
    if calls != [] {
      DequeuesAddUp(Apply(s, calls[0]), calls[1..]);
    }
  }

  /** The exact share in the repository's numbers: the sum of 7, 2 and 1 over the classes that have work. */
  lemma ExactSevenTwoOne<T>(s: QueueState<T>, calls: seq<Call<T>>, classes: set<PriorityClass>, c: PriorityClass)
    requires s.Valid() && s.table == WEIGHT_SEQUENCE && AdmitsOnly(calls, classes)
    requires High in classes ==> |s.buckets[High]| >= 7
    requires Medium in classes ==> |s.buckets[Medium]| >= 2
    requires Low in classes ==> |s.buckets[Low]| >= 1
    requires forall b: PriorityClass | b !in classes :: s.buckets[b] == []
    requires NextCalls(calls) == (if High in classes then 7 else 0) + (if Medium in classes then 2 else 0)
                                 + (if Low in classes then 1 else 0)
    ensures |Dequeued(s, calls, c)|
         == if c !in classes then 0 else match c case High => 7 case Medium => 2 case Low => 1
  {
    hide Dequeued, NextCalls, AdmitsOnly, SlotsIn;
    TableWeights(classes);
    TableWeights({High});
    TableWeights({Medium});
    TableWeights({Low});
    forall b: PriorityClass | b in classes
      ensures |s.buckets[b]| >= Weight(s.table, b)
    {
      match b case High => case Medium => case Low =>
    }
    ExactShare(s, calls, classes, c);
  }
}
