/** The admission-controlled front door of scheduler/admission/gateway.go.

    `DrainOnce` is the drain tick as the source runs it, over the real queue. The rest is the
    protocol: any number of request handlers, their timeouts and one drainer, interleaved
    step by step. A step is one call the source makes under a lock, on a channel or on an
    atomic; the outcome of BinPacker.Schedule, the choice of `select` and all timing are free. */
module Gateway {
  import opened Wrappers
  import opened AdmissionQueue
  import BinPacker

  type Request = BinPacker.ScheduleRequest
  type Decision = BinPacker.ScheduleDecision

  function ClassFor(p: int): PriorityClass {
    if p == BinPacker.P0_PRODUCTION then High
    else if p == BinPacker.P1_DEVELOPMENT then Medium
    else Low
  }

  // ---------- One drain tick with nobody else admitting ----------

  datatype Outcome = Discarded | Placed(decision: Decision) | Requeued(result: AdmitResult)

  datatype Attempt<T> = Attempt(request: T, priorityClass: PriorityClass,
                                cancelled: bool, answer: Option<Decision>, outcome: Outcome)
  {
    predicate Leaves() { !outcome.Requeued? }

    /** The queue calls this attempt made. */
    function Calls(): seq<Call<T>> {
      if outcome.Requeued? then [NextCall, AdmitCall(priorityClass, request)] else [NextCall]
    }
  }

  function CallsOf<T>(log: seq<Attempt<T>>): seq<Call<T>> {
    if log == [] then [] else CallsOf(log[..|log| - 1]) + log[|log| - 1].Calls()
  }

  /** The requests that left the queue for good. */
  function Departed<T>(log: seq<Attempt<T>>): seq<T> {
    if log == [] then []
    else Departed(log[..|log| - 1]) + (if log[|log| - 1].Leaves() then [log[|log| - 1].request] else [])
  }

  lemma {:induction false} RunSplit<T>(s: QueueState<T>, first: seq<Call<T>>, later: seq<Call<T>>)
    requires s.Valid()
    ensures Run(s, first + later) == Run(Run(s, first), later)
    decreases first
  {
    if first == [] {
      assert first + later == later;
    } else {
      assert (first + later)[1..] == first[1..] + later;
      RunSplit(Apply(s, first[0]), first[1..], later);
    }
  }

  lemma RunShort<T>(s: QueueState<T>, call: Call<T>, call': Call<T>)
    requires s.Valid()
    ensures Run(s, [call]) == Apply(s, call)
    ensures Run(s, [call, call']) == Apply(Apply(s, call), call')
  {
    hide Apply, QueueState.Valid;
    assert [call, call'][1..] == [call'];
    assert Run(Apply(s, call), [call']) == Run(Apply(Apply(s, call), call'), []);
    assert Run(s, [call]) == Run(Apply(s, call), []);
  }

  /** A popped request can always go back to its own bucket. */
  lemma RoomToReturn<T>(s: QueueState<T>)
    requires s.Valid() && s.Len() > 0
    ensures NextOf(s).1.Served?
    ensures AdmitTo(NextOf(s).0, NextOf(s).1.priorityClass, NextOf(s).1.request).1.Admitted?
  {
    NextIsWorkConserving(s);
    hide NextOf;
    var (s', d) := NextOf(s);
    assert |s.buckets[d.priorityClass]| == 1 + |s'.buckets[d.priorityClass]|;
  }

  /** What one attempt does to the queue. */
  lemma AttemptStep<T>(s: QueueState<T>, a: Attempt<T>)
    requires s.Valid() && s.Len() > 0
    requires NextOf(s).1 == Served(a.request, a.priorityClass)
    ensures Run(s, a.Calls())
         == if a.Leaves() then NextOf(s).0 else AdmitTo(NextOf(s).0, a.priorityClass, a.request).0
    ensures Run(s, a.Calls()).Contents() + (if a.Leaves() then multiset{a.request} else multiset{}) == s.Contents()
    ensures Run(s, a.Calls()).Len() + (if a.Leaves() then 1 else 0) == s.Len()
  {
    RoomToReturn(s);
    NextConserves(s);
    AdmitConserves(NextOf(s).0, a.priorityClass, a.request);
    RunShort(s, NextCall, AdmitCall(a.priorityClass, a.request));
    hide NextOf, AdmitTo, Run, QueueState.Valid, QueueState.Contents, QueueState.Len;
  }

  /** Every attempt is on the request that Next hands out at that point. */
  ghost predicate Follows<T>(start: QueueState<T>, log: seq<Attempt<T>>)
    requires start.Valid()
  {
    log == [] ||
    var init, a := log[..|log| - 1], log[|log| - 1];
    && Follows(start, init)
    && Run(start, CallsOf(init)).Len() > 0
    && NextOf(Run(start, CallsOf(init))).1 == Served(a.request, a.priorityClass)
  }

  /** The drain so far: the queue is where the log's calls led, and what it no longer holds has departed. */
  ghost predicate Drained<T>(start: QueueState<T>, log: seq<Attempt<T>>, now: QueueState<T>) {
    && start.Valid() && now.Valid()
    && Follows(start, log)
    && now == Run(start, CallsOf(log))
    && now.Contents() + multiset(Departed(log)) == start.Contents()
    && now.Len() + |Departed(log)| == start.Len()
    && |Departed(log)| <= |log|
    && ((forall a | a in log :: a.Leaves()) ==> |Departed(log)| == |log|)
  }

  lemma FollowsOneMore<T>(start: QueueState<T>, log: seq<Attempt<T>>, a: Attempt<T>)
    requires start.Valid() && Run(start, CallsOf(log)).Len() > 0
    requires NextOf(Run(start, CallsOf(log))).1 == Served(a.request, a.priorityClass)
    ensures Follows(start, log) ==> Follows(start, log + [a])
  {
    assert (log + [a])[..|log|] == log;
  }

  lemma DepartedOneMore<T>(log: seq<Attempt<T>>, a: Attempt<T>)
    ensures multiset(Departed(log + [a])) == multiset(Departed(log)) + (if a.Leaves() then multiset{a.request} else multiset{})
    ensures |Departed(log + [a])| == |Departed(log)| + (if a.Leaves() then 1 else 0)
    ensures (forall b | b in log + [a] :: b.Leaves()) <==> (forall b | b in log :: b.Leaves()) && a.Leaves()
  {
    assert (log + [a])[..|log|] == log;
    assert a in log + [a] && forall b | b in log :: b in log + [a];
  }

  lemma CallsOneMore<T>(start: QueueState<T>, log: seq<Attempt<T>>, a: Attempt<T>)
    requires start.Valid()
    ensures Run(start, CallsOf(log + [a])) == Run(Run(start, CallsOf(log)), a.Calls())
  {
    assert (log + [a])[..|log|] == log;
    RunSplit(start, CallsOf(log), a.Calls());
  }

  lemma DrainedStep<T>(start: QueueState<T>, log: seq<Attempt<T>>, now: QueueState<T>, a: Attempt<T>)
    requires now.Valid() && now.Len() > 0 && NextOf(now).1 == Served(a.request, a.priorityClass)
    ensures Drained(start, log, now) ==>
              Drained(start, log + [a], if a.Leaves() then NextOf(now).0
                                        else AdmitTo(NextOf(now).0, a.priorityClass, a.request).0)
  {
    hide NextOf, AdmitTo, Run, Follows, Departed, CallsOf, Attempt.Calls, QueueState.Valid, QueueState.Contents, QueueState.Len;
    if Drained(start, log, now) {
      FollowsOneMore(start, log, a);
      AttemptStep(now, a);
      CallsOneMore(start, log, a);
      DepartedOneMore(log, a);
    }
  }

  lemma DrainBounds<T>(start: QueueState<T>, log: seq<Attempt<T>>, now: QueueState<T>)
    requires start.Valid()
    ensures Drained(start, [], start)
    ensures Drained(start, log, now) ==> now.Len() + |log| >= start.Len()
    ensures Drained(start, log, now) && (forall a | a in log :: a.Leaves()) ==> now.Len() + |log| == start.Len()
  {
  }

  /** The requests whose cancelled flag was set or for which Schedule found a place. */
  function Finished<T>(log: seq<Attempt<T>>): seq<T> {
    if log == [] then []
    else
      var a := log[|log| - 1];
      Finished(log[..|log| - 1]) + (if a.cancelled || a.answer.Some? then [a.request] else [])
  }

  lemma {:induction false} FinishedDeparted<T>(log: seq<Attempt<T>>)
    requires forall a | a in log :: a.Leaves() <==> a.cancelled || a.answer.Some?
    ensures Departed(log) == Finished(log)
    decreases log
  {
    if log != [] {
      assert log[|log| - 1] in log;
      FinishedDeparted(log[..|log| - 1]);
    }
  }

  /** One tick of the drain loop. What an attempt reads from its request's cancelled flag and
      what BinPacker.Schedule answers it are up to the environment; the log records both. */
  method DrainOnce<T>(queue: Queue<T>) returns (log: seq<Attempt<T>>)
    requires queue.Valid()
    modifies queue
    ensures queue.Valid()
    // as many dequeues as there were requests: none comes up empty
    ensures |log| == old(queue.State().Len())
    // a request whose flag was set is let go, one for which Schedule found a place gets that decision, and any
    // other goes back into the queue: no re-admission is refused
    ensures forall a | a in log :: a.cancelled ==> a.outcome == Discarded
    ensures forall a | a in log && !a.cancelled && a.answer.Some? :: a.outcome == Placed(a.answer.value)
    ensures forall a | a in log && !a.cancelled && a.answer.None? :: a.outcome == Requeued(Admitted)
    // the queue is where these attempts lead; no request is lost or doubled
    ensures Drained(old(queue.State()), log, queue.State())
    ensures queue.State().Contents() + multiset(Finished(log)) == old(queue.State().Contents())
    // if every request is placed or was cancelled, the queue ends empty
    ensures (forall a | a in log :: a.Leaves()) ==> queue.State().Len() == 0
  {
    var attempts := queue.Len();
    log := [];
    ghost var start := queue.State();
    DrainBounds(start, log, start);
    hide NextOf, AdmitTo, Run, CallsOf, Departed, Attempt.Calls, Drained, QueueState.Valid, QueueState.Contents, QueueState.Len;
    for i := 0 to attempts
      invariant queue.Valid() && |log| == i
      invariant forall a | a in log :: a.cancelled ==> a.outcome == Discarded
      invariant forall a | a in log && !a.cancelled && a.answer.Some? :: a.outcome == Placed(a.answer.value)
      invariant forall a | a in log && !a.cancelled && a.answer.None? :: a.outcome == Requeued(Admitted)
      invariant Drained(start, log, queue.State())
    {
      ghost var now := queue.State();
      DrainBounds(start, log, now);
      RoomToReturn(now);
      var next := queue.Next();
      if next.Empty? {
        return;
      }
      var cancelled: bool := *;
      var answer: Option<Decision> := *;
      var outcome := Discarded;
      if !cancelled {
        match answer
        case None =>
          var r := queue.Admit(next.priorityClass, next.request);
          outcome := Requeued(r);
        case Some(decision) =>
          outcome := Placed(decision);
      }
      var attempt := Attempt(next.request, next.priorityClass, cancelled, answer, outcome);
      DrainedStep(start, log, now, attempt);
      log := log + [attempt];
    }
    DrainBounds(start, log, queue.State());
    FinishedDeparted(log);
    DrainedContents(start, log, queue.State());
  }

  lemma DrainedContents<T>(start: QueueState<T>, log: seq<Attempt<T>>, now: QueueState<T>)
    requires start.Valid() && now.Valid()
    ensures Drained(start, log, now) ==> now.Contents() + multiset(Departed(log)) == start.Contents()
  {
    hide NextOf, Run, Follows, QueueState.Contents, QueueState.Len;
  }

  // ---------- One try each? ----------

  /** The requests of class c the tick tried, in order. */
  function TriedOf<T>(log: seq<Attempt<T>>, c: PriorityClass): seq<T> {
    if log == [] then []
    else TriedOf(log[..|log| - 1], c) + (if log[|log| - 1].priorityClass == c then [log[|log| - 1].request] else [])
  }

  /** Those of them that went back into their bucket, in order. */
  function ReturnedOf<T>(log: seq<Attempt<T>>, c: PriorityClass): seq<T> {
    if log == [] then []
    else
      var a := log[|log| - 1];
      ReturnedOf(log[..|log| - 1], c) + (if a.priorityClass == c && !a.Leaves() then [a.request] else [])
  }

  /** Nothing was placed and nothing was cancelled: every attempt ended with the request back in its bucket. */
  ghost predicate AllReturned<T>(log: seq<Attempt<T>>) {
    forall a | a in log :: !a.Leaves()
  }

  lemma {:induction false} DequeuedSplit<T>(s: QueueState<T>, first: seq<Call<T>>, later: seq<Call<T>>, c: PriorityClass)
    requires s.Valid()
    ensures Dequeued(s, first + later, c) == Dequeued(s, first, c) + Dequeued(Run(s, first), later, c)
    decreases first
  {
    hide QueueState.Valid, Apply, Handed;
    if first == [] {
      assert first + later == later;
    } else {
      var s' := Apply(s, first[0]);
      assert (first + later)[0] == first[0] && (first + later)[1..] == first[1..] + later;
      DequeuedSplit(s', first[1..], later, c);
      Associates(Handed(s, first[0], c), Dequeued(s', first[1..], c), Dequeued(Run(s', first[1..]), later, c));
    }
  }

  lemma {:induction false} AcceptedSplit<T>(s: QueueState<T>, first: seq<Call<T>>, later: seq<Call<T>>, c: PriorityClass)
    requires s.Valid()
    ensures Accepted(s, first + later, c) == Accepted(s, first, c) + Accepted(Run(s, first), later, c)
    decreases first
  {
    hide QueueState.Valid, Apply, Taken;
    if first == [] {
      assert first + later == later;
    } else {
      var s' := Apply(s, first[0]);
      assert (first + later)[0] == first[0] && (first + later)[1..] == first[1..] + later;
      AcceptedSplit(s', first[1..], later, c);
      Associates(Taken(s, first[0], c), Accepted(s', first[1..], c), Accepted(Run(s', first[1..]), later, c));
    }
  }

  lemma Associates<T>(a: seq<T>, b: seq<T>, c: seq<T>)
    ensures a + (b + c) == (a + b) + c
  {
  }

  /** A run of a single call. */
  lemma OneCall<T>(s: QueueState<T>, call: Call<T>, c: PriorityClass)
    requires s.Valid()
    ensures Run(s, [call]) == Apply(s, call)
    ensures Dequeued(s, [call], c) == Handed(s, call, c) && Accepted(s, [call], c) == Taken(s, call, c)
    ensures NextCalls([call]) == if call.NextCall? then 1 else 0
    ensures (call.NextCall? ==> s.buckets[c] != []) ==> AlwaysBacklogged(s, [call], c)
  {
  }

  lemma {:induction false} BackloggedSplit<T>(s: QueueState<T>, first: seq<Call<T>>, later: seq<Call<T>>, c: PriorityClass)
    requires s.Valid()
    ensures AlwaysBacklogged(s, first + later, c) <==> AlwaysBacklogged(s, first, c) && AlwaysBacklogged(Run(s, first), later, c)
    ensures NextCalls(first + later) == NextCalls(first) + NextCalls(later)
    decreases first
  {
    if first == [] {
      assert first + later == later;
    } else {
      assert (first + later)[1..] == first[1..] + later;
      BackloggedSplit(Apply(s, first[0]), first[1..], later, c);
    }
  }

  /** The calls of an attempt hand out its request, and take it in again if it goes back. */
  lemma AttemptCalls<T>(q: QueueState<T>, a: Attempt<T>, c: PriorityClass)
    requires q.Valid() && q.Len() > 0 && NextOf(q).1 == Served(a.request, a.priorityClass)
    ensures Dequeued(q, a.Calls(), c) == if a.priorityClass == c then [a.request] else []
    ensures Accepted(q, a.Calls(), c) == if a.priorityClass == c && !a.Leaves() then [a.request] else []
    ensures NextCalls(a.Calls()) == 1
    ensures q.buckets[c] != [] ==> AlwaysBacklogged(q, a.Calls(), c)
  {
    RoomToReturn(q);
    var next, admit := NextCall, AdmitCall(a.priorityClass, a.request);
    var q' := NextOf(q).0;
    assert a.Calls() == if a.Leaves() then [next] else [next] + [admit];
    assert Apply(q, next) == q';
    assert Handed(q', admit, c) == [] && Taken(q, next, c) == [];
    assert Handed(q, next, c) == Taken(q', admit, c) == if a.priorityClass == c then [a.request] else [];
    hide NextOf, AdmitTo, QueueState.Valid, Apply, Handed, Taken, Dequeued, Accepted, AlwaysBacklogged, NextCalls, Run,
         Attempt.Calls;
    OneCall(q, next, c);
    if !a.Leaves() {
      OneCall(q', admit, c);
      DequeuedSplit(q, [next], [admit], c);
      AcceptedSplit(q, [next], [admit], c);
      BackloggedSplit(q, [next], [admit], c);
    }
  }

  /** A tick's log tells what its calls did to each class. */
  lemma {:induction false} TickCalls<T>(start: QueueState<T>, log: seq<Attempt<T>>, c: PriorityClass)
    requires start.Valid() && Follows(start, log)
    ensures TriedOf(log, c) == Dequeued(start, CallsOf(log), c)
    ensures ReturnedOf(log, c) == Accepted(start, CallsOf(log), c)
    ensures NextCalls(CallsOf(log)) == |log|
    decreases log
  {
    if log != [] {
      var init, a := log[..|log| - 1], log[|log| - 1];
      TickCalls(start, init, c);
      AttemptCalls(Run(start, CallsOf(init)), a, c);
      hide NextOf, AdmitTo, QueueState.Valid, QueueState.Len, Attempt.Calls, Run;
      DequeuedSplit(start, CallsOf(init), a.Calls(), c);
      AcceptedSplit(start, CallsOf(init), a.Calls(), c);
      BackloggedSplit(start, CallsOf(init), a.Calls(), c);
    }
  }

  lemma ReturnedAttempt<T>(q: QueueState<T>, a: Attempt<T>, c: PriorityClass)
    requires q.Valid() && q.Len() > 0 && NextOf(q).1 == Served(a.request, a.priorityClass) && !a.Leaves()
    ensures var q' := Run(q, a.Calls());
            |q'.buckets[c]| == |q.buckets[c]| && q'.table == q.table && q.buckets[a.priorityClass] != []
  {
    AttemptStep(q, a);
    RoundTripKeepsLengths(q, c);
    hide *;
  }

  lemma RoundTripKeepsLengths<T>(q: QueueState<T>, c: PriorityClass)
    requires q.Valid() && q.Len() > 0
    ensures NextOf(q).1.Served?
    ensures var (q1, d) := NextOf(q);
            var q2 := AdmitTo(q1, d.priorityClass, d.request).0;
            |q2.buckets[c]| == |q.buckets[c]| && q2.table == q.table && q.buckets[d.priorityClass] != []
  {
    RoomToReturn(q);
    NextIsWorkConserving(q);
    hide NextOf, QueueState.Len, QueueState.Contents;
    var (q1, d) := NextOf(q);
    assert |q.buckets[d.priorityClass]| == 1 + |q1.buckets[d.priorityClass]|;
  }

  /** In a tick where everything goes back, the buckets only turn round: lengths stay, whatever has work keeps
      it, and what a class is handed it takes back in the same order. */
  lemma {:induction false} FailedTick<T>(start: QueueState<T>, log: seq<Attempt<T>>, c: PriorityClass)
    requires start.Valid() && Follows(start, log) && AllReturned(log)
    ensures var end := Run(start, CallsOf(log));
            |end.buckets[c]| == |start.buckets[c]| && end.table == start.table
    ensures start.buckets[c] != [] ==> AlwaysBacklogged(start, CallsOf(log), c)
    ensures TriedOf(log, c) == ReturnedOf(log, c)
    decreases log
  {
    if log != [] {
      var init, a := log[..|log| - 1], log[|log| - 1];
      assert a in log && forall b | b in init :: b in log;
      FailedTick(start, init, c);
      var q := Run(start, CallsOf(init));
      ReturnedAttempt(q, a, c);
      AttemptCalls(q, a, c);
      hide NextOf, AdmitTo, QueueState.Valid, Attempt.Calls;
      RunSplit(start, CallsOf(init), a.Calls());
      BackloggedSplit(start, CallsOf(init), a.Calls(), c);
    }
  }

  /** The classes that have something queued. */
  function Backlogged<T>(s: QueueState<T>): set<PriorityClass>
    requires s.Valid()
  {
    (if s.buckets[High] != [] then {High} else {})
    + (if s.buckets[Medium] != [] then {Medium} else {})
    + (if s.buckets[Low] != [] then {Low} else {})
  }

  lemma BackloggedMeans<T>(s: QueueState<T>)
    requires s.Valid()
    ensures forall c: PriorityClass :: c in Backlogged(s) <==> s.buckets[c] != []
  {
    forall c: PriorityClass
      ensures c in Backlogged(s) <==> s.buckets[c] != []
    {
      match c case High => case Medium => case Low =>
    }
  }

  lemma {:induction false} SlotsAddUp(table: seq<PriorityClass>, classes: set<PriorityClass>, from: nat, n: nat)
    requires from < |table|
    ensures SlotsIn(table, classes, from, n)
         == (if High in classes then SlotsIn(table, {High}, from, n) else 0)
          + (if Medium in classes then SlotsIn(table, {Medium}, from, n) else 0)
          + (if Low in classes then SlotsIn(table, {Low}, from, n) else 0)
    decreases n
  {
    if n > 0 {
      var next := Succ(|table|, from);
      SlotsAddUp(table, classes, next, n - 1);
      forall c: PriorityClass
        ensures SlotsIn(table, {c}, from, n) == (if table[from] == c then 1 else 0) + SlotsIn(table, {c}, next, n - 1)
      {
      }
      match table[from] case High => case Medium => case Low =>
    }
  }

  lemma {:induction false} TriesAddUp<T>(log: seq<Attempt<T>>)
    ensures |TriedOf(log, High)| + |TriedOf(log, Medium)| + |TriedOf(log, Low)| == |log|
    decreases log
  {
    if log != [] { TriesAddUp(log[..|log| - 1]); }
  }

  /** What a class still holds, with what was tried, is what it held and what went back. */
  lemma TickIsFifo<T>(start: QueueState<T>, log: seq<Attempt<T>>, c: PriorityClass)
    requires start.Valid() && Follows(start, log)
    ensures TriedOf(log, c) + Run(start, CallsOf(log)).buckets[c] == start.buckets[c] + ReturnedOf(log, c)
  {
    TickCalls(start, log, c);
    FifoPerClass(start, CallsOf(log), c);
  }

  lemma {:induction false} NoMoreReturnedThanTried<T>(log: seq<Attempt<T>>, c: PriorityClass)
    ensures |ReturnedOf(log, c)| <= |TriedOf(log, c)|
    decreases log
  {
    if log != [] { NoMoreReturnedThanTried(log[..|log| - 1], c); }
  }

  lemma ServedHasWork<T>(q: QueueState<T>)
    requires q.Valid() && q.Len() > 0
    ensures NextOf(q).1.Served? && q.buckets[NextOf(q).1.priorityClass] != []
    ensures NextOf(q).1.request == q.buckets[NextOf(q).1.priorityClass][0]
  {
    RoomToReturn(q);
    NextIsWorkConserving(q);
    hide NextOf;
  }

  /** A tick touches only classes that have something queued when it starts. */
  lemma {:induction false} OnlyBackloggedTried<T>(start: QueueState<T>, log: seq<Attempt<T>>)
    requires start.Valid() && Follows(start, log)
    ensures AdmitsOnly(CallsOf(log), Backlogged(start))
    decreases log
  {
    if log != [] {
      var init, a := log[..|log| - 1], log[|log| - 1];
      NextHadWork(start, init, a);
      hide NextOf, AdmitTo, QueueState.Valid, QueueState.Len, Run, Backlogged;
      OnlyBackloggedTried(start, init);
      forall call | call in CallsOf(log)
        ensures call.AdmitCall? ==> call.priorityClass in Backlogged(start)
      {
        if call !in CallsOf(init) { assert call in a.Calls(); }
      }
    }
  }

  lemma NextHadWork<T>(start: QueueState<T>, log: seq<Attempt<T>>, a: Attempt<T>)
    requires start.Valid() && Follows(start, log) && Run(start, CallsOf(log)).Len() > 0
    requires NextOf(Run(start, CallsOf(log))).1 == Served(a.request, a.priorityClass)
    ensures a.priorityClass in Backlogged(start)
  {
    var c, q := a.priorityClass, Run(start, CallsOf(log));
    ServedHasWork(q);
    TickIsFifo(start, log, c);
    NoMoreReturnedThanTried(log, c);
    BackloggedMeans(start);
    hide NextOf, Follows, QueueState.Len, Run, CallsOf, Backlogged;
    assert |TriedOf(log, c) + q.buckets[c]| > |ReturnedOf(log, c)|;
  }

  /** A class's tries are its bucket, in order, as long as there are no more of them. */
  lemma TriesAreBucket<T>(start: QueueState<T>, log: seq<Attempt<T>>, c: PriorityClass)
    requires start.Valid() && Follows(start, log)
    ensures |TriedOf(log, c)| <= |start.buckets[c]| ==> TriedOf(log, c) == start.buckets[c][..|TriedOf(log, c)|]
  {
    TickIsFifo(start, log, c);
    hide Follows, QueueState.Valid, Run;
    var tried, bucket, returned := TriedOf(log, c), start.buckets[c], ReturnedOf(log, c);
    var rest := Run(start, CallsOf(log)).buckets[c];
    if |tried| <= |bucket| {
      assert tried == (tried + rest)[..|tried|] == (bucket + returned)[..|tried|] == bucket[..|tried|];
    }
  }

  /** Each request in the queue was tried once, in the order of its bucket. */
  ghost predicate OneTryEach<T>(start: QueueState<T>, log: seq<Attempt<T>>)
    requires start.Valid()
  {
    forall c: PriorityClass :: TriedOf(log, c) == start.buckets[c]
  }

  /** Going round the table from the cursor one comes, after some number t of slots, past every class that has work
      just as often as it has requests. Looking as far as a cycle per request is enough. */
  ghost predicate ComesOutEven<T>(s: QueueState<T>)
    requires s.Valid()
  {
    exists t: nat :: t <= |s.table| * s.Len() && Evenly(s, t)
  }

  /** "Each queued item gets one try per tick", whatever Schedule answers and whoever cancels: that is assured exactly
      if the slots come out even. */
  lemma OneTryEachIff<T>(start: QueueState<T>)
    requires start.Valid()
    ensures (forall log: seq<Attempt<T>> | Follows(start, log) && |log| == start.Len() :: OneTryEach(start, log))
       <==> ComesOutEven(start)
    ensures (exists t: nat :: Evenly(start, t)) ==> ComesOutEven(start)
  {
    hide Follows, OneTryEach, ComesOutEven, Evenly, QueueState.Valid, QueueState.Len;
    var failing := FailingTick(start, start.Len());
    FailedTickIff(start, failing);
    if t: nat :| Evenly(start, t) {
      EvenlyMeansOneTryEach(start, failing, t);
    }
    if ComesOutEven(start) {
      var t := SomeEven(start);
      forall log: seq<Attempt<T>> | Follows(start, log) && |log| == start.Len()
        ensures OneTryEach(start, log)
      {
        EvenlyMeansOneTryEach(start, log, t);
      }
    }
  }

  lemma SomeEven<T>(s: QueueState<T>) returns (t: nat)
    requires s.Valid() && ComesOutEven(s)
    ensures Evenly(s, t)
  {
    t :| t <= |s.table| * s.Len() && Evenly(s, t);
  }

  lemma EvenlyMeansOneTryEach<T>(start: QueueState<T>, log: seq<Attempt<T>>, t: nat)
    requires start.Valid() && Follows(start, log) && |log| == start.Len() && Evenly(start, t)
    ensures OneTryEach(start, log)
  {
    hide Follows, Evenly, QueueState.Len;
    forall c: PriorityClass
      ensures TriedOf(log, c) == start.buckets[c]
    {
      EvenlyMeansOneTry(start, log, t, c);
    }
  }

  /** When every retry fails, the condition decides about that very tick. */
  lemma FailedTickIff<T>(start: QueueState<T>, log: seq<Attempt<T>>)
    requires start.Valid() && Follows(start, log) && AllReturned(log) && |log| == start.Len()
    ensures OneTryEach(start, log) <==> ComesOutEven(start)
  {
    if ComesOutEven(start) {
      var t := SomeEven(start);
      EvenlyMeansOneTryEach(start, log, t);
    }
    if OneTryEach(start, log) {
      var t := Travel(start, CallsOf(log));
      forall c: PriorityClass | start.buckets[c] != []
        ensures SlotsIn(start.table, {c}, start.cursor, t) == |start.buckets[c]|
      {
        FailedTick(start, log, c);
        TickCalls(start, log, c);
        ServedPerSlotPassed(start, CallsOf(log), c);
      }
      TickCalls(start, log, High);
      TravelBound(start, CallsOf(log));
      assert Evenly(start, t);
    }
  }

  /** A dequeue passes at most one cycle of slots. */
  lemma PassedBound<T>(s: QueueState<T>, call: Call<T>)
    requires s.Valid()
    ensures Passed(s, call) <= if call.NextCall? then |s.table| else 0
    ensures Apply(s, call).table == s.table
  {
    NextIsWorkConserving(s);
  }

  lemma {:induction false} TravelBound<T>(s: QueueState<T>, calls: seq<Call<T>>)
    requires s.Valid()
    ensures Travel(s, calls) <= |s.table| * NextCalls(calls)
    decreases calls
  {
    hide Apply, Passed, QueueState.Valid;
    if calls != [] {
      PassedBound(s, calls[0]);
      TravelBound(Apply(s, calls[0]), calls[1..]);
      OneMore(1 + NextCalls(calls[1..]), |s.table|);
      Commutes(|s.table|, NextCalls(calls));
      Commutes(|s.table|, NextCalls(calls[1..]));
    }
  }

  lemma Commutes(a: nat, b: nat)
    ensures a * b == b * a
  {
  }

  /** A tick in which everything goes back is possible from any state. */
  lemma {:induction false} FailingTick<T>(start: QueueState<T>, n: nat) returns (log: seq<Attempt<T>>)
    requires start.Valid() && n <= start.Len()
    ensures Follows(start, log) && AllReturned(log) && |log| == n
    ensures Run(start, CallsOf(log)).Len() == start.Len()
    decreases n
  {
    if n == 0 {
      log := [];
    } else {
      var init := FailingTick(start, n - 1);
      var q := Run(start, CallsOf(init));
      RoomToReturn(q);
      var a := Attempt(NextOf(q).1.request, NextOf(q).1.priorityClass, false, None, Requeued(Admitted));
      AttemptStep(q, a);
      hide NextOf, AdmitTo, Run, QueueState.Valid, QueueState.Len, QueueState.Contents, Attempt.Calls;
      log := init + [a];
      assert log[..n - 1] == init && log[n - 1] == a;
      RunSplit(start, CallsOf(init), a.Calls());
    }
  }

  /** Each class that has work owns as many of the next t slots as it has requests. */
  ghost predicate Evenly<T>(s: QueueState<T>, t: nat)
    requires s.Valid()
  {
    forall c: PriorityClass | s.buckets[c] != [] :: SlotsIn(s.table, {c}, s.cursor, t) == |s.buckets[c]|
  }

  lemma EvenlyMeansStocked<T>(s: QueueState<T>, t: nat)
    requires s.Valid() && Evenly(s, t)
    ensures Stocked(s, Backlogged(s), t) && SlotsIn(s.table, Backlogged(s), s.cursor, t) == s.Len()
  {
    BackloggedMeans(s);
    hide SlotsIn, Backlogged;
    SlotsAddUp(s.table, Backlogged(s), s.cursor, t);
  }

  lemma EvenlyMeansOneTry<T>(start: QueueState<T>, log: seq<Attempt<T>>, t: nat, c: PriorityClass)
    requires start.Valid() && Follows(start, log) && |log| == start.Len() && Evenly(start, t)
    ensures TriedOf(log, c) == start.buckets[c]
  {
    hide *;
    hide QueueState.Valid, QueueState.Len;
    BackloggedMeans(start);
    OnlyBackloggedTried(start, log);
    EvenlyMeansStocked(start, t);
    TriesAreBucket(start, log, c);
    TickCalls(start, log, c);
    WindowShare(start, CallsOf(log), Backlogged(start), t, c);
    EvenlyHere(start, t, c);
  }

  lemma EvenlyHere<T>(s: QueueState<T>, t: nat, c: PriorityClass)
    requires s.Valid() && Evenly(s, t)
    ensures s.buckets[c] != [] ==> SlotsIn(s.table, {c}, s.cursor, t) == |s.buckets[c]|
  {
  }

  /** The first request of a class to go back was tried, and was the first tried if all went back. */
  lemma {:induction false} FirstReturned<T>(log: seq<Attempt<T>>, c: PriorityClass) returns (i: nat)
    requires ReturnedOf(log, c) != []
    ensures i < |TriedOf(log, c)| && TriedOf(log, c)[i] == ReturnedOf(log, c)[0]
    ensures AllReturned(log) ==> i == 0
    decreases log
  {
    var init, a := log[..|log| - 1], log[|log| - 1];
    if ReturnedOf(init, c) != [] {
      i := FirstReturned(init, c);
    } else {
      i := |TriedOf(init, c)|;
      if AllReturned(log) { NothingTried(init, c); }
    }
  }

  lemma {:induction false} NothingTried<T>(log: seq<Attempt<T>>, c: PriorityClass)
    requires AllReturned(log) && ReturnedOf(log, c) == []
    ensures TriedOf(log, c) == []
    decreases log
  {
    if log != [] {
      assert log[|log| - 1] in log;
      NothingTried(log[..|log| - 1], c);
    }
  }

  lemma SameHalves<T>(a: seq<T>, b: seq<T>, a': seq<T>, b': seq<T>)
    requires a + b == a' + b' && |a| == |a'|
    ensures a == a' && b == b'
  {
    assert a == (a + b)[..|a|] && a' == (a' + b')[..|a|];
    assert b == (a + b)[|a|..] && b' == (a' + b')[|a|..];
  }

  /** Once a class has been tried as often as it had requests, the next one tried is the first that went back. */
  lemma NextTried<T>(start: QueueState<T>, log: seq<Attempt<T>>, a: Attempt<T>)
    requires start.Valid() && Follows(start, log + [a])
    requires |TriedOf(log, a.priorityClass)| == |start.buckets[a.priorityClass]|
    ensures Follows(start, log) && TriedOf(log, a.priorityClass) == start.buckets[a.priorityClass]
    ensures ReturnedOf(log, a.priorityClass) != [] && ReturnedOf(log, a.priorityClass)[0] == a.request
  {
    var c := a.priorityClass;
    assert (log + [a])[..|log|] == log && (log + [a])[|log|] == a;
    var q := Run(start, CallsOf(log));
    ServedHasWork(q);
    hide NextOf, Run, QueueState.Len, QueueState.Valid;
    TickIsFifo(start, log, c);
    SameHalves(TriedOf(log, c), q.buckets[c], start.buckets[c], ReturnedOf(log, c));
  }

  /** A class tried more often than it had requests had one of them tried twice: the first that went back. */
  lemma {:induction false} TriedTooOften<T>(start: QueueState<T>, log: seq<Attempt<T>>, c: PriorityClass) returns (i: nat)
    requires start.Valid() && Follows(start, log) && |TriedOf(log, c)| > |start.buckets[c]|
    ensures var n := |start.buckets[c]|; i < n && TriedOf(log, c)[i] == start.buckets[c][i] == TriedOf(log, c)[n]
    ensures AllReturned(log) ==> i == 0
    decreases log
  {
    var init, a := log[..|log| - 1], log[|log| - 1];
    assert log == init + [a];
    hide NextOf, Run, QueueState.Valid, QueueState.Len, CallsOf;
    if |TriedOf(init, c)| > |start.buckets[c]| {
      i := TriedTooOften(start, init, c);
    } else {
      assert a.priorityClass == c;
      NextTried(start, init, a);
      i := FirstReturned(init, c);
    }
  }

  /** As many tries as requests: if the numbers differ somewhere, one class has too many and one too few. */
  lemma MoreHereFewerThere<T>(start: QueueState<T>, log: seq<Attempt<T>>, odd: PriorityClass)
      returns (more: PriorityClass, fewer: PriorityClass)
    requires start.Valid() && |log| == start.Len() && |TriedOf(log, odd)| != |start.buckets[odd]|
    ensures |TriedOf(log, more)| > |start.buckets[more]| && |TriedOf(log, fewer)| < |start.buckets[fewer]|
  {
    TriesAddUp(log);
    hide TriedOf;
    more := if |TriedOf(log, High)| > |start.buckets[High]| then High
            else if |TriedOf(log, Medium)| > |start.buckets[Medium]| then Medium else Low;
    fewer := if |TriedOf(log, High)| < |start.buckets[High]| then High
             else if |TriedOf(log, Medium)| < |start.buckets[Medium]| then Medium else Low;
    match odd case High => case Medium => case Low =>
  }

  /** Whenever a tick, whatever its outcomes, does not try each request once, some request was tried twice (the head
      of its bucket, if everything went back) and another not at all. */
  lemma SomeTwiceSomeNever<T>(start: QueueState<T>, log: seq<Attempt<T>>)
      returns (twice: PriorityClass, i: nat, never: PriorityClass)
    requires start.Valid() && Follows(start, log) && |log| == start.Len()
    requires exists c: PriorityClass :: TriedOf(log, c) != start.buckets[c]
    ensures var n := |start.buckets[twice]|;
            i < n < |TriedOf(log, twice)| && TriedOf(log, twice)[i] == start.buckets[twice][i] == TriedOf(log, twice)[n]
    ensures AllReturned(log) ==> i == 0
    ensures var n := |TriedOf(log, never)|;
            n < |start.buckets[never]| && TriedOf(log, never) == start.buckets[never][..n]
  {
    var odd: PriorityClass :| TriedOf(log, odd) != start.buckets[odd];
    TriesAreBucket(start, log, odd);
    hide Follows, AllReturned, TriedOf, QueueState.Len;
    twice, never := MoreHereFewerThere(start, log, odd);
    i := TriedTooOften(start, log, twice);
    TriesAreBucket(start, log, never);
  }

  /** While everything goes back, a class that has work is tried in each slot of a block of its own. */
  lemma BlockIsServed<T>(start: QueueState<T>, log: seq<Attempt<T>>, c: PriorityClass, n: nat)
    requires start.Valid() && Follows(start, log) && AllReturned(log) && n <= |log| && start.buckets[c] != []
    requires start.cursor + n <= |start.table| && forall i | start.cursor <= i < start.cursor + n :: start.table[i] == c
    ensures |TriedOf(log, c)| >= n
  {
    assert start.cursor < |start.table|;
    hide *;
    FailedTick(start, log, c);
    TickCalls(start, log, c);
    ServedPerSlotPassed(start, CallsOf(log), c);
    BlockSlots(start.table, c, start.cursor, n, Travel(start, CallsOf(log)));
  }

  /** For example: one High and one Low request, cursor at the first slot. When both tries of the tick fail, both
      were of the High request. */
  lemma HeadTriedTwice<T>(start: QueueState<T>, log: seq<Attempt<T>>, x: T, y: T)
    requires start.Valid() && start.table == WEIGHT_SEQUENCE && start.cursor == 0
    requires start.buckets[High] == [x] && start.buckets[Medium] == [] && start.buckets[Low] == [y]
    requires Follows(start, log) && AllReturned(log) && |log| == start.Len()
    ensures TriedOf(log, High) == [x, x] && TriedOf(log, Low) == []
  {
    hide Follows, AllReturned, TriedOf;
    BlockIsServed(start, log, High, 2);
    TriesAddUp(log);
    var i := TriedTooOften(start, log, High);
  }

  // ---------- The interleaved protocol ----------

  /** Where a request handler stands. */
  datatype Phase =
    | Scheduling                      // about to call Schedule
    | Admitting                       // capacity miss: about to call Queue.Admit
    | Waiting                         // in the select
    | TimingOut                       // the select took the timeout; cancelled not yet stored
    | Committing(decision: Decision)  // about to call commit
    | Replying(decision: Decision)    // committed; about to write the response
    | Answered200(decision: Decision)
    | Answered429
  {
    predicate HasCommitted() { Replying? || Answered200? }
    predicate Answered() { Answered200? || Answered429? }
  }

  datatype Handler = Handler(request: Request, phase: Phase)

  /** Where the drain goroutine stands. */
  datatype Drainer =
    | Resting
    | Draining(left: nat)
    | Holding(left: nat, id: nat, priorityClass: PriorityClass)      // popped: about to read cancelled
    | Retrying(left: nat, id: nat, priorityClass: PriorityClass)     // about to call Schedule
    | Requeueing(left: nat, id: nat, priorityClass: PriorityClass)   // about to call Queue.Admit
    | Sending(left: nat, id: nat, decision: Decision)                // about to send on resultCh
  {
    /** It has a request that still counts as queued work. */
    predicate InHand() { Holding? || Retrying? || Requeueing? }
  }

  datatype CommitRecord = CommitRecord(id: nat, decision: Decision, modelName: string)

  /** `results` holds what sits in the capacity-1 result channels. `admitted`, `sent`, `dropped`
      and `commits` record what has happened. */
  datatype State = State(
    queue: QueueState<nat>,
    handlers: map<nat, Handler>,
    results: map<nat, Decision>,
    cancelled: set<nat>,
    drainer: Drainer,
    admitted: set<nat>,
    sent: multiset<nat>,
    dropped: multiset<nat>,
    commits: seq<CommitRecord>)
  {
    function To(id: nat, phase: Phase): State
      requires id in handlers
    {
      this.(handlers := handlers[id := handlers[id].(phase := phase)])
    }
  }

  /** What one handler does next. */
  datatype HandlerStep =
    | Arrive(request: Request)
    | Schedule(outcome: Option<Decision>)
    | Commit
    | Reply
    | Admit
    | Receive
    | Timeout
    | StoreCancelled

  /** What the drain goroutine does next. */
  datatype DrainerStep =
    | Tick
    | Pop
    | Check
    | Retry(outcome: Option<Decision>)
    | Send
    | Requeue

  datatype Step = Handle(id: nat, act: HandlerStep) | Drain(move: DrainerStep)

  ghost predicate CanHandle(s: State, id: nat, act: HandlerStep) {
    if act.Arrive? then id !in s.handlers
    else
      && id in s.handlers
      && var phase := s.handlers[id].phase;
         match act
         case Schedule(_) => phase.Scheduling?
         case Commit => phase.Committing?
         case Reply => phase.Replying?
         case Admit => phase.Admitting?
         case Receive => phase.Waiting? && id in s.results
         case Timeout => phase.Waiting?
         case StoreCancelled => phase.TimingOut?
  }

  ghost function AfterHandle(s: State, id: nat, act: HandlerStep): State
    requires s.queue.Valid() && CanHandle(s, id, act)
  {
    match act
    case Arrive(request) =>
      s.(handlers := s.handlers[id := Handler(request, Scheduling)])
    case Schedule(outcome) =>
      s.To(id, if outcome.Some? then Committing(outcome.value) else Admitting)
    case Commit =>
      var h := s.handlers[id];
      s.To(id, Replying(h.phase.decision))
       .(commits := s.commits + [CommitRecord(id, h.phase.decision, h.request.modelName)])
    case Reply =>
      s.To(id, Answered200(s.handlers[id].phase.decision))
    case Admit =>
      var (queue, r) := AdmitTo(s.queue, ClassFor(s.handlers[id].request.priority), id);
      if r.Admitted? then s.To(id, Waiting).(queue := queue, admitted := s.admitted + {id})
      else s.To(id, Answered429)
    case Receive =>
      s.To(id, Committing(s.results[id])).(results := s.results - {id})
    case Timeout =>
      s.To(id, TimingOut)
    case StoreCancelled =>
      s.To(id, Answered429).(cancelled := s.cancelled + {id})
  }

  ghost predicate CanDrain(s: State, move: DrainerStep) {
    match move
    case Tick => s.drainer.Resting?
    case Pop => s.drainer.Draining?
    case Check => s.drainer.Holding?
    case Retry(_) => s.drainer.Retrying?
    case Send => s.drainer.Sending? && s.drainer.id !in s.results   // a full channel blocks
    case Requeue => s.drainer.Requeueing?
  }

  ghost function AfterDrain(s: State, move: DrainerStep): State
    requires s.queue.Valid() && CanDrain(s, move)
  {
    var h := s.drainer;
    match move
    case Tick =>
      s.(drainer := Draining(s.queue.Len()))
    case Pop =>
      if h.left == 0 then s.(drainer := Resting)
      else
        var (queue, d) := NextOf(s.queue);
        s.(queue := queue,
           drainer := if d.Empty? then Resting else Holding(h.left - 1, d.request, d.priorityClass))
    case Check =>
      if h.id in s.cancelled then s.(drainer := Draining(h.left), dropped := s.dropped + multiset{h.id})
      else s.(drainer := Retrying(h.left, h.id, h.priorityClass))
    case Retry(outcome) =>
      s.(drainer := if outcome.Some? then Sending(h.left, h.id, outcome.value)
                    else Requeueing(h.left, h.id, h.priorityClass))
    case Send =>
      s.(drainer := Draining(h.left), results := s.results[h.id := h.decision], sent := s.sent + multiset{h.id})
    case Requeue =>
      var (queue, r) := AdmitTo(s.queue, h.priorityClass, h.id);
      if r.Admitted? then s.(drainer := Draining(h.left), queue := queue)
      else s.(drainer := Draining(h.left), dropped := s.dropped + multiset{h.id})
  }

  ghost predicate Enabled(s: State, step: Step) {
    && s.queue.Valid()
    && match step
       case Handle(id, act) => CanHandle(s, id, act)
       case Drain(move) => CanDrain(s, move)
  }

  ghost function After(s: State, step: Step): State
    requires Enabled(s, step)
  {
    match step
    case Handle(id, act) => AfterHandle(s, id, act)
    case Drain(move) => AfterDrain(s, move)
  }

  ghost predicate Initial(s: State) {
    && s.queue.Valid() && s.queue.table == WEIGHT_SEQUENCE
    && (forall c: PriorityClass :: s.queue.buckets[c] == [])
    && s.handlers == map[] && s.results == map[] && s.cancelled == {} && s.drainer == Resting
    && s.admitted == {} && s.sent == multiset{} && s.dropped == multiset{} && s.commits == []
  }

  /** The steps, taken one after the other, lead from s to end. */
  ghost predicate Execution(s: State, steps: seq<Step>, end: State)
    decreases steps
  {
    if steps == [] then s == end
    else Enabled(s, steps[0]) && Execution(After(s, steps[0]), steps[1..], end)
  }

  // ---------- The invariant ----------

  ghost function Held(d: Drainer): multiset<nat> {
    if d.Resting? || d.Draining? then multiset{} else multiset{d.id}
  }

  /** Every admitted request is in exactly one place: a bucket, the drainer's hands, sent or dropped. */
  ghost predicate Conserved(s: State) {
    && s.queue.Valid()
    && s.queue.Contents() + Held(s.drainer) + s.sent + s.dropped == multiset(s.admitted)
    && s.admitted <= s.handlers.Keys
  }

  /** Whatever is queued, or held by the drainer, belongs to the class its priority maps to. */
  ghost predicate Classified(s: State) {
    && s.queue.Valid()
    && (forall c: PriorityClass, id | id in s.queue.buckets[c] ::
          id in s.handlers && ClassFor(s.handlers[id].request.priority) == c)
    && (s.drainer.InHand() ==>
          s.drainer.id in s.handlers && ClassFor(s.handlers[s.drainer.id].request.priority) == s.drainer.priorityClass)
  }

  /** How one handler's phase, its channel and the records go together. */
  ghost predicate Consistent(s: State, id: nat) {
    && (id in s.admitted || id in s.results || id in s.cancelled ==> id in s.handlers)
    && (id in s.results ==> id in s.sent)
    && (id in s.sent ==> id in s.admitted)
    && (id in s.handlers ==>
          match s.handlers[id].phase
          case Scheduling => id !in s.admitted
          case Admitting => id !in s.admitted
          case Waiting => id in s.admitted && (id in s.sent ==> id in s.results)
          case TimingOut => id in s.admitted
          case Answered429 => id in s.cancelled <==> id in s.admitted
          case _ => (id in s.admitted ==> id in s.sent) && id !in s.results)
    && (id in s.cancelled ==> s.handlers[id].phase.Answered429?)
  }

  ghost predicate Delivered(s: State) {
    forall id: nat :: Consistent(s, id)
  }

  /** Commits are exactly those of the handlers that got past commit, once each. */
  ghost predicate Committed(s: State) {
    Records(s.handlers, s.commits)
  }

  ghost predicate Records(handlers: map<nat, Handler>, commits: seq<CommitRecord>) {
    && (forall i, j | 0 <= i < j < |commits| :: commits[i].id != commits[j].id)
    && (forall c | c in commits ::
          && c.id in handlers && handlers[c.id].phase.HasCommitted()
          && handlers[c.id].phase.decision == c.decision && handlers[c.id].request.modelName == c.modelName)
    && (forall id | id in handlers && handlers[id].phase.HasCommitted() ::
          CommitRecord(id, handlers[id].phase.decision, handlers[id].request.modelName) in commits)
  }

  ghost predicate Inv(s: State) {
    Conserved(s) && Classified(s) && Delivered(s) && Committed(s)
  }

  lemma InitialInv(s: State)
    requires Initial(s)
    ensures Inv(s)
  {
  }

  /** One token moving from the drainer's hands to a bucket, to sent or to dropped. */
  lemma TokenMoves(queued: multiset<nat>, token: multiset<nat>, sent: multiset<nat>, dropped: multiset<nat>)
    ensures var all := queued + token + sent + dropped;
            && (queued + token) + multiset{} + sent + dropped == all
            && queued + multiset{} + (sent + token) + dropped == all
            && queued + multiset{} + sent + (dropped + token) == all
  {
  }

  lemma HandleConserves(s: State, id: nat, act: HandlerStep)
    requires Conserved(s) && CanHandle(s, id, act) && (act.Admit? ==> id !in s.admitted)
    ensures Conserved(AfterHandle(s, id, act))
  {
    hide QueueState.Contents, QueueState.Valid, QueueState.Len;
    if act.Admit? {
      AdmitConserves(s.queue, ClassFor(s.handlers[id].request.priority), id);
      hide AdmitTo;
      assert multiset(s.admitted + {id}) == multiset(s.admitted) + multiset{id};
      assert s.queue.Contents() + multiset{id} + Held(s.drainer) + s.sent + s.dropped
          == multiset(s.admitted) + multiset{id};
    }
  }

  lemma PopConserves(s: State)
    requires Conserved(s) && CanDrain(s, Pop)
    ensures Conserved(AfterDrain(s, Pop))
  {
    hide QueueState.Contents, QueueState.Valid, QueueState.Len;
    NextIsWorkConserving(s.queue);
    var (q, d) := NextOf(s.queue);
    if d.Served? {
      NextConserves(s.queue);
      hide NextOf;
      TokenMoves(q.Contents(), multiset{d.request}, s.sent, s.dropped);
    }
  }

  lemma RequeueConserves(s: State)
    requires Conserved(s) && CanDrain(s, Requeue)
    ensures Conserved(AfterDrain(s, Requeue))
  {
    hide QueueState.Contents, QueueState.Valid, QueueState.Len;
    AdmitConserves(s.queue, s.drainer.priorityClass, s.drainer.id);
    hide AdmitTo;
    TokenMoves(s.queue.Contents(), multiset{s.drainer.id}, s.sent, s.dropped);
  }

  lemma LetGoConserves(s: State, move: DrainerStep)
    requires Conserved(s) && CanDrain(s, move) && (move.Check? || move.Send?)
    ensures Conserved(AfterDrain(s, move))
  {
    hide QueueState.Contents, QueueState.Valid, QueueState.Len, NextOf, AdmitTo;
    TokenMoves(s.queue.Contents(), multiset{s.drainer.id}, s.sent, s.dropped);
  }

  lemma DrainConserves(s: State, move: DrainerStep)
    requires Conserved(s) && CanDrain(s, move)
    ensures Conserved(AfterDrain(s, move))
  {
    hide QueueState.Contents, QueueState.Valid, QueueState.Len, NextOf, AdmitTo;
    match move
    case Pop => PopConserves(s);
    case Requeue => RequeueConserves(s);
    case Check => LetGoConserves(s, move);
    case Send => LetGoConserves(s, move);
    case _ =>
  }

  lemma HandleClassifies(s: State, id: nat, act: HandlerStep)
    requires Classified(s) && CanHandle(s, id, act)
    ensures Classified(AfterHandle(s, id, act))
  {
    hide QueueState.Valid;
  }

  /** Next takes from its class's bucket and adds to none. */
  lemma PopOnlyTakes<T>(s: QueueState<T>)
    requires s.Valid()
    ensures var (s', d) := NextOf(s);
            && (d.Served? ==> d.request in s.buckets[d.priorityClass])
            && forall c: PriorityClass, x | x in s'.buckets[c] :: x in s.buckets[c]
  {
  }

  lemma PopClassifies(s: State)
    requires Classified(s) && CanDrain(s, Pop)
    ensures Classified(AfterDrain(s, Pop))
  {
    PopOnlyTakes(s.queue);
    hide NextOf, AdmitTo, QueueState.Contents, QueueState.Len;
  }

  lemma RequeueClassifies(s: State)
    requires Classified(s) && CanDrain(s, Requeue)
    ensures Classified(AfterDrain(s, Requeue))
  {
    hide NextOf, QueueState.Valid, QueueState.Contents, QueueState.Len;
  }

  lemma DrainClassifies(s: State, move: DrainerStep)
    requires Classified(s) && CanDrain(s, move)
    ensures Classified(AfterDrain(s, move))
  {
    hide NextOf, AdmitTo, QueueState.Valid, QueueState.Contents, QueueState.Len;
    match move
    case Pop => PopClassifies(s);
    case Requeue => RequeueClassifies(s);
    case _ =>
  }

  /** A request the drainer holds has not been sent a result, so its channel is empty. */
  lemma HeldMeansUnsent(s: State)
    requires Conserved(s) && Held(s.drainer) != multiset{}
    ensures s.drainer.id in s.admitted && s.drainer.id !in s.sent && s.drainer.id !in s.dropped
  {
    var id := s.drainer.id;
    assert Held(s.drainer)[id] == 1;
    assert (s.queue.Contents() + Held(s.drainer) + s.sent + s.dropped)[id] == multiset(s.admitted)[id];
  }

  lemma HandleDelivers(s: State, id: nat, act: HandlerStep)
    requires s.queue.Valid() && Delivered(s) && CanHandle(s, id, act)
    ensures Delivered(AfterHandle(s, id, act))
  {
    hide AdmitTo, QueueState.Valid;
    forall x: nat
      ensures Consistent(AfterHandle(s, id, act), x)
    {
      assert Consistent(s, x);
    }
  }

  lemma DrainDelivers(s: State, move: DrainerStep)
    requires s.queue.Valid() && Delivered(s) && CanDrain(s, move)
    requires move.Send? ==> s.drainer.id in s.admitted && s.drainer.id !in s.sent
    ensures Delivered(AfterDrain(s, move))
  {
    hide AdmitTo, NextOf, QueueState.Valid;
    forall x: nat
      ensures Consistent(AfterDrain(s, move), x)
    {
      assert Consistent(s, x);
    }
  }

  lemma CommitIsNew(handlers: map<nat, Handler>, commits: seq<CommitRecord>, id: nat)
    requires Records(handlers, commits) && id in handlers && handlers[id].phase.Committing?
    ensures var h := handlers[id];
            Records(handlers[id := h.(phase := Replying(h.phase.decision))],
                    commits + [CommitRecord(id, h.phase.decision, h.request.modelName)])
  {
    forall i | 0 <= i < |commits|
      ensures commits[i].id != id
    {
      assert commits[i] in commits;
    }
  }

  /** A handler that moves without passing commit leaves the records right. */
  lemma OtherMoves(handlers: map<nat, Handler>, commits: seq<CommitRecord>, id: nat, h: Handler)
    requires Records(handlers, commits)
    requires if id in handlers && handlers[id].phase.HasCommitted()
             then h.request == handlers[id].request && h.phase == Answered200(handlers[id].phase.decision)
             else !h.phase.HasCommitted()
    ensures Records(handlers[id := h], commits)
  {
  }

  lemma HandleCommits(s: State, id: nat, act: HandlerStep)
    requires s.queue.Valid() && Committed(s) && CanHandle(s, id, act)
    ensures Committed(AfterHandle(s, id, act))
  {
    hide AdmitTo, QueueState.Valid, Records;
    if act.Commit? {
      CommitIsNew(s.handlers, s.commits, id);
    } else {
      OtherMoves(s.handlers, s.commits, id, AfterHandle(s, id, act).handlers[id]);
    }
  }

  lemma DrainKeepsCommits(s: State, move: DrainerStep)
    requires s.queue.Valid() && Committed(s) && CanDrain(s, move)
    ensures Committed(AfterDrain(s, move))
  {
  }

  lemma StepInv(s: State, step: Step)
    requires Inv(s) && Enabled(s, step)
    ensures Inv(After(s, step))
  {
    match step
    case Handle(id, act) =>
      assert Consistent(s, id);
      assert s.queue.Valid() && (act.Admit? ==> id !in s.admitted);
      hide AfterHandle, Conserved, Classified, Delivered, Committed, CanHandle;
      HandleConserves(s, id, act);
      HandleClassifies(s, id, act);
      HandleDelivers(s, id, act);
      HandleCommits(s, id, act);
    case Drain(move) =>
      if s.drainer.Sending? { HeldMeansUnsent(s); }
      assert s.queue.Valid() && (move.Send? ==> s.drainer.Sending?);
      hide AfterDrain, Conserved, Classified, Delivered, Committed, CanDrain;
      DrainConserves(s, move);
      DrainClassifies(s, move);
      DrainDelivers(s, move);
      DrainKeepsCommits(s, move);
  }

  lemma {:induction false} ExecutionInv(s: State, steps: seq<Step>, end: State)
    requires Inv(s) && Execution(s, steps, end)
    ensures Inv(end)
    decreases steps
  {
    if steps != [] {
      StepInv(s, steps[0]);
      ExecutionInv(After(s, steps[0]), steps[1..], end);
    }
  }

  // ---------- What holds in every reachable state ----------

  /** At-most-once resolution: an admitted request is in exactly one place, nothing else is anywhere;
      it is sent at most one result, and that send never finds the channel full. */
  lemma ExactlyOnePlace(s: State, steps: seq<Step>, end: State, id: nat)
    requires Initial(s) && Execution(s, steps, end)
    ensures end.queue.Valid()
    ensures end.queue.Contents()[id] + Held(end.drainer)[id] + end.sent[id] + end.dropped[id]
         == if id in end.admitted then 1 else 0
    ensures end.drainer.Sending? ==> CanDrain(end, Send)
  {
    InitialInv(s);
    ExecutionInv(s, steps, end);
    assert (end.queue.Contents() + Held(end.drainer) + end.sent + end.dropped)[id] == multiset(end.admitted)[id];
    if end.drainer.Sending? {
      HeldMeansUnsent(end);
      assert Consistent(end, end.drainer.id);
    }
  }

  function CommitsOf(commits: seq<CommitRecord>, id: nat): seq<CommitRecord> {
    if commits == [] then []
    else (if commits[0].id == id then [commits[0]] else []) + CommitsOf(commits[1..], id)
  }

  lemma {:induction false} NoCommitsOf(commits: seq<CommitRecord>, id: nat)
    requires forall c | c in commits :: c.id != id
    ensures CommitsOf(commits, id) == []
  {
    if commits != [] { NoCommitsOf(commits[1..], id); }
  }

  lemma {:induction false} OneCommitOf(commits: seq<CommitRecord>, c: CommitRecord)
    requires c in commits && forall i, j | 0 <= i < j < |commits| :: commits[i].id != commits[j].id
    ensures CommitsOf(commits, c.id) == [c]
  {
    if commits[0] == c {
      NoCommitsOf(commits[1..], c.id);
    } else {
      OneCommitOf(commits[1..], c);
    }
  }

  /** 200 means committed: a request answered 200 has been committed exactly once, with the decision
      in the response and its own model; one answered 429, or not yet answered, has not been committed. */
  lemma AnswerMatchesCommit(s: State, steps: seq<Step>, end: State, id: nat)
    requires Initial(s) && Execution(s, steps, end) && id in end.handlers
    ensures var h := end.handlers[id];
            CommitsOf(end.commits, id)
              == if h.phase.HasCommitted() then [CommitRecord(id, h.phase.decision, h.request.modelName)] else []
  {
    InitialInv(s);
    ExecutionInv(s, steps, end);
    var h := end.handlers[id];
    if h.phase.HasCommitted() {
      OneCommitOf(end.commits, CommitRecord(id, h.phase.decision, h.request.modelName));
    } else {
      NoCommitsOf(end.commits, id);
    }
  }

  /** An answer is final: nothing that happens later changes it. */
  lemma {:induction false} AnswersAreFinal(s: State, steps: seq<Step>, end: State, id: nat)
    requires Execution(s, steps, end) && id in s.handlers && s.handlers[id].phase.Answered()
    ensures id in end.handlers && end.handlers[id] == s.handlers[id]
    decreases steps
  {
    if steps != [] { AnswersAreFinal(After(s, steps[0]), steps[1..], end, id); }
  }

  /** A queued request sits in the bucket of its own class (priority 0 in High, 1 in Medium, any other in Low), and
      no bucket exceeds the capacity. */
  lemma QueuedByClass(s: State, steps: seq<Step>, end: State, c: PriorityClass, id: nat)
    requires Initial(s) && Execution(s, steps, end)
    ensures end.queue.Valid() && end.queue.capacity == s.queue.capacity
    ensures id in end.queue.buckets[c] ==>
              id in end.handlers && ClassFor(end.handlers[id].request.priority) == c
              && |end.queue.buckets[c]| <= end.queue.capacity
              && (c == High <==> end.handlers[id].request.priority == 0)
              && (c == Medium <==> end.handlers[id].request.priority == 1)
  {
    hide Execution, NextOf, AdmitTo;
    InitialInv(s);
    ExecutionInv(s, steps, end);
    TableKept(s, steps, end);
  }

  // ---------- Waiting for a turn ----------

  /** The queue calls a step makes. */
  ghost function QueueCalls(s: State, step: Step): seq<Call<nat>>
    requires Enabled(s, step)
  {
    match step
    case Handle(id, Admit) => [AdmitCall(ClassFor(s.handlers[id].request.priority), id)]
    case Drain(Pop) => if s.drainer.left == 0 then [] else [NextCall]
    case Drain(Requeue) => [AdmitCall(s.drainer.priorityClass, s.drainer.id)]
    case _ => []
  }

  ghost function CallsDuring(s: State, steps: seq<Step>): seq<Call<nat>>
    decreases steps
  {
    if steps == [] || !Enabled(s, steps[0]) then []
    else QueueCalls(s, steps[0]) + CallsDuring(After(s, steps[0]), steps[1..])
  }

  /** How often the drainer calls Next. */
  ghost function Pops(s: State, steps: seq<Step>): nat {
    NextCalls(CallsDuring(s, steps))
  }

  /** At some point of the run the drainer pops this request. */
  ghost predicate TurnComes(s: State, steps: seq<Step>, id: nat)
    decreases steps
  {
    && steps != [] && Enabled(s, steps[0])
    && ((steps[0] == Drain(Pop) && After(s, steps[0]).drainer.Holding? && After(s, steps[0]).drainer.id == id)
        || TurnComes(After(s, steps[0]), steps[1..], id))
  }

  lemma OneStepCalls(s: State, step: Step, c: PriorityClass)
    requires Enabled(s, step)
    ensures After(s, step).queue.Valid()
    ensures var calls := QueueCalls(s, step);
            && |calls| <= 1
            && After(s, step).queue == (if calls == [] then s.queue else Apply(s.queue, calls[0]))
            && (calls != [] && Handed(s.queue, calls[0], c) != [] ==>
                  && step == Drain(Pop) && After(s, step).drainer.Holding?
                  && Handed(s.queue, calls[0], c) == [After(s, step).drainer.id])
  {
    if step == Drain(Pop) {
      NextIsWorkConserving(s.queue);
    }
    hide NextOf, AdmitTo, QueueState.Valid;
  }

  lemma {:induction false} DequeuedMeansTurn(s: State, steps: seq<Step>, end: State, c: PriorityClass, id: nat)
    requires s.queue.Valid() && Execution(s, steps, end)
    requires id in Dequeued(s.queue, CallsDuring(s, steps), c)
    ensures TurnComes(s, steps, id)
    decreases steps
  {
    OneStepCalls(s, steps[0], c);
    hide Enabled, After, NextOf, AdmitTo, QueueState.Valid, QueueCalls, Apply, Handed;
    var calls, later := QueueCalls(s, steps[0]), CallsDuring(After(s, steps[0]), steps[1..]);
    if calls == [] {
      assert calls + later == later;
      DequeuedMeansTurn(After(s, steps[0]), steps[1..], end, c, id);
    } else {
      assert (calls + later)[0] == calls[0] && (calls + later)[1..] == later;
      if id !in Handed(s.queue, calls[0], c) {
        DequeuedMeansTurn(After(s, steps[0]), steps[1..], end, c, id);
      }
    }
  }

  /** No request waits for ever: however handlers, timeouts and the drainer interleave, the request
      at position k of its bucket gets its turn within LongestWait(c, k) pops. */
  lemma EveryRequestGetsItsTurn(s: State, before: seq<Step>, mid: State, after: seq<Step>, end: State,
                                c: PriorityClass, k: nat)
    requires Initial(s) && Execution(s, before, mid) && Execution(mid, after, end)
    requires mid.queue.Valid() && k < |mid.queue.buckets[c]|
    requires Pops(mid, after) >= LongestWait(c, k)
    ensures TurnComes(mid, after, mid.queue.buckets[c][k])
  {
    TableKept(s, before, mid);
    hide Execution, QueueState.Valid, CallsDuring, TurnComes, Dequeued;
    WaitingBound(mid.queue, CallsDuring(mid, after), c, k);
    DequeuedMeansTurn(mid, after, end, c, mid.queue.buckets[c][k]);
  }

  lemma TableStep(s: State, step: Step)
    requires Enabled(s, step)
    ensures After(s, step).queue.table == s.queue.table && After(s, step).queue.capacity == s.queue.capacity
  {
    if step == Drain(Pop) { NextIsWorkConserving(s.queue); }
    hide NextOf, QueueState.Valid;
  }

  lemma {:induction false} TableKept(s: State, steps: seq<Step>, end: State)
    requires Execution(s, steps, end)
    ensures end.queue.table == s.queue.table && end.queue.capacity == s.queue.capacity
    decreases steps
  {
    hide Enabled, After;
    if steps != [] {
      TableStep(s, steps[0]);
      TableKept(After(s, steps[0]), steps[1..], end);
    }
  }

  // ---------- Dropped requests ----------

  lemma {:induction false} DroppedStays(s: State, steps: seq<Step>, end: State, id: nat)
    requires Execution(s, steps, end) && id in s.dropped
    ensures id in end.dropped
    decreases steps
  {
    if steps != [] { DroppedStays(After(s, steps[0]), steps[1..], end, id); }
  }

  /** A request the drainer let go (cancelled, or refused on its way back because a newcomer took the
      last place) is never committed and never answered 200, however the run goes on. */
  lemma DroppedIsNeverPlaced(s: State, before: seq<Step>, mid: State, after: seq<Step>, end: State, id: nat)
    requires Initial(s) && Execution(s, before, mid) && Execution(mid, after, end)
    requires id in mid.dropped
    ensures id in end.handlers && !end.handlers[id].phase.Committing? && !end.handlers[id].phase.HasCommitted()
  {
    hide Execution, NextOf, AdmitTo;
    InitialInv(s);
    ExecutionInv(s, before, mid);
    ExecutionInv(mid, after, end);
    DroppedStays(mid, after, end, id);
    assert Consistent(end, id);
    assert (end.queue.Contents() + Held(end.drainer) + end.sent + end.dropped)[id] == multiset(end.admitted)[id];
  }

  lemma {:induction false} Extend(s: State, steps: seq<Step>, mid: State, step: Step)
    requires Execution(s, steps, mid) && Enabled(mid, step)
    ensures Execution(s, steps + [step], After(mid, step))
    decreases steps
  {
    hide Enabled, After;
    if steps == [] {
      assert Execution(After(s, step), [], After(mid, step));
      assert ([] + [step])[1..] == [];
    } else {
      Extend(After(s, steps[0]), steps[1..], mid, step);
      assert (steps + [step])[0] == steps[0] && (steps + [step])[1..] == steps[1..] + [step];
    }
  }

  /** The drainer has not read the request's flag yet, or not since the request was last popped. */
  ghost predicate Unchecked(s: State, id: nat) {
    id !in s.sent && (s.drainer.Retrying? || s.drainer.Requeueing? || s.drainer.Sending? ==> s.drainer.id != id)
  }

  lemma CancelledStep(s: State, step: Step, id: nat)
    requires Enabled(s, step) && id in s.cancelled && Unchecked(s, id)
    ensures id in After(s, step).cancelled && Unchecked(After(s, step), id)
  {
    hide NextOf, AdmitTo, QueueState.Valid;
  }

  /** Once a request's timeout has set its flag, the drainer does not place it any more, unless it has read the flag
      before: it neither calls Schedule for it nor sends it a result. */
  lemma {:induction false} CancelledIsNeverPlaced(s: State, steps: seq<Step>, end: State, id: nat)
    requires Execution(s, steps, end) && id in s.cancelled && Unchecked(s, id)
    ensures id !in end.sent && !(end.drainer.Retrying? && end.drainer.id == id)
    ensures Unchecked(end, id)
    decreases steps
  {
    hide Enabled, After;
    if steps != [] {
      CancelledStep(s, steps[0], id);
      CancelledIsNeverPlaced(After(s, steps[0]), steps[1..], end, id);
    }
  }

  // ---------- When a re-admission is refused ----------

  /** Where the first n steps lead. */
  ghost function StateAt(s: State, steps: seq<Step>, n: nat): State
    requires n <= |steps|
    decreases n
  {
    if n == 0 then s
    else
      var before := StateAt(s, steps, n - 1);
      if Enabled(before, steps[n - 1]) then After(before, steps[n - 1]) else before
  }

  lemma {:induction false} StateShift(s: State, steps: seq<Step>, n: nat)
    requires steps != [] && Enabled(s, steps[0]) && 1 <= n <= |steps|
    ensures StateAt(s, steps, n) == StateAt(After(s, steps[0]), steps[1..], n - 1)
    decreases n
  {
    hide Enabled, After;
    if n > 1 {
      StateShift(s, steps, n - 1);
    } else {
      assert StateAt(s, steps, 0) == s;
    }
  }

  /** Each step of an execution is enabled where the steps before it lead, and an execution can be cut there. */
  lemma {:induction false} Cut(s: State, steps: seq<Step>, end: State, n: nat)
    requires Execution(s, steps, end) && n <= |steps|
    ensures Execution(s, steps[..n], StateAt(s, steps, n))
    ensures n < |steps| ==> Enabled(StateAt(s, steps, n), steps[n])
                            && StateAt(s, steps, n + 1) == After(StateAt(s, steps, n), steps[n])
    ensures n == |steps| ==> StateAt(s, steps, n) == end
    decreases steps
  {
    hide Enabled, After;
    if n == 0 {
      assert StateAt(s, steps, 0) == s;
    } else {
      Cut(After(s, steps[0]), steps[1..], end, n - 1);
      StateShift(s, steps, n);
      if n < |steps| { StateShift(s, steps, n + 1); }
      assert steps[..n][0] == steps[0] && steps[..n][1..] == steps[1..][..n - 1];
    }
  }

  lemma InvAt(s: State, steps: seq<Step>, end: State, n: nat)
    requires Initial(s) && Execution(s, steps, end) && n <= |steps|
    ensures Inv(StateAt(s, steps, n)) && StateAt(s, steps, n).queue.capacity == s.queue.capacity
  {
    hide Execution, Inv, StateAt;
    Cut(s, steps, end, n);
    InitialInv(s);
    ExecutionInv(s, steps[..n], StateAt(s, steps, n));
    TableKept(s, steps[..n], StateAt(s, steps, n));
  }

  // ---------- Where decisions come from ----------

  /** The decision is on its way to the request's client, or has been given. */
  ghost predicate Carries(s: State, id: nat, decision: Decision) {
    || (id in s.handlers && s.handlers[id].phase in {Committing(decision), Replying(decision), Answered200(decision)})
    || (id in s.results && s.results[id] == decision)
    || (s.drainer.Sending? && s.drainer.id == id && s.drainer.decision == decision)
  }

  /** In this step Schedule answers the request, asked by its handler or by the drainer, with the decision. */
  ghost predicate Answers(s: State, step: Step, id: nat, decision: Decision) {
    || step == Handle(id, HandlerStep.Schedule(Some(decision)))
    || (step == Drain(Retry(Some(decision))) && s.drainer.Retrying? && s.drainer.id == id)
  }

  lemma CarriesStep(s: State, step: Step, id: nat, decision: Decision)
    requires Enabled(s, step) && Carries(After(s, step), id, decision)
    ensures Carries(s, id, decision) || Answers(s, step, id, decision)
  {
    hide NextOf, AdmitTo, QueueState.Valid;
  }

  /** No decision is made up or mixed up: one that reaches a request's client was Schedule's answer for that request. */
  lemma {:induction false} DecisionsComeFromSchedule(s: State, steps: seq<Step>, end: State, n: nat, id: nat, decision: Decision)
    requires Initial(s) && Execution(s, steps, end) && n <= |steps| && Carries(StateAt(s, steps, n), id, decision)
    ensures exists k :: 0 <= k < n && Answers(StateAt(s, steps, k), steps[k], id, decision)
    decreases n
  {
    if n == 0 {
      assert false;
    } else {
      hide Execution, Enabled, After, Initial, Carries, Answers;
      Cut(s, steps, end, n - 1);
      CarriesStep(StateAt(s, steps, n - 1), steps[n - 1], id, decision);
      if !Answers(StateAt(s, steps, n - 1), steps[n - 1], id, decision) {
        DecisionsComeFromSchedule(s, steps, end, n - 1, id, decision);
      }
    }
  }

  // ---------- Crowded buckets ----------

  /** The step admits a newcomer to class c. */
  ghost predicate Joins(s: State, step: Step, c: PriorityClass) {
    && step.Handle? && step.act.Admit? && Enabled(s, step)
    && ClassFor(s.handlers[step.id].request.priority) == c
    && AdmitTo(s.queue, c, step.id).1.Admitted?
  }

  /** How many newcomers steps i to j - 1 admit to class c. */
  ghost function Newcomers(s: State, steps: seq<Step>, c: PriorityClass, i: nat, j: nat): nat
    requires j <= |steps|
    decreases j
  {
    if j <= i then 0
    else Newcomers(s, steps, c, i, j - 1) + (if Joins(StateAt(s, steps, j - 1), steps[j - 1], c) then 1 else 0)
  }

  /** The drainer neither pops nor re-admits in steps i to j - 1. */
  ghost predicate Undisturbed(steps: seq<Step>, i: nat, j: nat)
    requires j <= |steps|
  {
    forall k | i <= k < j :: steps[k] != Drain(Pop) && steps[k] != Drain(Requeue)
  }

  /** The request popped in step i is to go back in step j, but what its class still held and the newcomers since
      then fill the bucket. */
  ghost predicate Crowded(s: State, steps: seq<Step>, i: nat, j: nat) {
    && i < j < |steps| && steps[i] == Drain(Pop) && steps[j] == Drain(Requeue) && Undisturbed(steps, i + 1, j)
    && var popped := StateAt(s, steps, i + 1);
       && popped.queue.Valid() && popped.drainer.Holding?
       && var c := popped.drainer.priorityClass;
          |popped.queue.buckets[c]| + Newcomers(s, steps, c, i + 1, j) >= popped.queue.capacity
  }

  ghost predicate Refused(s: State, step: Step) {
    && step == Drain(Requeue) && Enabled(s, step)
    && AdmitTo(s.queue, s.drainer.priorityClass, s.drainer.id).1 == ErrQueueFull
  }

  lemma QuietStep(s: State, step: Step, c: PriorityClass)
    requires Enabled(s, step) && step != Drain(Pop) && step != Drain(Requeue)
    ensures After(s, step).queue.Valid()
    ensures |After(s, step).queue.buckets[c]| == |s.queue.buckets[c]| + (if Joins(s, step, c) then 1 else 0)
  {
    hide NextOf, QueueState.Valid, QueueState.Contents, QueueState.Len;
    match step
    case Handle(id, Admit) => NewcomerStep(s, id, c);
    case _ => hide AdmitTo;
  }

  lemma NewcomerStep(s: State, id: nat, c: PriorityClass)
    requires Enabled(s, Handle(id, Admit))
    ensures var s' := After(s, Handle(id, Admit));
            s'.queue.Valid()
            && |s'.queue.buckets[c]| == |s.queue.buckets[c]| + (if Joins(s, Handle(id, Admit), c) then 1 else 0)
  {
    assert AdmitTo(s.queue, ClassFor(s.handlers[id].request.priority), id).0.Valid();
    hide NextOf, QueueState.Contents, QueueState.Len;
  }

  /** As long as the drainer does not touch the queue, a bucket grows by its newcomers and no more. */
  lemma {:induction false} BucketGrows(s: State, steps: seq<Step>, end: State, c: PriorityClass, i: nat, j: nat)
    requires Initial(s) && Execution(s, steps, end) && i <= j <= |steps| && Undisturbed(steps, i, j)
    ensures StateAt(s, steps, i).queue.Valid() && StateAt(s, steps, j).queue.Valid()
    ensures |StateAt(s, steps, j).queue.buckets[c]|
         == |StateAt(s, steps, i).queue.buckets[c]| + Newcomers(s, steps, c, i, j)
    decreases j
  {
    hide Execution, Enabled, After, Joins, QueueState.Valid, Conserved, Classified, Delivered, Committed, StateAt;
    InvAt(s, steps, end, i);
    InvAt(s, steps, end, j);
    assert Inv(StateAt(s, steps, i)) && Inv(StateAt(s, steps, j));
    ValidAt(StateAt(s, steps, i));
    ValidAt(StateAt(s, steps, j));
    if i < j {
      BucketGrows(s, steps, end, c, i, j - 1);
      Cut(s, steps, end, j - 1);
      QuietStep(StateAt(s, steps, j - 1), steps[j - 1], c);
    }
  }

  lemma ValidAt(s: State)
    requires Inv(s)
    ensures s.queue.Valid()
  {
  }

  /** What is in the drainer's hands was there before, or has just been popped. */
  lemma HandStep(s: State, step: Step)
    requires Enabled(s, step) && After(s, step).drainer.InHand()
    ensures if step == Drain(Pop) then After(s, step).drainer.Holding?
            else step != Drain(Requeue) && s.drainer.InHand() && After(s, step).drainer.id == s.drainer.id
                 && After(s, step).drainer.priorityClass == s.drainer.priorityClass
  {
    hide NextOf, AdmitTo, QueueState.Valid;
  }

  /** Step i popped what is in the drainer's hands before step j, and nothing was popped or re-admitted since. */
  ghost predicate PoppedLast(s: State, steps: seq<Step>, i: nat, j: nat) {
    && i < j <= |steps| && steps[i] == Drain(Pop) && Undisturbed(steps, i + 1, j)
    && var d, popped := StateAt(s, steps, j).drainer, StateAt(s, steps, i + 1).drainer;
       d.InHand() && popped.Holding? && popped.id == d.id && popped.priorityClass == d.priorityClass
  }

  /** What the drainer has in hand it popped in the last Pop, and it has not re-admitted anything since. */
  lemma {:induction false} LastPop(s: State, steps: seq<Step>, end: State, j: nat) returns (i: nat)
    requires Execution(s, steps, end) && s.drainer == Resting && j <= |steps|
    requires StateAt(s, steps, j).drainer.InHand()
    ensures PoppedLast(s, steps, i, j)
    decreases j
  {
    hide Execution, Enabled, After;
    if j == 0 {
      assert false;
    } else {
      Cut(s, steps, end, j - 1);
      hide StateAt;
      HandStep(StateAt(s, steps, j - 1), steps[j - 1]);
      if steps[j - 1] == Drain(Pop) {
        i := j - 1;
      } else {
        i := LastPop(s, steps, end, j - 1);
      }
    }
  }

  /** Given the last Pop, the state of the bucket decides. */
  lemma RefusedIfFull(s: State, steps: seq<Step>, end: State, i: nat, j: nat)
    requires i < j < |steps| && steps[j] == Drain(Requeue)
    ensures Initial(s) && Execution(s, steps, end) && PoppedLast(s, steps, i, j) ==>
              (Refused(StateAt(s, steps, j), steps[j]) <==> Crowded(s, steps, i, j))
  {
    hide Execution, StateAt, Newcomers, NextOf, Inv, Undisturbed, Initial, QueueState.Valid;
    if Initial(s) && Execution(s, steps, end) && PoppedLast(s, steps, i, j) {
      Cut(s, steps, end, j);
      BucketGrows(s, steps, end, StateAt(s, steps, j).drainer.priorityClass, i + 1, j);
      InvAt(s, steps, end, i + 1);
      InvAt(s, steps, end, j);
    }
  }

  lemma OneLastPop(steps: seq<Step>, i: nat, k: nat, j: nat)
    requires i < j <= |steps| && steps[i] == Drain(Pop) && Undisturbed(steps, i + 1, j)
    requires k < j && steps[k] == Drain(Pop) && Undisturbed(steps, k + 1, j)
    ensures i == k
  {
  }

  /** A re-admission is refused exactly when the bucket its request was popped from, as it was left, together with
      the newcomers admitted to it since, has reached the capacity. */
  lemma RefusedIffCrowded(s: State, steps: seq<Step>, end: State, j: nat)
    requires Initial(s) && Execution(s, steps, end) && j < |steps| && steps[j] == Drain(Requeue)
    ensures Refused(StateAt(s, steps, j), steps[j]) <==> exists i :: Crowded(s, steps, i, j)
  {
    Cut(s, steps, end, j);
    assert s.drainer == Resting && StateAt(s, steps, j).drainer.Requeueing?;
    hide Execution, StateAt, Newcomers, Refused, Undisturbed, Initial, Enabled, After, QueueState.Valid;
    var i := LastPop(s, steps, end, j);
    RefusedIfFull(s, steps, end, i, j);
    forall k | Crowded(s, steps, k, j)
      ensures k == i
    {
      OneLastPop(steps, i, k, j);
    }
  }

  /** The step drops the request although its cancelled flag is not set. */
  ghost predicate DropsLive(s: State, step: Step, id: nat) {
    Enabled(s, step) && id !in s.cancelled && After(s, step).dropped[id] > s.dropped[id]
  }

  lemma DropsLiveMeansRefused(s: State, step: Step, id: nat)
    requires Enabled(s, step)
    ensures DropsLive(s, step, id) <==> Refused(s, step) && Held(s.drainer)[id] > 0 && id !in s.cancelled
  {
    hide NextOf, QueueState.Valid;
  }

  /** Exactly then is a live request dropped: when the drainer re-admits it to a crowded bucket before its timeout has
      stored the flag. */
  lemma LiveDropIffCrowded(s: State, steps: seq<Step>, end: State, j: nat, id: nat)
    requires Initial(s) && Execution(s, steps, end) && j < |steps|
    ensures DropsLive(StateAt(s, steps, j), steps[j], id)
       <==> (exists i :: Crowded(s, steps, i, j))
            && Held(StateAt(s, steps, j).drainer)[id] > 0 && id !in StateAt(s, steps, j).cancelled
  {
    Cut(s, steps, end, j);
    hide Execution, Initial, StateAt, DropsLive, Refused, Enabled, After, Newcomers, Undisturbed, QueueState.Valid;
    DropsLiveMeansRefused(StateAt(s, steps, j), steps[j], id);
    OnlyRequeuesAreRefused(StateAt(s, steps, j), steps[j]);
    if steps[j] == Drain(Requeue) {
      RefusedIffCrowded(s, steps, end, j);
    }
  }

  /** A handler that has stored its cancelled flag has answered 429. */
  lemma CancelledIsAnswered(s: State)
    requires Inv(s)
    ensures forall id | id in s.cancelled :: id in s.handlers && s.handlers[id].phase.Answered429?
  {
    assert Delivered(s);
    hide Inv, Conserved, Classified, Committed;
    forall id | id in s.cancelled
      ensures id in s.handlers && s.handlers[id].phase.Answered429?
    {
      assert Consistent(s, id);
    }
  }

  /** So a run in which that never happens drops no live request: whoever is dropped had timed out and has been
      answered 429. */
  lemma OnlyCrowdingDropsTheLiving(s: State, steps: seq<Step>, end: State)
    requires Initial(s) && Execution(s, steps, end)
    requires forall i, j :: !Crowded(s, steps, i, j)
    ensures forall id | id in end.dropped ::
              id in end.cancelled && id in end.handlers && end.handlers[id].phase.Answered429?
  {
    assert s.dropped == multiset{};
    hide *;
    forall j | 0 <= j < |steps|
      ensures !Refused(StateAt(s, steps, j), steps[j])
    {
      OnlyRequeuesAreRefused(StateAt(s, steps, j), steps[j]);
      if steps[j] == Drain(Requeue) { RefusedIffCrowded(s, steps, end, j); }
    }
    Cut(s, steps, end, |steps|);
    InvAt(s, steps, end, |steps|);
    CancelledIsAnswered(end);
    DroppedWereCancelled(s, steps, end, |steps|);
  }

  lemma {:induction false} DroppedWereCancelled(s: State, steps: seq<Step>, end: State, n: nat)
    requires Execution(s, steps, end) && s.dropped == multiset{} && n <= |steps|
    requires forall j | 0 <= j < n :: !Refused(StateAt(s, steps, j), steps[j])
    ensures forall id | id in StateAt(s, steps, n).dropped :: id in StateAt(s, steps, n).cancelled
    decreases n
  {
    hide Execution, Enabled, After, Refused;
    if n > 0 {
      DroppedWereCancelled(s, steps, end, n - 1);
      Cut(s, steps, end, n - 1);
      hide StateAt;
      DropsOf(StateAt(s, steps, n - 1), steps[n - 1]);
    }
  }

  lemma OnlyRequeuesAreRefused(s: State, step: Step)
    ensures Refused(s, step) ==> step == Drain(Requeue)
  {
  }

  /** A step drops a request only if it finds it cancelled or is refused. */
  lemma DropsOf(s: State, step: Step)
    requires Enabled(s, step)
    ensures s.cancelled <= After(s, step).cancelled
    ensures forall id | id in After(s, step).dropped && id !in s.dropped :: id in s.cancelled || Refused(s, step)
  {
    hide NextOf, QueueState.Valid;
  }

  // ---------- How that happens ----------

  /** A request arrives, finds no room on any GPU, and is queued. */
  lemma Queued(s: State, before: seq<Step>, mid: State, id: nat, a: Request) returns (steps: seq<Step>, end: State)
    requires Execution(s, before, mid) && mid.queue.Valid() && id !in mid.handlers
    requires |mid.queue.buckets[ClassFor(a.priority)]| < mid.queue.capacity
    ensures Execution(s, steps, end)
    ensures var q, c := mid.queue, ClassFor(a.priority);
            end == mid.(handlers := mid.handlers[id := Handler(a, Waiting)], admitted := mid.admitted + {id},
                        queue := q.(buckets := q.buckets[c := q.buckets[c] + [id]]))
  {
    hide Execution, NextOf;
    var arrive, miss, admit := Handle(id, Arrive(a)), Handle(id, Schedule(None)), Handle(id, Admit);
    Extend(s, before, mid, arrive);
    steps, end := before + [arrive], After(mid, arrive);
    Extend(s, steps, end, miss);
    steps, end := steps + [miss], After(end, miss);
    Extend(s, steps, end, admit);
    steps, end := steps + [admit], After(end, admit);
    assert end.queue == AdmitTo(mid.queue, ClassFor(a.priority), id).0;
    assert end.handlers == mid.handlers[id := Handler(a, Waiting)];
  }

  /** The other ways a request can go. Schedule finds room at once: one commit, answered 200. */
  lemma PlacedAtOnce(s: State, before: seq<Step>, mid: State, id: nat, a: Request, d: Decision)
      returns (steps: seq<Step>, end: State)
    requires Execution(s, before, mid) && mid.queue.Valid() && id !in mid.handlers
    ensures Execution(s, steps, end)
    ensures end == mid.(handlers := mid.handlers[id := Handler(a, Answered200(d))],
                        commits := mid.commits + [CommitRecord(id, d, a.modelName)])
  {
    hide Execution, NextOf, AdmitTo, QueueState.Valid;
    var arrive, found, commit, reply := Handle(id, Arrive(a)), Handle(id, HandlerStep.Schedule(Some(d))), Handle(id, Commit), Handle(id, Reply);
    Extend(s, before, mid, arrive);
    steps, end := before + [arrive], After(mid, arrive);
    Extend(s, steps, end, found);
    steps, end := steps + [found], After(end, found);
    Extend(s, steps, end, commit);
    steps, end := steps + [commit], After(end, commit);
    Extend(s, steps, end, reply);
    steps, end := steps + [reply], After(end, reply);
    assert end.handlers == mid.handlers[id := Handler(a, Answered200(d))];
  }

  /** Schedule finds none and the bucket is full: answered 429, nothing queued. */
  lemma RefusedWhenFull(s: State, before: seq<Step>, mid: State, id: nat, a: Request) returns (steps: seq<Step>, end: State)
    requires Execution(s, before, mid) && mid.queue.Valid() && id !in mid.handlers
    requires |mid.queue.buckets[ClassFor(a.priority)]| >= mid.queue.capacity
    ensures Execution(s, steps, end)
    ensures end == mid.(handlers := mid.handlers[id := Handler(a, Answered429)])
  {
    hide Execution, NextOf, QueueState.Valid;
    var arrive, miss, admit := Handle(id, Arrive(a)), Handle(id, HandlerStep.Schedule(None)), Handle(id, Admit);
    Extend(s, before, mid, arrive);
    steps, end := before + [arrive], After(mid, arrive);
    Extend(s, steps, end, miss);
    steps, end := steps + [miss], After(end, miss);
    Extend(s, steps, end, admit);
    steps, end := steps + [admit], After(end, admit);
    assert end.handlers == mid.handlers[id := Handler(a, Answered429)];
  }

  /** The drainer's retry succeeds for a waiting request: result sent and received, one commit, answered 200. */
  lemma PlacedFromQueue(s: State, before: seq<Step>, mid: State, id: nat, d: Decision) returns (steps: seq<Step>, end: State)
    requires Execution(s, before, mid) && mid.queue.Valid()
    requires id in mid.handlers && mid.handlers[id].phase.Waiting? && id !in mid.results
    requires mid.drainer.Retrying? && mid.drainer.id == id
    ensures Execution(s, steps, end)
    ensures var h := mid.handlers[id];
            end == mid.(handlers := mid.handlers[id := h.(phase := Answered200(d))],
                        commits := mid.commits + [CommitRecord(id, d, h.request.modelName)],
                        sent := mid.sent + multiset{id}, drainer := Draining(mid.drainer.left))
  {
    hide Execution, NextOf, AdmitTo, QueueState.Valid;
    var h := mid.handlers[id];
    var found, send := Drain(Retry(Some(d))), Drain(Send);
    var receive, commit, reply := Handle(id, Receive), Handle(id, Commit), Handle(id, Reply);
    Extend(s, before, mid, found);
    steps, end := before + [found], After(mid, found);
    Extend(s, steps, end, send);
    steps, end := steps + [send], After(end, send);
    Extend(s, steps, end, receive);
    steps, end := steps + [receive], After(end, receive);
    assert end.results == mid.results;
    Extend(s, steps, end, commit);
    steps, end := steps + [commit], After(end, commit);
    Extend(s, steps, end, reply);
    steps, end := steps + [reply], After(end, reply);
    assert end.handlers == mid.handlers[id := h.(phase := Answered200(d))];
  }

  /** The wait is over before the result: answered 429, the flag left for the drainer. */
  lemma TimedOut(s: State, before: seq<Step>, mid: State, id: nat) returns (steps: seq<Step>, end: State)
    requires Execution(s, before, mid) && mid.queue.Valid() && id in mid.handlers && mid.handlers[id].phase.Waiting?
    ensures Execution(s, steps, end)
    ensures end == mid.(handlers := mid.handlers[id := mid.handlers[id].(phase := Answered429)],
                        cancelled := mid.cancelled + {id})
  {
    hide Execution, NextOf, AdmitTo, QueueState.Valid;
    var timeout, store := Handle(id, Timeout), Handle(id, StoreCancelled);
    Extend(s, before, mid, timeout);
    steps, end := before + [timeout], After(mid, timeout);
    Extend(s, steps, end, store);
    steps, end := steps + [store], After(end, store);
    assert end.handlers == mid.handlers[id := mid.handlers[id].(phase := Answered429)];
  }

  /** Requests 0 to n - 1 wait in bucket c, in that order, and nothing else has happened. */
  ghost predicate Filled(s: State, c: PriorityClass, n: nat) {
    && s.queue.Valid() && s.drainer == Resting && s.cancelled == {}
    && (forall d: PriorityClass :: s.queue.buckets[d] == if d == c then seq(n, i => i) else [])
    && (forall id: nat :: id in s.handlers <==> id < n)
    && (forall id | id in s.handlers :: s.handlers[id].phase.Waiting?)
  }

  lemma {:induction false} FillUp(s: State, a: Request, n: nat) returns (steps: seq<Step>, mid: State)
    requires Initial(s) && n <= s.queue.capacity
    ensures Execution(s, steps, mid) && Filled(mid, ClassFor(a.priority), n) && mid.queue.capacity == s.queue.capacity
    decreases n
  {
    if n == 0 {
      steps, mid := [], s;
      assert seq(0, i => i) == [];
    } else {
      steps, mid := FillUp(s, a, n - 1);
      hide Execution, Initial, NextOf, AdmitTo, Enabled, After;
      assert seq(n, i => i) == seq(n - 1, i => i) + [n - 1];
      steps, mid := Queued(s, steps, mid, n - 1, a);
    }
  }

  /** The drainer wakes up, pops the oldest, and Schedule still finds no room for it. */
  lemma PoppedAndMissed(s: State, before: seq<Step>, mid: State, c: PriorityClass, n: nat)
      returns (steps: seq<Step>, end: State)
    requires Execution(s, before, mid) && Filled(mid, c, n) && n > 0
    ensures Execution(s, steps, end)
    ensures end.queue.Valid() && end.queue.capacity == mid.queue.capacity && |end.queue.buckets[c]| == n - 1
    ensures end.handlers == mid.handlers && end.cancelled == {}
    ensures end.drainer == Requeueing(n - 1, 0, c)
  {
    var tick, pop, check, miss := Drain(Tick), Drain(Pop), Drain(Check), Drain(Retry(None));
    OldestIsPopped(mid.queue, c, n);
    hide Execution, NextOf, AdmitTo, QueueState.Valid;
    Extend(s, before, mid, tick);
    steps, end := before + [tick], After(mid, tick);
    Extend(s, steps, end, pop);
    steps, end := steps + [pop], After(end, pop);
    Extend(s, steps, end, check);
    steps, end := steps + [check], After(end, check);
    Extend(s, steps, end, miss);
    steps, end := steps + [miss], After(end, miss);
  }

  lemma OldestIsPopped(q: QueueState<nat>, c: PriorityClass, n: nat)
    requires q.Valid() && n > 0
    requires forall d: PriorityClass :: q.buckets[d] == if d == c then seq(n, i => i) else []
    ensures q.Len() == n && NextOf(q).1 == Served(0, c)
    ensures |NextOf(q).0.buckets[c]| == n - 1 && NextOf(q).0.capacity == q.capacity
  {
    NextIsWorkConserving(q);
    hide NextOf;
    match c case High => case Medium => case Low =>
    var (q', d) := NextOf(q);
    assert q.buckets[c] != [];
    assert q.buckets[d.priorityClass] == [d.request] + q'.buckets[d.priorityClass];
    assert ([d.request] + q'.buckets[d.priorityClass])[0] == d.request;
  }

  lemma FullMeansDropped(s: State)
    requires s.queue.Valid() && s.drainer.Requeueing?
    requires |s.queue.buckets[s.drainer.priorityClass]| >= s.queue.capacity
    ensures Enabled(s, Drain(Requeue))
    ensures After(s, Drain(Requeue)) == s.(drainer := Draining(s.drainer.left), dropped := s.dropped + multiset{s.drainer.id})
  {
  }

  /** The price of re-admitting without a reserved place, at any capacity: the drainer can lose a live request. A
      newcomer admitted between its Next and its Admit takes the freed place. */
  lemma ReadmissionCanBeRefused(s: State, a: Request, b: Request) returns (steps: seq<Step>, end: State)
    requires Initial(s) && s.queue.capacity > 0 && ClassFor(a.priority) == ClassFor(b.priority)
    ensures Execution(s, steps, end)
    ensures 0 in end.dropped && 0 !in end.cancelled && 0 in end.handlers && end.handlers[0].phase.Waiting?
  {
    var n := s.queue.capacity;
    steps, end := FillUp(s, a, n);
    hide Execution, Initial, NextOf;
    steps, end := PoppedAndMissed(s, steps, end, ClassFor(a.priority), n);
    steps, end := Queued(s, steps, end, n, b);
    FullMeansDropped(end);
    hide Enabled, After, QueueState.Valid, Filled;
    Extend(s, steps, end, Drain(Requeue));
    steps, end := steps + [Drain(Requeue)], After(end, Drain(Requeue));
  }
}
