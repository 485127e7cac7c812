/** The preemption queue of scheduler/scheduler/bin_packer.go: the source's own Less, Swap, Push
    and Pop, driven by the sift-up and sift-down of Go's container/heap, which are written out. */
module PreemptionHeap {
  import opened Wrappers
  import opened BinPacker

  class Task {
    const modelName: string
    const priority: int
    const vramMiB: int
    var index: int

    constructor (modelName: string, priority: int, vramMiB: int)
      ensures this.modelName == modelName && this.priority == priority && this.vramMiB == vramMiB
    {
      this.modelName, this.priority, this.vramMiB := modelName, priority, vramMiB;
      index := 0;
    }
  }

  datatype EvictError = NoTasks | CannotEvictP0

  function Parent(k: int): int
    requires k > 0
  {
    (k - 1) / 2
  }

  /** Nothing outranks its parent within the first n places; less urgent work (a larger number) is on top. */
  ghost predicate HeapOrdered(s: seq<Task>, n: int)
    requires n <= |s|
  {
    forall k | 0 < k < n :: s[Parent(k)].priority >= s[k].priority
  }

  /** As above, except that the element at `hole` may outrank its parent. */
  ghost predicate OrderedButUp(s: seq<Task>, hole: int) {
    && (forall k | 0 < k < |s| && k != hole :: s[Parent(k)].priority >= s[k].priority)
    && (forall k | 0 < k < |s| && Parent(k) == hole && 0 < hole :: s[Parent(hole)].priority >= s[k].priority)
  }

  /** As above, except that the element at `hole` may be outranked by its children. */
  ghost predicate OrderedButDown(s: seq<Task>, hole: int, n: int)
    requires n <= |s|
  {
    && (forall k | 0 < k < n && Parent(k) != hole :: s[Parent(k)].priority >= s[k].priority)
    && (forall k | 0 < k < n && Parent(k) == hole && 0 < hole :: s[Parent(hole)].priority >= s[k].priority)
  }

  ghost function Swapped<T>(s: seq<T>, i: nat, j: nat): seq<T>
    requires i < |s| && j < |s|
  {
    s[i := s[j]][j := s[i]]
  }

  lemma SwapKeepsAll<T>(s: seq<T>, i: nat, j: nat)
    requires i < |s| && j < |s|
    ensures multiset(Swapped(s, i, j)) == multiset(s)
  {
  }

  lemma {:induction false} RootOutranksAll(s: seq<Task>, k: nat)
    requires k < |s| && HeapOrdered(s, |s|)
    ensures s[0].priority >= s[k].priority
  {
    if k > 0 { RootOutranksAll(s, Parent(k)); }
  }

  /** One exchange of sift-up moves the hole to the parent. */
  lemma UpStep(s: seq<Task>, j: nat)
    requires 0 < j < |s| && OrderedButUp(s, j) && s[j].priority > s[Parent(j)].priority
    ensures OrderedButUp(Swapped(s, Parent(j), j), Parent(j))
  {
    var i := Parent(j);
    var s' := Swapped(s, i, j);
    forall k | 0 < k < |s| && k != i
      ensures s'[Parent(k)].priority >= s'[k].priority
    {
      if k != j && Parent(k) == j { assert s[i].priority >= s[k].priority; }
    }
    forall k | 0 < k < |s| && Parent(k) == i && 0 < i
      ensures s'[Parent(i)].priority >= s'[k].priority
    {
      assert s[Parent(i)].priority >= s[i].priority;
    }
  }

  /** One exchange of sift-down with the higher child moves the hole there. */
  lemma DownStep(s: seq<Task>, i: nat, j: nat, n: nat)
    requires n <= |s| && 2 * i + 1 <= j <= 2 * i + 2 && j < n && OrderedButDown(s, i, n)
    requires s[j].priority > s[i].priority
    requires forall k | 2 * i + 1 <= k <= 2 * i + 2 && k < n :: s[k].priority <= s[j].priority
    ensures OrderedButDown(Swapped(s, i, j), j, n)
    ensures Swapped(s, i, j)[n..] == s[n..]
  {
  }

  lemma UpDone(s: seq<Task>, j: nat)
    requires j < |s| && OrderedButUp(s, j) && (j > 0 ==> s[j].priority <= s[Parent(j)].priority)
    ensures HeapOrdered(s, |s|)
  {
  }

  lemma DownDone(s: seq<Task>, i: nat, n: nat)
    requires n <= |s| && OrderedButDown(s, i, n)
    requires forall k | 2 * i + 1 <= k <= 2 * i + 2 && k < n :: s[k].priority <= s[i].priority
    ensures HeapOrdered(s, n)
  {
  }

  /** With the root moved to the back, what is left in front is ordered but for its new root. */
  lemma RootSwappedOut(s: seq<Task>)
    requires s != [] && HeapOrdered(s, |s|)
    ensures var n := |s| - 1;
            OrderedButDown(Swapped(s, 0, n), 0, n) && Swapped(s, 0, n)[n..] == [s[0]]
    ensures multiset(Swapped(s, 0, |s| - 1)) == multiset(s)
    ensures forall u | u in s :: u.priority <= s[0].priority
  {
    SwapKeepsAll(s, 0, |s| - 1);
    forall u | u in s
      ensures u.priority <= s[0].priority
    {
      var k :| 0 <= k < |s| && s[k] == u;
      RootOutranksAll(s, k);
    }
  }

  lemma HeapWithoutLast(s: seq<Task>)
    requires s != [] && HeapOrdered(s, |s| - 1)
    ensures HeapOrdered(s[..|s| - 1], |s| - 1)
  {
  }

  class PriorityQueue {
    var pq: seq<Task>

    /** Every task knows its own position; in particular no task is queued twice. */
    ghost predicate Indexed()
      reads this, pq
    {
      forall i | 0 <= i < |pq| :: pq[i].index == i
    }

    constructor ()
      ensures pq == []
    {
      pq := [];
    }

    // ---------- heap.Interface ----------

    predicate Less(i: nat, j: nat)
      requires i < |pq| && j < |pq|
      reads this
    {
      pq[i].priority > pq[j].priority
    }

    method Swap(i: nat, j: nat)
      requires i < |pq| && j < |pq|
      modifies this, pq[i], pq[j]
      ensures pq == Swapped(old(pq), i, j)
      ensures old(Indexed()) ==> Indexed()
    {
      pq := pq[i := pq[j]][j := pq[i]];
      pq[i].index := i;
      pq[j].index := j;
    }

    method Push(t: Task)
      modifies this, t
      ensures pq == old(pq) + [t]
      ensures old(Indexed()) && t !in old(pq) ==> Indexed()
    {
      t.index := |pq|;
      pq := pq + [t];
    }

    method Pop() returns (t: Task)
      requires |pq| > 0
      modifies this
      ensures old(pq) == pq + [t]
      ensures old(Indexed()) ==> Indexed()
    {
      t := pq[|pq| - 1];
      pq := pq[..|pq| - 1];
    }

    // ---------- container/heap ----------

    method Up(start: nat)
      requires start < |pq| && OrderedButUp(pq, start)
      modifies this, pq
      ensures multiset(pq) == multiset(old(pq)) && |pq| == |old(pq)|
      ensures HeapOrdered(pq, |pq|)
      ensures old(Indexed()) ==> Indexed()
    {
      var j := start;
      hide OrderedButUp, HeapOrdered;
      while true
        invariant 0 <= j < |pq| == |old(pq)|
        invariant multiset(pq) == multiset(old(pq))
        invariant OrderedButUp(pq, j)
        invariant old(Indexed()) ==> Indexed()
        decreases j
      {
        var i := if j == 0 then 0 else (j - 1) / 2;
        if i == j || !Less(j, i) {
          UpDone(pq, j);
          break;
        }
        UpStep(pq, j);
        SwapKeepsAll(pq, i, j);
        assert pq[i] in old(pq) && pq[j] in old(pq) by { SameTasks(old(pq), pq); }
        Swap(i, j);
        j := i;
      }
    }

    method Down(i0: nat, n: nat)
      requires i0 <= n <= |pq| && OrderedButDown(pq, i0, n)
      modifies this, pq
      ensures multiset(pq) == multiset(old(pq)) && |pq| == |old(pq)|
      ensures pq[n..] == old(pq)[n..]
      ensures HeapOrdered(pq, n)
      ensures old(Indexed()) ==> Indexed()
    {
      var i := i0;
      hide OrderedButDown, HeapOrdered, Parent;
      while true
        invariant 0 <= i && n <= |pq| == |old(pq)| && (i < n || i == i0)
        invariant multiset(pq) == multiset(old(pq))
        invariant pq[n..] == old(pq)[n..]
        invariant OrderedButDown(pq, i, n)
        invariant old(Indexed()) ==> Indexed()
        decreases n - i
      {
        var j1 := 2 * i + 1;
        if j1 >= n {
          DownDone(pq, i, n);
          break;
        }
        var j := j1;
        var j2 := j1 + 1;
        if j2 < n && Less(j2, j1) {
          j := j2;
        }
        if !Less(j, i) {
          DownDone(pq, i, n);
          break;
        }
        DownStep(pq, i, j, n);
        SwapKeepsAll(pq, i, j);
        assert pq[i] in old(pq) && pq[j] in old(pq) by { SameTasks(old(pq), pq); }
        Swap(i, j);
        i := j;
      }
    }

    method HeapPush(t: Task)
      requires HeapOrdered(pq, |pq|)
      modifies this, pq, t
      ensures HeapOrdered(pq, |pq|)
      ensures multiset(pq) == multiset(old(pq)) + multiset{t}
      ensures old(Indexed()) && t !in old(pq) ==> Indexed()
    {
      Push(t);
      Up(|pq| - 1);
    }

    method HeapPop() returns (t: Task)
      requires |pq| > 0 && HeapOrdered(pq, |pq|)
      modifies this, pq
      ensures HeapOrdered(pq, |pq|)
      ensures multiset(pq) + multiset{t} == multiset(old(pq))
      ensures forall u | u in old(pq) :: u.priority <= t.priority
      ensures old(Indexed()) ==> Indexed() && t !in pq
    {
      ghost var before := pq;
      var n := |pq| - 1;
      RootSwappedOut(pq);
      hide HeapOrdered, OrderedButDown;
      Swap(0, n);
      SameTasks(before, pq);
      Down(0, n);
      ghost var all := pq;
      t := Pop();
      assert all[n..] == [before[0]];
      HeapWithoutLast(all);
    }

    // ---------- BinPacker.Enqueue and BinPacker.Evict ----------

    method Enqueue(t: Task)
      requires HeapOrdered(pq, |pq|)
      modifies this, pq, t
      ensures HeapOrdered(pq, |pq|)
      ensures Happens(multiset(old(pq)), Enqueued(t), multiset(pq))
      ensures old(Indexed()) && t !in old(pq) ==> Indexed()
    {
      HeapPush(t);
    }

    method Evict() returns (r: Result<Task, EvictError>)
      requires HeapOrdered(pq, |pq|)
      modifies this, pq
      ensures HeapOrdered(pq, |pq|)
      ensures Happens(multiset(old(pq)), if r.Ok? then Evicted(r.value) else Refused, multiset(pq))
      ensures r == Err(NoTasks) <==> old(pq) == []
      ensures r.Ok? ==> r.value.priority != 0
      ensures old(Indexed()) ==> Indexed()
    {
      if |pq| == 0 {
        return Err(NoTasks);
      }
      ghost var before := pq;
      var t := HeapPop();
      assert forall u | u in multiset(before) :: u in before;
      assert t in multiset(before);
      forall i | 0 <= i < |pq|
        ensures pq[i] in before
      {
        assert pq[i] in multiset(pq);
      }
      if t.priority == P0_PRODUCTION {
        HeapPush(t);
        return Err(CannotEvictP0);
      }
      return Ok(t);
    }
  }

  lemma SameTasks(a: seq<Task>, b: seq<Task>)
    requires multiset(a) == multiset(b)
    ensures forall t :: t in a <==> t in b
  {
    assert forall t :: t in a <==> t in multiset(a);
    assert forall t :: t in b <==> t in multiset(b);
  }

  // ---------- Whole runs ----------

  datatype Event = Enqueued(task: Task) | Evicted(task: Task) | Refused

  /** No task can be taken: there is none, or the one to go first is a production task. */
  ghost predicate Refuses(m: multiset<Task>) {
    m == multiset{} || exists t :: t in m && t.priority == P0_PRODUCTION && forall u | u in m :: u.priority <= t.priority
  }

  /** What each call does to the tasks queued, as a relation on multisets. */
  ghost predicate Happens(m: multiset<Task>, e: Event, m': multiset<Task>) {
    match e
    case Enqueued(t) => m' == m + multiset{t}
    case Evicted(t) =>
      && t in m && m' == m - multiset{t}
      && (forall u | u in m :: u.priority <= t.priority)
      && t.priority != P0_PRODUCTION
    case Refused => m' == m && Refuses(m)
  }

  /** states[i] is what is queued before the i-th event. */
  ghost predicate Run(states: seq<multiset<Task>>, events: seq<Event>) {
    && |states| == |events| + 1
    && forall i | 0 <= i < |events| :: Happens(states[i], events[i], states[i + 1])
  }

  ghost function EnqueuedIn(events: seq<Event>): multiset<Task> {
    if events == [] then multiset{}
    else EnqueuedIn(events[..|events| - 1])
         + (var e := events[|events| - 1]; if e.Enqueued? then multiset{e.task} else multiset{})
  }

  ghost function EvictedIn(events: seq<Event>): multiset<Task> {
    if events == [] then multiset{}
    else EvictedIn(events[..|events| - 1])
         + (var e := events[|events| - 1]; if e.Evicted? then multiset{e.task} else multiset{})
  }

  lemma OneEvent(m: multiset<Task>, e: Event, m': multiset<Task>, evicted: multiset<Task>, all: multiset<Task>)
    requires Happens(m, e, m') && evicted + m == all
    ensures evicted + (if e.Evicted? then multiset{e.task} else multiset{}) + m'
         == all + (if e.Enqueued? then multiset{e.task} else multiset{})
  {
  }

  /** Over any run: what was evicted and what remains is what there was and what was enqueued. */
  lemma {:induction false} NothingLost(states: seq<multiset<Task>>, events: seq<Event>)
    requires Run(states, events)
    ensures EvictedIn(events) + states[|events|] == states[0] + EnqueuedIn(events)
    decreases events
  {
    if events != [] {
      var n := |events| - 1;
      NothingLost(states[..n + 1], events[..n]);
      assert states[..n + 1][n] == states[n] && states[..n + 1][0] == states[0];
      OneEvent(states[n], events[n], states[n + 1], EvictedIn(events[..n]), states[0] + EnqueuedIn(events[..n]));
    }
  }

  /** Over any run: a production task that was queued, or is enqueued on the way, is still queued at the end,
      as often as it went in. */
  lemma {:induction false} ProductionStays(states: seq<multiset<Task>>, events: seq<Event>, t: Task)
    requires Run(states, events) && t.priority == 0
    ensures states[|events|][t] == states[0][t] + EnqueuedIn(events)[t]
    decreases events
  {
    if events != [] {
      var n := |events| - 1;
      ProductionStays(states[..n + 1], events[..n], t);
      assert states[..n + 1][n] == states[n] && states[..n + 1][0] == states[0];
      assert Happens(states[n], events[n], states[n + 1]);
    }
  }

  /** Without an Enqueue in between, whatever is queued later was queued before. */
  lemma {:induction false} OnlyShrinks(states: seq<multiset<Task>>, events: seq<Event>, i: nat, j: nat)
    requires Run(states, events) && i <= j <= |events|
    requires forall k | i <= k < j :: !events[k].Enqueued?
    ensures states[j] <= states[i]
    decreases j
  {
    if i < j {
      OnlyShrinks(states, events, i, j - 1);
      assert Happens(states[j - 1], events[j - 1], states[j]);
    }
  }

  /** Over any stretch without an Enqueue, evictions come out least urgent first. */
  lemma EvictionsDescend(states: seq<multiset<Task>>, events: seq<Event>, i: nat, j: nat)
    requires Run(states, events) && i < j < |events|
    requires events[i].Evicted? && events[j].Evicted? && forall k | i < k < j :: !events[k].Enqueued?
    ensures events[i].task.priority >= events[j].task.priority
  {
    OnlyShrinks(states, events, i, j);
    assert Happens(states[i], events[i], states[i + 1]) && Happens(states[j], events[j], states[j + 1]);
  }

  /** Evict refuses just when only production tasks are left, if and only if no task of negative
      priority is hidden behind a production task at the top. */
  lemma RefusalMeansOnlyProduction(m: multiset<Task>)
    ensures (Refuses(m) <==> forall t | t in m :: t.priority == P0_PRODUCTION)
       <==> !((exists t :: t in m && t.priority < P0_PRODUCTION) && (exists t :: t in m && t.priority == P0_PRODUCTION)
              && forall t | t in m :: t.priority <= P0_PRODUCTION)
  {
  }

  /** For example: behind a production task, a task of priority -1 cannot be evicted. */
  lemma NegativePriorityIsStuck(production: Task, other: Task)
    requires production.priority == P0_PRODUCTION && other.priority == -1
    ensures Refuses(multiset{production, other})
  {
  }

  // ---------- A whole run over the real queue ----------

  datatype Command = EnqueueIt(task: Task) | EvictOne
  {
    predicate AnsweredBy(e: Event) {
      match this
      case EnqueueIt(t) => e == Enqueued(t)
      case EvictOne => e.Evicted? || e.Refused?
    }
  }

  function TasksOf(commands: seq<Command>): set<Task> {
    set c | c in commands && c.EnqueueIt? :: c.task
  }

  /** Of the first n commands, none enqueues a task that is queued at that moment; one that was evicted may return. */
  ghost predicate NoneTwice(states: seq<multiset<Task>>, commands: seq<Command>, n: nat)
    requires n <= |commands| && n <= |states|
  {
    forall i | 0 <= i < n && commands[i].EnqueueIt? :: commands[i].task !in states[i]
  }

  /** Every task queued was there at first or came with the first n commands. */
  ghost predicate ComesFrom(queued: seq<Task>, first: seq<Task>, commands: seq<Command>, n: nat)
    requires n <= |commands|
  {
    forall t | t in queued :: t in first || t in TasksOf(commands[..n])
  }

  lemma StillComesFrom(before: seq<Task>, after: seq<Task>, first: seq<Task>, commands: seq<Command>, n: nat, e: Event)
    requires n < |commands| && ComesFrom(before, first, commands, n)
    requires Happens(multiset(before), e, multiset(after)) && commands[n].AnsweredBy(e)
    ensures ComesFrom(after, first, commands, n + 1)
  {
    assert commands[..n + 1] == commands[..n] + [commands[n]];
    forall t | t in after
      ensures t in first || t in TasksOf(commands[..n + 1])
    {
      assert t in multiset(after);
      if t in multiset(before) {
        assert t in before;
        if t in TasksOf(commands[..n]) {
          var c :| c in commands[..n] && c.EnqueueIt? && c.task == t;
          assert c in commands[..n + 1];
        }
      } else {
        assert commands[n] in commands[..n + 1] && commands[n] == EnqueueIt(t);
      }
    }
  }

  lemma NoneTwiceSoFar(states: seq<multiset<Task>>, commands: seq<Command>, n: nat, m: multiset<Task>)
    requires n < |commands| && |states| == n + 1 && NoneTwice(states + [m], commands, n + 1)
    ensures NoneTwice(states, commands, n)
    ensures commands[n].EnqueueIt? ==> commands[n].task !in states[n]
  {
    assert forall i | 0 <= i <= n :: (states + [m])[i] == states[i];
  }

  lemma RunOneMore(states: seq<multiset<Task>>, events: seq<Event>, e: Event, m: multiset<Task>)
    requires Run(states, events) && Happens(states[|events|], e, m)
    ensures Run(states + [m], events + [e])
  {
    forall i | 0 <= i < |events| + 1
      ensures Happens((states + [m])[i], (events + [e])[i], (states + [m])[i + 1])
    {
    }
  }

  method CarryOut(q: PriorityQueue, command: Command) returns (e: Event)
    requires HeapOrdered(q.pq, |q.pq|)
    modifies q, q.pq, TasksOf([command])
    ensures HeapOrdered(q.pq, |q.pq|)
    ensures Happens(multiset(old(q.pq)), e, multiset(q.pq)) && command.AnsweredBy(e)
    ensures old(q.Indexed()) && (command.EnqueueIt? ==> command.task !in multiset(old(q.pq))) ==> q.Indexed()
  {
    match command {
      case EnqueueIt(t) =>
        assert command in [command];
        q.Enqueue(t);
        e := Enqueued(t);
      case EvictOne =>
        var r := q.Evict();
        e := if r.Ok? then Evicted(r.value) else Refused;
    }
  }

  /** Any sequence of calls of Enqueue and Evict, carried out one after the other: what happens is a run in the sense
      above, heap order holds at the end, and so do the back-pointers when no task is queued twice at a time. */
  method Serve(q: PriorityQueue, commands: seq<Command>) returns (log: seq<Event>, ghost states: seq<multiset<Task>>)
    requires HeapOrdered(q.pq, |q.pq|)
    modifies q, q.pq, TasksOf(commands)
    ensures HeapOrdered(q.pq, |q.pq|)
    ensures Run(states, log) && states[0] == multiset(old(q.pq)) && states[|log|] == multiset(q.pq)
    ensures |log| == |commands| && forall i | 0 <= i < |commands| :: commands[i].AnsweredBy(log[i])
    ensures old(q.Indexed()) && NoneTwice(states, commands, |commands|) ==> q.Indexed()
  {
    log, states := [], [multiset(q.pq)];
    hide HeapOrdered, Happens, Run, ComesFrom, NoneTwice;
    StartRun(q.pq, commands);
    for n := 0 to |commands|
      invariant HeapOrdered(q.pq, |q.pq|)
      invariant |log| == n && |states| == n + 1 && states[0] == multiset(old(q.pq)) && states[n] == multiset(q.pq)
      invariant Run(states, log)
      invariant forall i | 0 <= i < n :: commands[i].AnsweredBy(log[i])
      invariant ComesFrom(q.pq, old(q.pq), commands, n)
      invariant old(q.Indexed()) && NoneTwice(states, commands, n) ==> q.Indexed()
    {
      ghost var before := q.pq;
      InFrame(q.pq, old(q.pq), commands, n);
      var e := CarryOut(q, commands[n]);
      StillComesFrom(before, q.pq, old(q.pq), commands, n, e);
      RunOneMore(states, log, e, multiset(q.pq));
      if NoneTwice(states + [multiset(q.pq)], commands, n + 1) { NoneTwiceSoFar(states, commands, n, multiset(q.pq)); }
      log, states := log + [e], states + [multiset(q.pq)];
    }
  }

  lemma StartRun(queued: seq<Task>, commands: seq<Command>)
    ensures Run([multiset(queued)], []) && ComesFrom(queued, queued, commands, 0)
  {
  }

  lemma InFrame(queued: seq<Task>, first: seq<Task>, commands: seq<Command>, n: nat)
    requires n < |commands| && ComesFrom(queued, first, commands, n)
    ensures forall t | t in queued :: t in first || t in TasksOf(commands)
    ensures TasksOf([commands[n]]) <= TasksOf(commands)
  {
    assert forall c | c in commands[..n] :: c in commands;
    assert commands[n] in commands;
  }
}
