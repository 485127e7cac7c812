/** The scheduler's parts together: what a placement makes the reconciler do, and what a node that
    has been marked dead is spared until it is heard from again. */
module ControlPlane {
  import opened Wrappers
  import opened Registry
  import opened BinPacker
  import opened Reconciler

  // ---------- A placement is pursued ----------

  /** gateway.commit: the desired lists after a decision for this model. */
  function Committed(d: map<string, seq<string>>, decision: ScheduleDecision, modelName: string): map<string, seq<string>> {
    OnLists(d, AddOp(SliceKey(decision.nodeID, decision.gpuID, decision.sliceID), modelName))
  }

  /** The immediate path of POST /schedule: place, and on success commit. */
  method PlaceNow(rec: Reconciler, req: ScheduleRequest) returns (r: Result<ScheduleDecision, ScheduleError>)
    requires rec.Valid()
    modifies rec`desiredState
    ensures rec.Valid()
    ensures r.Err? ==> rec.desiredState == old(rec.desiredState)
    ensures r.Ok? ==>
              && rec.desiredState == Committed(old(rec.desiredState), r.value, req.modelName)
              && exists c :: Chosen(rec.registry.View(), req, c) && r.value == DecisionFor(c)
    // the slice gains the model and loses none, and nothing else is touched
    ensures r.Ok? ==>
              var key := SliceKey(r.value.nodeID, r.value.gpuID, r.value.sliceID);
              && key in rec.desiredState
              && (forall m :: m in rec.desiredState[key] <==>
                    m == req.modelName || (key in old(rec.desiredState) && m in old(rec.desiredState)[key]))
              && forall k | k != key :: (k in rec.desiredState <==> k in old(rec.desiredState))
                                       && (k in rec.desiredState ==> rec.desiredState[k] == old(rec.desiredState)[k])
  {
    hide Chosen, IsCandidate;
    r := Schedule(rec.registry, req);
    if r.Ok? {
      rec.AddDesired(r.value.nodeID, r.value.gpuID, r.value.sliceID, req.modelName);
    }
  }

  /** The slice ID the reconciler puts on its actions for this candidate. */
  function ActionSlice(c: Candidate): string {
    if c.node.Whole() then "" else c.slice.sliceID
  }

  lemma {:induction false} OnlyThisSlice(d: map<string, seq<string>>, g: NodeReport, slices: seq<MIGSlice>, s: MIGSlice, a: Action)
    requires forall i, j | 0 <= i < j < |slices| :: slices[i].sliceID != slices[j].sliceID
    requires a.sliceID == s.sliceID
    ensures s in slices ==> SlicesCount(d, g, slices, a) == SliceCount(d, g, s, a)
    ensures (forall t | t in slices :: t.sliceID != s.sliceID) ==> SlicesCount(d, g, slices, a) == 0
  {
    if slices != [] {
      var init, last := slices[..|slices| - 1], slices[|slices| - 1];
      OnlyThisSlice(d, g, init, s, a);
      assert slices == init + [last];
      if s in slices && last.sliceID == s.sliceID {
        forall t | t in init
          ensures t.sliceID != s.sliceID
        {
        }
      }
    }
  }

  /** The key the placement writes is the key the reconciler reads for the chosen slice. */
  lemma SameKey(c: Candidate, neededMiB: int)
    requires c.node.Offers(c.slice, neededMiB)
    ensures SliceKey(c.node.nodeID, c.node.gpuID, DecisionFor(c).sliceID)
         == SliceKey(c.node.nodeID, c.node.gpuID, if c.node.Whole() then "full" else c.slice.sliceID)
  {
  }

  /** Whatever kind of node was chosen: the next tick sends exactly one PREWARM for the placed model to
      the chosen slice if the slice does not report it loaded, none if it does, and never an EVICT. */
  lemma PlacementIsPursued(v: map<string, Entry>, req: ScheduleRequest, c: Candidate, d: map<string, seq<string>>, now: int)
    requires Chosen(v, req, c) && c.node.Key() !in StaleKeys(v, now)
    requires forall i, j | 0 <= i < j < |c.node.migSlices| :: c.node.migSlices[i].sliceID != c.node.migSlices[j].sliceID
    ensures var d', v' := Committed(d, DecisionFor(c), req.modelName), Marked(v, StaleKeys(v, now));
            && TickCount(d', v', Action(PREWARM, c.node.nodeID, c.node.gpuID, ActionSlice(c), req.modelName))
               == (if req.modelName in c.slice.loadedModels then 0 else 1)
            && TickCount(d', v', Action(EVICT, c.node.nodeID, c.node.gpuID, ActionSlice(c), req.modelName)) == 0
  {
    var d' := Committed(d, DecisionFor(c), req.modelName);
    var load := Action(PREWARM, c.node.nodeID, c.node.gpuID, ActionSlice(c), req.modelName);
    var key := SliceKey(c.node.nodeID, c.node.gpuID, DecisionFor(c).sliceID);
    SameKey(c, req.vramNeededMiB);
    assert key in d' && req.modelName in d'[key];
    assert load.NodeKey() == c.node.Key() && load.(kind := EVICT).NodeKey() == c.node.Key();
    hide SliceKey, RegistryKey;
    if !c.node.Whole() {
      OnlyThisSlice(d', c.node, c.node.migSlices, c.slice, load);
      OnlyThisSlice(d', c.node, c.node.migSlices, c.slice, load.(kind := EVICT));
    }
  }

  /** A placement takes nothing away: what the tick after it would evict, the tick without it would have evicted too. */
  lemma PlacementEvictsNoMore(d: map<string, seq<string>>, decision: ScheduleDecision, modelName: string,
                              v: map<string, Entry>, a: Action)
    requires a.kind == EVICT && TickCount(Committed(d, decision, modelName), v, a) > 0
    ensures var key := SliceKey(decision.nodeID, decision.gpuID, decision.sliceID);
            key in d ==> TickCount(d, v, a) > 0
    ensures SliceKey(a.nodeID, a.gpuID, a.sliceID) in d ==> a.modelName !in d[SliceKey(a.nodeID, a.gpuID, a.sliceID)]
  {
    var d' := Committed(d, decision, modelName);
    TickAsksIff(d', v, a);
    TickAsksIff(d, v, a);
    NodeAsksIff(d', v[a.NodeKey()].report, a);
    NodeAsksIff(d, v[a.NodeKey()].report, a);
    var asked := SliceKey(a.nodeID, a.gpuID, a.sliceID);
    OpMeans(d, AddOp(SliceKey(decision.nodeID, decision.gpuID, decision.sliceID), modelName), asked, a.modelName);
    hide SliceKey, RegistryKey, TickCount, NodeCount, OnLists;
  }

  // ---------- A heartbeat brings a node up ----------

  /** Whatever was known of it before, dead or not, a node that is heard from is listed as healthy, and if it offers
      a slice for a request, Schedule finds a place. */
  method HearThenSchedule(rec: Reconciler, report: NodeReport, now: int, req: ScheduleRequest)
      returns (nodes: seq<GPUNode>, r: Result<ScheduleDecision, ScheduleError>)
    requires rec.Valid()
    modifies rec.registry
    ensures rec.Valid()
    ensures exists n :: n in nodes && n.report == report
    ensures (exists s :: report.Offers(s, req.vramNeededMiB)) ==> r.Ok?
  {
    ghost var before := rec.registry.View();
    rec.ApplyHeartbeat(report, now);
    ghost var v := rec.registry.View();
    UpsertedMeans(before, report, now, report.Key());
    nodes := rec.registry.All();
    ListedWhenHealthy(nodes, v, report);
    r := Schedule(rec.registry, req);
    assert rec.registry.View() == v;
    if s :| report.Offers(s, req.vramNeededMiB) {
      assert IsCandidate(v, req, Candidate(report, s, report.HasWeights(req.modelName)));
    }
  }

  lemma ListedWhenHealthy(nodes: seq<GPUNode>, v: map<string, Entry>, report: NodeReport)
    requires Lists(nodes, v, HealthyKeys(v))
    requires report.Key() in v && v[report.Key()].healthy && v[report.Key()].report == report
    ensures exists n :: n in nodes && n.report == report
  {
    assert report.Key() in HealthyKeys(v);
    var n :| n in nodes && n.report.Key() == report.Key();
  }

  // ---------- A dead node is left alone ----------

  datatype Event =
    | Beat(key: string, at: int)
    | Act(action: Action, at: int)
    | Placed(key: string)
  {
    /** The node the event is about. */
    function Node(): string {
      if Act? then action.NodeKey() else key
    }

    predicate Kills() {
      Act? && action.kind == MARK_DEAD
    }
  }

  datatype Cluster = Cluster(view: map<string, Entry>, desired: map<string, seq<string>>, log: seq<Event>)

  datatype Step =
    | HeartbeatStep(report: NodeReport, now: int)
    | TickStep(now: int, dead: seq<Action>, sent: seq<Action>)
    | PlaceStep(req: ScheduleRequest, chosen: Candidate)
    | ChangeStep(op: DesiredOp)

  /** A tick sends what Reconciler.Reconcile is proved to send; a placement is one Schedule may answer. */
  ghost predicate Enabled(s: Cluster, step: Step) {
    match step
    case TickStep(now, dead, sent) =>
      && (forall a: Action :: multiset(dead)[a] == DeadCount(s.view, now, a))
      && (forall a: Action :: multiset(sent)[a] == TickCount(s.desired, Marked(s.view, StaleKeys(s.view, now)), a))
    case PlaceStep(req, c) => Chosen(s.view, req, c)
    case _ => true
  }

  /** The log with these actions added, one after the other. */
  function Logged(log: seq<Event>, actions: seq<Action>, at: int): seq<Event> {
    if actions == [] then log else Logged(log, actions[..|actions| - 1], at) + [Act(actions[|actions| - 1], at)]
  }

  ghost function After(s: Cluster, step: Step): Cluster {
    match step
    case HeartbeatStep(report, now) =>
      s.(view := Upserted(s.view, report, now), log := s.log + [Beat(report.Key(), now)])
    case TickStep(now, dead, sent) =>
      s.(view := Marked(s.view, StaleKeys(s.view, now)), log := Logged(Logged(s.log, dead, now), sent, now))
    case PlaceStep(_, c) =>
      s.(log := s.log + [Placed(c.node.Key())])
    case ChangeStep(op) =>
      s.(desired := OnLists(s.desired, op))
  }

  ghost predicate Execution(s: Cluster, steps: seq<Step>, end: Cluster)
    decreases steps
  {
    if steps == [] then s == end
    else Enabled(s, steps[0]) && Execution(After(s, steps[0]), steps[1..], end)
  }

  // ---------- What the log may look like ----------

  /** Between a MARK_DEAD and any later action for, or placement on, the same node, it was heard from. */
  ghost predicate LeftAlone(log: seq<Event>) {
    forall i, j | 0 <= i < j < |log| && log[i].Kills() && !log[j].Beat? && log[j].Node() == log[i].Node() ::
      exists m :: i < m < j && log[m].Beat? && log[m].key == log[i].Node()
  }

  /** A node is only marked dead when the last heartbeat heard from it is older than the timeout. */
  ghost predicate OnlyForSilence(log: seq<Event>) {
    forall j | 0 <= j < |log| && log[j].Kills() ::
      exists i :: 0 <= i < j && log[i].Beat? && log[i].key == log[j].Node() && log[i].at < log[j].at - STALE_TIMEOUT
                  && NoBeat(log, log[j].Node(), i + 1, j)
  }

  ghost predicate NoBeat(log: seq<Event>, k: string, from: nat, to: nat)
    requires to <= |log|
  {
    forall m | from <= m < to :: !(log[m].Beat? && log[m].key == k)
  }

  /** The node was marked dead and has not been heard from since. */
  predicate Down(log: seq<Event>, k: string) {
    log != [] &&
    var e := log[|log| - 1];
    if e.Node() == k && e.Beat? then false
    else if e.Node() == k && e.Kills() then true
    else Down(log[..|log| - 1], k)
  }

  /** When the node was last heard from. */
  function LastHeard(log: seq<Event>, k: string): Option<int> {
    if log == [] then None
    else
      var e := log[|log| - 1];
      if e.Beat? && e.key == k then Some(e.at) else LastHeard(log[..|log| - 1], k)
  }

  /** The event may come next: a heartbeat any time, everything else only for a node that is up,
      and a MARK_DEAD only for one that has been silent. */
  predicate MayFollow(log: seq<Event>, e: Event) {
    e.Beat? ||
    (!Down(log, e.Node()) &&
     (e.Kills() ==> LastHeard(log, e.Node()).Some? && LastHeard(log, e.Node()).value < e.at - STALE_TIMEOUT))
  }

  predicate Sound(log: seq<Event>) {
    log == [] || (Sound(log[..|log| - 1]) && MayFollow(log[..|log| - 1], log[|log| - 1]))
  }

  lemma {:induction false} HeardSince(log: seq<Event>, k: string, i: nat)
    requires i < |log| && log[i].Kills() && log[i].Node() == k && !Down(log, k)
    ensures exists m :: i < m < |log| && log[m].Beat? && log[m].key == k
  {
    hide RegistryKey;
    var n := |log| - 1;
    if i == n || (log[n].Beat? && log[n].key == k) {
    } else {
      HeardSince(log[..n], k, i);
      var m :| i < m < n && log[..n][m].Beat? && log[..n][m].key == k;
      assert log[m] == log[..n][m];
    }
  }

  lemma {:induction false} SilentSince(log: seq<Event>, k: string)
    requires LastHeard(log, k).Some?
    ensures exists i :: 0 <= i < |log| && log[i] == Beat(k, LastHeard(log, k).value) && NoBeat(log, k, i + 1, |log|)
  {
    hide RegistryKey;
    var n := |log| - 1;
    if log[n].Beat? && log[n].key == k {
      assert log[n] == Beat(k, LastHeard(log, k).value) && NoBeat(log, k, n + 1, |log|);
    } else {
      SilentSince(log[..n], k);
      var i :| 0 <= i < n && log[..n][i] == Beat(k, LastHeard(log, k).value) && NoBeat(log[..n], k, i + 1, n);
      assert forall m | i + 1 <= m < n :: log[m] == log[..n][m];
      assert log[i] == log[..n][i];
      assert NoBeat(log, k, i + 1, |log|);
    }
  }

  /** A log in which every event was allowed to follow reads as promised from end to end. */
  lemma {:induction false} SoundMeansLeftAlone(log: seq<Event>, i: nat, j: nat)
    requires Sound(log) && i < j < |log| && log[i].Kills() && !log[j].Beat? && log[j].Node() == log[i].Node()
    ensures exists m :: i < m < j && log[m].Beat? && log[m].key == log[i].Node()
    decreases log
  {
    hide RegistryKey;
    var n := |log| - 1;
    var init := log[..n];
    assert init[i] == log[i];
    if j == n {
      HeardSince(init, log[i].Node(), i);
      var m :| i < m < n && init[m].Beat? && init[m].key == log[i].Node();
      assert log[m] == init[m];
    } else {
      assert init[j] == log[j];
      SoundMeansLeftAlone(init, i, j);
      var m :| i < m < j && init[m].Beat? && init[m].key == log[i].Node();
      assert log[m] == init[m];
    }
  }

  lemma {:induction false} SoundMeansOnlyForSilence(log: seq<Event>, j: nat)
    requires Sound(log) && j < |log| && log[j].Kills()
    ensures exists i :: 0 <= i < j && log[i].Beat? && log[i].key == log[j].Node() && log[i].at < log[j].at - STALE_TIMEOUT
                        && NoBeat(log, log[j].Node(), i + 1, j)
    decreases log
  {
    hide RegistryKey;
    var n, k := |log| - 1, log[j].Node();
    var init := log[..n];
    if j == n {
      SilentSince(init, k);
      var i :| 0 <= i < n && init[i] == Beat(k, LastHeard(init, k).value) && NoBeat(init, k, i + 1, n);
      assert log[i] == init[i];
      assert forall m | i + 1 <= m < n :: log[m] == init[m];
      assert NoBeat(log, k, i + 1, j);
    } else {
      assert init[j] == log[j];
      SoundMeansOnlyForSilence(init, j);
      var i :| 0 <= i < j && init[i].Beat? && init[i].key == k && init[i].at < log[j].at - STALE_TIMEOUT
               && NoBeat(init, k, i + 1, j);
      assert log[i] == init[i];
      assert forall m | i + 1 <= m < j :: log[m] == init[m];
      assert NoBeat(log, k, i + 1, j);
    }
  }

  // ---------- The invariant ----------

  /** The registry agrees with the log: it knows the nodes heard from, with their last heartbeats, and those not marked
      dead since are the healthy ones. */
  ghost predicate Agrees(v: map<string, Entry>, log: seq<Event>) {
    && (forall k :: k in v <==> LastHeard(log, k).Some?)
    && (forall k | k in v :: LastHeard(log, k) == Some(v[k].lastHeartbeat))
    && (forall k | k in v :: v[k].healthy <==> !Down(log, k))
  }

  ghost predicate Inv(s: Cluster) {
    WellKeyed(s.view) && Sound(s.log) && Agrees(s.view, s.log)
  }

  lemma AddEvent(log: seq<Event>, e: Event)
    requires Sound(log) && MayFollow(log, e)
    ensures Sound(log + [e])
    ensures forall k :: Down(log + [e], k) <==> if e.Beat? && e.key == k then false
                                                else if e.Node() == k && e.Kills() then true else Down(log, k)
    ensures forall k :: LastHeard(log + [e], k) == if e.Beat? && e.key == k then Some(e.at) else LastHeard(log, k)
  {
  }

  lemma OneDeathPerNode(v: map<string, Entry>, now: int, a: Action, b: Action)
    requires DeadCount(v, now, a) >= 1 && DeadCount(v, now, b) >= 1
    ensures a.NodeKey() == b.NodeKey() ==> a == b
  {
  }

  /** The MARK_DEADs of a tick, one node after the other. */
  lemma {:induction false} AddDeaths(v: map<string, Entry>, log: seq<Event>, now: int, dead: seq<Action>)
    requires forall a: Action :: multiset(dead)[a] <= DeadCount(v, now, a)
    requires Sound(log) && Agrees(v, log)
    ensures Sound(Logged(log, dead, now))
    ensures forall k :: Down(Logged(log, dead, now), k) <==> Down(log, k) || exists a :: a in dead && a.NodeKey() == k
    ensures forall k :: LastHeard(Logged(log, dead, now), k) == LastHeard(log, k)
  {
    hide RegistryKey;
    if dead != [] {
      var n := |dead| - 1;
      var init, a := dead[..n], dead[n];
      assert dead == init + [a];
      forall b: Action
        ensures multiset(init)[b] + (if a == b then 1 else 0) <= DeadCount(v, now, b) <= 1
      {
        assert multiset(dead)[b] == multiset(init)[b] + multiset([a])[b];
      }
      hide DeadCount;
      AddDeaths(v, log, now, init);
      forall b | b in init
        ensures b.NodeKey() != a.NodeKey()
      {
        assert multiset(init)[b] >= 1;
        OneDeathPerNode(v, now, a, b);
      }
      assert DeadCount(v, now, a) == 1;
      AddEvent(Logged(log, init, now), Act(a, now));
      assert forall b | b in init :: b in dead;
      assert a in dead;
    }
  }

  /** The PREWARMs and EVICTs of a tick: all for nodes that are up. */
  lemma {:induction false} AddCommands(w: map<string, Entry>, log: seq<Event>, now: int, sent: seq<Action>)
    requires forall a | a in sent :: IsHealthy(w, a.NodeKey()) && a.kind != MARK_DEAD
    requires Sound(log) && Agrees(w, log)
    ensures Sound(Logged(log, sent, now)) && Agrees(w, Logged(log, sent, now))
  {
    hide RegistryKey, Down, LastHeard, Sound;
    if sent != [] {
      var n := |sent| - 1;
      var init, a := sent[..n], sent[n];
      assert a in sent && forall b | b in init :: b in sent;
      AddCommands(w, log, now, init);
      AddEvent(Logged(log, init, now), Act(a, now));
    }
  }

  /** Exactly the stale nodes get a MARK_DEAD. */
  lemma DeadAreStale(v: map<string, Entry>, now: int, dead: seq<Action>)
    requires WellKeyed(v) && forall a: Action :: multiset(dead)[a] == DeadCount(v, now, a)
    ensures forall k :: k in StaleKeys(v, now) <==> exists a :: a in dead && a.NodeKey() == k
  {
    hide RegistryKey, StaleKeys;
    forall a | a in dead
      ensures a.NodeKey() in StaleKeys(v, now)
    {
      assert multiset(dead)[a] > 0;
    }
    forall k | k in StaleKeys(v, now)
      ensures exists a :: a in dead && a.NodeKey() == k
    {
      StaleAreKnown(v, now, k);
      var a := Action(MARK_DEAD, v[k].report.nodeID, v[k].report.gpuID, "", "");
      assert a.NodeKey() == v[k].report.Key() == k && multiset(dead)[a] == 1;
    }
  }

  lemma StaleAreKnown(v: map<string, Entry>, now: int, k: string)
    requires k in StaleKeys(v, now)
    ensures k in v && v[k].healthy
  {
  }

  /** Once the stale nodes are marked and their MARK_DEADs logged, registry and log agree again. */
  lemma DeathsAgree(v: map<string, Entry>, log: seq<Event>, now: int, dead: seq<Action>)
    requires WellKeyed(v) && Sound(log) && Agrees(v, log)
    requires forall a: Action :: multiset(dead)[a] == DeadCount(v, now, a)
    ensures Sound(Logged(log, dead, now)) && Agrees(Marked(v, StaleKeys(v, now)), Logged(log, dead, now))
  {
    AddDeaths(v, log, now, dead);
    DeadAreStale(v, now, dead);
    hide RegistryKey, StaleKeys, DeadCount, Sound, Down, LastHeard, Logged;
  }

  lemma TickInv(s: Cluster, now: int, dead: seq<Action>, sent: seq<Action>)
    requires Inv(s) && Enabled(s, TickStep(now, dead, sent))
    ensures Inv(After(s, TickStep(now, dead, sent)))
  {
    hide RegistryKey, Sound, Agrees, StaleKeys;
    var w := Marked(s.view, StaleKeys(s.view, now));
    DeathsAgree(s.view, s.log, now, dead);
    forall a | a in sent
      ensures IsHealthy(w, a.NodeKey()) && a.kind != MARK_DEAD
    {
      assert multiset(sent)[a] > 0;
      NodeNamesItself(s.desired, w[a.NodeKey()].report, a);
    }
    AddCommands(w, Logged(s.log, dead, now), now, sent);
  }

  lemma HeartbeatInv(s: Cluster, report: NodeReport, now: int)
    requires Inv(s)
    ensures Inv(After(s, HeartbeatStep(report, now)))
  {
  }

  lemma PlaceInv(s: Cluster, req: ScheduleRequest, c: Candidate)
    requires IsHealthy(s.view, c.node.Key())
    ensures Inv(s) ==> Inv(After(s, PlaceStep(req, c)))
  {
    hide RegistryKey, Down, LastHeard, Sound;
    if Inv(s) { AddEvent(s.log, Placed(c.node.Key())); }
  }

  lemma StepInv(s: Cluster, step: Step)
    requires Inv(s) && Enabled(s, step)
    ensures Inv(After(s, step))
  {
    match step
    case HeartbeatStep(report, now) => HeartbeatInv(s, report, now);
    case TickStep(now, dead, sent) => TickInv(s, now, dead, sent);
    case PlaceStep(req, c) => PlaceInv(s, req, c);
    case ChangeStep(_) =>
  }

  lemma {:induction false} ExecutionInv(s: Cluster, steps: seq<Step>, end: Cluster)
    requires Inv(s) && Execution(s, steps, end)
    ensures Inv(end)
    decreases steps
  {
    hide Inv, After, Enabled;
    if steps != [] {
      StepInv(s, steps[0]);
      ExecutionInv(After(s, steps[0]), steps[1..], end);
    }
  }

  /** Over any run from an empty registry: from a MARK_DEAD for a node until a heartbeat from it is applied,
      the node is not marked dead again, is sent no PREWARM or EVICT and is given no placement; and
      it is marked dead only after more than the timeout without a heartbeat. */
  lemma DeadNodesAreLeftAlone(steps: seq<Step>, end: Cluster, d: map<string, seq<string>>)
    requires Execution(Cluster(map[], d, []), steps, end)
    ensures LeftAlone(end.log) && OnlyForSilence(end.log)
  {
    hide RegistryKey;
    ExecutionInv(Cluster(map[], d, []), steps, end);
    hide Execution, Sound;
    forall i, j | 0 <= i < j < |end.log| && end.log[i].Kills() && !end.log[j].Beat? && end.log[j].Node() == end.log[i].Node()
      ensures exists m :: i < m < j && end.log[m].Beat? && end.log[m].key == end.log[i].Node()
    {
      SoundMeansLeftAlone(end.log, i, j);
    }
    forall j | 0 <= j < |end.log| && end.log[j].Kills()
      ensures exists i :: 0 <= i < j && end.log[i].Beat? && end.log[i].key == end.log[j].Node()
                          && end.log[i].at < end.log[j].at - STALE_TIMEOUT && NoBeat(end.log, end.log[j].Node(), i + 1, j)
    {
      SoundMeansOnlyForSilence(end.log, j);
    }
  }

  /** Event i is a heartbeat of the node, and no MARK_DEAD for it comes after. */
  ghost predicate HeardAndSpared(log: seq<Event>, k: string, i: nat) {
    && i < |log| && log[i].Beat? && log[i].key == k
    && forall j | i < j < |log| && log[j].Node() == k :: !log[j].Kills()
  }

  lemma {:induction false} UpIff(log: seq<Event>, k: string)
    ensures LastHeard(log, k).Some? && !Down(log, k) <==> exists i :: HeardAndSpared(log, k, i)
    decreases log
  {
    hide RegistryKey;
    if log != [] {
      var n := |log| - 1;
      var init, e := log[..n], log[n];
      UpIff(init, k);
      if e.Beat? && e.key == k {
        assert HeardAndSpared(log, k, n);
      } else if e.Node() == k && e.Kills() {
        assert forall i :: !HeardAndSpared(log, k, i);
      } else {
        assert forall i | 0 <= i < n :: init[i] == log[i];
        if i :| HeardAndSpared(init, k, i) { assert HeardAndSpared(log, k, i); }
        if i :| HeardAndSpared(log, k, i) { assert HeardAndSpared(init, k, i); }
      }
    }
  }

  /** Over any run from an empty registry: a node is healthy exactly if it has been heard from and not marked dead since. */
  lemma HealthyIffHeard(steps: seq<Step>, end: Cluster, d: map<string, seq<string>>, k: string)
    requires Execution(Cluster(map[], d, []), steps, end)
    ensures k in end.view && end.view[k].healthy <==> exists i :: HeardAndSpared(end.log, k, i)
  {
    hide RegistryKey;
    ExecutionInv(Cluster(map[], d, []), steps, end);
    UpIff(end.log, k);
    hide Execution, Sound, Down, LastHeard;
  }
}
