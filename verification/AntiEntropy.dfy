/** The anti-entropy protocol between the scheduler and one partitioned node: desired lists and the
    last applied heartbeat on one side, the agent's record on the other, and in between heartbeats
    that may be late, reordered or lost and commands that may be reordered, fail or be lost.

    scheduler/reconciler/reconciler.go, scheduler/main.go (dispatchToAgent), agent/src/main.rs. */
module AntiEntropy {
  import opened Wrappers
  import opened Registry
  import opened Reconciler
  import opened Agent

  datatype System = System(
    desired: map<string, seq<string>>,
    agent: seq<MIGSlice>,             // what the agent records, per slice
    view: Option<NodeReport>,         // the last heartbeat the scheduler applied
    heartbeats: seq<NodeReport>,      // sent, not yet applied
    commands: seq<Action>)            // emitted, not yet carried out

  datatype Step =
    | Heartbeat(report: NodeReport)      // the agent reports its slices; VRAM readings are arbitrary
    | Apply(i: nat)                      // some heartbeat under way reaches the registry, late or not
    | LoseHeartbeat(i: nat)
    | Tick(sent: seq<Action>)            // the reconciler diffs its view, however stale
    | SkipTick                           // the node is marked dead: nothing is emitted
    | Deliver(i: nat, loaderOk: bool)    // some command under way reaches the agent
    | LoseCommand(i: nat)
    | Change(op: DesiredOp)              // SetDesired, AddDesired or RemoveDesired

  function Removed<T>(s: seq<T>, i: nat): seq<T>
    requires i < |s|
  {
    s[..i] + s[i + 1..]
  }

  /** The heartbeat of an agent in this state: the same slices and models, whatever the VRAM readings. */
  ghost predicate Reports(agent: seq<MIGSlice>, g: NodeReport) {
    && |g.migSlices| == |agent|
    && forall i | 0 <= i < |agent| ::
         g.migSlices[i] == agent[i].(usedVRAMMiB := g.migSlices[i].usedVRAMMiB)
  }

  ghost predicate Enabled(s: System, step: Step) {
    match step
    case Heartbeat(g) => Reports(s.agent, g)
    case Apply(i) => i < |s.heartbeats|
    case LoseHeartbeat(i) => i < |s.heartbeats|
    case Tick(sent) => s.view.Some? && forall a: Action :: multiset(sent)[a] == NodeCount(s.desired, s.view.value, a)
    case SkipTick => true
    case Deliver(i, _) => i < |s.commands|
    case LoseCommand(i) => i < |s.commands|
    case Change(_) => true
  }

  /** What a delivered command does to the agent's slices. An action without a slice ID goes out
      without one and is recorded on the flat list instead. */
  function Obey(agent: seq<MIGSlice>, a: Action): seq<MIGSlice> {
    if a.sliceID == "" then agent else OnSlice(agent, a.sliceID, a.kind, a.modelName)
  }

  ghost function After(s: System, step: Step): System
    requires Enabled(s, step)
  {
    match step
    case Heartbeat(g) => s.(heartbeats := s.heartbeats + [g])
    case Apply(i) => s.(view := Some(s.heartbeats[i]), heartbeats := Removed(s.heartbeats, i))
    case LoseHeartbeat(i) => s.(heartbeats := Removed(s.heartbeats, i))
    case Tick(sent) => s.(commands := s.commands + sent)
    case SkipTick => s
    case Deliver(i, ok) =>
      s.(commands := Removed(s.commands, i), agent := if ok then Obey(s.agent, s.commands[i]) else s.agent)
    case LoseCommand(i) => s.(commands := Removed(s.commands, i))
    case Change(op) => s.(desired := OnLists(s.desired, op))
  }

  ghost predicate Execution(s: System, steps: seq<Step>, end: System)
    decreases steps
  {
    if steps == [] then s == end
    else Enabled(s, steps[0]) && Execution(After(s, steps[0]), steps[1..], end)
  }

  // ---------- Right and wrong ----------

  function DesiredAt(nodeID: string, gpuID: string, d: map<string, seq<string>>, sid: string): set<string> {
    var key := SliceKey(nodeID, gpuID, sid);
    if key in d then ToSet(d[key]) else {}
  }

  /** Carrying out this command would take its slice away from what is desired there. */
  predicate Harmful(d: map<string, seq<string>>, a: Action) {
    var wanted := DesiredAt(a.nodeID, a.gpuID, d, a.sliceID);
    if a.kind == PREWARM then a.modelName !in wanted else a.modelName in wanted
  }

  /** One slice of the node: where it is, and what is desired there. */
  datatype Spot = Spot(nodeID: string, gpuID: string, sliceID: string)
  {
    predicate Names(a: Action) {
      a.nodeID == nodeID && a.gpuID == gpuID && a.sliceID == sliceID && a.kind != MARK_DEAD
    }

    function Wanted(d: map<string, seq<string>>): set<string> {
      DesiredAt(nodeID, gpuID, d, sliceID)
    }
  }

  /** The step leaves the set desired on the slice as it is. What is desired elsewhere may change, and so may the
      list that stands for the set. */
  ghost predicate Keeps(s: System, step: Step, spot: Spot)
    requires Enabled(s, step)
  {
    spot.Wanted(After(s, step).desired) == spot.Wanted(s.desired)
  }

  /** The set desired on the slice stands throughout the run. */
  ghost predicate Steady(s: System, steps: seq<Step>, spot: Spot)
    decreases steps
  {
    steps != [] && Enabled(s, steps[0]) ==> Keeps(s, steps[0], spot) && Steady(After(s, steps[0]), steps[1..], spot)
  }

  /** The change is for another slice, or asks for what is wished there already: adding a model that is desired,
      removing one that is not, setting the same set. */
  predicate ChangesNothing(op: DesiredOp, spot: Spot, wanted: set<string>) {
    op.key != SliceKey(spot.nodeID, spot.gpuID, spot.sliceID) ||
    match op
    case SetOp(_, models) => ToSet(models) == wanted
    case AddOp(_, m) => m in wanted
    case RemoveOp(_, m) => m !in wanted
  }

  /** A change of the desired state keeps the set of a slice exactly if it is one of those. */
  lemma KeepsIff(s: System, op: DesiredOp, spot: Spot)
    ensures Keeps(s, Change(op), spot) <==> ChangesNothing(op, spot, spot.Wanted(s.desired))
  {
    OneOp(s.desired, op);
    var k := SliceKey(spot.nodeID, spot.gpuID, spot.sliceID);
    var wanted, after := spot.Wanted(s.desired), spot.Wanted(OnLists(s.desired, op));
    hide SliceKey;
    assert k in s.desired ==> Meaning(s.desired)[k] == wanted;
    assert k in OnLists(s.desired, op) ==> Meaning(OnLists(s.desired, op))[k] == after;
    assert wanted == if k in s.desired then Meaning(s.desired)[k] else {};
    if op.key == k {
      match op
      case SetOp(_, models) => assert after == ToSet(models);
      case AddOp(_, m) => assert after == wanted + {m}; assert m in after;
      case RemoveOp(_, m) => assert after == wanted - {m}; assert m !in after;
    }
  }

  /** So whatever is committed for other slices, or again for this one, the run is steady. */
  lemma {:induction false} SteadyIff(s: System, steps: seq<Step>, end: System, spot: Spot)
    requires Execution(s, steps, end)
    ensures Steady(s, steps, spot)
       <==> forall i | 0 <= i < |steps| && steps[i].Change? :: ChangesNothing(steps[i].op, spot, spot.Wanted(s.desired))
    decreases steps
  {
    if steps != [] {
      var later := steps[1..];
      SteadyIff(After(s, steps[0]), later, end, spot);
      if steps[0].Change? { KeepsIff(s, steps[0].op, spot); }
      assert steps[0].Change? || Keeps(s, steps[0], spot);
      hide ChangesNothing, Enabled, After, Keeps, Execution;
      assert forall i | 0 <= i < |later| :: later[i] == steps[i + 1];
    }
  }

  /** The models the agent has on the slice against the scheduler's wish, or lacks there. */
  function Wrong(s: System, spot: Spot): set<string> {
    var wanted, actual := spot.Wanted(s.desired), ModelsAt(s.agent, spot.sliceID);
    (wanted - actual) + (actual - wanted)
  }

  /** How many of these commands for the slice would do harm there. */
  function HarmfulCount(d: map<string, seq<string>>, commands: seq<Action>, spot: Spot): nat {
    if commands == [] then 0
    else (if spot.Names(commands[0]) && Harmful(d, commands[0]) then 1 else 0) + HarmfulCount(d, commands[1..], spot)
  }

  /** All commands under way are for this node. */
  ghost predicate Local(s: System, spot: Spot) {
    && (forall c | c in s.commands :: c.nodeID == spot.nodeID && c.gpuID == spot.gpuID && c.kind != MARK_DEAD)
    && (forall g | g in s.heartbeats :: g.nodeID == spot.nodeID && g.gpuID == spot.gpuID)
    && (s.view.Some? ==> s.view.value.nodeID == spot.nodeID && s.view.value.gpuID == spot.gpuID)
    && spot.sliceID != ""
  }

  ghost predicate LocalSteps(steps: seq<Step>, spot: Spot) {
    forall step | step in steps && step.Heartbeat? :: step.report.nodeID == spot.nodeID && step.report.gpuID == spot.gpuID
  }

  // ---------- However stale its view, the reconciler asks for nothing harmful ----------

  lemma {:induction false} SlicesAskNoHarm(d: map<string, seq<string>>, g: NodeReport, slices: seq<MIGSlice>, a: Action)
    ensures SlicesCount(d, g, slices, a) > 0 ==> !Harmful(d, a)
  {
    if slices != [] { SlicesAskNoHarm(d, g, slices[..|slices| - 1], a); }
  }

  /** Every PREWARM a tick emits names a desired model and every EVICT an undesired one, whatever
      view of the node it is computed from. */
  lemma TickDoesNoHarm(d: map<string, seq<string>>, g: NodeReport, a: Action)
    ensures NodeCount(d, g, a) > 0 ==> !Harmful(d, a)
  {
    SlicesAskNoHarm(d, g, g.migSlices, a);
  }

  lemma {:induction false} NoneHarmful(d: map<string, seq<string>>, commands: seq<Action>, spot: Spot)
    requires forall c | c in commands :: !Harmful(d, c)
    ensures HarmfulCount(d, commands, spot) == 0
  {
    if commands != [] { NoneHarmful(d, commands[1..], spot); }
  }

  lemma {:induction false} HarmfulSum(d: map<string, seq<string>>, a: seq<Action>, b: seq<Action>, spot: Spot)
    ensures HarmfulCount(d, a + b, spot) == HarmfulCount(d, a, spot) + HarmfulCount(d, b, spot)
  {
    if a == [] {
      assert a + b == b;
    } else {
      assert (a + b)[1..] == a[1..] + b;
      HarmfulSum(d, a[1..], b, spot);
    }
  }

  lemma HarmfulTaken(d: map<string, seq<string>>, commands: seq<Action>, i: nat, spot: Spot)
    requires i < |commands|
    ensures HarmfulCount(d, commands, spot) == HarmfulCount(d, Removed(commands, i), spot)
                                             + (if spot.Names(commands[i]) && Harmful(d, commands[i]) then 1 else 0)
  {
    var c := [commands[i]];
    assert commands == commands[..i] + (c + commands[i + 1..]);
    HarmfulSum(d, commands[..i], c + commands[i + 1..], spot);
    HarmfulSum(d, c, commands[i + 1..], spot);
    HarmfulSum(d, commands[..i], commands[i + 1..], spot);
    assert HarmfulCount(d, c[1..], spot) == 0;
  }

  lemma {:induction false} SameHarm(d: map<string, seq<string>>, d': map<string, seq<string>>, commands: seq<Action>, spot: Spot)
    requires spot.Wanted(d) == spot.Wanted(d')
    ensures HarmfulCount(d, commands, spot) == HarmfulCount(d', commands, spot)
  {
    if commands != [] { SameHarm(d, d', commands[1..], spot); }
  }

  // ---------- One step ----------

  /** The model a step puts right or wrong on the slice: that of a delivered command for it. */
  ghost predicate Lands(s: System, step: Step, spot: Spot, m: string) {
    && step.Deliver? && step.i < |s.commands| && step.loaderOk
    && spot.Names(s.commands[step.i]) && s.commands[step.i].modelName == m
    && Find(s.agent, spot.sliceID) < |s.agent|
  }

  /** What a step that leaves the set desired on the slice alone does to the slice: a landing command puts its
      model right, or wrong if it is harmful; every other model stays as it was. */
  lemma StepEffect(s: System, step: Step, spot: Spot, m: string)
    requires Enabled(s, step) && Keeps(s, step, spot) && Local(s, spot)
    ensures var s' := After(s, step);
            if Lands(s, step, spot, m) then m in Wrong(s', spot) <==> Harmful(s.desired, s.commands[step.i])
            else m in Wrong(s', spot) <==> m in Wrong(s, spot)
  {
    if step.Deliver? {
      var c := s.commands[step.i];
      assert c in s.commands;
      if c.sliceID != "" { OnSliceMeans(s.agent, c.sliceID, c.kind, c.modelName, spot.sliceID); }
    }
  }

  lemma StepLocal(s: System, step: Step, spot: Spot)
    requires Enabled(s, step) && Local(s, spot) && LocalSteps([step], spot)
    ensures Local(After(s, step), spot)
  {
    match step
    case Heartbeat(g) => assert step in [step];
    case Apply(i) => assert s.heartbeats[i] in s.heartbeats;
    case Tick(sent) =>
      forall c | c in sent
        ensures c.nodeID == spot.nodeID && c.gpuID == spot.gpuID && c.kind != MARK_DEAD
      {
        assert multiset(sent)[c] > 0;
        NodeNamesItself(s.desired, s.view.value, c);
      }
    case _ =>
  }

  lemma StepHarm(s: System, step: Step, spot: Spot)
    requires Enabled(s, step) && Keeps(s, step, spot)
    ensures var took := (step.Deliver? || step.LoseCommand?)
                        && spot.Names(s.commands[step.i]) && Harmful(s.desired, s.commands[step.i]);
            HarmfulCount(s.desired, s.commands, spot)
              == HarmfulCount(After(s, step).desired, After(s, step).commands, spot) + (if took then 1 else 0)
  {
    match step
    case Deliver(i, _) => HarmfulTaken(s.desired, s.commands, i, spot);
    case LoseCommand(i) => HarmfulTaken(s.desired, s.commands, i, spot);
    case Tick(sent) =>
      forall c | c in sent
        ensures !Harmful(s.desired, c)
      {
        assert multiset(sent)[c] > 0;
        TickDoesNoHarm(s.desired, s.view.value, c);
      }
      NoneHarmful(s.desired, sent, spot);
      HarmfulSum(s.desired, s.commands, sent, spot);
    case Change(op) => SameHarm(s.desired, OnLists(s.desired, op), s.commands, spot);
    case _ =>
  }

  // ---------- Whole runs ----------

  lemma FewerOrSame(a: set<string>, b: set<string>)
    requires a <= b
    ensures |a| <= |b|
  {
    assert b == a + (b - a);
  }

  lemma OneMoreAtMost(a: set<string>, b: set<string>, m: string)
    requires forall x | x in a :: x in b || x == m
    ensures |a| <= |b| + 1
  {
    FewerOrSame(a - {m}, b);
    assert a <= (a - {m}) + {m};
    FewerOrSame(a, (a - {m}) + {m});
  }

  /** What is wrong after a step was wrong before, or a harmful command for it has just landed. */
  lemma StepWrong(s: System, step: Step, spot: Spot)
    requires Enabled(s, step) && Keeps(s, step, spot) && Local(s, spot)
    ensures forall m | m in Wrong(After(s, step), spot) && m !in Wrong(s, spot) ::
              step.Deliver? && spot.Names(s.commands[step.i]) && Harmful(s.desired, s.commands[step.i])
              && m == s.commands[step.i].modelName
  {
    forall m | m in Wrong(After(s, step), spot) && m !in Wrong(s, spot)
      ensures step.Deliver? && spot.Names(s.commands[step.i]) && Harmful(s.desired, s.commands[step.i])
              && m == s.commands[step.i].modelName
    {
      StepEffect(s, step, spot, m);
      hide Wrong, Harmful;
    }
  }

  /** The distance to the goal, counting the harm already on its way, never grows while the set desired
      on the slice stands: neither by what is desired elsewhere nor by stale heartbeats, reordering, failures or losses. */
  lemma StepDistance(s: System, step: Step, spot: Spot)
    requires Enabled(s, step) && Keeps(s, step, spot) && Local(s, spot)
    ensures |Wrong(After(s, step), spot)| + HarmfulCount(After(s, step).desired, After(s, step).commands, spot)
         <= |Wrong(s, spot)| + HarmfulCount(s.desired, s.commands, spot)
  {
    StepHarm(s, step, spot);
    StepWrong(s, step, spot);
    hide Wrong, Harmful, HarmfulCount, After, Local;
    if step.Deliver? && spot.Names(s.commands[step.i]) && Harmful(s.desired, s.commands[step.i]) {
      OneMoreAtMost(Wrong(After(s, step), spot), Wrong(s, spot), s.commands[step.i].modelName);
    } else {
      FewerOrSame(Wrong(After(s, step), spot), Wrong(s, spot));
    }
  }

  lemma {:induction false} DistanceNeverGrows(s: System, steps: seq<Step>, end: System, spot: Spot)
    requires Execution(s, steps, end) && Steady(s, steps, spot) && Local(s, spot) && LocalSteps(steps, spot)
    ensures spot.Wanted(end.desired) == spot.Wanted(s.desired)
    ensures |Wrong(end, spot)| + HarmfulCount(end.desired, end.commands, spot)
         <= |Wrong(s, spot)| + HarmfulCount(s.desired, s.commands, spot)
    decreases steps
  {
    if steps != [] {
      assert steps[0] in steps;
      StepDistance(s, steps[0], spot);
      StepLocal(s, steps[0], spot);
      DistanceNeverGrows(After(s, steps[0]), steps[1..], end, spot);
    }
  }

  /** The model for which the step carries out a command for the slice, if it does. */
  ghost function LandedBy(s: System, step: Step, spot: Spot): set<string>
    requires Enabled(s, step)
  {
    if step.Deliver? && Lands(s, step, spot, s.commands[step.i].modelName) then {s.commands[step.i].modelName} else {}
  }

  /** The models for which a command for the slice is carried out during the run. */
  ghost function Landed(s: System, steps: seq<Step>, spot: Spot): set<string>
    decreases steps
  {
    if steps == [] || !Enabled(s, steps[0]) then {}
    else LandedBy(s, steps[0], spot) + Landed(After(s, steps[0]), steps[1..], spot)
  }

  lemma HarmlessCommand(d: map<string, seq<string>>, commands: seq<Action>, i: nat, spot: Spot)
    requires i < |commands| && spot.Names(commands[i]) && HarmfulCount(d, commands, spot) == 0
    ensures !Harmful(d, commands[i])
  {
    HarmfulTaken(d, commands, i, spot);
  }

  lemma StepExact(s: System, step: Step, spot: Spot)
    requires Enabled(s, step) && Keeps(s, step, spot) && Local(s, spot) && HarmfulCount(s.desired, s.commands, spot) == 0
    ensures forall m :: m in Wrong(After(s, step), spot) <==> m in Wrong(s, spot) && m !in LandedBy(s, step, spot)
    ensures HarmfulCount(After(s, step).desired, After(s, step).commands, spot) == 0
  {
    StepHarm(s, step, spot);
    if step.Deliver? && spot.Names(s.commands[step.i]) { HarmlessCommand(s.desired, s.commands, step.i, spot); }
    forall m
      ensures m in Wrong(After(s, step), spot) <==> m in Wrong(s, spot) && m !in LandedBy(s, step, spot)
    {
      StepEffect(s, step, spot, m);
      hide Wrong, Harmful, HarmfulCount, Local;
    }
  }

  /** Once the older commands for the slice are gone, what is wrong at the end of any run is exactly what
      was wrong at its start and has not been put right by a command carried out: order, staleness
      and loss do not matter, and a slice that is right stays right. */
  lemma {:induction false} ExactlyTheUndeliveredIsWrong(s: System, steps: seq<Step>, end: System, spot: Spot)
    requires Execution(s, steps, end) && Steady(s, steps, spot) && Local(s, spot) && LocalSteps(steps, spot)
    requires HarmfulCount(s.desired, s.commands, spot) == 0
    ensures Wrong(end, spot) == Wrong(s, spot) - Landed(s, steps, spot)
    ensures HarmfulCount(end.desired, end.commands, spot) == 0
    decreases steps
  {
    hide Wrong, HarmfulCount, Local, Enabled, After, LandedBy;
    if steps != [] {
      assert steps[0] in steps;
      StepExact(s, steps[0], spot);
      StepLocal(s, steps[0], spot);
      ExactlyTheUndeliveredIsWrong(After(s, steps[0]), steps[1..], end, spot);
    }
  }

  // ---------- Convergence ----------

  /** The scheduler's view of the slice is up to date, and shows it healthy. */
  ghost predicate Fresh(s: System, spot: Spot) {
    && s.view.Some? && !s.view.value.Whole()
    && var slices := s.view.value.migSlices;
       var i := Find(slices, spot.sliceID);
       && i < |slices| && slices[i].healthy
       && Find(s.agent, spot.sliceID) < |s.agent|
       && ModelsAt(slices, spot.sliceID) == ModelsAt(s.agent, spot.sliceID)
  }

  /** A step that carries out no command for the slice leaves what the agent records for it as it was. */
  lemma StepLeavesSlice(s: System, step: Step, spot: Spot)
    requires Enabled(s, step) && Local(s, spot) && LandedBy(s, step, spot) == {}
    ensures ModelsAt(After(s, step).agent, spot.sliceID) == ModelsAt(s.agent, spot.sliceID)
    ensures Find(After(s, step).agent, spot.sliceID) < |After(s, step).agent| <==> Find(s.agent, spot.sliceID) < |s.agent|
  {
    if step.Deliver? {
      var c := s.commands[step.i];
      assert c in s.commands;
      if c.sliceID != "" {
        OnSliceMeans(s.agent, c.sliceID, c.kind, c.modelName, spot.sliceID);
        SameIDsSameFind(s.agent, OnSlice(s.agent, c.sliceID, c.kind, c.modelName), spot.sliceID);
      }
    }
  }

  lemma {:induction false} RunLeavesSlice(s: System, steps: seq<Step>, end: System, spot: Spot)
    requires Execution(s, steps, end) && Local(s, spot) && LocalSteps(steps, spot) && Landed(s, steps, spot) == {}
    ensures ModelsAt(end.agent, spot.sliceID) == ModelsAt(s.agent, spot.sliceID)
    ensures Find(end.agent, spot.sliceID) < |end.agent| <==> Find(s.agent, spot.sliceID) < |s.agent|
    decreases steps
  {
    hide Local, Enabled, After, LandedBy, ModelsAt;
    if steps != [] {
      assert steps[0] in steps;
      StepLeavesSlice(s, steps[0], spot);
      StepLocal(s, steps[0], spot);
      RunLeavesSlice(After(s, steps[0]), steps[1..], end, spot);
    }
  }

  /** A heartbeat makes the view of the node's healthy slices fresh when it is applied, however much later: whatever
      else is sent, applied, lost, emitted or desired meanwhile, as long as no command for the slice is carried out. */
  lemma HeartbeatRefreshes(s: System, g: NodeReport, steps: seq<Step>, end: System, spot: Spot)
    requires Enabled(s, Heartbeat(g)) && g.migEnabled && Local(s, spot) && LocalSteps([Heartbeat(g)] + steps, spot)
    requires var i := Find(s.agent, spot.sliceID); i < |s.agent| && s.agent[i].healthy
    requires Execution(After(s, Heartbeat(g)), steps, end) && Landed(After(s, Heartbeat(g)), steps, spot) == {}
    requires end.view == Some(g)
    ensures Fresh(end, spot)
  {
    var s' := After(s, Heartbeat(g));
    LocalSplit(Heartbeat(g), steps, spot);
    StepLocal(s, Heartbeat(g), spot);
    SameIDsSameFind(s.agent, g.migSlices, spot.sliceID);
    assert Fresh(s'.(view := Some(g)), spot);
    hide Execution, Landed, Local;
    RunLeavesSlice(s', steps, end, spot);
  }

  lemma LocalSplit(step: Step, steps: seq<Step>, spot: Spot)
    requires LocalSteps([step] + steps, spot)
    ensures LocalSteps([step], spot) && LocalSteps(steps, spot)
  {
  }

  lemma {:induction false} SliceIsCounted(d: map<string, seq<string>>, g: NodeReport, slices: seq<MIGSlice>, i: nat, a: Action)
    requires i < |slices|
    ensures SlicesCount(d, g, slices, a) >= SliceCount(d, g, slices[i], a)
  {
    if i < |slices| - 1 { SliceIsCounted(d, g, slices[..|slices| - 1], i, a); }
  }

  /** The command that puts model m right on the slice. */
  function Remedy(d: map<string, seq<string>>, spot: Spot, m: string): Action {
    Action(if m in spot.Wanted(d) then PREWARM else EVICT, spot.nodeID, spot.gpuID, spot.sliceID, m)
  }

  /** A tick on a fresh view asks for the remedy of everything that is wrong. */
  lemma FreshTickAsksForAll(s: System, spot: Spot, m: string)
    requires Fresh(s, spot) && Local(s, spot) && SliceKey(spot.nodeID, spot.gpuID, spot.sliceID) in s.desired
    requires m in Wrong(s, spot)
    ensures NodeCount(s.desired, s.view.value, Remedy(s.desired, spot, m)) >= 1
  {
    var g := s.view.value;
    SliceIsCounted(s.desired, g, g.migSlices, Find(g.migSlices, spot.sliceID), Remedy(s.desired, spot, m));
  }

  /** One fresh heartbeat, one tick, and every command of that tick for the slice carried out, in any
      order and with anything else in between: the slice is as desired. */
  lemma OneFreshRoundConverges(s: System, sent: seq<Action>, steps: seq<Step>, end: System, spot: Spot)
    requires Local(s, spot) && Fresh(s, spot) && SliceKey(spot.nodeID, spot.gpuID, spot.sliceID) in s.desired
    requires HarmfulCount(s.desired, s.commands, spot) == 0
    requires Enabled(s, Tick(sent)) && Execution(After(s, Tick(sent)), steps, end)
    requires Steady(After(s, Tick(sent)), steps, spot) && LocalSteps(steps, spot)
    requires forall a | a in sent && spot.Names(a) :: a.modelName in Landed(After(s, Tick(sent)), steps, spot)
    ensures ModelsAt(end.agent, spot.sliceID) == spot.Wanted(end.desired)
  {
    var s1 := After(s, Tick(sent));
    StepLocal(s, Tick(sent), spot);
    StepExact(s, Tick(sent), spot);
    ExactlyTheUndeliveredIsWrong(s1, steps, end, spot);
    forall m | m in Wrong(s, spot)
      ensures m in Landed(s1, steps, spot)
    {
      FreshTickAsksForAll(s, spot, m);
      assert multiset(sent)[Remedy(s.desired, spot, m)] >= 1;
      hide Wrong, Landed;
      assert Remedy(s.desired, spot, m) in sent;
    }
    hide Landed, HarmfulCount, Local, Execution;
    assert Wrong(end, spot) == {};
    NothingWrong(end, spot);
  }

  lemma NothingWrong(s: System, spot: Spot)
    requires Wrong(s, spot) == {}
    ensures ModelsAt(s.agent, spot.sliceID) == spot.Wanted(s.desired)
  {
  }

  /** No slice with this ID makes the tick speak. */
  lemma {:induction false} QuietWhenRight(s: System, spot: Spot, slices: seq<MIGSlice>, a: Action)
    requires Local(s, spot) && Wrong(s, spot) == {} && spot.Names(a)
    requires forall slice | slice in slices && slice.sliceID == spot.sliceID ::
               ToSet(slice.loadedModels) == ModelsAt(s.agent, spot.sliceID)
    requires s.view.Some?
    ensures SlicesCount(s.desired, s.view.value, slices, a) == 0
  {
    if slices != [] {
      QuietWhenRight(s, spot, slices[..|slices| - 1], a);
      assert slices[|slices| - 1] in slices;
      NothingWrong(s, spot);
    }
  }

  /** And once the slice is right, a tick whose view shows it right has nothing more to say about it. */
  lemma SilentOnceRight(s: System, spot: Spot, a: Action)
    requires Local(s, spot) && s.view.Some? && !s.view.value.Whole()
    requires ModelsAt(s.agent, spot.sliceID) == spot.Wanted(s.desired) && spot.Names(a)
    requires forall slice | slice in s.view.value.migSlices && slice.sliceID == spot.sliceID ::
               ToSet(slice.loadedModels) == ModelsAt(s.agent, spot.sliceID)
    ensures NodeCount(s.desired, s.view.value, a) == 0
  {
    QuietWhenRight(s, spot, s.view.value.migSlices, a);
  }

  // ---------- The whole round trip ----------

  lemma {:induction false} StillLocal(s: System, steps: seq<Step>, end: System, spot: Spot)
    requires Execution(s, steps, end) && Local(s, spot) && LocalSteps(steps, spot)
    ensures Local(end, spot)
    decreases steps
  {
    hide Local, Enabled, After;
    if steps != [] {
      assert steps[0] in steps;
      StepLocal(s, steps[0], spot);
      StillLocal(After(s, steps[0]), steps[1..], end, spot);
    }
  }

  /** From any state in which the older harmful commands are gone: a heartbeat is sent and, at some point, applied; a tick
      follows on what it showed, however stale that is by then; its commands for the slice are carried out; the next
      heartbeat is sent and, at some point, applied. Then the slice is as desired and a tick has nothing to say about it.
      Anything may happen in between, but for a change of the set desired on this slice. */
  lemma {:induction false} ConvergesAndFallsSilent(s: System, g: NodeReport, first: seq<Step>, s1: System, sent: seq<Action>,
                                deliveries: seq<Step>, s2: System, g2: NodeReport, last: seq<Step>, s3: System, spot: Spot)
    requires Local(s, spot) && HarmfulCount(s.desired, s.commands, spot) == 0
    requires SliceKey(spot.nodeID, spot.gpuID, spot.sliceID) in s.desired
    requires var i := Find(s.agent, spot.sliceID); i < |s.agent| && s.agent[i].healthy
    requires LocalSteps([Heartbeat(g)] + first, spot) && LocalSteps(deliveries, spot) && LocalSteps([Heartbeat(g2)] + last, spot)
    // a heartbeat, applied by the time of the tick
    requires Enabled(s, Heartbeat(g)) && g.migEnabled && Execution(After(s, Heartbeat(g)), first, s1) && s1.view == Some(g)
    requires Steady(After(s, Heartbeat(g)), first, spot)
    // the tick, and all its commands for the slice carried out
    requires Enabled(s1, Tick(sent)) && Execution(After(s1, Tick(sent)), deliveries, s2)
    requires Steady(After(s1, Tick(sent)), deliveries, spot)
    requires forall a | a in sent && spot.Names(a) :: a.modelName in Landed(After(s1, Tick(sent)), deliveries, spot)
    // the next heartbeat, applied
    requires Enabled(s2, Heartbeat(g2)) && Execution(After(s2, Heartbeat(g2)), last, s3) && s3.view == Some(g2)
    requires Steady(After(s2, Heartbeat(g2)), last, spot)
    requires forall i, j | 0 <= i < j < |g2.migSlices| :: g2.migSlices[i].sliceID != g2.migSlices[j].sliceID
    ensures ModelsAt(s2.agent, spot.sliceID) == spot.Wanted(s2.desired)
    ensures ModelsAt(s3.agent, spot.sliceID) == spot.Wanted(s3.desired) == spot.Wanted(s.desired)
    ensures forall a: Action | spot.Names(a) :: NodeCount(s3.desired, g2, a) == 0
  {
    hide *;
    StaleAsksForAll(s, g, first, s1, spot);
    HeardRoundConverges(s1, g, sent, deliveries, s2, spot);
    TickSteady(s1, sent, deliveries, s2, spot);
    SilentWhenNextHeard(s2, g2, last, s3, spot);
  }

  /** What was wrong when the heartbeat was sent, a tick asks to be put right, however much later it sees it; and what is
      wrong by then was wrong already. */
  lemma StaleAsksForAll(s: System, g: NodeReport, steps: seq<Step>, end: System, spot: Spot)
    requires Local(s, spot) && HarmfulCount(s.desired, s.commands, spot) == 0
    requires SliceKey(spot.nodeID, spot.gpuID, spot.sliceID) in s.desired
    requires var i := Find(s.agent, spot.sliceID); i < |s.agent| && s.agent[i].healthy
    requires LocalSteps([Heartbeat(g)] + steps, spot)
    requires Enabled(s, Heartbeat(g)) && g.migEnabled && Execution(After(s, Heartbeat(g)), steps, end)
    requires Steady(After(s, Heartbeat(g)), steps, spot)
    ensures spot.Wanted(end.desired) == spot.Wanted(s.desired) && Local(end, spot)
    ensures HarmfulCount(end.desired, end.commands, spot) == 0 && Wrong(end, spot) <= Wrong(s, spot)
    ensures forall m | m in Wrong(end, spot) :: NodeCount(end.desired, g, Remedy(end.desired, spot, m)) >= 1
  {
    hide HarmfulCount, Execution, Steady;
    RunKeepsKey(After(s, Heartbeat(g)), steps, end, SliceKey(spot.nodeID, spot.gpuID, spot.sliceID));
    LocalSplit(Heartbeat(g), steps, spot);
    AllSteady(s, Heartbeat(g), steps, end, spot);
    SameIDsSameFind(s.agent, g.migSlices, spot.sliceID);
    NamesNode(Heartbeat(g), spot);
    hide LocalSteps, NodeCount;
    var shown := s.(view := Some(g), desired := end.desired);
    assert Fresh(shown, spot) && Local(shown, spot) && Wrong(shown, spot) == Wrong(s, spot);
    forall m | m in Wrong(end, spot)
      ensures NodeCount(end.desired, g, Remedy(end.desired, spot, m)) >= 1
    {
      FreshTickAsksForAll(shown, spot, m);
    }
  }

  /** A slice that has an entry keeps one. */
  lemma {:induction false} RunKeepsKey(s: System, steps: seq<Step>, end: System, key: string)
    requires Execution(s, steps, end) && key in s.desired
    ensures key in end.desired
    decreases steps
  {
    if steps != [] { RunKeepsKey(After(s, steps[0]), steps[1..], end, key); }
  }

  lemma NamesNode(step: Step, spot: Spot)
    requires LocalSteps([step], spot) && step.Heartbeat?
    ensures step.report.nodeID == spot.nodeID && step.report.gpuID == spot.gpuID
  {
    assert step in [step];
  }

  /** A tick that asks for everything that may be wrong, and whose commands for the slice are carried out, puts it right. */
  lemma HeardRoundConverges(s: System, g: NodeReport, sent: seq<Action>, steps: seq<Step>, end: System, spot: Spot)
    requires Local(s, spot) && HarmfulCount(s.desired, s.commands, spot) == 0 && s.view == Some(g)
    requires forall m | m in Wrong(s, spot) :: NodeCount(s.desired, g, Remedy(s.desired, spot, m)) >= 1
    requires Enabled(s, Tick(sent)) && Execution(After(s, Tick(sent)), steps, end)
    requires Steady(After(s, Tick(sent)), steps, spot) && LocalSteps(steps, spot)
    requires forall a | a in sent && spot.Names(a) :: a.modelName in Landed(After(s, Tick(sent)), steps, spot)
    ensures ModelsAt(end.agent, spot.sliceID) == spot.Wanted(end.desired)
  {
    var ticked := After(s, Tick(sent));
    hide Wrong, Landed, HarmfulCount, Local, Execution, NodeCount, LocalSteps, Steady;
    TickIsLocal(s, sent, spot);
    StepExact(s, Tick(sent), spot);
    ExactlyTheUndeliveredIsWrong(ticked, steps, end, spot);
    forall m | m in Wrong(s, spot)
      ensures m in Landed(ticked, steps, spot)
    {
      var remedy := Remedy(s.desired, spot, m);
      assert multiset(sent)[remedy] >= 1;
      assert remedy in sent && spot.Names(remedy);
    }
    assert Wrong(end, spot) == {};
    NothingWrong(end, spot);
  }

  lemma TickIsLocal(s: System, sent: seq<Action>, spot: Spot)
    requires Enabled(s, Tick(sent)) && Local(s, spot)
    ensures Local(After(s, Tick(sent)), spot)
  {
    StepLocal(s, Tick(sent), spot);
  }

  /** Once the slice is right and nothing harmful is under way, the next heartbeat applied silences the tick. */
  lemma SilentWhenNextHeard(s: System, g: NodeReport, steps: seq<Step>, end: System, spot: Spot)
    requires Local(s, spot) && HarmfulCount(s.desired, s.commands, spot) == 0
    requires ModelsAt(s.agent, spot.sliceID) == spot.Wanted(s.desired)
    requires Enabled(s, Heartbeat(g)) && Execution(After(s, Heartbeat(g)), steps, end) && end.view == Some(g)
    requires Steady(After(s, Heartbeat(g)), steps, spot) && LocalSteps([Heartbeat(g)] + steps, spot)
    requires forall i, j | 0 <= i < j < |g.migSlices| :: g.migSlices[i].sliceID != g.migSlices[j].sliceID
    ensures ModelsAt(end.agent, spot.sliceID) == spot.Wanted(end.desired) == spot.Wanted(s.desired)
    ensures forall a: Action | spot.Names(a) :: NodeCount(end.desired, g, a) == 0
  {
    assert spot.sliceID != "";
    LocalSplit(Heartbeat(g), steps, spot);
    RightMeansNothingWrong(s, spot);
    hide Execution, HarmfulCount, Wrong, Local, Steady, LocalSteps, ModelsAt, NodeReport.Whole, NodeCount, Enabled, After;
    AllSteady(s, Heartbeat(g), steps, end, spot);
    assert Wrong(end, spot) == {};
    NothingWrong(end, spot);
    ReportShows(s, g, spot);
    forall a: Action | spot.Names(a)
      ensures NodeCount(end.desired, g, a) == 0
    {
      if g.Whole() { WholeIsSilent(end.desired, g, spot, a); } else { SilentOnceRight(end, spot, a); }
    }
  }

  lemma TickSteady(s: System, sent: seq<Action>, steps: seq<Step>, end: System, spot: Spot)
    requires Enabled(s, Tick(sent)) && Execution(After(s, Tick(sent)), steps, end)
    requires Steady(After(s, Tick(sent)), steps, spot)
    requires Local(s, spot) && LocalSteps(steps, spot) && HarmfulCount(s.desired, s.commands, spot) == 0
    ensures spot.Wanted(end.desired) == spot.Wanted(s.desired) && Local(end, spot)
    ensures HarmfulCount(end.desired, end.commands, spot) == 0
  {
    assert Keeps(s, Tick(sent), spot);
    hide Execution, HarmfulCount, Wrong, Local, Steady, Enabled, After, Keeps;
    AllSteady(s, Tick(sent), steps, end, spot);
  }

  lemma WholeIsSilent(d: map<string, seq<string>>, g: NodeReport, spot: Spot, a: Action)
    requires g.Whole() && spot.Names(a) && spot.sliceID != ""
    ensures NodeCount(d, g, a) == 0
  {
  }

  /** What a run after a first step leaves alone, and that it brings no new errors. */
  lemma AllSteady(s: System, step: Step, steps: seq<Step>, end: System, spot: Spot)
    requires Enabled(s, step) && Keeps(s, step, spot) && Execution(After(s, step), steps, end)
    requires Steady(After(s, step), steps, spot)
    requires Local(s, spot) && LocalSteps([step], spot) && LocalSteps(steps, spot)
    requires HarmfulCount(s.desired, s.commands, spot) == 0
    ensures spot.Wanted(end.desired) == spot.Wanted(s.desired) && Local(end, spot)
    ensures HarmfulCount(end.desired, end.commands, spot) == 0 && Wrong(end, spot) <= Wrong(s, spot)
  {
    hide Execution, Steady, Local, LocalSteps, HarmfulCount, Wrong, Landed, Enabled, After;
    StepExact(s, step, spot);
    StepLocal(s, step, spot);
    StillLocal(After(s, step), steps, end, spot);
    DistanceNeverGrows(After(s, step), steps, end, spot);
    ExactlyTheUndeliveredIsWrong(After(s, step), steps, end, spot);
  }

  lemma RightMeansNothingWrong(s: System, spot: Spot)
    requires ModelsAt(s.agent, spot.sliceID) == spot.Wanted(s.desired)
    ensures Wrong(s, spot) == {}
  {
  }

  /** The only slice with this ID in a heartbeat shows what the agent records. */
  lemma ReportShows(s: System, g: NodeReport, spot: Spot)
    requires Enabled(s, Heartbeat(g))
    requires forall i, j | 0 <= i < j < |g.migSlices| :: g.migSlices[i].sliceID != g.migSlices[j].sliceID
    ensures forall slice | slice in g.migSlices && slice.sliceID == spot.sliceID ::
              ToSet(slice.loadedModels) == ModelsAt(s.agent, spot.sliceID)
  {
  }
}
