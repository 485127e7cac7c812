/** Desired state and the anti-entropy tick of scheduler/reconciler/reconciler.go.

    What a tick emits is specified action by action: how many times action `a` is sent, as a
    function of the registry and the desired lists. Map iteration order is left open. */
module Reconciler {
  import opened Wrappers
  import opened Registry

  datatype ActionType = EVICT | PREWARM | MARK_DEAD

  datatype Action = Action(kind: ActionType, nodeID: string, gpuID: string, sliceID: string, modelName: string)
  {
    function NodeKey(): string {
      RegistryKey(nodeID, gpuID)
    }
  }

  const STALE_TIMEOUT := 2_000_000_000   // 2 s

  function SliceName(sliceID: string): string {
    if sliceID == "" then "full" else sliceID
  }

  function SliceKey(nodeID: string, gpuID: string, sliceID: string): string {
    nodeID + "/" + gpuID + "/" + SliceName(sliceID)
  }

  function ToSet(ss: seq<string>): set<string> {
    set s | s in ss
  }

  // ---------- Desired state ----------

  predicate DuplicateFree(ss: seq<string>) {
    forall i, j | 0 <= i < j < |ss| :: ss[i] != ss[j]
  }

  /** ss without any m, in order. */
  function Without(ss: seq<string>, m: string): seq<string> {
    if ss == [] then []
    else Without(ss[..|ss| - 1], m) + (if ss[|ss| - 1] == m then [] else [ss[|ss| - 1]])
  }

  datatype DesiredOp =
    | SetOp(key: string, models: seq<string>)
    | AddOp(key: string, modelName: string)
    | RemoveOp(key: string, modelName: string)

  /** What each operation does to the lists the source keeps ... */
  function OnLists(d: map<string, seq<string>>, op: DesiredOp): map<string, seq<string>> {
    match op
    case SetOp(k, models) => d[k := models]
    case AddOp(k, m) =>
      var list := if k in d then d[k] else [];
      if m in list then d else d[k := list + [m]]
    case RemoveOp(k, m) => if k in d then d[k := Without(d[k], m)] else d
  }

  /** ... and what it means: a map from slice to set of models. */
  function OnSets(d: map<string, set<string>>, op: DesiredOp): map<string, set<string>> {
    match op
    case SetOp(k, models) => d[k := ToSet(models)]
    case AddOp(k, m) => d[k := (if k in d then d[k] else {}) + {m}]
    case RemoveOp(k, m) => if k in d then d[k := d[k] - {m}] else d
  }

  function Meaning(d: map<string, seq<string>>): map<string, set<string>> {
    map k | k in d :: ToSet(d[k])
  }

  lemma {:induction false} WithoutMeans(ss: seq<string>, m: string)
    ensures forall s :: s in Without(ss, m) <==> s in ss && s != m
    ensures DuplicateFree(ss) ==> DuplicateFree(Without(ss, m))
    ensures m !in ss ==> Without(ss, m) == ss
  {
    if ss != [] {
      var r := Without(ss[..|ss| - 1], m);
      WithoutMeans(ss[..|ss| - 1], m);
      assert ss == ss[..|ss| - 1] + [ss[|ss| - 1]];
      if DuplicateFree(ss) && ss[|ss| - 1] in r {
        assert false;
      }
      assert forall i | 0 <= i < |r| :: r[i] in r;
    }
  }

  lemma OneOp(d: map<string, seq<string>>, op: DesiredOp)
    ensures Meaning(OnLists(d, op)) == OnSets(Meaning(d), op)
    ensures (forall k | k in d :: DuplicateFree(d[k])) && (op.SetOp? ==> DuplicateFree(op.models))
            ==> forall k | k in OnLists(d, op) :: DuplicateFree(OnLists(d, op)[k])
    ensures forall k | k != op.key :: (k in OnLists(d, op) <==> k in d) && (k in d ==> OnLists(d, op)[k] == d[k])
  {
    var d', m' := OnLists(d, op), OnSets(Meaning(d), op);
    if op.RemoveOp? && op.key in d { WithoutMeans(d[op.key], op.modelName); }
    forall k
      ensures k in d' <==> k in m'
      ensures k in d' ==> ToSet(d'[k]) == m'[k]
    {
      if op.AddOp? && op.key in d && op.modelName in d[op.key] {
        assert Meaning(d)[op.key] == Meaning(d)[op.key] + {op.modelName};
      }
    }
    assert Meaning(d').Keys == m'.Keys;
  }

  /** Each operation, model by model. */
  lemma OpMeans(d: map<string, seq<string>>, op: DesiredOp, k: string, m: string)
    ensures var d' := OnLists(d, op);
            if k != op.key then (k in d' <==> k in d) && (k in d ==> d'[k] == d[k])
            else match op
              case SetOp(_, models) => k in d' && d'[k] == models
              case AddOp(_, added) =>
                k in d' && (m in d'[k] <==> m == added || (k in d && m in d[k])) && (k in d ==> d[k] <= d'[k])
              case RemoveOp(_, removed) =>
                (k in d' <==> k in d) && (k in d ==> (m in d'[k] <==> m != removed && m in d[k]))
  {
    if op.RemoveOp? && op.key in d { WithoutMeans(d[op.key], op.modelName); }
  }

  function RunLists(d: map<string, seq<string>>, ops: seq<DesiredOp>): map<string, seq<string>>
    decreases ops
  {
    if ops == [] then d else RunLists(OnLists(d, ops[0]), ops[1..])
  }

  function RunSets(d: map<string, set<string>>, ops: seq<DesiredOp>): map<string, set<string>>
    decreases ops
  {
    if ops == [] then d else RunSets(OnSets(d, ops[0]), ops[1..])
  }

  /** Over any sequence of Set, Add and Remove the lists stand for a map of sets, never hold a model
      twice (unless SetDesired was handed one twice), and only the slices named change. */
  lemma {:induction false} DesiredRefinesSets(d: map<string, seq<string>>, ops: seq<DesiredOp>)
    ensures Meaning(RunLists(d, ops)) == RunSets(Meaning(d), ops)
    ensures (forall k | k in d :: DuplicateFree(d[k])) && (forall op | op in ops :: op.SetOp? ==> DuplicateFree(op.models))
            ==> forall k | k in RunLists(d, ops) :: DuplicateFree(RunLists(d, ops)[k])
    ensures forall k | k in d && (forall op | op in ops :: op.key != k) ::
              k in RunLists(d, ops) && RunLists(d, ops)[k] == d[k]
    decreases ops
  {
    if ops != [] {
      OneOp(d, ops[0]);
      assert ops[0] in ops;
      DesiredRefinesSets(OnLists(d, ops[0]), ops[1..]);
    }
  }

  // ---------- Keys ----------

  /** A slash-free prefix is recovered from what it was joined into. */
  lemma FirstSlash(a: string, b: string, a': string, b': string)
    requires a + "/" + b == a' + "/" + b' && '/' !in a && '/' !in a'
    ensures a == a' && b == b'
  {
    var s := a + "/" + b;
    assert forall i | 0 <= i < |a| :: s[i] == a[i];
    assert forall i | 0 <= i < |a'| :: s[i] == a'[i];
    assert s[|a|] == '/' == s[|a'|];
    assert |a| == |a'|;
    assert a == s[..|a|] == a';
    assert b == s[|a| + 1..] == b';
  }

  /** Slice keys identify slices, up to "" meaning "full", as long as node and GPU IDs hold no '/'
      (slice IDs may, and do). */
  lemma SliceKeysAreInjective(n: string, g: string, s: string, n': string, g': string, s': string)
    requires '/' !in n && '/' !in n' && '/' !in g && '/' !in g'
    ensures SliceKey(n, g, s) == SliceKey(n', g', s') <==> n == n' && g == g' && SliceName(s) == SliceName(s')
  {
    if SliceKey(n, g, s) == SliceKey(n', g', s') {
      assert SliceKey(n, g, s) == n + "/" + (g + "/" + SliceName(s));
      assert SliceKey(n', g', s') == n' + "/" + (g' + "/" + SliceName(s'));
      FirstSlash(n, g + "/" + SliceName(s), n', g' + "/" + SliceName(s'));
      FirstSlash(g, SliceName(s), g', SliceName(s'));
    }
  }

  /** Some other slice has the same key. */
  ghost predicate SharesKey(n: string, g: string, s: string) {
    exists n', g', s' :: (n' != n || g' != g || SliceName(s') != SliceName(s)) && SliceKey(n', g', s') == SliceKey(n, g, s)
  }

  /** A slice shares its key with another one exactly when there is a '/' in its node ID, in its GPU ID, or
      in its slice ID before the last character. */
  lemma KeysAreSharedIffSlash(n: string, g: string, s: string)
    ensures SharesKey(n, g, s) <==> '/' in n || '/' in g || '/' in SliceName(s)[..|SliceName(s)| - 1]
  {
    var name := SliceName(s);
    if '/' in n {
      var i := CutAtSlash(n);
      assert SliceKey(n[..i], n[i + 1..] + "/" + g, s) == SliceKey(n, g, s) && n[..i] != n;
    } else if '/' in g {
      var i := CutAtSlash(g);
      assert SliceKey(n + "/" + g[..i], g[i + 1..], s) == SliceKey(n, g, s) && g[i + 1..] != g;
    } else if '/' in name[..|name| - 1] {
      var i :| 0 <= i < |name| - 1 && name[i] == '/';
      assert name == name[..i] + "/" + name[i + 1..];
      assert SliceName(name[i + 1..]) == name[i + 1..] != name;
      assert SliceKey(n, g + "/" + name[..i], name[i + 1..]) == SliceKey(n, g, s);
    } else {
      forall n', g', s' | SliceKey(n', g', s') == SliceKey(n, g, s)
        ensures n' == n && g' == g && SliceName(s') == name
      {
        TwoSlashes(n, g, name, n', g', SliceName(s'));
      }
    }
  }

  /** Registry keys tell the GPUs of one node apart, whatever the IDs ... */
  lemma GPUsOfANodeDiffer(n: string, g: string, g': string)
    ensures RegistryKey(n, g) == RegistryKey(n, g') <==> g == g'
  {
    assert RegistryKey(n, g)[|n| + 1..] == g && RegistryKey(n, g')[|n| + 1..] == g';
  }

  /** ... and a GPU shares its key with one of another node exactly when there is a '/' in one of its IDs. */
  lemma GPUKeysAreSharedIffSlash(n: string, g: string)
    ensures (exists n', g' :: (n' != n || g' != g) && RegistryKey(n', g') == RegistryKey(n, g)) <==> '/' in n || '/' in g
  {
    if '/' in n {
      var i := CutAtSlash(n);
      assert RegistryKey(n[..i], n[i + 1..] + "/" + g) == RegistryKey(n, g) && n[..i] != n;
    } else if '/' in g {
      var i := CutAtSlash(g);
      assert RegistryKey(n + "/" + g[..i], g[i + 1..]) == RegistryKey(n, g) && g[i + 1..] != g;
    } else {
      forall n', g' | RegistryKey(n', g') == RegistryKey(n, g)
        ensures n' == n && g' == g
      {
        assert n' + "/" + g' + "/" + "-" == RegistryKey(n, g) + "/-";
        TwoSlashes(n, g, "-", n', g', "-");
      }
    }
  }

  lemma CutAtSlash(s: string) returns (i: nat)
    requires '/' in s
    ensures i < |s| && s == s[..i] + "/" + s[i + 1..]
  {
    i :| i < |s| && s[i] == '/';
  }

  /** With no other slash before the last character, the two that join the parts tell where they end. */
  lemma TwoSlashes(n: string, g: string, s: string, n': string, g': string, s': string)
    requires '/' !in n && '/' !in g && s != "" && '/' !in s[..|s| - 1] && s' != ""
    requires n' + "/" + g' + "/" + s' == n + "/" + g + "/" + s
    ensures n' == n && g' == g && s' == s
  {
    var t := n + "/" + g + "/" + s;
    var first, second := |n|, |n| + 1 + |g|;
    assert forall k | 0 <= k < |s| - 1 :: s[k] == s[..|s| - 1][k];
    forall i | 0 <= i < |t| - 1 && t[i] == '/'
      ensures i == first || i == second
    {
    }
    assert t[|n'|] == '/' && t[|n'| + 1 + |g'|] == '/';
    assert |n'| == first && |g'| == |g|;
    assert n' == t[..first] == n && g' == t[first + 1..second] == g && s' == t[second + 1..] == s;
  }

  /** Slash-free IDs are not enough: two slices, one of them on a slash-free node and GPU and with a slice ID
      of the repository's own form, share a key. */
  lemma SlashInASliceIDCollides()
    ensures SliceKey("a", "b", "0/0/0") == SliceKey("a/b", "0", "0/0")
    ensures SharesKey("a", "b", "0/0/0")
  {
    KeysAreSharedIffSlash("a", "b", "0/0/0");
    assert "0/0/0"[..4][1] == '/';
  }

  // ---------- What a tick emits ----------

  /** The diff of one slice asks for action a: load what is desired and absent, drop what is present and undesired. */
  predicate Asks(a: Action, desired: set<string>, actual: set<string>) {
    || (a.kind == PREWARM && a.modelName in desired && a.modelName !in actual)
    || (a.kind == EVICT && a.modelName in actual && a.modelName !in desired)
  }

  /** How often the diff of one slice emits action a. */
  function DiffCount(nodeID: string, gpuID: string, sliceID: string, desired: set<string>, actual: set<string>,
                     a: Action): nat {
    if a.nodeID == nodeID && a.gpuID == gpuID && a.sliceID == sliceID && Asks(a, desired, actual) then 1 else 0
  }

  /** What carrying out these actions, in this order, leaves on a slice that held `actual`. */
  function Applied(actual: set<string>, actions: seq<Action>): set<string> {
    if actions == [] then actual
    else
      var a, before := actions[|actions| - 1], Applied(actual, actions[..|actions| - 1]);
      if a.kind == PREWARM then before + {a.modelName} else if a.kind == EVICT then before - {a.modelName} else before
  }

  lemma {:induction false} AppliedMeans(actual: set<string>, actions: seq<Action>, desired: set<string>, m: string)
    requires forall a | a in actions :: Asks(a, desired, actual)
    ensures m in Applied(actual, actions)
       <==> if exists a :: a in actions && a.modelName == m then m in desired else m in actual
  {
    if actions != [] {
      var init, last := actions[..|actions| - 1], actions[|actions| - 1];
      assert actions == init + [last];
      AppliedMeans(actual, init, desired, m);
      assert last in actions && Asks(last, desired, actual);
      assert forall a | a in init :: a in actions;
      assert last.modelName != m ==> ((exists a :: a in actions && a.modelName == m) ==> exists a :: a in init && a.modelName == m);
    }
  }

  /** The diff of a slice closes the gap: whatever order its actions are carried out in, and however often the
      heartbeat lists a model, a slice that held `actual` ends up with exactly what is desired. */
  lemma DiffCloses(nodeID: string, gpuID: string, sliceID: string, desired: set<string>, actual: set<string>,
                   sent: seq<Action>)
    requires forall a: Action :: multiset(sent)[a] == DiffCount(nodeID, gpuID, sliceID, desired, actual, a)
    ensures Applied(actual, sent) == desired
  {
    forall a | a in sent
      ensures Asks(a, desired, actual)
    {
      assert multiset(sent)[a] > 0;
    }
    forall m
      ensures m in Applied(actual, sent) <==> m in desired
    {
      AppliedMeans(actual, sent, desired, m);
      var a := Action(if m in desired then PREWARM else EVICT, nodeID, gpuID, sliceID, m);
      assert (m in desired) != (m in actual) ==> multiset(sent)[a] == 1 && a in sent;
    }
  }

  function SliceCount(d: map<string, seq<string>>, g: NodeReport, s: MIGSlice, a: Action): nat {
    var key := SliceKey(g.nodeID, g.gpuID, s.sliceID);
    if s.healthy && key in d then DiffCount(g.nodeID, g.gpuID, s.sliceID, ToSet(d[key]), ToSet(s.loadedModels), a) else 0
  }

  function SlicesCount(d: map<string, seq<string>>, g: NodeReport, slices: seq<MIGSlice>, a: Action): nat {
    if slices == [] then 0
    else SlicesCount(d, g, slices[..|slices| - 1], a) + SliceCount(d, g, slices[|slices| - 1], a)
  }

  /** How often reconciling node g emits action a. */
  function NodeCount(d: map<string, seq<string>>, g: NodeReport, a: Action): nat {
    if g.Whole() then
      var key := SliceKey(g.nodeID, g.gpuID, "full");
      if key in d then DiffCount(g.nodeID, g.gpuID, "", ToSet(d[key]), ToSet(g.loadedModels), a) else 0
    else SlicesCount(d, g, g.migSlices, a)
  }

  /** How often a tick emits action a once the stale nodes are marked: only healthy nodes are asked. */
  function TickCount(d: map<string, seq<string>>, v: map<string, Entry>, a: Action): nat {
    var k := a.NodeKey();
    if IsHealthy(v, k) then NodeCount(d, v[k].report, a) else 0
  }

  function StaleKeys(v: map<string, Entry>, now: int): set<string> {
    StaleBefore(v, now - STALE_TIMEOUT)
  }

  function DeadCount(v: map<string, Entry>, now: int, a: Action): nat {
    var k := a.NodeKey();
    if k in StaleKeys(v, now) && a == Action(MARK_DEAD, v[k].report.nodeID, v[k].report.gpuID, "", "") then 1 else 0
  }

  lemma {:induction false} SlicesNameTheirNode(d: map<string, seq<string>>, g: NodeReport, slices: seq<MIGSlice>, a: Action)
    ensures SlicesCount(d, g, slices, a) > 0 ==> a.nodeID == g.nodeID && a.gpuID == g.gpuID && a.kind != MARK_DEAD
  {
    if slices != [] { SlicesNameTheirNode(d, g, slices[..|slices| - 1], a); }
  }

  lemma NodeNamesItself(d: map<string, seq<string>>, g: NodeReport, a: Action)
    ensures NodeCount(d, g, a) > 0 ==> a.nodeID == g.nodeID && a.gpuID == g.gpuID && a.kind != MARK_DEAD
  {
    SlicesNameTheirNode(d, g, g.migSlices, a);
  }

  // ---------- What these counts mean ----------

  /** The slice with this key has an entry, and its wish and what is loaded differ in the action's model: the model is
      wished and missing, or loaded and not wished. */
  predicate Due(d: map<string, seq<string>>, key: string, loaded: seq<string>, a: Action) {
    key in d &&
    ((a.kind == PREWARM && a.modelName in d[key] && a.modelName !in loaded)
     || (a.kind == EVICT && a.modelName in loaded && a.modelName !in d[key]))
  }

  lemma {:induction false} SlicesAskIff(d: map<string, seq<string>>, g: NodeReport, slices: seq<MIGSlice>, a: Action)
    ensures SlicesCount(d, g, slices, a) > 0 <==> exists s :: s in slices && SliceCount(d, g, s, a) > 0
  {
    if slices != [] {
      SlicesAskIff(d, g, slices[..|slices| - 1], a);
      assert slices == slices[..|slices| - 1] + [slices[|slices| - 1]];
    }
  }

  /** Reconciling a node asks for an action exactly if it names the node and is due on a healthy slice with the ID
      named, or, on a GPU that is not partitioned, on the whole of it. A slice nobody wishes anything for, an unhealthy
      slice and a whole GPU without an entry are asked for nothing. */
  lemma NodeAsksIff(d: map<string, seq<string>>, g: NodeReport, a: Action)
    ensures NodeCount(d, g, a) > 0
       <==> a.nodeID == g.nodeID && a.gpuID == g.gpuID
            && if g.migEnabled && g.migSlices != [] then
                 exists s :: s in g.migSlices && s.sliceID == a.sliceID && s.healthy
                             && Due(d, SliceKey(g.nodeID, g.gpuID, a.sliceID), s.loadedModels, a)
               else a.sliceID == "" && Due(d, SliceKey(g.nodeID, g.gpuID, ""), g.loadedModels, a)
  {
    hide SliceKey;
    SlicesAskIff(d, g, g.migSlices, a);
    FullIsDefault(g.nodeID, g.gpuID);
  }

  lemma FullIsDefault(nodeID: string, gpuID: string)
    ensures SliceKey(nodeID, gpuID, "full") == SliceKey(nodeID, gpuID, "")
  {
  }

  /** Nothing is asked for twice, as long as no two slices of a node have one ID. */
  lemma AskedOnce(d: map<string, seq<string>>, g: NodeReport, a: Action)
    requires forall i, j | 0 <= i < j < |g.migSlices| :: g.migSlices[i].sliceID != g.migSlices[j].sliceID
    ensures NodeCount(d, g, a) <= 1
  {
    hide SliceKey, RegistryKey;
    SlicesAskOnce(d, g, g.migSlices, a);
  }

  lemma {:induction false} SlicesAskOnce(d: map<string, seq<string>>, g: NodeReport, slices: seq<MIGSlice>, a: Action)
    requires forall i, j | 0 <= i < j < |slices| :: slices[i].sliceID != slices[j].sliceID
    ensures SlicesCount(d, g, slices, a) <= 1
    ensures SlicesCount(d, g, slices, a) == 1 ==> exists s :: s in slices && s.sliceID == a.sliceID
  {
    if slices != [] {
      var init, last := slices[..|slices| - 1], slices[|slices| - 1];
      SlicesAskOnce(d, g, init, a);
      assert slices == init + [last];
    }
  }

  /** A tick asks for an action exactly if its node is known, healthy, and asks for it. */
  lemma TickAsksIff(d: map<string, seq<string>>, v: map<string, Entry>, a: Action)
    ensures var k := RegistryKey(a.nodeID, a.gpuID);
            TickCount(d, v, a) > 0 <==> k in v && v[k].healthy && NodeCount(d, v[k].report, a) > 0
  {
  }

  /** A scheduler nothing has been asked of sends no PREWARM and no EVICT. */
  lemma NothingDesiredNothingAsked(v: map<string, Entry>, a: Action)
    ensures TickCount(map[], v, a) == 0
  {
    var k := a.NodeKey();
    if k in v { NodeAsksIff(map[], v[k].report, a); }
  }

  /** After the stale nodes are marked, the healthy nodes are those heard from within the last 2 seconds. */
  lemma HealthyMeansRecent(v: map<string, Entry>, now: int, k: string)
    ensures IsHealthy(Marked(v, StaleKeys(v, now)), k)
       <==> k in v && v[k].healthy && now - v[k].lastHeartbeat <= 2_000_000_000
  {
  }

  /** A MARK_DEAD is sent, once, for exactly the healthy nodes not heard from for longer than that. */
  lemma DeadMeansSilent(v: map<string, Entry>, now: int, a: Action)
    requires WellKeyed(v)
    ensures DeadCount(v, now, a)
         == if exists k :: k in v && v[k].healthy && now - v[k].lastHeartbeat > 2_000_000_000
                           && a == Action(MARK_DEAD, v[k].report.nodeID, v[k].report.gpuID, "", "") then 1 else 0
  {
    hide RegistryKey;
  }

  // ---------- The reconciler ----------

  class Reconciler {
    const registry: NodeRegistry
    var desiredState: map<string, seq<string>>
    /** Everything sent on the actions channel so far. */
    var actions: seq<Action>

    ghost predicate Valid()
      reads registry
    {
      registry.Valid()
    }

    constructor (registry: NodeRegistry)
      ensures this.registry == registry && desiredState == map[] && actions == []
    {
      this.registry := registry;
      desiredState := map[];
      actions := [];
    }

    method SetDesired(nodeID: string, gpuID: string, sliceID: string, models: seq<string>)
      modifies `desiredState
      ensures desiredState == OnLists(old(desiredState), SetOp(SliceKey(nodeID, gpuID, sliceID), models))
    {
      desiredState := desiredState[SliceKey(nodeID, gpuID, sliceID) := models];
    }

    method AddDesired(nodeID: string, gpuID: string, sliceID: string, modelName: string)
      modifies `desiredState
      ensures desiredState == OnLists(old(desiredState), AddOp(SliceKey(nodeID, gpuID, sliceID), modelName))
    {
      var key := SliceKey(nodeID, gpuID, sliceID);
      var models := if key in desiredState then desiredState[key] else [];
      for i := 0 to |models|
        invariant desiredState == old(desiredState)
        invariant modelName !in models[..i]
      {
        if models[i] == modelName {
          return;
        }
      }
      desiredState := desiredState[key := models + [modelName]];
    }

    method RemoveDesired(nodeID: string, gpuID: string, sliceID: string, modelName: string)
      modifies `desiredState
      ensures desiredState == OnLists(old(desiredState), RemoveOp(SliceKey(nodeID, gpuID, sliceID), modelName))
    {
      var key := SliceKey(nodeID, gpuID, sliceID);
      if key !in desiredState {
        return;
      }
      var models := desiredState[key];
      var out := [];
      for i := 0 to |models|
        invariant desiredState == old(desiredState)
        invariant out == Without(models[..i], modelName)
      {
        assert models[..i + 1][..i] == models[..i];
        if models[i] != modelName {
          out := out + [models[i]];
        }
      }
      assert models[..|models|] == models;
      desiredState := desiredState[key := out];
    }

    method SnapshotDesired(key: string) returns (r: Option<set<string>>)
      ensures r == if key in desiredState then Some(ToSet(desiredState[key])) else None
    {
      if key !in desiredState {
        return None;
      }
      return Some(ToSet(desiredState[key]));
    }

    method ApplyHeartbeat(report: NodeReport, now: int)
      requires Valid()
      modifies registry
      ensures Valid()
      ensures registry.View() == Upserted(old(registry.View()), report, now)
      ensures fresh(registry.Repr - old(registry.Repr))
    {
      var node := new GPUNode(report, now);
      registry.Upsert(node);
    }

    /** Sends the actions that close the gap between what one slice should hold and what it reports. */
    method EmitDiff(nodeID: string, gpuID: string, sliceID: string, desiredSet: set<string>, actualSet: set<string>)
        returns (ghost sent: seq<Action>)
      modifies `actions
      ensures actions == old(actions) + sent
      ensures forall a: Action :: multiset(sent)[a] == DiffCount(nodeID, gpuID, sliceID, desiredSet, actualSet, a)
    {
      sent := [];
      var rest := desiredSet;
      while rest != {}
        invariant rest <= desiredSet && actions == old(actions) + sent
        invariant forall a: Action :: multiset(sent)[a]
                    == if a.modelName in rest || a.kind == EVICT then 0
                       else DiffCount(nodeID, gpuID, sliceID, desiredSet, actualSet, a)
      {
        var model :| model in rest;
        rest := rest - {model};
        if model !in actualSet {
          var a := Action(PREWARM, nodeID, gpuID, sliceID, model);
          actions := actions + [a];
          sent := sent + [a];
        }
      }
      rest := actualSet;
      while rest != {}
        invariant rest <= actualSet && actions == old(actions) + sent
        invariant forall a: Action :: multiset(sent)[a]
                    == if a.modelName in rest && a.kind == EVICT then 0
                       else DiffCount(nodeID, gpuID, sliceID, desiredSet, actualSet, a)
      {
        var model :| model in rest;
        rest := rest - {model};
        if model !in desiredSet {
          var a := Action(EVICT, nodeID, gpuID, sliceID, model);
          actions := actions + [a];
          sent := sent + [a];
        }
      }
    }

    method ReconcileMIGNode(node: NodeReport) returns (ghost sent: seq<Action>)
      requires !node.Whole()
      modifies `actions
      ensures actions == old(actions) + sent
      ensures forall a: Action :: multiset(sent)[a] == NodeCount(desiredState, node, a)
    {
      sent := [];
      for i := 0 to |node.migSlices|
        invariant actions == old(actions) + sent
        invariant forall a: Action :: multiset(sent)[a] == SlicesCount(desiredState, node, node.migSlices[..i], a)
      {
        var slice := node.migSlices[i];
        assert node.migSlices[..i + 1][..i] == node.migSlices[..i];
        if !slice.healthy {
          continue;
        }
        var key := SliceKey(node.nodeID, node.gpuID, slice.sliceID);
        var desiredSet := SnapshotDesired(key);
        if desiredSet.None? {
          continue;
        }
        ghost var more := EmitDiff(node.nodeID, node.gpuID, slice.sliceID, desiredSet.value, ToSet(slice.loadedModels));
        sent := sent + more;
      }
      assert node.migSlices[..|node.migSlices|] == node.migSlices;
    }

    method ReconcileNonMIGNode(node: NodeReport) returns (ghost sent: seq<Action>)
      requires node.Whole()
      modifies `actions
      ensures actions == old(actions) + sent
      ensures forall a: Action :: multiset(sent)[a] == NodeCount(desiredState, node, a)
    {
      var key := SliceKey(node.nodeID, node.gpuID, "full");
      var desiredSet := SnapshotDesired(key);
      if desiredSet.None? {
        return [];
      }
      sent := EmitDiff(node.nodeID, node.gpuID, "", desiredSet.value, ToSet(node.loadedModels));
    }

    method MarkDead(n: NodeReport)
      requires Valid()
      modifies `actions, registry.Repr
      ensures Valid()
      ensures actions == old(actions) + [Action(MARK_DEAD, n.nodeID, n.gpuID, "", "")]
      ensures registry.View() == Marked(old(registry.View()), {n.Key()})
    {
      registry.MarkUnhealthy(n.nodeID, n.gpuID);
      actions := actions + [Action(MARK_DEAD, n.nodeID, n.gpuID, "", "")];
    }

    /** Marks the stale nodes dead, one MARK_DEAD each. */
    method MarkStale(now: int) returns (ghost dead: seq<Action>)
      requires Valid()
      modifies `actions, registry.Repr
      ensures Valid() && actions == old(actions) + dead
      ensures registry.View() == Marked(old(registry.View()), StaleKeys(old(registry.View()), now))
      ensures forall a: Action :: multiset(dead)[a] == DeadCount(old(registry.View()), now, a)
    {
      hide Dying, Lists, FirstOf, Marked, DeadCount, StaleBefore, NodeRegistry.View, NodeRegistry.Valid, RegistryKey;
      dead := [];
      ghost var v := registry.View();
      var stale := registry.StaleNodes(STALE_TIMEOUT, now);
      ghost var marked: set<string> := {};
      ListStart(stale);
      DyingStart(v, now);
      for i := 0 to |stale|
        invariant Valid() && actions == old(actions) + dead
        invariant FirstOf(stale, i, marked)
        invariant Dying(v, now, marked, registry.View(), dead)
      {
        var n := stale[i].report;
        ListStep(stale, v, StaleKeys(v, now), i, marked);
        DyingStep(v, now, marked, registry.View(), dead, n);
        MarkDead(n);
        dead := dead + [Action(MARK_DEAD, n.nodeID, n.gpuID, "", "")];
        marked := marked + {n.Key()};
      }
      ListEnd(stale, v, StaleKeys(v, now), marked);
      DyingEnd(v, now, registry.View(), dead);
    }

    /** Diffs the given nodes, the healthy ones of v, one after the other. */
    method DiffNodes(nodes: seq<GPUNode>, ghost v: map<string, Entry>) returns (ghost sent: seq<Action>)
      requires Lists(nodes, v, HealthyKeys(v))
      modifies `actions
      ensures actions == old(actions) + sent
      ensures forall a: Action :: multiset(sent)[a] == TickCount(desiredState, v, a)
    {
      sent := [];
      ghost var done: set<string> := {};
      OnlyHealthyAsked(desiredState, v);
      ListStart(nodes);
      hide TickCount, NodeCount, RegistryKey, Lists, FirstOf;
      for i := 0 to |nodes|
        invariant actions == old(actions) + sent
        invariant FirstOf(nodes, i, done)
        invariant forall a: Action :: multiset(sent)[a] == if a.NodeKey() in done then TickCount(desiredState, v, a) else 0
      {
        var node := nodes[i].report;
        ListStep(nodes, v, HealthyKeys(v), i, done);
        ghost var more;
        if node.migEnabled && |node.migSlices| > 0 {
          more := ReconcileMIGNode(node);
        } else {
          more := ReconcileNonMIGNode(node);
        }
        TickStep(desiredState, v, node);
        sent := sent + more;
        done := done + {node.Key()};
      }
      ListEnd(nodes, v, HealthyKeys(v), done);
    }

    /** One tick. First the stale nodes are marked dead; then every node still healthy is diffed. */
    method Reconcile(now: int) returns (ghost dead: seq<Action>, ghost sent: seq<Action>)
      requires Valid()
      modifies `actions, registry.Repr
      ensures Valid() && actions == old(actions) + dead + sent
      ensures registry.View() == Marked(old(registry.View()), StaleKeys(old(registry.View()), now))
      ensures forall a: Action :: multiset(dead)[a] == DeadCount(old(registry.View()), now, a)
      ensures forall a: Action :: multiset(sent)[a] == TickCount(desiredState, registry.View(), a)
      ensures forall k :: IsHealthy(registry.View(), k)
                     <==> IsHealthy(old(registry.View()), k) && now - old(registry.View())[k].lastHeartbeat <= 2_000_000_000
      ensures desiredState == map[] ==> sent == []
    {
      ghost var v := registry.View();
      AfterMarking(v, now);
      hide TickCount, DeadCount, Marked, StaleKeys, HealthyKeys, Lists, NodeRegistry.View, NodeRegistry.Valid;
      dead := MarkStale(now);
      var nodes := registry.All();
      sent := DiffNodes(nodes, registry.View());
      if desiredState == map[] { NothingAskedNothingSent(registry.View(), sent); }
    }
  }

  lemma AfterMarking(v: map<string, Entry>, now: int)
    ensures forall k :: IsHealthy(Marked(v, StaleKeys(v, now)), k)
                   <==> IsHealthy(v, k) && now - v[k].lastHeartbeat <= 2_000_000_000
  {
    forall k
      ensures IsHealthy(Marked(v, StaleKeys(v, now)), k) <==> IsHealthy(v, k) && now - v[k].lastHeartbeat <= 2_000_000_000
    {
      HealthyMeansRecent(v, now, k);
    }
  }

  lemma NothingAskedNothingSent(v: map<string, Entry>, sent: seq<Action>)
    requires forall a: Action :: multiset(sent)[a] == TickCount(map[], v, a)
    ensures sent == []
  {
    if sent != [] {
      assert multiset(sent)[sent[0]] > 0;
      NothingDesiredNothingAsked(v, sent[0]);
    }
  }

  /** Of v, the nodes under `marked` have been marked dead so far, with one MARK_DEAD each. */
  ghost predicate Dying(v: map<string, Entry>, now: int, marked: set<string>, w: map<string, Entry>, dead: seq<Action>) {
    && w == Marked(v, marked)
    && forall a: Action :: multiset(dead)[a] == if a.NodeKey() in marked then DeadCount(v, now, a) else 0
  }

  lemma DyingStart(v: map<string, Entry>, now: int)
    ensures Dying(v, now, {}, v, [])
  {
  }

  lemma DyingStep(v: map<string, Entry>, now: int, marked: set<string>, w: map<string, Entry>, dead: seq<Action>, n: NodeReport)
    requires n.Key() in StaleKeys(v, now) && v[n.Key()].report == n && n.Key() !in marked
    requires Dying(v, now, marked, w, dead)
    ensures Dying(v, now, marked + {n.Key()}, Marked(w, {n.Key()}), dead + [Action(MARK_DEAD, n.nodeID, n.gpuID, "", "")])
  {
  }

  lemma DyingEnd(v: map<string, Entry>, now: int, w: map<string, Entry>, dead: seq<Action>)
    requires Dying(v, now, StaleKeys(v, now), w, dead)
    ensures w == Marked(v, StaleKeys(v, now))
    ensures forall a: Action :: multiset(dead)[a] == DeadCount(v, now, a)
  {
  }

  lemma OnlyHealthyAsked(d: map<string, seq<string>>, v: map<string, Entry>)
    ensures forall a: Action | a.NodeKey() !in HealthyKeys(v) :: TickCount(d, v, a) == 0
  {
  }

  /** A healthy node accounts for exactly the tick's actions under its own key. */
  lemma TickStep(d: map<string, seq<string>>, v: map<string, Entry>, g: NodeReport)
    requires IsHealthy(v, g.Key()) && v[g.Key()].report == g
    ensures forall a: Action :: NodeCount(d, g, a) == if a.NodeKey() == g.Key() then TickCount(d, v, a) else 0
  {
    forall a: Action
      ensures NodeCount(d, g, a) == if a.NodeKey() == g.Key() then TickCount(d, v, a) else 0
    {
      NodeNamesItself(d, g, a);
    }
  }
}
