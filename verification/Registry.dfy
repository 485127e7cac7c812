/** The single source of truth for cluster state: scheduler/registry/node_registry.go.

    Time is in nanoseconds. A node's health flag is the one field the source updates in place,
    so it is the one mutable field here; the rest of a node is what its last heartbeat reported. */
module Registry {
  import opened Wrappers

  datatype MIGSlice = MIGSlice(sliceID: string, totalVRAMMiB: int, usedVRAMMiB: int,
                               loadedModels: seq<string>, healthy: bool)
  {
    function FreeVRAM(): int {
      totalVRAMMiB - usedVRAMMiB
    }

    function VRAMUtilizationPct(): real {
      if totalVRAMMiB == 0 then 0.0
      else usedVRAMMiB as real / totalVRAMMiB as real * 100.0
    }
  }

  function RegistryKey(nodeID: string, gpuID: string): string {
    nodeID + "/" + gpuID
  }

  /** What one heartbeat says about one GPU. */
  datatype NodeReport = NodeReport(nodeID: string, gpuID: string, totalVRAMMiB: int, usedVRAMMiB: int,
                                   migEnabled: bool, migSlices: seq<MIGSlice>,
                                   modelWeightAffinity: map<string, int>, loadedModels: seq<string>)
  {
    function Key(): string {
      RegistryKey(nodeID, gpuID)
    }

    /** Not partitioned: scheduled and reconciled as one whole GPU. */
    predicate Whole() {
      !migEnabled || |migSlices| == 0
    }

    predicate HasWeights(modelName: string) {
      modelName in modelWeightAffinity
    }

    function SyntheticFullSlice(): MIGSlice {
      MIGSlice("full", totalVRAMMiB, usedVRAMMiB, loadedModels, true)
    }

    /** The slice is one a model needing neededMiB can be placed on here. */
    ghost predicate Offers(slice: MIGSlice, neededMiB: int) {
      && slice.FreeVRAM() >= neededMiB
      && if Whole() then slice == SyntheticFullSlice() else slice in migSlices && slice.healthy
    }

    /** free is the largest request that fits here: the whole GPU's headroom, or the largest
        headroom of a healthy slice (0 when there is none). */
    ghost predicate IsFreeVRAM(free: int) {
      if Whole() then free == totalVRAMMiB - usedVRAMMiB
      else
        && free >= 0
        && (forall s | s in migSlices && s.healthy :: s.FreeVRAM() <= free)
        && (free == 0 || exists s :: s in migSlices && s.healthy && s.FreeVRAM() == free)
    }
  }

  method FreeVRAM(g: NodeReport) returns (free: int)
    ensures g.IsFreeVRAM(free)
  {
    if g.Whole() {
      return g.totalVRAMMiB - g.usedVRAMMiB;
    }
    free := 0;
    for i := 0 to |g.migSlices|
      invariant free >= 0
      invariant forall s | s in g.migSlices[..i] && s.healthy :: s.FreeVRAM() <= free
      invariant free == 0 || exists s :: s in g.migSlices[..i] && s.healthy && s.FreeVRAM() == free
    {
      ghost var before := free;
      assert g.migSlices[..i + 1] == g.migSlices[..i] + [g.migSlices[i]];
      if g.migSlices[i].healthy {
        var f := g.migSlices[i].FreeVRAM();
        if f > free {
          free := f;
        }
      }
      assert free != before ==> g.migSlices[i] in g.migSlices[..i + 1];
    }
    assert g.migSlices[..|g.migSlices|] == g.migSlices;
  }

  /** In spread mode the roomiest slice, in pack mode the tightest. */
  predicate Better(a: MIGSlice, b: MIGSlice, spreadMode: bool) {
    if spreadMode then a.FreeVRAM() >= b.FreeVRAM() else a.FreeVRAM() <= b.FreeVRAM()
  }

  method BestSliceFor(g: NodeReport, neededMiB: int, spreadMode: bool) returns (best: Option<MIGSlice>)
    ensures g.Whole() ==> best.None?
    ensures best.Some? ==>
              && g.Offers(best.value, neededMiB)
              && forall s | g.Offers(s, neededMiB) :: Better(best.value, s, spreadMode)
    ensures !g.Whole() && best.None? ==> forall s | s in g.migSlices :: !g.Offers(s, neededMiB)
    ensures best.Some? ==> forall s | g.Offers(s, neededMiB) ::
              var room, other := best.value.totalVRAMMiB - best.value.usedVRAMMiB, s.totalVRAMMiB - s.usedVRAMMiB;
              if spreadMode then room >= other else room <= other
  {
    if g.Whole() {
      return None;
    }
    best := None;
    for i := 0 to |g.migSlices|
      invariant best.Some? ==> g.Offers(best.value, neededMiB)
      invariant forall s | s in g.migSlices[..i] && g.Offers(s, neededMiB) ::
                  best.Some? && Better(best.value, s, spreadMode)
    {
      var s := g.migSlices[i];
      assert g.migSlices[..i + 1] == g.migSlices[..i] + [s];
      if !s.healthy || s.FreeVRAM() < neededMiB {
        continue;
      }
      if best.None? {
        best := Some(s);
        continue;
      }
      if spreadMode {
        if s.FreeVRAM() > best.value.FreeVRAM() {
          best := Some(s);
        }
      } else {
        if s.FreeVRAM() < best.value.FreeVRAM() {
          best := Some(s);
        }
      }
    }
    assert g.migSlices[..|g.migSlices|] == g.migSlices;
  }

  /** What can be placed where, in terms of the reported fields: on a partitioned GPU its healthy slices with the
      room, otherwise the whole GPU if it has the room. */
  lemma OffersIff(g: NodeReport, slice: MIGSlice, neededMiB: int)
    ensures g.Offers(slice, neededMiB)
       <==> slice.totalVRAMMiB - slice.usedVRAMMiB >= neededMiB
            && if g.migEnabled && g.migSlices != [] then slice in g.migSlices && slice.healthy
               else slice == MIGSlice("full", g.totalVRAMMiB, g.usedVRAMMiB, g.loadedModels, true)
  {
  }

  /** FreeVRAM answers "does this request fit here" for every node exactly when the request is
      positive: a partitioned node with no usable slice still reports 0 free. */
  lemma FreeVRAMDecidesFitIffPositive(neededMiB: int)
    ensures neededMiB > 0 <==>
              forall g: NodeReport, free | g.IsFreeVRAM(free) ::
                (free >= neededMiB <==> exists s :: g.Offers(s, neededMiB))
  {
    if neededMiB > 0 {
      forall g: NodeReport, free | g.IsFreeVRAM(free)
        ensures free >= neededMiB <==> exists s :: g.Offers(s, neededMiB)
      {
        FreeVRAMDecidesFit(g, free, neededMiB);
      }
    } else {
      var broken := MIGSlice("0/0/0", 0, 0, [], false);
      var g := NodeReport("", "", 0, 0, true, [broken], map[], []);
      assert g.IsFreeVRAM(0);
      assert forall s :: s in g.migSlices ==> s == broken;
      assert !exists s :: g.Offers(s, neededMiB);
    }
  }

  /** Node by node: FreeVRAM answers rightly exactly when the request is positive, or the GPU is whole, or
      some healthy slice has the room anyway. */
  lemma FreeVRAMDecidesFitIff(g: NodeReport, free: int, neededMiB: int)
    requires g.IsFreeVRAM(free)
    ensures (free >= neededMiB <==> exists s :: g.Offers(s, neededMiB))
       <==> neededMiB > 0 || g.Whole() || exists s :: s in g.migSlices && s.healthy && s.FreeVRAM() >= neededMiB
  {
    if neededMiB > 0 {
      FreeVRAMDecidesFit(g, free, neededMiB);
    } else if g.Whole() {
      assert free >= neededMiB ==> g.Offers(g.SyntheticFullSlice(), neededMiB);
    } else if s :| s in g.migSlices && s.healthy && s.FreeVRAM() >= neededMiB {
      assert g.Offers(s, neededMiB);
    }
  }

  lemma FreeVRAMDecidesFit(g: NodeReport, free: int, neededMiB: int)
    requires neededMiB > 0 && g.IsFreeVRAM(free)
    ensures free >= neededMiB <==> exists s :: g.Offers(s, neededMiB)
  {
    if g.Whole() {
      assert free >= neededMiB ==> g.Offers(g.SyntheticFullSlice(), neededMiB);
    } else if free >= neededMiB {
      var s :| s in g.migSlices && s.healthy && s.FreeVRAM() == free;
      assert g.Offers(s, neededMiB);
    }
  }

  // ---------- The registry ----------

  class GPUNode {
    const report: NodeReport
    const lastHeartbeat: int
    var healthy: bool

    constructor (report: NodeReport, lastHeartbeat: int)
      ensures this.report == report && this.lastHeartbeat == lastHeartbeat
    {
      this.report := report;
      this.lastHeartbeat := lastHeartbeat;
    }
  }

  /** One node as the registry knows it at some moment. */
  datatype Entry = Entry(report: NodeReport, lastHeartbeat: int, healthy: bool)

  /** What Upsert, MarkUnhealthy and the two queries mean, as functions of the whole registry. */
  function Upserted(v: map<string, Entry>, report: NodeReport, now: int): map<string, Entry> {
    v[report.Key() := Entry(report, now, true)]
  }

  function Marked(v: map<string, Entry>, keys: set<string>): map<string, Entry> {
    map k | k in v :: if k in keys then v[k].(healthy := false) else v[k]
  }

  /** A heartbeat makes its node healthy, whatever it was before, with the reported state and time, and touches no other. */
  lemma UpsertedMeans(v: map<string, Entry>, report: NodeReport, now: int, k: string)
    ensures var v', key := Upserted(v, report, now), RegistryKey(report.nodeID, report.gpuID);
            && (k in v' <==> k == key || k in v)
            && v'[key].report == report && v'[key].lastHeartbeat == now && v'[key].healthy
            && (k != key && k in v ==> v'[k] == v[k])
  {
  }

  /** Marking clears the health of the nodes named and changes nothing else. */
  lemma MarkedMeans(v: map<string, Entry>, keys: set<string>, k: string)
    ensures k in Marked(v, keys) <==> k in v
    ensures k in v ==>
              && Marked(v, keys)[k].report == v[k].report && Marked(v, keys)[k].lastHeartbeat == v[k].lastHeartbeat
              && (Marked(v, keys)[k].healthy <==> v[k].healthy && k !in keys)
  {
  }

  predicate IsHealthy(v: map<string, Entry>, k: string) {
    k in v && v[k].healthy
  }

  function HealthyKeys(v: map<string, Entry>): set<string> {
    set k | k in v && v[k].healthy
  }

  /** The healthy nodes whose last heartbeat is older than the cutoff. */
  function StaleBefore(v: map<string, Entry>, cutoff: int): set<string> {
    set k | k in v && v[k].healthy && v[k].lastHeartbeat < cutoff
  }

  /** The nodes under these keys, each once, in some order. */
  ghost predicate Lists(nodes: seq<GPUNode>, v: map<string, Entry>, keys: set<string>) {
    && (forall n | n in nodes :: n.report.Key() in keys && n.report.Key() in v && v[n.report.Key()].report == n.report)
    && (forall k | k in keys :: exists n :: n in nodes && n.report.Key() == k)
    && (forall i, j | 0 <= i < j < |nodes| :: nodes[i].report.Key() != nodes[j].report.Key())
  }

  /** Every entry sits under its own key. */
  ghost predicate WellKeyed(v: map<string, Entry>) {
    forall k | k in v :: v[k].report.Key() == k
  }

  /** keys are those of the first n nodes. */
  ghost predicate FirstOf(nodes: seq<GPUNode>, n: nat, keys: set<string>) {
    && (forall i | 0 <= i < n && i < |nodes| :: nodes[i].report.Key() in keys)
    && (forall k | k in keys :: exists i :: 0 <= i < n && i < |nodes| && nodes[i].report.Key() == k)
  }

  lemma ListStart(nodes: seq<GPUNode>)
    ensures FirstOf(nodes, 0, {})
  {
  }

  lemma ListStep(nodes: seq<GPUNode>, v: map<string, Entry>, keys: set<string>, i: nat, first: set<string>)
    requires Lists(nodes, v, keys) && i < |nodes| && FirstOf(nodes, i, first)
    ensures var k := nodes[i].report.Key();
            && k in keys && k in v && v[k].report == nodes[i].report
            && k !in first && FirstOf(nodes, i + 1, first + {k})
  {
  }

  lemma ListEnd(nodes: seq<GPUNode>, v: map<string, Entry>, keys: set<string>, all: set<string>)
    requires Lists(nodes, v, keys) && FirstOf(nodes, |nodes|, all)
    ensures all == keys
  {
  }

  class NodeRegistry {
    var nodes: map<string, GPUNode>
    ghost var Repr: set<GPUNode>   // every node ever stored

    ghost predicate Valid()
      reads this
    {
      forall k | k in nodes :: nodes[k].report.Key() == k && nodes[k] in Repr
    }

    ghost function View(): (v: map<string, Entry>)
      requires Valid()
      reads this, Repr
      ensures v.Keys == nodes.Keys && WellKeyed(v)
    {
      map k | k in nodes :: Entry(nodes[k].report, nodes[k].lastHeartbeat, nodes[k].healthy)
    }

    constructor ()
      ensures Valid() && nodes == map[] && Repr == {}
    {
      nodes := map[];
      Repr := {};
    }

    method Upsert(node: GPUNode)
      requires Valid()
      modifies this, node
      ensures Valid()
      ensures Repr == old(Repr) + {node}
      ensures View() == Upserted(old(View()), node.report, node.lastHeartbeat)
    {
      hide RegistryKey;
      var key := node.report.Key();
      node.healthy := true;
      nodes := nodes[key := node];
      Repr := Repr + {node};
    }

    method MarkUnhealthy(nodeID: string, gpuID: string)
      requires Valid()
      modifies Repr
      ensures Valid()
      ensures View() == Marked(old(View()), {RegistryKey(nodeID, gpuID)})
    {
      var key := RegistryKey(nodeID, gpuID);
      if key in nodes {
        nodes[key].healthy := false;
      }
    }

    /** The healthy nodes, in whatever order the map yields them. */
    method All() returns (out: seq<GPUNode>)
      requires Valid()
      ensures Lists(out, View(), HealthyKeys(View()))
    {
      out := [];
      var rest := nodes.Keys;
      ghost var v := View();
      hide Lists;
      ListNone(v);
      assert HealthyKeys(v) - rest == {};
      while rest != {}
        invariant rest <= nodes.Keys
        invariant Lists(out, v, HealthyKeys(v) - rest)
      {
        ghost var before := rest;
        var k :| k in rest;
        rest := rest - {k};
        if nodes[k].healthy {
          ListOneMore(out, v, HealthyKeys(v) - before, nodes[k]);
          assert HealthyKeys(v) - before + {k} == HealthyKeys(v) - rest;
          out := out + [nodes[k]];
        } else {
          assert HealthyKeys(v) - before == HealthyKeys(v) - rest;
        }
      }
      assert HealthyKeys(v) - rest == HealthyKeys(v);
    }

    /** The healthy nodes whose last heartbeat is older than the threshold. */
    method StaleNodes(threshold: int, now: int) returns (stale: seq<GPUNode>)
      requires Valid()
      ensures Lists(stale, View(), StaleBefore(View(), now - threshold))
    {
      stale := [];
      var cutoff := now - threshold;
      var rest := nodes.Keys;
      ghost var v := View();
      hide Lists;
      ListNone(v);
      assert StaleBefore(v, cutoff) - rest == {};
      while rest != {}
        invariant rest <= nodes.Keys
        invariant Lists(stale, v, StaleBefore(v, cutoff) - rest)
      {
        ghost var before := rest;
        var k :| k in rest;
        rest := rest - {k};
        if nodes[k].healthy && nodes[k].lastHeartbeat < cutoff {
          ListOneMore(stale, v, StaleBefore(v, cutoff) - before, nodes[k]);
          assert StaleBefore(v, cutoff) - before + {k} == StaleBefore(v, cutoff) - rest;
          stale := stale + [nodes[k]];
        } else {
          assert StaleBefore(v, cutoff) - before == StaleBefore(v, cutoff) - rest;
        }
      }
      assert StaleBefore(v, cutoff) - rest == StaleBefore(v, cutoff);
    }
  }

  lemma ListNone(v: map<string, Entry>)
    ensures Lists([], v, {})
  {
  }

  lemma ListOneMore(nodes: seq<GPUNode>, v: map<string, Entry>, keys: set<string>, n: GPUNode)
    requires Lists(nodes, v, keys) && n.report.Key() !in keys
    requires n.report.Key() in v && v[n.report.Key()].report == n.report
    ensures Lists(nodes + [n], v, keys + {n.report.Key()})
  {
  }
}
