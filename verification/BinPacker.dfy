/** Placement of scheduler/scheduler/bin_packer.go: one node and, on a partitioned GPU, one slice.

    The methods follow the source's loops and its in-place sort; `Chosen` says what the answer
    must be, in terms of the registry alone, whatever order the node map was walked in. */
module BinPacker {
  import opened Wrappers
  import opened Registry

  const P0_PRODUCTION := 0
  const P1_DEVELOPMENT := 1

  const VRAM_EVICTION_THRESHOLD_PCT := 85.0

  datatype ScheduleRequest = ScheduleRequest(modelName: string, vramNeededMiB: int, priority: int)

  datatype ScheduleDecision =
    ScheduleDecision(nodeID: string, gpuID: string, sliceID: string, migEnabled: bool, affinityHit: bool)

  datatype ScheduleError = NoHealthyNodes | NoSliceFits | CouldNotSelect

  /** A node paired with one of the slices the request fits on. */
  datatype Candidate = Candidate(node: NodeReport, slice: MIGSlice, affHit: bool)

  // ---------- What a decision must be ----------

  ghost predicate IsCandidate(v: map<string, Entry>, req: ScheduleRequest, c: Candidate) {
    && IsHealthy(v, c.node.Key()) && v[c.node.Key()].report == c.node
    && c.node.Offers(c.slice, req.vramNeededMiB)
    && c.affHit == c.node.HasWeights(req.modelName)
  }

  /** Some candidate's node already has the weights on its local disk. */
  ghost predicate AffinityAvailable(v: map<string, Entry>, req: ScheduleRequest) {
    exists c :: IsCandidate(v, req, c) && c.affHit
  }

  ghost predicate SpreadMode(v: map<string, Entry>, req: ScheduleRequest) {
    exists c :: IsCandidate(v, req, c) && c.slice.VRAMUtilizationPct() > VRAM_EVICTION_THRESHOLD_PCT
  }

  /** The candidates the choice is made among: those with the weights if there are any, else all. */
  ghost predicate InPool(v: map<string, Entry>, req: ScheduleRequest, c: Candidate) {
    IsCandidate(v, req, c) && (c.affHit <==> AffinityAvailable(v, req))
  }

  ghost predicate Chosen(v: map<string, Entry>, req: ScheduleRequest, c: Candidate) {
    && InPool(v, req, c)
    && forall d | InPool(v, req, d) :: Better(c.slice, d.slice, SpreadMode(v, req))
  }

  function DecisionFor(c: Candidate): ScheduleDecision {
    ScheduleDecision(c.node.nodeID, c.node.gpuID, if c.node.migEnabled then c.slice.sliceID else "",
                     c.node.migEnabled, c.affHit)
  }

  /** A healthy node offers this slice for the request. */
  ghost predicate Suits(v: map<string, Entry>, req: ScheduleRequest, k: string, s: MIGSlice) {
    k in v && v[k].healthy && v[k].report.Key() == k && v[k].report.Offers(s, req.vramNeededMiB)
  }

  /** More than 85 percent used, by cross-multiplication; a slice without memory counts as unused. */
  predicate Crammed(s: MIGSlice) {
    (s.totalVRAMMiB > 0 && 100 * s.usedVRAMMiB > 85 * s.totalVRAMMiB)
    || (s.totalVRAMMiB < 0 && 100 * s.usedVRAMMiB < 85 * s.totalVRAMMiB)
  }

  lemma CrammedIff(s: MIGSlice)
    ensures s.VRAMUtilizationPct() > VRAM_EVICTION_THRESHOLD_PCT <==> Crammed(s)
  {
    var used, total := s.usedVRAMMiB as real, s.totalVRAMMiB as real;
    if s.totalVRAMMiB != 0 {
      var share := used / total;
      assert share * total == used;
      assert 100.0 * used == (share * 100.0) * total;
      assert (100 * s.usedVRAMMiB) as real == 100.0 * used && (85 * s.totalVRAMMiB) as real == 85.0 * total;
      if s.totalVRAMMiB > 0 { Scales(share * 100.0, 85.0, total); } else { Scales(85.0, share * 100.0, -total); }
    }
  }

  lemma Scales(a: real, b: real, t: real)
    requires t > 0.0
    ensures a > b <==> a * t > b * t
  {
  }

  /** What the chosen candidate is, in terms of the reported fields: from the nodes with the weights if one of them
      fits; the fullest slice that fits as long as no slice that fits is over 85 percent used, else the emptiest. */
  lemma ChosenMeans(v: map<string, Entry>, req: ScheduleRequest, c: Candidate)
    requires WellKeyed(v) && Chosen(v, req, c)
    ensures Suits(v, req, c.node.Key(), c.slice) && v[c.node.Key()].report == c.node
    ensures (exists k, s :: Suits(v, req, k, s) && req.modelName in v[k].report.modelWeightAffinity)
            <==> req.modelName in c.node.modelWeightAffinity
    ensures var free := c.slice.totalVRAMMiB - c.slice.usedVRAMMiB;
            var spread := exists k, s :: Suits(v, req, k, s) && Crammed(s);
            forall k, s | Suits(v, req, k, s)
                          && (req.modelName in v[k].report.modelWeightAffinity <==> req.modelName in c.node.modelWeightAffinity) ::
              if spread then free >= s.totalVRAMMiB - s.usedVRAMMiB else free <= s.totalVRAMMiB - s.usedVRAMMiB
  {
    forall k, s | Suits(v, req, k, s)
      ensures IsCandidate(v, req, Candidate(v[k].report, s, req.modelName in v[k].report.modelWeightAffinity))
      ensures s.VRAMUtilizationPct() > VRAM_EVICTION_THRESHOLD_PCT <==> Crammed(s)
    {
      CrammedIff(s);
    }
    forall d | IsCandidate(v, req, d)
      ensures Suits(v, req, d.node.Key(), d.slice) && (d.affHit <==> req.modelName in d.node.modelWeightAffinity)
      ensures d.slice.VRAMUtilizationPct() > VRAM_EVICTION_THRESHOLD_PCT <==> Crammed(d.slice)
    {
      CrammedIff(d.slice);
    }
    hide Crammed, Registry.RegistryKey, NodeReport.Offers, MIGSlice.VRAMUtilizationPct;
    SpreadIffCrammed(v, req);
    forall k, s | Suits(v, req, k, s)
                  && (req.modelName in v[k].report.modelWeightAffinity <==> req.modelName in c.node.modelWeightAffinity)
      ensures Better(c.slice, s, SpreadMode(v, req))
    {
      assert InPool(v, req, Candidate(v[k].report, s, req.modelName in v[k].report.modelWeightAffinity));
    }
  }

  lemma SpreadIffCrammed(v: map<string, Entry>, req: ScheduleRequest)
    requires WellKeyed(v)
    ensures SpreadMode(v, req) <==> exists k, s :: Suits(v, req, k, s) && Crammed(s)
  {
    if c :| IsCandidate(v, req, c) && c.slice.VRAMUtilizationPct() > VRAM_EVICTION_THRESHOLD_PCT {
      CrammedIff(c.slice);
      assert Suits(v, req, c.node.Key(), c.slice);
    }
    if k, s :| Suits(v, req, k, s) && Crammed(s) {
      CrammedIff(s);
      assert IsCandidate(v, req, Candidate(v[k].report, s, v[k].report.HasWeights(req.modelName)));
    }
  }

  // ---------- The algorithm ----------

  method ExpandNodeForModel(n: NodeReport, neededMiB: int, modelName: string) returns (out: seq<Candidate>)
    ensures forall c :: c in out <==>
              c.node == n && n.Offers(c.slice, neededMiB) && c.affHit == n.HasWeights(modelName)
  {
    var affHit := n.HasWeights(modelName);
    if n.Whole() {
      var syn := n.SyntheticFullSlice();
      if syn.FreeVRAM() < neededMiB {
        return [];
      }
      return [Candidate(n, syn, affHit)];
    }
    out := [];
    for i := 0 to |n.migSlices|
      invariant forall c :: c in out <==>
                  c.node == n && c.slice in n.migSlices[..i] && n.Offers(c.slice, neededMiB) && c.affHit == affHit
    {
      var s := n.migSlices[i];
      assert n.migSlices[..i + 1] == n.migSlices[..i] + [s];
      if !s.healthy || s.FreeVRAM() < neededMiB {
        continue;
      }
      out := out + [Candidate(n, s, affHit)];
    }
    assert n.migSlices[..|n.migSlices|] == n.migSlices;
  }

  method AnySliceAboveThreshold(candidates: seq<Candidate>) returns (any: bool)
    ensures any <==> exists c :: c in candidates && c.slice.VRAMUtilizationPct() > VRAM_EVICTION_THRESHOLD_PCT
  {
    for i := 0 to |candidates|
      invariant forall c | c in candidates[..i] :: c.slice.VRAMUtilizationPct() <= VRAM_EVICTION_THRESHOLD_PCT
    {
      if candidates[i].slice.VRAMUtilizationPct() > VRAM_EVICTION_THRESHOLD_PCT {
        return true;
      }
      assert candidates[..i + 1] == candidates[..i] + [candidates[i]];
    }
    assert candidates[..|candidates|] == candidates;
    return false;
  }

  predicate SortedByFree(s: seq<Candidate>) {
    forall i, j | 0 <= i < j < |s| :: s[i].slice.FreeVRAM() <= s[j].slice.FreeVRAM()
  }

  function Insert(c: Candidate, s: seq<Candidate>): seq<Candidate> {
    if s == [] || c.slice.FreeVRAM() <= s[0].slice.FreeVRAM() then [c] + s
    else [s[0]] + Insert(c, s[1..])
  }

  function Sorted(s: seq<Candidate>): seq<Candidate> {
    if s == [] then [] else Insert(s[0], Sorted(s[1..]))
  }

  lemma {:induction false} InsertKeepsAll(c: Candidate, s: seq<Candidate>)
    ensures multiset(Insert(c, s)) == multiset(s) + multiset{c}
  {
    if s != [] {
      InsertKeepsAll(c, s[1..]);
      assert s == [s[0]] + s[1..];
    }
  }

  lemma {:induction false} InsertSorts(c: Candidate, s: seq<Candidate>)
    requires SortedByFree(s)
    ensures SortedByFree(Insert(c, s))
  {
    if s != [] && c.slice.FreeVRAM() > s[0].slice.FreeVRAM() {
      var rest := Insert(c, s[1..]);
      InsertSorts(c, s[1..]);
      assert rest[0] == c || rest[0] == s[1];
      hide Insert;
      assert forall j | 0 <= j < |rest| :: rest[0].slice.FreeVRAM() <= rest[j].slice.FreeVRAM();
    }
  }

  lemma {:induction false} SortedSorts(s: seq<Candidate>)
    ensures SortedByFree(Sorted(s)) && multiset(Sorted(s)) == multiset(s)
  {
    if s != [] {
      SortedSorts(s[1..]);
      InsertSorts(s[0], Sorted(s[1..]));
      InsertKeepsAll(s[0], Sorted(s[1..]));
      assert s == [s[0]] + s[1..];
    }
  }

  /** Stands for sort.Slice: callers see no more than "sorted in place, and the same candidates". */
  method SortByFree(a: array<Candidate>)
    modifies a
    ensures SortedByFree(a[..])
    ensures multiset(a[..]) == multiset(old(a[..]))
  {
    var s := Sorted(a[..]);
    SortedSorts(a[..]);
    assert |s| == |multiset(s)| == |multiset(a[..])| == a.Length;
    forall i | 0 <= i < a.Length {
      a[i] := s[i];
    }
    assert a[..] == s;
  }

  /** The tightest fit, by sorting the pool in place and taking the first that fits. */
  method LeastFitSlice(candidates: array<Candidate>, neededMiB: int) returns (chosen: Option<Candidate>)
    modifies candidates
    ensures chosen.None? ==> forall c | c in old(candidates[..]) :: c.slice.FreeVRAM() < neededMiB
    ensures chosen.Some? ==>
              && chosen.value in old(candidates[..]) && chosen.value.slice.FreeVRAM() >= neededMiB
              && forall c | c in old(candidates[..]) && c.slice.FreeVRAM() >= neededMiB ::
                   chosen.value.slice.FreeVRAM() <= c.slice.FreeVRAM()
  {
    ghost var before := candidates[..];
    SortByFree(candidates);
    ghost var sorted := candidates[..];
    assert forall c :: c in before <==> c in multiset(sorted);
    for i := 0 to candidates.Length
      invariant candidates[..] == sorted
      invariant forall j | 0 <= j < i :: sorted[j].slice.FreeVRAM() < neededMiB
    {
      if candidates[i].slice.FreeVRAM() >= neededMiB {
        assert sorted[i] in multiset(sorted);
        return Some(candidates[i]);
      }
    }
    return None;
  }

  /** The roomiest slice, by a running best. */
  method MostFreeSlice(candidates: array<Candidate>) returns (chosen: Option<Candidate>)
    ensures chosen.None? <==> candidates.Length == 0
    ensures chosen.Some? ==>
              && chosen.value in candidates[..]
              && forall c | c in candidates[..] :: c.slice.FreeVRAM() <= chosen.value.slice.FreeVRAM()
  {
    if candidates.Length == 0 {
      return None;
    }
    var best := candidates[0];
    for i := 1 to candidates.Length
      invariant best in candidates[..]
      invariant forall j | 0 <= j < i :: candidates[j].slice.FreeVRAM() <= best.slice.FreeVRAM()
    {
      if candidates[i].slice.FreeVRAM() > best.slice.FreeVRAM() {
        best := candidates[i];
      }
    }
    return Some(best);
  }

  /** The candidates of every healthy node. */
  method CollectCandidates(nodes: seq<GPUNode>, req: ScheduleRequest) returns (candidates: seq<Candidate>)
    ensures forall c :: c in candidates <==>
              && (exists n :: n in nodes && n.report == c.node)
              && c.node.Offers(c.slice, req.vramNeededMiB) && c.affHit == c.node.HasWeights(req.modelName)
  {
    candidates := [];
    for i := 0 to |nodes|
      invariant forall c :: c in candidates <==>
                  && (exists n :: n in nodes[..i] && n.report == c.node)
                  && c.node.Offers(c.slice, req.vramNeededMiB) && c.affHit == c.node.HasWeights(req.modelName)
    {
      var expanded := ExpandNodeForModel(nodes[i].report, req.vramNeededMiB, req.modelName);
      candidates := candidates + expanded;
      assert nodes[..i + 1] == nodes[..i] + [nodes[i]];
    }
    assert nodes[..|nodes|] == nodes;
  }

  /** Splits the candidates by affinity, picks the pool and the mode, and chooses. */
  method Select(ghost v: map<string, Entry>, req: ScheduleRequest, candidates: seq<Candidate>)
      returns (chosen: Option<Candidate>, affinityHit: bool)
    requires |candidates| > 0 && forall c :: c in candidates <==> IsCandidate(v, req, c)
    ensures chosen.Some? && Chosen(v, req, chosen.value) && affinityHit == chosen.value.affHit
  {
    var affinityHits, cold := [], [];
    for i := 0 to |candidates|
      invariant forall c :: c in affinityHits <==> c in candidates[..i] && c.affHit
      invariant forall c :: c in cold <==> c in candidates[..i] && !c.affHit
      invariant |affinityHits| + |cold| == i
    {
      assert candidates[..i + 1] == candidates[..i] + [candidates[i]];
      if candidates[i].affHit {
        affinityHits := affinityHits + [candidates[i]];
      } else {
        cold := cold + [candidates[i]];
      }
    }
    assert candidates[..|candidates|] == candidates;
    affinityHit := |affinityHits| > 0;
    assert affinityHit ==> affinityHits[0] in candidates;
    assert affinityHit <==> AffinityAvailable(v, req);
    var poolItems := if affinityHit then affinityHits else cold;
    hide IsCandidate, AffinityAvailable;
    assert forall c :: c in poolItems <==> InPool(v, req, c);
    var pool := new Candidate[|poolItems|](i requires 0 <= i < |poolItems| => poolItems[i]);
    assert pool[..] == poolItems && poolItems[0] in poolItems;
    var spreadMode := AnySliceAboveThreshold(candidates);
    assert spreadMode <==> SpreadMode(v, req);
    if spreadMode {
      chosen := MostFreeSlice(pool);
    } else {
      assert forall c | c in poolItems :: c.slice.FreeVRAM() >= req.vramNeededMiB by { PoolFits(v, req); }
      chosen := LeastFitSlice(pool, req.vramNeededMiB);
    }
  }

  lemma PoolFits(v: map<string, Entry>, req: ScheduleRequest)
    ensures forall c | InPool(v, req, c) :: c.slice.FreeVRAM() >= req.vramNeededMiB
  {
  }

  method Schedule(registry: NodeRegistry, req: ScheduleRequest) returns (r: Result<ScheduleDecision, ScheduleError>)
    requires registry.Valid()
    // it fails exactly when nothing fits, and never because it could not choose
    ensures r == Err(NoHealthyNodes) <==> forall k :: !IsHealthy(registry.View(), k)
    ensures r.Err? <==> forall c :: !IsCandidate(registry.View(), req, c)
    ensures r != Err(CouldNotSelect)
    ensures r.Ok? ==> exists c :: Chosen(registry.View(), req, c) && r.value == DecisionFor(c)
    // a hit is reported if and only if some healthy node that fits has the weights
    ensures r.Ok? ==> (r.value.affinityHit <==> exists k, s :: Suits(registry.View(), req, k, s)
                                                                && req.modelName in registry.View()[k].report.modelWeightAffinity)
    // the decision names a node that fits, and one with the weights if there is any
    ensures r.Ok? ==> exists k, s :: Suits(registry.View(), req, k, s)
                        && var g := registry.View()[k].report;
                           r.value == ScheduleDecision(g.nodeID, g.gpuID, if g.migEnabled then s.sliceID else "", g.migEnabled,
                                                       req.modelName in g.modelWeightAffinity)
  {
    ghost var v := registry.View();
    var nodes := registry.All();
    assert forall k :: IsHealthy(v, k) <==> k in HealthyKeys(v);
    if |nodes| == 0 {
      return Err(NoHealthyNodes);
    }
    assert nodes[0] in nodes && IsHealthy(v, nodes[0].report.Key());
    var candidates := CollectCandidates(nodes, req);
    assert forall c :: c in candidates <==> IsCandidate(v, req, c);
    assert registry.View() == v;
    if |candidates| == 0 {
      return Err(NoSliceFits);
    }
    assert IsCandidate(v, req, candidates[0]);
    var chosen, affinityHit := Select(v, req, candidates);
    if chosen.None? {
      return Err(CouldNotSelect);
    }
    var c := chosen.value;
    assert IsHealthy(registry.View(), c.node.Key());
    ChosenMeans(v, req, c);
    assert Suits(registry.View(), req, c.node.Key(), c.slice);
    var sliceID := "";
    if c.node.migEnabled {
      sliceID := c.slice.sliceID;
    }
    return Ok(ScheduleDecision(c.node.nodeID, c.node.gpuID, sliceID, c.node.migEnabled, affinityHit));
  }

  // ---------- Consequences ----------

  /** The choice does not depend on the order the node map is walked in: any two acceptable
      decisions leave the same room behind and agree on AffinityHit. */
  lemma ChoiceIsOrderFree(v: map<string, Entry>, req: ScheduleRequest, c: Candidate, d: Candidate)
    requires Chosen(v, req, c) && Chosen(v, req, d)
    ensures c.slice.FreeVRAM() == d.slice.FreeVRAM()
    ensures DecisionFor(c).affinityHit == DecisionFor(d).affinityHit == AffinityAvailable(v, req)
  {
  }

  /** A positive request can be scheduled exactly when some healthy node's FreeVRAM covers it. */
  lemma SchedulableIffRoom(v: map<string, Entry>, req: ScheduleRequest, room: map<string, int>)
    requires WellKeyed(v) && req.vramNeededMiB > 0
    requires room.Keys == v.Keys && forall k | k in v :: v[k].report.IsFreeVRAM(room[k])
    ensures (exists c :: IsCandidate(v, req, c)) <==> exists k :: IsHealthy(v, k) && room[k] >= req.vramNeededMiB
  {
    if c :| IsCandidate(v, req, c) {
      FreeVRAMDecidesFit(c.node, room[c.node.Key()], req.vramNeededMiB);
    }
    if k :| IsHealthy(v, k) && room[k] >= req.vramNeededMiB {
      var g := v[k].report;
      FreeVRAMDecidesFit(g, room[k], req.vramNeededMiB);
      var s :| g.Offers(s, req.vramNeededMiB);
      assert IsCandidate(v, req, Candidate(g, s, g.HasWeights(req.modelName)));
    }
  }

  /** With one partitioned node, Schedule and BestSliceFor settle for the same amount of room. */
  lemma AgreesWithBestSliceFor(v: map<string, Entry>, req: ScheduleRequest, g: NodeReport, c: Candidate, best: MIGSlice)
    requires v.Keys == {g.Key()} && v[g.Key()].report == g && Chosen(v, req, c)
    requires g.Offers(best, req.vramNeededMiB)
    requires forall s | g.Offers(s, req.vramNeededMiB) :: Better(best, s, SpreadMode(v, req))
    ensures c.slice.FreeVRAM() == best.FreeVRAM()
  {
    var d := Candidate(g, best, g.HasWeights(req.modelName));
    assert IsCandidate(v, req, d);
    assert InPool(v, req, d);
  }
}
