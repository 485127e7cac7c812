/** The scheduler's index of which weights are cached where: scheduler/cache/model_cache.go.

    The Go slices are modelled as what they are, a backing array and a length, so that filtering in
    place, appending into spare capacity and sharing of records by pointer are all visible. What the
    structure means is a map from (model, node, GPU) to one record. */
module ModelCache {
  const AFFINITY_WAIT_THRESHOLD_SEC := 120.0

  datatype Key = Key(modelName: string, nodeID: string, gpuID: string)

  datatype Record = Record(sizeMiB: int, lastUsed: int, downloadDurationSec: real)

  class ModelCacheEntry {
    const key: Key
    const sizeMiB: int
    var lastUsed: int
    var downloadDurationSec: real

    constructor (key: Key, sizeMiB: int, now: int, downloadDur: real)
      ensures this.key == key && Value() == Record(sizeMiB, now, downloadDur)
    {
      this.key, this.sizeMiB, lastUsed, downloadDurationSec := key, sizeMiB, now, downloadDur;
    }

    function Value(): Record
      reads this
    {
      Record(sizeMiB, lastUsed, downloadDurationSec)
    }
  }

  type Backing = array<ModelCacheEntry?>

  /** A Go slice: the first len places of its backing array. */
  datatype Slice = Slice(backing: Backing, len: nat)

  // ---------- What lists and map must agree on ----------

  /** The lists hold exactly the entries of the map, each once, under its own model. */
  ghost predicate Agree(lists: map<string, seq<ModelCacheEntry?>>, contents: map<Key, ModelCacheEntry>) {
    && (forall m, e | m in lists && e in lists[m] :: Listed(e, m, contents))
    && (forall m | m in lists :: Distinct(lists[m]))
    && (forall k | k in contents ::
          contents[k].key == k && k.modelName in lists && contents[k] in lists[k.modelName])
  }

  ghost predicate Listed(e: ModelCacheEntry?, m: string, contents: map<Key, ModelCacheEntry>) {
    e != null && e.key.modelName == m && e.key in contents && contents[e.key] == e
  }

  ghost predicate Distinct(list: seq<ModelCacheEntry?>) {
    forall i, j | 0 <= i < j < |list| :: list[i] != list[j]
  }

  predicate Matches(e: ModelCacheEntry?, nodeID: string, gpuID: string) {
    e != null && e.key.nodeID == nodeID && e.key.gpuID == gpuID
  }

  /** The list without the entries for this node and GPU, in order. */
  ghost function Dropped(list: seq<ModelCacheEntry?>, nodeID: string, gpuID: string): (r: seq<ModelCacheEntry?>)
    ensures |r| <= |list|
  {
    if list == [] then []
    else Dropped(list[..|list| - 1], nodeID, gpuID)
         + (if Matches(list[|list| - 1], nodeID, gpuID) then [] else [list[|list| - 1]])
  }

  lemma {:induction false} DroppedMeans(list: seq<ModelCacheEntry?>, nodeID: string, gpuID: string)
    ensures forall e :: e in Dropped(list, nodeID, gpuID) <==> e in list && !Matches(e, nodeID, gpuID)
    ensures Distinct(list) ==> Distinct(Dropped(list, nodeID, gpuID))
  {
    if list != [] {
      var init, last := list[..|list| - 1], list[|list| - 1];
      DroppedMeans(init, nodeID, gpuID);
      assert list == init + [last];
      var r := Dropped(init, nodeID, gpuID);
      assert forall i | 0 <= i < |r| :: r[i] in r;
      if Distinct(list) && last in r {
        assert false;
      }
    }
  }

  lemma DroppedOfNone(nodeID: string, gpuID: string)
    ensures Dropped([], nodeID, gpuID) == []
  {
  }

  lemma DroppedOneMore(list: seq<ModelCacheEntry?>, i: nat, nodeID: string, gpuID: string)
    requires i < |list|
    ensures Dropped(list[..i + 1], nodeID, gpuID)
         == Dropped(list[..i], nodeID, gpuID) + (if Matches(list[i], nodeID, gpuID) then [] else [list[i]])
  {
    assert list[..i + 1][..i] == list[..i];
  }

  lemma AgreeAfterDrop(lists: map<string, seq<ModelCacheEntry?>>, contents: map<Key, ModelCacheEntry>,
                       nodeID: string, gpuID: string, m: string)
    requires Agree(lists, contents)
    ensures Agree(lists[m := if m in lists then Dropped(lists[m], nodeID, gpuID) else []],
                  contents - {Key(m, nodeID, gpuID)})
    ensures m in lists ==> forall e | e in lists[m] :: e != null
  {
    var k := Key(m, nodeID, gpuID);
    var lists' := lists[m := if m in lists then Dropped(lists[m], nodeID, gpuID) else []];
    if m in lists { DroppedMeans(lists[m], nodeID, gpuID); }
    forall n, e | n in lists' && e in lists'[n]
      ensures Listed(e, n, contents - {k})
    {
      assert Listed(e, n, contents);
    }
    forall j | j in contents && j != k
      ensures contents[j] in lists'[j.modelName]
    {
      assert !Matches(contents[j], nodeID, gpuID) || j.modelName != m;
    }
  }

  lemma AgreeAfterAdd(lists: map<string, seq<ModelCacheEntry?>>, contents: map<Key, ModelCacheEntry>, e: ModelCacheEntry)
    requires Agree(lists, contents) && e.key !in contents
    ensures var m := e.key.modelName;
            Agree(lists[m := (if m in lists then lists[m] else []) + [e]], contents[e.key := e])
  {
    var m := e.key.modelName;
    var list := if m in lists then lists[m] else [];
    assert e !in list;
    assert forall i | 0 <= i < |list| :: list[i] in list;
  }

  lemma SameElsewhere<T>(a: map<string, T>, b: map<string, T>, m: string, x: T)
    requires a.Keys + {m} == b.Keys + {m} && forall n | n in a && n != m :: a[n] == b[n]
    ensures a[m := x] == b[m := x]
  {
  }

  // ---------- The cache ----------

  class ModelCache {
    var entries: map<string, Slice>
    ghost var contents: map<Key, ModelCacheEntry>
    ghost var backings: set<Backing>
    ghost var records: set<ModelCacheEntry>

    /** Every list has a backing array of its own. */
    ghost predicate Separate()
      reads `entries, `backings
    {
      && (forall m | m in entries :: entries[m].backing in backings && entries[m].len <= entries[m].backing.Length)
      && (forall m, n | m in entries && n in entries && m != n :: entries[m].backing != entries[n].backing)
    }

    ghost predicate Recorded()
      reads `contents, `records
    {
      forall k | k in contents :: contents[k] in records && contents[k].key == k
    }

    ghost function Lists(): (lists: map<string, seq<ModelCacheEntry?>>)
      requires Separate()
      reads `entries, `backings, backings
      ensures lists.Keys == entries.Keys
    {
      map m | m in entries :: entries[m].backing[..entries[m].len]
    }

    ghost predicate Valid()
      reads this, backings
    {
      Separate() && Recorded() && Agree(Lists(), contents)
    }

    /** The meaning of the cache: at most one record per model, node and GPU. */
    ghost function View(): map<Key, Record>
      requires Recorded()
      reads `contents, `records, records
    {
      map k | k in contents :: contents[k].Value()
    }

    constructor ()
      ensures Valid() && View() == map[] && fresh(backings) && fresh(records)
    {
      entries, contents, backings, records := map[], map[], {}, {};
    }

    /** The position of the entry for this node and GPU in a model's list, or the length of the list. */
    method Find(nodeID: string, gpuID: string, modelName: string) returns (i: nat)
      requires Valid()
      ensures modelName in entries ==> i <= entries[modelName].len <= entries[modelName].backing.Length
      ensures if Key(modelName, nodeID, gpuID) in contents
              then modelName in entries && i < entries[modelName].len
                   && entries[modelName].backing[i] == contents[Key(modelName, nodeID, gpuID)]
              else modelName in entries ==> i == entries[modelName].len
    {
      i := 0;
      if modelName in entries {
        var s := entries[modelName];
        ghost var list := Lists()[modelName];
        while i < s.len
          invariant i <= s.len
          invariant forall j | 0 <= j < i :: !Matches(list[j], nodeID, gpuID)
        {
          assert list[i] in list;
          if s.backing[i].key.nodeID == nodeID && s.backing[i].key.gpuID == gpuID {
            return;
          }
          i := i + 1;
        }
      }
    }

    /** Go's append: into spare capacity if there is any, else into a larger copy. */
    method Append(s: Slice, e: ModelCacheEntry) returns (s': Slice)
      requires s.len <= s.backing.Length
      modifies s.backing
      ensures s'.len == s.len + 1 <= s'.backing.Length
      ensures s'.backing[..s'.len] == old(s.backing[..s.len]) + [e]
      ensures s'.backing == s.backing || fresh(s'.backing)
    {
      if s.len < s.backing.Length {
        s.backing[s.len] := e;
        return Slice(s.backing, s.len + 1);
      }
      var bigger := new ModelCacheEntry?[2 * s.len + 1](_ => null);
      forall i | 0 <= i < s.len {
        bigger[i] := s.backing[i];
      }
      bigger[s.len] := e;
      return Slice(bigger, s.len + 1);
    }

    /** A new list for a model, in place of the old one if it had one. */
    method SetList(m: string, s: Slice)
      requires Separate() && s.len <= s.backing.Length
      requires forall n | n in entries && n != m :: entries[n].backing != s.backing
      modifies `entries, `backings
      ensures Separate() && entries == old(entries)[m := s] && backings == old(backings) + {s.backing}
      ensures Lists() == old(Lists())[m := s.backing[..s.len]]
    {
      ghost var lists := Lists();
      entries := entries[m := s];
      backings := backings + {s.backing};
      SameElsewhere(lists, Lists(), m, s.backing[..s.len]);
    }

    method Register(nodeID: string, gpuID: string, modelName: string, sizeMiB: int, downloadDur: real, now: int)
      requires Valid()
      modifies this, backings, records
      ensures Valid() && fresh(backings - old(backings)) && fresh(records - old(records))
      ensures var k := Key(modelName, nodeID, gpuID);
              View() == old(View())[k := if k in old(View())
                                         then old(View())[k].(lastUsed := now, downloadDurationSec := downloadDur)
                                         else Record(sizeMiB, now, downloadDur)]
    {
      hide Agree, Matches, Distinct, Listed, ModelCache.Lists, ModelCache.Separate;
      var i := Find(nodeID, gpuID, modelName);
      if modelName in entries && i < entries[modelName].len {
        Refresh(entries[modelName].backing[i], downloadDur, now);
        return;
      }
      assert Key(modelName, nodeID, gpuID) !in View();
      AddRecord(Key(modelName, nodeID, gpuID), sizeMiB, downloadDur, now);
    }

    method AddRecord(key: Key, sizeMiB: int, downloadDur: real, now: int)
      requires Valid() && key !in contents
      modifies this, backings
      ensures Valid() && fresh(backings - old(backings)) && fresh(records - old(records))
      ensures View() == old(View())[key := Record(sizeMiB, now, downloadDur)]
    {
      hide Agree, ModelCache.Lists, ModelCache.Separate;
      var e := new ModelCacheEntry(key, sizeMiB, now, downloadDur);
      AddNew(e);
    }

    method Refresh(e: ModelCacheEntry, downloadDur: real, now: int)
      requires Valid() && e.key in contents && contents[e.key] == e
      modifies e
      ensures Valid()
      ensures View() == old(View())[e.key := old(View())[e.key].(lastUsed := now, downloadDurationSec := downloadDur)]
    {
      hide Agree, ModelCache.Lists, ModelCache.Separate;
      e.lastUsed := now;
      e.downloadDurationSec := downloadDur;
    }

    method AppendTo(m: string, e: ModelCacheEntry)
      requires Separate()
      modifies `entries, `backings, backings
      ensures Separate() && fresh(backings - old(backings))
      ensures Lists() == old(Lists())[m := (if m in old(Lists()) then old(Lists())[m] else []) + [e]]
    {
      ghost var lists := Lists();
      var s;
      if m in entries {
        s := entries[m];
      } else {
        var none := new ModelCacheEntry?[0];
        s := Slice(none, 0);
      }
      var s' := Append(s, e);
      assert forall n | n in entries && n != m :: entries[n].backing != s'.backing && Lists()[n] == lists[n];
      SameElsewhere(Lists(), lists, m, s'.backing[..s'.len]);
      hide ModelCache.Lists;
      SetList(m, s');
    }

    method AddNew(e: ModelCacheEntry)
      requires Valid() && e.key !in contents
      modifies this, backings
      ensures Valid() && fresh(backings - old(backings)) && records == old(records) + {e}
      ensures View() == old(View())[e.key := e.Value()]
    {
      hide Agree, ModelCache.Lists, ModelCache.Separate;
      AgreeAfterAdd(Lists(), contents, e);
      AppendTo(e.key.modelName, e);
      contents := contents[e.key := e];
      records := records + {e};
    }

    /** entries[:0] and append: the survivors are moved to the front of the same array. */
    method DropInPlace(s: Slice, nodeID: string, gpuID: string) returns (kept: nat)
      requires s.len <= s.backing.Length && forall e | e in s.backing[..s.len] :: e != null
      modifies s.backing
      ensures kept <= s.len && s.backing[..kept] == Dropped(old(s.backing[..s.len]), nodeID, gpuID)
    {
      ghost var was := s.backing[..s.len];
      hide Dropped;
      kept := 0;
      DroppedOfNone(nodeID, gpuID);
      assert was[..0] == [];
      for i := 0 to s.len
        invariant kept <= i
        invariant forall j | i <= j < s.len :: s.backing[j] == was[j]
        invariant s.backing[..kept] == Dropped(was[..i], nodeID, gpuID)
      {
        var e := s.backing[i];
        assert e == was[i] && e in was;
        DroppedOneMore(was, i, nodeID, gpuID);
        if e.key.nodeID != nodeID || e.key.gpuID != gpuID {
          s.backing[kept] := e;
          kept := kept + 1;
        }
      }
      assert was[..s.len] == was;
    }

    /** Filters the model's list in place, keeping the order. */
    method DropFrom(m: string, nodeID: string, gpuID: string)
      requires Separate() && (m in entries ==> forall e | e in Lists()[m] :: e != null)
      modifies `entries, `backings, backings
      ensures Separate() && fresh(backings - old(backings))
      ensures Lists() == old(Lists())[m := if m in old(Lists()) then Dropped(old(Lists())[m], nodeID, gpuID) else []]
    {
      ghost var lists := Lists();
      var filtered;
      if m in entries {
        var s := entries[m];
        assert s.backing[..s.len] == lists[m];
        var kept := DropInPlace(s, nodeID, gpuID);
        filtered := Slice(s.backing, kept);
      } else {
        var none := new ModelCacheEntry?[0];
        filtered := Slice(none, 0);
      }
      assert forall n | n in entries && n != m :: entries[n].backing != filtered.backing && Lists()[n] == lists[n];
      SameElsewhere(Lists(), lists, m, filtered.backing[..filtered.len]);
      hide ModelCache.Lists;
      SetList(m, filtered);
    }

    method Evict(nodeID: string, gpuID: string, modelName: string)
      requires Valid()
      modifies this, backings
      ensures Valid() && fresh(backings - old(backings)) && records == old(records)
      ensures View() == old(View()) - {Key(modelName, nodeID, gpuID)}
    {
      hide Agree, ModelCache.Lists, ModelCache.Separate;
      AgreeAfterDrop(Lists(), contents, nodeID, gpuID, modelName);
      DropFrom(modelName, nodeID, gpuID);
      contents := contents - {Key(modelName, nodeID, gpuID)};
    }

    /** A copy of the list: later changes to the cache change the records it points to, never the list. */
    method WarmNodes(modelName: string) returns (result: array<ModelCacheEntry?>)
      requires Valid()
      ensures fresh(result) && result !in backings
      ensures forall e: ModelCacheEntry ::
                e in result[..] <==> e.key in contents && contents[e.key] == e && e.key.modelName == modelName
      ensures Distinct(result[..])
    {
      if modelName !in entries {
        result := new ModelCacheEntry?[0];
        return;
      }
      var s := entries[modelName];
      result := new ModelCacheEntry?[s.len](i requires 0 <= i < s.len <= s.backing.Length reads s.backing => s.backing[i]);
      assert result[..] == Lists()[modelName];
    }

    method ShouldPreferAffinity(modelName: string) returns (prefer: bool)
      requires Valid()
      ensures prefer <==> exists k :: k in View() && k.modelName == modelName
                                      && View()[k].downloadDurationSec >= 120.0
    {
      if modelName !in entries {
        return false;
      }
      var s := entries[modelName];
      ghost var list := Lists()[modelName];
      for i := 0 to s.len
        invariant forall j | 0 <= j < i :: list[j] != null && list[j].downloadDurationSec < AFFINITY_WAIT_THRESHOLD_SEC
      {
        assert list[i] in list;
        if s.backing[i].downloadDurationSec >= AFFINITY_WAIT_THRESHOLD_SEC {
          assert s.backing[i].key in View();
          return true;
        }
      }
      return false;
    }

    method TouchNode(nodeID: string, gpuID: string, modelName: string, now: int)
      requires Valid()
      modifies records
      ensures Valid()
      ensures var k := Key(modelName, nodeID, gpuID);
              View() == if k in old(View()) then old(View())[k := old(View())[k].(lastUsed := now)] else old(View())
    {
      hide Agree;
      var i := Find(nodeID, gpuID, modelName);
      if modelName in entries && i < entries[modelName].len {
        entries[modelName].backing[i].lastUsed := now;
      }
    }
  }

  // ---------- Any sequence of operations ----------

  datatype Op =
    | RegisterOp(key: Key, sizeMiB: int, downloadDur: real, now: int)
    | EvictOp(key: Key)
    | TouchOp(key: Key, now: int)

  /** What an operation does to the map the cache stands for. */
  function OnMap(v: map<Key, Record>, op: Op): map<Key, Record> {
    match op
    case RegisterOp(k, sizeMiB, dur, now) =>
      v[k := if k in v then v[k].(lastUsed := now, downloadDurationSec := dur) else Record(sizeMiB, now, dur)]
    case EvictOp(k) => v - {k}
    case TouchOp(k, now) => if k in v then v[k := v[k].(lastUsed := now)] else v
  }

  function RunOnMap(v: map<Key, Record>, ops: seq<Op>): map<Key, Record> {
    if ops == [] then v else OnMap(RunOnMap(v, ops[..|ops| - 1]), ops[|ops| - 1])
  }

  method Do(cache: ModelCache, op: Op)
    requires cache.Valid()
    modifies cache, cache.backings, cache.records
    ensures cache.Valid() && cache.View() == OnMap(old(cache.View()), op)
    ensures fresh(cache.backings - old(cache.backings)) && fresh(cache.records - old(cache.records))
  {
    hide ModelCache.Separate, ModelCache.Lists, Agree;
    match op
    case RegisterOp(k, sizeMiB, dur, now) => cache.Register(k.nodeID, k.gpuID, k.modelName, sizeMiB, dur, now);
    case EvictOp(k) => cache.Evict(k.nodeID, k.gpuID, k.modelName);
    case TouchOp(k, now) => cache.TouchNode(k.nodeID, k.gpuID, k.modelName, now);
  }

  /** Over any sequence of operations the cache stands for the map they describe. */
  method DoAll(cache: ModelCache, ops: seq<Op>)
    requires cache.Valid()
    modifies cache, cache.backings, cache.records
    ensures cache.Valid() && cache.View() == RunOnMap(old(cache.View()), ops)
    ensures fresh(cache.backings - old(cache.backings)) && fresh(cache.records - old(cache.records))
  {
    ghost var before := cache.View();
    ValidMeansRecorded(cache);
    hide ModelCache.Valid, ModelCache.Recorded, ModelCache.View, OnMap;
    for n := 0 to |ops|
      invariant cache.Valid() && cache.Recorded() && cache.View() == RunOnMap(before, ops[..n])
      invariant fresh(cache.backings - old(cache.backings)) && fresh(cache.records - old(cache.records))
    {
      Do(cache, ops[n]);
      ValidMeansRecorded(cache);
      assert ops[..n + 1][..n] == ops[..n];
    }
    assert ops[..|ops|] == ops;
  }

  /** A list handed out by WarmNodes keeps its membership, whatever is done with the cache after it. */
  method WarmListIsKept(cache: ModelCache, modelName: string, ops: seq<Op>) returns (result: array<ModelCacheEntry?>)
    requires cache.Valid()
    modifies cache, cache.backings, cache.records
    ensures cache.Valid() && fresh(result) && result !in cache.backings
    ensures forall e: ModelCacheEntry :: e in result[..] <==>
              e.key in old(cache.contents) && old(cache.contents)[e.key] == e && e.key.modelName == modelName
  {
    hide ModelCache.Valid;
    result := cache.WarmNodes(modelName);
    ghost var list := result[..];
    DoAll(cache, ops);
    assert result[..] == list;
  }

  lemma ValidMeansRecorded(cache: ModelCache)
    requires cache.Valid()
    ensures cache.Recorded()
  {
  }
}
