/** The bookkeeping half of the node agent, agent/src/main.rs: which models it reports as loaded,
    per slice and on the flat list, and what a PREWARM or EVICT command does to that. */
module Agent {
  import opened Wrappers
  import opened Registry
  import opened Reconciler

  datatype AgentCommand = AgentCommand(action: string, modelName: string, sliceID: Option<string>)

  /** The Python loader's answer; on success it names the model it loaded. */
  type LoaderReply = Result<string, string>

  // ---------- What the operations mean ----------

  /** The position of the first slice with this ID, or the number of slices if there is none. */
  function Find(slices: seq<MIGSlice>, sid: string): (i: nat)
    ensures i <= |slices|
    ensures forall j | 0 <= j < i :: slices[j].sliceID != sid
    ensures i < |slices| ==> slices[i].sliceID == sid
  {
    if slices == [] || slices[0].sliceID == sid then 0 else 1 + Find(slices[1..], sid)
  }

  /** The models recorded for a slice. */
  function ModelsAt(slices: seq<MIGSlice>, sid: string): set<string> {
    var i := Find(slices, sid);
    if i < |slices| then ToSet(slices[i].loadedModels) else {}
  }

  function WithModel(models: seq<string>, m: string): seq<string> {
    if m in models then models else models + [m]
  }

  function OnSlice(slices: seq<MIGSlice>, sid: string, kind: ActionType, m: string): seq<MIGSlice> {
    var i := Find(slices, sid);
    if i == |slices| || kind == MARK_DEAD then slices
    else
      var before := slices[i].loadedModels;
      slices[i := slices[i].(loadedModels := if kind == PREWARM then WithModel(before, m) else Without(before, m))]
  }

  /** A command touches the slice it names, as a set insertion or removal, and nothing else. */
  lemma OnSliceMeans(slices: seq<MIGSlice>, sid: string, kind: ActionType, m: string, other: string)
    ensures |OnSlice(slices, sid, kind, m)| == |slices|
    ensures forall i | 0 <= i < |slices| ::
              OnSlice(slices, sid, kind, m)[i] == slices[i].(loadedModels := OnSlice(slices, sid, kind, m)[i].loadedModels)
    ensures ModelsAt(OnSlice(slices, sid, kind, m), other)
         == if other != sid || Find(slices, sid) == |slices| || kind == MARK_DEAD then ModelsAt(slices, other)
            else if kind == PREWARM then ModelsAt(slices, sid) + {m}
            else ModelsAt(slices, sid) - {m}
  {
    var slices' := OnSlice(slices, sid, kind, m);
    SameIDsSameFind(slices, slices', other);
    var i := Find(slices, sid);
    if i < |slices| {
      ListToSet(slices[i].loadedModels, m);
      hide Without, WithModel, ToSet;
    }
  }

  lemma ListToSet(models: seq<string>, m: string)
    ensures ToSet(WithModel(models, m)) == ToSet(models) + {m}
    ensures ToSet(Without(models, m)) == ToSet(models) - {m}
  {
    WithoutMeans(models, m);
  }

  /** What a list holds after a model is recorded or dropped; neither makes it hold a model twice. */
  lemma ModelListMeans(models: seq<string>, m: string, x: string)
    ensures x in WithModel(models, m) <==> x == m || x in models
    ensures x in Without(models, m) <==> x != m && x in models
    ensures DuplicateFree(models) ==> DuplicateFree(WithModel(models, m)) && DuplicateFree(Without(models, m))
    ensures models <= WithModel(models, m) && |WithModel(models, m)| == |models| + (if m in models then 0 else 1)
  {
    WithoutMeans(models, m);
  }

  /** No command makes a slice list a model twice. */
  lemma NoSliceListsTwice(slices: seq<MIGSlice>, sid: string, kind: ActionType, m: string)
    requires forall s | s in slices :: DuplicateFree(s.loadedModels)
    ensures forall s | s in OnSlice(slices, sid, kind, m) :: DuplicateFree(s.loadedModels)
  {
    var i := Find(slices, sid);
    if i < |slices| { ModelListMeans(slices[i].loadedModels, m, m); }
  }

  lemma SameIDsSameFind(a: seq<MIGSlice>, b: seq<MIGSlice>, sid: string)
    requires |a| == |b| && forall i | 0 <= i < |a| :: a[i].sliceID == b[i].sliceID
    ensures Find(a, sid) == Find(b, sid)
  {
  }

  // ---------- The agent ----------

  class AgentState {
    var migSlices: seq<MIGSlice>
    var loadedModels: seq<string>

    constructor (migSlices: seq<MIGSlice>, loadedModels: seq<string>)
      ensures this.migSlices == migSlices && this.loadedModels == loadedModels
    {
      this.migSlices, this.loadedModels := migSlices, loadedModels;
    }

    method MarkLoaded(sliceID: Option<string>, modelName: string)
      modifies this
      ensures sliceID.Some? ==>
                loadedModels == old(loadedModels)
                && migSlices == OnSlice(old(migSlices), sliceID.value, PREWARM, modelName)
      ensures sliceID.None? ==>
                migSlices == old(migSlices) && loadedModels == WithModel(old(loadedModels), modelName)
    {
      match sliceID
      case Some(sid) =>
        var i := FindSlice(sid);
        if i < |migSlices| {
          if modelName !in migSlices[i].loadedModels {
            migSlices := migSlices[i := migSlices[i].(loadedModels := migSlices[i].loadedModels + [modelName])];
          }
        }
      case None =>
        if modelName !in loadedModels {
          loadedModels := loadedModels + [modelName];
        }
    }

    method MarkEvicted(sliceID: Option<string>, modelName: string)
      modifies this
      ensures sliceID.Some? ==>
                loadedModels == old(loadedModels)
                && migSlices == OnSlice(old(migSlices), sliceID.value, EVICT, modelName)
      ensures sliceID.None? ==>
                migSlices == old(migSlices) && loadedModels == Without(old(loadedModels), modelName)
    {
      match sliceID
      case Some(sid) =>
        var i := FindSlice(sid);
        if i < |migSlices| {
          var kept := Retain(migSlices[i].loadedModels, modelName);
          migSlices := migSlices[i := migSlices[i].(loadedModels := kept)];
        }
      case None =>
        loadedModels := Retain(loadedModels, modelName);
    }

    method FindSlice(sid: string) returns (i: nat)
      ensures i == Find(migSlices, sid)
    {
      i := 0;
      while i < |migSlices| && migSlices[i].sliceID != sid
        invariant i <= |migSlices| && i <= Find(migSlices, sid)
      {
        i := i + 1;
      }
    }

    /** What the loader says decides what is recorded: after a load, the model its reply names; after an
        eviction, the model that was asked for; after a failure or for any other verb, nothing. */
    method HandleCommand(cmd: AgentCommand, reply: LoaderReply)
      modifies this
      ensures var kind, m := if cmd.action == "PREWARM" then PREWARM else EVICT,
                             if cmd.action == "PREWARM" && reply.Ok? then reply.value else cmd.modelName;
              if reply.Err? || (cmd.action != "PREWARM" && cmd.action != "EVICT") then
                migSlices == old(migSlices) && loadedModels == old(loadedModels)
              else match cmd.sliceID
                case Some(sid) => loadedModels == old(loadedModels) && migSlices == OnSlice(old(migSlices), sid, kind, m)
                case None =>
                  migSlices == old(migSlices)
                  && loadedModels == if kind == PREWARM then WithModel(old(loadedModels), m) else Without(old(loadedModels), m)
    {
      if cmd.action == "PREWARM" {
        match reply
        case Ok(modelName) => MarkLoaded(cmd.sliceID, modelName);
        case Err(_) =>
      } else if cmd.action == "EVICT" {
        match reply
        case Ok(_) => MarkEvicted(cmd.sliceID, cmd.modelName);
        case Err(_) =>
      }
    }
  }

  method Retain(models: seq<string>, m: string) returns (kept: seq<string>)
    ensures kept == Without(models, m)
  {
    kept := [];
    for i := 0 to |models|
      invariant kept == Without(models[..i], m)
    {
      assert models[..i + 1][..i] == models[..i];
      if models[i] != m {
        kept := kept + [models[i]];
      }
    }
    assert models[..|models|] == models;
  }
}
