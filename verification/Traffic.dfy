/** The sliding-window burst detector of scheduler/traffic/traffic_analyzer.go.

    Time is in nanoseconds. Every clock reading is any value not before the last one; event
    timestamps are arbitrary; whether the signal channel has room is up to the environment. */
module Traffic {
  import opened Wrappers

  const WINDOW_SIZE := 300_000_000_000     // 5 min
  const WINDOW_MINUTES := 5.0
  const PREWARM_THRESHOLD_RPM := 5.0

  /** The timestamps later than the cutoff, in order. */
  function After(ts: seq<int>, cutoff: int): seq<int> {
    if ts == [] then []
    else After(ts[..|ts| - 1], cutoff) + (if ts[|ts| - 1] > cutoff then [ts[|ts| - 1]] else [])
  }

  lemma AfterOfAppend(ts: seq<int>, t: int, cutoff: int)
    ensures After(ts + [t], cutoff) == After(ts, cutoff) + (if t > cutoff then [t] else [])
  {
  }

  /** What a window holds, by positions: as many timestamps as there are places with one strictly later than the cutoff,
      and each exactly as often as in the whole list if it is later, else not at all. */
  lemma {:induction false} AfterMeans(ts: seq<int>, cutoff: int, t: int)
    ensures |After(ts, cutoff)| == |Later(ts, cutoff)|
    ensures multiset(After(ts, cutoff))[t] == if t > cutoff then multiset(ts)[t] else 0
  {
    if ts != [] {
      var n := |ts| - 1;
      var init := ts[..n];
      AfterMeans(init, cutoff, t);
      assert ts == init + [ts[n]];
      assert Later(ts, cutoff) == Later(init, cutoff) + (if ts[n] > cutoff then {n} else {});
    }
  }

  ghost function Later(ts: seq<int>, cutoff: int): set<int> {
    set i | 0 <= i < |ts| && ts[i] > cutoff
  }

  /** A window keeps the order: it can be taken piece by piece. */
  lemma {:induction false} AfterSplits(a: seq<int>, b: seq<int>, cutoff: int)
    ensures After(a + b, cutoff) == After(a, cutoff) + After(b, cutoff)
  {
    if b == [] {
      assert a + b == a;
    } else {
      var n := |b| - 1;
      assert (a + b)[..|a + b| - 1] == a + b[..n];
      AfterSplits(a, b[..n], cutoff);
    }
  }

  /** Pruning early loses nothing a later, narrower window would have seen. */
  lemma {:induction false} PruningIsHarmless(ts: seq<int>, early: int, late: int)
    requires early <= late
    ensures After(After(ts, early), late) == After(ts, late)
  {
    if ts != [] {
      var init, last := ts[..|ts| - 1], ts[|ts| - 1];
      PruningIsHarmless(init, early, late);
      if last > early {
        AfterOfAppend(After(init, early), last, late);
      } else {
        assert After(ts, early) == After(init, early) && After(ts, late) == After(init, late);
      }
    }
  }

  /** One attempt to signal a model; sent says whether the channel had room. */
  datatype Attempt = Attempt(modelName: string, at: int, sent: bool)

  /** What one analysis tick found for a model at or above the threshold. */
  datatype Check = Check(modelName: string, checkedAt: int, attempted: bool)

  /** Two attempts for the same model are at least one window apart. */
  ghost predicate Spaced(attempts: seq<Attempt>) {
    forall i, j | 0 <= i < j < |attempts| && attempts[i].modelName == attempts[j].modelName ::
      attempts[j].at - attempts[i].at >= WINDOW_SIZE
  }

  ghost predicate Hot(ts: seq<int>, cutoff: int) {
    |After(ts, cutoff)| >= 25
  }

  /** Hot means 5 requests a minute over the 5 minutes: at least 25 places of the list hold a later timestamp. */
  lemma HotMeans(ts: seq<int>, now: int)
    ensures Hot(ts, now - WINDOW_SIZE) <==> |set i | 0 <= i < |ts| && ts[i] > now - 300_000_000_000| >= 25
  {
    AfterMeans(ts, now - WINDOW_SIZE, 0);
    assert Later(ts, now - WINDOW_SIZE) == set i | 0 <= i < |ts| && ts[i] > now - 300_000_000_000;
  }

  /** prewarmSent holds the time of each model's last attempt. */
  ghost predicate Remembered(attempts: seq<Attempt>, prewarmSent: map<string, int>) {
    && (forall i | 0 <= i < |attempts| ::
          attempts[i].modelName in prewarmSent && attempts[i].at <= prewarmSent[attempts[i].modelName])
    && (forall m | m in prewarmSent :: exists i :: 0 <= i < |attempts| && attempts[i].modelName == m && attempts[i].at == prewarmSent[m])
  }

  lemma RememberOneMore(attempts: seq<Attempt>, prewarmSent: map<string, int>, a: Attempt)
    requires Remembered(attempts, prewarmSent)
    requires a.modelName in prewarmSent ==> prewarmSent[a.modelName] <= a.at
    ensures Remembered(attempts + [a], prewarmSent[a.modelName := a.at])
  {
    var attempts', sent' := attempts + [a], prewarmSent[a.modelName := a.at];
    forall m | m in sent'
      ensures exists i :: 0 <= i < |attempts'| && attempts'[i].modelName == m && attempts'[i].at == sent'[m]
    {
      if m == a.modelName {
        assert attempts'[|attempts|] == a;
      } else {
        var i :| 0 <= i < |attempts| && attempts[i].modelName == m && attempts[i].at == prewarmSent[m];
        assert attempts'[i] == attempts[i];
      }
    }
  }

  /** The models attempted, in order, and the models for which a check led to an attempt. */
  function ModelsOf(attempts: seq<Attempt>): seq<string> {
    if attempts == [] then [] else ModelsOf(attempts[..|attempts| - 1]) + [attempts[|attempts| - 1].modelName]
  }

  function ModelsAttempted(checks: seq<Check>): seq<string> {
    if checks == [] then []
    else ModelsAttempted(checks[..|checks| - 1])
         + (if checks[|checks| - 1].attempted then [checks[|checks| - 1].modelName] else [])
  }

  /** Since `before`, one attempt was made for every check that led to one, and no other. */
  ghost predicate Accounted(before: seq<Attempt>, checks: seq<Check>, now: seq<Attempt>) {
    ModelsOf(now) == ModelsOf(before) + ModelsAttempted(checks)
  }

  /** The check, if it led to an attempt, added one for its model. */
  ghost predicate Adds(before: seq<Attempt>, check: Option<Check>, now: seq<Attempt>) {
    if check.Some? && check.value.attempted
    then now != [] && now[..|now| - 1] == before && now[|now| - 1].modelName == check.value.modelName
         && check.value.checkedAt <= now[|now| - 1].at
    else now == before
  }

  /** Earlier attempts stay as they were, and the new ones were made between from and to. */
  ghost predicate Extends(before: seq<Attempt>, now: seq<Attempt>, from: int, to: int) {
    before <= now && forall i | |before| <= i < |now| :: from <= now[i].at <= to
  }

  lemma ExtendsOneMore(before: seq<Attempt>, mid: seq<Attempt>, now: seq<Attempt>, from: int, was: int, to: int)
    requires Extends(before, mid, from, was) && Extends(mid, now, was, to) && from <= was <= to
    ensures Extends(before, now, from, to)
  {
    assert forall i | 0 <= i < |mid| :: now[i] == mid[i];
  }

  lemma AccountOneMore(before: seq<Attempt>, checks: seq<Check>, made: seq<Attempt>, check: Option<Check>, now: seq<Attempt>)
    requires Accounted(before, checks, made) && Adds(made, check, now)
    ensures Accounted(before, checks + Listed(check), now)
  {
    if check.Some? {
      assert (checks + [check.value])[..|checks|] == checks;
    } else {
      assert checks + [] == checks;
    }
  }

  class TrafficAnalyzer {
    var events: map<string, seq<int>>
    var prewarmSent: map<string, int>
    var clock: int
    ghost var history: map<string, seq<int>>   // every event ever recorded
    ghost var horizon: int                     // nothing after this has been pruned
    ghost var attempts: seq<Attempt>           // every signal attempt ever made

    ghost predicate Valid()
      reads this
    {
      && horizon + WINDOW_SIZE <= clock
      && events.Keys == history.Keys
      && (forall m, c | m in events && c >= horizon :: After(events[m], c) == After(history[m], c))
      && Spaced(attempts) && Remembered(attempts, prewarmSent)
    }

    constructor (now: int)
      ensures Valid() && events == map[] && history == map[] && prewarmSent == map[] && attempts == [] && clock == now
    {
      events, history, prewarmSent, attempts := map[], map[], map[], [];
      clock, horizon := now, now - WINDOW_SIZE;
    }

    /** time.Now(): never earlier than before. */
    method Now() returns (t: int)
      modifies `clock
      ensures t == clock >= old(clock)
    {
      t := *;
      if t < clock {
        t := clock;
      }
      clock := t;
    }

    method RecordEvent(modelName: string, timestamp: int)
      requires Valid()
      modifies `events, `history
      ensures Valid()
      ensures history == old(history)[modelName := (if modelName in old(history) then old(history)[modelName] else []) + [timestamp]]
    {
      var before := if modelName in events then events[modelName] else [];
      ghost var all := if modelName in history then history[modelName] else [];
      events := events[modelName := before + [timestamp]];
      history := history[modelName := all + [timestamp]];
      forall c | c >= horizon
        ensures After(before + [timestamp], c) == After(all + [timestamp], c)
      {
        AfterOfAppend(before, timestamp, c);
        AfterOfAppend(all, timestamp, c);
      }
    }

    /** Signals the model unless it was signalled less than a window ago. */
    method MaybeSignalPrewarm(modelName: string) returns (ghost check: Check)
      requires Valid()
      modifies `prewarmSent, `clock, `attempts
      ensures Valid() && clock >= old(clock)
      ensures check.modelName == modelName && old(clock) <= check.checkedAt <= clock
      ensures check.attempted <==>
                modelName !in old(prewarmSent) || check.checkedAt - old(prewarmSent)[modelName] >= 300_000_000_000
      ensures !check.attempted ==> prewarmSent == old(prewarmSent) && attempts == old(attempts)
      ensures check.attempted ==>
                exists at, sent :: check.checkedAt <= at <= clock
                  && prewarmSent == old(prewarmSent)[modelName := at]
                  && attempts == old(attempts) + [Attempt(modelName, at, sent)]
    {
      var alreadySent := modelName in prewarmSent;
      var t := Now();
      if alreadySent && t - prewarmSent[modelName] < WINDOW_SIZE {
        return Check(modelName, t, false);
      }
      var at := Now();
      prewarmSent := prewarmSent[modelName := at];
      var room: bool := *;   // the non-blocking send succeeds, or the signal is dropped
      RememberOneMore(attempts, old(prewarmSent), Attempt(modelName, at, room));
      attempts := attempts + [Attempt(modelName, at, room)];
      return Check(modelName, t, true);
    }

    method Prune(timestamps: seq<int>, cutoff: int) returns (recent: seq<int>)
      ensures recent == After(timestamps, cutoff)
    {
      recent := [];
      for i := 0 to |timestamps|
        invariant recent == After(timestamps[..i], cutoff)
      {
        assert timestamps[..i + 1][..i] == timestamps[..i];
        if timestamps[i] > cutoff {
          recent := recent + [timestamps[i]];
        }
      }
      assert timestamps[..|timestamps|] == timestamps;
    }

    /** Prunes one model's list; what is left is what its full history has in the window. */
    method PruneModel(model: string, cutoff: int) returns (recent: seq<int>)
      requires Valid() && model in events && horizon == cutoff
      modifies `events
      ensures Valid() && events == old(events)[model := recent] && recent == After(history[model], cutoff)
    {
      recent := Prune(events[model], cutoff);
      assert recent == After(history[model], cutoff);
      forall c | c >= horizon
        ensures After(recent, c) == After(history[model], c)
      {
        PruningIsHarmless(history[model], cutoff, c);
      }
      hide After, Spaced, Remembered;
      events := events[model := recent];
    }

    /** The body of the analysis loop: prune one model's list, then signal it if it is hot. */
    method AnalyzeModel(model: string, cutoff: int) returns (ghost check: Option<Check>)
      requires Valid() && model in events && horizon == cutoff
      modifies `events, `prewarmSent, `clock, `attempts
      ensures Valid() && clock >= old(clock)
      ensures events == old(events)[model := After(history[model], cutoff)]
      ensures check.Some? <==> Hot(history[model], cutoff)
      ensures check.Some? ==> Settled(check.value, model, old(clock), clock, old(prewarmSent))
      ensures Adds(old(attempts), check, attempts) && Extends(old(attempts), attempts, old(clock), clock)
      ensures forall m | m != model ::
                (m in prewarmSent <==> m in old(prewarmSent)) && (m in prewarmSent ==> prewarmSent[m] == old(prewarmSent)[m])
    {
      check := None;
      var recent := PruneModel(model, cutoff);
      hide After, Spaced, Remembered;
      if |recent| == 0 {
        return;
      }
      var rpm := |recent| as real / WINDOW_MINUTES;
      if rpm >= PREWARM_THRESHOLD_RPM {
        ghost var c := MaybeSignalPrewarm(model);
        check := Some(c);
      }
    }

    /** One analysis tick. Afterwards the stored list of every model is exactly its full history within
        the window, and the models checked are exactly those whose full history is hot. */
    method Analyze() returns (cutoff: int, ghost checks: seq<Check>)
      requires Valid()
      modifies this
      ensures Valid() && history == old(history)
      ensures old(clock) <= cutoff + WINDOW_SIZE <= clock
      ensures events.Keys == history.Keys && forall m | m in history :: events[m] == After(history[m], cutoff)
      ensures Checked(checks, history, history.Keys, cutoff)
      ensures forall c | c in checks :: Settled(c, c.modelName, cutoff + WINDOW_SIZE, clock, old(prewarmSent))
      ensures Accounted(old(attempts), checks, attempts)
      ensures Extends(old(attempts), attempts, cutoff + WINDOW_SIZE, clock)
    {
      hide Hot, After, Spaced, Remembered, Checked, AllSettled, Settled, Accounted, Extends, Adds;
      var now := Now();
      cutoff, checks := now - WINDOW_SIZE, [];
      var rest := events.Keys;
      horizon := cutoff;
      ghost var before, all := prewarmSent, history.Keys;
      NothingChecked(attempts, history, cutoff, clock, before);
      assert all - rest == {};
      while rest != {}
        invariant Valid() && history == old(history) && horizon == cutoff && rest <= events.Keys == all
        invariant old(clock) <= cutoff + WINDOW_SIZE <= clock
        invariant forall m | m in all && m !in rest :: events[m] == After(history[m], cutoff)
        invariant forall m | m in rest :: (m in prewarmSent <==> m in before) && (m in before ==> prewarmSent[m] == before[m])
        invariant Checked(checks, history, all - rest, cutoff)
        invariant AllSettled(checks, cutoff + WINDOW_SIZE, clock, before)
        invariant Accounted(old(attempts), checks, attempts)
        invariant Extends(old(attempts), attempts, cutoff + WINDOW_SIZE, clock)
      {
        ghost var pending, was, sent, made := rest, clock, prewarmSent, attempts;
        var model :| model in rest;
        rest := rest - {model};
        ghost var check := AnalyzeModel(model, cutoff);
        assert all - rest == (all - pending) + {model};
        SettleOneMore(checks, cutoff + WINDOW_SIZE, was, clock, before, sent, model, check);
        CheckOneMore(checks, history, all - pending, cutoff, model, check);
        AccountOneMore(old(attempts), checks, made, check, attempts);
        ExtendsOneMore(old(attempts), made, attempts, cutoff + WINDOW_SIZE, was, clock);
        checks := checks + Listed(check);
      }
      assert all - rest == all;
      EndSettled(checks, cutoff + WINDOW_SIZE, clock, before);
    }
  }

  function Listed(check: Option<Check>): seq<Check> {
    if check.Some? then [check.value] else []
  }

  /** The check was made between from and to, and led to an attempt just when the model had not been
      signalled, or not within the last window. */
  ghost predicate Settled(c: Check, modelName: string, from: int, to: int, before: map<string, int>) {
    && c.modelName == modelName && from <= c.checkedAt <= to
    && (c.attempted <==> modelName !in before || c.checkedAt - before[modelName] >= WINDOW_SIZE)
  }

  ghost predicate AllSettled(checks: seq<Check>, from: int, to: int, before: map<string, int>) {
    forall c | c in checks :: Settled(c, c.modelName, from, to, before)
  }

  lemma SettleOneMore(checks: seq<Check>, from: int, was: int, now: int, before: map<string, int>, sent: map<string, int>,
                      model: string, check: Option<Check>)
    requires AllSettled(checks, from, was, before) && from <= was <= now
    requires check.Some? ==> Settled(check.value, model, was, now, sent)
    requires (model in sent <==> model in before) && (model in before ==> sent[model] == before[model])
    ensures AllSettled(checks + Listed(check), from, now, before)
    ensures check.Some? ==> check.value.modelName == model
  {
  }

  lemma EndSettled(checks: seq<Check>, from: int, to: int, before: map<string, int>)
    requires AllSettled(checks, from, to, before)
    ensures forall c | c in checks :: Settled(c, c.modelName, from, to, before)
  {
  }

  lemma NothingChecked(attempts: seq<Attempt>, history: map<string, seq<int>>, cutoff: int, now: int, before: map<string, int>)
    ensures Checked([], history, {}, cutoff) && AllSettled([], cutoff + WINDOW_SIZE, now, before)
    ensures Accounted(attempts, [], attempts) && Extends(attempts, attempts, cutoff + WINDOW_SIZE, now)
  {
  }

  /** Of these models, exactly the hot ones were checked, once each. */
  ghost predicate Checked(checks: seq<Check>, history: map<string, seq<int>>, models: set<string>, cutoff: int) {
    && (forall c | c in checks :: c.modelName in models && c.modelName in history && Hot(history[c.modelName], cutoff))
    && (forall m | m in models && m in history && Hot(history[m], cutoff) :: exists c :: c in checks && c.modelName == m)
    && (forall i, j | 0 <= i < j < |checks| :: checks[i].modelName != checks[j].modelName)
  }

  lemma CheckOneMore(checks: seq<Check>, history: map<string, seq<int>>, models: set<string>, cutoff: int,
                     model: string, check: Option<Check>)
    requires Checked(checks, history, models, cutoff) && model in history && model !in models
    requires check.Some? <==> Hot(history[model], cutoff)
    requires check.Some? ==> check.value.modelName == model
    ensures Checked(checks + Listed(check), history, models + {model}, cutoff)
  {
  }

  // ---------- How often a model can be signalled ----------

  /** The times of the attempts for a model between lo and hi. */
  function TimesOf(attempts: seq<Attempt>, modelName: string, lo: int, hi: int): seq<int> {
    if attempts == [] then []
    else
      var a := attempts[|attempts| - 1];
      TimesOf(attempts[..|attempts| - 1], modelName, lo, hi)
      + (if a.modelName == modelName && lo <= a.at <= hi then [a.at] else [])
  }

  lemma {:induction false} TimesComeFromAttempts(attempts: seq<Attempt>, modelName: string, lo: int, hi: int, t: int)
    requires t in TimesOf(attempts, modelName, lo, hi)
    ensures lo <= t <= hi && exists i :: 0 <= i < |attempts| && attempts[i].modelName == modelName && attempts[i].at == t
  {
    var n := |attempts| - 1;
    if t in TimesOf(attempts[..n], modelName, lo, hi) {
      TimesComeFromAttempts(attempts[..n], modelName, lo, hi, t);
      var i :| 0 <= i < n && attempts[..n][i].modelName == modelName && attempts[..n][i].at == t;
      assert attempts[i] == attempts[..n][i];
    } else {
      assert attempts[n].modelName == modelName && attempts[n].at == t;
    }
  }

  lemma {:induction false} LastIsFar(attempts: seq<Attempt>, modelName: string, lo: int, hi: int)
    requires Spaced(attempts)
    ensures var ts := TimesOf(attempts, modelName, lo, hi);
            ts != [] ==> ts[0] >= lo && ts[|ts| - 1] <= hi && ts[|ts| - 1] - ts[0] >= (|ts| - 1) * WINDOW_SIZE
  {
    if attempts != [] {
      var n := |attempts| - 1;
      var init := TimesOf(attempts[..n], modelName, lo, hi);
      LastIsFar(attempts[..n], modelName, lo, hi);
      if init != [] && TimesOf(attempts, modelName, lo, hi) != init {
        TimesComeFromAttempts(attempts[..n], modelName, lo, hi, init[|init| - 1]);
        var i :| 0 <= i < n && attempts[..n][i].modelName == modelName && attempts[..n][i].at == init[|init| - 1];
        assert attempts[i] == attempts[..n][i];
        assert attempts[n].at - attempts[i].at >= WINDOW_SIZE;
      }
    }
  }

  /** Over any span of length T a model is signalled at most floor(T / 5 min) + 1 times, sent or dropped.
      Spaced is part of TrafficAnalyzer.Valid, so this bounds every run of the analyzer. */
  lemma RateBound(attempts: seq<Attempt>, modelName: string, lo: int, hi: int)
    requires Spaced(attempts) && lo <= hi
    ensures |TimesOf(attempts, modelName, lo, hi)| <= (hi - lo) / 300_000_000_000 + 1
  {
    LastIsFar(attempts, modelName, lo, hi);
    var ts := TimesOf(attempts, modelName, lo, hi);
    if ts != [] {
      assert (|ts| - 1) * WINDOW_SIZE <= hi - lo;
    }
  }

  // ---------- A whole run ----------

  datatype Input = Request(modelName: string, timestamp: int) | Tick

  /** The analyzer loop over any requests and ticks: attempts once made stand, new ones fall within the run, and over any span
      of time each model is signalled at most floor(T / 5 min) + 1 times. */
  method Run(t: TrafficAnalyzer, inputs: seq<Input>)
    requires t.Valid()
    modifies t
    ensures t.Valid() && t.clock >= old(t.clock)
    ensures Extends(old(t.attempts), t.attempts, old(t.clock), t.clock)
    ensures forall m, lo, hi | lo <= hi :: |TimesOf(t.attempts, m, lo, hi)| <= (hi - lo) / 300_000_000_000 + 1
  {
    NothingNew(t.attempts, t.clock);
    hide Extends, TrafficAnalyzer.Valid;
    for n := 0 to |inputs|
      invariant t.Valid() && t.clock >= old(t.clock)
      invariant Extends(old(t.attempts), t.attempts, old(t.clock), t.clock)
    {
      match inputs[n] {
        case Request(m, ts) =>
          t.RecordEvent(m, ts);
        case Tick =>
          ghost var made, was := t.attempts, t.clock;
          var cutoff;
          ghost var checks;
          cutoff, checks := t.Analyze();
          ExtendsLonger(made, t.attempts, cutoff + WINDOW_SIZE, was, t.clock);
          ExtendsOneMore(old(t.attempts), made, t.attempts, old(t.clock), was, t.clock);
      }
    }
    RateOf(t);
  }

  lemma NothingNew(attempts: seq<Attempt>, now: int)
    ensures Extends(attempts, attempts, now, now)
  {
  }

  lemma ExtendsLonger(before: seq<Attempt>, now: seq<Attempt>, from: int, earlier: int, to: int)
    requires Extends(before, now, from, to) && earlier <= from
    ensures Extends(before, now, earlier, to)
  {
  }

  lemma RateOf(t: TrafficAnalyzer)
    requires t.Valid()
    ensures forall m, lo, hi | lo <= hi :: |TimesOf(t.attempts, m, lo, hi)| <= (hi - lo) / 300_000_000_000 + 1
  {
    forall m, lo, hi | lo <= hi
      ensures |TimesOf(t.attempts, m, lo, hi)| <= (hi - lo) / 300_000_000_000 + 1
    {
      RateBound(t.attempts, m, lo, hi);
    }
  }
}
