/**
 Why each assumption of the scheduler's results is there: for every kind of step that is assumed to be
 disciplined, exactly when an undisciplined one does harm, and runs from the initial state in which
 nothing but that goes wrong. Claims inside eviction windows are in `SchedulerSafety`.
 Source: runner/live_runner/scheduler.py.
 */
module SchedulerLimits {
  import opened Options
  import opened GpuSlots
  import opened SchedulerRuns
  import opened SchedulerSafety

  // ----- victims ---------------------------------------------------------------------

  predicate HolderEndsBadly(s: Sys, gemma: Option<nat>, steps: seq<Step>) {
    && Possible(s, gemma, steps) && AllExclusivelyDisciplined(s, gemma, steps)
    && !NoCoResidency(Final(s, gemma, steps))
  }

  /** The victim's own request loads again after the callback, and the late clear forgets it. */
  lemma BusyVictimIsForgotten(s: Sys, gemma: Option<nat>, e: int, r: int, v: Worker, g: nat) returns (steps: seq<Step>)
    requires WellFormed(s, gemma) && g < |s.slots| && e in s.windows && s.windows[e] == Window(v, g, false)
    requires r in s.holds && s.holds[r] == Hold(v, g)
    ensures HolderEndsBadly(s, gemma, steps)
  {
    var a, b, c := EvictCallback(e), Load(v, g), EvictEnd(e);
    EveryStepKeepsMapConsistent(s, gemma, a);
    var s1 := Apply(s, gemma, a);
    EveryStepKeepsMapConsistent(s1, gemma, b);
    var s2 := Apply(s1, gemma, b);
    EveryStepKeepsMapConsistent(s2, gemma, c);
    var f := Apply(s2, gemma, c);
    Extend(s2, gemma, c, []);
    Extend(s1, gemma, b, [c]);
    Extend(s, gemma, a, [b, c]);
    steps := [a, b, c];
    assert [c] + [] == [c] && [b] + [c] == [b, c] && [a] + [b, c] == steps;
    assert steps[1..] == [b, c] && [b, c][1..] == [c];
    assert s1.holds[r] == Hold(v, g);
    assert AllExclusivelyDisciplined(s2, gemma, [c]);
    assert AllExclusivelyDisciplined(s1, gemma, [b, c]);
    assert v in f.vram[g] && !(f.vram[g] <= Owner(f.slots[g]));
  }

  /** Choosing a victim has a bad continuation, disciplined in everything else, exactly when the victim's
      card is busy. */
  lemma EvictionIsUnsafeIffVictimBusy(s: Sys, gemma: Option<nat>, e: int, w: Worker, g: nat)
    requires Safe(s, gemma) && Exclusive(s, gemma) && Enabled(s, gemma, EvictBegin(e, w, g))
    ensures (exists steps :: HolderEndsBadly(Apply(s, gemma, EvictBegin(e, w, g)), gemma, steps)) <==> s.slots[g].busy
  {
    var begin := EvictBegin(e, w, g);
    assert g in VictimCards(s.slots, w, gemma, true);
    EveryStepKeepsMapConsistent(s, gemma, begin);
    var s1 := Apply(s, gemma, begin);
    if s.slots[g].busy {
      assert Holds(s, g);
      var r :| r in s.holds && s.holds[r].gpu == g;
      var steps := BusyVictimIsForgotten(s1, gemma, e, r, s.slots[g].worker.value, g);
      assert HolderEndsBadly(s1, gemma, steps);
    } else {
      ExclusiveStep(s, gemma, begin);
      SafeStep(s, gemma, begin);
      forall steps | Possible(s1, gemma, steps) && AllExclusivelyDisciplined(s1, gemma, steps)
        ensures NoCoResidency(Final(s1, gemma, steps))
      {
        OneRequestPerCard(s1, gemma, steps);
      }
    }
  }

  // ----- loads -----------------------------------------------------------------------

  predicate EndsWithTwo(s: Sys, gemma: Option<nat>, steps: seq<Step>) {
    Possible(s, gemma, steps) && AllDisciplined(s, gemma, steps) && !NoCoResidency(Final(s, gemma, steps))
  }

  /** A load has a bad continuation, disciplined in everything else, exactly when the map does not place
      the worker there or an eviction has already freed the card. */
  lemma LoadIsUnsafeIff(s: Sys, gemma: Option<nat>, w: Worker, g: nat)
    requires Safe(s, gemma) && Enabled(s, gemma, Load(w, g))
    ensures (exists steps :: EndsWithTwo(Apply(s, gemma, Load(w, g)), gemma, steps))
            <==> s.slots[g].worker != Some(w) || InFreedWindow(s, g)
  {
    EveryStepKeepsMapConsistent(s, gemma, Load(w, g));
    var s1 := Apply(s, gemma, Load(w, g));
    assert w in s1.vram[g];
    if s.slots[g].worker != Some(w) {
      assert !(s1.vram[g] <= Owner(s1.slots[g]));
      assert EndsWithTwo(s1, gemma, []);
    } else if InFreedWindow(s, g) {
      var e :| e in s.windows && s.windows[e].gpu == g && s.windows[e].freed;
      ClearedLoad(s1, gemma, e, w, g);
    } else {
      SafeStep(s, gemma, Load(w, g));
      forall steps | Possible(s1, gemma, steps) && AllDisciplined(s1, gemma, steps)
        ensures NoCoResidency(Final(s1, gemma, steps))
      {
        NoTwoModelsOnACard(s1, gemma, steps);
      }
    }
  }

  lemma ClearedLoad(s: Sys, gemma: Option<nat>, e: int, w: Worker, g: nat)
    requires WellFormed(s, gemma) && e in s.windows && s.windows[e].gpu == g && s.windows[e].freed
    requires g < |s.slots| && w in s.vram[g]
    ensures EndsWithTwo(s, gemma, [EvictEnd(e)])
  {
    EveryStepKeepsMapConsistent(s, gemma, EvictEnd(e));
    var f := Apply(s, gemma, EvictEnd(e));
    Extend(s, gemma, EvictEnd(e), []);
    assert [EvictEnd(e)] + [] == [EvictEnd(e)];
    assert !(f.vram[g] <= Owner(f.slots[g]));
  }

  // ----- reports ---------------------------------------------------------------------

  /** The last worker to report a card is its owner, and its owner answers, unless that is pinned gemma. */
  predicate FitsCard(s: Sys, gemma: Option<nat>, infos: seq<Info>, i: nat)
    requires i < |s.slots|
  {
    && LastReporter(infos, i, |s.slots|) in {None, s.slots[i].worker}
    && ((gemma == Some(i) && s.slots[i].worker == Some(GEMMA))
        || (s.slots[i].worker.Some? && s.slots[i].worker.value in Names(infos)))
  }

  /** A reconciliation leaves every model with its card's owner exactly when the reports fit every card
      that holds one. */
  lemma ReconcileIsSafeIffReportsFit(s: Sys, gemma: Option<nat>, infos: seq<Info>, inFlight: Option<int>, now: int)
    requires WellFormed(s, gemma) && NoCoResidency(s)
    ensures NoCoResidency(Apply(s, gemma, Reconcile(infos, inFlight, now)))
            <==> forall i: nat | i < |s.slots| && s.vram[i] != {} :: FitsCard(s, gemma, infos, i)
  {
    var s' := Apply(s, gemma, Reconcile(infos, inFlight, now));
    forall i: nat | i < |s.slots|
      ensures s.vram[i] <= Owner(s'.slots[i]) <==> (s.vram[i] != {} ==> FitsCard(s, gemma, infos, i))
    {
      CardKeepsModelIff(s, gemma, infos, inFlight, now, i);
    }
  }

  lemma CardKeepsModelIff(s: Sys, gemma: Option<nat>, infos: seq<Info>, inFlight: Option<int>, now: int, i: nat)
    requires WellFormed(s, gemma) && NoCoResidency(s) && i < |s.slots|
    ensures s.vram[i] <= Owner(Reconciled(s.slots, infos, inFlight, gemma, now)[i])
            <==> (s.vram[i] != {} ==> FitsCard(s, gemma, infos, i))
  {
    assert s.vram[i] <= Owner(s.slots[i]);
    var r := LastReporter(infos, i, |s.slots|);
    var models := s.vram[i];
    if models != {} {
      assert (forall w :: w !in models) ==> models == {};
      var w :| w in models;
      assert models == {w} == Owner(s.slots[i]);
    }
    if r.Some? {
      var j :| 0 <= j < |infos| && Reports(infos[j], i, |s.slots|) && infos[j].name == r.value;
      assert infos[j].name in Names(infos);
    }
  }

  /** A truthful report keeps exclusivity exactly when holders' workers answer and are counted in flight. */
  lemma ReconcileIsExclusiveIff(s: Sys, gemma: Option<nat>, infos: seq<Info>, inFlight: Option<int>, now: int)
    requires Safe(s, gemma) && Exclusive(s, gemma) && Truthful(s, infos)
    ensures Exclusive(Apply(s, gemma, Reconcile(infos, inFlight, now)), gemma)
            <==> HoldersAnswer(s, gemma, infos) && HoldersCounted(s, gemma, inFlight)
  {
    var step := Reconcile(infos, inFlight, now);
    var s' := Apply(s, gemma, step);
    if HoldersAnswer(s, gemma, infos) && HoldersCounted(s, gemma, inFlight) {
      ExclusiveStep(s, gemma, step);
    } else if Exclusive(s', gemma) {
      var r :| r in s.holds && gemma != Some(s.holds[r].gpu)
        && (s.holds[r].worker !in Names(infos) || inFlight == Some(0));
      var g := s.holds[r].gpu;
      assert s'.holds[r].gpu == g && Holds(s', g);
      SilentHolderIsFreed(s, gemma, infos, inFlight, now, g);
    }
  }

  lemma SilentHolderIsFreed(s: Sys, gemma: Option<nat>, infos: seq<Info>, inFlight: Option<int>, now: int, g: nat)
    requires Safe(s, gemma) && Truthful(s, infos) && g < |s.slots| && gemma != Some(g)
    ensures var t := Reconciled(s.slots, infos, inFlight, gemma, now)[g];
            && (s.slots[g].worker.Some? && s.slots[g].worker.value !in Names(infos) ==> t.worker == None)
            && (inFlight == Some(0) ==> !t.busy)
  {
    TruthfulReconcileKeepsOwners(s, gemma, infos, inFlight, now, g);
    assert Consistent(s.slots[g]);
  }

  // ----- boot picks ------------------------------------------------------------------

  /** A boot pick outside eviction windows keeps exclusivity exactly when the card it lands on is idle. */
  lemma PickIsExclusiveIffIdle(s: Sys, gemma: Option<nat>, w: Worker, g: nat, now: int)
    requires Safe(s, gemma) && Exclusive(s, gemma) && Enabled(s, gemma, Pick(w, g, now))
    requires !InWindow(s, g) && gemma != Some(g)
    ensures Exclusive(Apply(s, gemma, Pick(w, g, now)), gemma) <==> !s.slots[g].busy
  {
    assert s.slots[g].worker == Some(w) || g in EmptyCards(s.slots);
    var s' := Apply(s, gemma, Pick(w, g, now));
    if s.slots[g].busy {
      assert Holds(s, g);
      var r :| r in s.holds && s.holds[r].gpu == g;
      assert s'.holds[r].gpu == g && Holds(s', g) && !s'.slots[g].busy;
    } else {
      ExclusiveStep(s, gemma, Pick(w, g, now));
    }
  }

  // ----- runs from the initial state -------------------------------------------------

  predicate AllClaimsOutside(s: Sys, gemma: Option<nat>, steps: seq<Step>)
    requires Possible(s, gemma, steps)
    decreases |steps|
  {
    steps != [] ==>
      && (IsClaim(steps[0]) ==> !InWindow(s, steps[0].g))
      && AllClaimsOutside(Apply(s, gemma, steps[0]), gemma, steps[1..])
  }

  lemma {:induction false} PathIsRun(states: seq<Sys>, gemma: Option<nat>, steps: seq<Step>)
    requires Path(states, gemma, steps) && WellFormed(states[|steps|], gemma)
    requires forall i | 0 <= i < |steps| && IsClaim(steps[i]) :: !InWindow(states[i], steps[i].g)
    ensures Possible(states[0], gemma, steps) && Final(states[0], gemma, steps) == states[|steps|]
    ensures AllClaimsOutside(states[0], gemma, steps)
    decreases |steps|
  {
    if steps != [] {
      assert Leads(states[0], gemma, steps[0], states[1]);
      forall i | 0 <= i < |steps| - 1 ensures Leads(states[1..][i], gemma, steps[1..][i], states[1..][i + 1]) {
        assert Leads(states[i + 1], gemma, steps[i + 1], states[i + 2]);
      }
      PathIsRun(states[1..], gemma, steps[1..]);
    }
  }

  lemma TwoModels(s: Sys)
    requires |s.slots| == |s.vram| == 1 && s.vram[0] == HELD && s.slots[0].worker != Some("a")
    ensures !NoCoResidency(s)
  {
    assert "a" in s.vram[0] && !(s.vram[0] <= Owner(s.slots[0]));
  }

  const HELD: set<Worker> := {"a"}
  const TAKEN := map[1 := Hold("a", 0)]

  function BusyVictimSteps(): seq<Step> {
    [Acquire(1, "a", 0, 1), EvictBegin(7, "b", 0), EvictCallback(7), Load("a", 0), EvictEnd(7)]
  }

  function BusyVictimStates(): seq<Sys> {
    var c := Claimed("a", 1);
    [ONE_CARD,
     Sys([c], [NOTHING], TAKEN, map[]),
     Sys([c], [NOTHING], TAKEN, map[7 := OPEN]),
     Sys([c], [NOTHING], TAKEN, map[7 := OPEN.(freed := true)]),
     Sys([c], [HELD], TAKEN, map[7 := OPEN.(freed := true)]),
     Sys([EMPTY_SLOT], [HELD], TAKEN, map[])]
  }

  lemma BusyVictimLeads(i: nat)
    requires i < 5
    ensures Leads(BusyVictimStates()[i], None, BusyVictimSteps()[i], BusyVictimStates()[i + 1])
  {
    var c := Claimed("a", 1);
    OneCardPolicy();
    assert IdleWarmCards([c], "b") == EmptyCards([c]) == {} && 0 in VictimCards([c], "b", None, true);
    var s, step, t := BusyVictimStates()[i], BusyVictimSteps()[i], BusyVictimStates()[i + 1];
    var f := Apply(s, None, step);
    assert NOTHING - {"a"} == NOTHING && NOTHING + {"a"} == HELD;
    assert f.slots == t.slots;
    assert f.vram == t.vram;
    assert f.holds == t.holds;
    assert f.windows == t.windows;
  }

  /** One card and no claim inside a window: a busy victim loads again while its card is being taken. */
  lemma BusyVictimBreaksCoResidency()
    ensures var steps := BusyVictimSteps();
            && Init(ONE_CARD, None) && Possible(ONE_CARD, None, steps) && AllClaimsOutside(ONE_CARD, None, steps)
            && !NoCoResidency(Final(ONE_CARD, None, steps))
  {
    BusyVictimPath();
    PathIsRun(BusyVictimStates(), None, BusyVictimSteps());
    TwoModels(BusyVictimStates()[5]);
  }

  lemma BusyVictimPath()
    ensures Path(BusyVictimStates(), None, BusyVictimSteps()) && WellFormed(BusyVictimStates()[5], None)
    ensures forall i | 0 <= i < 5 && IsClaim(BusyVictimSteps()[i]) :: !InWindow(BusyVictimStates()[i], BusyVictimSteps()[i].g)
  {
    var t, states := BusyVictimSteps(), BusyVictimStates();
    forall i | 0 <= i < |t| ensures Leads(states[i], None, t[i], states[i + 1]) {
      BusyVictimLeads(i);
    }
    forall i | 0 <= i < |t| && IsClaim(t[i]) ensures !InWindow(states[i], t[i].g) {
      assert states[i].windows == map[];
    }
  }

  function LateLoadSteps(): seq<Step> {
    [Pick("a", 0, 2), EvictBegin(7, "b", 0), EvictCallback(7), EvictEnd(7), Acquire(2, "b", 0, 3), Load("a", 0)]
  }

  function LateLoadStates(): seq<Sys> {
    var held := map[2 := Hold("b", 0)];
    [ONE_CARD,
     Sys([WARM], [NOTHING], map[], map[]),
     Sys([WARM], [NOTHING], map[], map[7 := OPEN]),
     Sys([WARM], [NOTHING], map[], map[7 := OPEN.(freed := true)]),
     Sys([EMPTY_SLOT], [NOTHING], map[], map[]),
     Sys([Claimed("b", 3)], [NOTHING], held, map[]),
     Sys([Claimed("b", 3)], [HELD], held, map[])]
  }

  lemma LateLoadLeads(i: nat)
    requires i < 6
    ensures Leads(LateLoadStates()[i], None, LateLoadSteps()[i], LateLoadStates()[i + 1])
  {
    OneCardPolicy();
    var s, step, t := LateLoadStates()[i], LateLoadSteps()[i], LateLoadStates()[i + 1];
    var f := Apply(s, None, step);
    assert NOTHING - {"a"} == NOTHING && NOTHING + {"a"} == HELD;
    assert f.slots == t.slots;
    assert f.vram == t.vram;
    assert f.holds == t.holds;
    assert f.windows == t.windows;
  }

  /** One card, an idle victim and no claim inside a window: a worker that picked the card at boot finishes
      loading after the card went to another. */
  lemma LateBootLoadBreaksCoResidency()
    ensures var steps := LateLoadSteps();
            && Init(ONE_CARD, None) && Possible(ONE_CARD, None, steps) && AllClaimsOutside(ONE_CARD, None, steps)
            && !NoCoResidency(Final(ONE_CARD, None, steps))
  {
    LateLoadPath();
    PathIsRun(LateLoadStates(), None, LateLoadSteps());
    TwoModels(LateLoadStates()[6]);
  }

  lemma LateLoadPath()
    ensures Path(LateLoadStates(), None, LateLoadSteps()) && WellFormed(LateLoadStates()[6], None)
    ensures forall i | 0 <= i < 6 && IsClaim(LateLoadSteps()[i]) :: !InWindow(LateLoadStates()[i], LateLoadSteps()[i].g)
  {
    var t, states := LateLoadSteps(), LateLoadStates();
    forall i | 0 <= i < |t| ensures Leads(states[i], None, t[i], states[i + 1]) {
      LateLoadLeads(i);
    }
    forall i | 0 <= i < |t| && IsClaim(t[i]) ensures !InWindow(states[i], t[i].g) {
      assert states[i].windows == map[];
    }
  }
}
