/**
 The scheduler's results over whole runs: what every disciplined run keeps, and what hand-overs of
 cards and claims inside eviction windows do to it. Why the other assumptions are there is in
 `SchedulerLimits`.
 Source: runner/live_runner/scheduler.py.
 */
module SchedulerSafety {
  import opened Options
  import opened GpuSlots
  import opened SchedulerRuns

  /** The steps can be taken one after the other from `s`. */
  predicate Possible(s: Sys, gemma: Option<nat>, steps: seq<Step>)
    decreases |steps|
  {
    && WellFormed(s, gemma)
    && (steps != [] ==> Enabled(s, gemma, steps[0]) && Possible(Apply(s, gemma, steps[0]), gemma, steps[1..]))
  }

  function Final(s: Sys, gemma: Option<nat>, steps: seq<Step>): (f: Sys)
    requires Possible(s, gemma, steps)
    ensures WellFormed(f, gemma) && |f.slots| == |s.slots|
    decreases |steps|
  {
    if steps == [] then s else Final(Apply(s, gemma, steps[0]), gemma, steps[1..])
  }

  predicate AllDisciplined(s: Sys, gemma: Option<nat>, steps: seq<Step>)
    requires Possible(s, gemma, steps)
    decreases |steps|
  {
    steps != [] ==> Disciplined(s, steps[0]) && AllDisciplined(Apply(s, gemma, steps[0]), gemma, steps[1..])
  }

  predicate AllExclusivelyDisciplined(s: Sys, gemma: Option<nat>, steps: seq<Step>)
    requires Possible(s, gemma, steps)
    decreases |steps|
  {
    steps != [] ==>
      ExclusivelyDisciplined(s, gemma, steps[0]) && AllExclusivelyDisciplined(Apply(s, gemma, steps[0]), gemma, steps[1..])
  }

  lemma InitIsExclusive(s: Sys, gemma: Option<nat>)
    requires Init(s, gemma)
    ensures Safe(s, gemma) && Exclusive(s, gemma)
  {
    forall i: nat | i < |s.slots| ensures Consistent(s.slots[i]) && !s.slots[i].busy && s.vram[i] == {} {
      assert gemma == Some(i) || s.slots[i] == EMPTY_SLOT;
    }
  }

  /** On every disciplined run no card ever holds a model other than its own slot's worker. */
  lemma {:induction false} NoTwoModelsOnACard(s: Sys, gemma: Option<nat>, steps: seq<Step>)
    requires Safe(s, gemma) && Possible(s, gemma, steps) && AllDisciplined(s, gemma, steps)
    ensures Safe(Final(s, gemma, steps), gemma)
    ensures forall i, w, x | 0 <= i < |s.slots| && w in Final(s, gemma, steps).vram[i] && x in Final(s, gemma, steps).vram[i] :: w == x
    decreases |steps|
  {
    if steps == [] {
      forall i, w, x | 0 <= i < |s.slots| && w in s.vram[i] && x in s.vram[i] ensures w == x {
        assert s.vram[i] <= Owner(s.slots[i]);
      }
    } else {
      SafeStep(s, gemma, steps[0]);
      NoTwoModelsOnACard(Apply(s, gemma, steps[0]), gemma, steps[1..]);
    }
  }

  /** If moreover victims are idle, and so on, every card serves one unreleased request at a time. */
  lemma {:induction false} OneRequestPerCard(s: Sys, gemma: Option<nat>, steps: seq<Step>)
    requires Safe(s, gemma) && Exclusive(s, gemma)
    requires Possible(s, gemma, steps) && AllExclusivelyDisciplined(s, gemma, steps)
    ensures Safe(Final(s, gemma, steps), gemma) && Exclusive(Final(s, gemma, steps), gemma)
    decreases |steps|
  {
    if steps != [] {
      ExclusiveStep(s, gemma, steps[0]);
      SafeStep(s, gemma, steps[0]);
      OneRequestPerCard(Apply(s, gemma, steps[0]), gemma, steps[1..]);
    }
  }

  // ----- the assumptions are needed --------------------------------------------------

  lemma {:induction false} Extend(s: Sys, gemma: Option<nat>, step: Step, rest: seq<Step>)
    requires WellFormed(s, gemma) && Enabled(s, gemma, step) && Possible(Apply(s, gemma, step), gemma, rest)
    ensures Possible(s, gemma, [step] + rest)
    ensures Final(s, gemma, [step] + rest) == Final(Apply(s, gemma, step), gemma, rest)
  {
    assert ([step] + rest)[1..] == rest;
  }

  lemma {:induction false} Concatenate(s: Sys, gemma: Option<nat>, a: seq<Step>, b: seq<Step>)
    requires Possible(s, gemma, a) && Possible(Final(s, gemma, a), gemma, b)
    ensures Possible(s, gemma, a + b)
    ensures Final(s, gemma, a + b) == Final(Final(s, gemma, a), gemma, b)
    decreases |a|
  {
    if a == [] {
      assert a + b == b;
    } else {
      Concatenate(Apply(s, gemma, a[0]), gemma, a[1..], b);
      assert (a + b)[1..] == a[1..] + b;
    }
  }

  function Eviction(e: int, w: Worker, g: nat): seq<Step> {
    [EvictBegin(e, w, g), EvictCallback(e), EvictEnd(e)]
  }

  /** The steps by which a waiting request takes over a warm card, with nothing in between. */
  function Handover(e: int, r: int, w: Worker, g: nat, now: int): seq<Step> {
    Eviction(e, w, g) + [Acquire(r, w, g, now)]
  }

  lemma EvictionIsPossible(s: Sys, gemma: Option<nat>, e: int, w: Worker, g: nat)
    requires WellFormed(s, gemma) && Enabled(s, gemma, EvictBegin(e, w, g))
    ensures Possible(s, gemma, Eviction(e, w, g))
    ensures var f := Final(s, gemma, Eviction(e, w, g));
            f.slots == s.slots[g := EMPTY_SLOT] && f.holds == s.holds && f.windows == s.windows
  {
    var a, b, c := EvictBegin(e, w, g), EvictCallback(e), EvictEnd(e);
    EveryStepKeepsMapConsistent(s, gemma, a);
    var s1 := Apply(s, gemma, a);
    EveryStepKeepsMapConsistent(s1, gemma, b);
    var s2 := Apply(s1, gemma, b);
    EveryStepKeepsMapConsistent(s2, gemma, c);
    var s3 := Apply(s2, gemma, c);
    assert s3.windows == s.windows;
    Extend(s2, gemma, c, []);
    Extend(s1, gemma, b, [c] + []);
    Extend(s, gemma, a, [b] + ([c] + []));
    assert Eviction(e, w, g) == [a] + ([b] + ([c] + []));
  }

  lemma HandoverIsPossible(s: Sys, gemma: Option<nat>, e: int, r: int, w: Worker, g: nat, now: int)
    requires WellFormed(s, gemma) && Enabled(s, gemma, EvictBegin(e, w, g))
    requires r !in s.holds && (w == GEMMA ==> gemma.None?)
    ensures Possible(s, gemma, Handover(e, r, w, g, now))
    ensures var f := Final(s, gemma, Handover(e, r, w, g, now));
            && f.slots == s.slots[g := Claimed(w, now)] && f.holds == s.holds[r := Hold(w, g)] && f.windows == s.windows
  {
    EvictionLeadsToVictim(s.slots, w, gemma, true, g);
    EvictionIsPossible(s, gemma, e, w, g);
    var s3 := Final(s, gemma, Eviction(e, w, g));
    var d := Acquire(r, w, g, now);
    EveryStepKeepsMapConsistent(s3, gemma, d);
    Extend(s3, gemma, d, []);
    assert [d] + [] == [d];
    Concatenate(s, gemma, Eviction(e, w, g), [d]);
    assert s.slots[g := EMPTY_SLOT][g := Claimed(w, now)] == s.slots[g := Claimed(w, now)];
  }

  /** Handing the chosen victim's card over keeps exclusivity exactly when that card was idle. */
  lemma HandoverIsExclusiveIffVictimIdle(s: Sys, gemma: Option<nat>, e: int, r: int, w: Worker, g: nat, now: int)
    requires Safe(s, gemma) && Exclusive(s, gemma)
    requires Enabled(s, gemma, EvictBegin(e, w, g)) && !InWindow(s, g)
    requires r !in s.holds && (w == GEMMA ==> gemma.None?)
    ensures Possible(s, gemma, Handover(e, r, w, g, now))
    ensures Exclusive(Final(s, gemma, Handover(e, r, w, g, now)), gemma) <==> !s.slots[g].busy
  {
    HandoverIsPossible(s, gemma, e, r, w, g, now);
    var f := Final(s, gemma, Handover(e, r, w, g, now));
    assert g in VictimCards(s.slots, w, gemma, true);
    if s.slots[g].busy {
      var q :| q in s.holds && s.holds[q].gpu == g;
      assert f.holds[q].gpu == g && f.holds[r].gpu == g && q != r;
    } else {
      IdleHandoverIsExclusive(s, gemma, r, w, g, now, f);
    }
  }

  lemma IdleHandoverIsExclusive(s: Sys, gemma: Option<nat>, r: int, w: Worker, g: nat, now: int, f: Sys)
    requires Safe(s, gemma) && Exclusive(s, gemma) && r !in s.holds
    requires g < |s.slots| && gemma != Some(g) && !s.slots[g].busy && !InWindow(s, g)
    requires f.slots == s.slots[g := Claimed(w, now)] && f.holds == s.holds[r := Hold(w, g)] && f.windows == s.windows
    ensures Exclusive(f, gemma)
  {
    assert !Holds(s, g);
    assert f.holds[r].gpu == g;
    forall h: nat | h < |s.slots| && gemma != Some(h) ensures f.slots[h].busy <==> Holds(f, h) {
      if h != g {
        KeptHolds(s, f, r, h);
      }
    }
  }

  // ----- claims while an eviction is under way ---------------------------------------

  predicate IsClaim(step: Step) {
    step.Acquire? || step.Pick?
  }

  /** Once `w` has claimed card `g`: `w` loads there while the map places it there, nobody chooses the
      card for a further eviction, and everything else is disciplined. */
  predicate LeavesAlone(s: Sys, step: Step, w: Worker, g: nat) {
    && !(step.EvictBegin? && step.g == g)
    && (Disciplined(s, step) || (step == Load(w, g) && g < |s.slots| && s.slots[g].worker == Some(w)))
  }

  predicate AllLeaveAlone(s: Sys, gemma: Option<nat>, steps: seq<Step>, w: Worker, g: nat)
    requires Possible(s, gemma, steps)
    decreases |steps|
  {
    steps != [] ==>
      LeavesAlone(s, steps[0], w, g) && AllLeaveAlone(Apply(s, gemma, steps[0]), gemma, steps[1..], w, g)
  }

  predicate EndsBadly(s: Sys, gemma: Option<nat>, steps: seq<Step>, w: Worker, g: nat) {
    Possible(s, gemma, steps) && AllLeaveAlone(s, gemma, steps, w, g) && !NoCoResidency(Final(s, gemma, steps))
  }

  lemma NoNewWindow(s: Sys, gemma: Option<nat>, step: Step, g: nat)
    requires WellFormed(s, gemma) && Enabled(s, gemma, step)
    requires !InWindow(s, g) && !(step.EvictBegin? && step.g == g)
    ensures !InWindow(Apply(s, gemma, step), g)
  {
    var s' := Apply(s, gemma, step);
    forall e <- s'.windows ensures s'.windows[e].gpu != g {
      if e in s.windows {
        assert s'.windows[e].gpu == s.windows[e].gpu;
      }
    }
  }

  lemma {:induction false} SafeOutsideWindows(s: Sys, gemma: Option<nat>, steps: seq<Step>, w: Worker, g: nat)
    requires Safe(s, gemma) && !InWindow(s, g)
    requires Possible(s, gemma, steps) && AllLeaveAlone(s, gemma, steps, w, g)
    ensures NoCoResidency(Final(s, gemma, steps))
    decreases |steps|
  {
    if steps != [] {
      assert Disciplined(s, steps[0]);
      SafeStep(s, gemma, steps[0]);
      NoNewWindow(s, gemma, steps[0], g);
      SafeOutsideWindows(Apply(s, gemma, steps[0]), gemma, steps[1..], w, g);
    }
  }

  /** The claimer loads, and the late clear of the open eviction wipes its claim. */
  lemma LoadIsForgotten(s: Sys, gemma: Option<nat>, e: int, w: Worker, g: nat) returns (steps: seq<Step>)
    requires WellFormed(s, gemma) && g < |s.slots| && s.slots[g].worker == Some(w)
    requires e in s.windows && s.windows[e].gpu == g && s.windows[e].freed
    ensures EndsBadly(s, gemma, steps, w, g)
    ensures var f := Final(s, gemma, steps);
            f.slots == s.slots[g := EMPTY_SLOT] && f.vram == s.vram[g := s.vram[g] + {w}] && f.holds == s.holds
  {
    var a, b := Load(w, g), EvictEnd(e);
    EveryStepKeepsMapConsistent(s, gemma, a);
    var s1 := Apply(s, gemma, a);
    EveryStepKeepsMapConsistent(s1, gemma, b);
    var f := Apply(s1, gemma, b);
    Extend(s1, gemma, b, []);
    Extend(s, gemma, a, [b]);
    assert [b] + [] == [b] && [a] + [b] == [a, b] && [a, b][1..] == [b];
    steps := [a, b];
    assert w in f.vram[g] && !(f.vram[g] <= Owner(f.slots[g]));
  }

  lemma ClaimIsForgotten(s: Sys, gemma: Option<nat>, e: int, w: Worker, g: nat) returns (steps: seq<Step>)
    requires WellFormed(s, gemma) && g < |s.slots| && s.slots[g].worker == Some(w)
    requires e in s.windows && s.windows[e].gpu == g
    ensures EndsBadly(s, gemma, steps, w, g)
    ensures var f := Final(s, gemma, steps);
            f.slots == s.slots[g := EMPTY_SLOT] && w in f.vram[g] && f.holds == s.holds
  {
    if s.windows[e].freed {
      steps := LoadIsForgotten(s, gemma, e, w, g);
    } else {
      var a := EvictCallback(e);
      EveryStepKeepsMapConsistent(s, gemma, a);
      var rest := LoadIsForgotten(Apply(s, gemma, a), gemma, e, w, g);
      Extend(s, gemma, a, rest);
      steps := [a] + rest;
      assert steps[1..] == rest;
    }
  }

  /** Of the continuations in which the claimer loads only while the map places it on the card, nobody
      chooses the card for a further eviction, and all else is disciplined, a claim has one that ends in
      a card holding a model the map knows nothing of exactly when an eviction of that card is under way.
      What later evictions and other loads can do is in `SchedulerLimits`. */
  lemma ClaimIsUnsafeIffInWindow(s: Sys, gemma: Option<nat>, claim: Step)
    requires Safe(s, gemma) && Enabled(s, gemma, claim) && IsClaim(claim)
    ensures (exists steps :: EndsBadly(Apply(s, gemma, claim), gemma, steps, claim.w, claim.g))
            <==> InWindow(s, claim.g)
  {
    EveryStepKeepsMapConsistent(s, gemma, claim);
    var g := claim.g;
    assert claim.Acquire? ==> g in IdleWarmCards(s.slots, claim.w) || g in EmptyCards(s.slots);
    assert claim.Pick? ==> s.slots[g].worker == Some(claim.w) || g in EmptyCards(s.slots);
    var s1 := Apply(s, gemma, claim);
    if InWindow(s, g) {
      var e :| e in s.windows && s.windows[e].gpu == g;
      var steps := ClaimIsForgotten(s1, gemma, e, claim.w, g);
      assert EndsBadly(s1, gemma, steps, claim.w, g);
    } else {
      SafeStep(s, gemma, claim);
      NoNewWindow(s, gemma, claim, g);
      forall steps | Possible(s1, gemma, steps) && AllLeaveAlone(s1, gemma, steps, claim.w, g)
        ensures NoCoResidency(Final(s1, gemma, steps))
      {
        SafeOutsideWindows(s1, gemma, steps, claim.w, g);
      }
    }
  }

  /** The states of a run, step by step. */
  predicate Path(states: seq<Sys>, gemma: Option<nat>, steps: seq<Step>) {
    |states| == |steps| + 1
    && forall i | 0 <= i < |steps| :: Leads(states[i], gemma, steps[i], states[i + 1])
  }

  predicate Leads(s: Sys, gemma: Option<nat>, step: Step, t: Sys) {
    WellFormed(s, gemma) && Enabled(s, gemma, step) && Apply(s, gemma, step) == t
  }

  lemma {:induction false} PathThen(states: seq<Sys>, gemma: Option<nat>, steps: seq<Step>, rest: seq<Step>)
    requires Path(states, gemma, steps) && Possible(states[|steps|], gemma, rest)
    ensures Possible(states[0], gemma, steps + rest)
    ensures Final(states[0], gemma, steps + rest) == Final(states[|steps|], gemma, rest)
  {
    if steps == [] {
      assert steps + rest == rest;
    } else {
      assert Leads(states[0], gemma, steps[0], states[1]);
      assert Path(states[1..], gemma, steps[1..]) by {
        forall i | 0 <= i < |steps| - 1 ensures Leads(states[1..][i], gemma, steps[1..][i], states[1..][i + 1]) {
          assert Leads(states[i + 1], gemma, steps[i + 1], states[i + 2]);
        }
      }
      PathThen(states[1..], gemma, steps[1..], rest);
      assert (steps + rest)[1..] == steps[1..] + rest;
    }
  }

  /** Two waiting requests choose the same idle victim; one of them is handed the card while the other's
      eviction is still open. */
  function TwoEvictions(): seq<Step> {
    [Acquire(1, "a", 0, 1), Release(1, 2), EvictBegin(7, "b", 0), EvictBegin(8, "c", 0),
     EvictCallback(7), EvictEnd(7), Acquire(2, "b", 0, 3)]
  }

  const NOTHING: set<Worker> := {}
  const WARM := Slot(Some("a"), false, true, 2)
  const OPEN := Window("a", 0, false)

  function TwoEvictionStates(): seq<Sys> {
    [ONE_CARD,
     Sys([Claimed("a", 1)], [NOTHING], map[1 := Hold("a", 0)], map[]),
     Sys([WARM], [NOTHING], map[], map[]),
     Sys([WARM], [NOTHING], map[], map[7 := OPEN]),
     Sys([WARM], [NOTHING], map[], map[7 := OPEN, 8 := OPEN]),
     Sys([WARM], [NOTHING], map[], map[7 := OPEN.(freed := true), 8 := OPEN]),
     Sys([EMPTY_SLOT], [NOTHING], map[], map[8 := OPEN]),
     Sys([Claimed("b", 3)], [NOTHING], map[2 := Hold("b", 0)], map[8 := OPEN])]
  }

  lemma OneCardPolicy()
    ensures Allocates([EMPTY_SLOT], "a", None, 0) && Allocates([EMPTY_SLOT], "b", None, 0)
    ensures Evicts([WARM], "b", None, true, 0) && Evicts([WARM], "c", None, true, 0)
  {
    assert 0 in EmptyCards([EMPTY_SLOT]);
    assert IdleWarmCards([EMPTY_SLOT], "a") == IdleWarmCards([EMPTY_SLOT], "b") == {};
    assert IdleWarmCards([WARM], "b") == IdleWarmCards([WARM], "c") == EmptyCards([WARM]) == {};
    assert 0 in VictimCards([WARM], "b", None, true) && 0 in VictimCards([WARM], "c", None, true);
  }

  lemma TwoEvictionsLead(i: nat)
    requires i < 7
    ensures Leads(TwoEvictionStates()[i], None, TwoEvictions()[i], TwoEvictionStates()[i + 1])
  {
    OneCardPolicy();
    var s, step, t := TwoEvictionStates()[i], TwoEvictions()[i], TwoEvictionStates()[i + 1];
    var f := Apply(s, None, step);
    assert NOTHING - {"a"} == NOTHING;
    assert f.slots == t.slots;
    assert f.vram == t.vram;
    assert f.holds == t.holds;
    assert f.windows == t.windows;
  }

  /** From the initial state of one card: request 2 of worker b loses its claim to the second clear. */
  lemma LostClaimIsReachable() returns (steps: seq<Step>)
    ensures Init(ONE_CARD, None) && Possible(ONE_CARD, None, steps) && TwoEvictions() <= steps
    ensures var f := Final(ONE_CARD, None, steps);
            f.slots == [EMPTY_SLOT] && "b" in f.vram[0] && f.holds == map[2 := Hold("b", 0)] && !NoCoResidency(f)
  {
    var t, states := TwoEvictions(), TwoEvictionStates();
    forall i | 0 <= i < |t| ensures Leads(states[i], None, t[i], states[i + 1]) {
      TwoEvictionsLead(i);
    }
    var rest := ClaimIsForgotten(states[7], None, 8, "b", 0);
    PathThen(states, None, t, rest);
    steps := t + rest;
  }

  const ONE_CARD := Sys([EMPTY_SLOT], [{}], map[], map[])

  /** From the initial state of one card: a busy victim leaves two unreleased requests on it. */
  lemma TwoRequestsOnOneCard() returns (steps: seq<Step>)
    ensures Init(ONE_CARD, None) && Possible(ONE_CARD, None, steps)
    ensures AllDisciplined(ONE_CARD, None, steps)
    ensures Final(ONE_CARD, None, steps).holds == map[1 := Hold("a", 0), 2 := Hold("b", 0)]
  {
    var a := Acquire(1, "a", 0, 1);
    var s1 := Sys([Claimed("a", 1)], [{}], map[1 := Hold("a", 0)], map[]);
    assert 0 in EmptyCards(ONE_CARD.slots);
    assert IdleWarmCards(ONE_CARD.slots, "a") == {};
    assert Apply(ONE_CARD, None, a) == s1;
    assert IdleWarmCards(s1.slots, "b") == {} && EmptyCards(s1.slots) == {};
    assert 0 in VictimCards(s1.slots, "b", None, true);
    HandoverIsPossible(s1, None, 7, 2, "b", 0, 2);
    var h := Handover(7, 2, "b", 0, 2);
    Extend(ONE_CARD, None, a, h);
    steps := [a] + h;
    assert steps[1..] == h;
    HandoverIsDisciplined(s1, 7, 2, "b", 2);
  }

  /** When the first of two such requests is released, the card stays busy with the second. */
  lemma StaleReleaseKeepsNewHolder(s: Sys, e: int, q: int, r: int, w: Worker, g: nat, now: int, later: int, gemma: Option<nat>)
    requires WellFormed(s, gemma) && Enabled(s, gemma, EvictBegin(e, w, g))
    requires q in s.holds && s.holds[q].gpu == g && s.holds[q].worker != w
    requires r !in s.holds && (w == GEMMA ==> gemma.None?)
    ensures var steps := Handover(e, r, w, g, now) + [Release(q, later)];
            && Possible(s, gemma, steps)
            && var f := Final(s, gemma, steps);
               f.slots == s.slots[g := Slot(Some(w), true, true, now)] && r in f.holds && q !in f.holds
  {
    HandoverIsPossible(s, gemma, e, r, w, g, now);
    var t := Final(s, gemma, Handover(e, r, w, g, now));
    assert t.holds[q] == s.holds[q];
    ReleaseSparesOthers(t, gemma, q, later);
    EveryStepKeepsMapConsistent(t, gemma, Release(q, later));
    Extend(t, gemma, Release(q, later), []);
    assert [Release(q, later)] + [] == [Release(q, later)];
    Concatenate(s, gemma, Handover(e, r, w, g, now), [Release(q, later)]);
  }

  lemma HandoverIsDisciplined(s: Sys, e: int, r: int, w: Worker, now: int)
    requires WellFormed(s, None) && Enabled(s, None, EvictBegin(e, w, 0)) && r !in s.holds && s.windows == map[]
    requires Possible(s, None, Handover(e, r, w, 0, now))
    ensures AllDisciplined(s, None, Handover(e, r, w, 0, now))
  {
    var t := Handover(e, r, w, 0, now);
    var s1 := Apply(s, None, t[0]);
    var s2 := Apply(s1, None, t[1]);
    var s3 := Apply(s2, None, t[2]);
    assert s3.windows == map[] && !InWindow(s3, 0);
    assert t[1..][1..][1..] == [t[3]] && t[1..][1..][0] == t[2] && t[1..][0] == t[1];
    assert AllDisciplined(s3, None, [t[3]]);
    assert AllDisciplined(s2, None, t[1..][1..]);
    assert AllDisciplined(s1, None, t[1..]);
  }
}
