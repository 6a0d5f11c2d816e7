/**
 Runs of the scheduler with everything that may happen between two lock sections: eviction is
 three steps (choose a victim and drop the lock, the callback, clear the slot), and workers
 load and unload models on the cards meanwhile. `vram` records which models a card really holds.
 Source: runner/live_runner/scheduler.py and the requests of runner/live_runner/server.py.
 */
module SchedulerRuns {
  import opened Options
  import opened GpuSlots

  /** A request that `acquire` has granted card `gpu` and that has not been released. */
  datatype Hold = Hold(worker: Worker, gpu: nat)

  /** An eviction whose lock is dropped; `freed` once the callback has returned. */
  datatype Window = Window(victim: Worker, gpu: nat, freed: bool)

  datatype Sys = Sys(slots: seq<Slot>, vram: seq<set<Worker>>, holds: map<int, Hold>, windows: map<int, Window>)

  datatype Step =
    | Acquire(req: int, w: Worker, g: nat, now: int)      // warm reuse or empty card, one lock section
    | AcquireGemma(req: int, now: int)
    | EvictBegin(ev: int, w: Worker, g: nat)              // victim chosen for w, lock dropped
    | EvictCallback(ev: int)                              // evict_cb(victim, gpu) returns
    | EvictEnd(ev: int)                                   // lock retaken, slot cleared
    | Pick(w: Worker, g: nat, now: int)                   // boot-time pick, warm or empty card
    | Release(req: int, now: int)
    | MarkGemma(now: int)
    | Reconcile(infos: seq<Info>, inFlight: Option<int>, now: int)
    | Load(w: Worker, g: nat)                             // worker w puts its model on card g
    | Exit(w: Worker)                                     // worker w's process ends

  predicate Init(s: Sys, gemma: Option<nat>) {
    && (gemma.Some? ==> gemma.value < |s.slots|)
    && |s.vram| == |s.slots|
    && s.holds == map[] && s.windows == map[]
    && (forall i: nat | i < |s.slots| ::
          && s.vram[i] == {}
          && (gemma != Some(i) ==> s.slots[i] == EMPTY_SLOT)
          && (gemma == Some(i) ==> s.slots[i].(lastUsed := 0) == Slot(Some(GEMMA), false, true, 0)))
  }

  /** What the code itself allows, with no assumption on timing. */
  predicate Enabled(s: Sys, gemma: Option<nat>, step: Step) {
    match step
    case Acquire(r, w, g, _) =>
      r !in s.holds && (w == GEMMA ==> gemma.None?) && (Reuses(s.slots, w, g) || Allocates(s.slots, w, gemma, g))
    case AcquireGemma(r, _) => r !in s.holds && gemma.Some?
    case EvictBegin(e, w, g) => e !in s.windows && Evicts(s.slots, w, gemma, true, g)
    case EvictCallback(e) => e in s.windows && !s.windows[e].freed
    case EvictEnd(e) => e in s.windows && s.windows[e].freed
    case Pick(w, g, _) =>
      if exists i | 0 <= i < |s.slots| :: s.slots[i].worker == Some(w) then FirstOf(s.slots, w, g)
      else Allocates(s.slots, w, gemma, g)
    case Release(r, _) => r in s.holds
    case MarkGemma(_) => gemma.Some?
    case Reconcile(_, _, _) => true
    case Load(_, g) => g < |s.slots|
    case Exit(_) => true
  }

  function Apply(s: Sys, gemma: Option<nat>, step: Step): (s': Sys)
    requires WellFormed(s, gemma) && Enabled(s, gemma, step)
    ensures |s'.slots| == |s.slots| && |s'.vram| == |s.vram|
  {
    match step
    case Acquire(r, w, g, now) => s.(slots := s.slots[g := Claimed(w, now)], holds := s.holds[r := Hold(w, g)])
    case AcquireGemma(r, now) =>
      s.(slots := s.slots[gemma.value := s.slots[gemma.value].(lastUsed := now)],
         holds := s.holds[r := Hold(GEMMA, gemma.value)])
    case EvictBegin(e, w, g) => s.(windows := s.windows[e := Window(s.slots[g].worker.value, g, false)])
    case EvictCallback(e) =>
      var x := s.windows[e];
      s.(windows := s.windows[e := x.(freed := true)], vram := s.vram[x.gpu := s.vram[x.gpu] - {x.victim}])
    case EvictEnd(e) => s.(windows := s.windows - {e}, slots := s.slots[s.windows[e].gpu := EMPTY_SLOT])
    case Pick(w, g, now) => s.(slots := s.slots[g := Claimed(w, now).(busy := false)])
    case Release(r, now) =>
      var h := s.holds[r];
      s.(slots := s.slots[h.gpu := ReleasedSlot(s.slots[h.gpu], h.worker, now)], holds := s.holds - {r})
    case MarkGemma(now) => s.(slots := s.slots[gemma.value := Slot(Some(GEMMA), false, true, now)])
    case Reconcile(infos, inFlight, now) => s.(slots := Reconciled(s.slots, infos, inFlight, gemma, now))
    case Load(w, g) => s.(vram := s.vram[g := s.vram[g] + {w}])
    case Exit(w) => s.(vram := seq(|s.vram|, i requires 0 <= i < |s.vram| => s.vram[i] - {w}))
  }

  predicate WellFormed(s: Sys, gemma: Option<nat>) {
    && (gemma.Some? ==> gemma.value < |s.slots|)
    && |s.vram| == |s.slots|
    && ConsistentMap(s.slots)
    && (forall r <- s.holds :: s.holds[r].gpu < |s.slots|)
    && (forall e <- s.windows :: s.windows[e].gpu < |s.slots| && gemma != Some(s.windows[e].gpu))
  }

  /** With no assumption at all every step keeps the map consistent. */
  lemma EveryStepKeepsMapConsistent(s: Sys, gemma: Option<nat>, step: Step)
    requires WellFormed(s, gemma) && Enabled(s, gemma, step)
    ensures WellFormed(Apply(s, gemma, step), gemma)
  {
    match step
    case EvictBegin(_, w, g) => assert g in VictimCards(s.slots, w, gemma, true);
    case Reconcile(infos, inFlight, now) => ReconcileHeals(s.slots, infos, inFlight, gemma, now);
    case _ =>
  }

  /** With no assumption at all: a release by a request whose worker no longer owns the card changes no card, so a
      new holder's card stays busy through it; one by the owner makes that card idle and leaves it warm. */
  lemma ReleaseSparesOthers(s: Sys, gemma: Option<nat>, r: int, now: int)
    requires WellFormed(s, gemma) && r in s.holds
    ensures var g, w, f := s.holds[r].gpu, s.holds[r].worker, Apply(s, gemma, Release(r, now));
            && f.holds == s.holds - {r} && f.vram == s.vram && f.windows == s.windows
            && (s.slots[g].worker != Some(w) ==> f.slots == s.slots)
            && (s.slots[g].worker == Some(w) ==> f.slots == s.slots[g := Slot(Some(w), false, s.slots[g].resident, now)])
  {
  }

  // ----- no co-residency -------------------------------------------------------------

  /** Reports are truthful: a reporter holds VRAM on the cards it names, and a worker that does not
      answer holds none. */
  predicate Truthful(s: Sys, infos: seq<Info>) {
    && (forall j, i: nat | 0 <= j < |infos| && i < |s.vram| && Reports(infos[j], i, |s.slots|) :: infos[j].name in s.vram[i])
    && (forall i | 0 <= i < |s.vram| :: s.vram[i] <= Names(infos))
  }

  predicate InWindow(s: Sys, g: nat) {
    exists e <- s.windows :: s.windows[e].gpu == g
  }

  predicate InFreedWindow(s: Sys, g: nat) {
    exists e <- s.windows :: s.windows[e].gpu == g && s.windows[e].freed
  }

  /** The assumptions of the co-residency result: no card is claimed while an eviction of it is under
      way, a worker loads only where the map places it, and not once an eviction has freed the card, and
      reports are truthful. */
  predicate Disciplined(s: Sys, step: Step) {
    match step
    case Acquire(_, _, g, _) => !InWindow(s, g)
    case Pick(_, g, _) => !InWindow(s, g)
    case Load(w, g) => g < |s.slots| && s.slots[g].worker == Some(w) && !InFreedWindow(s, g)
    case Reconcile(infos, _, _) => Truthful(s, infos)
    case _ => true
  }

  function Owner(s: Slot): set<Worker> {
    if s.worker.Some? then {s.worker.value} else {}
  }

  /** The safety property: a card only ever holds the model of its own slot's worker. */
  predicate NoCoResidency(s: Sys)
    requires |s.vram| == |s.slots|
  {
    forall i | 0 <= i < |s.slots| :: s.vram[i] <= Owner(s.slots[i])
  }

  predicate CoherentWindows(s: Sys)
    requires |s.vram| == |s.slots|
  {
    forall e <- s.windows | s.windows[e].gpu < |s.slots| ::
      && s.slots[s.windows[e].gpu].worker in {None, Some(s.windows[e].victim)}
      && (s.windows[e].freed ==> s.vram[s.windows[e].gpu] == {})
  }

  predicate GemmaPinned(s: Sys, gemma: Option<nat>) {
    gemma.Some? ==> gemma.value < |s.slots| && s.slots[gemma.value].worker == Some(GEMMA)
  }

  predicate Safe(s: Sys, gemma: Option<nat>) {
    && WellFormed(s, gemma) && NoCoResidency(s) && CoherentWindows(s) && GemmaPinned(s, gemma)
  }

  lemma TruthfulReconcileKeepsOwners(s: Sys, gemma: Option<nat>, infos: seq<Info>, inFlight: Option<int>, now: int, i: nat)
    requires Safe(s, gemma) && Truthful(s, infos) && i < |s.slots|
    ensures var t := Reconciled(s.slots, infos, inFlight, gemma, now)[i];
            && (t.worker == s.slots[i].worker
                || (t.worker.None? && s.vram[i] == {} && s.slots[i].worker.value !in Names(infos)))
            && (gemma == Some(i) ==> t.worker == Some(GEMMA))
  {
    assert s.vram[i] <= Owner(s.slots[i]);
    assert Consistent(s.slots[i]);
    var r := LastReporter(infos, i, |s.slots|);
    if r.Some? {
      var j :| 0 <= j < |infos| && Reports(infos[j], i, |s.slots|) && infos[j].name == r.value;
      assert infos[j].name in s.vram[i];
    }
  }

  lemma SafeReconcile(s: Sys, gemma: Option<nat>, infos: seq<Info>, inFlight: Option<int>, now: int)
    requires Safe(s, gemma) && Truthful(s, infos)
    ensures Safe(Apply(s, gemma, Reconcile(infos, inFlight, now)), gemma)
  {
    EveryStepKeepsMapConsistent(s, gemma, Reconcile(infos, inFlight, now));
    var s' := Apply(s, gemma, Reconcile(infos, inFlight, now));
    forall i: nat | i < |s.slots|
      ensures s'.slots[i].worker == s.slots[i].worker || (s'.slots[i].worker.None? && s.vram[i] == {})
      ensures gemma == Some(i) ==> s'.slots[i].worker == Some(GEMMA)
    {
      TruthfulReconcileKeepsOwners(s, gemma, infos, inFlight, now, i);
    }
  }

  lemma SafeStep(s: Sys, gemma: Option<nat>, step: Step)
    requires Safe(s, gemma) && Enabled(s, gemma, step) && Disciplined(s, step)
    ensures Safe(Apply(s, gemma, step), gemma)
  {
    EveryStepKeepsMapConsistent(s, gemma, step);
    match step
    case Reconcile(infos, inFlight, now) => SafeReconcile(s, gemma, infos, inFlight, now);
    case Acquire(_, w, g, _) =>
      assert g in IdleWarmCards(s.slots, w) || g in EmptyCards(s.slots);
    case Pick(w, g, _) =>
      assert s.slots[g].worker == Some(w) || g in EmptyCards(s.slots);
    case EvictBegin(_, w, g) =>
      assert g in VictimCards(s.slots, w, gemma, true);
    case _ =>
  }

  /** A card leaves worker `a` only when `evict_cb(a, card)` has returned or `a` was found gone. */
  lemma HandoverNeedsEviction(s: Sys, gemma: Option<nat>, step: Step, g: nat, a: Worker)
    requires Safe(s, gemma) && Enabled(s, gemma, step) && Disciplined(s, step)
    requires g < |s.slots| && s.slots[g].worker == Some(a)
    requires Apply(s, gemma, step).slots[g].worker != Some(a)
    ensures || (step.EvictEnd? && s.windows[step.ev] == Window(a, g, true))
            || (step.Reconcile? && a !in Names(step.infos))
  {
    match step
    case Reconcile(infos, inFlight, now) => TruthfulReconcileKeepsOwners(s, gemma, infos, inFlight, now, g);
    case _ =>
  }

  // ----- exclusivity -----------------------------------------------------------------

  predicate Holds(s: Sys, g: nat) {
    exists r <- s.holds :: s.holds[r].gpu == g
  }

  /** Every holder's worker answers the poll; gemma's card is pinned and needs no answer. */
  predicate HoldersAnswer(s: Sys, gemma: Option<nat>, infos: seq<Info>) {
    forall r <- s.holds :: gemma == Some(s.holds[r].gpu) || s.holds[r].worker in Names(infos)
  }

  /** Nothing is reported in flight only when no request holds a card, gemma's aside. */
  predicate HoldersCounted(s: Sys, gemma: Option<nat>, inFlight: Option<int>) {
    inFlight == Some(0) ==> forall r <- s.holds :: gemma == Some(s.holds[r].gpu)
  }

  /** The assumptions of the exclusivity result: those above, victims are idle when chosen, workers
      with requests answer the poll and are counted in flight, and no boot pick lands on a busy card. A
      worker may now load wherever one of its requests holds the card. */
  predicate ExclusivelyDisciplined(s: Sys, gemma: Option<nat>, step: Step) {
    match step
    case Load(w, g) => (exists r <- s.holds :: s.holds[r] == Hold(w, g)) || Disciplined(s, step)
    case EvictBegin(_, _, g) => g < |s.slots| && !s.slots[g].busy
    case Pick(w, g, _) => Disciplined(s, step) && g < |s.slots| && !s.slots[g].busy
    case Reconcile(infos, inFlight, _) =>
      Disciplined(s, step) && HoldersAnswer(s, gemma, infos) && HoldersCounted(s, gemma, inFlight)
    case _ => Disciplined(s, step)
  }

  /** One unreleased request per card; a card is busy exactly when it has one; a holder still owns
      its card, which no eviction is touching. Gemma's card only serves gemma, and is not exclusive. */
  predicate Exclusive(s: Sys, gemma: Option<nat>) {
    && (forall r, q | r in s.holds && q in s.holds && s.holds[r].gpu == s.holds[q].gpu && gemma != Some(s.holds[r].gpu) :: r == q)
    && (forall g: nat | g < |s.slots| && gemma != Some(g) :: s.slots[g].busy <==> Holds(s, g))
    && (forall r <- s.holds ::
          && s.holds[r].gpu < |s.slots|
          && s.slots[s.holds[r].gpu].worker == Some(s.holds[r].worker)
          && !InWindow(s, s.holds[r].gpu))
  }

  lemma ExclusiveStep(s: Sys, gemma: Option<nat>, step: Step)
    requires Safe(s, gemma) && Exclusive(s, gemma) && Enabled(s, gemma, step) && ExclusivelyDisciplined(s, gemma, step)
    ensures Disciplined(s, step)
    ensures Exclusive(Apply(s, gemma, step), gemma)
  {
    match step
    case Acquire(r, w, g, now) => ExclusiveAcquire(s, gemma, r, w, g, now);
    case AcquireGemma(r, now) => ExclusiveAcquireGemma(s, gemma, r, now);
    case Release(r, now) => ExclusiveRelease(s, gemma, r, now);
    case _ => ExclusiveWithSameHolds(s, gemma, step);
  }

  lemma ExclusiveAcquire(s: Sys, gemma: Option<nat>, r: int, w: Worker, g: nat, now: int)
    requires Safe(s, gemma) && Exclusive(s, gemma)
    requires Enabled(s, gemma, Acquire(r, w, g, now)) && !InWindow(s, g)
    ensures !s.slots[g].busy && gemma != Some(g)
    ensures Exclusive(Apply(s, gemma, Acquire(r, w, g, now)), gemma)
  {
    var s' := Apply(s, gemma, Acquire(r, w, g, now));
    assert g in IdleWarmCards(s.slots, w) || g in EmptyCards(s.slots);
    assert Consistent(s.slots[g]) && gemma != Some(g) && !Holds(s, g);
    assert s'.holds[r].gpu == g;
    forall h: nat | h < |s.slots| && gemma != Some(h) ensures s'.slots[h].busy <==> Holds(s', h) {
      if h != g {
        KeptHolds(s, s', r, h);
      }
    }
  }

  lemma ExclusiveAcquireGemma(s: Sys, gemma: Option<nat>, r: int, now: int)
    requires Safe(s, gemma) && Exclusive(s, gemma) && Enabled(s, gemma, AcquireGemma(r, now))
    ensures Exclusive(Apply(s, gemma, AcquireGemma(r, now)), gemma)
  {
    var s' := Apply(s, gemma, AcquireGemma(r, now));
    forall h: nat | h < |s.slots| && gemma != Some(h) ensures s'.slots[h].busy <==> Holds(s', h) {
      KeptHolds(s, s', r, h);
    }
  }

  /** Releasing finds the holder's own worker on the card and frees it for the next request. */
  lemma ExclusiveRelease(s: Sys, gemma: Option<nat>, r: int, now: int)
    requires Safe(s, gemma) && Exclusive(s, gemma) && r in s.holds
    ensures var g := s.holds[r].gpu;
            && s.slots[g].worker == Some(s.holds[r].worker)
            && !Apply(s, gemma, Release(r, now)).slots[g].busy
            && (gemma != Some(g) ==> !Holds(Apply(s, gemma, Release(r, now)), g))
    ensures Exclusive(Apply(s, gemma, Release(r, now)), gemma)
  {
    var s' := Apply(s, gemma, Release(r, now));
    var g := s.holds[r].gpu;
    forall h: nat | h < |s.slots| && gemma != Some(h) ensures s'.slots[h].busy <==> Holds(s', h) {
      if h != g {
        KeptHolds(s, s', r, h);
      }
    }
  }

  lemma ExclusiveWithSameHolds(s: Sys, gemma: Option<nat>, step: Step)
    requires Safe(s, gemma) && Exclusive(s, gemma) && Enabled(s, gemma, step) && ExclusivelyDisciplined(s, gemma, step)
    requires !step.Acquire? && !step.AcquireGemma? && !step.Release?
    ensures Disciplined(s, step)
    ensures Exclusive(Apply(s, gemma, step), gemma)
  {
    var s' := Apply(s, gemma, step);
    forall g: nat | g < |s.slots|
      ensures Holds(s, g) ==> s'.slots[g].worker == s.slots[g].worker && !InWindow(s', g)
      ensures gemma != Some(g) ==> (s'.slots[g].busy <==> s.slots[g].busy)
    {
      SameHoldsAt(s, gemma, step, g);
    }
    forall g: nat ensures Holds(s', g) <==> Holds(s, g) {
      assert s'.holds == s.holds;
    }
    forall r <- s'.holds ensures s'.slots[s'.holds[r].gpu].worker == Some(s'.holds[r].worker) && !InWindow(s', s'.holds[r].gpu) {
      assert Holds(s, s.holds[r].gpu);
    }
  }

  lemma SameHoldsAt(s: Sys, gemma: Option<nat>, step: Step, g: nat)
    requires Safe(s, gemma) && Exclusive(s, gemma) && Enabled(s, gemma, step) && ExclusivelyDisciplined(s, gemma, step)
    requires !step.Acquire? && !step.AcquireGemma? && !step.Release? && g < |s.slots|
    ensures var s' := Apply(s, gemma, step);
            && (Holds(s, g) ==> s'.slots[g].worker == s.slots[g].worker && !InWindow(s', g))
            && (gemma != Some(g) ==> (s'.slots[g].busy <==> s.slots[g].busy))
  {
    assert Consistent(s.slots[g]);
    if step.Reconcile? {
      TruthfulReconcileKeepsOwners(s, gemma, step.infos, step.inFlight, step.now, g);
    } else if step.Pick? && step.g == g {
      assert s.slots[g].worker == Some(step.w) || g in EmptyCards(s.slots);
    } else if step.EvictBegin? {
      assert step.g in VictimCards(s.slots, step.w, gemma, true);
    } else if step.EvictEnd? {
      assert InWindow(s, s.windows[step.ev].gpu);
    }
  }

  /** Adding or removing hold `r` changes `Holds` at `r`'s own card only. */
  lemma KeptHolds(s: Sys, s': Sys, r: int, h: nat)
    requires forall q | q != r :: q in s.holds <==> q in s'.holds
    requires forall q <- s.holds | q != r :: s'.holds[q] == s.holds[q]
    requires r in s.holds ==> s.holds[r].gpu != h
    requires r in s'.holds ==> s'.holds[r].gpu != h
    ensures Holds(s, h) <==> Holds(s', h)
  {
    if Holds(s, h) {
      var q :| q in s.holds && s.holds[q].gpu == h;
      assert s'.holds[q].gpu == h;
    }
    if Holds(s', h) {
      var q :| q in s'.holds && s'.holds[q].gpu == h;
      assert s.holds[q].gpu == h;
    }
  }
}
