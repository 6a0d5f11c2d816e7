/**
 The scheduler object itself: slots updated in place by scans and loops, each method proved
 against the policy of `GpuSlots`. The eviction callback is taken to return before anything
 else happens (`SchedulerRuns` drops that); every call to it is appended to `evictions`.
 Source: runner/live_runner/scheduler.py.
 */
module GpuScheduler {
  import opened Options
  import opened GpuSlots

  class GPUSlot {
    const gpuId: nat
    var worker: Option<Worker>
    var busy: bool
    var resident: bool
    var lastUsed: int

    constructor (gpuId: nat)
      ensures this.gpuId == gpuId && View() == EMPTY_SLOT
    {
      this.gpuId := gpuId;
      worker, busy, resident, lastUsed := None, false, false, 0;
    }

    function View(): Slot
      reads this
    {
      Slot(worker, busy, resident, lastUsed)
    }

    method Set(s: Slot)
      modifies this
      ensures View() == s
    {
      worker, busy, resident, lastUsed := s.worker, s.busy, s.resident, s.lastUsed;
    }
  }

  /** What a gemma request gets. */
  datatype GemmaGrant = Granted(gpu: int) | Waits | NoSuchCard

  class Scheduler {
    const gemma: Option<int>
    const slots: seq<GPUSlot>
    var hook: bool                                // evict_cb is wired
    var gemmaEvicted: bool
    ghost var evictions: seq<(Worker, nat)>       // calls made to evict_cb, oldest first

    ghost predicate Valid() {
      forall i | 0 <= i < |slots| :: slots[i].gpuId == i
    }

    /** An index names a card; a negative one counts from the end. */
    predicate IsIndex(i: int) {
      0 <= i + |slots| && i < |slots|
    }

    function At(i: int): (g: int)
      requires IsIndex(i)
      ensures 0 <= g < |slots|
    {
      if i < 0 then i + |slots| else i
    }

    /** Gemma's configured index names a card; the constructor accepts one that does not. */
    predicate HasGemmaCard() {
      gemma.Some? && IsIndex(gemma.value)
    }

    ghost function Map(): (v: seq<Slot>)
      reads this, slots
      ensures |v| == |slots|
    {
      seq(|slots|, i requires 0 <= i < |slots| reads slots => slots[i].View())
    }

    constructor (gpuCount: nat, gemma: Option<int>, now: int)
      ensures Valid() && fresh(slots) && !hook && !gemmaEvicted && evictions == []
      ensures this.gemma == gemma && |slots| == gpuCount
      ensures forall i: nat | i < gpuCount ::
                Map()[i] == if gemma == Some(i) then Slot(Some(GEMMA), false, true, now) else EMPTY_SLOT
    {
      var made: seq<GPUSlot> := [];
      while |made| < gpuCount
        invariant |made| <= gpuCount && fresh(made)
        invariant forall i | 0 <= i < |made| :: made[i].gpuId == i && made[i].View() == EMPTY_SLOT
      {
        var s := new GPUSlot(|made|);
        made := made + [s];
      }
      this.gemma := gemma;
      slots, hook, gemmaEvicted, evictions := made, false, false, [];
      new;
      if gemma.Some? && 0 <= gemma.value < gpuCount {
        slots[gemma.value].Set(Slot(Some(GEMMA), false, true, now));
      }
    }

    // ----- pickers -------------------------------------------------------------------

    method PickIdleWarm(w: Worker) returns (best: GPUSlot?)
      requires Valid()
      ensures best == null <==> IdleWarmCards(Map(), w) == {}
      ensures best != null ==> best in slots && Lru(Map(), IdleWarmCards(Map(), w), best.gpuId)
    {
      best := null;
      for k := 0 to |slots|
        invariant best == null ==> forall i | 0 <= i < k :: !IsIdleWarm(Map()[i], w)
        invariant best != null ==> best in slots && best.gpuId < k && IsIdleWarm(Map()[best.gpuId], w)
        invariant best != null ==> forall i | 0 <= i < k && IsIdleWarm(Map()[i], w) ::
            best.lastUsed < Map()[i].lastUsed || (best.lastUsed == Map()[i].lastUsed && best.gpuId <= i)
      {
        var s := slots[k];
        if s.worker == Some(w) && !s.busy && s.resident {
          if best == null || s.lastUsed < best.lastUsed {
            best := s;
          }
        }
      }
      if best != null {
        assert best.gpuId in IdleWarmCards(Map(), w);
      }
    }

    method PickIdleGpu() returns (best: GPUSlot?)
      requires Valid()
      ensures best == null <==> EmptyCards(Map()) == {}
      ensures best != null ==> best in slots && LowestGemmaLast(EmptyCards(Map()), gemma, best.gpuId)
    {
      best := null;
      for k := 0 to |slots|
        invariant best == null ==> forall i | 0 <= i < k :: !IsEmpty(Map()[i])
        invariant best != null ==> best in slots && best.gpuId < k && IsEmpty(Map()[best.gpuId])
        invariant best != null && gemma == Some(best.gpuId) ==>
                    forall i | 0 <= i < k && IsEmpty(Map()[i]) :: i == best.gpuId
        invariant best != null ==> forall i: nat | i < k && IsEmpty(Map()[i]) && gemma != Some(i) :: best.gpuId <= i
      {
        var s := slots[k];
        if s.worker.None? && !s.resident {
          // sorted by (is gemma's card, gpu id)
          if best == null || (gemma == Some(best.gpuId) && gemma != Some(k)) {
            best := s;
          }
        }
      }
      if best != null {
        assert best.gpuId in EmptyCards(Map());
      }
    }

    method PickLruVictim(exclude: Worker) returns (best: GPUSlot?)
      requires Valid()
      ensures best == null <==> VictimCards(Map(), exclude, gemma, hook) == {}
      ensures best != null ==> best in slots && Lru(Map(), VictimCards(Map(), exclude, gemma, hook), best.gpuId)
    {
      best := null;
      if !hook {
        return;
      }
      for k := 0 to |slots|
        invariant best == null ==> forall i: nat | i < k :: i !in VictimCards(Map(), exclude, gemma, hook)
        invariant best != null ==> best in slots && best.gpuId < k && best.gpuId in VictimCards(Map(), exclude, gemma, hook)
        invariant best != null ==> forall i: nat | i < k && i in VictimCards(Map(), exclude, gemma, hook) ::
            best.lastUsed < Map()[i].lastUsed || (best.lastUsed == Map()[i].lastUsed && best.gpuId <= i)
      {
        var s := slots[k];
        if s.worker.None? || s.worker == Some(exclude) || gemma == Some(s.gpuId) {
          continue;
        }
        if best == null || s.lastUsed < best.lastUsed {
          best := s;
        }
      }
    }

    // ----- map updates ---------------------------------------------------------------

    method Write(slot: GPUSlot, s: Slot)
      requires Valid() && slot in slots
      modifies slot
      ensures Map() == old(Map())[slot.gpuId := s]
    {
      slot.Set(s);
    }

    method Claim(slot: GPUSlot, w: Worker, now: int)
      requires Valid() && slot in slots
      modifies slot
      ensures Map() == old(Map())[slot.gpuId := Slot(Some(w), true, true, now)]
    {
      Write(slot, Slot(Some(w), true, true, now));
    }

    method EvictSlot(slot: GPUSlot, incoming: Worker)
      requires Valid() && slot in slots
      modifies slot, this`evictions
      ensures old(slot.worker) in {None, Some(incoming)} ==> Map() == old(Map()) && evictions == old(evictions)
      ensures old(slot.worker) !in {None, Some(incoming)} ==>
                && Map() == old(Map())[slot.gpuId := EMPTY_SLOT]
                && evictions == old(evictions) + (if old(slot.resident && hook)
                                                  then [(old(slot.worker).value, slot.gpuId)] else [])
    {
      if slot.worker.None? || slot.worker == Some(incoming) {
        return;
      }
      if slot.resident && hook {
        evictions := evictions + [(slot.worker.value, slot.gpuId)];
      }
      Write(slot, EMPTY_SLOT);
    }

    // ----- acquire / release ---------------------------------------------------------

    /** One pass of `acquire` for a request that is not gemma's: `None` means it waits. */
    method Acquire(w: Worker, now: int) returns (r: Option<nat>)
      requires Valid()
      requires w != GEMMA || gemma.None?
      requires ConsistentMap(Map())
      modifies slots, this`evictions
      ensures r.None? <==> old(Blocks(Map(), w, gemma, hook))
      ensures r.None? ==> Map() == old(Map()) && evictions == old(evictions)
      ensures r.Some? ==> r.value < |slots| && Map() == old(Map())[r.value := Slot(Some(w), true, true, now)]
      ensures r.Some? ==> old(Reuses(Map(), w, r.value) || Allocates(Map(), w, gemma, r.value)
                              || Evicts(Map(), w, gemma, hook, r.value))
      ensures r.Some? && old(Evicts(Map(), w, gemma, hook, r.value)) ==>
                evictions == old(evictions) + [(old(Map())[r.value].worker.value, r.value)]
      ensures r.Some? && !old(Evicts(Map(), w, gemma, hook, r.value)) ==> evictions == old(evictions)
    {
      ghost var before := Map();
      ghost var victim: Option<nat> := None;
      while true
        invariant ConsistentMap(Map())
        invariant victim.None? ==> Map() == before && evictions == old(evictions)
        invariant victim.Some? ==>
                    && Evicts(before, w, gemma, hook, victim.value)
                    && Map() == before[victim.value := EMPTY_SLOT]
                    && evictions == old(evictions) + [(before[victim.value].worker.value, victim.value)]
        decreases if victim.None? then 1 else 0
      {
        if victim.Some? {
          EvictionLeadsToVictim(before, w, gemma, hook, victim.value);
        }
        var warm := PickIdleWarm(w);
        if warm != null {
          Claim(warm, w, now);
          return Some(warm.gpuId);
        }
        var idle := PickIdleGpu();
        if idle != null {
          Claim(idle, w, now);
          return Some(idle.gpuId);
        }
        var v := PickLruVictim(w);
        if v == null {
          return None;
        }
        assert Consistent(Map()[v.gpuId]);
        EvictSlot(v, w);
        victim := Some(v.gpuId);
      }
    }

    /** `acquire` for gemma while its card is pinned: no wait unless the card was marked evicted. */
    method AcquireGemma(now: int) returns (r: GemmaGrant)
      requires Valid() && gemma.Some?
      modifies slots, this`gemmaEvicted
      ensures r.NoSuchCard? <==> !HasGemmaCard()
      ensures r.Waits? <==> HasGemmaCard() && old(gemmaEvicted) && old(Map()[At(gemma.value)].worker) !in {None, Some(GEMMA)}
      ensures !r.Granted? ==> Map() == old(Map()) && gemmaEvicted == old(gemmaEvicted)
      ensures r.Granted? ==> !gemmaEvicted && HasGemmaCard() && r.gpu == gemma.value
      ensures r.Granted? && !old(gemmaEvicted) ==>
                Map() == old(Map())[At(gemma.value) := old(Map())[At(gemma.value)].(lastUsed := now)]
      ensures r.Granted? && old(gemmaEvicted) ==>
                Map() == old(Map())[At(gemma.value) := Slot(Some(GEMMA), false, true, now)]
    {
      if !HasGemmaCard() {
        return NoSuchCard;
      }
      var s := slots[At(gemma.value)];
      if !gemmaEvicted {
        Write(s, Slot(s.worker, s.busy, s.resident, now));
        return Granted(gemma.value);
      }
      if s.worker != None && s.worker != Some(GEMMA) {
        return Waits;
      }
      var _ := MarkGemmaLoaded(now);
      return Granted(gemma.value);
    }

    /** False when the configured card does not exist: the source then fails. */
    method MarkGemmaLoaded(now: int) returns (ok: bool)
      requires Valid()
      modifies slots, this`gemmaEvicted
      ensures ok <==> gemma.None? || HasGemmaCard()
      ensures !HasGemmaCard() ==> Map() == old(Map()) && gemmaEvicted == old(gemmaEvicted)
      ensures HasGemmaCard() ==> Map() == old(Map())[At(gemma.value) := Slot(Some(GEMMA), false, true, now)] && !gemmaEvicted
    {
      if gemma.None? {
        return true;
      }
      if !IsIndex(gemma.value) {
        return false;
      }
      Write(slots[At(gemma.value)], Slot(Some(GEMMA), false, true, now));
      gemmaEvicted := false;
      return true;
    }

    /** The boot-time pick: same policy, except that any warm card of `w` is taken, even a busy one,
        and the card is left idle. */
    method PickForWorker(w: Worker, now: int) returns (r: Option<nat>)
      requires Valid()
      requires ConsistentMap(Map())
      modifies slots, this`evictions
      ensures old(exists i :: 0 <= i < |slots| && Map()[i].worker == Some(w)) ==>
                r.Some? && old(FirstOf(Map(), w, r.value)) && evictions == old(evictions)
      ensures old(forall i | 0 <= i < |slots| :: Map()[i].worker != Some(w)) ==>
                && (r.None? <==> old(Blocks(Map(), w, gemma, hook)))
                && (r.Some? ==> old(Allocates(Map(), w, gemma, r.value) || Evicts(Map(), w, gemma, hook, r.value)))
                && (r.Some? && old(Allocates(Map(), w, gemma, r.value)) ==> evictions == old(evictions))
                && (r.Some? && old(Evicts(Map(), w, gemma, hook, r.value)) ==>
                      evictions == old(evictions) + [(old(Map())[r.value].worker.value, r.value)])
      ensures r.None? ==> Map() == old(Map()) && evictions == old(evictions)
      ensures r.Some? ==> r.value < |slots| && Map() == old(Map())[r.value := Slot(Some(w), false, true, now)]
    {
      ghost var before := Map();
      ghost var victim: Option<nat> := None;
      while true
        invariant ConsistentMap(Map())
        invariant victim.None? ==> Map() == before && evictions == old(evictions)
        invariant victim.Some? ==>
                    && (forall i | 0 <= i < |slots| :: before[i].worker != Some(w))
                    && Evicts(before, w, gemma, hook, victim.value)
                    && Map() == before[victim.value := EMPTY_SLOT]
                    && evictions == old(evictions) + [(before[victim.value].worker.value, victim.value)]
        decreases if victim.None? then 1 else 0
      {
        if victim.Some? {
          EvictionLeadsToVictim(before, w, gemma, hook, victim.value);
        }
        var warm := WarmGpuOf(w);
        if warm != null {
          ClaimIdle(warm, w, now);
          return Some(warm.gpuId);
        }
        assert IdleWarmCards(Map(), w) == {};
        var idle := PickIdleGpu();
        if idle != null {
          ClaimIdle(idle, w, now);
          return Some(idle.gpuId);
        }
        var v := PickLruVictim(w);
        if v == null {
          return None;
        }
        assert Consistent(Map()[v.gpuId]);
        EvictSlot(v, w);
        victim := Some(v.gpuId);
      }
    }

    method ClaimIdle(slot: GPUSlot, w: Worker, now: int)
      requires Valid() && slot in slots
      modifies slot
      ensures Map() == old(Map())[slot.gpuId := Slot(Some(w), false, true, now)]
    {
      Claim(slot, w, now);
      Write(slot, Slot(Some(w), false, true, now));
    }

    method WarmGpuOf(w: Worker) returns (best: GPUSlot?)
      requires Valid()
      ensures best == null <==> forall i | 0 <= i < |slots| :: Map()[i].worker != Some(w)
      ensures best != null ==> best in slots && FirstOf(Map(), w, best.gpuId)
    {
      for k := 0 to |slots|
        invariant forall i | 0 <= i < k :: Map()[i].worker != Some(w)
      {
        if slots[k].worker == Some(w) {
          assert Map()[k].worker == Some(w);
          return slots[k];
        }
      }
      return null;
    }

    /** A finished request leaves its model warm; a card that changed hands is left alone. */
    method Release(w: Worker, gpuId: int, now: int)
      requires Valid() && IsIndex(gpuId)
      modifies slots[At(gpuId)]
      ensures old(Map())[At(gpuId)].worker != Some(w) ==> Map() == old(Map())
      ensures old(Map())[At(gpuId)].worker == Some(w) ==>
                Map() == old(Map())[At(gpuId) := Slot(Some(w), false, old(Map())[At(gpuId)].resident, now)]
    {
      var s := slots[At(gpuId)];
      if s.worker != Some(w) {
        return;
      }
      Write(s, Slot(s.worker, false, s.resident, now));
    }

    method Reconcile(infos: seq<Info>, inFlight: Option<int>, now: int)
      requires Valid()
      modifies slots
      ensures Map() == Reconciled(old(Map()), infos, inFlight, gemma, now)
    {
      ghost var v0 := Map();
      if inFlight == Some(0) {
        ClearStaleBusy();
      }
      for j := 0 to |infos|
        invariant forall i: nat | i < |slots| ::
                    Map()[i] == Reported(Unwedged(v0[i], inFlight), LastReporter(infos[..j], i, |slots|), now)
      {
        assert infos[..j + 1][..j] == infos[..j] && infos[..j + 1][j] == infos[j];
        ApplyReport(infos[j], now);
      }
      assert infos[..|infos|] == infos;
      FreeGone(Names(infos));
    }

    method ClearStaleBusy()
      requires Valid()
      modifies slots
      ensures forall i: nat | i < |slots| :: Map()[i] == Unwedged(old(Map())[i], Some(0))
    {
      for k := 0 to |slots|
        invariant forall i: nat | i < |slots| ::
                    Map()[i] == if i < k then Unwedged(old(Map())[i], Some(0)) else old(Map())[i]
      {
        var s := slots[k];
        if s.busy && s.resident {
          Write(s, Slot(s.worker, false, s.resident, s.lastUsed));
        }
      }
    }

    method ApplyReport(info: Info, now: int)
      requires Valid()
      modifies slots
      ensures forall i: nat | i < |slots| ::
                Map()[i] == Reported(old(Map())[i], if Reports(info, i, |slots|) then Some(info.name) else None, now)
    {
      var devs := match info.devices case Some(ds) => ds case None => [info.deviceInUse];
      for d := 0 to |devs|
        invariant forall i: nat | i < |slots| ::
                    Map()[i] == Reported(old(Map())[i], if Int(i) in devs[..d] then Some(info.name) else None, now)
      {
        assert forall x :: x in devs[..d + 1] <==> x in devs[..d] || x == devs[d];
        if InRange(devs[d], |slots|) {
          var s := slots[devs[d].n];
          Write(s, Slot(Some(info.name), s.busy, true, now));
        }
      }
      assert devs[..|devs|] == devs;
    }

    method FreeGone(reachable: set<Worker>)
      requires Valid()
      modifies slots
      ensures forall i: nat | i < |slots| :: Map()[i] == Freed(old(Map())[i], i, reachable, gemma)
    {
      for k := 0 to |slots|
        invariant forall i: nat | i < |slots| ::
                    Map()[i] == if i < k then Freed(old(Map())[i], i, reachable, gemma) else old(Map())[i]
      {
        var s := slots[k];
        if gemma == Some(k) && s.worker == Some(GEMMA) {
          continue;
        }
        if s.worker.Some? && s.worker.value !in reachable {
          Write(s, EMPTY_SLOT);
        }
      }
    }
  }
}
