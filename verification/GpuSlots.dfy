/**
 The GPU map as a value: one `Slot` per card, its position being the card's id.
 Holds the placement policy (which card a request may take), what each map update does
 and what `reconcile` makes of a map, with the lemmas about them.
 Source: runner/live_runner/scheduler.py.
 */
module GpuSlots {
  import opened Options

  type Worker = string

  const GEMMA: Worker := "gemma-worker"

  /** What the scheduler knows of one card; `lastUsed` is a reading of the monotonic clock. */
  datatype Slot = Slot(worker: Option<Worker>, busy: bool, resident: bool, lastUsed: int)

  const EMPTY_SLOT := Slot(None, false, false, 0)

  /** A card has a worker exactly when a model is resident on it, and only a resident card is busy. */
  predicate Consistent(s: Slot) {
    (s.worker.Some? <==> s.resident) && (s.busy ==> s.resident)
  }

  predicate ConsistentMap(v: seq<Slot>) {
    forall i | 0 <= i < |v| :: Consistent(v[i])
  }

  // ----- placement policy ------------------------------------------------------------

  predicate IsIdleWarm(s: Slot, w: Worker) {
    s.worker == Some(w) && !s.busy && s.resident
  }

  predicate IsEmpty(s: Slot) {
    s.worker.None? && !s.resident
  }

  function IdleWarmCards(v: seq<Slot>, w: Worker): set<nat> {
    set i: nat | i < |v| && IsIdleWarm(v[i], w)
  }

  function EmptyCards(v: seq<Slot>): set<nat> {
    set i: nat | i < |v| && IsEmpty(v[i])
  }

  /** Cards that may be taken from another worker: never gemma's, and none without an eviction hook. */
  function VictimCards(v: seq<Slot>, w: Worker, gemma: Option<int>, hook: bool): set<nat> {
    set i: nat | i < |v| && hook && v[i].worker.Some? && v[i].worker != Some(w) && gemma != Some(i)
  }

  /** `g` is the least recently used of `cards`, the lowest id winning a tie. */
  predicate Lru(v: seq<Slot>, cards: set<nat>, g: nat) {
    && g in cards && g < |v|
    && forall i <- cards | i < |v| ::
         v[g].lastUsed < v[i].lastUsed || (v[g].lastUsed == v[i].lastUsed && g <= i)
  }

  /** `g` is the lowest of `cards`, gemma's card being taken only when it is the only one. */
  predicate LowestGemmaLast(cards: set<nat>, gemma: Option<int>, g: nat) {
    && g in cards
    && (gemma == Some(g) ==> cards == {g})
    && forall i <- cards | gemma != Some(i) :: g <= i
  }

  predicate Reuses(v: seq<Slot>, w: Worker, g: nat) {
    Lru(v, IdleWarmCards(v, w), g)
  }

  predicate Allocates(v: seq<Slot>, w: Worker, gemma: Option<int>, g: nat) {
    IdleWarmCards(v, w) == {} && LowestGemmaLast(EmptyCards(v), gemma, g)
  }

  predicate Evicts(v: seq<Slot>, w: Worker, gemma: Option<int>, hook: bool, g: nat) {
    IdleWarmCards(v, w) == {} && EmptyCards(v) == {} && Lru(v, VictimCards(v, w, gemma, hook), g)
  }

  /** No placement rule applies, so the request waits. */
  predicate Blocks(v: seq<Slot>, w: Worker, gemma: Option<int>, hook: bool) {
    IdleWarmCards(v, w) == {} && EmptyCards(v) == {} && VictimCards(v, w, gemma, hook) == {}
  }

  /** `g` is the first card of `w`, busy or not: what a boot-time pick reuses. */
  predicate FirstOf(v: seq<Slot>, w: Worker, g: nat) {
    g < |v| && v[g].worker == Some(w) && forall i | 0 <= i < g :: v[i].worker != Some(w)
  }

  function Claimed(w: Worker, now: int): Slot {
    Slot(Some(w), true, true, now)
  }

  function ReleasedSlot(s: Slot, w: Worker, now: int): Slot {
    if s.worker == Some(w) then s.(busy := false, lastUsed := now) else s
  }

  /** The three rules card by card. A warm card is the idle one of the worker that was used longest ago; an
      empty card is the lowest, gemma's being the last resort; a victim is another worker's card, never
      gemma's, that was used longest ago. Equal times go to the lower card. */
  lemma PlacementRules(v: seq<Slot>, w: Worker, gemma: Option<int>, hook: bool, g: nat)
    requires g < |v|
    ensures Reuses(v, w, g) <==>
              && v[g].worker == Some(w) && !v[g].busy && v[g].resident
              && forall i: nat | i < |v| && v[i].worker == Some(w) && !v[i].busy && v[i].resident ::
                   v[g].lastUsed < v[i].lastUsed || (v[g].lastUsed == v[i].lastUsed && g <= i)
    ensures Allocates(v, w, gemma, g) <==>
              && (forall i: nat | i < |v| :: !(v[i].worker == Some(w) && !v[i].busy && v[i].resident))
              && v[g].worker == None && !v[g].resident
              && forall i: nat | i < |v| && i != g && v[i].worker == None && !v[i].resident ::
                   gemma != Some(g) && (gemma == Some(i) || g < i)
    ensures Evicts(v, w, gemma, hook, g) <==>
              && (forall i: nat | i < |v| :: !(v[i].worker == Some(w) && !v[i].busy && v[i].resident))
              && (forall i: nat | i < |v| :: !(v[i].worker == None && !v[i].resident))
              && hook && v[g].worker != None && v[g].worker != Some(w) && gemma != Some(g)
              && forall i: nat | i < |v| && v[i].worker != None && v[i].worker != Some(w) && gemma != Some(i) ::
                   v[g].lastUsed < v[i].lastUsed || (v[g].lastUsed == v[i].lastUsed && g <= i)
  {
    var warm, empty, victims := IdleWarmCards(v, w), EmptyCards(v), VictimCards(v, w, gemma, hook);
    assert forall i: nat | i < |v| :: i in warm <==> v[i].worker == Some(w) && !v[i].busy && v[i].resident;
    assert forall i: nat | i < |v| :: i in empty <==> v[i].worker == None && !v[i].resident;
    assert forall i: nat | i < |v| ::
        i in victims <==> hook && v[i].worker != None && v[i].worker != Some(w) && gemma != Some(i);
    assert warm == {} <==> forall i: nat | i < |v| :: i !in warm;
    assert empty == {} <==> forall i: nat | i < |v| :: i !in empty;
    LowestRule(empty, gemma, g, |v|);
  }

  lemma LowestRule(cards: set<nat>, gemma: Option<int>, g: nat, count: nat)
    requires forall i <- cards :: i < count
    ensures LowestGemmaLast(cards, gemma, g)
            <==> g in cards && forall i: nat | i < count && i != g && i in cards ::
                   gemma != Some(g) && (gemma == Some(i) || g < i)
  {
    if g in cards && forall i: nat | i < count && i != g && i in cards :: gemma != Some(g) && (gemma == Some(i) || g < i) {
      if gemma == Some(g) {
        assert cards == {g};
      }
    }
  }

  /** A request waits exactly when it is queueing behind its own worker: every card but gemma's
      runs a request of `w`, and gemma's card is neither empty nor an idle copy of `w`. */
  lemma BlocksOnlyBehindItself(v: seq<Slot>, w: Worker, gemma: Option<int>)
    requires ConsistentMap(v)
    ensures Blocks(v, w, gemma, true) <==>
            && (forall i: nat | i < |v| && gemma != Some(i) :: v[i].worker == Some(w) && v[i].busy)
            && (gemma.Some? && 0 <= gemma.value < |v| ==>
                  !IsEmpty(v[gemma.value]) && !IsIdleWarm(v[gemma.value], w))
  {
    if Blocks(v, w, gemma, true) {
      forall i: nat | i < |v| ensures !IsEmpty(v[i]) && !IsIdleWarm(v[i], w) {
        assert i !in EmptyCards(v) && i !in IdleWarmCards(v, w);
      }
      forall i: nat | i < |v| && gemma != Some(i) ensures v[i].worker == Some(w) && v[i].busy {
        assert i !in VictimCards(v, w, gemma, true);
      }
    } else if i :| i in IdleWarmCards(v, w) || i in EmptyCards(v) || i in VictimCards(v, w, gemma, true) {
      assert Consistent(v[i]);
    }
  }

  /** The policy never leaves a choice open: the rules are exclusive and each names one card. */
  lemma PlacementIsUnique(v: seq<Slot>, w: Worker, gemma: Option<int>, hook: bool, g: nat, h: nat)
    requires Reuses(v, w, g) || Allocates(v, w, gemma, g) || Evicts(v, w, gemma, hook, g)
    requires Reuses(v, w, h) || Allocates(v, w, gemma, h) || Evicts(v, w, gemma, hook, h)
    ensures g == h && !Blocks(v, w, gemma, hook)
  {
    if Allocates(v, w, gemma, g) {
      assert g in EmptyCards(v) && h in EmptyCards(v);
    }
  }

  /** Once the chosen victim's card is cleared, the request finds that very card and no other. */
  lemma EvictionLeadsToVictim(v: seq<Slot>, w: Worker, gemma: Option<int>, hook: bool, g: nat)
    requires Evicts(v, w, gemma, hook, g)
    ensures Allocates(v[g := EMPTY_SLOT], w, gemma, g)
  {
    var v' := v[g := EMPTY_SLOT];
    forall i: nat | i < |v| ensures !IsIdleWarm(v'[i], w) && (i != g ==> !IsEmpty(v'[i])) {
      assert i !in IdleWarmCards(v, w) && i !in EmptyCards(v);
    }
    assert EmptyCards(v') == {g};
  }

  // ----- reconciliation --------------------------------------------------------------

  /** One entry of a worker's reported device list: an int, or anything else (dropped). */
  datatype Json = Int(n: int) | Other

  /** What a worker's /info says of its cards: a `devices` list, or one `device_in_use`. */
  datatype Info = Info(name: Worker, devices: Option<seq<Json>>, deviceInUse: Json)

  predicate InRange(d: Json, count: nat) {
    d.Int? && 0 <= d.n < count
  }

  predicate Reports(info: Info, i: nat, count: nat) {
    i < count &&
    match info.devices
    case Some(ds) => Int(i) in ds
    case None => info.deviceInUse == Int(i)
  }

  /** The last entry reporting card `i`, or -1. */
  function LastReport(infos: seq<Info>, i: nat, count: nat): (j: int)
    ensures -1 <= j < |infos|
    ensures j >= 0 ==> Reports(infos[j], i, count)
    ensures forall h | j < h < |infos| :: !Reports(infos[h], i, count)
  {
    if infos == [] then -1
    else if Reports(infos[|infos| - 1], i, count) then |infos| - 1
    else LastReport(infos[..|infos| - 1], i, count)
  }

  /** The worker that ends up owning card `i`: the last one reporting it. */
  function LastReporter(infos: seq<Info>, i: nat, count: nat): (r: Option<Worker>)
    ensures r.Some? <==> exists j | 0 <= j < |infos| :: Reports(infos[j], i, count)
    ensures r.Some? ==> exists j | 0 <= j < |infos| :: Reports(infos[j], i, count) && infos[j].name == r.value
  {
    var j := LastReport(infos, i, count);
    if j < 0 then None else Some(infos[j].name)
  }

  function Names(infos: seq<Info>): set<Worker> {
    set x <- infos :: x.name
  }

  /** Step 1: with nothing in flight every resident busy mark is stale. */
  function Unwedged(s: Slot, inFlight: Option<int>): Slot {
    if inFlight == Some(0) && s.busy && s.resident then s.(busy := false) else s
  }

  /** Step 2: the last worker to report a card owns it. */
  function Reported(s: Slot, reporter: Option<Worker>, now: int): Slot {
    match reporter
    case None => s
    case Some(w) => s.(worker := Some(w), resident := true, lastUsed := now)
  }

  /** Step 3: the cards of unreachable workers are freed, gemma's own card excepted. */
  function Freed(s: Slot, i: nat, reachable: set<Worker>, gemma: Option<int>): Slot {
    if gemma == Some(i) && s.worker == Some(GEMMA) then s
    else if s.worker.Some? && s.worker.value !in reachable then EMPTY_SLOT
    else s
  }

  function ReconciledSlot(s: Slot, i: nat, count: nat, infos: seq<Info>, inFlight: Option<int>,
                          gemma: Option<int>, now: int): Slot {
    Freed(Reported(Unwedged(s, inFlight), LastReporter(infos, i, count), now), i, Names(infos), gemma)
  }

  function Reconciled(v: seq<Slot>, infos: seq<Info>, inFlight: Option<int>,
                      gemma: Option<int>, now: int): (r: seq<Slot>)
    ensures |r| == |v|
  {
    seq(|v|, i requires 0 <= i < |v| => ReconciledSlot(v[i], i, |v|, infos, inFlight, gemma, now))
  }

  /** After reconciling, every owner but pinned gemma is reachable, every reported card belongs to a
      worker that reported it, no busy mark is new, and none is left when nothing is in flight. */
  lemma ReconcileHeals(v: seq<Slot>, infos: seq<Info>, inFlight: Option<int>, gemma: Option<int>, now: int)
    requires ConsistentMap(v)
    ensures var r := Reconciled(v, infos, inFlight, gemma, now);
            && ConsistentMap(r)
            && (forall i: nat | i < |r| && r[i].worker.Some? ::
                  r[i].worker.value in Names(infos) || (gemma == Some(i) && r[i].worker == Some(GEMMA)))
            && (forall i: nat, j | i < |r| && 0 <= j < |infos| && Reports(infos[j], i, |v|) ::
                  exists k | 0 <= k < |infos| :: Reports(infos[k], i, |v|) && r[i].worker == Some(infos[k].name))
            && (forall i: nat | i < |r| && r[i].busy :: v[i].busy && inFlight != Some(0))
  {
    var r := Reconciled(v, infos, inFlight, gemma, now);
    forall i: nat | i < |r|
      ensures Consistent(r[i]) && (r[i].busy ==> v[i].busy && inFlight != Some(0))
    {
      assert Consistent(v[i]);
    }
    forall i: nat, j | i < |r| && 0 <= j < |infos| && Reports(infos[j], i, |v|)
      ensures exists k | 0 <= k < |infos| :: Reports(infos[k], i, |v|) && r[i].worker == Some(infos[k].name)
    {
      var w := LastReporter(infos, i, |v|);
      var k :| 0 <= k < |infos| && Reports(infos[k], i, |v|) && infos[k].name == w.value;
      assert infos[k].name in Names(infos);
    }
  }

  /** Card `i` is in a worker's list of devices or, without a list, is its only device. */
  predicate Lists(info: Info, i: nat) {
    (info.devices.Some? && Int(i) in info.devices.value) || (info.devices.None? && info.deviceInUse == Int(i))
  }

  /** What a reconciliation makes of one card, field by field: the last worker that lists it takes it over
      now; an unlisted card of a reachable worker, of nobody, or pinned by gemma stays; any other is emptied.
      A busy mark is dropped from a resident card only when nothing is in flight. */
  lemma ReconciledCard(v: seq<Slot>, infos: seq<Info>, inFlight: Option<int>, gemma: Option<int>, now: int, i: nat)
    requires i < |v|
    ensures var t, s := Reconciled(v, infos, inFlight, gemma, now)[i], v[i];
            var busy := s.busy && !(inFlight == Some(0) && s.resident);
            && (forall j: nat | j < |infos| && Lists(infos[j], i) && (forall h | j < h < |infos| :: !Lists(infos[h], i)) ::
                  t == Slot(Some(infos[j].name), busy, true, now))
            && ((forall j: nat | j < |infos| :: !Lists(infos[j], i)) ==>
                  if s.worker == None || (gemma == Some(i) && s.worker == Some(GEMMA))
                     || (exists j: nat :: j < |infos| && infos[j].name == s.worker.value)
                  then t == Slot(s.worker, busy, s.resident, s.lastUsed)
                  else t == Slot(None, false, false, 0))
  {
    assert forall j: nat | j < |infos| :: Reports(infos[j], i, |v|) <==> Lists(infos[j], i);
    var j := LastReport(infos, i, |v|);
    if j >= 0 {
      assert infos[j].name in Names(infos);
    }
  }

  predicate SameButTime(s: Slot, t: Slot) {
    s.(lastUsed := 0) == t.(lastUsed := 0)
  }

  /** A second identical report changes nothing but time stamps. */
  lemma ReconcileIsIdempotent(v: seq<Slot>, infos: seq<Info>, inFlight: Option<int>, gemma: Option<int>,
                              now: int, later: int)
    requires ConsistentMap(v)
    ensures var r := Reconciled(v, infos, inFlight, gemma, now);
            var r' := Reconciled(r, infos, inFlight, gemma, later);
            forall i: nat | i < |v| :: SameButTime(r[i], r'[i])
  {
    var r := Reconciled(v, infos, inFlight, gemma, now);
    forall i: nat | i < |v|
      ensures SameButTime(r[i], Reconciled(r, infos, inFlight, gemma, later)[i])
    {
      assert Consistent(v[i]);
      var w := LastReporter(infos, i, |v|);
      if w.Some? {
        var k :| 0 <= k < |infos| && Reports(infos[k], i, |v|) && infos[k].name == w.value;
        assert infos[k].name in Names(infos);
      }
    }
  }
}
