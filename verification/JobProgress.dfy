/**
 The progress a client polls during a chunked v2v job: the store of records, the chunk loop's
 aggregation of per-chunk steps, and the server's mapping of events to a fraction. Python's
 `round(x, 4)` is exact rounding to the nearest multiple of 1/10000, ties to even.
 Source: runner/idv2v/run.py, runner/idv2v/bernini.py, runner/idv2v/server.py.
 */
module JobProgress {
  import opened Options

  // ----- rounding --------------------------------------------------------------------

  function RoundEven(x: real): int {
    var f := x.Floor;
    if x - f as real < 0.5 then f
    else if x - f as real > 0.5 then f + 1
    else if f % 2 == 0 then f else f + 1
  }

  /** To the nearest whole number, and from the middle between two to the even one. */
  lemma RoundsToNearestEven(x: real)
    ensures -0.5 <= RoundEven(x) as real - x <= 0.5
    ensures (RoundEven(x) as real - x == 0.5 || x - RoundEven(x) as real == 0.5) ==> RoundEven(x) % 2 == 0
  {
  }

  lemma RoundEvenIsMonotone(x: real, y: real)
    requires x <= y
    ensures RoundEven(x) <= RoundEven(y)
  {
    assert x.Floor <= y.Floor;
  }

  function Round4(x: real): real {
    RoundEven(x * 10000.0) as real / 10000.0
  }

  /** `x` is a multiple of 1/10000 within 1/20000 of `exact`. */
  predicate NearestTick(x: real, exact: real) {
    x * 10000.0 == (x * 10000.0).Floor as real && exact - 0.00005 <= x <= exact + 0.00005
  }

  lemma Round4IsNearest(x: real)
    ensures NearestTick(Round4(x), x)
  {
    var r := RoundEven(x * 10000.0);
    RoundsToNearestEven(x * 10000.0);
    assert Round4(x) * 10000.0 == r as real;
    assert (r as real).Floor == r;
  }

  lemma Round4IsMonotone(x: real, y: real)
    requires x <= y
    ensures Round4(x) <= Round4(y)
  {
    RoundEvenIsMonotone(x * 10000.0, y * 10000.0);
  }

  lemma Round4Fixes(n: int)
    ensures Round4(n as real / 10000.0) == n as real / 10000.0
  {
    assert n as real / 10000.0 * 10000.0 == n as real;
    assert (n as real).Floor == n;
  }

  function Clamp(x: real, lo: real, hi: real): real
    requires lo <= hi
  {
    if x < lo then lo else if x > hi then hi else x
  }

  // ----- the store -------------------------------------------------------------------

  datatype Record = Record(progress: real, stage: string, step: Option<int>, total: Option<int>, preview: Option<string>)

  predicate Terminal(stage: string) {
    stage == "complete" || stage == "failed"
  }

  class ProgressStore {
    var records: map<string, Record>

    constructor ()
      ensures records == map[]
    {
      records := map[];
    }

    /** Overwrites a job's record; a preview survives until a terminal stage. */
    method SetProgress(job: string, progress: real, stage: string, step: Option<int>, total: Option<int>)
      modifies this
      ensures job == "" ==> records == old(records)
      ensures job != "" ==>
                && records.Keys == old(records).Keys + {job}
                && (forall j <- old(records).Keys - {job} :: records[j] == old(records)[j])
                && records[job].progress == Round4(Clamp(progress, 0.0, 1.0))
                && records[job].stage == stage && records[job].step == step && records[job].total == total
                && records[job].preview == (if job in old(records) && !Terminal(stage) then old(records)[job].preview else None)
    {
      if job == "" {
        return;
      }
      var rec := Record(Round4(Clamp(progress, 0.0, 1.0)), stage, step, total, None);
      if job in records && records[job].preview.Some? && !Terminal(stage) {
        rec := rec.(preview := records[job].preview);
      }
      records := records[job := rec];
    }

    /** Attaches or clears a preview and nothing else. */
    method SetPreview(job: string, preview: Option<string>)
      modifies this
      ensures job == "" ==> records == old(records)
      ensures job != "" ==>
                records == old(records)[job := (if job in old(records) then old(records)[job]
                                                else Record(0.0, "generating", None, None, None)).(preview := preview)]
    {
      if job == "" {
        return;
      }
      var rec := if job in records then records[job] else Record(0.0, "generating", None, None, None);
      records := records[job := rec.(preview := preview)];
    }
  }

  // ----- the chunk loop and the server's callback ------------------------------------

  /** A denoise report of the chunk being rendered. */
  datatype Report = Report(step: int, total: int)

  /** What the chunk loop hands to the server's callback. */
  datatype Event =
    | Stepped(step: int, total: int)
    | Chunked(chunk: nat, chunks: nat)          // a chunk begins and the step count is not known yet
    | Previewed(preview: string)

  /** Bar position of `done` of `all` steps before rounding: the render takes 0.05 to 0.95. */
  function Position(done: int, all: int): real
    requires all > 0
  {
    var shown := if done < all then done else all;
    Clamp(0.05 + 0.90 * (shown as real / all as real), 0.05, 0.95)
  }

  function Fraction(done: int, all: int): real
    requires all > 0
  {
    Round4(Position(done, all))
  }

  lemma PositionIsMonotone(a: int, b: int, all: int)
    requires all > 0 && a <= b
    ensures 0.05 <= Position(a, all) <= Position(b, all) <= 0.95
  {
    var x := if a < all then a else all;
    var y := if b < all then b else all;
    Ratios(x as real, y as real, all as real);
  }

  lemma Ratios(x: real, y: real, all: real)
    requires all > 0.0
    ensures x <= y <==> x / all <= y / all
    ensures x <= all <==> x / all <= 1.0
    ensures x >= 0.0 <==> x / all >= 0.0
  {
    assert x / all * all == x && y / all * all == y;
  }

  lemma FractionIsMonotone(a: int, b: int, all: int)
    requires all > 0 && a <= b
    ensures 0.05 <= Fraction(a, all) <= Fraction(b, all) <= 0.95
  {
    PositionIsMonotone(a, b, all);
    Round4IsMonotone(0.05, Position(a, all));
    Round4IsMonotone(Position(a, all), Position(b, all));
    Round4IsMonotone(Position(b, all), 0.95);
    Round4Fixes(500);
    Round4Fixes(9500);
  }

  /** The bar shows `done` of `all` steps: the multiple of 1/10000 nearest to its share of 0.05 to 0.95. */
  predicate ShowsStep(x: real, done: int, all: int) {
    all > 0 && NearestTick(x, 0.05 + 0.90 * (done as real / all as real))
  }

  lemma FractionShowsStep(done: int, all: int)
    requires all > 0 && 0 <= done <= all
    ensures ShowsStep(Fraction(done, all), done, all)
  {
    Ratios(done as real, all as real, all as real);
    assert Position(done, all) == 0.05 + 0.90 * (done as real / all as real);
    Round4IsNearest(Position(done, all));
  }

  // ----- when the bar falls ----------------------------------------------------------

  function Shown(done: nat, all: nat): nat {
    if done < all then done else all
  }

  /** One chunk has ended at its own step `last`, and the next is announced. The shown bar never falls when
      `last` is within the first report's count; it falls when the overrun is more than one 9000th of all
      steps; and with at most 9000 steps in all it falls exactly when `last` is beyond that count. */
  lemma BarAtChunkBoundary(k: nat, chunks: nat, stepsPer: nat, last: nat)
    requires k + 1 < chunks && stepsPer > 0 && chunks * stepsPer > 0
    ensures var all, ended, next := chunks * stepsPer, k * stepsPer + last, (k + 1) * stepsPer;
            && 0 <= ended && 0 <= next
            && (last <= stepsPer ==> Fraction(ended, all) <= Fraction(next, all))
            && (9000 * (Shown(ended, all) - next) > all ==> Fraction(ended, all) > Fraction(next, all))
            && (all <= 9000 ==> (Fraction(ended, all) <= Fraction(next, all) <==> last <= stepsPer))
  {
    ChunkSteps(k, chunks, stepsPer);
    var all, ended, next := chunks * stepsPer, k * stepsPer + last, (k + 1) * stepsPer;
    if last <= stepsPer {
      FractionIsMonotone(ended, next, all);
    } else if all <= 9000 || 9000 * (Shown(ended, all) - next) > all {
      FractionIsStrict(next, ended, all);
    }
  }

  /** With more steps in all a small overrun is rounded away: chunk 1 of 500 runs 41 steps instead of 40. */
  lemma SmallOverrunIsHidden()
    ensures Fraction(1 * 40 + 41, 500 * 40) == Fraction(2 * 40, 500 * 40)
  {
    var a, b := 0.05 + 0.90 * (81.0 / 20000.0), 0.05 + 0.90 * (80.0 / 20000.0);
    assert Position(81, 20000) == a && Position(80, 20000) == b;
    assert a * 10000.0 == 536.45 && b * 10000.0 == 536.0;
    assert RoundEven(536.45) == 536 && RoundEven(536.0) == 536;
  }

  lemma FractionIsStrict(a: nat, b: nat, all: nat)
    requires a < b && a < all && (all <= 9000 || 9000 * (Shown(b, all) - a) > all)
    ensures Fraction(a, all) < Fraction(b, all)
  {
    Ticks(a, all);
    Ticks(b, all);
    TicksApart(a, Shown(b, all), all);
    RoundEvenSeparates(Tick(a, all), Tick(Shown(b, all), all));
  }

  /** The position in multiples of 1/10000. */
  function Tick(done: nat, all: nat): real
    requires all > 0
  {
    500.0 + 9000.0 * (done as real / all as real)
  }

  lemma Ticks(done: nat, all: nat)
    requires all > 0
    ensures Position(done, all) * 10000.0 == Tick(Shown(done, all), all)
  {
    var x := Shown(done, all) as real / all as real;
    Ratios(Shown(done, all) as real, Shown(done, all) as real, all as real);
    assert 0.0 <= x <= 1.0;
  }

  lemma TicksApart(a: nat, b: nat, all: nat)
    requires a < b <= all && (all <= 9000 || 9000 * (b - a) > all)
    ensures Tick(b, all) - Tick(a, all) > 1.0
            || (Tick(b, all) - Tick(a, all) >= 1.0 && Tick(a, all) == Tick(a, all).Floor as real)
  {
    if all == 9000 {
      WholeTick(a);
      WholeTick(b);
    } else {
      var d := b - a;
      assert 9000 * d > all;
      RatiosApart(a as real, b as real, all as real);
    }
  }

  lemma WholeTick(a: nat)
    ensures Tick(a, 9000) == (500 + a) as real
  {
    assert a as real / 9000.0 * 9000.0 == a as real;
  }

  lemma RatiosApart(a: real, b: real, all: real)
    requires all > 0.0 && 9000.0 * (b - a) > all
    ensures 9000.0 * (b / all) - 9000.0 * (a / all) > 1.0
  {
    var x, y := a / all, b / all;
    assert x * all == a;
    assert y * all == b;
    ScaledApart(x, y, a, b, all);
  }

  lemma ScaledApart(x: real, y: real, a: real, b: real, all: real)
    requires all > 0.0 && x * all == a && y * all == b && 9000.0 * (b - a) > all
    ensures 9000.0 * y - 9000.0 * x > 1.0
  {
    var d := y - x;
    assert d * all == b - a;
    if 9000.0 * d <= 1.0 {
      NotMore(d, all);
    }
  }

  lemma NotMore(d: real, all: real)
    requires all > 0.0 && 9000.0 * d <= 1.0
    ensures 9000.0 * (d * all) <= all
  {
    var slack := 1.0 - 9000.0 * d;
    assert slack * all >= 0.0;
    assert slack * all == all - 9000.0 * (d * all);
  }

  lemma RoundEvenSeparates(x: real, y: real)
    requires y - x > 1.0 || (y - x >= 1.0 && x == x.Floor as real)
    ensures RoundEven(x) < RoundEven(y)
  {
    if y - x <= 1.0 {
      RoundEvenIsMonotone(x + 1.0, y);
      assert (x + 1.0).Floor == x.Floor + 1;
    }
  }

  lemma ChunkSteps(k: nat, chunks: nat, stepsPer: int)
    requires k + 1 < chunks && stepsPer > 0
    ensures 0 <= k * stepsPer && (k + 1) * stepsPer == k * stepsPer + stepsPer < chunks * stepsPer
  {
    var left := chunks - (k + 1);
    assert chunks * stepsPer == (k + 1) * stepsPer + left * stepsPer by {
      assert chunks == (k + 1) + left;
    }
    ProductIsPositive(left, stepsPer);
    if k > 0 {
      ProductIsPositive(k, stepsPer);
    }
  }

  lemma ProductIsPositive(a: int, b: int)
    requires a > 0 && b > 0
    ensures a * b > 0
  {
  }

  /** The reports of all chunks fit the result: within a chunk steps rise, and none exceeds the step
      count of the first report of the job. */
  predicate WellReported(chunks: seq<seq<Report>>) {
    && (StepsPer(chunks).Some? ==> StepsPer(chunks).value > 0)
    && forall c <- chunks :: RisesWithin(c, StepsPer(chunks))
  }

  predicate RisesWithin(reports: seq<Report>, limit: Option<int>) {
    forall i, j | 0 <= i <= j < |reports| ::
      limit.Some? && 0 <= reports[i].step <= reports[j].step <= limit.value
  }

  /** The step count every chunk is taken to have: that of the job's first report. */
  function StepsPer(chunks: seq<seq<Report>>): (r: Option<int>)
    ensures (exists k :: 0 <= k < |chunks| && chunks[k] != []) ==> r.Some?
  {
    if chunks == [] then None
    else if chunks[0] != [] then Some(chunks[0][0].total)
    else
      assert forall k | 0 < k < |chunks| :: chunks[1..][k - 1] == chunks[k];
      StepsPer(chunks[1..])
  }

  lemma {:induction false} FirstReportDecides(chunks: seq<seq<Report>>, k: nat)
    requires k < |chunks| && chunks[k] != [] && forall h | 0 <= h < k :: chunks[h] == []
    ensures StepsPer(chunks) == Some(chunks[k][0].total)
  {
    if k > 0 {
      assert forall h | 0 <= h < k - 1 :: chunks[1..][h] == chunks[h + 1];
      FirstReportDecides(chunks[1..], k - 1);
    }
  }

  predicate Rising(xs: seq<real>) {
    forall i, j | 0 <= i < j < |xs| :: xs[i] <= xs[j]
  }

  /** The values shown so far rise within [0, hi]. */
  predicate RisingTo(shown: seq<real>, hi: real) {
    Rising(shown) && forall x <- shown :: 0.0 <= x <= hi
  }

  lemma RisingExtends(shown: seq<real>, hi: real, x: real)
    requires RisingTo(shown, hi) && 0.0 <= hi <= x
    ensures RisingTo(shown + [x], x)
  {
    var r := shown + [x];
    forall i, j | 0 <= i < j < |r| ensures r[i] <= r[j] {
      assert i < |shown| && shown[i] in shown;
    }
  }

  /** The server's callback for one event, and what the client then sees. */
  method Emit(store: ProgressStore, job: string, event: Event, shown: seq<real>) returns (r: seq<real>)
    requires job != "" && job in store.records
    requires event.Stepped? ==> event.total > 0 && 0 <= event.step
    modifies store
    ensures Untouched(store.records, old(store.records), job)
    ensures event.Previewed? ==>
              && r == shown
              && store.records[job] == (if event.preview == "" then old(store.records)[job]
                                        else old(store.records)[job].(preview := Some(event.preview)))
    ensures !event.Previewed? ==> r == shown + [store.records[job].progress]
    ensures event.Chunked? ==> store.records[job].progress == 0.05
    ensures event.Stepped? ==> store.records[job].progress == Fraction(event.step, event.total)
    ensures event.Stepped? ==> store.records[job].step == Some(event.step) && store.records[job].total == Some(event.total)
  {
    match event
    case Previewed(p) =>
      if p != "" {
        store.SetPreview(job, Some(p));
      }
      return shown;
    case Stepped(step, total) =>
      FractionIsMonotone(step, step, total);
      Round4Fixes(RoundEven(Position(step, total) * 10000.0));
      store.SetProgress(job, Fraction(step, total), "bernini", Some(step), Some(total));
      return shown + [store.records[job].progress];
    case Chunked(_, _) =>
      Round4Fixes(500);
      store.SetProgress(job, Round4(0.05), "bernini", None, None);
      return shown + [store.records[job].progress];
  }

  /** Every record but `job`'s is as it was. */
  predicate Untouched(now: map<string, Record>, was: map<string, Record>, job: string) {
    && job in now
    && forall j <- was | j != job :: j in now && now[j] == was[j]
  }

  /** How far the job is before report `i` of chunk `k`, in steps of all chunks. */
  function Done(reports: seq<Report>, k: nat, i: nat, stepsPer: int): int
    requires i <= |reports|
  {
    k * stepsPer + if i == 0 then 0 else reports[i - 1].step
  }

  /** How far the bar is when `k` of `chunks` chunks are rendered. */
  function Reached(stepsPer: Option<int>, k: nat, chunks: nat): real
    requires chunks > 0 && (stepsPer.Some? ==> stepsPer.value > 0)
  {
    match stepsPer
    case None => 0.05
    case Some(n) => assert chunks * n > 0; Fraction(k * n, chunks * n)
  }

  lemma DoneRises(reports: seq<Report>, k: nat, i: nat, stepsPer: int)
    requires i < |reports| && stepsPer > 0 && 0 <= reports[i].step <= stepsPer
    requires i > 0 ==> 0 <= reports[i - 1].step <= reports[i].step
    ensures 0 <= Done(reports, k, i, stepsPer) <= Done(reports, k, i + 1, stepsPer) <= (k + 1) * stepsPer
  {
    assert (k + 1) * stepsPer == k * stepsPer + stepsPer;
    assert k * stepsPer >= 0;
  }

  lemma WithinAll(k: nat, chunks: nat, n: int)
    requires k < chunks && n > 0
    ensures 0 <= k * n <= (k + 1) * n <= chunks * n
  {
    if k + 1 < chunks {
      ChunkSteps(k, chunks, n);
    } else {
      assert k + 1 == chunks;
      assert (k + 1) * n == k * n + n;
      assert k * n >= 0;
    }
  }

  /** The bar shows each report of chunk `k` at its cumulative step. */
  predicate ShowsReports(part: seq<real>, reports: seq<Report>, k: nat, chunks: nat, n: int)
    requires |part| <= |reports|
  {
    forall i | 0 <= i < |part| :: ShowsStep(part[i], k * n + reports[i].step, chunks * n)
  }

  /** One report of chunk `k`, made cumulative: the bar moves to its place and the record carries it. */
  method RunReport(store: ProgressStore, job: string, reports: seq<Report>, k: nat, chunks: nat, i: nat, n: int, before: seq<real>)
      returns (shown: seq<real>)
    requires job != "" && job in store.records && i < |reports| && n > 0 && k < chunks
    requires RisesWithin(reports, Some(n)) && chunks * n > 0
    requires RisingTo(before, Fraction(Done(reports, k, i, n), chunks * n))
    modifies store
    ensures Untouched(store.records, old(store.records), job) && shown == before + [store.records[job].progress]
    ensures ShowsStep(store.records[job].progress, k * n + reports[i].step, chunks * n)
    ensures store.records[job].step == Some(k * n + reports[i].step) && store.records[job].total == Some(chunks * n)
    ensures RisingTo(shown, Fraction(Done(reports, k, i + 1, n), chunks * n))
  {
    DoneRises(reports, k, i, n);
    WithinAll(k, chunks, n);
    FractionShowsStep(k * n + reports[i].step, chunks * n);
    FractionIsMonotone(Done(reports, k, i, n), Done(reports, k, i + 1, n), chunks * n);
    shown := Emit(store, job, Stepped(k * n + reports[i].step, chunks * n), before);
    RisingExtends(before, Fraction(Done(reports, k, i, n), chunks * n), Fraction(Done(reports, k, i + 1, n), chunks * n));
  }

  /** All reports of chunk `k`, once the step count is known. */
  method RunReports(store: ProgressStore, job: string, reports: seq<Report>, k: nat, chunks: nat, n: int, before: seq<real>)
      returns (shown: seq<real>)
    requires job != "" && job in store.records && reports != [] && n > 0 && k < chunks
    requires RisesWithin(reports, Some(n)) && chunks * n > 0
    requires RisingTo(before, Fraction(k * n, chunks * n))
    modifies store
    ensures Untouched(store.records, old(store.records), job) && before <= shown
    ensures |shown| == |before| + |reports| && ShowsReports(shown[|before|..], reports, k, chunks, n)
    ensures RisingTo(shown, Fraction((k + 1) * n, chunks * n))
  {
    shown := before;
    ghost var part: seq<real> := [];
    for i := 0 to |reports|
      invariant Untouched(store.records, old(store.records), job) && shown == before + part && |part| == i
      invariant ShowsReports(part, reports, k, chunks, n)
      invariant RisingTo(shown, Fraction(Done(reports, k, i, n), chunks * n))
    {
      shown := RunReport(store, job, reports, k, chunks, i, n, shown);
      part := part + [shown[|before| + i]];
    }
    assert shown[|before|..] == part;
    DoneRises(reports, k, |reports| - 1, n);
    FractionIsMonotone(Done(reports, k, |reports|, n), (k + 1) * n, chunks * n);
    RisingWidens(shown, Fraction(Done(reports, k, |reports|, n), chunks * n), Fraction((k + 1) * n, chunks * n));
  }

  /** All reports of chunk `k`; the first report of the job fixes the step count. */
  method RunChunk(store: ProgressStore, job: string, chunks: seq<seq<Report>>, k: nat, known: Option<int>, before: seq<real>)
      returns (stepsPer: Option<int>, shown: seq<real>)
    requires job != "" && job in store.records && WellReported(chunks) && k < |chunks|
    requires known.None? <==> forall h | 0 <= h < k :: chunks[h] == []
    requires known.Some? ==> known == StepsPer(chunks)
    requires RisingTo(before, Reached(known, k, |chunks|))
    modifies store
    ensures Untouched(store.records, old(store.records), job) && before <= shown
    ensures |shown| == |before| + |chunks[k]|
    ensures chunks[k] != [] ==>
              stepsPer.Some? && ShowsReports(shown[|before|..], chunks[k], k, |chunks|, stepsPer.value)
    ensures stepsPer.None? <==> forall h | 0 <= h < k + 1 :: chunks[h] == []
    ensures stepsPer.Some? ==> stepsPer == StepsPer(chunks) && stepsPer.value > 0
    ensures RisingTo(shown, Reached(stepsPer, k + 1, |chunks|))
  {
    stepsPer, shown := known, before;
    var reports := chunks[k];
    if reports == [] {
      ReachedRises(known, k, |chunks|);
      RisingWidens(shown, Reached(known, k, |chunks|), Reached(known, k + 1, |chunks|));
      return;
    }
    if stepsPer.None? {
      FirstReportDecides(chunks, k);
      stepsPer := Some(reports[0].total);
    }
    var n := stepsPer.value;
    KnownIsReached(known, n, k, |chunks|);
    RisingWidens(before, Reached(known, k, |chunks|), Fraction(k * n, |chunks| * n));
    shown := RunReports(store, job, reports, k, |chunks|, n, before);
  }

  lemma RisingWidens(shown: seq<real>, lo: real, hi: real)
    requires RisingTo(shown, lo) && lo <= hi
    ensures RisingTo(shown, hi)
  {
  }

  lemma KnownIsReached(known: Option<int>, n: int, k: nat, chunks: nat)
    requires n > 0 && k < chunks && (known.Some? ==> known.value == n)
    ensures chunks * n > 0 && k * n >= 0 && Reached(known, k, chunks) <= Fraction(k * n, chunks * n)
  {
    assert chunks * n > 0 && k * n >= 0;
    FractionIsMonotone(k * n, k * n, chunks * n);
  }

  lemma ReachedRises(stepsPer: Option<int>, k: nat, chunks: nat)
    requires k < chunks && (stepsPer.Some? ==> stepsPer.value > 0)
    ensures 0.05 <= Reached(stepsPer, k, chunks) <= Reached(stepsPer, k + 1, chunks) <= 0.95
  {
    if stepsPer.Some? {
      assert chunks * stepsPer.value > 0 && k * stepsPer.value <= (k + 1) * stepsPer.value;
      FractionIsMonotone(k * stepsPer.value, (k + 1) * stepsPer.value, chunks * stepsPer.value);
    }
  }

  /** The event that announces chunk `k`: with its cumulative step once the step count is known. */
  method Announce(store: ProgressStore, job: string, k: nat, chunks: nat, stepsPer: Option<int>, before: seq<real>)
      returns (shown: seq<real>)
    requires job != "" && job in store.records && k < chunks && (stepsPer.Some? ==> stepsPer.value > 0)
    requires RisingTo(before, Reached(stepsPer, k, chunks))
    modifies store
    ensures Untouched(store.records, old(store.records), job) && shown == before + [store.records[job].progress]
    ensures stepsPer.None? ==> store.records[job].progress == 0.05
    ensures stepsPer.Some? ==> ShowsStep(store.records[job].progress, k * stepsPer.value, chunks * stepsPer.value)
    ensures RisingTo(shown, Reached(stepsPer, k, chunks))
  {
    var event := Chunked(k + 1, chunks);
    if stepsPer.Some? {
      assert chunks * stepsPer.value > 0 && k * stepsPer.value >= 0;
      event := Stepped(k * stepsPer.value, chunks * stepsPer.value);
      WithinAll(k, chunks, stepsPer.value);
      FractionShowsStep(k * stepsPer.value, chunks * stepsPer.value);
    }
    shown := Emit(store, job, event, before);
    ReachedRises(stepsPer, k, chunks);
    RisingExtends(before, Reached(stepsPer, k, chunks), Reached(stepsPer, k, chunks));
  }

  /** Reports of the first `k` chunks. */
  function Count(chunks: seq<seq<Report>>, k: nat): nat
    requires k <= |chunks|
  {
    if k == 0 then 0 else Count(chunks, k - 1) + |chunks[k - 1]|
  }

  /** The job's first report is that of chunk `f`; there is none if `f` is the number of chunks. */
  predicate IsFirst(chunks: seq<seq<Report>>, f: nat) {
    && f <= |chunks| && (forall h | 0 <= h < f :: chunks[h] == [])
    && (f < |chunks| ==> chunks[f] != [])
  }

  /** Where the bar stands from the announcement of chunk `k` to its last report: at 0.05 when it is
      announced before any report, else at the step the job has reached; and every report moves it to
      the step reached then, with the first report's count for every chunk. */
  predicate ChunkIsShown(shown: seq<real>, chunks: seq<seq<Report>>, f: nat, k: nat)
    requires IsFirst(chunks, f) && k < |chunks|
  {
    var n := if f < |chunks| then chunks[f][0].total else 0;
    var at := 2 + k + Count(chunks, k);
    && at + |chunks[k]| < |shown|
    && (if k <= f then shown[at] == 0.05 else ShowsStep(shown[at], k * n, |chunks| * n))
    && forall i | 0 <= i < |chunks[k]| :: ShowsStep(shown[at + 1 + i], k * n + chunks[k][i].step, |chunks| * n)
  }

  predicate ChunksAreShown(shown: seq<real>, chunks: seq<seq<Report>>, f: nat, upTo: nat)
    requires IsFirst(chunks, f) && upTo <= |chunks|
  {
    forall k | 0 <= k < upTo :: ChunkIsShown(shown, chunks, f, k)
  }

  function First(chunks: seq<seq<Report>>): (f: nat)
    ensures IsFirst(chunks, f)
  {
    if chunks == [] || chunks[0] != [] then 0
    else
      var f := First(chunks[1..]);
      assert forall h | 0 < h < |chunks| :: chunks[h] == chunks[1..][h - 1];
      f + 1
  }

  lemma StillShown(shown: seq<real>, more: seq<real>, chunks: seq<seq<Report>>, f: nat, upTo: nat)
    requires IsFirst(chunks, f) && upTo <= |chunks| && ChunksAreShown(shown, chunks, f, upTo) && shown <= more
    ensures ChunksAreShown(more, chunks, f, upTo)
  {
    forall k | 0 <= k < upTo ensures ChunkIsShown(more, chunks, f, k) {
      assert ChunkIsShown(shown, chunks, f, k);
    }
  }

  lemma OneMoreChunk(shown: seq<real>, more: seq<real>, chunks: seq<seq<Report>>, f: nat, k: nat, stepsPer: Option<int>)
    requires IsFirst(chunks, f) && k < |chunks| && |shown| == 2 + k + Count(chunks, k)
    requires ChunksAreShown(shown, chunks, f, k) && shown <= more && |more| == |shown| + 1 + |chunks[k]|
    requires k < f ==> chunks[k] == []
    requires f <= k ==> stepsPer == Some(chunks[f][0].total)
    requires if k <= f then more[|shown|] == 0.05
             else ShowsStep(more[|shown|], k * stepsPer.value, |chunks| * stepsPer.value)
    requires chunks[k] != [] ==> ShowsReports(more[|shown| + 1..], chunks[k], k, |chunks|, chunks[f][0].total)
    ensures ChunksAreShown(more, chunks, f, k + 1)
  {
    StillShown(shown, more, chunks, f, k);
    var n := if f < |chunks| then chunks[f][0].total else 0;
    var part := more[|shown| + 1..];
    forall i | 0 <= i < |chunks[k]|
      ensures ShowsStep(more[|shown| + 1 + i], k * n + chunks[k][i].step, |chunks| * n)
    {
      assert part[i] == more[|shown| + 1 + i];
    }
    assert ChunkIsShown(more, chunks, f, k);
  }

  /** All chunks in turn, from the two values set before the render. */
  method Render(store: ProgressStore, job: string, chunks: seq<seq<Report>>, previews: nat -> string,
                before: seq<real>, ghost f: nat) returns (shown: seq<real>)
    requires before == [0.02, 0.05]
    requires job != "" && WellReported(chunks) && job in store.records && IsFirst(chunks, f)
    modifies store
    ensures Untouched(store.records, old(store.records), job)
    ensures |shown| == 2 + |chunks| + Count(chunks, |chunks|) && before <= shown
    ensures ChunksAreShown(shown, chunks, f, |chunks|) && RisingTo(shown, 0.95)
  {
    shown := before;
    var stepsPer: Option<int> := None;
    for k := 0 to |chunks|
      invariant |shown| == 2 + k + Count(chunks, k) && before <= shown
      invariant Untouched(store.records, old(store.records), job)
      invariant ChunksAreShown(shown, chunks, f, k)
      invariant stepsPer.None? <==> forall h | 0 <= h < k :: chunks[h] == []
      invariant stepsPer.Some? ==> stepsPer == StepsPer(chunks) && stepsPer.value > 0 && k > 0
      invariant RisingTo(shown, if k == 0 then 0.05 else Reached(stepsPer, k, |chunks|))
    {
      ghost var was := shown;
      shown := Announce(store, job, k, |chunks|, stepsPer, shown);
      stepsPer, shown := RunChunk(store, job, chunks, k, stepsPer, shown);
      if f <= k {
        FirstReportDecides(chunks, f);
      }
      OneMoreChunk(was, shown, chunks, f, k, stepsPer);
      shown := Emit(store, job, Previewed(previews(k)), shown);
    }
    if |chunks| > 0 {
      ReachedRises(stepsPer, |chunks| - 1, |chunks|);
      RisingWidens(shown, Reached(stepsPer, |chunks|, |chunks|), 0.95);
    }
  }

  lemma FinishRises(rendering: seq<real>)
    requires RisingTo(rendering, 0.95)
    ensures RisingTo(rendering + [0.97, 1.0], 1.0)
  {
    RisingExtends(rendering, 0.95, 0.97);
    RisingExtends(rendering + [0.97], 0.97, 1.0);
    assert rendering + [0.97] + [1.0] == rendering + [0.97, 1.0];
  }

  /** A successful job as the client sees it: `shown` is every value its record ever held: 0.02 and 0.05, one
      value for each announcement and each report, 0.97 and 1. It never falls, stays at most 0.95 while rendering, and is 1 at the very end only. */
  method RunJob(store: ProgressStore, job: string, chunks: seq<seq<Report>>, previews: nat -> string)
      returns (shown: seq<real>)
    requires job != "" && WellReported(chunks)
    modifies store
    ensures |shown| == 4 + |chunks| + Count(chunks, |chunks|) && shown[0] == 0.02 && shown[1] == 0.05
    ensures forall f: nat | IsFirst(chunks, f) :: ChunksAreShown(shown, chunks, f, |chunks|)
    ensures Rising(shown) && forall x <- shown :: 0.0 <= x <= 1.0
    ensures shown[|shown| - 1] == 1.0 && shown[|shown| - 2] == 0.97
    ensures forall i | 0 <= i < |shown| - 2 :: shown[i] <= 0.95
    ensures Untouched(store.records, old(store.records), job)
    ensures store.records[job].progress == 1.0 && store.records[job].preview == None
  {
    Round4Fixes(200);
    Round4Fixes(500);
    store.SetProgress(job, 0.02, "bernini", None, None);
    var decoding := store.records[job].progress;
    store.SetProgress(job, 0.05, "bernini", None, None);
    var generating := store.records[job].progress;
    ghost var f := First(chunks);
    shown := Render(store, job, chunks, previews, [decoding, generating], f);
    ghost var rendering := shown;
    var encoding, complete := Finish(store, job);
    shown := shown + [encoding, complete];
    FinishRises(rendering);
    StillShown(rendering, shown, chunks, f, |chunks|);
    assert forall g: nat | IsFirst(chunks, g) :: g == f;
    forall i | 0 <= i < |rendering| ensures shown[i] <= 0.95 {
      assert shown[i] == rendering[i] && rendering[i] in rendering;
    }
  }

  /** The two values set once the render is over. */
  method Finish(store: ProgressStore, job: string) returns (encoding: real, complete: real)
    requires job != "" && job in store.records
    modifies store
    ensures Untouched(store.records, old(store.records), job)
    ensures encoding == 0.97 && complete == 1.0
    ensures store.records[job].progress == 1.0 && store.records[job].preview == None
  {
    Round4Fixes(9700);
    store.SetProgress(job, 0.97, "bernini", None, None);
    encoding := store.records[job].progress;
    Round4Fixes(10000);
    store.SetProgress(job, 1.0, "complete", None, None);
    complete := store.records[job].progress;
  }
}
