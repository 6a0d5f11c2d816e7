/**
 Decoding a large latent in overlapping tiles and blending them: which tiles are decoded, with
 what weights, and what each output pixel is made of. One colour channel, exact reals; the
 decoder is any function and is taken to return 16 pixels per latent row and column.
 Source: runner/image/flux_edit.py.
 */
module TiledDecode {
  import opened Basics

  const SCALE: int := 16

  /** The decoder's value at pixel (i, j) of the tile whose latent origin is (y, x). */
  type Decoder = (int, int, int, int) -> real

  datatype Job = Job(h: nat, w: nat, tile: nat, overlap: nat, decode: Decoder) {
    predicate Valid() {
      h >= 1 && w >= 1 && tile >= 1
    }
  }

  // ----- tile starts along one axis --------------------------------------------------

  function Range(a: int, stop: int, step: int): seq<int>
    requires step >= 1
    decreases stop - a
  {
    if a < stop then [a] + Range(a + step, stop, step) else []
  }

  function Step(tile: nat, overlap: nat): int {
    Max(1, tile - overlap)
  }

  /** Latent starts before clamping: every `step`, then one tile anchored at the end. */
  function Starts(size: nat, tile: nat, overlap: nat): seq<int>
    requires size >= 1 && tile >= 1
  {
    var r := Range(0, Max(1, size - tile + 1), Step(tile, overlap));
    if r[|r| - 1] != size - tile then r + [size - tile] else r
  }

  function StartSet(size: nat, tile: nat, overlap: nat): set<int>
    requires size >= 1 && tile >= 1
  {
    set y <- Starts(size, tile, overlap)
  }

  function Origin(start: int, size: nat, tile: nat): int {
    Max(0, Min(start, size - tile))
  }

  /** Pixels a tile spans along an axis. */
  function Span(size: nat, tile: nat): int {
    SCALE * Min(tile, size)
  }

  lemma {:induction false} RangeReaches(a: int, stop: int, step: int, x: int)
    requires step >= 1 && a < stop && a <= x
    ensures exists y <- Range(a, stop, step) :: a <= y <= x && (x < y + step || y + step >= stop)
    decreases stop - a
  {
    var r := Range(a, stop, step);
    assert r[0] == a;
    if !(x < a + step || a + step >= stop) {
      RangeReaches(a + step, stop, step, x);
      var rest := Range(a + step, stop, step);
      var y :| y in rest && a + step <= y <= x && (x < y + step || y + step >= stop);
      assert r == [a] + rest;
      assert y in r;
    } else {
      assert a in r;
    }
  }

  /** Along an axis the clamped tiles cover every latent row. */
  lemma StartsCover(size: nat, tile: nat, overlap: nat, row: nat)
    requires size >= 1 && tile >= 1 && row < size
    ensures exists y <- StartSet(size, tile, overlap) ::
              Origin(y, size, tile) <= row < Origin(y, size, tile) + Min(tile, size)
  {
    var stop := Max(1, size - tile + 1);
    RangeReaches(0, stop, Step(tile, overlap), row);
    var y :| y in Range(0, stop, Step(tile, overlap)) && 0 <= y <= row && (row < y + Step(tile, overlap) || y + Step(tile, overlap) >= stop);
    LastStartIsThere(size, tile, overlap);
    if row >= size - tile {
      assert size - tile in StartSet(size, tile, overlap);
    } else {
      assert y in Starts(size, tile, overlap);
      assert Origin(y, size, tile) == y;
    }
  }

  lemma LastStartIsThere(size: nat, tile: nat, overlap: nat)
    requires size >= 1 && tile >= 1
    ensures size - tile in Starts(size, tile, overlap)
  {
  }

  function Multiple(k: nat, step: int): int {
    k * step
  }

  lemma {:induction false} RangeHas(a: int, stop: int, step: int, k: nat)
    requires step >= 1 && a + Multiple(k, step) < stop
    ensures a + Multiple(k, step) in Range(a, stop, step)
    decreases k
  {
    NextMultiple(k, step);
    var r := Range(a, stop, step);
    if k == 0 {
      assert a < stop && r[0] == a;
    } else {
      NextMultiple(k - 1, step);
      RangeHas(a + step, stop, step, k - 1);
      assert r == [a] + Range(a + step, stop, step);
    }
  }

  lemma NextMultiple(k: nat, step: int)
    requires step >= 1
    ensures Multiple(k + 1, step) == Multiple(k, step) + step && Multiple(k, step) >= 0 && Multiple(0, step) == 0
  {
  }

  lemma {:induction false} RangeOnlyHas(a: int, stop: int, step: int, y: int) returns (k: nat)
    requires step >= 1 && y in Range(a, stop, step)
    ensures y == a + Multiple(k, step) && y < stop
    decreases stop - a
  {
    NextMultiple(0, step);
    if y == a {
      k := 0;
    } else {
      var h := RangeOnlyHas(a + step, stop, step, y);
      NextMultiple(h, step);
      k := h + 1;
    }
  }

  /** The starts are 0, the multiples of the step that leave room for a tile, and the one whose tile ends at
      the edge. */
  lemma StartsAre(size: nat, tile: nat, overlap: nat, y: int)
    requires size >= 1 && tile >= 1
    ensures var step := if tile > overlap then tile - overlap else 1;
            y in StartSet(size, tile, overlap)
            <==> y == size - tile || y == 0 || (y < size - tile && exists k: nat :: y == Multiple(k, step))
  {
    var stop, step := Max(1, size - tile + 1), Step(tile, overlap);
    LastStartIsThere(size, tile, overlap);
    NextMultiple(0, step);
    RangeHas(0, stop, step, 0);
    assert y in StartSet(size, tile, overlap) <==> y in Starts(size, tile, overlap);
    if y in Range(0, stop, step) {
      var k := RangeOnlyHas(0, stop, step, y);
      NextMultiple(k, step);
    }
    if k: nat :| y == Multiple(k, step) && y < stop {
      RangeHas(0, stop, step, k);
    }
  }

  // ----- weights ---------------------------------------------------------------------

  /** Length of a tile's blending ramp. */
  function Ramp(span: int, overlap: nat): int
    requires span >= 0
  {
    Min(overlap * SCALE, span / 2)
  }

  /** Weight at offset `i` of a span: ramps up from 0, is 1 in the middle, ramps back to 0. */
  function Weight(i: int, span: int, overlap: nat): (w: real)
    requires 0 <= i < span
    ensures w >= 0.0
  {
    var ov := Ramp(span, overlap);
    if ov > 0 && i >= span - ov then (span - 1 - i) as real / ov as real
    else if ov > 0 && i < ov then i as real / ov as real
    else 1.0
  }

  /** The weight along a span rises in equal steps over its ramp, 16 pixels for each latent of overlap but at
      most half the span, is 1 between the ramps, and falls as it rose. */
  lemma WeightIsRamp(i: int, span: int, overlap: nat)
    requires 0 <= i < span
    ensures var ov := if 16 * overlap < span / 2 then 16 * overlap else span / 2;
            && (i < ov ==> Weight(i, span, overlap) * ov as real == i as real)
            && (ov <= i < span - ov ==> Weight(i, span, overlap) == 1.0)
            && Weight(span - 1 - i, span, overlap) == Weight(i, span, overlap)
  {
  }

  lemma Reciprocal(a: real, b: real)
    requires 0.0 < a <= b
    ensures 1.0 / a >= 1.0 / b
  {
  }

  lemma Quotient(i: int, ov: int)
    requires i >= 1 && ov >= 1
    ensures i as real / ov as real >= 1.0 / ov as real
  {
  }

  /** Every pixel row but the first and the last lies strictly inside some tile. */
  lemma InteriorRowIsInsideATile(size: nat, tile: nat, overlap: nat, p: int)
    requires size >= 1 && tile > overlap >= 1 && 0 < p < SCALE * size - 1
    ensures exists y <- StartSet(size, tile, overlap) ::
              0 < p - SCALE * Origin(y, size, tile) < Span(size, tile) - 1
  {
    var x := (p - 1) / SCALE;
    var step := Step(tile, overlap);
    var stop := Max(1, size - tile + 1);
    RangeReaches(0, stop, step, x);
    var y :| y in Range(0, stop, step) && 0 <= y <= x && (x < y + step || y + step >= stop);
    LastStartIsThere(size, tile, overlap);
    assert y in Starts(size, tile, overlap);
    if size <= tile || p > SCALE * (size - tile) {
      assert size - tile in StartSet(size, tile, overlap);
      assert 0 < p - SCALE * Origin(size - tile, size, tile) < Span(size, tile) - 1;
    } else {
      assert x < y + step;
      assert Origin(y, size, tile) == y by {
        assert y <= x < size - tile + 1;
      }
      assert 0 < p - SCALE * Origin(y, size, tile) < Span(size, tile) - 1;
    }
  }

  // ----- what a pixel is made of -----------------------------------------------------

  type Tile = (int, int)

  function Product(ys: set<int>, xs: set<int>): set<Tile> {
    set y <- ys, x <- xs :: (y, x)
  }

  function Tiles(job: Job): set<Tile>
    requires job.Valid()
  {
    Product(StartSet(job.h, job.tile, job.overlap), StartSet(job.w, job.tile, job.overlap))
  }

  function Row(job: Job, t: Tile, p: int): int {
    p - SCALE * Origin(t.0, job.h, job.tile)
  }

  function Col(job: Job, t: Tile, q: int): int {
    q - SCALE * Origin(t.1, job.w, job.tile)
  }

  predicate Covers(job: Job, t: Tile, p: int, q: int) {
    0 <= Row(job, t, p) < Span(job.h, job.tile) && 0 <= Col(job, t, q) < Span(job.w, job.tile)
  }

  function PixelWeight(job: Job, t: Tile, p: int, q: int): (w: real)
    ensures w >= 0.0
  {
    if Covers(job, t, p, q) then
      var wy := Weight(Row(job, t, p), Span(job.h, job.tile), job.overlap);
      var wx := Weight(Col(job, t, q), Span(job.w, job.tile), job.overlap);
      Area(wy, wx)
    else 0.0
  }

  function Area(a: real, b: real): (r: real)
    requires a >= 0.0 && b >= 0.0
    ensures r >= 0.0
  {
    a * b
  }

  /** The decoder's value for a pixel, clamped to [-1, 1]. */
  function Value(job: Job, t: Tile, p: int, q: int): real {
    var v := job.decode(Origin(t.0, job.h, job.tile), Origin(t.1, job.w, job.tile), Row(job, t, p), Col(job, t, q));
    if v < -1.0 then -1.0 else if v > 1.0 then 1.0 else v
  }

  /** What every tile adds to every pixel: its weight, and its weighted value. */
  type Layer = (Tile, int, int) -> real

  function Weights(job: Job): Layer {
    (t, p, q) => PixelWeight(job, t, p, q)
  }

  function Shares(job: Job): Layer {
    (t, p, q) => Value(job, t, p, q) * PixelWeight(job, t, p, q)
  }

  ghost function Sum(s: set<Tile>, f: Layer, p: int, q: int): real {
    if s == {} then 0.0 else var t :| t in s; f(t, p, q) + Sum(s - {t}, f, p, q)
  }

  /** A sum does not depend on the order in which the tiles are visited. */
  lemma {:induction false} TakeOut(s: set<Tile>, f: Layer, p: int, q: int, t: Tile)
    requires t in s
    ensures Sum(s, f, p, q) == f(t, p, q) + Sum(s - {t}, f, p, q)
    decreases s
  {
    var u :| u in s && Sum(s, f, p, q) == f(u, p, q) + Sum(s - {u}, f, p, q);
    if u != t {
      TakeOut(s - {u}, f, p, q, t);
      TakeOut(s - {t}, f, p, q, u);
      assert s - {u} - {t} == s - {t} - {u};
    }
  }

  /** Sums of layers, one nowhere above the other, are ordered like them. */
  lemma {:induction false} SumIsMonotone(s: set<Tile>, f: Layer, g: Layer, p: int, q: int)
    requires forall t <- s :: f(t, p, q) <= g(t, p, q)
    ensures Sum(s, f, p, q) <= Sum(s, g, p, q)
    decreases s
  {
    if s != {} {
      var t :| t in s;
      TakeOut(s, f, p, q, t);
      TakeOut(s, g, p, q, t);
      SumIsMonotone(s - {t}, f, g, p, q);
    }
  }

  function Scaled(c: real, f: Layer): Layer {
    (t, p, q) => c * f(t, p, q)
  }

  lemma {:induction false} SumScales(s: set<Tile>, c: real, f: Layer, p: int, q: int)
    ensures Sum(s, Scaled(c, f), p, q) == c * Sum(s, f, p, q)
    decreases s
  {
    if s != {} {
      var t :| t in s;
      TakeOut(s, f, p, q, t);
      TakeOut(s, Scaled(c, f), p, q, t);
      SumScales(s - {t}, c, f, p, q);
      Distribute(c, f(t, p, q), Sum(s - {t}, f, p, q));
    }
  }

  ghost function TotalWeight(job: Job, p: int, q: int): real
    requires job.Valid()
  {
    Sum(Tiles(job), Weights(job), p, q)
  }

  ghost function TotalShare(job: Job, p: int, q: int): real
    requires job.Valid()
  {
    Sum(Tiles(job), Shares(job), p, q)
  }

  function Normalized(share: real, weight: real): real {
    share / if weight < 0.000001 then 0.000001 else weight
  }

  // ----- the blending results --------------------------------------------------------

  function Nothing(): Layer {
    (_, _, _) => 0.0
  }

  lemma {:induction false} SumOfNothing(s: set<Tile>, p: int, q: int)
    ensures Sum(s, Nothing(), p, q) == 0.0
    decreases s
  {
    if s != {} {
      var t :| t in s;
      TakeOut(s, Nothing(), p, q, t);
      SumOfNothing(s - {t}, p, q);
    }
  }

  // ----- when an inner weight is raised to the floor -----------------------------------

  /** Starts whose tile, once clamped, begins at the edge: two of them when the axis is shorter than a tile. */
  function EdgeStarts(size: nat, tile: nat, overlap: nat): set<int>
    requires size >= 1 && tile >= 1
  {
    set y <- StartSet(size, tile, overlap) | Origin(y, size, tile) == 0
  }

  /** The tiles whose origin is the corner. */
  function CornerTiles(job: Job): set<Tile>
    requires job.Valid()
  {
    Product(EdgeStarts(job.h, job.tile, job.overlap), EdgeStarts(job.w, job.tile, job.overlap))
  }

  function RampY(job: Job): int {
    Ramp(Span(job.h, job.tile), job.overlap)
  }

  function RampX(job: Job): int {
    Ramp(Span(job.w, job.tile), job.overlap)
  }

  function RampStep(ramp: int): (step: real)
    requires ramp > 0
    ensures step > 0.0
  {
    1.0 / ramp as real
  }

  /** One step of each ramp, multiplied. */
  function StepProduct(a: int, b: int): real
    requires a > 0 && b > 0
  {
    Area(RampStep(a), RampStep(b))
  }

  function CornerWeight(job: Job): real
    requires RampY(job) > 0 && RampX(job) > 0
  {
    StepProduct(RampY(job), RampX(job))
  }

  function Times(n: nat, c: real): real {
    n as real * c
  }

  lemma {:induction false} RangeStaysBelow(a: int, stop: int, step: int)
    requires step >= 1
    ensures forall y <- Range(a, stop, step) :: a <= y < stop
    decreases stop - a
  {
    if a < stop {
      RangeStaysBelow(a + step, stop, step);
    }
  }

  /** Along one axis an inner line lies strictly inside as many tiles as begin at the edge, at least. */
  lemma InnerStarts(size: nat, tile: nat, overlap: nat, p: int) returns (ys: set<int>)
    requires size >= 1 && tile > overlap >= 1 && 0 < p < SCALE * size - 1
    ensures ys <= StartSet(size, tile, overlap) && |ys| == |EdgeStarts(size, tile, overlap)|
    ensures forall y <- ys :: 0 < p - SCALE * Origin(y, size, tile) < Span(size, tile) - 1
  {
    if size <= tile {
      ys := EdgeStarts(size, tile, overlap);
    } else {
      InteriorRowIsInsideATile(size, tile, overlap, p);
      var y :| y in StartSet(size, tile, overlap) && 0 < p - SCALE * Origin(y, size, tile) < Span(size, tile) - 1;
      ys := {y};
      OneEdgeStart(size, tile, overlap);
    }
  }

  lemma OneEdgeStart(size: nat, tile: nat, overlap: nat)
    requires size > tile >= 1
    ensures EdgeStarts(size, tile, overlap) == {0}
  {
    var r := Range(0, size - tile + 1, Step(tile, overlap));
    RangeStaysBelow(0, size - tile + 1, Step(tile, overlap));
    assert r[0] == 0 && 0 in Starts(size, tile, overlap);
    forall y <- StartSet(size, tile, overlap) ensures 0 <= y <= size - tile && Origin(y, size, tile) == y {
      assert y in Starts(size, tile, overlap);
    }
  }

  lemma SomeEdgeStart(size: nat, tile: nat, overlap: nat)
    requires size >= 1 && tile >= 1
    ensures 1 <= |EdgeStarts(size, tile, overlap)|
  {
    var r := Range(0, Max(1, size - tile + 1), Step(tile, overlap));
    assert r[0] == 0 && 0 in Starts(size, tile, overlap);
    assert 0 in EdgeStarts(size, tile, overlap);
  }

  lemma {:induction false} ProductSize(ys: set<int>, xs: set<int>)
    ensures |Product(ys, xs)| == |ys| * |xs|
    decreases ys
  {
    if ys == {} {
      assert Product(ys, xs) == {};
    } else {
      var y := AnyMember(ys);
      var rest := ys - {y};
      ProductSize(rest, xs);
      RowSize(y, xs);
      OtherRow(ys, xs, y);
      OneRowMore(|rest|, |xs|);
    }
  }

  lemma OtherRow(ys: set<int>, xs: set<int>, y: int)
    requires y in ys
    ensures |Product(ys, xs)| == |Product(ys - {y}, xs)| + |Product({y}, xs)|
  {
    assert Product(ys, xs) == Product(ys - {y}, xs) + Product({y}, xs);
    assert Product(ys - {y}, xs) !! Product({y}, xs);
  }

  lemma OneRowMore(rows: nat, width: nat)
    ensures (rows + 1) * width == rows * width + width
  {
  }

  lemma {:induction false} RowSize(y: int, xs: set<int>)
    ensures |Product({y}, xs)| == |xs|
    decreases xs
  {
    if xs == {} {
      assert Product({y}, xs) == {};
    } else {
      var x := AnyMember(xs);
      RowSize(y, xs - {x});
      assert Product({y}, xs) == Product({y}, xs - {x}) + {(y, x)};
    }
  }

  lemma AnyMember<T>(s: set<T>) returns (x: T)
    requires s != {}
    ensures x in s
  {
    assert (forall y :: y !in s) ==> s == {};
    x :| x in s;
  }

  lemma {:induction false} SumOverSome(s: set<Tile>, some: set<Tile>, f: Layer, p: int, q: int, c: real)
    requires some <= s && (forall t <- s :: f(t, p, q) >= 0.0) && (forall t <- some :: f(t, p, q) >= c)
    ensures Sum(s, f, p, q) >= Times(|some|, c)
    decreases some
  {
    OneMoreTime(0, c);
    if some == {} {
      SumOfNothing(s, p, q);
      SumIsMonotone(s, Nothing(), f, p, q);
    } else {
      var t := AnyMember(some);
      TakeOut(s, f, p, q, t);
      SumOverSome(s - {t}, some - {t}, f, p, q, c);
      OneMoreTime(|some - {t}|, c);
    }
  }

  lemma {:induction false} SumOverOnly(s: set<Tile>, only: set<Tile>, f: Layer, p: int, q: int, c: real)
    requires only <= s && (forall t <- only :: f(t, p, q) == c) && (forall t <- s - only :: f(t, p, q) == 0.0)
    ensures Sum(s, f, p, q) == Times(|only|, c)
    decreases only
  {
    OneMoreTime(0, c);
    if only == {} {
      SumIsZero(s, f, p, q);
    } else {
      var t := AnyMember(only);
      TakeOut(s, f, p, q, t);
      assert (s - {t}) - (only - {t}) == s - only;
      SumOverOnly(s - {t}, only - {t}, f, p, q, c);
      OneMoreTime(|only - {t}|, c);
    }
  }

  lemma OneMoreTime(n: nat, c: real)
    ensures Times(n + 1, c) == Times(n, c) + c && Times(0, c) == 0.0
  {
  }

  /** Off its own ends a tile weighs at least one step of its ramp, and exactly that one pixel in. */
  lemma WeightIsAtLeastRampStep(i: int, span: int, overlap: nat)
    requires 0 < i < span - 1 && span >= SCALE && overlap >= 1
    ensures Ramp(span, overlap) >= 8
    ensures Weight(i, span, overlap) >= RampStep(Ramp(span, overlap)) > 0.0
    ensures Weight(1, span, overlap) == RampStep(Ramp(span, overlap))
  {
    var ov := Ramp(span, overlap);
    Quotient(ov, ov);
    if i >= span - ov {
      Quotient(span - 1 - i, ov);
    } else if i < ov {
      Quotient(i, ov);
    } else {
      Reciprocal(1.0, ov as real);
    }
  }

  lemma RampsAreLong(job: Job)
    requires job.Valid() && job.overlap >= 1
    ensures RampY(job) >= 8 && RampX(job) >= 8
  {
  }

  lemma ProductsOf(a: real, b: real, x: real, y: real)
    requires 0.0 <= a <= x && 0.0 <= b <= y
    ensures Area(a, b) <= Area(x, y)
  {
    assert a * b <= x * b <= x * y;
  }

  lemma InnerTileWeight(job: Job, t: Tile, p: int, q: int)
    requires job.Valid() && job.overlap >= 1 && RampY(job) > 0 && RampX(job) > 0
    requires 0 < Row(job, t, p) < Span(job.h, job.tile) - 1 && 0 < Col(job, t, q) < Span(job.w, job.tile) - 1
    ensures PixelWeight(job, t, p, q) >= CornerWeight(job)
  {
    var a, wy := RampWeight(Row(job, t, p), Span(job.h, job.tile), job.overlap);
    var b, wx := RampWeight(Col(job, t, q), Span(job.w, job.tile), job.overlap);
    CoveredWeight(job, t, p, q, wy, wx);
    CornerWeightIs(job, a, b);
    ProductsOf(a, b, wy, wx);
  }

  lemma RampWeight(i: int, span: int, overlap: nat) returns (step: real, w: real)
    requires 0 < i < span - 1 && span >= SCALE && overlap >= 1
    ensures Ramp(span, overlap) > 0 && step == RampStep(Ramp(span, overlap))
    ensures w == Weight(i, span, overlap) && w >= step > 0.0 && (i == 1 ==> w == step)
  {
    WeightIsAtLeastRampStep(i, span, overlap);
    step, w := RampStep(Ramp(span, overlap)), Weight(i, span, overlap);
  }

  lemma CoveredWeight(job: Job, t: Tile, p: int, q: int, wy: real, wx: real)
    requires Covers(job, t, p, q)
    requires wy == Weight(Row(job, t, p), Span(job.h, job.tile), job.overlap)
    requires wx == Weight(Col(job, t, q), Span(job.w, job.tile), job.overlap)
    ensures PixelWeight(job, t, p, q) == Area(wy, wx)
  {
  }

  lemma CornerWeightIs(job: Job, a: real, b: real)
    requires RampY(job) > 0 && RampX(job) > 0 && a == RampStep(RampY(job)) && b == RampStep(RampX(job))
    ensures CornerWeight(job) == Area(a, b)
  {
  }

  /** No inner pixel has less weight than the one next to the corner. */
  lemma InnerWeightIsAtLeastCorner(job: Job, p: int, q: int)
    requires job.Valid() && job.tile > job.overlap >= 1
    requires 0 < p < SCALE * job.h - 1 && 0 < q < SCALE * job.w - 1
    ensures RampY(job) > 0 && RampX(job) > 0
    ensures TotalWeight(job, p, q) >= Times(|CornerTiles(job)|, CornerWeight(job))
  {
    RampsAreLong(job);
    var some := InnerTiles(job, p, q);
    SumOverSome(Tiles(job), some, Weights(job), p, q, CornerWeight(job));
  }

  lemma InnerTiles(job: Job, p: int, q: int) returns (some: set<Tile>)
    requires job.Valid() && job.tile > job.overlap >= 1 && RampY(job) > 0 && RampX(job) > 0
    requires 0 < p < SCALE * job.h - 1 && 0 < q < SCALE * job.w - 1
    ensures some <= Tiles(job) && |some| == |CornerTiles(job)|
    ensures forall t <- some :: Weights(job)(t, p, q) >= CornerWeight(job)
  {
    var ys := InnerStarts(job.h, job.tile, job.overlap, p);
    var xs := InnerStarts(job.w, job.tile, job.overlap, q);
    some := Product(ys, xs);
    ProductSize(ys, xs);
    ProductSize(EdgeStarts(job.h, job.tile, job.overlap), EdgeStarts(job.w, job.tile, job.overlap));
    forall t <- some ensures Weights(job)(t, p, q) >= CornerWeight(job) {
      assert t.0 in ys && t.1 in xs;
      InnerTileWeight(job, t, p, q);
    }
  }

  lemma CornerPixelTile(job: Job, t: Tile)
    requires job.Valid() && job.overlap >= 1 && RampY(job) > 0 && RampX(job) > 0 && t in Tiles(job)
    ensures PixelWeight(job, t, 1, 1) == if t in CornerTiles(job) then CornerWeight(job) else 0.0
  {
    if t in CornerTiles(job) {
      assert Row(job, t, 1) == 1 && Col(job, t, 1) == 1 && Covers(job, t, 1, 1);
      var a, wy := RampWeight(1, Span(job.h, job.tile), job.overlap);
      var b, wx := RampWeight(1, Span(job.w, job.tile), job.overlap);
      CoveredWeight(job, t, 1, 1, wy, wx);
      CornerWeightIs(job, a, b);
    } else {
      assert Origin(t.0, job.h, job.tile) > 0 || Origin(t.1, job.w, job.tile) > 0;
      assert !Covers(job, t, 1, 1);
    }
  }

  lemma CornerPixelWeight(job: Job)
    requires job.Valid() && job.overlap >= 1 && RampY(job) > 0 && RampX(job) > 0
    ensures TotalWeight(job, 1, 1) == Times(|CornerTiles(job)|, CornerWeight(job))
  {
    forall t <- Tiles(job)
      ensures Weights(job)(t, 1, 1) == if t in CornerTiles(job) then CornerWeight(job) else 0.0
    {
      CornerPixelTile(job, t);
    }
    SumOverOnly(Tiles(job), CornerTiles(job), Weights(job), 1, 1, CornerWeight(job));
  }

  predicate NoInnerFloor(job: Job) {
    job.Valid() && RampY(job) * RampX(job) <= 1000000 * |CornerTiles(job)|
  }

  lemma FloorBound(a: int, b: int, n: nat)
    requires a > 0 && b > 0
    ensures Times(n, StepProduct(a, b)) >= 0.000001 <==> a * b <= 1000000 * n
  {
    var x, y, ab := a as real, b as real, (a * b) as real;
    assert ab == x * y;
    assert (1.0 / x) * x == 1.0 && (1.0 / y) * y == 1.0;
    var c := (1.0 / x) * (1.0 / y);
    assert c * ab == 1.0 by {
      assert c * ab == ((1.0 / x) * x) * ((1.0 / y) * y);
    }
    Rescale(n as real * c, 0.000001, ab);
    assert (n as real * c) * ab == n as real * (c * ab);
  }

  lemma Rescale(x: real, y: real, s: real)
    requires s > 0.0
    ensures x >= y <==> x * s >= y * s
  {
  }

  lemma CornerFloorIff(job: Job)
    requires job.Valid() && job.overlap >= 1
    ensures RampY(job) > 0 && RampX(job) > 0
    ensures TotalWeight(job, 1, 1) >= 0.000001 <==> NoInnerFloor(job)
    ensures Times(|CornerTiles(job)|, CornerWeight(job)) >= 0.000001 <==> NoInnerFloor(job)
  {
    RampsAreLong(job);
    FloorBound(RampY(job), RampX(job), |CornerTiles(job)|);
    CornerPixelWeight(job);
  }

  /** No inner pixel's weight is raised to the floor exactly when the product of the two ramps is at most a
      million times the number of tiles at the corner. */
  lemma NoInnerFloorIff(job: Job)
    requires job.Valid() && job.tile > job.overlap >= 1
    ensures (forall p, q | 0 < p < SCALE * job.h - 1 && 0 < q < SCALE * job.w - 1 :: TotalWeight(job, p, q) >= 0.000001)
            <==> NoInnerFloor(job)
  {
    CornerFloorIff(job);
    if NoInnerFloor(job) {
      forall p, q | 0 < p < SCALE * job.h - 1 && 0 < q < SCALE * job.w - 1
        ensures TotalWeight(job, p, q) >= 0.000001
      {
        InnerWeightIsAtLeastCorner(job, p, q);
      }
    }
  }

  /** It is so for every overlap up to 62 latents; the default is 32. */
  lemma DefaultOverlapNeedsNoFloor(job: Job)
    requires job.Valid() && 1 <= job.overlap <= 62
    ensures NoInnerFloor(job)
  {
    RampsAreLong(job);
    var ys, xs := EdgeStarts(job.h, job.tile, job.overlap), EdgeStarts(job.w, job.tile, job.overlap);
    SomeEdgeStart(job.h, job.tile, job.overlap);
    SomeEdgeStart(job.w, job.tile, job.overlap);
    ProductSize(ys, xs);
    ShortRamps(RampY(job), RampX(job), |ys|, |xs|);
  }

  lemma ShortRamps(a: int, b: int, m: nat, n: nat)
    requires 0 < a <= 992 && 0 < b <= 992 && m >= 1 && n >= 1
    ensures a * b <= 1000000 * (m * n)
  {
    assert a * b <= 992 * b;
    assert m * n >= 1;
  }

  /** Then an inner pixel is a true weighted average: the result lies between any bounds on the clamped
      values of the tiles that give it weight, so it is their common value when they agree. */
  lemma InteriorPixelIsAnAverage(job: Job, p: int, q: int, lo: real, hi: real)
    requires job.Valid() && job.tile > job.overlap >= 1 && NoInnerFloor(job)
    requires 0 < p < SCALE * job.h - 1 && 0 < q < SCALE * job.w - 1
    requires forall t <- Tiles(job) | PixelWeight(job, t, p, q) > 0.0 :: lo <= Value(job, t, p, q) <= hi
    ensures lo <= Normalized(TotalShare(job, p, q), TotalWeight(job, p, q)) <= hi
  {
    NoInnerFloorIff(job);
    SharesAreBounded(job, p, q, lo, hi);
    DivideBounds(lo, hi, TotalShare(job, p, q), TotalWeight(job, p, q));
  }

  /** The decoder shows the picture `g`: each tile is the part of it that begins at the tile's origin. */
  ghost predicate Shows(job: Job, g: (int, int) -> real) {
    forall y, x, i, j | 0 <= i < 16 * Min(job.tile, job.h) && 0 <= j < 16 * Min(job.tile, job.w) ::
      job.decode(y, x, i, j) == g(16 * y + i, 16 * x + j)
  }

  /** Then every inner pixel of the result is the picture's own, cut to [-1, 1]: tiling leaves no trace. */
  lemma PictureIsReproduced(job: Job, g: (int, int) -> real, p: int, q: int)
    requires job.Valid() && job.tile > job.overlap >= 1 && NoInnerFloor(job) && Shows(job, g)
    requires 0 < p < 16 * job.h - 1 && 0 < q < 16 * job.w - 1
    ensures Normalized(TotalShare(job, p, q), TotalWeight(job, p, q))
            == if g(p, q) < -1.0 then -1.0 else if g(p, q) > 1.0 then 1.0 else g(p, q)
  {
    var v := if g(p, q) < -1.0 then -1.0 else if g(p, q) > 1.0 then 1.0 else g(p, q);
    forall t <- Tiles(job) | PixelWeight(job, t, p, q) > 0.0 ensures Value(job, t, p, q) == v {
      TileShowsPicture(job, g, t, p, q);
    }
    InteriorPixelIsAnAverage(job, p, q, v, v);
  }

  lemma TileShowsPicture(job: Job, g: (int, int) -> real, t: Tile, p: int, q: int)
    requires Shows(job, g) && Covers(job, t, p, q)
    ensures Value(job, t, p, q) == if g(p, q) < -1.0 then -1.0 else if g(p, q) > 1.0 then 1.0 else g(p, q)
  {
    var y, x, i, j := Origin(t.0, job.h, job.tile), Origin(t.1, job.w, job.tile), Row(job, t, p), Col(job, t, q);
    assert job.decode(y, x, i, j) == g(16 * y + i, 16 * x + j);
    assert 16 * y + i == p && 16 * x + j == q;
  }

  /** Otherwise the pixel next to the corner is darkened even when all tiles agree on its value. */
  lemma CornerPixelIsDarkened(job: Job, v: real)
    requires job.Valid() && job.tile > job.overlap >= 1 && v > 0.0
    ensures !NoInnerFloor(job) && (forall t <- Tiles(job) | PixelWeight(job, t, 1, 1) > 0.0 :: Value(job, t, 1, 1) == v)
            ==> Normalized(TotalShare(job, 1, 1), TotalWeight(job, 1, 1)) < v
  {
    if !NoInnerFloor(job) && forall t <- Tiles(job) | PixelWeight(job, t, 1, 1) > 0.0 :: Value(job, t, 1, 1) == v {
      CornerFloorIff(job);
      var share, w := AgreedShare(job, 1, 1, v);
      Darker(share, w, v);
    }
  }

  lemma AgreedShare(job: Job, p: int, q: int, v: real) returns (share: real, w: real)
    requires job.Valid()
    requires forall t <- Tiles(job) | PixelWeight(job, t, p, q) > 0.0 :: Value(job, t, p, q) == v
    ensures share == TotalShare(job, p, q) && w == TotalWeight(job, p, q) && share == v * w
  {
    share, w := TotalShare(job, p, q), TotalWeight(job, p, q);
    SharesAreBounded(job, p, q, v, v);
    BoundedBothWays(v, w, share);
  }

  lemma BoundedBothWays(v: real, w: real, share: real)
    requires Bounds(v, v, w, share)
    ensures share == v * w
  {
  }

  lemma Darker(share: real, w: real, v: real)
    requires v > 0.0 && w < 0.000001 && share == v * w
    ensures Normalized(share, w) < v
  {
    assert v * w < v * 0.000001;
    var n := Normalized(share, w);
    assert n * 0.000001 == share;
    Rescale(n, v, 0.000001);
  }

  lemma SharesAreBounded(job: Job, p: int, q: int, lo: real, hi: real)
    requires job.Valid()
    requires forall t <- Tiles(job) | PixelWeight(job, t, p, q) > 0.0 :: lo <= Value(job, t, p, q) <= hi
    ensures Bounds(lo, hi, TotalWeight(job, p, q), TotalShare(job, p, q))
  {
    forall t <- Tiles(job)
      ensures Scaled(lo, Weights(job))(t, p, q) <= Shares(job)(t, p, q) <= Scaled(hi, Weights(job))(t, p, q)
    {
      ShareOfTile(job, t, p, q);
      ShareIsBounded(Weights(job), Shares(job), Value(job, t, p, q), t, p, q, lo, hi);
    }
    LayersBoundTotals(Tiles(job), Weights(job), Shares(job), p, q, lo, hi);
  }

  /** `v` is between `lo` and `hi` per unit of weight `w`. */
  predicate Bounds(lo: real, hi: real, w: real, v: real) {
    lo * w <= v <= hi * w
  }

  lemma ShareOfTile(job: Job, t: Tile, p: int, q: int)
    ensures Weights(job)(t, p, q) == PixelWeight(job, t, p, q) >= 0.0
    ensures Shares(job)(t, p, q) == Value(job, t, p, q) * Weights(job)(t, p, q)
  {
  }

  lemma ShareIsBounded(weight: Layer, share: Layer, v: real, t: Tile, p: int, q: int, lo: real, hi: real)
    requires weight(t, p, q) >= 0.0 && share(t, p, q) == v * weight(t, p, q)
    requires weight(t, p, q) > 0.0 ==> lo <= v <= hi
    ensures Scaled(lo, weight)(t, p, q) <= share(t, p, q) <= Scaled(hi, weight)(t, p, q)
  {
    var w := weight(t, p, q);
    Between(lo, v, hi, w);
    assert Scaled(lo, weight)(t, p, q) == lo * w;
    assert Scaled(hi, weight)(t, p, q) == hi * w;
  }

  lemma LayersBoundTotals(s: set<Tile>, weight: Layer, share: Layer, p: int, q: int, lo: real, hi: real)
    requires forall t <- s :: Scaled(lo, weight)(t, p, q) <= share(t, p, q) <= Scaled(hi, weight)(t, p, q)
    ensures Bounds(lo, hi, Sum(s, weight, p, q), Sum(s, share, p, q))
  {
    SumIsMonotone(s, Scaled(lo, weight), share, p, q);
    SumIsMonotone(s, share, Scaled(hi, weight), p, q);
    SumScales(s, lo, weight, p, q);
    SumScales(s, hi, weight, p, q);
  }

  lemma Between(lo: real, v: real, hi: real, w: real)
    requires w >= 0.0 && (w > 0.0 ==> lo <= v <= hi)
    ensures lo * w <= v * w <= hi * w
  {
    if w > 0.0 {
      assert (v - lo) * w >= 0.0;
      assert (hi - v) * w >= 0.0;
    }
  }

  lemma DivideBounds(lo: real, hi: real, v: real, w: real)
    requires w >= 0.000001 && Bounds(lo, hi, w, v)
    ensures lo <= Normalized(v, w) <= hi
  {
    assert v / w * w == v;
  }

  /** The four outermost pixel lines get no weight at all and come out as 0. */
  lemma OutermostLinesAreZero(job: Job, p: int, q: int)
    requires job.Valid() && job.tile > job.overlap >= 1
    requires 0 <= p < SCALE * job.h && 0 <= q < SCALE * job.w
    requires p == 0 || p == SCALE * job.h - 1 || q == 0 || q == SCALE * job.w - 1
    ensures TotalWeight(job, p, q) == 0.0
    ensures Normalized(TotalShare(job, p, q), TotalWeight(job, p, q)) == 0.0
  {
    forall t <- Tiles(job) ensures Weights(job)(t, p, q) == 0.0 && Shares(job)(t, p, q) == 0.0 {
      OutermostAddsNothing(job, t, p, q);
    }
    SumIsZero(Tiles(job), Weights(job), p, q);
    SumIsZero(Tiles(job), Shares(job), p, q);
  }

  lemma OutermostAddsNothing(job: Job, t: Tile, p: int, q: int)
    requires job.Valid() && job.overlap >= 1
    requires p == 0 || p == SCALE * job.h - 1 || q == 0 || q == SCALE * job.w - 1
    ensures Weights(job)(t, p, q) == 0.0 && Shares(job)(t, p, q) == 0.0
  {
    if Covers(job, t, p, q) {
      OutermostWeight(job, t, p, q);
    }
    assert Weights(job)(t, p, q) == PixelWeight(job, t, p, q) == 0.0;
    assert Shares(job)(t, p, q) == Value(job, t, p, q) * PixelWeight(job, t, p, q);
  }

  lemma SumIsZero(s: set<Tile>, f: Layer, p: int, q: int)
    requires forall t <- s :: f(t, p, q) == 0.0
    ensures Sum(s, f, p, q) == 0.0
  {
    SumOfNothing(s, p, q);
    SumIsMonotone(s, f, Nothing(), p, q);
    SumIsMonotone(s, Nothing(), f, p, q);
  }

  lemma OutermostWeight(job: Job, t: Tile, p: int, q: int)
    requires job.Valid() && job.overlap >= 1 && Covers(job, t, p, q)
    requires p == 0 || p == SCALE * job.h - 1 || q == 0 || q == SCALE * job.w - 1
    ensures PixelWeight(job, t, p, q) == 0.0
  {
    TileFits(t.0, job.h, job.tile);
    TileFits(t.1, job.w, job.tile);
    if p == 0 || p == SCALE * job.h - 1 {
      EndWeight(Row(job, t, p), Span(job.h, job.tile), job.overlap);
    } else {
      EndWeight(Col(job, t, q), Span(job.w, job.tile), job.overlap);
    }
  }

  lemma EndWeight(i: int, span: int, overlap: nat)
    requires span >= SCALE && overlap >= 1 && (i == 0 || i == span - 1)
    ensures Weight(i, span, overlap) == 0.0
  {
  }

  /** Every start yields a tile inside the image. */
  lemma TileFits(start: int, size: nat, tile: nat)
    requires size >= 1 && tile >= 1
    ensures 0 <= Origin(start, size, tile) && Origin(start, size, tile) + Min(tile, size) <= size
  {
  }

  // ----- the loops -------------------------------------------------------------------

  /** `acc` holds the sum of layer `f` over the tiles done. */
  ghost predicate Accumulated(acc: array2<real>, f: Layer, done: set<Tile>)
    reads acc
  {
    forall p, q | 0 <= p < acc.Length0 && 0 <= q < acc.Length1 :: acc[p, q] == Sum(done, f, p, q)
  }

  method TiledDecode(job: Job) returns (out: array2<real>)
    requires job.Valid()
    ensures fresh(out) && out.Length0 == SCALE * job.h && out.Length1 == SCALE * job.w
    ensures forall p, q | 0 <= p < out.Length0 && 0 <= q < out.Length1 ::
              out[p, q] == Normalized(TotalShare(job, p, q), TotalWeight(job, p, q))
    ensures forall g: (int, int) -> real, p, q
              | Shows(job, g) && NoInnerFloor(job) && job.tile > job.overlap >= 1
                && 0 < p < out.Length0 - 1 && 0 < q < out.Length1 - 1 ::
              out[p, q] == if g(p, q) < -1.0 then -1.0 else if g(p, q) > 1.0 then 1.0 else g(p, q)
  {
    var acc := new real[SCALE * job.h, SCALE * job.w]((_, _) => 0.0);
    var wacc := new real[SCALE * job.h, SCALE * job.w]((_, _) => 0.0);
    LayersAreLocal(job);
    AddTiles(job, StartSet(job.h, job.tile, job.overlap), StartSet(job.w, job.tile, job.overlap), Shares(job), Weights(job), acc, wacc);
    out := new real[SCALE * job.h, SCALE * job.w];
    forall p, q | 0 <= p < out.Length0 && 0 <= q < out.Length1 {
      out[p, q] := Normalized(acc[p, q], wacc[p, q]);
    }
    forall g: (int, int) -> real, p, q
      | Shows(job, g) && NoInnerFloor(job) && job.tile > job.overlap >= 1
        && 0 < p < out.Length0 - 1 && 0 < q < out.Length1 - 1
      ensures out[p, q] == if g(p, q) < -1.0 then -1.0 else if g(p, q) > 1.0 then 1.0 else g(p, q)
    {
      PictureIsReproduced(job, g, p, q);
    }
  }

  lemma LayersAreLocal(job: Job)
    ensures LocalTo(job, Shares(job)) && LocalTo(job, Weights(job))
  {
  }

  /** The loops over the two sets of starts, in whatever order the sets come. */
  method AddTiles(job: Job, ys: set<int>, xs: set<int>, share: Layer, weight: Layer, acc: array2<real>, wacc: array2<real>)
    requires acc != wacc && Accumulated(acc, share, {}) && Accumulated(wacc, weight, {})
    requires SameShape(job, acc, wacc) && LocalTo(job, share) && LocalTo(job, weight)
    modifies acc, wacc
    ensures Accumulated(acc, share, Product(ys, xs)) && Accumulated(wacc, weight, Product(ys, xs))
  {
    var todo := ys;
    while todo != {}
      invariant todo <= ys
      invariant Accumulated(acc, share, Product(ys - todo, xs)) && Accumulated(wacc, weight, Product(ys - todo, xs))
      decreases |todo|
    {
      var y := AnyOf(todo);
      AddTileRow(job, y, xs, share, weight, acc, wacc, Product(ys - todo, xs));
      assert Product(ys - (todo - {y}), xs) == Product(ys - todo, xs) + Product({y}, xs);
      todo := todo - {y};
    }
    assert ys - todo == ys;
  }

  /** A set gives its elements in no particular order. */
  method AnyOf(s: set<int>) returns (x: int)
    requires s != {}
    ensures x in s
  {
    assert (forall y :: y !in s) ==> s == {};
    x :| x in s;
  }

  ghost predicate SameShape(job: Job, acc: array2<real>, wacc: array2<real>) {
    job.Valid() && acc.Length0 == wacc.Length0 == SCALE * job.h && acc.Length1 == wacc.Length1 == SCALE * job.w
  }

  /** A tile contributes nothing outside itself. */
  ghost predicate LocalTo(job: Job, f: Layer) {
    forall t: Tile, p, q | !Covers(job, t, p, q) :: f(t, p, q) == 0.0
  }

  method AddTileRow(job: Job, y: int, xs: set<int>, share: Layer, weight: Layer, acc: array2<real>, wacc: array2<real>,
                    ghost done: set<Tile>)
    requires acc != wacc && Accumulated(acc, share, done) && Accumulated(wacc, weight, done)
    requires SameShape(job, acc, wacc) && LocalTo(job, share) && LocalTo(job, weight)
    requires forall t <- done :: t.0 != y
    modifies acc, wacc
    ensures Accumulated(acc, share, done + Product({y}, xs)) && Accumulated(wacc, weight, done + Product({y}, xs))
  {
    var todo := xs;
    assert done + Product({y}, xs - todo) == done;
    while todo != {}
      invariant todo <= xs
      invariant Accumulated(acc, share, done + Product({y}, xs - todo)) && Accumulated(wacc, weight, done + Product({y}, xs - todo))
      decreases |todo|
    {
      var x := AnyOf(todo);
      ghost var now := done + Product({y}, xs - todo);
      assert done + Product({y}, xs - (todo - {x})) == now + {(y, x)};
      AddTile(job, (y, x), share, acc, now);
      AddTile(job, (y, x), weight, wacc, now);
      todo := todo - {x};
    }
    assert xs - todo == xs;
  }

  /** Adds one tile's part of a layer to the accumulator: a block of pixels, in place. */
  method AddTile(job: Job, t: Tile, f: Layer, acc: array2<real>, ghost done: set<Tile>)
    requires Accumulated(acc, f, done) && t !in done && LocalTo(job, f)
    requires job.Valid() && acc.Length0 == SCALE * job.h && acc.Length1 == SCALE * job.w
    modifies acc
    ensures Accumulated(acc, f, done + {t})
  {
    TileFits(t.0, job.h, job.tile);
    TileFits(t.1, job.w, job.tile);
    var py, px := SCALE * Origin(t.0, job.h, job.tile), SCALE * Origin(t.1, job.w, job.tile);
    var hh, ww := Span(job.h, job.tile), Span(job.w, job.tile);
    forall p, q | py <= p < py + hh && px <= q < px + ww {
      acc[p, q] := acc[p, q] + f(t, p, q);
    }
    forall p, q | 0 <= p < acc.Length0 && 0 <= q < acc.Length1
      ensures Sum(done + {t}, f, p, q) == Sum(done, f, p, q) + f(t, p, q)
      ensures !(py <= p < py + hh && px <= q < px + ww) ==> f(t, p, q) == 0.0
    {
      assert (done + {t}) - {t} == done;
      TakeOut(done + {t}, f, p, q, t);
      assert !(py <= p < py + hh && px <= q < px + ww) ==> !Covers(job, t, p, q);
    }
  }
}
