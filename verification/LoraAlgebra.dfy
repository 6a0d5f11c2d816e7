/**
 The linear layer with a runtime low-rank term, in exact arithmetic and for one input row.
 Source: runner/idv2v/bernini_fp8.py, class FP8Linear. Quantization of activations is left exact.
 */
module LoraAlgebra {
  import opened Basics
  import opened Options

  type Vec = seq<real>
  type Mat = seq<seq<real>>

  predicate IsMat(m: Mat, rows: nat, cols: nat) {
    |m| == rows && forall i :: 0 <= i < |m| ==> |m[i]| == cols
  }

  // ----- Vectors -----

  function Mul(a: real, b: real): real {
    a * b
  }

  function Dot(x: Vec, y: Vec): real
    requires |x| == |y|
  {
    if |x| == 0 then 0.0
    else
      var n := |x| - 1;
      Dot(x[..n], y[..n]) + Mul(x[n], y[n])
  }

  function Plus(x: Vec, y: Vec): (r: Vec)
    requires |x| == |y|
    ensures |r| == |x| && forall k :: 0 <= k < |x| ==> r[k] == x[k] + y[k]
  {
    seq(|x|, k requires 0 <= k < |x| => x[k] + y[k])
  }

  function Times(c: real, x: Vec): (r: Vec)
    ensures |r| == |x| && forall k :: 0 <= k < |x| ==> r[k] == Mul(c, x[k])
  {
    seq(|x|, k requires 0 <= k < |x| => Mul(c, x[k]))
  }

  function Zeros(n: nat): (r: Vec)
    ensures |r| == n && forall k :: 0 <= k < n ==> r[k] == 0.0
  {
    seq(n, k => 0.0)
  }

  lemma {:induction false} DotPlus(x: Vec, y: Vec, z: Vec)
    requires |x| == |y| == |z|
    ensures Dot(x, Plus(y, z)) == Dot(x, y) + Dot(x, z)
  {
    if |x| > 0 {
      var n := |x| - 1;
      DotPlus(x[..n], y[..n], z[..n]);
      assert Plus(y, z)[..n] == Plus(y[..n], z[..n]);
      Distribute(x[n], y[n], z[n]);
    }
  }

  lemma TimesPrefix(c: real, y: Vec, n: nat)
    requires n <= |y|
    ensures Times(c, y)[..n] == Times(c, y[..n])
  {
    forall k | 0 <= k < n
      ensures Times(c, y)[..n][k] == Times(c, y[..n])[k]
    {
      assert y[..n][k] == y[k];
    }
  }

  lemma {:induction false} DotTimes(x: Vec, c: real, y: Vec)
    requires |x| == |y|
    ensures Dot(x, Times(c, y)) == Mul(c, Dot(x, y))
  {
    if |x| > 0 {
      var n := |x| - 1;
      DotTimes(x[..n], c, y[..n]);
      TimesPrefix(c, y, n);
      PullOut(c, Dot(x[..n], y[..n]), x[n], y[n]);
    }
  }

  lemma PullOut(c: real, d: real, a: real, b: real)
    ensures Mul(c, d) + Mul(a, Mul(c, b)) == Mul(c, d + Mul(a, b))
  {
  }

  lemma {:induction false} DotIsSymmetric(x: Vec, y: Vec)
    requires |x| == |y|
    ensures Dot(x, y) == Dot(y, x)
  {
    if |x| > 0 {
      DotIsSymmetric(x[..|x| - 1], y[..|x| - 1]);
    }
  }

  lemma {:induction false} DotZeros(x: Vec)
    ensures Dot(x, Zeros(|x|)) == 0.0
  {
    if |x| > 0 {
      var n := |x| - 1;
      DotZeros(x[..n]);
      assert Zeros(|x|)[..n] == Zeros(n);
    }
  }

  /** The vector with a single 1. */
  function Unit(n: nat, k: nat): (r: Vec)
    requires k < n
    ensures |r| == n
  {
    seq(n, i => if i == k then 1.0 else 0.0)
  }

  lemma {:induction false} DotUnit(n: nat, k: nat, y: Vec)
    requires k < n == |y|
    ensures Dot(Unit(n, k), y) == y[k]
  {
    var m := n - 1;
    if k < m {
      assert Unit(n, k)[..m] == Unit(m, k);
      DotUnit(m, k, y[..m]);
    } else {
      assert Unit(n, k)[..m] == Zeros(m);
      DotZeros(y[..m]);
      DotIsSymmetric(y[..m], Zeros(m));
    }
  }

  // ----- Matrices -----

  function Column(m: Mat, k: nat, cols: nat): (r: Vec)
    requires IsMat(m, |m|, cols) && k < cols
    ensures |r| == |m|
  {
    seq(|m|, i requires 0 <= i < |m| => m[i][k])
  }

  /** The row vector b times the matrix a. */
  function RowTimes(b: Vec, a: Mat, cols: nat): (r: Vec)
    requires IsMat(a, |b|, cols)
    ensures |r| == cols
  {
    seq(cols, k requires 0 <= k < cols => Dot(b, Column(a, k, cols)))
  }

  /** What each row of a makes of x. */
  function Through(a: Mat, x: Vec): (h: Vec)
    requires IsMat(a, |a|, |x|)
    ensures |h| == |a|
  {
    seq(|a|, i requires 0 <= i < |a| => Dot(x, a[i]))
  }

  lemma RowTimesStep(b: Vec, a: Mat, cols: nat)
    requires IsMat(a, |b|, cols) && |b| > 0
    ensures var n := |b| - 1;
      RowTimes(b, a, cols) == Plus(RowTimes(b[..n], a[..n], cols), Times(b[n], a[n]))
  {
    var n := |b| - 1;
    forall k | 0 <= k < cols
      ensures RowTimes(b, a, cols)[k] == Plus(RowTimes(b[..n], a[..n], cols), Times(b[n], a[n]))[k]
    {
      var column := Column(a, k, cols);
      assert column[..n] == Column(a[..n], k, cols);
      assert column[n] == a[n][k];
      assert Dot(b, column) == Dot(b[..n], column[..n]) + Mul(b[n], column[n]);
    }
  }

  /** Passing x through a and then b is the same as passing it through the product. */
  lemma {:induction false} ThroughProduct(x: Vec, b: Vec, a: Mat)
    requires IsMat(a, |b|, |x|)
    ensures Dot(x, RowTimes(b, a, |x|)) == Dot(Through(a, x), b)
  {
    if |b| == 0 {
      assert RowTimes(b, a, |x|) == Zeros(|x|);
      DotZeros(x);
    } else {
      var n := |b| - 1;
      ThroughProduct(x, b[..n], a[..n]);
      RowTimesStep(b, a, |x|);
      DotPlus(x, RowTimes(b[..n], a[..n], |x|), Times(b[n], a[n]));
      DotTimes(x, b[n], a[n]);
      assert Through(a, x)[..n] == Through(a[..n], x);
    }
  }

  // ----- The layer -----

  /** The weight is stored transposed: one row per input, one column per output. */
  datatype Layer = Layer(
    weight: Mat,
    scale: Vec,
    bias: Option<Vec>,
    loraA: Option<Mat>,
    loraB: Option<Mat>,
    loraAlpha: real,
    loraFull: Option<Mat>)

  /** The shapes of a layer with k inputs and n outputs; a down matrix comes with its up matrix. */
  predicate Fits(l: Layer, k: nat, n: nat) {
    IsMat(l.weight, k, n)
    && |l.scale| == n
    && (l.bias.Some? ==> |l.bias.value| == n)
    && (l.loraA.Some? ==>
        l.loraB.Some? && IsMat(l.loraA.value, |l.loraA.value|, k)
        && IsMat(l.loraB.value, n, |l.loraA.value|))
    && (l.loraFull.Some? ==> IsMat(l.loraFull.value, n, k))
  }

  /** One output's row of the dequantized weight. */
  function WeightRow(l: Layer, k: nat, n: nat, i: nat): (r: Vec)
    requires Fits(l, k, n) && i < n
    ensures |r| == k
  {
    Times(l.scale[i], Column(l.weight, i, n))
  }

  function BiasAt(l: Layer, i: nat): real
    requires l.bias.Some? ==> i < |l.bias.value|
  {
    if l.bias.Some? then l.bias.value[i] else 0.0
  }

  function LowRankTerm(l: Layer, x: Vec, n: nat): (r: Vec)
    requires Fits(l, |x|, n) && l.loraA.Some?
    ensures |r| == n
  {
    Times(l.loraAlpha, Through(l.loraB.value, Through(l.loraA.value, x)))
  }

  /** What the layer adds at run time; without a down matrix it adds nothing at all. */
  function ApplyLora(l: Layer, x: Vec, n: nat, out: Vec): (r: Vec)
    requires Fits(l, |x|, n) && |out| == n
    ensures |r| == n
  {
    if l.loraA.None? then out
    else
      var low := Plus(out, LowRankTerm(l, x, n));
      if l.loraFull.Some? then Plus(low, Through(l.loraFull.value, x)) else low
  }

  function Base(l: Layer, x: Vec, n: nat): (r: Vec)
    requires Fits(l, |x|, n)
    ensures |r| == n
  {
    seq(n, i requires 0 <= i < n => Dot(x, WeightRow(l, |x|, n, i)) + BiasAt(l, i))
  }

  /** The path that dequantizes the weight. */
  function Forward(l: Layer, x: Vec, n: nat): (r: Vec)
    requires Fits(l, |x|, n)
    ensures |r| == n
  {
    ApplyLora(l, x, n, Base(l, x, n))
  }

  // ----- The merged weight -----

  function LowRankRow(l: Layer, k: nat, n: nat, i: nat): (r: Vec)
    requires Fits(l, k, n) && i < n
    ensures |r| == k
  {
    if l.loraA.None? then Zeros(k)
    else Times(l.loraAlpha, RowTimes(l.loraB.value[i], l.loraA.value, k))
  }

  function FullRow(l: Layer, k: nat, n: nat, i: nat): (r: Vec)
    requires Fits(l, k, n) && i < n
    ensures |r| == k
  {
    if l.loraFull.None? then Zeros(k) else l.loraFull.value[i]
  }

  /** One row of W + alpha * B * A + full. */
  function MergedRow(l: Layer, k: nat, n: nat, i: nat): (r: Vec)
    requires Fits(l, k, n) && i < n
    ensures |r| == k
  {
    Plus(Plus(WeightRow(l, k, n, i), LowRankRow(l, k, n, i)), FullRow(l, k, n, i))
  }

  function MergedForward(l: Layer, x: Vec, n: nat): (r: Vec)
    requires Fits(l, |x|, n)
    ensures |r| == n
  {
    seq(n, i requires 0 <= i < n => Dot(x, MergedRow(l, |x|, n, i)) + BiasAt(l, i))
  }

  lemma ThroughScaledProduct(c: real, x: Vec, b: Vec, a: Mat)
    requires IsMat(a, |b|, |x|)
    ensures Dot(x, Times(c, RowTimes(b, a, |x|))) == Mul(c, Dot(Through(a, x), b))
  {
    ThroughProduct(x, b, a);
    DotTimes(x, c, RowTimes(b, a, |x|));
  }

  lemma LowRankTermAt(l: Layer, x: Vec, n: nat, i: nat)
    requires Fits(l, |x|, n) && l.loraA.Some? && i < n
    ensures LowRankTerm(l, x, n)[i] == Mul(l.loraAlpha, Dot(Through(l.loraA.value, x), l.loraB.value[i]))
  {
  }

  lemma LowRankAt(l: Layer, x: Vec, n: nat, i: nat)
    requires Fits(l, |x|, n) && i < n
    ensures Dot(x, LowRankRow(l, |x|, n, i)) == if l.loraA.Some? then LowRankTerm(l, x, n)[i] else 0.0
  {
    if l.loraA.None? {
      DotZeros(x);
    } else {
      var a, b := l.loraA.value, l.loraB.value[i];
      LowRankTermAt(l, x, n, i);
      ThroughScaledProduct(l.loraAlpha, x, b, a);
    }
  }

  lemma FullAt(l: Layer, x: Vec, n: nat, i: nat)
    requires Fits(l, |x|, n) && i < n
    ensures Dot(x, FullRow(l, |x|, n, i))
      == if l.loraFull.Some? then Through(l.loraFull.value, x)[i] else 0.0
  {
    DotZeros(x);
  }

  /** The merged layer differs from the one that runs by the full delta of a layer without a down matrix. */
  lemma MergedAt(l: Layer, x: Vec, n: nat, i: nat)
    requires Fits(l, |x|, n) && i < n
    ensures MergedForward(l, x, n)[i]
      == Forward(l, x, n)[i] + if l.loraA.None? then Dot(x, FullRow(l, |x|, n, i)) else 0.0
  {
    var w, low, full := WeightRow(l, |x|, n, i), LowRankRow(l, |x|, n, i), FullRow(l, |x|, n, i);
    DotPlus(x, Plus(w, low), full);
    DotPlus(x, w, low);
    LowRankAt(l, x, n, i);
    FullAt(l, x, n, i);
  }

  predicate AppliesWhole(l: Layer) {
    l.loraA.Some? || l.loraFull.None?
    || forall i :: 0 <= i < |l.loraFull.value| ==> l.loraFull.value[i] == Zeros(|l.loraFull.value[i]|)
  }

  predicate Agrees(l: Layer, x: Vec, n: nat)
    requires Fits(l, |x|, n)
  {
    Forward(l, x, n) == MergedForward(l, x, n)
  }

  lemma MergedIfApplied(l: Layer, x: Vec, n: nat)
    requires Fits(l, |x|, n) && AppliesWhole(l)
    ensures Agrees(l, x, n)
  {
    forall i | 0 <= i < n
      ensures Forward(l, x, n)[i] == MergedForward(l, x, n)[i]
    {
      MergedAt(l, x, n, i);
      DotZeros(x);
    }
  }

  /** One row of an unapplied full delta is zero where no unit vector tells the layers apart. */
  lemma UnappliedRowIsZero(l: Layer, k: nat, n: nat, i: nat)
    requires Fits(l, k, n) && l.loraA.None? && l.loraFull.Some? && i < n
    requires forall x: Vec :: |x| == k ==> Agrees(l, x, n)
    ensures l.loraFull.value[i] == Zeros(k)
  {
    forall j | 0 <= j < k
      ensures l.loraFull.value[i][j] == 0.0
    {
      var x := Unit(k, j);
      assert Agrees(l, x, n);
      MergedAt(l, x, n, i);
      DotUnit(k, j, l.loraFull.value[i]);
    }
  }

  /**
   The running layer computes x (W + alpha B A + full)^T + b for every x exactly when a down matrix is
   attached, or there is no full delta to lose.
   */
  lemma RuntimeEqualsMergedIff(l: Layer, k: nat, n: nat)
    requires Fits(l, k, n)
    ensures (forall x: Vec :: |x| == k ==> Agrees(l, x, n)) <==> AppliesWhole(l)
  {
    if AppliesWhole(l) {
      forall x: Vec | |x| == k
        ensures Agrees(l, x, n)
      {
        MergedIfApplied(l, x, n);
      }
    } else if forall x: Vec :: |x| == k ==> Agrees(l, x, n) {
      forall i | 0 <= i < n
        ensures l.loraFull.value[i] == Zeros(k)
      {
        UnappliedRowIsZero(l, k, n, i);
      }
    }
  }

  // ----- What the layer computes -----

  /** With a zero input the layer gives its bias, or 0 without one. */
  lemma ZeroGivesBias(l: Layer, k: nat, n: nat, i: nat)
    requires Fits(l, k, n) && i < n
    ensures Forward(l, Zeros(k), n)[i] == if l.bias.Some? then l.bias.value[i] else 0.0
  {
    var x := Zeros(k);
    ZeroDot(WeightRow(l, k, n, i));
    if l.loraA.Some? {
      var h := Through(l.loraA.value, x);
      forall r | 0 <= r < |h|
        ensures h[r] == 0.0
      {
        ZeroDot(l.loraA.value[r]);
      }
      assert h == Zeros(|h|);
      ZeroDot(l.loraB.value[i]);
      LowRankTermAt(l, x, n, i);
      if l.loraFull.Some? {
        ZeroDot(l.loraFull.value[i]);
      }
    }
  }

  lemma ZeroDot(y: Vec)
    ensures Dot(Zeros(|y|), y) == 0.0
  {
    DotZeros(y);
    DotIsSymmetric(y, Zeros(|y|));
  }

  lemma ForwardAt(l: Layer, x: Vec, n: nat, i: nat)
    requires Fits(l, |x|, n) && i < n
    ensures Forward(l, x, n)[i]
      == Dot(x, WeightRow(l, |x|, n, i)) + BiasAt(l, i)
       + (if l.loraA.None? then 0.0
          else Mul(l.loraAlpha, Dot(Through(l.loraA.value, x), l.loraB.value[i])))
       + (if l.loraA.Some? && l.loraFull.Some? then Dot(x, l.loraFull.value[i]) else 0.0)
  {
    if l.loraA.Some? {
      LowRankTermAt(l, x, n, i);
    }
  }

  /** What the unit vector of input j makes of the down matrix. */
  lemma UnitThrough(a: Mat, k: nat, j: nat, down: Vec)
    requires IsMat(a, |down|, k) && j < k && forall r :: 0 <= r < |down| ==> down[r] == a[r][j]
    ensures Through(a, Unit(k, j)) == down
  {
    forall r | 0 <= r < |down|
      ensures Through(a, Unit(k, j))[r] == down[r]
    {
      DotUnit(k, j, a[r]);
    }
  }

  /** A 1 at input j moves output i by the dequantized weight between the two, and with a down matrix by alpha times
      what goes up through the rank, and the full delta's entry. */
  lemma UnitGivesWeight(l: Layer, k: nat, n: nat, i: nat, j: nat, down: Vec)
    requires Fits(l, k, n) && i < n && j < k
    requires l.loraA.Some? ==>
      |down| == |l.loraA.value| && forall r :: 0 <= r < |down| ==> down[r] == l.loraA.value[r][j]
    ensures Forward(l, Unit(k, j), n)[i] - Forward(l, Zeros(k), n)[i]
      == Mul(l.scale[i], l.weight[j][i])
       + (if l.loraA.Some? then Mul(l.loraAlpha, Dot(down, l.loraB.value[i])) else 0.0)
       + (if l.loraA.Some? && l.loraFull.Some? then l.loraFull.value[i][j] else 0.0)
  {
    ZeroGivesBias(l, k, n, i);
    ForwardAt(l, Unit(k, j), n, i);
    DotUnit(k, j, WeightRow(l, k, n, i));
    if l.loraA.Some? {
      UnitThrough(l.loraA.value, k, j, down);
      if l.loraFull.Some? {
        DotUnit(k, j, l.loraFull.value[i]);
      }
    }
  }

  // ----- The scaled path -----

  /** The path through the scaled product: the input times q, the product over q, then the output scale. */
  function ScaledForward(l: Layer, x: Vec, n: nat, q: real): (r: Vec)
    requires Fits(l, |x|, n) && q > 0.0
    ensures |r| == n
  {
    var xq := Times(q, x);
    var out := seq(n, i requires 0 <= i < n =>
      (1.0 / q) * Dot(xq, Column(l.weight, i, n)) * l.scale[i] + BiasAt(l, i));
    ApplyLora(l, x, n, out)
  }

  /** Without rounding both paths give the same output. */
  lemma PathsAgree(l: Layer, x: Vec, n: nat, q: real)
    requires Fits(l, |x|, n) && q > 0.0
    ensures ScaledForward(l, x, n, q) == Forward(l, x, n)
  {
    var xq := Times(q, x);
    var out := seq(n, i requires 0 <= i < n =>
      (1.0 / q) * Dot(xq, Column(l.weight, i, n)) * l.scale[i] + BiasAt(l, i));
    forall i | 0 <= i < n
      ensures out[i] == Base(l, x, n)[i]
    {
      var w := Column(l.weight, i, n);
      DotTimes(x, l.scale[i], w);
      DotIsSymmetric(xq, w);
      DotTimes(w, q, x);
      DotIsSymmetric(w, x);
      Unscaled(q, Dot(x, w), l.scale[i]);
    }
    assert out == Base(l, x, n);
  }

  lemma Unscaled(q: real, d: real, s: real)
    requires q > 0.0
    ensures (1.0 / q) * (q * d) * s == s * d
  {
    assert (1.0 / q) * q == 1.0;
    assert (1.0 / q) * (q * d) == ((1.0 / q) * q) * d;
  }

  // ----- Padding -----

  /** A matrix in the corner of a larger one of zeros. */
  function Padded(m: Mat, cols: nat, rows: nat, width: nat): (r: Mat)
    requires IsMat(m, |m|, cols) && |m| <= rows && cols <= width
    ensures IsMat(r, rows, width)
  {
    seq(rows, i requires 0 <= i < rows => PaddedRow(m, cols, width, i))
  }

  function PaddedRow(m: Mat, cols: nat, width: nat, i: nat): (r: Vec)
    requires IsMat(m, |m|, cols) && cols <= width
    ensures |r| == width
  {
    if i < |m| then m[i] + Zeros(width - cols) else Zeros(width)
  }

  lemma {:induction false} DotPadded(x: Vec, y: Vec, extra: nat)
    requires |x| == |y|
    ensures Dot(x + Zeros(extra), y + Zeros(extra)) == Dot(x, y)
  {
    var px, py := x + Zeros(extra), y + Zeros(extra);
    if extra == 0 {
      assert px == x && py == y;
    } else {
      var n := |px| - 1;
      assert px[..n] == x + Zeros(extra - 1) && py[..n] == y + Zeros(extra - 1);
      assert px[n] == 0.0;
      DotPadded(x, y, extra - 1);
    }
  }

  /** The corner of the padded product is the product: rows of x by columns of w. */
  lemma PaddedProductKeepsCorner(x: Mat, w: Mat, k: nat, n: nat, rows: nat, width: nat, i: nat, j: nat)
    requires IsMat(x, |x|, k) && IsMat(w, k, n) && |x| <= rows && k <= width
    requires i < |x| && j < n
    ensures Dot(Padded(x, k, rows, width)[i], Column(Padded(w, n, width, n), j, n)) == Dot(x[i], Column(w, j, n))
  {
    var column := Column(Padded(w, n, width, n), j, n);
    forall r | 0 <= r < width
      ensures column[r] == (Column(w, j, n) + Zeros(width - k))[r]
    {
      assert column[r] == PaddedRow(w, n, n, r)[j];
    }
    assert column == Column(w, j, n) + Zeros(width - k);
    DotPadded(x[i], Column(w, j, n), width - k);
  }
}
