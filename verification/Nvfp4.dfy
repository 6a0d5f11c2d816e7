/**
 Four-bit block quantization in exact arithmetic: rows whose width is a multiple of the block size.
 Source: runner/idv2v/nvfp4.py. The scale is kept exact where the source rounds it to bfloat16.
 */
module Nvfp4 {
  import opened Basics

  const BLOCK: int := 16
  const TINY: real := 0.000000000001

  function Abs(x: real): real {
    if x < 0.0 then -x else x
  }

  // ----- The table -----

  function Magnitude(exp: int, man: int): real {
    if exp == 0 then (if man == 0 then 0.0 else 0.25)
    else (1.0 + man as real / 2.0) * (if exp == 1 then 1.0 else if exp == 2 then 2.0 else 4.0)
  }

  /** The number a nibble stands for: a sign bit, two exponent bits and a mantissa bit. */
  function Value(nibble: int): real
    requires 0 <= nibble < 16
  {
    (if nibble >= 8 then -1.0 else 1.0) * Magnitude(nibble / 2 % 4, nibble % 2)
  }

  method BuildE2m1Table() returns (tbl: seq<real>)
    ensures |tbl| == 16 && forall i :: 0 <= i < 16 ==> tbl[i] == Value(i)
  {
    tbl := [];
    var i := 0;
    while i < 16
      invariant 0 <= i <= 16 && |tbl| == i
      invariant forall k :: 0 <= k < i ==> tbl[k] == Value(k)
    {
      var sign := if i >= 8 then -1.0 else 1.0;
      var exp, man := i / 2 % 4, i % 2;
      var val: real;
      if exp == 0 {
        val := if man == 0 then 0.0 else 0.25;
      } else {
        val := (1.0 + man as real / 2.0) * (if exp == 1 then 1.0 else if exp == 2 then 2.0 else 4.0);
      }
      tbl := tbl + [sign * val];
      i := i + 1;
    }
  }

  lemma TableValues(i: int)
    requires 0 <= i < 16
    ensures Value(i) == (if i >= 8 then -1.0 else 1.0)
      * (var m := i % 8;
         if m == 0 then 0.0 else if m == 1 then 0.25 else if m == 2 then 1.0 else if m == 3 then 1.5
         else if m == 4 then 2.0 else if m == 5 then 3.0 else if m == 6 then 4.0 else 6.0)
    ensures Abs(Value(i)) <= 6.0
  {
  }

  function Table(): (tbl: seq<real>)
    ensures |tbl| == 16 && forall i :: 0 <= i < 16 ==> tbl[i] == Value(i)
  {
    seq(16, i requires 0 <= i < 16 => Value(i))
  }

  // ----- Choosing a value -----

  /** The first place of the first n in a table that is nearest to x. */
  function ArgMin(x: real, tbl: seq<real>, n: int): (i: int)
    requires 1 <= n <= |tbl|
    ensures 0 <= i < n
  {
    if n == 1 then 0
    else
      var i := ArgMin(x, tbl, n - 1);
      if Abs(x - tbl[n - 1]) < Abs(x - tbl[i]) then n - 1 else i
  }

  lemma {:induction false} ArgMinIsNearest(x: real, tbl: seq<real>, n: int)
    requires 1 <= n <= |tbl|
    ensures forall j :: 0 <= j < n ==> Abs(x - tbl[ArgMin(x, tbl, n)]) <= Abs(x - tbl[j])
    ensures forall j :: 0 <= j < ArgMin(x, tbl, n) ==> Abs(x - tbl[ArgMin(x, tbl, n)]) < Abs(x - tbl[j])
  {
    if n > 1 {
      ArgMinIsNearest(x, tbl, n - 1);
    }
  }

  function Choice(x: real): (i: int)
    ensures 0 <= i < 16
  {
    ArgMin(x, Table(), 16)
  }

  function Nearest(x: real): real {
    Table()[Choice(x)]
  }

  lemma NoneIsNearer(x: real, j: int)
    requires 0 <= j < 16
    ensures Abs(x - Nearest(x)) <= Abs(x - Value(j))
    ensures Nearest(x) == Value(Choice(x))
  {
    ArgMinIsNearest(x, Table(), 16);
  }

  /** Some table value is within 1 of every x up to 6, and nearer than 1 unless x is 5 or -5. */
  lemma SomeValueIsClose(x: real) returns (j: int)
    requires Abs(x) <= 6.0
    ensures 0 <= j < 16 && Abs(x - Value(j)) <= 1.0
    ensures Abs(x) != 5.0 ==> Abs(x - Value(j)) < 1.0
  {
    var m := Abs(x);
    j := if m < 0.5 then 0 else if m <= 1.0 then 2 else if m <= 2.5 then 4
         else if m <= 3.5 then 5 else if m < 5.0 then 6 else 7;
    if x < 0.0 {
      j := j + 8;
    }
  }

  lemma NearestIsWithinOne(x: real)
    requires Abs(x) <= 6.0
    ensures Abs(x - Nearest(x)) <= 1.0
    ensures Abs(x - Nearest(x)) == 1.0 <==> Abs(x) == 5.0
    ensures Abs(Nearest(x)) <= 6.0
  {
    var j := SomeValueIsClose(x);
    NoneIsNearer(x, j);
    TableValues(Choice(x));
  }

  lemma NearestOfValue(i: int)
    requires 0 <= i < 16
    ensures Nearest(Value(i)) == Value(i)
  {
    NoneIsNearer(Value(i), i);
  }

  lemma NearestOfEnds(x: real)
    requires Abs(x) == 6.0
    ensures Nearest(x) == x
  {
    EndsOfTable();
    NearestOfValue(7);
    NearestOfValue(15);
  }

  lemma EndsOfTable()
    ensures Value(7) == 6.0 && Value(15) == -6.0
  {
  }

  lemma NearestIsMonotone(x: real, y: real)
    requires x <= y
    ensures Nearest(x) <= Nearest(y)
  {
    NoneIsNearer(x, Choice(y));
    NoneIsNearer(y, Choice(x));
  }

  // ----- Nibbles -----

  /** What the dictionary built from the table holds for v: a later equal key replaces an earlier one. */
  function Lookup(v: real, tbl: seq<real>): (i: int)
    ensures -1 <= i < |tbl|
    ensures i >= 0 ==> tbl[i] == v && forall j :: i < j < |tbl| ==> tbl[j] != v
    ensures i == -1 ==> v !in tbl
  {
    if tbl == [] then -1
    else if tbl[|tbl| - 1] == v then |tbl| - 1
    else Lookup(v, tbl[..|tbl| - 1])
  }

  function ValueToNibble(v: real): (i: int)
    ensures 0 <= i < 16
    ensures Value(i) == Nearest(v) && forall j :: i < j < 16 ==> Value(j) != Nearest(v)
  {
    Lookup(Nearest(v), Table())
  }

  /** Only zero stands twice in the table. */
  lemma ValuesRepeat(i: int, k: int)
    requires 0 <= i < 16 && 0 <= k < 16
    ensures Value(i) == Value(k) <==> i == k || (i in {0, 8} && k in {0, 8})
  {
    TableValues(i);
    TableValues(k);
  }

  /** Every value keeps its own nibble, except that zero is stored as nibble 8. */
  lemma NibbleOfValue(i: int)
    requires 0 <= i < 16
    ensures ValueToNibble(Value(i)) == if i == 0 then 8 else i
    ensures Value(ValueToNibble(Value(i))) == Value(i)
  {
    NearestOfValue(i);
    ValuesRepeat(i, ValueToNibble(Value(i)));
    ValuesRepeat(0, 8);
  }

  // ----- Blocks -----

  function AbsMax(block: seq<real>): (m: real)
    ensures m >= 0.0 && forall x <- block :: Abs(x) <= m
    ensures m == 0.0 || exists x :: x in block && Abs(x) == m
  {
    if block == [] then 0.0
    else
      var m := AbsMax(block[..|block| - 1]);
      var x := block[|block| - 1];
      assert block == block[..|block| - 1] + [x];
      if Abs(x) > m then Abs(x) else m
  }

  /** One sixth of the largest magnitude in the block, or of 1e-12 where the block is tinier. */
  function Scale(block: seq<real>): (s: real)
    ensures s > 0.0
  {
    (if AbsMax(block) < TINY then TINY else AbsMax(block)) / 6.0
  }

  predicate IsQuotient(x: real, w: real, s: real) {
    x * s == w
  }

  lemma QuotientExists(w: real, s: real)
    requires s > 0.0
    ensures IsQuotient(w / s, w, s)
  {
  }

  function Scaled(w: real, s: real): (x: real)
    requires s > 0.0
    ensures IsQuotient(x, w, s)
  {
    QuotientExists(w, s);
    w / s
  }

  /** What comes back for one element of a block with scale s. */
  function Restored(w: real, s: real): (r: real)
    requires s > 0.0
    ensures IsQuotient(Nearest(Scaled(w, s)), r, s)
  {
    Product(Nearest(Scaled(w, s)), s)
  }

  function Product(v: real, s: real): (r: real)
    ensures IsQuotient(v, r, s)
  {
    v * s
  }

  lemma ScaledMagnitude(x: real, s: real)
    requires s > 0.0
    ensures Abs(x * s) == Abs(x) * s
  {
  }

  lemma SameWhenScaled(a: real, b: real, s: real)
    requires s > 0.0
    ensures a == b <==> a * s == b * s
    ensures a <= b <==> a * s <= b * s
  {
  }

  /** Magnitudes of x against a bound, read off x * s instead. */
  lemma BoundIsScaled(x: real, bound: real, s: real)
    requires s > 0.0
    ensures Abs(x) <= bound <==> Abs(x * s) <= bound * s
    ensures Abs(x) == bound <==> Abs(x * s) == bound * s
  {
    ScaledMagnitude(x, s);
    SameWhenScaled(Abs(x), bound, s);
  }

  lemma ErrorIsScaled(x: real, v: real, s: real)
    requires s > 0.0
    ensures Abs(x - v) <= 1.0 <==> Abs(x * s - v * s) <= s
    ensures Abs(x - v) == 1.0 <==> Abs(x * s - v * s) == s
  {
    assert (x - v) * s == x * s - v * s;
    BoundIsScaled(x - v, 1.0, s);
  }

  /** The facts about x and its value v, read in the units of the block. */
  lemma InBlockUnits(x: real, v: real, s: real)
    requires s > 0.0 && Abs(x * s) <= 6.0 * s
    ensures Abs(x) <= 6.0
    ensures Abs(x) == 5.0 <==> Abs(x * s) == 5.0 * s
    ensures Abs(x) == 6.0 <==> Abs(x * s) == 6.0 * s
    ensures Abs(v) <= 6.0 ==> Abs(v * s) <= 6.0 * s
    ensures Abs(x - v) <= 1.0 <==> Abs(x * s - v * s) <= s
    ensures Abs(x - v) == 1.0 <==> Abs(x * s - v * s) == s
  {
    BoundIsScaled(x, 6.0, s);
    BoundIsScaled(x, 5.0, s);
    BoundIsScaled(v, 6.0, s);
    ErrorIsScaled(x, v, s);
  }

  lemma NearestFacts(x: real)
    ensures Comparable(x, Nearest(x))
  {
    if Abs(x) <= 6.0 {
      NearestIsWithinOne(x);
    }
    if Abs(x) == 6.0 {
      NearestOfEnds(x);
    }
  }

  predicate Comparable(x: real, v: real) {
    Abs(x) <= 6.0 ==>
      Abs(x - v) <= 1.0 && (Abs(x - v) == 1.0 <==> Abs(x) == 5.0) && Abs(v) <= 6.0 && (Abs(x) == 6.0 ==> v == x)
  }

  /** w comes back as r: at most one scale away, no larger than the maximum, which stays itself. */
  predicate ComesBack(w: real, r: real, s: real) {
    Abs(w - r) <= s
    && (Abs(w - r) == s <==> Abs(w) == 5.0 * s)
    && Abs(r) <= 6.0 * s
    && (Abs(w) == 6.0 * s ==> r == w)
  }

  lemma ElementComesBack(w: real, x: real, v: real, r: real, s: real)
    requires s > 0.0 && IsQuotient(x, w, s) && IsQuotient(v, r, s) && Abs(w) <= 6.0 * s
    requires Comparable(x, v)
    ensures ComesBack(w, r, s)
  {
    InBlockUnits(x, v, s);
  }

  lemma RestoredComesBack(w: real, s: real)
    requires s > 0.0 && Abs(w) <= 6.0 * s
    ensures ComesBack(w, Restored(w, s), s)
  {
    NearestFacts(Scaled(w, s));
    ElementComesBack(w, Scaled(w, s), Nearest(Scaled(w, s)), Restored(w, s), s);
  }

  /** An element comes back within one scale, and only one of 5/6 of the maximum is that far off. */
  lemma ErrorBound(block: seq<real>, k: int)
    requires 0 <= k < |block|
    ensures ComesBack(block[k], Restored(block[k], Scale(block)), Scale(block))
  {
    RestoredComesBack(block[k], Scale(block));
  }

  function RestoredBlock(block: seq<real>, s: real): (r: seq<real>)
    requires s > 0.0
  {
    seq(|block|, k requires 0 <= k < |block| => Restored(block[k], s))
  }

  lemma AbsMaxIs(block: seq<real>, m: real)
    requires forall x <- block :: Abs(x) <= m
    requires exists x :: x in block && Abs(x) == m
    ensures AbsMax(block) == m
  {
    var x :| x in block && Abs(x) == m;
    assert Abs(x) <= AbsMax(block);
  }

  /** Quantizing what came back chooses the same scale. */
  lemma ScaleIsStable(block: seq<real>)
    ensures Scale(RestoredBlock(block, Scale(block))) == Scale(block)
  {
    var s := Scale(block);
    var back := RestoredBlock(block, s);
    forall x | x in back
      ensures Abs(x) <= 6.0 * s
    {
      var k :| 0 <= k < |back| && back[k] == x;
      RestoredComesBack(block[k], s);
    }
    if AbsMax(block) >= TINY {
      var w :| w in block && Abs(w) == AbsMax(block);
      var k :| 0 <= k < |block| && block[k] == w;
      RestoredComesBack(block[k], s);
      assert back[k] == w;
      AbsMaxIs(back, 6.0 * s);
    } else if AbsMax(back) != 0.0 {
      assert AbsMax(back) <= 6.0 * s;
    }
  }

  /** And the same values. */
  lemma QuotientIsUnique(x: real, y: real, w: real, s: real)
    requires s > 0.0 && IsQuotient(x, w, s) && IsQuotient(y, w, s)
    ensures x == y
  {
    SameWhenScaled(x, y, s);
  }

  lemma ValuesAreStable(w: real, s: real)
    requires s > 0.0
    ensures Nearest(Scaled(Restored(w, s), s)) == Nearest(Scaled(w, s))
  {
    var r := Restored(w, s);
    QuotientIsUnique(Scaled(r, s), Nearest(Scaled(w, s)), r, s);
    NearestIsStable(Scaled(w, s));
  }

  lemma NearestIsStable(x: real)
    ensures Nearest(Nearest(x)) == Nearest(x)
  {
    NoneIsNearer(x, 0);
    NearestOfValue(Choice(x));
  }

  // ----- Packing -----

  type nibble = n: int | 0 <= n < 16

  /** Two nibbles a byte, the even element in the low half. */
  function Pack(ns: seq<nibble>): (bs: seq<byte>)
    requires |ns| % 2 == 0
    ensures |bs| == |ns| / 2
  {
    if ns == [] then []
    else
      var lo: int, hi: int := ns[0], ns[1];
      [lo + hi * 16] + Pack(ns[2..])
  }

  /** A byte holds the even element in its low half and the odd one in its high half. */
  lemma {:induction false} PackedByte(ns: seq<nibble>, j: int)
    requires |ns| % 2 == 0 && 0 <= j < |ns| / 2
    ensures Pack(ns)[j] as int == ns[2 * j] as int + 16 * (ns[2 * j + 1] as int)
  {
    if j > 0 {
      PackedByte(ns[2..], j - 1);
      assert ns[2..][2 * (j - 1)] == ns[2 * j] && ns[2..][2 * (j - 1) + 1] == ns[2 * j + 1];
    }
  }

  function Unpack(bs: seq<byte>): (ns: seq<nibble>)
    ensures |ns| == 2 * |bs|
  {
    if bs == [] then [] else [bs[0] % 16, bs[0] / 16] + Unpack(bs[1..])
  }

  lemma {:induction false} PackingRoundTrip(ns: seq<nibble>)
    requires |ns| % 2 == 0
    ensures Unpack(Pack(ns)) == ns
  {
    if ns != [] {
      PackingRoundTrip(ns[2..]);
      var lo: int, hi: int := ns[0], ns[1];
      assert (lo + hi * 16) % 16 == lo && (lo + hi * 16) / 16 == hi;
      assert Pack(ns)[1..] == Pack(ns[2..]);
      assert ns == [ns[0], ns[1]] + ns[2..];
    }
  }

  // ----- Rows -----

  predicate IsRow(row: seq<real>) {
    |row| % BLOCK == 0
  }

  function BlockOf(row: seq<real>, b: int): (r: seq<real>)
    requires IsRow(row) && 0 <= b < |row| / BLOCK
    ensures |r| == BLOCK
  {
    row[BLOCK * b..BLOCK * b + BLOCK]
  }

  /** The scale of the block that holds position k. */
  function ScaleAt(row: seq<real>, k: int): (s: real)
    requires IsRow(row) && 0 <= k < |row|
    ensures s > 0.0
  {
    Scale(BlockOf(row, k / BLOCK))
  }

  function Scales(row: seq<real>): (r: seq<real>)
    requires IsRow(row)
    ensures |r| == |row| / BLOCK
  {
    seq(|row| / BLOCK, b requires 0 <= b < |row| / BLOCK => Scale(BlockOf(row, b)))
  }

  lemma WholeBlocks(row: seq<real>)
    requires IsRow(row)
    ensures |row| % 2 == 0 && 2 * (|row| / 2) == |row| == BLOCK * (|row| / BLOCK)
  {
  }

  function NibbleFor(w: real, s: real): nibble
    requires s > 0.0
  {
    ValueToNibble(Nearest(Scaled(w, s)))
  }

  function Nibbles(row: seq<real>): (r: seq<nibble>)
    requires IsRow(row)
    ensures |r| == |row|
  {
    seq(|row|, k requires 0 <= k < |row| => NibbleFor(row[k], ScaleAt(row, k)))
  }

  function Packed(row: seq<real>): (bs: seq<byte>)
    requires IsRow(row)
    ensures 2 * |bs| == |row|
  {
    WholeBlocks(row);
    Pack(Nibbles(row))
  }

  function Dequant(packed: seq<byte>, scales: seq<real>): (r: seq<real>)
    requires 2 * |packed| == BLOCK * |scales|
    ensures |r| == 2 * |packed|
  {
    var ns := Unpack(packed);
    seq(2 * |packed|, k requires 0 <= k < 2 * |packed| => Product(Table()[ns[k]], scales[k / BLOCK]))
  }

  function ThereAndBack(row: seq<real>): (r: seq<real>)
    requires IsRow(row)
    ensures |r| == |row| && IsRow(r)
  {
    WholeBlocks(row);
    Dequant(Packed(row), Scales(row))
  }

  lemma DequantAt(ns: seq<nibble>, scales: seq<real>, k: int)
    requires |ns| == BLOCK * |scales| && 0 <= k < |ns| && |ns| % 2 == 0
    ensures Dequant(Pack(ns), scales)[k] == Product(Table()[ns[k]], scales[k / BLOCK])
  {
    PackingRoundTrip(ns);
    assert Unpack(Pack(ns)) == ns;
  }

  lemma NibbleStandsForNearest(w: real, s: real)
    requires s > 0.0
    ensures Table()[NibbleFor(w, s)] == Nearest(Scaled(w, s))
  {
    NearestIsStable(Scaled(w, s));
  }

  /** Every position comes back as the value chosen for its element times the scale of its own block. */
  lemma LayoutRoundTrip(row: seq<real>, k: int)
    requires IsRow(row) && 0 <= k < |row|
    ensures ThereAndBack(row)[k] == Restored(row[k], ScaleAt(row, k))
  {
    WholeBlocks(row);
    DequantAt(Nibbles(row), Scales(row), k);
    NibbleStandsForNearest(row[k], ScaleAt(row, k));
  }

  lemma PlaceInBlock(row: seq<real>, k: int)
    requires IsRow(row) && 0 <= k < |row|
    ensures BlockOf(row, k / BLOCK)[k % BLOCK] == row[k]
  {
  }

  /** One element of a row is at most one scale off, and exactly one at 5/6 of its block's maximum. */
  lemma RowErrorBound(row: seq<real>, k: int)
    requires IsRow(row) && 0 <= k < |row|
    ensures ComesBack(row[k], ThereAndBack(row)[k], ScaleAt(row, k))
  {
    LayoutRoundTrip(row, k);
    PlaceInBlock(row, k);
    ErrorBound(BlockOf(row, k / BLOCK), k % BLOCK);
  }

  lemma ScaleWithin(block: seq<real>, m: real)
    requires m >= TINY && forall x <- block :: -m <= x <= m
    ensures 6.0 * Scale(block) <= m
  {
  }

  lemma BlockWithin(row: seq<real>, k: int, m: real)
    requires IsRow(row) && 0 <= k < |row|
    requires forall i :: 0 <= i < |row| && i / 16 == k / 16 ==> -m <= row[i] <= m
    ensures forall x <- BlockOf(row, k / BLOCK) :: -m <= x <= m
  {
    var b := k / BLOCK;
    forall x | x in BlockOf(row, b)
      ensures -m <= x <= m
    {
      var i :| 0 <= i < BLOCK && BlockOf(row, b)[i] == x;
      PlaceOfElement(row, b, i);
      assert row[BLOCK * b + i] == x;
    }
  }

  lemma WithinSixth(w: real, r: real, s: real, m: real)
    requires ComesBack(w, r, s) && 6.0 * s <= m && -6.0 * s <= w <= 6.0 * s
    ensures -m <= 6.0 * (r - w) <= m
    ensures w == m || w == -m ==> r == w
  {
  }

  /** In plain numbers: when nothing in the block of sixteen around position k is larger than m, and m is at least
      1e-12, the element comes back within m/6; and when it is itself as large as m, it comes back exactly. */
  lemma ElementWithinSixth(row: seq<real>, k: int, m: real)
    requires |row| % 16 == 0 && 0 <= k < |row| && m >= 0.000000000001
    requires forall i :: 0 <= i < |row| && i / 16 == k / 16 ==> -m <= row[i] <= m
    ensures -m <= 6.0 * (ThereAndBack(row)[k] - row[k]) <= m
    ensures row[k] == m || row[k] == -m ==> ThereAndBack(row)[k] == row[k]
  {
    RowErrorBound(row, k);
    BlockWithin(row, k, m);
    ScaleAtWithin(row, k, m);
    WithinSixth(row[k], ThereAndBack(row)[k], ScaleAt(row, k), m);
  }

  lemma ScaleAtWithin(row: seq<real>, k: int, m: real)
    requires IsRow(row) && 0 <= k < |row| && m >= TINY
    requires forall x <- BlockOf(row, k / BLOCK) :: -m <= x <= m
    ensures 6.0 * ScaleAt(row, k) <= m && -6.0 * ScaleAt(row, k) <= row[k] <= 6.0 * ScaleAt(row, k)
  {
    PlaceInBlock(row, k);
    ScaleWithin(BlockOf(row, k / BLOCK), m);
    MagnitudeWithin(BlockOf(row, k / BLOCK), row[k]);
  }

  lemma MagnitudeWithin(block: seq<real>, x: real)
    requires x in block
    ensures -6.0 * Scale(block) <= x <= 6.0 * Scale(block)
  {
    assert Abs(x) <= AbsMax(block);
  }

  lemma PlaceOfElement(row: seq<real>, b: int, i: int)
    requires IsRow(row) && 0 <= b < |row| / BLOCK && 0 <= i < BLOCK
    ensures 0 <= BLOCK * b + i < |row| && row[BLOCK * b + i] == BlockOf(row, b)[i]
    ensures (BLOCK * b + i) / BLOCK == b && (BLOCK * b + i) % BLOCK == i
  {
    WholeBlocks(row);
  }

  lemma ValueAtPlace(row: seq<real>, k: int, b: int, i: int)
    requires IsRow(row) && 0 <= k < |row| && b == k / BLOCK && i == k % BLOCK
    ensures BlockOf(ThereAndBack(row), b)[i] == Restored(BlockOf(row, b)[i], Scale(BlockOf(row, b)))
  {
    LayoutRoundTrip(row, k);
    PlaceInBlock(row, k);
    PlaceInBlock(ThereAndBack(row), k);
  }

  lemma BlockComesBack(row: seq<real>, b: int)
    requires IsRow(row) && 0 <= b < |row| / BLOCK
    ensures BlockOf(ThereAndBack(row), b) == RestoredBlock(BlockOf(row, b), Scale(BlockOf(row, b)))
  {
    var was, now, s := BlockOf(row, b), BlockOf(ThereAndBack(row), b), Scale(BlockOf(row, b));
    forall i | 0 <= i < BLOCK
      ensures now[i] == Restored(was[i], s)
    {
      PlaceOfElement(row, b, i);
      ValueAtPlace(row, BLOCK * b + i, b, i);
    }
    SameElements(now, was, s);
  }

  lemma SameElements(r: seq<real>, block: seq<real>, s: real)
    requires s > 0.0 && |r| == |block| && forall i :: 0 <= i < |block| ==> r[i] == Restored(block[i], s)
    ensures r == RestoredBlock(block, s)
  {
  }

  lemma ScaleComesBack(row: seq<real>, b: int)
    requires IsRow(row) && 0 <= b < |row| / BLOCK
    ensures Scale(BlockOf(ThereAndBack(row), b)) == Scale(BlockOf(row, b))
  {
    BlockComesBack(row, b);
    ScaleIsStable(BlockOf(row, b));
  }

  lemma NibbleComesBack(row: seq<real>, k: int)
    requires IsRow(row) && 0 <= k < |row|
    ensures Nibbles(ThereAndBack(row))[k] == Nibbles(row)[k]
  {
    LayoutRoundTrip(row, k);
    ScaleComesBack(row, k / BLOCK);
    ValuesAreStable(row[k], ScaleAt(row, k));
  }

  lemma ScalesComeBack(row: seq<real>)
    requires IsRow(row)
    ensures Scales(ThereAndBack(row)) == Scales(row)
  {
    forall b | 0 <= b < |row| / BLOCK
      ensures Scales(ThereAndBack(row))[b] == Scales(row)[b]
    {
      ScaleComesBack(row, b);
    }
  }

  /** Quantizing what came back gives the same bytes and the same scales. */
  lemma QuantizingIsIdempotent(row: seq<real>)
    requires IsRow(row)
    ensures Packed(ThereAndBack(row)) == Packed(row)
    ensures Scales(ThereAndBack(row)) == Scales(row)
  {
    ScalesComeBack(row);
    forall k | 0 <= k < |row|
      ensures Nibbles(ThereAndBack(row))[k] == Nibbles(row)[k]
    {
      NibbleComesBack(row, k);
    }
    assert Nibbles(ThereAndBack(row)) == Nibbles(row);
  }
}
