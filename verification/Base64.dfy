/**
 Base64 at byte level. The shifts and masks of the source are written as division, remainder and
 multiplication by powers of two, which on the values that occur here (a digit, a byte, or -1 for a
 character that is not in the alphabet) are the same numbers. A character is a Unicode scalar value,
 which agrees with the code units of the source on the Basic Multilingual Plane; others, and lone
 surrogates, are not modelled.
 Source: src/jobs.ts; the encoding is that of section 4 of RFC 4648.
 */
module Base64 {
  import opened Basics

  /** The symbols as the source lists them. */
  const LETTERS: string := "ABCDEFGHIJKLMNOPQRSTUVWXYZ" + "abcdefghijklmnopqrstuvwxyz" + "0123456789+/"

  // ----- The alphabet -----

  lemma {:induction false} HasFirstPlace(al: string, c: char)
    requires c in al
    ensures exists d :: 0 <= d < |al| && al[d] == c && c !in al[..d]
  {
    var init := al[..|al| - 1];
    if c in init {
      HasFirstPlace(init, c);
      var d :| 0 <= d < |init| && init[d] == c && c !in init[..d];
      assert al[..d] == init[..d];
      assert al[d] == c && c !in al[..d];
    } else {
      assert al[|al| - 1] == c;
    }
  }

  /** What `indexOf` answers for one character: its first place in the alphabet, or -1. */
  function IndexOf(al: string, c: char): (d: int)
    ensures -1 <= d < |al|
    ensures d == -1 <==> c !in al
    ensures d >= 0 ==> al[d] == c
  {
    if c !in al then -1
    else
      HasFirstPlace(al, c);
      var d :| 0 <= d < |al| && al[d] == c && c !in al[..d];
      d
  }

  /** What coding needs of its alphabet: 64 symbols, each found at its own place, and no padding. */
  predicate IsAlphabet(al: string) {
    |al| == 64
    && '=' !in al
    && forall d {:trigger IndexOf(al, al[d])} :: 0 <= d < 64 ==> IndexOf(al, al[d]) == d
  }

  /** The symbol of a 6-bit digit: the table of RFC 4648 in closed form. */
  function Symbol(d: int): char
    requires 0 <= d < 64
  {
    if d < 26 then 'A' + d as char
    else if d < 52 then 'a' + (d - 26) as char
    else if d < 62 then '0' + (d - 52) as char
    else if d == 62 then '+'
    else '/'
  }

  lemma LetterIsSymbol(d: int)
    requires 0 <= d < 64
    ensures |LETTERS| == 64 && LETTERS[d] == Symbol(d)
  {
    if d < 26 {
      assert LETTERS[d] == "ABCDEFGHIJKLMNOPQRSTUVWXYZ"[d];
    } else if d < 52 {
      assert LETTERS[d] == "abcdefghijklmnopqrstuvwxyz"[d - 26];
    } else {
      assert LETTERS[d] == "0123456789+/"[d - 52];
    }
  }

  lemma AlphabetIsRfcTable()
    ensures IsAlphabet(LETTERS) && forall d :: 0 <= d < 64 ==> LETTERS[d] == Symbol(d)
  {
    assert |LETTERS| == 64;
    forall d | 0 <= d < 64
      ensures LETTERS[d] == Symbol(d)
    {
      LetterIsSymbol(d);
    }
    RfcTableIsAlphabet(LETTERS);
  }

  lemma RfcTableIsAlphabet(al: string)
    requires |al| == 64 && forall d :: 0 <= d < 64 ==> al[d] == Symbol(d)
    ensures IsAlphabet(al)
  {
    forall d | 0 <= d < 64
      ensures IndexOf(al, al[d]) == d
    {
      SymbolsDiffer(d, IndexOf(al, al[d]));
    }
  }

  lemma SymbolsDiffer(d: int, e: int)
    requires 0 <= d < 64 && 0 <= e < 64 && Symbol(d) == Symbol(e)
    ensures d == e
  {
  }

  type Alphabet = al: string | IsAlphabet(al) witness (AlphabetIsRfcTable(); LETTERS)

  const ALPHABET: Alphabet := (AlphabetIsRfcTable(); LETTERS)

  lemma SymbolIsFound(al: Alphabet, d: int)
    requires 0 <= d < 64
    ensures IndexOf(al, al[d]) == d && al[d] in al && al[d] != '='
  {
  }

  // ----- The encoding of RFC 4648 -----

  /** Up to three bytes as a 24-bit number, filled with zero bits on the right. */
  function Group(bs: seq<byte>): (v: int)
    requires 1 <= |bs| <= 3
    ensures 0 <= v < 0x1000000
  {
    var b0: int := bs[0];
    var b1: int := if |bs| > 1 then bs[1] else 0;
    var b2: int := if |bs| > 2 then bs[2] else 0;
    b0 * 65536 + b1 * 256 + b2
  }

  /** The four 6-bit digits of a group; a digit that no input bit reaches is replaced by padding. */
  function Quantum(al: Alphabet, bs: seq<byte>): (q: string)
    requires 1 <= |bs| <= 3
    ensures |q| == 4
  {
    var v := Group(bs);
    [ al[v / 262144],
      al[v / 4096 % 64],
      if |bs| > 1 then al[v / 64 % 64] else '=',
      if |bs| > 2 then al[v % 64] else '=' ]
  }

  function Rfc4648(al: Alphabet, bs: seq<byte>): string {
    if |bs| == 0 then ""
    else if |bs| <= 3 then Quantum(al, bs)
    else Quantum(al, bs[..3]) + Rfc4648(al, bs[3..])
  }

  lemma {:induction false} EncodedLength(al: Alphabet, bs: seq<byte>)
    ensures |Rfc4648(al, bs)| == 4 * ((|bs| + 2) / 3)
  {
    assert (|bs| - 3 + 2) / 3 + 1 == (|bs| + 2) / 3;
    if |bs| > 3 {
      EncodedLength(al, bs[3..]);
    }
  }

  /** Four characters carry three bytes: read as digits of base 64 they are the number the bytes are as digits
      of base 256. At the end missing bytes count as zero, and padding stands where no byte reaches. */
  lemma {:induction false} CharactersCarryBytes(al: Alphabet, bs: seq<byte>, g: nat)
      returns (d0: int, d1: int, d2: int, d3: int)
    requires 3 * g < |bs|
    ensures 4 * g + 3 < |Rfc4648(al, bs)|
    ensures 0 <= d0 < 64 && 0 <= d1 < 64 && 0 <= d2 < 64 && 0 <= d3 < 64
    ensures d0 * 262144 + d1 * 4096 + d2 * 64 + d3
         == ByteAt(bs, 3 * g) * 65536 + ByteAt(bs, 3 * g + 1) * 256 + ByteAt(bs, 3 * g + 2)
    ensures Rfc4648(al, bs)[4 * g] == al[d0] && Rfc4648(al, bs)[4 * g + 1] == al[d1]
    ensures Rfc4648(al, bs)[4 * g + 2] == if 3 * g + 1 < |bs| then al[d2] else '='
    ensures Rfc4648(al, bs)[4 * g + 3] == if 3 * g + 2 < |bs| then al[d3] else '='
  {
    var first := if |bs| <= 3 then bs else bs[..3];
    if g > 0 {
      d0, d1, d2, d3 := CharactersCarryBytes(al, bs[3..], g - 1);
      assert forall i :: 3 <= i ==> ByteAt(bs[3..], i - 3) == ByteAt(bs, i);
      AfterQuantum(al, bs);
    } else {
      d0, d1, d2, d3 := QuantumCarriesBytes(al, first);
      assert Rfc4648(al, bs)[..4] == Quantum(al, first);
    }
  }

  lemma AfterQuantum(al: Alphabet, bs: seq<byte>)
    requires |bs| > 3
    ensures |Rfc4648(al, bs)| == 4 + |Rfc4648(al, bs[3..])|
    ensures forall k {:trigger Rfc4648(al, bs)[k]} :: 4 <= k < |Rfc4648(al, bs)| ==> Rfc4648(al, bs)[k] == Rfc4648(al, bs[3..])[k - 4]
  {
  }

  lemma QuantumCarriesBytes(al: Alphabet, bs: seq<byte>) returns (d0: int, d1: int, d2: int, d3: int)
    requires 1 <= |bs| <= 3
    ensures 0 <= d0 < 64 && 0 <= d1 < 64 && 0 <= d2 < 64 && 0 <= d3 < 64
    ensures d0 * 262144 + d1 * 4096 + d2 * 64 + d3 == ByteAt(bs, 0) * 65536 + ByteAt(bs, 1) * 256 + ByteAt(bs, 2)
    ensures Quantum(al, bs)[0] == al[d0] && Quantum(al, bs)[1] == al[d1]
    ensures Quantum(al, bs)[2] == if 1 < |bs| then al[d2] else '='
    ensures Quantum(al, bs)[3] == if 2 < |bs| then al[d3] else '='
  {
    var v := Group(bs);
    assert v == ByteAt(bs, 0) * 65536 + ByteAt(bs, 1) * 256 + ByteAt(bs, 2);
    d0, d1, d2, d3 := v / 262144, v / 4096 % 64, v / 64 % 64, v % 64;
    DigitsAddUp(v);
  }

  lemma DigitsAddUp(v: int)
    requires 0 <= v < 0x1000000
    ensures v / 262144 < 64 && v / 262144 * 262144 + v / 4096 % 64 * 4096 + v / 64 % 64 * 64 + v % 64 == v
  {
    var a := v / 64;
    var b := a / 64;
    assert v == 64 * a + v % 64 && a == 64 * b + a % 64;
    assert b == 64 * (b / 64) + b % 64;
    assert v / 4096 == b && v / 262144 == b / 64;
  }

  function Part(bs: seq<byte>, i: nat): (r: seq<byte>)
    requires i < |bs|
    ensures 1 <= |r| <= 3
  {
    if i + 3 <= |bs| then bs[i..i + 3] else bs[i..]
  }

  function ByteAt(bs: seq<byte>, i: nat): byte {
    if i < |bs| then bs[i] else 0
  }

  function Rest(al: Alphabet, bs: seq<byte>, i: nat): string {
    if i < |bs| then Rfc4648(al, bs[i..]) else ""
  }

  lemma RestStep(al: Alphabet, bs: seq<byte>, i: nat)
    requires i < |bs|
    ensures Rest(al, bs, i) == Quantum(al, Part(bs, i)) + Rest(al, bs, i + 3)
  {
    var t := bs[i..];
    if |t| > 3 {
      assert t[..3] == bs[i..i + 3];
      assert t[3..] == bs[i + 3..];
    } else if |t| == 3 {
      assert t == bs[i..i + 3];
    }
  }

  /** The digits the source takes from three bytes are those of the 24-bit number. */
  lemma DigitsOfGroup(b0: byte, b1: byte, b2: byte)
    ensures var v := b0 * 65536 + b1 * 256 + b2;
      v / 262144 == b0 / 4
      && v / 4096 % 64 == b0 % 4 * 16 + b1 / 16
      && v / 64 % 64 == b1 % 16 * 4 + b2 / 64
      && v % 64 == b2 % 64
  {
    DigitsOfParts(b0 / 4, b0 % 4, b1 / 16, b1 % 16, b2 / 64, b2 % 64);
  }

  lemma DigitsOfParts(h0: int, l0: int, h1: int, l1: int, h2: int, l2: int)
    requires 0 <= h0 < 64 && 0 <= l0 < 4 && 0 <= h1 < 16 && 0 <= l1 < 16 && 0 <= h2 < 4 && 0 <= l2 < 64
    ensures var v := (4 * h0 + l0) * 65536 + (16 * h1 + l1) * 256 + (64 * h2 + l2);
      v / 262144 == h0 && v / 4096 % 64 == l0 * 16 + h1 && v / 64 % 64 == l1 * 4 + h2 && v % 64 == l2
  {
    var v := (4 * h0 + l0) * 65536 + (16 * h1 + l1) * 256 + (64 * h2 + l2);
    assert v / 64 == 4096 * h0 + 64 * (l0 * 16 + h1) + (l1 * 4 + h2);
    assert v / 4096 == 64 * h0 + (l0 * 16 + h1);
  }

  /** The symbols of a group in terms of its bytes. */
  lemma QuantumFromBytes(al: Alphabet, bs: seq<byte>)
    requires 1 <= |bs| <= 3
    ensures var b0, b1, b2 := bs[0], ByteAt(bs, 1), ByteAt(bs, 2);
      Quantum(al, bs) == [
        al[b0 / 4],
        al[b0 % 4 * 16 + b1 / 16],
        if |bs| > 1 then al[b1 % 16 * 4 + b2 / 64] else '=',
        if |bs| > 2 then al[b2 % 64] else '=' ]
  {
    DigitsOfGroup(bs[0], ByteAt(bs, 1), ByteAt(bs, 2));
  }

  /** The same for the group that starts at position i, symbol by symbol. */
  lemma QuantumAt(al: Alphabet, bs: seq<byte>, i: nat)
    requires i < |bs|
    ensures var q, b0, b1, b2 := Quantum(al, Part(bs, i)), bs[i], ByteAt(bs, i + 1), ByteAt(bs, i + 2);
      q[0] == al[b0 / 4]
      && q[1] == al[b0 % 4 * 16 + b1 / 16]
      && q[2] == (if i + 1 < |bs| then al[b1 % 16 * 4 + b2 / 64] else '=')
      && q[3] == (if i + 2 < |bs| then al[b2 % 64] else '=')
  {
    var part := Part(bs, i);
    QuantumFromBytes(al, part);
    assert part[0] == bs[i] && ByteAt(part, 1) == ByteAt(bs, i + 1) && ByteAt(part, 2) == ByteAt(bs, i + 2);
  }

  lemma AppendedOneByOne(s: string, q: string, rest: string)
    requires |q| == 4
    ensures s + [q[0]] + [q[1]] + [q[2]] + [q[3]] + rest == s + (q + rest)
  {
    assert q == [q[0], q[1], q[2], q[3]];
  }

  /** The symbols appended for the group at position i are the next part of the encoding. */
  lemma GroupIsAppended(al: Alphabet, bs: seq<byte>, i: nat, out: string, c0: char, c1: char, c2: char, c3: char)
    requires i < |bs|
    requires c0 == al[bs[i] / 4]
    requires c1 == al[bs[i] % 4 * 16 + ByteAt(bs, i + 1) / 16]
    requires c2 == if i + 1 < |bs| then al[ByteAt(bs, i + 1) % 16 * 4 + ByteAt(bs, i + 2) / 64] else '='
    requires c3 == if i + 2 < |bs| then al[ByteAt(bs, i + 2) % 64] else '='
    ensures out + [c0] + [c1] + [c2] + [c3] + Rest(al, bs, i + 3) == out + Rest(al, bs, i)
  {
    RestStep(al, bs, i);
    QuantumAt(al, bs, i);
    AppendedOneByOne(out, Quantum(al, Part(bs, i)), Rest(al, bs, i + 3));
  }

  lemma DigitsInRange(b0: byte, b1: byte, b2: byte)
    ensures 0 <= b0 / 4 < 64
    ensures 0 <= b0 % 4 * 16 + b1 / 16 < 64
    ensures 0 <= b1 % 16 * 4 + b2 / 64 < 64
    ensures 0 <= b2 % 64 < 64
  {
  }

  method Encode(bs: seq<byte>, al: Alphabet := ALPHABET) returns (out: string)
    ensures out == Rfc4648(al, bs)
  {
    out := "";
    var i := 0;
    while i < |bs|
      invariant out + Rest(al, bs, i) == Rfc4648(al, bs)
    {
      var b0 := bs[i];
      var b1, b2 := ByteAt(bs, i + 1), ByteAt(bs, i + 2);
      DigitsInRange(b0, b1, b2);
      var c0 := al[b0 / 4];
      var c1 := al[b0 % 4 * 16 + b1 / 16];
      var c2 := if i + 1 < |bs| then al[b1 % 16 * 4 + b2 / 64] else '=';
      var c3 := if i + 2 < |bs| then al[b2 % 64] else '=';
      GroupIsAppended(al, bs, i, out, c0, c1, c2, c3);
      out := out + [c0];
      out := out + [c1];
      out := out + [c2];
      out := out + [c3];
      i := i + 3;
    }
  }

  // ----- Decoding -----

  /** The input without the '=' characters at its end. */
  function Stripped(s: string): (r: string)
    ensures r <= s && (r != "" ==> r[|r| - 1] != '=')
  {
    if s != "" && s[|s| - 1] == '=' then Stripped(s[..|s| - 1]) else s
  }

  /**
   A bitwise or of two parts that share no bit, stored in a byte array. A part that comes from a
   character outside the alphabet is -1: all bits set.
   */
  function Or(high: int, low: int): byte {
    if low == -1 then 255 else (high + low) % 256
  }

  /** The code the loop reads at position i; a missing character is searched for in vain. */
  function CodeAt(al: Alphabet, s: string, i: nat): (c: int)
    ensures -1 <= c < 64
  {
    if i < |s| then IndexOf(al, s[i]) else -1
  }

  function First(al: Alphabet, s: string, i: nat): seq<byte> {
    [Or(CodeAt(al, s, i) * 4, CodeAt(al, s, i + 1) / 16)]
  }

  function Second(al: Alphabet, s: string, i: nat): seq<byte> {
    if i + 2 < |s| then [Or(CodeAt(al, s, i + 1) % 16 * 16, CodeAt(al, s, i + 2) / 4)] else []
  }

  function Third(al: Alphabet, s: string, i: nat): seq<byte> {
    if i + 3 < |s| then [Or(CodeAt(al, s, i + 2) % 4 * 64, CodeAt(al, s, i + 3))] else []
  }

  /** The bytes of one group of up to four characters: one, two or three of them. */
  function GroupBytes(al: Alphabet, s: string, i: nat): seq<byte> {
    First(al, s, i) + Second(al, s, i) + Third(al, s, i)
  }

  function Decoded(al: Alphabet, s: string): seq<byte> {
    if s == "" then [] else GroupBytes(al, s, 0) + (if |s| <= 4 then [] else Decoded(al, s[4..]))
  }

  function DecodedRest(al: Alphabet, s: string, i: nat): seq<byte> {
    if i < |s| then Decoded(al, s[i..]) else []
  }

  lemma DecodedStep(al: Alphabet, s: string, i: nat)
    requires i < |s|
    ensures DecodedRest(al, s, i) == GroupBytes(al, s, i) + DecodedRest(al, s, i + 4)
  {
    var t := s[i..];
    assert GroupBytes(al, t, 0) == GroupBytes(al, s, i);
    if |t| > 4 {
      assert t[4..] == s[i + 4..];
    }
  }

  /** What four characters decode to, whatever they are: a character that is not in the alphabet, or is missing
      after the first, stands for all bits set, so it drowns every byte it is the lower part of. */
  lemma FourCharactersDecode(al: Alphabet, s: string, g: nat, c0: int, c1: int, c2: int, c3: int)
    requires 4 * g < |s| && c0 == IndexOf(al, s[4 * g])
    requires c1 == if 4 * g + 1 < |s| then IndexOf(al, s[4 * g + 1]) else -1
    requires 4 * g + 2 < |s| ==> c2 == IndexOf(al, s[4 * g + 2])
    requires 4 * g + 3 < |s| ==> c3 == IndexOf(al, s[4 * g + 3])
    ensures 3 * g < |Decoded(al, s)|
    ensures Decoded(al, s)[3 * g] == if c1 == -1 then 255 else (if c0 == -1 then 252 else 4 * c0) + c1 / 16
    ensures 4 * g + 2 < |s| ==>
      3 * g + 1 < |Decoded(al, s)|
      && Decoded(al, s)[3 * g + 1] == if c2 == -1 then 255 else (if c1 == -1 then 240 else c1 % 16 * 16) + c2 / 4
    ensures 4 * g + 3 < |s| ==>
      3 * g + 2 < |Decoded(al, s)|
      && Decoded(al, s)[3 * g + 2] == if c3 == -1 then 255 else (if c2 == -1 then 192 else c2 % 4 * 64) + c3
  {
    var before := BeforeGroup(al, s, 4 * g, 3 * g);
    AllIsLeft(al, s);
    var rest := DecodedRest(al, s, 4 * g + 4);
    DecodedStep(al, s, 4 * g);
    GroupDecodes(al, s, 4 * g, c0, c1, c2, c3);
    InTheMiddle(before, GroupBytes(al, s, 4 * g), rest);
  }

  lemma InTheMiddle<T>(a: seq<T>, b: seq<T>, c: seq<T>)
    ensures forall t :: 0 <= t < |b| ==> |a| + t < |a + (b + c)| && (a + (b + c))[|a| + t] == b[t]
  {
  }

  /** What the groups before position p decode to: q bytes. */
  lemma {:induction false} BeforeGroup(al: Alphabet, s: string, p: nat, q: nat) returns (before: seq<byte>)
    requires p < |s| && 3 * p == 4 * q
    ensures |before| == q && DecodedRest(al, s, 0) == before + DecodedRest(al, s, p)
  {
    if p == 0 {
      before := [];
    } else {
      var init := BeforeGroup(al, s, p - 4, q - 3);
      var group := WholeGroup(al, s, p - 4);
      before := init + group;
      JoinsInAnyOrder(init, group, DecodedRest(al, s, p));
    }
  }

  lemma AllIsLeft(al: Alphabet, s: string)
    ensures [] + DecodedRest(al, s, 0) == Decoded(al, s)
  {
    assert s[0..] == s;
    assert DecodedRest(al, s, 0) == Decoded(al, s);
  }

  lemma WholeGroup(al: Alphabet, s: string, i: nat) returns (group: seq<byte>)
    requires i + 4 < |s|
    ensures |group| == 3 && DecodedRest(al, s, i) == group + DecodedRest(al, s, i + 4)
  {
    DecodedStep(al, s, i);
    group := GroupBytes(al, s, i);
  }

  lemma GroupDecodes(al: Alphabet, s: string, i: nat, c0: int, c1: int, c2: int, c3: int)
    requires i < |s| && c0 == CodeAt(al, s, i) && c1 == CodeAt(al, s, i + 1)
    requires (i + 2 < |s| ==> c2 == CodeAt(al, s, i + 2)) && (i + 3 < |s| ==> c3 == CodeAt(al, s, i + 3))
    ensures var bytes := GroupBytes(al, s, i);
      |bytes| == (if i + 3 < |s| then 3 else if i + 2 < |s| then 2 else 1)
      && bytes[0] == (if c1 == -1 then 255 else (if c0 == -1 then 252 else 4 * c0) + c1 / 16)
      && (i + 2 < |s| ==> bytes[1] == if c2 == -1 then 255 else (if c1 == -1 then 240 else c1 % 16 * 16) + c2 / 4)
      && (i + 3 < |s| ==> bytes[2] == if c3 == -1 then 255 else (if c2 == -1 then 192 else c2 % 4 * 64) + c3)
  {
    HighAndLow(c0, c1);
    if i + 2 < |s| {
      MiddleParts(c1, c2);
    }
  }

  lemma HighAndLow(high: int, low: int)
    requires -1 <= high < 64 && -1 <= low < 64
    ensures Or(high * 4, low / 16) == if low == -1 then 255 else (if high == -1 then 252 else 4 * high) + low / 16
  {
  }

  lemma MiddleParts(high: int, low: int)
    requires -1 <= high < 64 && -1 <= low < 64
    ensures Or(high % 16 * 16, low / 4) == if low == -1 then 255 else (if high == -1 then 240 else high % 16 * 16) + low / 4
  {
  }

  lemma AppendedInParts<T>(s: seq<T>, a: seq<T>, b: seq<T>, c: seq<T>, rest: seq<T>)
    ensures s + a + b + c + rest == s + (a + b + c + rest)
  {
  }

  method Decode(input: string, al: Alphabet := ALPHABET) returns (bytes: seq<byte>)
    ensures bytes == Decoded(al, Stripped(input))
  {
    var clean := Stripped(input);
    bytes := [];
    var i := 0;
    AllIsLeft(al, clean);
    while i < |clean|
      invariant bytes + DecodedRest(al, clean, i) == Decoded(al, clean)
    {
      ghost var rest := DecodedRest(al, clean, i + 4);
      DecodedStep(al, clean, i);
      AppendedInParts(bytes, First(al, clean, i), Second(al, clean, i), Third(al, clean, i), rest);
      var c0 := IndexOf(al, clean[i]);
      var c1 := if i + 1 < |clean| then IndexOf(al, clean[i + 1]) else -1;
      var c2 := if i + 2 < |clean| then IndexOf(al, clean[i + 2]) else 0;
      var c3 := if i + 3 < |clean| then IndexOf(al, clean[i + 3]) else 0;
      assert c0 == CodeAt(al, clean, i) && c1 == CodeAt(al, clean, i + 1);
      bytes := bytes + [Or(c0 * 4, c1 / 16)];
      if i + 2 < |clean| {
        assert c2 == CodeAt(al, clean, i + 2);
        bytes := bytes + [Or(c1 % 16 * 16, c2 / 4)];
      }
      if i + 3 < |clean| {
        assert c3 == CodeAt(al, clean, i + 3);
        bytes := bytes + [Or(c2 % 4 * 64, c3)];
      }
      i := i + 4;
    }
  }

  // ----- Round trip -----

  lemma {:induction false} StripAfter(a: string, b: string)
    ensures Stripped(a + b) == if Stripped(b) != "" then a + Stripped(b) else Stripped(a)
  {
    var ab := a + b;
    if b == "" {
      assert ab == a;
    } else {
      assert ab[|ab| - 1] == b[|b| - 1];
      if b[|b| - 1] == '=' {
        var init := b[..|b| - 1];
        assert ab[..|ab| - 1] == a + init;
        StripAfter(a, init);
      }
    }
  }

  lemma StripFour(q: string)
    requires |q| == 4 && q[1] != '='
    ensures Stripped(q) == if q[3] != '=' then q else if q[2] != '=' then q[..3] else q[..2]
  {
    if q[3] == '=' {
      var q3 := q[..3];
      assert Stripped(q) == Stripped(q3);
      assert q3[..2] == q[..2] && q3[2] == q[2];
      assert q[..2][1] == q[1];
    }
  }

  lemma SymbolsAreFound(al: Alphabet, bs: seq<byte>)
    requires 1 <= |bs| <= 3
    ensures var q, b0, b1, b2 := Quantum(al, bs), bs[0], ByteAt(bs, 1), ByteAt(bs, 2);
      q[0] in al && IndexOf(al, q[0]) == b0 / 4
      && q[1] in al && IndexOf(al, q[1]) == b0 % 4 * 16 + b1 / 16
      && (if |bs| > 1 then q[2] in al && IndexOf(al, q[2]) == b1 % 16 * 4 + b2 / 64 else q[2] == '=')
      && (if |bs| > 2 then q[3] in al && IndexOf(al, q[3]) == b2 % 64 else q[3] == '=')
  {
    var b0, b1, b2 := bs[0], ByteAt(bs, 1), ByteAt(bs, 2);
    QuantumFromBytes(al, bs);
    SymbolIsFound(al, b0 / 4);
    SymbolIsFound(al, b0 % 4 * 16 + b1 / 16);
    SymbolIsFound(al, b1 % 16 * 4 + b2 / 64);
    SymbolIsFound(al, b2 % 64);
  }

  /** One group of bytes survives: the padding goes and every digit is found again. */
  lemma QuantumIsInverted(al: Alphabet, bs: seq<byte>)
    requires 1 <= |bs| <= 3
    ensures Stripped(Quantum(al, bs)) == Quantum(al, bs)[..|bs| + 1]
    ensures GroupBytes(al, Quantum(al, bs)[..|bs| + 1], 0) == bs
  {
    SymbolsAreFound(al, bs);
    StripFour(Quantum(al, bs));
    BytesOfDigits(bs[0], ByteAt(bs, 1), ByteAt(bs, 2));
  }

  lemma BytesOfDigits(b0: byte, b1: byte, b2: byte)
    ensures Or(b0 / 4 * 4, (b0 % 4 * 16 + b1 / 16) / 16) == b0
    ensures Or((b0 % 4 * 16 + b1 / 16) % 16 * 16, (b1 % 16 * 4 + b2 / 64) / 4) == b1
    ensures Or((b1 % 16 * 4 + b2 / 64) % 4 * 64, b2 % 64) == b2
  {
    Joined(b0 % 4, b1 / 16, 16);
    Joined(b1 % 16, b2 / 64, 4);
    Whole(b0, 4);
    Whole(b1, 16);
    Whole(b2, 64);
  }

  lemma Whole(b: byte, shift: int)
    requires shift in {4, 16, 64}
    ensures Or(b / shift * shift, b % shift) == b
  {
  }

  /** Two digits packed by a shift of one are taken apart again. */
  lemma Joined(high: int, low: int, shift: int)
    requires high >= 0 && 0 <= low < shift && shift in {4, 16}
    ensures (high * shift + low) / shift == high && (high * shift + low) % shift == low
  {
  }

  lemma {:induction false} RoundTrip(al: Alphabet, bs: seq<byte>)
    ensures Decoded(al, Stripped(Rfc4648(al, bs))) == bs
  {
    if 0 < |bs| <= 3 {
      QuantumIsInverted(al, bs);
    } else if |bs| > 3 {
      var q, rest := Quantum(al, bs[..3]), Rfc4648(al, bs[3..]);
      RoundTrip(al, bs[3..]);
      QuantumIsInverted(al, bs[..3]);
      StripAfter(q, rest);
      assert q[..4] == q;
      DecodedAfterGroup(al, q, Stripped(rest));
      assert bs == bs[..3] + bs[3..];
    }
  }

  // ----- Which strings survive the other way round -----

  predicate InAlphabet(al: Alphabet, s: string) {
    forall c <- s :: c in al
  }

  /** The last four characters: padding only at the end, and no stray bits before it. */
  predicate CanonicalEnd(al: Alphabet, q: string)
    requires |q| == 4
  {
    q[0] in al && q[1] in al
    && (q[2] == '=' ==> q[3] == '=' && IndexOf(al, q[1]) % 16 == 0)
    && (q[2] != '=' ==> q[2] in al)
    && (q[2] != '=' && q[3] == '=' ==> IndexOf(al, q[2]) % 4 == 0)
    && (q[3] != '=' ==> q[3] in al)
  }

  /** The strings that section 4 of RFC 4648 produces. */
  predicate Canonical(al: Alphabet, s: string) {
    s == ""
    || (|s| == 4 && CanonicalEnd(al, s))
    || (|s| > 4 && InAlphabet(al, s[..4]) && Canonical(al, s[4..]))
  }

  lemma QuantumIsCanonical(al: Alphabet, bs: seq<byte>)
    requires 1 <= |bs| <= 3
    ensures CanonicalEnd(al, Quantum(al, bs))
    ensures |bs| == 3 ==> InAlphabet(al, Quantum(al, bs))
  {
    SymbolsAreFound(al, bs);
    Joined(bs[0] % 4, 0, 16);
    Joined(ByteAt(bs, 1) % 16, 0, 4);
  }

  lemma {:induction false} EncodingIsCanonical(al: Alphabet, bs: seq<byte>)
    ensures Canonical(al, Rfc4648(al, bs))
  {
    if 0 < |bs| <= 3 {
      QuantumIsCanonical(al, bs);
    } else if |bs| > 3 {
      QuantumIsCanonical(al, bs[..3]);
      EncodingIsCanonical(al, bs[3..]);
      EncodedLength(al, bs[3..]);
      var s := Rfc4648(al, bs);
      assert s[..4] == Quantum(al, bs[..3]) && s[4..] == Rfc4648(al, bs[3..]);
    }
  }

  lemma DigitsOfBytes(c0: int, c1: int, c2: int, c3: int)
    requires 0 <= c0 < 64 && 0 <= c1 < 64 && 0 <= c2 < 64 && 0 <= c3 < 64
    ensures var b0, b1, b2 := Or(c0 * 4, c1 / 16), Or(c1 % 16 * 16, c2 / 4), Or(c2 % 4 * 64, c3);
      b0 / 4 == c0 && b0 % 4 * 16 + b1 / 16 == c1 && b1 % 16 * 4 + b2 / 64 == c2 && b2 % 64 == c3
  {
    OrOf(c0, c1 / 16, 4);
    OrOf(c1 % 16, c2 / 4, 16);
    OrOf(c2 % 4, c3, 64);
  }

  lemma OrOf(high: int, low: int, shift: int)
    requires shift in {4, 16, 64} && 0 <= low < shift && 0 <= high * shift + low < 256
    ensures Or(high * shift, low) / shift == high && Or(high * shift, low) % shift == low
  {
    assert Or(high * shift, low) == high * shift + low;
  }

  /** The bytes of a group whose padding is in order, by its four digits. */
  lemma GroupFromDigits(al: Alphabet, q: string, c2: int, c3: int)
    requires |q| == 4 && CanonicalEnd(al, q)
    requires c2 == (if q[2] == '=' then 0 else IndexOf(al, q[2]))
    requires c3 == (if q[3] == '=' then 0 else IndexOf(al, q[3]))
    ensures var c0, c1, bs := IndexOf(al, q[0]), IndexOf(al, q[1]), GroupBytes(al, Stripped(q), 0);
      Stripped(q) != ""
      && |bs| == (if q[2] == '=' then 1 else if q[3] == '=' then 2 else 3)
      && bs[0] == Or(c0 * 4, c1 / 16)
      && ByteAt(bs, 1) == Or(c1 % 16 * 16, c2 / 4)
      && ByteAt(bs, 2) == Or(c2 % 4 * 64, c3)
  {
    StripFour(q);
    NoStrayBits(IndexOf(al, q[1]), c2);
  }

  lemma GroupIsReencoded(al: Alphabet, q: string)
    requires |q| == 4 && CanonicalEnd(al, q)
    ensures var bs := GroupBytes(al, Stripped(q), 0);
      Stripped(q) != "" && 1 <= |bs| <= 3 && Quantum(al, bs) == q && (q[3] != '=' ==> |bs| == 3)
  {
    var c2 := if q[2] == '=' then 0 else IndexOf(al, q[2]);
    var c3 := if q[3] == '=' then 0 else IndexOf(al, q[3]);
    var bs := GroupBytes(al, Stripped(q), 0);
    GroupFromDigits(al, q, c2, c3);
    DigitsOfBytes(IndexOf(al, q[0]), IndexOf(al, q[1]), c2, c3);
    QuantumWithDigits(al, bs, q);
  }

  lemma QuantumWithDigits(al: Alphabet, bs: seq<byte>, q: string)
    requires |q| == 4 && CanonicalEnd(al, q)
    requires |bs| == if q[2] == '=' then 1 else if q[3] == '=' then 2 else 3
    requires bs[0] / 4 == IndexOf(al, q[0])
    requires bs[0] % 4 * 16 + ByteAt(bs, 1) / 16 == IndexOf(al, q[1])
    requires q[2] != '=' ==> ByteAt(bs, 1) % 16 * 4 + ByteAt(bs, 2) / 64 == IndexOf(al, q[2])
    requires q[3] != '=' ==> ByteAt(bs, 2) % 64 == IndexOf(al, q[3])
    ensures Quantum(al, bs) == q
  {
    QuantumFromBytes(al, bs);
  }

  lemma NoStrayBits(c1: int, c2: int)
    ensures c1 % 16 == 0 ==> Or(c1 % 16 * 16, 0 / 4) == 0
    ensures c2 % 4 == 0 ==> Or(c2 % 4 * 64, 0) == 0
  {
  }

  lemma {:induction false} CanonicalIsReencoded(al: Alphabet, s: string)
    requires Canonical(al, s)
    ensures Rfc4648(al, Decoded(al, Stripped(s))) == s
    ensures s != "" ==> Decoded(al, Stripped(s)) != []
  {
    if |s| == 4 {
      GroupIsReencoded(al, s);
      SingleGroup(al, Stripped(s), GroupBytes(al, Stripped(s), 0));
    } else if |s| > 4 {
      var q, rest := s[..4], s[4..];
      CanonicalIsReencoded(al, rest);
      FullGroupIsReencoded(al, q);
      assert s == q + rest;
      StripAfter(q, rest);
      DecodedAfterGroup(al, q, Stripped(rest));
      EncodedAfterGroup(al, GroupBytes(al, q, 0), Decoded(al, Stripped(rest)));
    }
  }

  lemma FullGroupIsReencoded(al: Alphabet, q: string)
    requires |q| == 4 && InAlphabet(al, q)
    ensures Stripped(q) == q && |GroupBytes(al, q, 0)| == 3 && Quantum(al, GroupBytes(al, q, 0)) == q
  {
    assert q[0] in q && q[1] in q && q[2] in q && q[3] in q;
    GroupIsReencoded(al, q);
    StripFour(q);
  }

  lemma SingleGroup(al: Alphabet, s: string, bs: seq<byte>)
    requires 1 <= |s| <= 4 && 1 <= |bs| <= 3
    ensures Decoded(al, s) == GroupBytes(al, s, 0) && Rfc4648(al, bs) == Quantum(al, bs)
  {
    assert GroupBytes(al, s, 0) + [] == GroupBytes(al, s, 0);
  }

  lemma EncodedAfterGroup(al: Alphabet, bs: seq<byte>, rest: seq<byte>)
    requires |bs| == 3
    ensures Rfc4648(al, bs + rest) == Quantum(al, bs) + Rfc4648(al, rest)
  {
    assert (bs + rest)[..3] == bs && (bs + rest)[3..] == rest;
    if rest == [] {
      assert bs + rest == bs;
    }
  }

  lemma DecodedAfterGroup(al: Alphabet, q: string, rest: string)
    requires |q| == 4
    ensures Decoded(al, q + rest) == GroupBytes(al, q, 0) + Decoded(al, rest)
  {
    var s := q + rest;
    assert GroupBytes(al, s, 0) == GroupBytes(al, q, 0);
    if |s| > 4 {
      assert s[4..] == rest;
    }
  }

  /** Decoding and encoding again gives the same string exactly for the canonical encodings. */
  lemma ReencodesIffCanonical(al: Alphabet, s: string)
    ensures Rfc4648(al, Decoded(al, Stripped(s))) == s <==> Canonical(al, s)
  {
    EncodingIsCanonical(al, Decoded(al, Stripped(s)));
    if Canonical(al, s) {
      CanonicalIsReencoded(al, s);
    }
  }
}
