/**
 The CRC of memdisk: the table built by makecrc (memdisk/inflate.c) and the update in flush_window
 (memdisk/unzip.c), against the bit-serial CRC-32 of section 8 of RFC 1952. A 32-bit register is
 modelled by its bits, least significant first.
 */
module Crc32 {
  import opened Widths
  import opened Bits

  type word = w: seq<bool> | |w| == 32 witness seq(32, _ => false)

  function Fill(b: bool): word {
    seq(32, _ => b)
  }

  const ZERO: word := Fill(false)
  const ONES: word := Fill(true)

  function Xor(a: word, b: word): word {
    seq(32, i requires 0 <= i < 32 => a[i] != b[i])
  }

  /** The register shifted right by n. */
  function Right(a: word, n: nat): (r: word)
    requires n <= 32
  {
    a[n..] + seq(n, _ => false)
  }

  function LowByte(a: word): word {
    a[..8] + seq(24, _ => false)
  }

  /** A byte in the low end of a register. */
  function FromByte(x: Byte): word {
    seq(32, i requires 0 <= i < 32 => i < 8 && Shr(x, i) % 2 == 1)
  }

  // ---- Section 8 of RFC 1952, one bit at a time ----

  /** 0xedb88320: the hexadecimal digits from the last, four bits each, low bit first. */
  const POLY: word := [false, false, false, false,  false, true, false, false,  true, true, false, false,
                       false, false, false, true,   false, false, false, true,  true, true, false, true,
                       true, false, true, true,     false, true, true, true]

  function Shift(c: word): word {
    if c[0] then Xor(POLY, Right(c, 1)) else Right(c, 1)
  }

  function Shifts(c: word, n: nat): word {
    if n == 0 then c else Shift(Shifts(c, n - 1))
  }

  function CrcByte(c: word, x: Byte): word {
    Shifts(Xor(c, FromByte(x)), 8)
  }

  /** The register after the bytes s. */
  function Crc(c: word, s: seq<Byte>): word {
    if |s| == 0 then c else CrcByte(Crc(c, s[..|s| - 1]), s[|s| - 1])
  }

  /** The CRC of a stream: the register started with ones and complemented at the end. */
  function Checksum(s: seq<Byte>): word {
    Xor(Crc(ONES, s), ONES)
  }

  /** Feeding a stream in pieces gives the same register as feeding it whole. */
  lemma {:induction false} CrcAppend(c: word, s: seq<Byte>, t: seq<Byte>)
    ensures Crc(c, s + t) == Crc(Crc(c, s), t)
  {
    if |t| == 0 {
      assert s + t == s;
    } else {
      var t' := t[..|t| - 1];
      CrcAppend(c, s, t');
      assert (s + t)[..|s + t| - 1] == s + t';
    }
  }

  // ---- A byte at a time ----

  lemma ShiftXor(a: word, b: word)
    ensures Shift(Xor(a, b)) == Xor(Shift(a), Shift(b))
  {
    assert Right(Xor(a, b), 1) == Xor(Right(a, 1), Right(b, 1));
  }

  lemma {:induction false} ShiftsXor(a: word, b: word, n: nat)
    ensures Shifts(Xor(a, b), n) == Xor(Shifts(a, n), Shifts(b, n))
  {
    if n > 0 {
      ShiftsXor(a, b, n - 1);
      ShiftXor(Shifts(a, n - 1), Shifts(b, n - 1));
    }
  }

  /** Zero bits shift out without touching the rest. */
  lemma {:induction false} ShiftsZeros(c: word, n: nat)
    requires n <= 32 && forall i :: 0 <= i < n ==> !c[i]
    ensures Shifts(c, n) == Right(c, n)
  {
    if n > 0 {
      ShiftsZeros(c, n - 1);
      assert Right(c, n - 1)[0] == c[n - 1];
      assert Right(Right(c, n - 1), 1) == Right(c, n);
    } else {
      assert Right(c, 0) == c;
    }
  }

  /** Eight shifts at once: look up the low byte, shift the rest down. */
  lemma ByteAtOnce(c: word)
    ensures Shifts(c, 8) == Xor(Shifts(LowByte(c), 8), Right(c, 8))
  {
    var hi := Xor(c, LowByte(c));
    assert Xor(LowByte(c), hi) == c;
    ShiftsXor(LowByte(c), hi, 8);
    ShiftsZeros(hi, 8);
    assert Right(hi, 8) == Right(c, 8);
  }

  function Index(c: word): Byte {
    assert Pow2(8) == 256 by { Pow2Table(); }
    Value(c[..8])
  }

  lemma IndexOfLow(c: word)
    ensures FromByte(Index(c)) == LowByte(c)
  {
    forall i | 0 <= i < 32
      ensures FromByte(Index(c))[i] == LowByte(c)[i]
    {
      if i < 8 { ValueBit(c[..8], i); }
    }
  }

  /** The table holds, for every byte, eight shifts of it. */
  ghost predicate GoodTable(tab: seq<word>) {
    |tab| == 256 && forall i :: 0 <= i < 256 ==> tab[i] == Shifts(FromByte(i), 8)
  }

  /** The table update of flush_window. */
  function Update(tab: seq<word>, c: word, ch: Byte): word
    requires |tab| == 256
  {
    Xor(tab[Index(Xor(c, FromByte(ch)))], Right(c, 8))
  }

  /** The table update is the bit-serial CRC of one more byte. */
  lemma UpdateIsCrcByte(tab: seq<word>, c: word, ch: Byte)
    requires GoodTable(tab)
    ensures Update(tab, c, ch) == CrcByte(c, ch)
  {
    var x := Xor(c, FromByte(ch));
    ByteAtOnce(x);
    IndexOfLow(x);
    assert Right(x, 8) == Right(c, 8);
  }

  // ---- makecrc ----

  const TERMS: seq<nat> := [0, 1, 2, 4, 5, 7, 8, 10, 11, 12, 16, 22, 23, 26]

  /** The exclusive-or pattern, from the terms of the polynomial. */
  method MakePattern() returns (e: word)
    ensures e == POLY
  {
    e := ZERO;
    for i := 0 to |TERMS|
      invariant forall b :: 0 <= b < 32 ==> (e[b] <==> exists j :: 0 <= j < i && TERMS[j] == 31 - b)
    {
      e := e[31 - TERMS[i] := true];
    }
    PatternIsPoly(e);
  }

  lemma PatternIsPoly(e: word)
    requires forall b :: 0 <= b < 32 ==> (e[b] <==> exists j :: 0 <= j < |TERMS| && TERMS[j] == 31 - b)
    ensures e == POLY
  {
    forall b | 0 <= b < 32
      ensures e[b] == POLY[b]
    {
      assert TERMS[0] == 0 && TERMS[1] == 1 && TERMS[2] == 2 && TERMS[3] == 4 && TERMS[4] == 5 && TERMS[5] == 7;
      assert TERMS[6] == 8 && TERMS[7] == 10 && TERMS[8] == 11 && TERMS[9] == 12 && TERMS[10] == 16;
      assert TERMS[11] == 22 && TERMS[12] == 23 && TERMS[13] == 26;
    }
  }

  /** x is what is left of the byte, c what its shifted-out bits have contributed. */
  lemma ShiftIn(x: word, c: word)
    ensures Shift(Xor(x, c)) == Xor(Right(x, 1), if x[0] then Xor(Shift(c), POLY) else Shift(c))
  {
    assert Right(Xor(x, c), 1) == Xor(Right(x, 1), Right(c, 1));
  }

  /** One entry of the table: the bits of i, low first, under a marker bit that ends the loop. */
  method TableEntry(i: Byte, e: word) returns (c: word)
    requires e == POLY
    ensures c == Shifts(FromByte(i), 8)
  {
    hide Shifts, Xor, Right, FromByte, Shift, Shr, Shl, POLY, ZERO;
    ghost var x := FromByte(i);
    c := ZERO;
    var k := i + 256;
    ghost var n := 0;
    EntryStart(i);
    while k != 1
      invariant 0 <= n <= 8 && Marked(i, k, n)
      invariant Shifts(x, n) == Xor(Right(x, n), c)
      decreases 8 - n
    {
      MarkedNext(i, k, n);
      EntryStep(i, x, n, c);
      c := ShiftBy(e, c);
      if k % 2 == 1 {
        c := Xor(c, e);
      }
      k := k / 2;
      n := n + 1;
    }
    EntryEnd(i, n, c);
  }

  /** c ? (c >> 1) ^ e : c >> 1, by the low bit of c. */
  function ShiftBy(e: word, c: word): (r: word)
    ensures e == POLY ==> r == Shift(c)
  {
    if c[0] then Xor(e, Right(c, 1)) else Right(c, 1)
  }

  /** After n rounds k holds the bits of i that are left, under the marker. */
  predicate Marked(i: Byte, k: int, n: nat)
    requires n <= 8
  {
    k == Shr(i, n) + Shl(1, 8 - n) && Shr(i, n) < Shl(1, 8 - n)
  }

  lemma EntryStart(i: Byte)
    ensures Marked(i, i + 256, 0)
    ensures Shifts(FromByte(i), 0) == Xor(Right(FromByte(i), 0), ZERO)
  {
    assert Right(FromByte(i), 0) == FromByte(i) == Xor(FromByte(i), ZERO);
    assert Shl(1, 8) == 256;
  }

  lemma MarkedNext(i: Byte, k: int, n: nat)
    requires n <= 8 && Marked(i, k, n) && k != 1
    ensures n < 8 && k % 2 == Shr(i, n) % 2 && Marked(i, k / 2, n + 1)
  {
  }

  lemma EntryEnd(i: Byte, n: nat, c: word)
    requires n <= 8 && Marked(i, 1, n) && Shifts(FromByte(i), n) == Xor(Right(FromByte(i), n), c)
    ensures c == Shifts(FromByte(i), 8)
  {
    assert n == 8;
    assert Right(FromByte(i), 8) == ZERO;
    assert Xor(ZERO, c) == c;
  }

  lemma EntryStep(i: Byte, x: word, n: nat, c: word)
    requires n < 8 && x == FromByte(i) && Shifts(x, n) == Xor(Right(x, n), c)
    ensures Shifts(x, n + 1) == Xor(Right(x, n + 1), if Shr(i, n) % 2 == 1 then Xor(Shift(c), POLY) else Shift(c))
  {
    ShiftIn(Right(x, n), c);
    assert Right(Right(x, n), 1) == Right(x, n + 1);
  }

  /** The table of makecrc. */
  method MakeCrc() returns (tab: seq<word>)
    ensures GoodTable(tab)
  {
    var e := MakePattern();
    tab := [ZERO];
    ZeroEntry();
    for i := 1 to 256
      invariant |tab| == i && forall j :: 0 <= j < i ==> tab[j] == Shifts(FromByte(j), 8)
    {
      var c := TableEntry(i, e);
      tab := tab + [c];
    }
  }

  lemma ZeroEntry()
    ensures Shifts(FromByte(0), 8) == ZERO
  {
    forall i | 0 <= i < 32
      ensures !FromByte(0)[i]
    {
      ShrOfZero(i);
    }
    assert FromByte(0) == ZERO;
    ShiftsZeros(ZERO, 8);
    assert Right(ZERO, 8) == ZERO;
  }

  lemma {:induction false} ShrOfZero(n: nat)
    ensures Shr(0, n) == 0
  {
    if n > 0 { ShrOfZero(n - 1); }
  }

  // ---- A known value ----

  /** 0x12B88320. */
  const CRC_OF_7F: word := [false, false, false, false, false, true, false, false,
                             true, true, false, false, false, false, false, true,
                             false, false, false, true, true, true, false, true,
                             false, true, false, false, true, false, false, false]

  /** The CRC of the byte 0x7F: seven bits shift out, and the eighth brings in the polynomial. */
  lemma KnownValue()
    ensures Checksum([0x7F]) == CRC_OF_7F
  {
    hide Shift, Shifts, CRC_OF_7F;
    var x := Xor(ONES, FromByte(0x7F));
    StartBits();
    ShiftsZeros(x, 7);
    OneMore(x);
    LastShift(Right(x, 7));
    assert [0x7F][..0] == [];
  }

  lemma OneMore(x: word)
    ensures Shifts(x, 8) == Shift(Shifts(x, 7))
  {
    hide Shift;
  }

  lemma StartBits()
    ensures forall i :: 0 <= i < 32 ==> Xor(ONES, FromByte(0x7F))[i] == (i >= 7)
  {
    forall i | 0 <= i < 32
      ensures Xor(ONES, FromByte(0x7F))[i] == (i >= 7)
    {
      if i < 8 { ByteBits(i); }
    }
  }

  lemma ByteBits(i: nat)
    requires i < 8
    ensures Shr(0x7F, i) % 2 == if i < 7 then 1 else 0
  {
    assert Shr(0x7F, 4) == 7;
  }

  lemma LastShift(y: word)
    requires forall i :: 0 <= i < 32 ==> y[i] == (i < 25)
    ensures Xor(Shift(y), ONES) == CRC_OF_7F
  {
    var a, b := Xor(Shift(y), ONES), CRC_OF_7F;
    forall i | 0 <= i < 32
      ensures a[i] == b[i]
    {
      assert Right(y, 1)[i] == (i < 24);
    }
  }
}
