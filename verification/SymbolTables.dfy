/**
 The symbol tables of DEFLATE as memdisk/inflate.c lists them, against the closed forms and the
 fixed and transmitted code lengths of the reference.
 */
module SymbolTables {
  import opened Widths
  import opened Bits
  import opened CanonicalCode
  import opened HuftTable
  import opened DeflateSpec
  import opened Window

  const CPLENS: seq<nat> := [3, 4, 5, 6, 7, 8, 9, 10, 11, 13, 15, 17, 19, 23, 27, 31,
                             35, 43, 51, 59, 67, 83, 99, 115, 131, 163, 195, 227, 258, 0, 0]
  const CPLEXT: seq<nat> := [0, 0, 0, 0, 0, 0, 0, 0, 1, 1, 1, 1, 2, 2, 2, 2,
                             3, 3, 3, 3, 4, 4, 4, 4, 5, 5, 5, 5, 0, 99, 99]
  const CPDIST: seq<nat> := [1, 2, 3, 4, 5, 7, 9, 13, 17, 25, 33, 49, 65, 97, 129, 193,
                             257, 385, 513, 769, 1025, 1537, 2049, 3073, 4097, 6145,
                             8193, 12289, 16385, 24577]
  const CPDEXT: seq<nat> := [0, 0, 0, 0, 1, 1, 2, 2, 3, 3, 4, 4, 5, 5, 6, 6,
                             7, 7, 8, 8, 9, 9, 10, 10, 11, 11,
                             12, 12, 13, 13]

  const LITERALS := Alphabet(257, CPLENS, CPLEXT)
  const DISTANCES := Alphabet(0, CPDIST, CPDEXT)
  const CODELENS := Alphabet(19, [], [])

  lemma AlphabetsCover()
    ensures Covers(LITERALS, 288) && Covers(DISTANCES, 30) && Covers(CODELENS, 19)
  {
    hide CPLENS, CPLEXT, CPDIST, CPDEXT, LengthExtra, LengthBase, DistExtra, DistBase;
    LengthRow(1);
    DistanceEdges();
    forall i | 0 <= i < 31
      ensures CPLEXT[i] <= 14 || CPLEXT[i] == 99
    {
      LengthTable(257 + i);
    }
    forall i | 0 <= i < 30
      ensures CPDEXT[i] <= 14
    {
      DistanceTable(i);
    }
  }

  /** The length tables agree with the closed form of the reference. */
  lemma LengthTable(s: nat)
    requires 257 <= s < 288
    ensures s <= 285 ==> CPLENS[s - 257] == LengthBase(s) >= 1 && CPLEXT[s - 257] == LengthExtra(s) <= 5
    ensures s > 285 ==> CPLEXT[s - 257] == 99
  {
    hide Pow2, Shl;
    if 265 <= s < 285 {
      LengthMiddle(s, LengthExtra(s), (s - 265) % 4);
    } else {
      LengthEdges(s);
    }
  }

  lemma LengthMiddle(s: nat, e: nat, x: nat)
    requires 265 <= s < 285 && e == LengthExtra(s) && x == (s - 265) % 4
    ensures 1 <= e <= 5 && CPLENS[s - 257] == 3 + Shl(4 + x, e) >= 3 && CPLEXT[s - 257] == e
  {
    hide Pow2, Shl, CPLENS, CPLEXT;
    assert s - 257 == 4 * e + 4 + x && 1 <= e <= 5;
    LengthCell(e, x);
  }

  lemma LengthCell(e: nat, x: nat)
    requires 1 <= e <= 5 && x < 4
    ensures 4 * e + 4 + x < |CPLENS| == |CPLEXT| && CPLENS[4 * e + 4 + x] == 3 + Shl(4 + x, e) >= 3 && CPLEXT[4 * e + 4 + x] == e
  {
    hide Pow2, Shl, CPLENS, CPLEXT;
    LengthRow(e);
    if x == 0 {
      ShlMul(4, e);
    } else if x == 1 {
      ShlMul(5, e);
    } else if x == 2 {
      ShlMul(6, e);
    } else {
      ShlMul(7, e);
    }
  }

  lemma LengthEdges(s: nat)
    requires 257 <= s < 265 || 285 <= s < 288
    ensures s < 265 ==> CPLENS[s - 257] == s - 254 && CPLEXT[s - 257] == 0
    ensures s == 285 ==> CPLENS[28] == 258 && CPLEXT[28] == 0
    ensures s > 285 ==> CPLEXT[s - 257] == 99
  {
    assert s < 265 ==> s in {257, 258, 259, 260, 261, 262, 263, 264};
    assert s > 285 ==> s in {286, 287};
  }

  /** Four lengths share a number of extra bits. */
  lemma LengthRow(e: nat)
    requires 1 <= e <= 5
    ensures |CPLENS| == |CPLEXT| == 31
    ensures CPLENS[4 * e + 4] == 3 + 4 * Pow2(e) && CPLENS[4 * e + 5] == 3 + 5 * Pow2(e)
    ensures CPLENS[4 * e + 6] == 3 + 6 * Pow2(e) && CPLENS[4 * e + 7] == 3 + 7 * Pow2(e)
    ensures CPLEXT[4 * e + 4] == CPLEXT[4 * e + 5] == CPLEXT[4 * e + 6] == CPLEXT[4 * e + 7] == e
  {
    hide Pow2, CPLENS, CPLEXT;
    Pow2Table();
    LengthValues();
    ExtraValues();
    assert e in {1, 2, 3, 4, 5};
  }

  lemma LengthValues()
    ensures |CPLENS| == 31
    ensures CPLENS[8] == 11 && CPLENS[9] == 13 && CPLENS[10] == 15 && CPLENS[11] == 17
    ensures CPLENS[12] == 19 && CPLENS[13] == 23 && CPLENS[14] == 27 && CPLENS[15] == 31
    ensures CPLENS[16] == 35 && CPLENS[17] == 43 && CPLENS[18] == 51 && CPLENS[19] == 59
    ensures CPLENS[20] == 67 && CPLENS[21] == 83 && CPLENS[22] == 99 && CPLENS[23] == 115
    ensures CPLENS[24] == 131 && CPLENS[25] == 163 && CPLENS[26] == 195 && CPLENS[27] == 227
  {
  }

  lemma ExtraValues()
    ensures |CPLEXT| == 31
    ensures CPLEXT[8] == CPLEXT[9] == CPLEXT[10] == CPLEXT[11] == 1
    ensures CPLEXT[12] == CPLEXT[13] == CPLEXT[14] == CPLEXT[15] == 2
    ensures CPLEXT[16] == CPLEXT[17] == CPLEXT[18] == CPLEXT[19] == 3
    ensures CPLEXT[20] == CPLEXT[21] == CPLEXT[22] == CPLEXT[23] == 4
    ensures CPLEXT[24] == CPLEXT[25] == CPLEXT[26] == CPLEXT[27] == 5
  {
  }

  lemma DistanceTable(s: nat)
    requires s < 30
    ensures CPDIST[s] == DistBase(s) >= 1 && CPDEXT[s] == DistExtra(s) <= 13
    ensures DistBase(s) + Pow2(DistExtra(s)) <= WSIZE + 1
  {
    hide Pow2, Shl, CPDIST, CPDEXT;
    DistanceEdges();
    Pow2Table();
    if 4 <= s {
      var e := DistExtra(s);
      ShlMul(2, e);
      ShlMul(3, e);
      DistanceRow(e);
      assert s == 2 * e + 2 || s == 2 * e + 3;
    } else {
      assert s in {0, 1, 2, 3};
    }
  }

  lemma DistanceEdges()
    ensures |CPDIST| == |CPDEXT| == 30
    ensures CPDIST[0] == 1 && CPDIST[1] == 2 && CPDIST[2] == 3 && CPDIST[3] == 4
    ensures CPDEXT[0] == CPDEXT[1] == CPDEXT[2] == CPDEXT[3] == 0
  {
  }

  lemma DistanceRow(e: nat)
    requires 1 <= e <= 13
    ensures |CPDIST| == |CPDEXT| == 30
    ensures CPDIST[2 * e + 2] == 1 + 2 * Pow2(e) && CPDIST[2 * e + 3] == 1 + 3 * Pow2(e)
    ensures CPDEXT[2 * e + 2] == CPDEXT[2 * e + 3] == e && 4 * Pow2(e) <= WSIZE
  {
    hide Pow2, CPDIST, CPDEXT;
    Pow2Table();
    DistanceValues();
    DistanceExtras();
    if e <= 6 {
      assert e in {1, 2, 3, 4, 5, 6};
    } else {
      assert e in {7, 8, 9, 10, 11, 12, 13};
    }
  }

  lemma DistanceValues()
    ensures |CPDIST| == 30
    ensures CPDIST[4] == 5 && CPDIST[5] == 7 && CPDIST[6] == 9 && CPDIST[7] == 13 && CPDIST[8] == 17 && CPDIST[9] == 25
    ensures CPDIST[10] == 33 && CPDIST[11] == 49 && CPDIST[12] == 65 && CPDIST[13] == 97 && CPDIST[14] == 129 && CPDIST[15] == 193
    ensures CPDIST[16] == 257 && CPDIST[17] == 385 && CPDIST[18] == 513 && CPDIST[19] == 769 && CPDIST[20] == 1025 && CPDIST[21] == 1537
    ensures CPDIST[22] == 2049 && CPDIST[23] == 3073 && CPDIST[24] == 4097 && CPDIST[25] == 6145
    ensures CPDIST[26] == 8193 && CPDIST[27] == 12289 && CPDIST[28] == 16385 && CPDIST[29] == 24577
  {
    hide CPDIST;
    NearDistances();
    MiddleDistances();
    FarDistances();
  }

  lemma NearDistances()
    ensures |CPDIST| == 30
    ensures CPDIST[4] == 5 && CPDIST[5] == 7 && CPDIST[6] == 9 && CPDIST[7] == 13 && CPDIST[8] == 17 && CPDIST[9] == 25
    ensures CPDIST[10] == 33 && CPDIST[11] == 49 && CPDIST[12] == 65
  {
  }

  lemma MiddleDistances()
    ensures |CPDIST| == 30
    ensures CPDIST[13] == 97 && CPDIST[14] == 129 && CPDIST[15] == 193
    ensures CPDIST[16] == 257 && CPDIST[17] == 385 && CPDIST[18] == 513 && CPDIST[19] == 769 && CPDIST[20] == 1025 && CPDIST[21] == 1537
  {
  }

  lemma FarDistances()
    ensures |CPDIST| == 30
    ensures CPDIST[22] == 2049 && CPDIST[23] == 3073 && CPDIST[24] == 4097 && CPDIST[25] == 6145
    ensures CPDIST[26] == 8193 && CPDIST[27] == 12289 && CPDIST[28] == 16385 && CPDIST[29] == 24577
  {
  }

  lemma DistanceExtras()
    ensures |CPDEXT| == 30
    ensures CPDEXT[4] == CPDEXT[5] == 1 && CPDEXT[6] == CPDEXT[7] == 2 && CPDEXT[8] == CPDEXT[9] == 3 && CPDEXT[10] == CPDEXT[11] == 4
    ensures CPDEXT[12] == CPDEXT[13] == 5 && CPDEXT[14] == CPDEXT[15] == 6 && CPDEXT[16] == CPDEXT[17] == 7 && CPDEXT[18] == CPDEXT[19] == 8
    ensures CPDEXT[20] == CPDEXT[21] == 9 && CPDEXT[22] == CPDEXT[23] == 10 && CPDEXT[24] == CPDEXT[25] == 11
    ensures CPDEXT[26] == CPDEXT[27] == 12 && CPDEXT[28] == CPDEXT[29] == 13
  {
  }

  lemma LiteralEntry(sym: nat, b: nat)
    requires sym < 288
    ensures sym < 256 ==> SymbolEntry(LITERALS, sym, b) == Huft(16, b, Num(sym))
    ensures sym == 256 ==> SymbolEntry(LITERALS, sym, b) == Huft(15, b, Num(256))
    ensures 257 <= sym <= 285 ==> SymbolEntry(LITERALS, sym, b) == Huft(LengthExtra(sym), b, Num(LengthBase(sym)))
    ensures 257 <= sym <= 285 ==> LengthExtra(sym) <= 5 && LengthBase(sym) >= 1
    ensures sym > 285 ==> SymbolEntry(LITERALS, sym, b).e == 99
  {
    hide LengthExtra, LengthBase;
    if sym >= 257 { LengthTable(sym); }
  }

  lemma DistanceEntry(sym: nat, b: nat)
    requires sym < 30
    ensures SymbolEntry(DISTANCES, sym, b) == Huft(DistExtra(sym), b, Num(DistBase(sym)))
    ensures DistExtra(sym) <= 13 && DistBase(sym) >= 1 && DistBase(sym) + Pow2(DistExtra(sym)) <= WSIZE + 1
  {
    hide DistExtra, DistBase, Pow2, CPDIST, CPDEXT;
    DistanceEdges();
    DistanceTable(sym);
  }

  lemma OrderDistinct(j: nat)
    requires j < 19
    ensures ORDER[j] < 19 && forall i :: 0 <= i < 19 && i != j ==> ORDER[i] != ORDER[j]
  {
  }

  lemma OrderPermutes()
    ensures |ORDER| == 19 && forall j :: 0 <= j < 19 ==> ORDER[j] < 19
    ensures forall i, j :: 0 <= i < 19 && 0 <= j < 19 && i != j ==> ORDER[i] != ORDER[j]
  {
    forall j | 0 <= j < 19
      ensures ORDER[j] < 19 && forall i :: 0 <= i < 19 && i != j ==> ORDER[i] != ORDER[j]
    {
      OrderDistinct(j);
    }
  }

  /** The lengths that were not sent are zero. */
  method ClearRest(ll: array<nat>, nb: nat)
    requires ll.Length == 19 && nb <= 19 && forall i :: 0 <= i < 19 ==> ORDER[i] < 19
    modifies ll
    ensures forall i :: 0 <= i < nb ==> ll[ORDER[i]] == old(ll[ORDER[i]])
    ensures forall i :: nb <= i < 19 ==> ll[ORDER[i]] == 0
  {
    hide ORDER;
    OrderPermutes();
    for j := nb to 19
      invariant forall i :: 0 <= i < nb ==> ll[ORDER[i]] == old(ll[ORDER[i]])
      invariant forall i :: nb <= i < j ==> ll[ORDER[i]] == 0
    {
      ll[ORDER[j]] := 0;
    }
  }

  /** Where a length is found in the sent order. */
  function OrderIndex(s: nat): nat
    requires s < 19
  {
    [3, 17, 15, 13, 11, 9, 7, 5, 4, 6, 8, 10, 12, 14, 16, 18, 0, 1, 2][s]
  }

  lemma OrderOnto(s: nat)
    requires s < 19
    ensures OrderIndex(s) < 19 && ORDER[OrderIndex(s)] == s
  {
  }

  lemma {:induction false} CodeLengthAt(input: seq<Byte>, pos: nat, nb: nat, i: nat)
    requires nb <= 19 && pos + 3 * nb <= 8 * |input| && i < 19 && ORDER[i] < 19
    ensures CodeLengthLens(input, pos, nb)[ORDER[i]] == if i < nb then Peek(input, pos + 3 * i, 3) else 0
  {
    hide Peek, Pow2;
    if nb > 0 {
      CodeLengthAt(input, pos, nb - 1, i);
      OrderDistinct(nb - 1);
    }
  }

  lemma CodeLengthsAre(input: seq<Byte>, pos: nat, nb: nat, cl: seq<nat>)
    requires nb <= 19 && pos + 3 * nb <= 8 * |input| && |cl| == 19 && forall i :: 0 <= i < 19 ==> ORDER[i] < 19
    requires forall i :: 0 <= i < 19 ==> cl[ORDER[i]] == if i < nb then Peek(input, pos + 3 * i, 3) else 0
    ensures cl == CodeLengthLens(input, pos, nb)
  {
    forall s | 0 <= s < 19
      ensures cl[s] == CodeLengthLens(input, pos, nb)[s]
    {
      OrderOnto(s);
      CodeLengthAt(input, pos, nb, OrderIndex(s));
    }
  }

  /** The code lengths of section 3.2.6 of RFC 1951. */
  method FixedLengths() returns (l: seq<nat>)
    ensures l == FixedLiteral()
  {
    var a := new nat[288];
    for i := 0 to 144
      invariant forall j :: 0 <= j < i ==> a[j] == 8
    {
      a[i] := 8;
    }
    for i := 144 to 256
      invariant forall j :: 0 <= j < i ==> a[j] == FixedLiteral()[j]
    {
      a[i] := 9;
    }
    for i := 256 to 280
      invariant forall j :: 0 <= j < i ==> a[j] == FixedLiteral()[j]
    {
      a[i] := 7;
    }
    for i := 280 to 288
      invariant forall j :: 0 <= j < i ==> a[j] == FixedLiteral()[j]
    {
      a[i] := 8;
    }
    l := a[..];
  }

  method FixedDistances() returns (l: seq<nat>)
    ensures l == FixedDistance()
  {
    var a := new nat[30];
    for i := 0 to 30
      invariant forall j :: 0 <= j < i ==> a[j] == 5
    {
      a[i] := 5;
    }
    l := a[..];
  }

  lemma FixedCount(k: nat)
    ensures Count(FixedLiteral(), k) == if k == 7 then 24 else if k == 8 then 152 else if k == 9 then 112 else 0
    ensures Count(FixedDistance(), k) == if k == 5 then 30 else 0
  {
    var a, b, c, d := Repeat(144, 8), Repeat(112, 9), Repeat(24, 7), Repeat(8, 8);
    assert FixedLiteral() == a + b + c + d;
    CountAppend(a + b + c, d, k);
    CountAppend(a + b, c, k);
    CountAppend(a, b, k);
    CountSame(144, 8, k);
    CountSame(112, 9, k);
    CountSame(24, 7, k);
    CountSame(8, 8, k);
    CountSame(30, 5, k);
    assert FixedDistance() == seq(30, _ => 5);
  }
}
