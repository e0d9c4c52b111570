/**
 Writing bits, as section 3.1.1 of RFC 1951 says: numbers with the least significant bit first, Huffman codes
 with the most significant bit first, and eight bits to the byte from its low end up.
 */
module BitWriter {
  import opened Widths
  import opened Bits

  /** The lowest n bits of a number, low bit first. */
  function Low(v: nat, n: nat): (b: seq<bool>)
    ensures |b| == n
  {
    if n == 0 then [] else [v % 2 == 1] + Low(v / 2, n - 1)
  }

  /** The lowest n bits of a number, high bit first. */
  function High(v: nat, n: nat): (b: seq<bool>)
    ensures |b| == n
  {
    if n == 0 then [] else High(v / 2, n - 1) + [v % 2 == 1]
  }

  lemma ByteValue(b: seq<bool>)
    requires |b| <= 8
    ensures Value(b) < 256
  {
    Pow2Mono(|b|, 8);
    Pow2Table();
  }

  /** The bits in bytes; the last byte is filled up with zeros. */
  function Packed(b: seq<bool>): (d: seq<Byte>)
    ensures |d| == (|b| + 7) / 8
  {
    if |b| == 0 then []
    else if |b| <= 8 then
      ByteValue(b);
      [Value(b)]
    else
      ByteValue(b[..8]);
      [Value(b[..8])] + Packed(b[8..])
  }

  // ---- Bits in an input ----

  /** The bits b stand in the input from position pos on. */
  ghost predicate At(input: seq<Byte>, pos: nat, b: seq<bool>) {
    pos + |b| <= 8 * |input| && forall i :: 0 <= i < |b| ==> (BitAt(input, pos + i) == 1 <==> b[i])
  }

  lemma AtParts(input: seq<Byte>, pos: nat, a: seq<bool>, b: seq<bool>)
    requires At(input, pos, a + b)
    ensures At(input, pos, a) && At(input, pos + |a|, b)
  {
    hide BitAt;
    forall i | 0 <= i < |a|
      ensures BitAt(input, pos + i) == 1 <==> a[i]
    {
      assert (a + b)[i] == a[i];
    }
    forall i | 0 <= i < |b|
      ensures BitAt(input, pos + |a| + i) == 1 <==> b[i]
    {
      assert (a + b)[|a| + i] == b[i];
    }
  }

  /** What is packed is read back bit by bit, whatever follows. */
  lemma {:induction false} PackedBit(b: seq<bool>, more: seq<Byte>, i: nat)
    requires i < |b|
    ensures i < 8 * |Packed(b) + more| && (BitAt(Packed(b) + more, i) == 1 <==> b[i])
    decreases |b|
  {
    hide Value, Shr;
    var d := Packed(b) + more;
    if i < 8 {
      var a := if |b| <= 8 then b else b[..8];
      assert d[0] == Value(a);
      ValueBit(a, i);
    } else {
      PackedBit(b[8..], more, i - 8);
      assert d[1..] == Packed(b[8..]) + more;
      Later(d, i);
    }
  }

  lemma Later(d: seq<Byte>, i: nat)
    requires 8 <= i < 8 * |d|
    ensures BitAt(d, i) == BitAt(d[1..], i - 8)
  {
    assert i / 8 == (i - 8) / 8 + 1 && i % 8 == (i - 8) % 8;
  }

  lemma PackedAt(b: seq<bool>, more: seq<Byte>)
    ensures At(Packed(b) + more, 0, b)
  {
    hide BitAt;
    forall i | 0 <= i < |b|
      ensures i < 8 * |Packed(b) + more| && (BitAt(Packed(b) + more, i) == 1 <==> b[i])
    {
      PackedBit(b, more, i);
    }
    assert |b| <= 8 * ((|b| + 7) / 8);
  }

  // ---- Numbers and codes ----

  /** A number that was written is the number read. */
  lemma {:induction false} AtLow(input: seq<Byte>, pos: nat, v: nat, n: nat)
    requires v < Pow2(n) && At(input, pos, Low(v, n))
    ensures pos + n <= 8 * |input| && Peek(input, pos, n) == v
    decreases n
  {
    hide BitAt, Peek;
    if n == 0 {
      PeekLast(input, pos, 0);
    } else {
      assert Low(v, n) == [v % 2 == 1] + Low(v / 2, n - 1);
      AtParts(input, pos, [v % 2 == 1], Low(v / 2, n - 1));
      AtLow(input, pos + 1, v / 2, n - 1);
      PeekSplit(input, pos, 1, n - 1);
      OneBit(input, pos, v % 2 == 1);
      assert Shl(v / 2, 0) == v / 2;
    }
  }

  lemma OneBit(input: seq<Byte>, pos: nat, b: bool)
    requires At(input, pos, [b])
    ensures pos + 1 <= 8 * |input| && Peek(input, pos, 1) == (if b then 1 else 0)
  {
    hide BitAt;
    assert BitAt(input, pos + 0) == 1 <==> [b][0];
    PeekLast(input, pos, 1);
    PeekLast(input, pos, 0);
    assert Pow2(0) == 1;
  }

  /** A code that was written is the code read. */
  lemma {:induction false} AtHigh(input: seq<Byte>, pos: nat, v: nat, n: nat)
    requires v < Pow2(n) && At(input, pos, High(v, n))
    ensures pos + n <= 8 * |input| && PeekCode(input, pos, n) == v
    decreases n
  {
    hide BitAt;
    if n > 0 {
      AtParts(input, pos, High(v / 2, n - 1), [v % 2 == 1]);
      AtHigh(input, pos, v / 2, n - 1);
      assert BitAt(input, pos + n - 1 + 0) == 1 <==> [v % 2 == 1][0];
      assert BitAt(input, pos + n - 1) < 2;
    }
  }

  // ---- What is read was written ----

  lemma AtJoin(input: seq<Byte>, pos: nat, a: seq<bool>, b: seq<bool>)
    requires At(input, pos, a) && At(input, pos + |a|, b)
    ensures At(input, pos, a + b)
  {
    hide BitAt;
    forall i | 0 <= i < |a + b|
      ensures BitAt(input, pos + i) == 1 <==> (a + b)[i]
    {
      if i >= |a| { assert BitAt(input, pos + |a| + (i - |a|)) == 1 <==> b[i - |a|]; }
    }
  }

  lemma AtNone(input: seq<Byte>, pos: nat)
    requires pos <= 8 * |input|
    ensures At(input, pos, [])
  {
  }

  /** Any bits of the input. */
  ghost function BitsFrom(input: seq<Byte>, pos: nat, n: nat): (b: seq<bool>)
    requires pos + n <= 8 * |input|
    ensures |b| == n
  {
    seq(n, i requires 0 <= i < n => BitAt(input, pos + i) == 1)
  }

  lemma BitsAt(input: seq<Byte>, pos: nat, n: nat)
    requires pos + n <= 8 * |input|
    ensures At(input, pos, BitsFrom(input, pos, n))
  {
    hide BitAt;
  }

  lemma {:induction false} LowAt(input: seq<Byte>, pos: nat, n: nat)
    requires pos + n <= 8 * |input|
    ensures At(input, pos, Low(Peek(input, pos, n), n))
    decreases n
  {
    hide BitAt, Peek;
    if n == 0 {
      AtNone(input, pos);
    } else {
      PeekSplit(input, pos, 1, n - 1);
      PeekLast(input, pos, 1);
      PeekLast(input, pos, 0);
      var v, r := Peek(input, pos, n), Peek(input, pos + 1, n - 1);
      assert Pow2(0) == 1 && Shl(r, 1) == 2 * Shl(r, 0) == 2 * r;
      var b := BitAt(input, pos) == 1;
      assert v == 2 * r + if b then 1 else 0;
      assert At(input, pos, [b]);
      LowAt(input, pos + 1, n - 1);
      AtJoin(input, pos, [b], Low(r, n - 1));
      assert Low(v, n) == [b] + Low(r, n - 1);
    }
  }

  lemma {:induction false} HighAt(input: seq<Byte>, pos: nat, n: nat)
    requires pos + n <= 8 * |input|
    ensures At(input, pos, High(PeekCode(input, pos, n), n))
    decreases n
  {
    hide BitAt;
    if n == 0 {
      AtNone(input, pos);
    } else {
      var r, b := PeekCode(input, pos, n - 1), BitAt(input, pos + n - 1) == 1;
      HighAt(input, pos, n - 1);
      assert At(input, pos + (n - 1), [b]);
      AtJoin(input, pos, High(r, n - 1), [b]);
      assert PeekCode(input, pos, n) == 2 * r + if b then 1 else 0;
    }
  }
}
