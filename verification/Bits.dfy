/**
 Bit-level vocabulary shared by the DEFLATE model: powers of two, bit reversal, and the two ways
 section 3.1.1 of RFC 1951 reads a group of bits out of a byte stream (numbers least significant
 bit first, Huffman codes most significant bit first).
 */
module Bits {
  import opened Widths

  function Pow2(n: nat): (p: nat)
    ensures p >= 1
  {
    if n == 0 then 1 else 2 * Pow2(n - 1)
  }

  lemma {:induction false} Pow2Add(m: nat, n: nat)
    ensures Pow2(m + n) == Pow2(m) * Pow2(n)
  {
    if n == 0 {
    } else {
      Pow2Add(m, n - 1);
      MulAssoc(Pow2(m), 2, Pow2(n - 1));
    }
  }

  lemma Pow2Mono(m: nat, n: nat)
    requires m <= n
    ensures Pow2(m) <= Pow2(n)
  {
    Pow2Add(m, n - m);
    assert Pow2(m) * Pow2(n - m) >= Pow2(m);
  }

  lemma MulAssoc(a: int, b: int, c: int)
    ensures a * (b * c) == (a * b) * c == b * (a * c)
  {
  }

  lemma MulDistrib(a: int, b: int, c: int)
    ensures a * (b + c) == a * b + a * c
    ensures (b + c) * a == b * a + c * a
  {
  }

  /** Quotient and remainder are determined by any decomposition a = q * d + r. */
  lemma DivModUnique(a: int, d: int, q: int, r: int)
    requires d > 0 && 0 <= r < d && a == q * d + r
    ensures a / d == q && a % d == r
  {
    var q' := a / d;
    DivModParts(a, d);
    if q < q' {
      MulStrict(q, q', d);
    } else if q' < q {
      MulStrict(q', q, d);
    }
  }

  lemma DivModParts(a: int, d: int)
    requires d > 0
    ensures a == (a / d) * d + a % d && 0 <= a % d < d
  {
  }

  lemma MulMono(a: int, b: int, c: int)
    requires a <= b && 0 <= c
    ensures a * c <= b * c
  {
  }

  lemma MulStrict(a: int, b: int, c: int)
    requires a < b && 0 < c
    ensures a * c + c <= b * c
  {
    MulMono(a + 1, b, c);
    assert (a + 1) * c == a * c + c;
  }

  /** Shifts and masks, as the C operators << and >> and & (2^n - 1) act on numbers that fit. */
  function Shl(x: nat, n: nat): nat {
    if n == 0 then x else 2 * Shl(x, n - 1)
  }

  function Shr(x: nat, n: nat): nat {
    if n == 0 then x else Shr(x, n - 1) / 2
  }

  function Mask(x: nat, n: nat): nat {
    if n == 0 then 0 else 2 * Mask(x / 2, n - 1) + x % 2
  }

  lemma {:induction false} ShlMul(x: nat, n: nat)
    ensures Shl(x, n) == x * Pow2(n)
  {
    if n > 0 {
      ShlMul(x, n - 1);
      MulAssoc(x, 2, Pow2(n - 1));
    }
  }

  lemma {:induction false} ShrDiv(x: nat, n: nat)
    ensures Shr(x, n) == x / Pow2(n)
  {
    if n > 0 {
      ShrDiv(x, n - 1);
      HalfDiv(x, Pow2(n - 1));
    }
  }

  lemma HalfDiv(x: nat, d: nat)
    requires d > 0
    ensures x / d / 2 == x / (2 * d)
  {
    var q := x / d;
    DivModParts(x, d);
    MulDistrib(d, 2 * (q / 2), q % 2);
    MulAssoc(q / 2, 2, d);
    DivModUnique(x, 2 * d, q / 2, (q % 2) * d + x % d);
  }

  lemma {:induction false} MaskMod(x: nat, n: nat)
    ensures Mask(x, n) == x % Pow2(n)
  {
    if n > 0 {
      MaskMod(x / 2, n - 1);
      var d, y := Pow2(n - 1), x / 2;
      DivModParts(y, d);
      MulAssoc(y / d, 2, d);
      DivModUnique(x, 2 * d, y / d, 2 * (y % d) + x % 2);
    }
  }

  lemma {:induction false} ShlAdd(x: nat, a: nat, b: nat)
    ensures Shl(Shl(x, a), b) == Shl(x, a + b)
  {
    if b > 0 { ShlAdd(x, a, b - 1); }
  }

  lemma {:induction false} ShlPlus(x: nat, y: nat, n: nat)
    ensures Shl(x + y, n) == Shl(x, n) + Shl(y, n)
  {
    if n > 0 { ShlPlus(x, y, n - 1); }
  }

  lemma {:induction false} ShlOrder(x: nat, y: nat, n: nat)
    ensures Shl(x, n) < Shl(y, n) <==> x < y
  {
    if n > 0 { ShlOrder(x, y, n - 1); }
  }

  lemma ShlZero(x: nat)
    ensures Shl(x, 0) == x == Shr(x, 0)
  {
  }

  lemma {:induction false} ShlOne(n: nat)
    ensures Shl(1, n) == Pow2(n) && Shl(0, n) == 0
  {
    if n > 0 { ShlOne(n - 1); }
  }

  /** A number is its high part shifted back plus its low part. */
  lemma ShrMask(x: nat, n: nat)
    ensures x == Shl(Shr(x, n), n) + Mask(x, n) && Mask(x, n) < Pow2(n)
  {
    ShrDiv(x, n);
    MaskMod(x, n);
    ShlMul(Shr(x, n), n);
    DivModParts(x, Pow2(n));
  }

  lemma ShrMaskUnique(x: nat, n: nat, q: nat, r: nat)
    requires x == Shl(q, n) + r && r < Pow2(n)
    ensures Shr(x, n) == q && Mask(x, n) == r
  {
    ShrDiv(x, n);
    MaskMod(x, n);
    ShlMul(q, n);
    DivModUnique(x, Pow2(n), q, r);
  }

  lemma {:induction false} ShrAdd(x: nat, a: nat, b: nat)
    ensures Shr(Shr(x, a), b) == Shr(x, a + b)
  {
    if b > 0 { ShrAdd(x, a, b - 1); }
  }

  /** x starts with q (dropping n bits) exactly when it lies in q's block of 2^n numbers. */
  lemma ShrRange(x: nat, n: nat, q: nat)
    ensures Shl(q, n) <= x < Shl(q + 1, n) <==> Shr(x, n) == q
  {
    ShrMask(x, n);
    ShlPlus(q, 1, n);
    ShlPlus(Shr(x, n), 1, n);
    ShlOne(n);
    ShlOrder(q, Shr(x, n) + 1, n);
    ShlOrder(Shr(x, n), q + 1, n);
  }

  /** The k low bits of c in the opposite order. */
  function Rev(c: nat, k: nat): (r: nat)
    ensures r < Pow2(k)
  {
    if k == 0 then 0 else Rev(c / 2, k - 1) + (if c % 2 == 1 then Pow2(k - 1) else 0)
  }

  lemma {:induction false} RevSplit(a: nat, m: nat, b: nat, n: nat)
    requires b < Pow2(n)
    ensures Rev(Shl(a, n) + b, m + n) == Rev(a, m) + Shl(Rev(b, n), m)
  {
    hide Shl, Rev, Pow2;
    RevTurn(b, n);
    ShlOne(m);
    if n == 0 {
      ShlZero(a);
    } else {
      var x := Shl(a, n) + b;
      HalfShl(a, b, n);
      RevTurn(x, m + n);
      RevSplit(a, m, b / 2, n - 1);
      ShlPlus(Rev(b / 2, n - 1), Pow2(n - 1), m);
      ShlPow2(n - 1, m);
    }
  }

  lemma RevTurn(c: nat, k: nat)
    ensures k == 0 ==> Rev(c, k) == 0
    ensures k > 0 ==> Rev(c, k) == Rev(c / 2, k - 1) + (if c % 2 == 1 then Pow2(k - 1) else 0)
    ensures k > 0 && c < Pow2(k) ==> c / 2 < Pow2(k - 1)
    ensures k == 0 && c < Pow2(k) ==> c == 0
  {
  }

  lemma HalfShl(a: nat, b: nat, n: nat)
    requires n > 0
    ensures (Shl(a, n) + b) / 2 == Shl(a, n - 1) + b / 2 && (Shl(a, n) + b) % 2 == b % 2
  {
  }

  lemma {:induction false} ShlPow2(n: nat, m: nat)
    ensures Shl(Pow2(n), m) == Pow2(m + n)
  {
    if m > 0 { ShlPow2(n, m - 1); }
  }

  lemma {:induction false} RevZero(k: nat)
    ensures Rev(0, k) == 0
  {
    if k > 0 { RevZero(k - 1); }
  }

  /** Only the k low bits matter. */
  lemma {:induction false} RevLow(c: nat, k: nat)
    ensures Rev(Mask(c, k), k) == Rev(c, k)
  {
    if k > 0 { RevLow(c / 2, k - 1); }
  }

  /** Reversing twice gives the low bits back. */
  lemma {:induction false} RevInvolution(c: nat, k: nat)
    ensures Rev(Rev(c, k), k) == Mask(c, k)
  {
    if k > 0 {
      var r, t := Rev(c / 2, k - 1), c % 2;
      RevInvolution(c / 2, k - 1);
      assert Rev(c, k) == Shl(t, k - 1) + r by { ShlOne(k - 1); }
      RevSplit(t, 1, r, k - 1);
      assert Rev(t, 1) == t by { assert Rev(t / 2, 0) == 0; assert Pow2(0) == 1; }
      assert Shl(Rev(r, k - 1), 1) == 2 * Rev(r, k - 1) by { assert Shl(Rev(r, k - 1), 0) == Rev(r, k - 1); }
    }
  }

  lemma {:induction false} MaskSmall(c: nat, k: nat)
    ensures Mask(c, k) < Pow2(k)
    ensures c < Pow2(k) ==> Mask(c, k) == c
  {
    if k > 0 { MaskSmall(c / 2, k - 1); }
  }

  /** The number whose bits are given, low bit first. */
  function Value(b: seq<bool>): (v: nat)
    ensures v < Pow2(|b|)
  {
    if |b| == 0 then 0 else (if b[0] then 1 else 0) + 2 * Value(b[1..])
  }

  lemma {:induction false} ValueBit(b: seq<bool>, i: nat)
    requires i < |b|
    ensures Shr(Value(b), i) % 2 == 1 <==> b[i]
    decreases |b|
  {
    hide Shr, Value;
    FirstBit(b);
    if i > 0 {
      ValueBit(b[1..], i - 1);
      ShrAdd(Value(b), 1, i - 1);
    }
  }

  lemma FirstBit(b: seq<bool>)
    requires |b| > 0
    ensures Shr(Value(b), 1) == Value(b[1..]) && (Shr(Value(b), 0) % 2 == 1 <==> b[0])
  {
    assert Shr(Value(b), 0) == Value(b);
  }

  /** Bit p of the stream: bytes in order, least significant bit of each byte first. */
  function BitAt(input: seq<Byte>, p: nat): (b: nat)
    requires p < 8 * |input|
    ensures b < 2
  {
    Shr(input[p / 8], p % 8) % 2
  }

  /** A number stored in n bits from position pos, least significant bit first. */
  function Peek(input: seq<Byte>, pos: nat, n: nat): (v: nat)
    requires pos + n <= 8 * |input|
    ensures v < Pow2(n)
  {
    if n == 0 then 0 else Peek(input, pos, n - 1) + (if BitAt(input, pos + n - 1) == 1 then Pow2(n - 1) else 0)
  }

  /** A Huffman code stored in n bits from position pos, most significant bit first. */
  function PeekCode(input: seq<Byte>, pos: nat, n: nat): (v: nat)
    requires pos + n <= 8 * |input|
    ensures v < Pow2(n)
  {
    if n == 0 then 0 else 2 * PeekCode(input, pos, n - 1) + BitAt(input, pos + n - 1)
  }

  lemma {:induction false} PeekSplit(input: seq<Byte>, pos: nat, m: nat, n: nat)
    requires pos + m + n <= 8 * |input|
    ensures Peek(input, pos, m + n) == Peek(input, pos, m) + Shl(Peek(input, pos + m, n), m)
  {
    hide Peek, Shl, Pow2, BitAt;
    PeekLast(input, pos, m + n);
    PeekLast(input, pos + m, n);
    ShlOne(m);
    if n > 0 {
      PeekSplit(input, pos, m, n - 1);
      ShlPlus(Peek(input, pos + m, n - 1), Pow2(n - 1), m);
      ShlPow2(n - 1, m);
    }
  }

  lemma PeekLast(input: seq<Byte>, pos: nat, n: nat)
    requires pos + n <= 8 * |input|
    ensures n == 0 ==> Peek(input, pos, n) == 0
    ensures n > 0 ==> Peek(input, pos, n) == Peek(input, pos, n - 1) + (if BitAt(input, pos + n - 1) == 1 then Pow2(n - 1) else 0)
  {
  }

  /** Taking n of k buffered bits: the low part is read, the high part stays. */
  lemma PeekTake(input: seq<Byte>, pos: nat, n: nat, k: nat)
    requires n <= k && pos + k <= 8 * |input|
    ensures Mask(Peek(input, pos, k), n) == Peek(input, pos, n)
    ensures Shr(Peek(input, pos, k), n) == Peek(input, pos + n, k - n)
  {
    PeekSplit(input, pos, n, k - n);
    ShrMaskUnique(Peek(input, pos, k), n, Peek(input, pos + n, k - n), Peek(input, pos, n));
  }

  lemma {:induction false} PeekCodeSplit(input: seq<Byte>, pos: nat, m: nat, n: nat)
    requires pos + m + n <= 8 * |input|
    ensures PeekCode(input, pos, m + n) == Shl(PeekCode(input, pos, m), n) + PeekCode(input, pos + m, n)
  {
    if n > 0 {
      PeekCodeSplit(input, pos, m, n - 1);
    }
  }

  lemma {:induction false} PeekIsReversedCode(input: seq<Byte>, pos: nat, n: nat)
    requires pos + n <= 8 * |input|
    ensures Peek(input, pos, n) == Rev(PeekCode(input, pos, n), n)
  {
    if n > 0 {
      PeekIsReversedCode(input, pos, n - 1);
    }
  }

  /** Eight bits from a byte boundary are that byte. */
  lemma PeekByte(input: seq<Byte>, q: nat)
    requires q < |input|
    ensures Peek(input, 8 * q, 8) == input[q]
  {
    PeekWithin(input, q, 8);
    Pow2Table();
    MaskSmall(input[q], 8);
  }

  /** The first n bits of byte q are its value modulo 2^n. */
  lemma {:induction false} PeekWithin(input: seq<Byte>, q: nat, n: nat)
    requires q < |input| && n <= 8
    ensures Peek(input, 8 * q, n) == Mask(input[q], n)
  {
    if n > 0 {
      PeekWithin(input, q, n - 1);
      var p := 8 * q + n - 1;
      assert p / 8 == q && p % 8 == n - 1;
      MaskTop(input[q], n);
    }
  }

  lemma {:induction false} MaskTop(x: nat, n: nat)
    requires n > 0
    ensures Mask(x, n) == Mask(x, n - 1) + (if Shr(x, n - 1) % 2 == 1 then Pow2(n - 1) else 0)
  {
    if n == 1 {
      assert Mask(x / 2, 0) == 0 && Mask(x, 0) == 0 && Shr(x, 0) == x && Pow2(0) == 1;
    } else {
      MaskTop(x / 2, n - 1);
      ShrAdd(x, 1, n - 2);
      assert Shr(x, 0) == x;
    }
  }

  lemma Pow2Table()
    ensures Pow2(0) == 1 && Pow2(1) == 2 && Pow2(2) == 4 && Pow2(3) == 8 && Pow2(4) == 16
    ensures Pow2(5) == 32 && Pow2(6) == 64 && Pow2(7) == 128 && Pow2(8) == 256 && Pow2(9) == 512
    ensures Pow2(10) == 1024 && Pow2(11) == 2048 && Pow2(12) == 4096 && Pow2(13) == 8192
    ensures Pow2(14) == 16384 && Pow2(15) == 32768 && Pow2(16) == 65536
  {
    assert Pow2(4) == 16;
    assert Pow2(8) == 256;
    assert Pow2(12) == 4096;
  }
}
