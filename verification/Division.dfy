/**
 64-bit division by shifting and subtracting (dos/__udivmoddi4.c, dos/__divdi3.c).
 */
module Division {
  import opened Widths
  import Bytes
  import opened Bits

  const HALF: int := 0x8000_0000_0000_0000

  /** Left-justify the divisor, counting the shift in a bit. */
  method Justify(den0: nat) returns (den: nat, qbit: nat, ghost k: nat)
    requires 0 < den0 < WRAP64
    ensures HALF <= den < WRAP64 && qbit == Pow2(k) && den == den0 * qbit && qbit < WRAP64
  {
    den, qbit, k := den0, 1, 0;
    while den < HALF
      invariant 0 < den < WRAP64 && qbit == Pow2(k) && den == den0 * qbit && qbit > 0
      decreases WRAP64 - den
    {
      Doubled(den0, qbit);
      den := 2 * den % WRAP64;
      qbit := 2 * qbit;
      k := k + 1;
    }
    QuotientBit(den0, qbit);
  }

  lemma Doubled(d: nat, q: nat)
    ensures d * (2 * q) == 2 * (d * q)
  {
  }

  lemma QuotientBit(d: nat, q: nat)
    requires 0 < d && d * q < WRAP64
    ensures q < WRAP64
  {
    assert d * q == q + (d - 1) * q;
  }

  /** __udivmoddi4 for a divisor that is not zero: the quotient and the remainder. */
  method UDivMod(num0: nat, den0: nat) returns (quot: nat, rem: nat)
    requires num0 < WRAP64 && 0 < den0 < WRAP64
    ensures num0 == quot * den0 + rem && rem < den0 && quot < WRAP64
  {
    var num := num0;
    quot := 0;
    var den, qbit;
    ghost var k;
    den, qbit, k := Justify(den0);
    while qbit > 0
      invariant num0 == quot * den0 + num && quot >= 0 && num >= 0
      invariant if qbit > 0 then qbit == Pow2(k) && den == den0 * qbit && num < 2 * den && den > 0 else num < den0
      decreases qbit
    {
      if den <= num {
        Subtract(num0, quot, den0, qbit, num);
        num := num - den;
        quot := quot + qbit;
      }
      Halve(den0, qbit, k);
      den := den / 2;
      qbit := qbit / 2;
      k := if k > 0 then k - 1 else 0;
    }
    rem := num;
    QuotientFits(num0, quot, den0, rem);
  }

  /** Moving one bit into the quotient. */
  lemma Subtract(num0: nat, quot: nat, den0: nat, qbit: nat, num: nat)
    requires num0 == quot * den0 + num
    ensures num0 == (quot + qbit) * den0 + (num - den0 * qbit)
  {
  }

  /** Halving bit and divisor keeps them in step until the bit is gone. */
  lemma Halve(den0: nat, qbit: nat, k: nat)
    requires qbit == Pow2(k) && den0 > 0
    ensures k > 0 ==> qbit / 2 == Pow2(k - 1) > 0 && den0 * qbit / 2 == den0 * (qbit / 2) > 0 && 2 * (den0 * qbit / 2) == den0 * qbit
    ensures k == 0 ==> qbit / 2 == 0 && den0 * qbit == den0
  {
    if k > 0 {
      Doubled(den0, Pow2(k - 1));
      assert den0 * Pow2(k - 1) > 0;
    }
  }

  lemma QuotientFits(num0: nat, quot: nat, den0: nat, rem: nat)
    requires num0 == quot * den0 + rem && num0 < WRAP64 && den0 > 0
    ensures quot < WRAP64
  {
    assert quot * den0 == quot + quot * (den0 - 1);
  }

  /** There is only one quotient with a remainder below the divisor. */
  lemma QuotientUnique(den: nat, q: nat, r: nat, p: nat, s: nat)
    requires r < den && s < den && q * den + r == p * den + s
    ensures q == p && r == s
  {
    assert q * den == den * q && p * den == den * p;
    Bytes.Digit(den, r, q, s, p);
  }

  lemma IsQuotient(num: nat, q: nat, den: nat, r: nat)
    requires num == q * den + r && r < den
    ensures q == num / den
  {
    var p, s := num / den, num % den;
    assert num == p * den + s;
    QuotientUnique(den, q, r, p, s);
  }

  /** Division that truncates towards zero. */
  function Truncated(num: int, den: int): int
    requires den != 0
  {
    var q := Abs(num) / Abs(den);
    if (num < 0) == (den < 0) then q else -q
  }

  function Abs(x: int): nat {
    if x < 0 then -x else x
  }

  /** -x for an int64_t, which wraps at the number that has no negative. */
  function Negated(x: int): (r: int)
    requires -HALF <= x < HALF
    ensures -HALF <= r < HALF && (r - -x) % WRAP64 == 0
  {
    if x == -HALF then x else -x
  }

  /** The conversions between int64_t and uint64_t. */
  function Unsigned(x: int): (r: nat)
    requires -HALF <= x < HALF
    ensures r < WRAP64 && Signed(r) == x
  {
    if x < 0 then x + WRAP64 else x
  }

  function Signed(x: nat): (r: int)
    requires x < WRAP64
    ensures -HALF <= r < HALF
  {
    if x < HALF then x else x - WRAP64
  }

  /** __divdi3: the one quotient that is out of range wraps. */
  method DivDi3(num0: int, den0: int) returns (v: int)
    requires -HALF <= num0 < HALF && -HALF <= den0 < HALF && den0 != 0
    ensures v == Signed(Truncated(num0, den0) % WRAP64)
    ensures v == Truncated(num0, den0) <==> !(num0 == -HALF && den0 == -1)
  {
    hide Truncated;
    var minus, num, den := false, num0, den0;
    if num < 0 {
      num := Negated(num);
      minus := true;
    }
    if den < 0 {
      den := Negated(den);
      minus := !minus;
    }
    var quot, rem := UDivMod(Unsigned(num), Unsigned(den));
    TruncatedIs(num0, den0, quot, rem);
    v := Signed(quot);
    if minus {
      v := Negated(v);
    }
  }

  /** The truncated quotient from the unsigned one of the magnitudes, and from 64 bits. */
  lemma TruncatedIs(num: int, den: int, quot: nat, rem: nat)
    requires -HALF <= num < HALF && -HALF <= den < HALF && Abs(num) == quot * Abs(den) + rem && rem < Abs(den)
    ensures Truncated(num, den) == (if (num < 0) == (den < 0) then quot as int else -(quot as int)) && quot <= HALF
    ensures quot == HALF <==> num == -HALF && Abs(den) == 1
    ensures Signed(Truncated(num, den) % WRAP64) == if Truncated(num, den) == HALF then -HALF else Truncated(num, den)
  {
    IsQuotient(Abs(num), quot, Abs(den), rem);
    QuotientRange(Abs(num), quot, Abs(den), rem);
    FromSigned(Truncated(num, den));
  }

  lemma FromSigned(t: int)
    requires -HALF <= t <= HALF
    ensures Signed(t % WRAP64) == if t == HALF then -HALF else t
  {
    assert t % WRAP64 == if t < 0 then t + WRAP64 else t;
  }

  lemma QuotientRange(num: nat, q: nat, den: nat, r: nat)
    requires num == q * den + r && den > r
    ensures q <= num && (q == num && num > 0 ==> den == 1) && (den == 1 ==> q == num)
  {
    assert q * den == q + q * (den - 1);
    if q == num && num > 0 { assert q * (den - 1) == 0; }
  }

  /** Truncation: the result times the divisor leaves a remainder with the sign of the dividend. */
  lemma TruncatedMeans(num: int, den: int)
    requires den != 0
    ensures var r := num - Truncated(num, den) * den; Abs(r) < Abs(den) && (r == 0 || (r < 0 <==> num < 0))
  {
    var q, s := Abs(num) / Abs(den), Abs(num) % Abs(den);
    assert Abs(num) == q * Abs(den) + s;
    var r := num - Truncated(num, den) * den;
    assert r == if num < 0 then -s else s;
  }
}
