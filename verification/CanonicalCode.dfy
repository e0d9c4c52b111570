/**
 The canonical Huffman code of section 3.2.2 of RFC 1951, and its geometry: a code C of length k is
 seen as the interval [C * 2^(g-k), (C+1) * 2^(g-k)) of g-bit words that start with it.
 */
module CanonicalCode {
  import opened Widths
  import opened Bits

  const BMAX := 16

  /** Number of symbols whose code has length k. */
  function Count(lens: seq<nat>, k: nat): nat {
    if |lens| == 0 then 0
    else Count(lens[..|lens| - 1], k) + (if lens[|lens| - 1] == k then 1 else 0)
  }

  /** Step 1 of section 3.2.2: the number of codes of every length. */
  function Counts(lens: seq<nat>): (c: seq<nat>)
    ensures |c| == BMAX + 1
    ensures forall k :: 0 <= k <= BMAX ==> c[k] == Count(lens, k)
  {
    seq(BMAX + 1, k requires 0 <= k <= BMAX => Count(lens, k))
  }

  /** Step 2: the numerically smallest code of length k. */
  function NextCode(c: seq<nat>, k: nat): nat
    requires k <= |c|
  {
    if k <= 1 then 0 else 2 * (NextCode(c, k - 1) + c[k - 1])
  }

  /** Step 3: codes of one length are consecutive, in symbol order. */
  function Code(lens: seq<nat>, sym: nat): nat
    requires sym < |lens| && lens[sym] <= BMAX
  {
    NextCode(Counts(lens), lens[sym]) + Count(lens[..sym], lens[sym])
  }

  /** One past the last code of length k. */
  function End(c: seq<nat>, k: nat): nat
    requires k < |c|
  {
    NextCode(c, k) + c[k]
  }

  /** C is one of the codes of length k. */
  predicate HasCode(c: seq<nat>, k: nat, C: nat) {
    1 <= k < |c| && NextCode(c, k) <= C < End(c, k)
  }

  /** Codes of length k or less that could still be added (negative: oversubscribed). */
  function Left(c: seq<nat>, k: nat): int
    requires k < |c|
  {
    if k == 0 then 1 else Pow2(k) - End(c, k)
  }

  /** Number of symbols with a nonzero length below k; where those of length k start in code order. */
  function Offset(c: seq<nat>, k: nat): nat
    requires k <= |c|
  {
    if k <= 1 then 0 else Offset(c, k - 1) + c[k - 1]
  }

  // ---- Counting ----

  lemma {:induction false} CountAppend(a: seq<nat>, b: seq<nat>, k: nat)
    ensures Count(a + b, k) == Count(a, k) + Count(b, k)
  {
    if |b| == 0 {
      assert a + b == a;
    } else {
      var b' := b[..|b| - 1];
      CountAppend(a, b', k);
      assert (a + b)[..|a + b| - 1] == a + b';
    }
  }

  lemma CountPrefix(lens: seq<nat>, i: nat, k: nat)
    requires i <= |lens|
    ensures Count(lens[..i], k) <= Count(lens, k)
  {
    CountAppend(lens[..i], lens[i..], k);
    assert lens[..i] + lens[i..] == lens;
  }

  lemma CountStep(lens: seq<nat>, i: nat, k: nat)
    requires i < |lens|
    ensures Count(lens[..i + 1], k) == Count(lens[..i], k) + (if lens[i] == k then 1 else 0)
  {
    assert lens[..i + 1][..i] == lens[..i];
  }

  lemma {:induction false} CountBound(lens: seq<nat>, k: nat)
    ensures Count(lens, k) <= |lens|
  {
    if |lens| > 0 { CountBound(lens[..|lens| - 1], k); }
  }

  lemma {:induction false} CountSame(n: nat, k: nat, j: nat)
    ensures Count(seq(n, _ => k), j) == if j == k then n else 0
  {
    if n > 0 {
      CountSame(n - 1, k, j);
      assert seq(n, _ => k)[..n - 1] == seq(n - 1, _ => k);
    }
  }

  /** Every symbol with a usable length owns a code of that length. */
  lemma SymbolHasCode(lens: seq<nat>, sym: nat)
    requires sym < |lens| && 1 <= lens[sym] <= BMAX
    ensures HasCode(Counts(lens), lens[sym], Code(lens, sym))
  {
    CountStep(lens, sym, lens[sym]);
    CountPrefix(lens, sym + 1, lens[sym]);
  }

  /** Distinct symbols of one length have distinct ranks. */
  lemma RankInjective(lens: seq<nat>, a: nat, b: nat)
    requires a < |lens| && b < |lens| && lens[a] == lens[b]
    requires Count(lens[..a], lens[a]) == Count(lens[..b], lens[b])
    ensures a == b
  {
    if a < b {
      RankGrows(lens, a, b);
    } else if b < a {
      RankGrows(lens, b, a);
    }
  }

  lemma RankGrows(lens: seq<nat>, a: nat, b: nat)
    requires a < b < |lens|
    ensures Count(lens[..a], lens[a]) < Count(lens[..b], lens[a])
  {
    CountStep(lens, a, lens[a]);
    CountPrefix(lens[..b], a + 1, lens[a]);
    assert lens[..b][..a + 1] == lens[..a + 1];
  }

  // ---- Geometry ----

  /** Codes of a longer length start beyond everything shorter. */
  lemma {:induction false} NextCodeBeyond(c: seq<nat>, k: nat, m: nat)
    requires 1 <= k < m <= |c|
    ensures NextCode(c, m) >= Shl(End(c, k), m - k)
    decreases m
  {
    if m == k + 1 {
      assert Shl(End(c, k), 0) == End(c, k);
    } else {
      NextCodeBeyond(c, k, m - 1);
    }
  }

  /** No code is a prefix of another. */
  lemma PrefixFree(c: seq<nat>, k: nat, C: nat, k': nat, C': nat)
    requires HasCode(c, k, C) && HasCode(c, k', C') && k <= k'
    requires Shr(C', k' - k) == C
    ensures k == k' && C == C'
  {
    if k < k' {
      NextCodeBeyond(c, k, k');
      ShrRange(C', k' - k, C);
      ShlOrder(End(c, k), C + 1, k' - k);
    }
  }

  /** Once the lengths are oversubscribed, longer lengths cannot repair it. */
  lemma {:induction false} LeftDoubles(c: seq<nat>, k: nat)
    requires 1 <= k < |c|
    ensures Left(c, k) == 2 * Left(c, k - 1) - c[k]
  {
    assert Pow2(0) == 1;
    if k == 1 {
      assert NextCode(c, 1) == 0;
      assert Pow2(1) == 2;
    }
  }

  lemma {:induction false} LeftNegative(c: seq<nat>, k: nat, m: nat)
    requires k <= m < |c| && Left(c, k) < 0
    ensures Left(c, m) < 0
    decreases m
  {
    if k < m {
      LeftNegative(c, k, m - 1);
      LeftDoubles(c, m);
    }
  }

  lemma {:induction false} OffsetDisjoint(c: seq<nat>, k: nat, m: nat)
    requires 1 <= k < m <= |c|
    ensures Offset(c, k) + c[k] <= Offset(c, m)
    decreases m
  {
    if k + 1 < m { OffsetDisjoint(c, k, m - 1); }
  }

  /** Below the longest length, dummy codes of that length change neither codes nor order. */
  lemma {:induction false} SameBelow(c: seq<nat>, c': seq<nat>, g: nat, k: nat)
    requires |c| == |c'| && k <= g < |c| && forall j :: 0 <= j < g ==> c[j] == c'[j]
    ensures NextCode(c, k) == NextCode(c', k) && Offset(c, k) == Offset(c', k)
  {
    if k > 1 { SameBelow(c, c', g, k - 1); }
  }

  // ---- Reading a symbol, as RFC 1951 defines it ----

  /** The bits at pos start with the code of sym, most significant bit first. */
  predicate Matches(lens: seq<nat>, input: seq<Byte>, pos: nat, sym: nat)
  {
    sym < |lens| && 1 <= lens[sym] <= BMAX && pos + lens[sym] <= 8 * |input|
    && PeekCode(input, pos, lens[sym]) == Code(lens, sym)
  }

  /** At most one symbol matches, whatever the lengths are. */
  lemma MatchUnique(lens: seq<nat>, input: seq<Byte>, pos: nat, a: nat, b: nat)
    requires Matches(lens, input, pos, a) && Matches(lens, input, pos, b)
    ensures a == b
  {
    if lens[a] <= lens[b] {
      MatchOrdered(lens, input, pos, a, b);
    } else {
      MatchOrdered(lens, input, pos, b, a);
    }
  }

  lemma MatchOrdered(lens: seq<nat>, input: seq<Byte>, pos: nat, a: nat, b: nat)
    requires Matches(lens, input, pos, a) && Matches(lens, input, pos, b) && lens[a] <= lens[b]
    ensures a == b
  {
    var k, k' := lens[a], lens[b];
    SymbolHasCode(lens, a);
    SymbolHasCode(lens, b);
    PeekCodeSplit(input, pos, k, k' - k);
    var r := PeekCode(input, pos + k, k' - k);
    ShrMaskUnique(Code(lens, b), k' - k, Code(lens, a), r);
    PrefixFree(Counts(lens), k, Code(lens, a), k', Code(lens, b));
    RankInjective(lens, a, b);
  }

  /** What the next bits say under a code: a symbol, no assigned code, or not enough input to tell. */
  datatype Decoded = Symbol(sym: nat) | Unassigned | Short

  function MaxLen(lens: seq<nat>): (m: nat)
    ensures forall i :: 0 <= i < |lens| ==> lens[i] <= m
    ensures m > 0 ==> exists i :: 0 <= i < |lens| && lens[i] == m
  {
    if |lens| == 0 then 0
    else
      var m := MaxLen(lens[..|lens| - 1]);
      if lens[|lens| - 1] > m then lens[|lens| - 1] else m
  }

  ghost function Decode(lens: seq<nat>, input: seq<Byte>, pos: nat): (r: Decoded)
    ensures r.Symbol? ==> Matches(lens, input, pos, r.sym)
    ensures !r.Symbol? ==> forall s :: !Matches(lens, input, pos, s)
  {
    if exists s :: Matches(lens, input, pos, s) then
      var s :| Matches(lens, input, pos, s);
      Symbol(s)
    else if pos + MaxLen(lens) > 8 * |input| then Short
    else Unassigned
  }

  lemma DecodeIs(lens: seq<nat>, input: seq<Byte>, pos: nat, sym: nat)
    requires Matches(lens, input, pos, sym)
    ensures Decode(lens, input, pos) == Symbol(sym)
  {
    MatchUnique(lens, input, pos, sym, Decode(lens, input, pos).sym);
  }
}
