/**
 Arithmetic facts about where codes and table entries lie among the g-bit words, used to prove the
 table builder.
 */
module HuftGeometry {
  import opened Bits
  import opened CanonicalCode
  import opened HuftTable

  /** The first m of m + n index bits, read as a code. */
  lemma RevHigh(idx: nat, m: nat, n: nat)
    requires idx < Pow2(m + n)
    ensures Shr(Rev(idx, m + n), n) == Rev(idx, m)
  {
    var a, b := Shr(idx, m), Mask(idx, m);
    ShrMask(idx, m);
    RevSplit(a, n, b, m);
    RevLow(idx, m);
    assert Rev(idx, n + m) == Rev(a, n) + Shl(Rev(b, m), n);
    ShrMaskUnique(Rev(idx, n + m), n, Rev(idx, m), Rev(a, n));
  }

  /** Dropping the last n bits of an entry's word leaves the prefix p and the first m index bits. */
  lemma WordPrefix(p: nat, m: nat, n: nat, idx: nat)
    requires idx < Pow2(m + n)
    ensures Shr(Shl(p, m + n) + Rev(idx, m + n), n) == Shl(p, m) + Rev(idx, m)
  {
    var rho, hi := Rev(idx, m + n), Shl(p, m) + Rev(idx, m);
    RevHigh(idx, m, n);
    ShrMask(rho, n);
    assert Shl(hi, n) == Shl(p, m + n) + Shl(Rev(idx, m), n) by {
      ShlAdd(p, m, n);
      ShlPlus(Shl(p, m), Rev(idx, m), n);
    }
    ShrMaskUnique(Shl(p, m + n) + rho, n, hi, Mask(rho, n));
  }

  /** Exactly the entries whose first m index bits are those of C, in reverse, belong to code C. */
  lemma EntryOfCode(p: nat, m: nat, n: nat, idx: nat, C: nat)
    requires idx < Pow2(m + n) && Shr(C, m) == p
    ensures Shr(Shl(p, m + n) + Rev(idx, m + n), n) == C <==> Mask(idx, m) == Rev(C, m)
  {
    WordPrefix(p, m, n, idx);
    ShrMask(C, m);
    RevInvolution(idx, m);
    RevInvolution(C, m);
    RevLow(C, m);
    RevLow(idx, m);
  }

  /** An entry's first word lies in the interval of code C iff C starts the entry's n leading bits. */
  lemma StartInCode(R: nat, n: nat, C: nat, k: nat, g: nat)
    requires k <= n <= g
    ensures Shl(C, g - k) <= Shl(R, g - n) < Shl(C + 1, g - k) <==> Shr(R, n - k) == C
  {
    ShlAdd(C, n - k, g - n);
    ShlAdd(C + 1, n - k, g - n);
    ShlOrder(R, Shl(C, n - k), g - n);
    ShlOrder(R, Shl(C + 1, n - k), g - n);
    ShrRange(R, n - k, C);
  }

  /** The words under code C end inside a table that sits on a prefix of C. */
  lemma CodeInsideTable(g: nat, w: nat, p: nat, k: nat, C: nat)
    requires w <= k <= g && Shr(C, k - w) == p
    ensures Shl(C + 1, g - k) <= Shl(p + 1, g - w)
  {
    ShlAdd(p + 1, k - w, g - k);
    ShrRange(C, k - w, p);
    ShlOrder(Shl(p + 1, k - w), C + 1, g - k);
  }

  /** A code that starts on a 2^(g-w) boundary is its first w bits followed by zeros. */
  lemma AlignedPrefix(C: nat, k: nat, w: nat, g: nat)
    requires w <= k <= g && Mask(Shl(C, g - k), g - w) == 0
    ensures Mask(C, k - w) == 0
    ensures C == Shl(Shr(C, k - w), k - w)
    ensures Shl(C, g - k) == Shl(Shr(C, k - w), g - w)
  {
    var lo := Shl(C, g - k);
    ShrMask(lo, g - w);
    var p := Shr(lo, g - w);
    ShlAdd(p, k - w, g - k);
    ShlOrder(C, Shl(p, k - w), g - k);
    ShlOrder(Shl(p, k - w), C, g - k);
    ShrMaskUnique(C, k - w, p, 0);
  }

  /** A multiple of a power of two is a multiple of every smaller one. */
  lemma AlignedWeaken(lo: nat, a: nat, b: nat)
    requires a <= b && Mask(lo, b) == 0
    ensures Mask(lo, a) == 0
  {
    ShrMask(lo, b);
    ShlAdd(Shr(lo, b), b - a, a);
    ShrMaskUnique(lo, a, Shl(Shr(lo, b), b - a), 0);
  }

  lemma AlignedShl(q: nat, a: nat)
    ensures Mask(Shl(q, a), a) == 0
  {
    ShrMaskUnique(Shl(q, a), a, q, 0);
  }

  /** The words under a code of a complete set are g-bit words. */
  lemma CodeBelow(c: seq<nat>, g: nat, k: nat, C: nat)
    requires |c| == BMAX + 1 && k <= g <= BMAX && HasCode(c, k, C) && End(c, g) == Pow2(g)
    ensures Shl(C, g - k) < Shl(C + 1, g - k) <= Pow2(g)
  {
    ShlOrder(End(c, k), C + 1, g - k);
    ShlOrder(C, C + 1, g - k);
    if k < g {
      NextCodeBeyond(c, k, g);
    } else {
      assert Shl(C + 1, 0) == C + 1;
    }
  }

  /** A w-bit prefix p that starts a code has only g-bit words below it. */
  lemma PrefixBelow(c: seq<nat>, g: nat, w: nat, k: nat, C: nat)
    requires |c| == BMAX + 1 && w <= k <= g <= BMAX && HasCode(c, k, C) && End(c, g) == Pow2(g)
    ensures Shr(C, k - w) < Pow2(w)
    ensures Shl(Shr(C, k - w) + 1, g - w) <= Pow2(g)
  {
    hide Shl, Shr, Mask, Pow2, Rev;
    var p := Shr(C, k - w);
    CodeBelow(c, g, k, C);
    StartInCode(C, k, p, w, g);
    ShlPow2(w, g - w);
    ShlOrder(p, Pow2(w), g - w);
    ShlOrder(Pow2(w), p + 1, g - w);
  }

  /** A code under a table that is not full width fits in the table. */
  lemma CodeFits(pl: Plan, at: Place, k: nat, C: nat)
    requires Complete(pl) && at.j >= 1 && at.w + Used(pl, at) <= pl.g && Fits(pl, at)
    requires HasCode(pl.c, k, C) && at.w < k <= pl.g && Shr(C, k - at.w) == at.p
    ensures at.j < pl.l ==> k <= at.w + at.j
  {
    var n := at.w + at.j;
    if at.j < pl.l && n < k {
      ShrRange(C, k - at.w, at.p);
      ShlAdd(at.p + 1, at.j, k - n);
      ShlOrder(End(pl.c, n), Shl(at.p + 1, at.j), k - n);
      NextCodeBeyond(pl.c, n, k);
    }
  }

  /** A prefix of w bits whose words all need codes of length k or more costs 2^(k-w) codes. */
  lemma CodesNeeded(c: seq<nat>, g: nat, w: nat, k: nat, C: nat)
    requires |c| == BMAX + 1 && w <= k <= g <= BMAX && HasCode(c, k, C)
    requires End(c, g) == Pow2(g) && Mask(C, k - w) == 0
    ensures Pow2(k - w) <= Offset(c, g) + c[g]
  {
    hide Shl, Shr, Mask, Pow2, Rev;
    CodesWeight(c, k, C, g);
    var p, r := Shr(C, k - w), Offset(c, g) + c[g] - Index(c, k, C);
    assert Shl(p + 1, g - w) <= Pow2(g) by { PrefixBelow(c, g, w, k, C); }
    assert Shl(p + 1, k - w) == C + Pow2(k - w) by {
      ShrMask(C, k - w);
      ShlPlus(p, 1, k - w);
      ShlOne(k - w);
    }
    // the 2^(g-w) words under p weigh no more than the codes from C on
    assert Shl(C + Pow2(k - w), g - k) <= Shl(C + r, g - k) by { ShlAdd(p + 1, k - w, g - k); }
    ShlOrder(C + r, C + Pow2(k - w), g - k);
  }

  lemma {:induction false} CodesWeight(c: seq<nat>, k: nat, C: nat, m: nat)
    requires |c| == BMAX + 1 && k <= m <= BMAX && HasCode(c, k, C)
    ensures Index(c, k, C) <= Offset(c, m) + c[m]
    ensures End(c, m) <= Shl(C + (Offset(c, m) + c[m] - Index(c, k, C)), m - k)
    decreases m
  {
    if m > k {
      CodesWeight(c, k, C, m - 1);
      var r := Offset(c, m - 1) + c[m - 1] - Index(c, k, C);
      ShlPlus(C + r, c[m], m - k);
      ShlGrows(c[m], m - k);
    }
  }

  lemma {:induction false} ShlGrows(x: nat, n: nat)
    ensures Shl(x, n) >= x
  {
    if n > 0 { ShlGrows(x, n - 1); }
  }
}
