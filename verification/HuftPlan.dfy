/**
 The preparations of huft_build (memdisk/inflate.c): counting lengths, bounding the table width,
 checking the code set, and sorting the values into code order; then the whole builder.
 */
module HuftPlan {
  import opened Bits
  import opened CanonicalCode
  import opened HuftTable
  import opened HuftBuild

  /** v lists the symbols by code length, and by number within one length; the rest is unwritten. */
  ghost predicate InOrder(lens: seq<nat>, v: seq<nat>) {
    var c := Counts(lens);
    && |v| == |lens|
    && (forall k, r :: 1 <= k <= BMAX && 0 <= r < Count(lens, k) ==> Holds(lens, c, v, k, r))
    && (forall t :: Offset(c, BMAX + 1) <= t < |v| ==> v[t] == |lens|)
  }

  /** The r-th cell for length k holds the symbol of that length that has r of them before it. */
  ghost predicate Holds(lens: seq<nat>, c: seq<nat>, v: seq<nat>, k: nat, r: nat)
    requires k <= |c|
  {
    var t := Offset(c, k) + r;
    t < |v| && v[t] < |lens| && lens[v[t]] == k && Count(lens[..v[t]], k) == r
  }

  /** Counts for each bit length. */
  method CountLengths(b: seq<nat>) returns (c: array<nat>)
    requires forall i :: 0 <= i < |b| ==> b[i] <= BMAX
    ensures fresh(c) && c[..] == Counts(b)
  {
    c := new nat[BMAX + 1](_ => 0);
    for i := 0 to |b|
      invariant forall k :: 0 <= k <= BMAX ==> c[k] == Count(b[..i], k)
    {
      forall k { CountStep(b, i, k); }
      c[b[i]] := c[b[i]] + 1;
    }
    assert b[..|b|] == b;
  }

  lemma {:induction false} TotalCount(lens: seq<nat>)
    requires forall i :: 0 <= i < |lens| ==> lens[i] <= BMAX
    ensures Offset(Counts(lens), BMAX + 1) + Count(lens, 0) == |lens|
  {
    if |lens| == 0 {
      OffsetZero(Counts(lens), BMAX + 1);
    } else {
      var last := |lens| - 1;
      TotalCount(lens[..last]);
      OffsetBump(Counts(lens[..last]), Counts(lens), lens[last], BMAX + 1);
    }
  }

  lemma {:induction false} OffsetZero(c: seq<nat>, k: nat)
    requires k <= |c| && forall j :: 0 <= j < |c| ==> c[j] == 0
    ensures Offset(c, k) == 0
  {
    if k > 1 { OffsetZero(c, k - 1); }
  }

  lemma {:induction false} OffsetBump(c: seq<nat>, c': seq<nat>, l: nat, k: nat)
    requires |c| == |c'| && k <= |c|
    requires forall j :: 0 <= j < |c| ==> c'[j] == c[j] + (if j == l then 1 else 0)
    ensures Offset(c', k) == Offset(c, k) + (if 1 <= l < k then 1 else 0)
  {
    if k > 1 { OffsetBump(c, c', l, k - 1); }
  }

  /** Starting offsets into the value table for each length. */
  method StartOffsets(c: seq<nat>) returns (x: array<nat>)
    requires |c| == BMAX + 1
    ensures fresh(x) && x.Length == BMAX + 1 && forall k :: 1 <= k <= BMAX ==> x[k] == Offset(c, k)
  {
    x := new nat[BMAX + 1](_ => 0);
    var j := 0;
    for k := 2 to BMAX + 1
      invariant j == Offset(c, k - 1)
      invariant forall i :: 1 <= i < k ==> x[i] == Offset(c, i)
    {
      j := j + c[k - 1];
      x[k] := j;
    }
  }

  /** The value table: symbols in order of bit length. */
  method SortValues(b: seq<nat>, cs: seq<nat>) returns (v: array<nat>)
    requires (forall i :: 0 <= i < |b| ==> b[i] <= BMAX) && cs == Counts(b)
    ensures fresh(v) && InOrder(b, v[..])
  {
    var x := StartOffsets(cs);
    v := new nat[|b|](_ => |b|);
    for i := 0 to |b|
      invariant Cursors(b, x[..], i)
      invariant Sorted(b, cs, v[..], i)
    {
      PlaceValue(b, cs, v, x, i);
    }
    assert b[..|b|] == b;
  }

  /** x[k] is where the next symbol of length k goes, after i symbols. */
  ghost predicate Cursors(b: seq<nat>, x: seq<nat>, i: nat)
    requires i <= |b|
  {
    |x| == BMAX + 1 && forall k :: 1 <= k <= BMAX ==> x[k] == Offset(Counts(b), k) + Count(b[..i], k)
  }

  method PlaceValue(b: seq<nat>, ghost cs: seq<nat>, v: array<nat>, x: array<nat>, i: nat)
    requires i < |b| && (forall j :: 0 <= j < |b| ==> b[j] <= BMAX) && cs == Counts(b) && v != x
    requires Cursors(b, x[..], i) && Sorted(b, cs, v[..], i)
    modifies v, x
    ensures Cursors(b, x[..], i + 1) && Sorted(b, cs, v[..], i + 1)
  {
    ghost var before := v[..];
    if b[i] != 0 {
      SlotFree(b, i);
      assert x[b[i]] == x[..][b[i]];
      v[x[b[i]]] := i;
      x[b[i]] := x[b[i]] + 1;
    }
    SortStep(b, cs, before, v[..], i);
    forall k | 1 <= k <= BMAX
      ensures x[..][k] == Offset(cs, k) + Count(b[..i + 1], k)
    {
      CountStep(b, i, k);
      assert old(x[..])[k] == Offset(cs, k) + Count(b[..i], k);
    }
  }

  /** The first i symbols are in their places. */
  ghost predicate Sorted(b: seq<nat>, c: seq<nat>, v: seq<nat>, i: nat)
    requires i <= |b| && |c| == BMAX + 1
  {
    && |v| == |b|
    && (forall k, r :: 1 <= k <= BMAX && 0 <= r < Count(b[..i], k) ==> Holds(b, c, v, k, r))
    && (forall t :: Offset(c, BMAX + 1) <= t < |v| ==> v[t] == |b|)
  }

  lemma SlotFree(b: seq<nat>, i: nat)
    requires i < |b| && 1 <= b[i] <= BMAX && forall j :: 0 <= j < |b| ==> b[j] <= BMAX
    ensures Offset(Counts(b), b[i]) + Count(b[..i], b[i]) < Offset(Counts(b), BMAX + 1) <= |b|
  {
    CountStep(b, i, b[i]);
    CountPrefix(b, i + 1, b[i]);
    OffsetDisjoint(Counts(b), b[i], BMAX + 1);
    TotalCount(b);
  }

  lemma SortStep(b: seq<nat>, c: seq<nat>, v: seq<nat>, v': seq<nat>, i: nat)
    requires i < |b| && forall j :: 0 <= j < |b| ==> b[j] <= BMAX
    requires c == Counts(b) && Sorted(b, c, v, i)
    requires b[i] == 0 ==> v' == v
    requires b[i] != 0 ==> Offset(c, b[i]) + Count(b[..i], b[i]) < |v| && v' == v[Offset(c, b[i]) + Count(b[..i], b[i]) := i]
    ensures Sorted(b, c, v', i + 1)
  {
    if b[i] != 0 { SlotFree(b, i); }
    forall k, r | 1 <= k <= BMAX && 0 <= r < Count(b[..i + 1], k)
      ensures Holds(b, c, v', k, r)
    {
      CountStep(b, i, k);
      if r < Count(b[..i], k) {
        assert Holds(b, c, v, k, r);
        CountPrefix(b, i, k);
        CountStep(b, i, b[i]);
        CountPrefix(b, i + 1, b[i]);
        if b[i] != 0 && k < b[i] {
          OffsetDisjoint(c, k, b[i]);
        } else if b[i] != 0 && b[i] < k {
          OffsetDisjoint(c, b[i], k);
        }
      }
    }
  }

  // ---- Checking the code set ----

  /** What huft_build returns for a set of lengths: 0 usable, 1 incomplete, 2 oversubscribed. */
  ghost function SetStatus(b: seq<nat>): nat
    requires forall i :: 0 <= i < |b| ==> b[i] <= BMAX
  {
    var g := MaxLen(b);
    if g == 0 then 0
    else if Left(Counts(b), g) < 0 then 2
    else if Left(Counts(b), g) > 0 && g != 1 then 1
    else 0
  }

  /** The plan for lengths b: their codes, completed with dummy codes of the longest length. */
  ghost predicate PlanFor(b: seq<nat>, al: Alphabet, pl: Plan) {
    && |pl.c| == BMAX + 1 && 1 <= pl.g <= BMAX && pl.g == MaxLen(b)
    && Left(Counts(b), pl.g) >= 0
    && pl.c == Counts(b)[pl.g := Count(b, pl.g) + Left(Counts(b), pl.g)]
    && pl.al == al && InOrder(b, pl.v)
  }

  lemma {:induction false} CountAbsent(b: seq<nat>, k: nat)
    requires forall i :: 0 <= i < |b| ==> b[i] != k
    ensures Count(b, k) == 0
  {
    if |b| > 0 { CountAbsent(b[..|b| - 1], k); }
  }

  lemma CountPresent(b: seq<nat>, i: nat)
    requires i < |b|
    ensures Count(b, b[i]) > 0
  {
    CountStep(b, i, b[i]);
    CountPrefix(b, i + 1, b[i]);
  }

  /** The longest length is the largest one that occurs. */
  lemma MaxLenIs(b: seq<nat>, g: nat)
    requires 1 <= g && Count(b, g) > 0 && forall k :: g < k <= BMAX ==> Count(b, k) == 0
    requires forall i :: 0 <= i < |b| ==> b[i] <= BMAX
    ensures MaxLen(b) == g
  {
    if MaxLen(b) > g {
      var i :| 0 <= i < |b| && b[i] == MaxLen(b);
      CountPresent(b, i);
    } else if MaxLen(b) < g {
      CountAbsent(b, g);
    }
  }

  /** All lengths are zero: there is no code at all. */
  lemma NoCodes(b: seq<nat>)
    requires forall i :: 0 <= i < |b| ==> b[i] <= BMAX
    ensures Count(b, 0) == |b| <==> MaxLen(b) == 0
  {
    TotalCount(b);
    if MaxLen(b) > 0 {
      var i :| 0 <= i < |b| && b[i] == MaxLen(b);
      CountPresent(b, i);
      OffsetDisjoint(Counts(b), b[i], BMAX + 1);
    } else if Count(b, 0) < |b| {
      SomeCount(Counts(b), BMAX + 1);
      var k :| 1 <= k <= BMAX && Count(b, k) > 0;
      CountAbsent(b, k);
    }
  }

  lemma {:induction false} SomeCount(c: seq<nat>, k: nat)
    requires k <= |c| && Offset(c, k) > 0
    ensures exists j :: 1 <= j < k && c[j] > 0
  {
    if c[k - 1] == 0 { SomeCount(c, k - 1); }
  }

  /** Shortest and longest length in use. */
  method LengthRange(b: seq<nat>, c: seq<nat>) returns (j: nat, g: nat)
    requires (forall i :: 0 <= i < |b| ==> b[i] <= BMAX) && c == Counts(b) && MaxLen(b) > 0
    ensures 1 <= j <= g <= BMAX && c[j] > 0 && c[g] > 0 && g == MaxLen(b)
    ensures forall k :: 1 <= k < j ==> c[k] == 0
  {
    ghost var top :| 0 <= top < |b| && b[top] == MaxLen(b);
    CountPresent(b, top);
    j := 1;
    while c[j] == 0
      invariant 1 <= j <= MaxLen(b) && forall k :: 1 <= k < j ==> c[k] == 0
      decreases BMAX - j
    {
      j := j + 1;
    }
    g := BMAX;
    while c[g] == 0
      invariant MaxLen(b) <= g <= BMAX && forall k :: g < k <= BMAX ==> c[k] == 0
      decreases g
    {
      g := g - 1;
    }
    MaxLenIs(b, g);
  }

  /** Patterns left over at the longest length; negative as soon as a length is oversubscribed. */
  method LeftOver(c: seq<nat>, j0: nat, g: nat) returns (y: int)
    requires |c| == BMAX + 1 && 1 <= j0 <= g <= BMAX && forall k :: 1 <= k < j0 ==> c[k] == 0
    ensures y < 0 <==> Left(c, g) < 0
    ensures y >= 0 ==> y == Left(c, g)
  {
    var j := j0;
    NothingShorter(c, j0);
    NothingShorter(c, j0 - 1);
    y := Pow2(j0);
    while j < g
      invariant j0 <= j <= g && y == 2 * Left(c, j - 1)
    {
      LeftDoubles(c, j);
      y := y - c[j];
      if y < 0 {
        LeftNegative(c, j, g);
        return;
      }
      j := j + 1;
      y := 2 * y;
    }
    LeftDoubles(c, g);
    y := y - c[g];
  }

  /** huft_build: decoding tables for code lengths b, with at most about m bits in the root table. */
  method Build(b: seq<nat>, al: Alphabet, m: nat)
    returns (r: nat, ts: seq<seq<Huft>>, l: nat, ghost pl: Plan, ghost info: seq<Place>)
    requires |b| > 0 && (forall i :: 0 <= i < |b| ==> b[i] <= BMAX) && Covers(al, |b|)
    ensures r == SetStatus(b)
    ensures MaxLen(b) == 0 ==> ts == [] && l == 0
    ensures MaxLen(b) > 0 && r != 2 ==>
              && PlanFor(b, al, pl) && Complete(pl) && Ready(pl, ts, info)
              && pl.l == l && (l >= m || l == pl.g)
  {
    pl := Plan([], 0, 0, [], al);
    info, l, ts := [], 0, [];
    var counts := CountLengths(b);
    var c := counts[..];
    NoCodes(b);
    if c[0] == |b| {
      r := 0;
    } else {
      var j, g := LengthRange(b, c);
      l := if m < j then j else m;
      l := if l > g then g else l;
      var y := LeftOver(c, j, g);
      if y < 0 {
        r := 2;
      } else {
        var v := SortValues(b, c);
        var plan := Plan(c[g := c[g] + y], g, l, v[..], al);
        SameBelow(c, plan.c, g, g);
        pl := plan;
        ts, info := MakeTables(plan, j);
        r := if y != 0 && g != 1 then 1 else 0;
      }
    }
  }
}
