/**
 The table builder of memdisk/inflate.c (huft_build): from code lengths to multi-level tables.
 */
module HuftBuild {
  import opened Bits
  import opened CanonicalCode
  import opened HuftTable
  import opened HuftGeometry

  // ---- Choosing the size of a new table ----

  /** The smallest table, at most l bits where that is possible, that the codes below it fill. */
  method ChooseBits(pl: Plan, k: nat, w: nat, a: nat, ghost C: nat, ghost p: nat) returns (j: nat)
    requires Complete(pl) && w < k <= pl.g
    requires HasCode(pl.c, k, C) && C + a + 1 == End(pl.c, k) && C == Shl(p, k - w)
    ensures k - w <= j
    ensures w + Used(pl, Place(w, p, j)) <= pl.g
    ensures Fits(pl, Place(w, p, j))
    ensures j > pl.l ==> k - w > pl.l || (k - w == pl.l && k < pl.g)
  {
    hide Shl, Shr, Mask, Pow2, Rev;
    OpeningRoom(pl, k, w, C, p);
    var z := if pl.g - w > pl.l then pl.l else pl.g - w;
    j := k - w;
    var f := Pow2(j);
    if f > a + 1 {
      j := WidenTable(pl, w, z, j, f - (a + 1), p);
    }
  }

  /** Try more bits, up to z, while patterns are left over: f of them remain after j bits. */
  method WidenTable(pl: Plan, w: nat, z: nat, j0: nat, f0: nat, ghost p: nat) returns (j: nat)
    requires Complete(pl) && 1 <= j0 <= w + j0 < pl.g && z <= pl.g - w
    requires f0 > 0 && f0 == Shl(p + 1, j0) - End(pl.c, w + j0)
    ensures j0 < j && w + j <= pl.g
    ensures j <= z || j == j0 + 1
    ensures j < z ==> Shl(p + 1, j) <= End(pl.c, w + j)
  {
    j := j0 + 1;
    var f := f0;
    while j < z
      invariant j0 < j && (j <= z || j == j0 + 1)
      invariant w + j - 1 < pl.g
      invariant f > 0 && f == Shl(p + 1, j - 1) - End(pl.c, w + j - 1)
    {
      f := 2 * f;
      if f <= pl.c[w + j] {
        break;
      }
      f := f - pl.c[w + j];
      j := j + 1;
    }
  }

  lemma OpeningRoom(pl: Plan, k: nat, w: nat, C: nat, p: nat)
    requires Complete(pl) && w <= k <= pl.g && HasCode(pl.c, k, C) && C == Shl(p, k - w)
    ensures p < Pow2(w) && Shl(p + 1, pl.g - w) <= End(pl.c, pl.g)
    ensures Shl(p + 1, k - w) == C + Pow2(k - w)
    ensures Shr(C, k - w) == p
  {
    ShrMaskUnique(C, k - w, p, 0);
    PrefixBelow(pl.c, pl.g, w, k, C);
    ShlPlus(p, 1, k - w);
    ShlOne(k - w);
  }

  /** Where the condition Narrow holds, tables below the root stay within l bits. */
  lemma NarrowBits(pl: Plan, k: nat, w: nat, C: nat, j: nat)
    requires Complete(pl) && pl.l <= w < k <= pl.g
    requires HasCode(pl.c, k, C) && Mask(C, k - w) == 0
    requires j > pl.l ==> k - w > pl.l || (k - w == pl.l && k < pl.g)
    ensures Narrow(pl) ==> j <= pl.l
  {
    if j > pl.l {
      CodesNeeded(pl.c, pl.g, w, k, C);
      Pow2Mono(pl.l, k - w);
    }
  }

  // ---- The tables under construction ----

  /** Entry of table q that leads to table t, one level further down. */
  ghost predicate Linked(pl: Plan, ts: seq<seq<Huft>>, info: seq<Place>, q: nat, t: nat)
    requires |ts| == |info|
  {
    && q < t < |ts|
    && Used(pl, info[q]) == pl.l
    && info[t].w == info[q].w + pl.l
    && Shr(info[t].p, pl.l) == info[q].p
    && Rev(info[t].p, pl.l) < |ts[q]|
    && ts[q][Rev(info[t].p, pl.l)] == Huft(16 + info[t].j, pl.l, Link(t))
  }

  /** Bits decoded before the table that would come after the open ones. */
  function NextDepth(pl: Plan, info: seq<Place>, stk: seq<nat>): nat {
    if |stk| > 0 && stk[|stk| - 1] < |info| then info[stk[|stk| - 1]].w + pl.l else 0
  }

  /** The open tables u[0..h] and the code prefixes x[0..h] they were opened for. */
  ghost predicate Stack(pl: Plan, ts: seq<seq<Huft>>, info: seq<Place>, stk: seq<nat>, x: seq<nat>)
    requires |ts| == |info|
  {
    && |x| == |stk| && (|stk| == 0 ==> |ts| == 0)
    && (|stk| > 0 ==> stk[0] == 0)
    && (|ts| > 0 ==> info[0].w == 0 && info[0].p == 0)
    && (forall i :: 0 <= i < |stk| ==> stk[i] < |ts|)
    && (forall i :: 0 <= i < |stk| ==> x[i] == Rev(info[stk[i]].p, info[stk[i]].w))
    && (forall i, j :: 0 <= i < j < |stk| ==> stk[i] < stk[j])
    && (forall i :: 0 <= i < |stk| - 1 ==> Linked(pl, ts, info, stk[i], stk[i + 1]))
  }

  /** Word lo lies under the innermost open table, all other tables are behind it. */
  ghost predicate Position(pl: Plan, info: seq<Place>, stk: seq<nat>, lo: nat)
    requires forall i :: 0 <= i < |stk| ==> stk[i] < |info|
    requires forall q :: 0 <= q < |info| ==> info[q].w <= pl.g
  {
    && (NextDepth(pl, info, stk) <= pl.g ==> Mask(lo, pl.g - NextDepth(pl, info, stk)) == 0)
    && (|stk| > 0 ==> var at := info[stk[|stk| - 1]]; Low(pl, at) <= lo < High(pl, at))
    && (forall q :: 0 <= q < |info| && q !in stk ==> High(pl, info[q]) <= lo)
  }

  /** What holds before each code: words below lo are done, the next code has length k or more. */
  ghost predicate Inv(pl: Plan, ts: seq<seq<Huft>>, info: seq<Place>, stk: seq<nat>, x: seq<nat>, lo: nat, k: nat)
    requires Complete(pl)
  {
    && Shape(pl, ts, info)
    && FilledTo(pl, ts, info, lo)
    && Stack(pl, ts, info, stk, x)
    && (lo < Pow2(pl.g) ==> Position(pl, info, stk, lo))
    && (lo < Pow2(pl.g) && |stk| > 0 ==>
          && info[stk[|stk| - 1]].w < k
          && (stk[|stk| - 1] == |ts| - 1 || k > NextDepth(pl, info, stk)))
  }

  // ---- Opening a table ----

  lemma StartWithin(pl: Plan, at: Place, idx: nat)
    requires at.w + Used(pl, at) <= pl.g && idx < Pow2(Used(pl, at))
    ensures Low(pl, at) <= Start(pl, at, idx) < High(pl, at)
  {
    var u := Used(pl, at);
    ShrMaskUnique(Word(pl, at, idx), u, at.p, Rev(idx, u));
    StartInCode(Word(pl, at, idx), at.w + u, at.p, at.w, pl.g);
  }

  /** A finished entry stays finished when tables are added and other entries change. */
  lemma EntryStable(pl: Plan, ts: seq<seq<Huft>>, info: seq<Place>, ts': seq<seq<Huft>>, info': seq<Place>,
                    q: nat, idx: nat)
    requires Complete(pl) && |ts| == |info| && |ts'| == |info'| && info <= info'
    requires q < |ts| && idx < |ts[q]| && idx < |ts'[q]| && ts'[q][idx] == ts[q][idx]
    requires EntryOK(pl, ts, info, q, idx)
    ensures EntryOK(pl, ts', info', q, idx)
  {
    if !LinkOK(pl, info, q, idx, ts[q][idx]) {
      var k, C :| LeafOK(pl, info[q], idx, ts[q][idx], k, C);
      assert LeafOK(pl, info'[q], idx, ts'[q][idx], k, C);
    }
  }

  /** Tables ts with entry idx of table q set to en. */
  function SetEntry(ts: seq<seq<Huft>>, q: nat, idx: nat, en: Huft): (ts': seq<seq<Huft>>)
    requires q < |ts| && idx < |ts[q]|
    ensures |ts'| == |ts| && forall i :: 0 <= i < |ts| ==> |ts'[i]| == |ts[i]|
  {
    ts[q := ts[q][idx := en]]
  }

  /** Appending a table that starts at lo, with no finished entry touched, loses nothing. */
  lemma AddKeepsFilled(pl: Plan, ts: seq<seq<Huft>>, info: seq<Place>, lo: nat, ts': seq<seq<Huft>>, at: Place)
    requires Complete(pl) && Shape(pl, ts, info) && FilledTo(pl, ts, info, lo)
    requires Shape(pl, ts', info + [at]) && at.w <= pl.g && Low(pl, at) >= lo
    requires forall q :: 0 <= q < |ts| ==> |ts'[q]| == |ts[q]|
    requires forall q, idx :: 0 <= q < |ts| && 0 <= idx < |ts[q]| && idx < Pow2(Used(pl, info[q])) && Start(pl, info[q], idx) < lo
               ==> ts'[q][idx] == ts[q][idx]
    ensures FilledTo(pl, ts', info + [at], lo)
  {
    var info' := info + [at];
    forall q, idx | 0 <= q < |ts'| && 0 <= idx < |ts'[q]| && idx < Pow2(Used(pl, info'[q])) && Start(pl, info'[q], idx) < lo
      ensures EntryOK(pl, ts', info', q, idx)
    {
      if q == |ts| {
        StartWithin(pl, at, idx);
      } else {
        EntryStable(pl, ts, info, ts', info', q, idx);
      }
    }
  }

  lemma PositionAdd(pl: Plan, info: seq<Place>, stk: seq<nat>, lo: nat, at: Place)
    requires forall i :: 0 <= i < |stk| ==> stk[i] < |info|
    requires forall q :: 0 <= q < |info| ==> info[q].w <= pl.g
    requires Position(pl, info, stk, lo) && at.w == NextDepth(pl, info, stk) <= pl.g
    requires Low(pl, at) == lo < High(pl, at)
    ensures Position(pl, info + [at], stk + [|info|], lo)
  {
    var info', stk' := info + [at], stk + [|info|];
    assert NextDepth(pl, info', stk') == at.w + pl.l;
    if at.w + pl.l <= pl.g {
      AlignedWeaken(lo, pl.g - at.w - pl.l, pl.g - at.w);
    }
    forall q | 0 <= q < |info'| && q !in stk'
      ensures High(pl, info'[q]) <= lo
    {
      assert |info| in stk';
      assert stk <= stk';
    }
  }

  lemma StackAdd(pl: Plan, ts: seq<seq<Huft>>, info: seq<Place>, stk: seq<nat>, x: seq<nat>, at: Place,
                 ts': seq<seq<Huft>>, t: seq<Huft>)
    requires |ts| == |info| && |ts'| == |ts| && Stack(pl, ts, info, stk, x)
    requires forall q :: 0 <= q < |ts| ==> |ts'[q]| == |ts[q]|
    requires |stk| == 0 ==> at.w == 0 && at.p == 0
    requires |stk| > 0 ==> var top := stk[|stk| - 1];
               (forall q :: 0 <= q < |ts| && q != top ==> ts'[q] == ts[q])
               && Linked(pl, ts' + [t], info + [at], top, |ts|)
    ensures Stack(pl, ts' + [t], info + [at], stk + [|ts|], x + [Rev(at.p, at.w)])
  {
    var ts1, info1, stk1 := ts' + [t], info + [at], stk + [|ts|];
    forall i | 0 <= i < |stk1| - 1
      ensures Linked(pl, ts1, info1, stk1[i], stk1[i + 1])
    {
      if i < |stk| - 1 {
        assert Linked(pl, ts, info, stk[i], stk[i + 1]);
        assert stk[i] < stk[|stk| - 1];
      }
    }
  }

  /** The entry of the innermost open table that a table for prefix p hangs off. */
  lemma HangingEntry(pl: Plan, t: seq<Huft>, top: Place, k: nat, C: nat, p: nat)
    requires Complete(pl) && TableShape(pl, t, top) && HasCode(pl.c, k, C)
    requires top.w + pl.l < k <= pl.g && C == Shl(p, k - top.w - pl.l)
    requires Low(pl, top) <= Shl(C, pl.g - k) < High(pl, top)
    ensures Used(pl, top) == pl.l && Rev(p, pl.l) < |t|
    ensures Shr(p, pl.l) == top.p
    ensures Shr(Rev(p, top.w + pl.l), top.w) == Rev(p, pl.l)
    ensures Word(pl, top, Rev(p, pl.l)) == p
  {
    hide Shl, Shr, Mask, Pow2, Rev;
    var w := top.w + pl.l;
    assert Shr(C, k - top.w) == top.p by { StartInCode(C, k, top.p, top.w, pl.g); }
    assert Used(pl, top) == pl.l by { CodeFits(pl, top, k, C); }
    UsedWithin(pl, t, top);
    assert Shr(p, pl.l) == top.p by {
      ShrMaskUnique(C, k - w, p, 0);
      ShrAdd(C, k - w, pl.l);
    }
    LastBits(p, top.w, pl.l);
  }

  /** The last l of w + l code bits are the high bits of the reversal. */
  lemma LastBits(p: nat, w: nat, l: nat)
    ensures Shr(Rev(p, w + l), w) == Rev(p, l)
    ensures Shl(Shr(p, l), l) + Rev(Rev(p, l), l) == p
  {
    var hi := Shr(p, l);
    ShrMask(p, l);
    RevLow(p, l);
    RevInvolution(p, l);
    RevSplit(hi, w, Mask(p, l), l);
    ShrMaskUnique(Rev(p, w + l), w, Rev(p, l), Rev(hi, w));
  }

  /** Hanging a new table off the innermost open one. */
  lemma OpenBelow(pl: Plan, ts: seq<seq<Huft>>, info: seq<Place>, stk: seq<nat>, x: seq<nat>,
                  k: nat, lo: nat, at: Place, q: seq<Huft>)
    requires Complete(pl) && Inv(pl, ts, info, stk, x, lo, k) && |stk| > 0 && lo < Pow2(pl.g)
    requires NextDepth(pl, info, stk) == at.w < k && at.w <= pl.g
    requires Low(pl, at) == lo < High(pl, at) && TableShape(pl, q, at)
    requires Used(pl, info[stk[|stk| - 1]]) == pl.l && Rev(at.p, pl.l) < |ts[stk[|stk| - 1]]|
    requires Shr(at.p, pl.l) == info[stk[|stk| - 1]].p
    requires Word(pl, info[stk[|stk| - 1]], Rev(at.p, pl.l)) == at.p
    ensures Inv(pl, SetEntry(ts, stk[|stk| - 1], Rev(at.p, pl.l), Huft(16 + at.j, pl.l, Link(|ts|))) + [q], info + [at],
                stk + [|ts|], x + [Rev(at.p, at.w)], lo, k)
  {
    var top := stk[|stk| - 1];
    var idx := Rev(at.p, pl.l);
    var linked := SetEntry(ts, top, idx, Huft(16 + at.j, pl.l, Link(|ts|)));
    assert Linked(pl, linked + [q], info + [at], top, |ts|);
    StackAdd(pl, ts, info, stk, x, at, linked, q);
    PositionAdd(pl, info, stk, lo, at);
    assert Start(pl, info[top], idx) == lo;
    AddKeepsFilled(pl, ts, info, lo, linked + [q], at);
  }

  lemma OpenRoot(pl: Plan, k: nat, at: Place, q: seq<Huft>)
    requires Complete(pl) && 0 < k && at.w == at.p == 0 && TableShape(pl, q, at)
    ensures Inv(pl, [q], [at], [0], [0], 0, k)
  {
    ShlOne(pl.g);
    MaskSmall(0, pl.g);
    PositionAdd(pl, [], [], 0, at);
    StackAdd(pl, [], [], [], [], at, [], q);
    assert [] + [q] == [q] && [] + [at] == [at];
    assert Rev(0, 0) == 0;
    AddKeepsFilled(pl, [], [], 0, [q], at);
    assert [] + [0] == [0];
  }

  lemma HangTable(pl: Plan, ts: seq<seq<Huft>>, info: seq<Place>, stk: seq<nat>, x: seq<nat>,
                  k: nat, C: nat, lo: nat, at: Place, q: seq<Huft>)
    requires Complete(pl) && HasCode(pl.c, k, C) && at.w < k <= pl.g && C == Shl(at.p, k - at.w)
    requires Inv(pl, ts, info, stk, x, lo, k) && lo == Shl(C, pl.g - k) < Pow2(pl.g) && |stk| > 0
    requires NextDepth(pl, info, stk) == at.w
    requires Low(pl, at) == lo < High(pl, at) && TableShape(pl, q, at)
    ensures stk[|stk| - 1] < |ts| == |info| && pl.l <= at.w
    ensures Shr(Rev(at.p, at.w), at.w - pl.l) == Rev(at.p, pl.l) < |ts[stk[|stk| - 1]]|
    ensures Inv(pl, SetEntry(ts, stk[|stk| - 1], Rev(at.p, pl.l), Huft(16 + at.j, pl.l, Link(|ts|))) + [q],
                info + [at], stk + [|ts|], x + [Rev(at.p, at.w)], lo, k)
  {
    hide Shl, Shr, Mask, Pow2, Rev;
    var top := stk[|stk| - 1];
    HangingEntry(pl, ts[top], info[top], k, C, at.p);
    OpenBelow(pl, ts, info, stk, x, k, lo, at, q);
  }

  /** The prefix of the table that code C opens at depth w. */
  lemma OpeningPrefix(pl: Plan, w: nat, k: nat, C: nat, lo: nat) returns (p: nat)
    requires Complete(pl) && HasCode(pl.c, k, C) && w < k <= pl.g && lo == Shl(C, pl.g - k)
    requires Mask(lo, pl.g - w) == 0
    ensures C == Shl(p, k - w) && Mask(C, k - w) == 0 && p < Pow2(w) && Rev(C, k) == Rev(p, w)
    ensures Shl(p, pl.g - w) == lo < Shl(p + 1, pl.g - w)
  {
    hide Shl, Shr, Mask, Pow2, Rev;
    p := Shr(C, k - w);
    AlignedPrefix(C, k, w, pl.g);
    PrefixBelow(pl.c, pl.g, w, k, C);
    ShlOrder(p, p + 1, pl.g - w);
    RevSplit(p, w, 0, k - w);
    RevZero(k - w);
    ShlOne(w);
  }

  /** Allocate a table for the codes that start like C, and link it to the innermost open one. */
  method AddTable(pl: Plan, ts: seq<seq<Huft>>, ghost info: seq<Place>, stk: seq<nat>, x: seq<nat>,
                  w: int, i: nat, k: nat, a: nat, ghost C: nat, ghost lo: nat)
    returns (ts': seq<seq<Huft>>, ghost info': seq<Place>, stk': seq<nat>, x': seq<nat>)
    requires Complete(pl) && HasCode(pl.c, k, C) && k <= pl.g && C + a + 1 == End(pl.c, k) && i == Rev(C, k)
    requires Inv(pl, ts, info, stk, x, lo, k) && lo == Shl(C, pl.g - k) < Pow2(pl.g)
    requires w + pl.l == NextDepth(pl, info, stk) < k
    ensures Inv(pl, ts', info', stk', x', lo, k)
    ensures NextDepth(pl, info', stk') == w + 2 * pl.l && stk' == stk + [|ts|] && |ts'| == |ts| + 1
  {
    hide Shl, Shr, Mask, Pow2, Rev;
    var w' := w + pl.l;
    ghost var p := OpeningPrefix(pl, w', k, C, lo);
    var j := ChooseBits(pl, k, w', a, C, p);
    ghost var at := Place(w', p, j);
    var q := seq(Pow2(j), _ => Huft(0, 0, Junk));
    if |stk| > 0 {
      NarrowBits(pl, k, w', C, j);
      ts', info', stk', x' := AddBelow(pl, ts, info, stk, x, w', i, k, j, q, C, lo, at);
    } else {
      assert lo == 0 && p == 0 by { ShlOne(pl.g); Pow2Table(); }
      OpenRoot(pl, k, at, q);
      ts', info', stk', x' := [q], [at], [0], [0];
    }
  }

  method AddBelow(pl: Plan, ts: seq<seq<Huft>>, ghost info: seq<Place>, stk: seq<nat>, x: seq<nat>,
                  w: nat, i: nat, k: nat, j: nat, q: seq<Huft>, ghost C: nat, ghost lo: nat, ghost at: Place)
    returns (ts': seq<seq<Huft>>, ghost info': seq<Place>, stk': seq<nat>, x': seq<nat>)
    requires Complete(pl) && HasCode(pl.c, k, C) && at.w < k <= pl.g && C == Shl(at.p, k - at.w)
    requires Inv(pl, ts, info, stk, x, lo, k) && lo == Shl(C, pl.g - k) < Pow2(pl.g) && |stk| > 0
    requires NextDepth(pl, info, stk) == at.w == w && at.j == j && i == Rev(at.p, at.w)
    requires Low(pl, at) == lo < High(pl, at) && TableShape(pl, q, at)
    ensures Inv(pl, ts', info', stk', x', lo, k)
    ensures NextDepth(pl, info', stk') == w + pl.l && stk' == stk + [|ts|] && |ts'| == |ts| + 1
  {
    hide Shl, Shr, Pow2, Rev, Inv, Complete, HasCode, TableShape, Low, High, SetEntry;
    HangTable(pl, ts, info, stk, x, k, C, lo, at, q);
    var top, idx := stk[|stk| - 1], Shr(i, w - pl.l);
    ts' := SetEntry(ts, top, idx, Huft(16 + j, pl.l, Link(|ts|))) + [q];
    info', stk', x' := info + [at], stk + [|ts|], x + [i];
  }

  // ---- Filling in a code ----

  /** Indices congruent modulo 2^m lie at least 2^m apart. */
  lemma Apart(a: nat, b: nat, m: nat)
    requires a < b && Mask(a, m) == Mask(b, m)
    ensures b >= a + Pow2(m)
  {
    var qa, qb := Shr(a, m), Shr(b, m);
    ShrMask(a, m);
    ShrMask(b, m);
    ShlOrder(qa, qb, m);
    ShlOrder(qb, qa + 1, m);
    ShlPlus(qa, 1, m);
    ShlOne(m);
  }

  lemma NextCongruent(a: nat, m: nat)
    ensures Mask(a + Pow2(m), m) == Mask(a, m)
  {
    ShrMask(a, m);
    ShlPlus(Shr(a, m), 1, m);
    ShlOne(m);
    ShrMaskUnique(a + Pow2(m), m, Shr(a, m) + 1, Mask(a, m));
  }

  /** Write r at j0 and every 2^m entries after it. */
  method FillTable(t: seq<Huft>, j0: nat, m: nat, r: Huft) returns (t': seq<Huft>)
    requires j0 < Pow2(m)
    ensures |t'| == |t|
    ensures forall j :: 0 <= j < |t| ==> t'[j] == if Mask(j, m) == j0 then r else t[j]
  {
    t' := t;
    var j := j0;
    MaskSmall(j0, m);
    forall i | 0 <= i < j0
      ensures Mask(i, m) != j0
    {
      MaskSmall(i, m);
    }
    while j < |t|
      invariant |t'| == |t| && Mask(j, m) == j0
      invariant forall i :: 0 <= i < |t| ==> t'[i] == if i < j && Mask(i, m) == j0 then r else t[i]
      decreases |t| - j
    {
      t' := t'[j := r];
      forall i | j < i < j + Pow2(m)
        ensures Mask(i, m) != j0
      {
        if Mask(i, m) == j0 { Apart(j, i, m); }
      }
      NextCongruent(j, m);
      j := j + Pow2(m);
    }
  }

  /** Inner open tables lie within outer ones. */
  lemma {:induction false} Nested(pl: Plan, ts: seq<seq<Huft>>, info: seq<Place>, stk: seq<nat>, x: seq<nat>, i: nat)
    requires Complete(pl) && Shape(pl, ts, info) && Stack(pl, ts, info, stk, x) && i < |stk|
    ensures var at, top := info[stk[i]], info[stk[|stk| - 1]];
            Low(pl, at) <= Low(pl, top) && High(pl, top) <= High(pl, at)
    decreases |stk| - i
  {
    if i < |stk| - 1 {
      Nested(pl, ts, info, stk, x, i + 1);
      assert Linked(pl, ts, info, stk[i], stk[i + 1]);
      NestedPlace(pl, info[stk[i]], info[stk[i + 1]]);
    }
  }

  lemma NestedPlace(pl: Plan, at: Place, inner: Place)
    requires at.w <= inner.w <= pl.g && Shr(inner.p, inner.w - at.w) == at.p
    ensures Low(pl, at) <= Low(pl, inner) && High(pl, inner) <= High(pl, at)
  {
    CodeInsideTable(pl.g, at.w, at.p, inner.w, inner.p);
    StartInCode(inner.p, inner.w, at.p, at.w, pl.g);
  }

  /** In an outer open table the only entry reached from lo on is the link to the next open table. */
  lemma OuterEntry(pl: Plan, ts: seq<seq<Huft>>, info: seq<Place>, q: nat, t: nat, idx: nat)
    requires Complete(pl) && Shape(pl, ts, info) && q < |ts| && t < |ts| && Linked(pl, ts, info, q, t)
    requires idx < |ts[q]| && idx < Pow2(Used(pl, info[q]))
    requires Low(pl, info[t]) <= Start(pl, info[q], idx) < High(pl, info[t])
    ensures EntryOK(pl, ts, info, q, idx)
  {
    hide Shl, Shr, Mask, Pow2, Rev;
    var l, p := pl.l, info[t].p;
    assert Word(pl, info[q], idx) == p by {
      StartInCode(Word(pl, info[q], idx), info[t].w, p, info[t].w, pl.g);
      ShlZero(Word(pl, info[q], idx));
    }
    assert idx == Rev(p, l) by {
      ShrMask(p, l);
      RevLow(p, l);
      RevInvolution(idx, l);
      MaskSmall(idx, l);
    }
    assert LinkOK(pl, info, q, idx, ts[q][idx]);
  }

  /** In the innermost table, the entries from lo to the end of code C are the ones written for C. */
  lemma InnerEntry(pl: Plan, at: Place, idx: nat, k: nat, C: nat)
    requires at.w < k <= at.w + Used(pl, at) <= pl.g && idx < Pow2(Used(pl, at)) && Shr(C, k - at.w) == at.p
    ensures Shl(C, pl.g - k) <= Start(pl, at, idx) < Shl(C + 1, pl.g - k)
            <==> Shr(Word(pl, at, idx), at.w + Used(pl, at) - k) == C
    ensures Shr(Word(pl, at, idx), at.w + Used(pl, at) - k) == C <==> Mask(idx, k - at.w) == Rev(C, k - at.w)
  {
    var u := Used(pl, at);
    StartInCode(Word(pl, at, idx), at.w + u, C, k, pl.g);
    EntryOfCode(at.p, k - at.w, at.w + u - k, idx, C);
  }

  /** Writing the entries of code C finishes every table up to the end of C. */
  lemma FillKeeps(pl: Plan, ts: seq<seq<Huft>>, info: seq<Place>, stk: seq<nat>, x: seq<nat>,
                  k: nat, C: nat, top: nat, t': seq<Huft>)
    requires Complete(pl) && HasCode(pl.c, k, C) && k <= pl.g
    requires Inv(pl, ts, info, stk, x, Shl(C, pl.g - k), k) && Shl(C, pl.g - k) < Pow2(pl.g)
    requires |stk| > 0 && top == stk[|stk| - 1] && info[top].w < k <= info[top].w + Used(pl, info[top])
    requires Shr(C, k - info[top].w) == info[top].p && |t'| == |ts[top]|
    requires forall j :: 0 <= j < |t'| ==>
               (t'[j] == if Mask(j, k - info[top].w) == Rev(C, k - info[top].w)
                         then LeafEntry(pl, Index(pl.c, k, C), k - info[top].w) else ts[top][j])
    ensures Shape(pl, ts[top := t'], info) && FilledTo(pl, ts[top := t'], info, Shl(C + 1, pl.g - k))
    ensures Stack(pl, ts[top := t'], info, stk, x)
  {
    hide Shl, Shr, Mask, Pow2, Rev;
    var ts' := ts[top := t'];
    var lo, hi := Shl(C, pl.g - k), Shl(C + 1, pl.g - k);
    forall q, idx | 0 <= q < |ts'| && 0 <= idx < |ts'[q]| && idx < Pow2(Used(pl, info[q])) && Start(pl, info[q], idx) < hi
      ensures EntryOK(pl, ts', info, q, idx)
    {
      if q == top {
        InnerEntry(pl, info[q], idx, k, C);
        if Start(pl, info[q], idx) < lo {
          EntryStable(pl, ts, info, ts', info, q, idx);
        } else {
          assert LeafOK(pl, info[q], idx, ts'[q][idx], k, C);
        }
      } else {
        FillOuter(pl, ts, info, stk, x, k, C, q, idx);
        EntryStable(pl, ts, info, ts', info, q, idx);
      }
    }
    forall i | 0 <= i < |stk| - 1
      ensures Linked(pl, ts', info, stk[i], stk[i + 1])
    {
      assert Linked(pl, ts, info, stk[i], stk[i + 1]);
      assert stk[i] < stk[|stk| - 1];
    }
  }

  lemma FillOuter(pl: Plan, ts: seq<seq<Huft>>, info: seq<Place>, stk: seq<nat>, x: seq<nat>,
                  k: nat, C: nat, q: nat, idx: nat)
    requires Complete(pl) && k <= pl.g
    requires Inv(pl, ts, info, stk, x, Shl(C, pl.g - k), k) && Shl(C, pl.g - k) < Pow2(pl.g)
    requires |stk| > 0 && q < |ts| && q != stk[|stk| - 1] && info[stk[|stk| - 1]].w <= k
    requires Shr(C, k - info[stk[|stk| - 1]].w) == info[stk[|stk| - 1]].p
    requires idx < |ts[q]| && idx < Pow2(Used(pl, info[q])) && Start(pl, info[q], idx) < Shl(C + 1, pl.g - k)
    ensures EntryOK(pl, ts, info, q, idx)
  {
    hide Shl, Shr, Mask, Pow2, Rev;
    var lo := Shl(C, pl.g - k);
    if Start(pl, info[q], idx) >= lo {
      StartWithin(pl, info[q], idx);
      assert q in stk;
      var i :| 0 <= i < |stk| && stk[i] == q;
      Nested(pl, ts, info, stk, x, i + 1);
      var at := info[stk[|stk| - 1]];
      CodeInsideTable(pl.g, at.w, at.p, k, C);
      OuterEntry(pl, ts, info, q, stk[i + 1], idx);
    }
  }

  // ---- Moving on to the next code ----

  lemma TopBit(i: nat, n: nat)
    requires n > 0 && i < Pow2(n)
    ensures Shr(i, n - 1) % 2 == 1 <==> i >= Pow2(n - 1)
  {
    ShrRange(i, n - 1, 0);
    ShrRange(i, n - 1, 1);
    ShlOne(n - 1);
    ShlPlus(1, 1, n - 1);
  }

  /** Add one to a code that is kept with its bits reversed. */
  method BackIncrement(i0: nat, k: nat, ghost C: nat) returns (i: nat)
    requires i0 == Rev(C, k)
    ensures i == Rev(C + 1, k)
  {
    i := i0;
    var n := k;
    ghost var D := C;
    while n > 0 && Shr(i, n - 1) % 2 == 1
      invariant 0 <= n <= k && i == Rev(D, n) && Rev(D + 1, n) == Rev(C + 1, k)
    {
      TopBit(i, n);
      i := i - Pow2(n - 1);
      n := n - 1;
      D := D / 2;
    }
    if n > 0 {
      TopBit(i, n);
      i := i + Pow2(n - 1);
    }
  }

  /** The first w bits of a reversed code are its w low bits. */
  lemma MaskRev(C: nat, k: nat, w: nat)
    requires w <= k
    ensures Mask(Rev(C, k), w) == Rev(Shr(C, k - w), w)
  {
    ShrMask(C, k - w);
    RevSplit(Shr(C, k - w), w, Mask(C, k - w), k - w);
    ShrMaskUnique(Rev(C, k), w, Rev(Mask(C, k - w), k - w), Rev(Shr(C, k - w), w));
  }

  /** Just after a code is placed: lo may sit on the end of the innermost open table. */
  ghost predicate Leaving(pl: Plan, ts: seq<seq<Huft>>, info: seq<Place>, stk: seq<nat>, lo: nat, k: nat)
    requires Complete(pl) && Shape(pl, ts, info) && |stk| > 0
    requires forall i :: 0 <= i < |stk| ==> stk[i] < |info|
  {
    var top := stk[|stk| - 1];
    && Low(pl, info[top]) <= lo <= High(pl, info[top])
    && (forall q :: 0 <= q < |info| && q !in stk ==> High(pl, info[q]) <= lo)
    && (info[top].w + pl.l <= pl.g ==> Mask(lo, pl.g - info[top].w - pl.l) == 0)
    && info[top].w < k
    && (top == |ts| - 1 || k > info[top].w + pl.l)
  }

  /** The test of the backup loop tells whether lo is still under the table. */
  lemma StillUnder(pl: Plan, at: Place, k: nat, C: nat)
    requires at.w <= k <= pl.g && at.p < Pow2(at.w) && Shl(C, pl.g - k) < Pow2(pl.g)
    requires Low(pl, at) <= Shl(C, pl.g - k) <= High(pl, at)
    ensures Mask(Rev(C, k), at.w) == Rev(at.p, at.w) <==> Shl(C, pl.g - k) < High(pl, at)
  {
    hide Shl, Shr, Mask, Pow2, Rev;
    var p' := Shr(C, k - at.w);
    assert p' < Pow2(at.w) by {
      StartInCode(C, k, p', at.w, pl.g);
      ShlPow2(at.w, pl.g - at.w);
      ShlOrder(p', Pow2(at.w), pl.g - at.w);
    }
    StartInCode(C, k, at.p, at.w, pl.g);
    MaskRev(C, k, at.w);
    RevInjective(p', at.p, at.w);
  }

  lemma RevInjective(a: nat, b: nat, k: nat)
    requires a < Pow2(k) && b < Pow2(k)
    ensures Rev(a, k) == Rev(b, k) <==> a == b
  {
    RevInvolution(a, k);
    RevInvolution(b, k);
    MaskSmall(a, k);
    MaskSmall(b, k);
  }

  lemma PopTable(pl: Plan, ts: seq<seq<Huft>>, info: seq<Place>, stk: seq<nat>, x: seq<nat>, lo: nat, k: nat)
    requires Complete(pl) && Shape(pl, ts, info) && Stack(pl, ts, info, stk, x) && |stk| > 1
    requires Leaving(pl, ts, info, stk, lo, k) && lo == High(pl, info[stk[|stk| - 1]])
    ensures Leaving(pl, ts, info, stk[..|stk| - 1], lo, k)
  {
    hide Shl, Shr, Mask, Pow2, Rev;
    var n := |stk|;
    var stk' := stk[..n - 1];
    var top, next := info[stk[n - 1]], info[stk[n - 2]];
    Nested(pl, ts, info, stk, x, n - 2);
    assert Linked(pl, ts, info, stk[n - 2], stk[n - 1]);
    AlignedShl(top.p + 1, pl.g - top.w);
    forall q | 0 <= q < |info| && q !in stk'
      ensures High(pl, info[q]) <= lo
    {
      assert stk == stk' + [stk[n - 1]];
    }
  }

  /** Drop the open tables that lo has left behind. */
  method BackUp(pl: Plan, ts: seq<seq<Huft>>, ghost info: seq<Place>, stk0: seq<nat>, x0: seq<nat>,
                w0: nat, i: nat, ghost k: nat, ghost C: nat, ghost lo: nat)
    returns (stk: seq<nat>, x: seq<nat>, w: nat)
    requires Complete(pl) && k <= pl.g && i == Rev(C, k) && lo == Shl(C, pl.g - k)
    requires Shape(pl, ts, info) && FilledTo(pl, ts, info, lo) && Stack(pl, ts, info, stk0, x0) && |stk0| > 0
    requires w0 + pl.l == NextDepth(pl, info, stk0) && Leaving(pl, ts, info, stk0, lo, k)
    ensures Inv(pl, ts, info, stk, x, lo, k) && |stk| > 0 && w + pl.l == NextDepth(pl, info, stk)
  {
    hide Shl, Shr, Mask, Pow2, Rev;
    stk, x, w := stk0, x0, w0;
    while Mask(i, w) != x[|x| - 1]
      invariant |stk| > 0 && Stack(pl, ts, info, stk, x) && w + pl.l == NextDepth(pl, info, stk)
      invariant lo < Pow2(pl.g) ==> Leaving(pl, ts, info, stk, lo, k)
      decreases |stk|
    {
      BackUpStep(pl, ts, info, stk, x, k, C, lo);
      stk, x, w := stk[..|stk| - 1], x[..|x| - 1], w - pl.l;
    }
    if lo < Pow2(pl.g) {
      StillUnder(pl, info[stk[|stk| - 1]], k, C);
    }
  }

  lemma BackUpStep(pl: Plan, ts: seq<seq<Huft>>, info: seq<Place>, stk: seq<nat>, x: seq<nat>, k: nat, C: nat, lo: nat)
    requires Complete(pl) && k <= pl.g && lo == Shl(C, pl.g - k)
    requires Shape(pl, ts, info) && Stack(pl, ts, info, stk, x) && |stk| > 0
    requires lo < Pow2(pl.g) ==> Leaving(pl, ts, info, stk, lo, k)
    requires Mask(Rev(C, k), info[stk[|stk| - 1]].w) != x[|x| - 1]
    ensures |stk| > 1 && info[stk[|stk| - 1]].w == info[stk[|stk| - 2]].w + pl.l
    ensures Stack(pl, ts, info, stk[..|stk| - 1], x[..|x| - 1])
    ensures lo < Pow2(pl.g) ==> Leaving(pl, ts, info, stk[..|stk| - 1], lo, k)
  {
    assert |stk| > 1 by { assert info[stk[0]].w == 0; assert Mask(Rev(C, k), 0) == 0 == Rev(info[0].p, 0); }
    assert Linked(pl, ts, info, stk[|stk| - 2], stk[|stk| - 1]);
    if lo < Pow2(pl.g) {
      StillUnder(pl, info[stk[|stk| - 1]], k, C);
      PopTable(pl, ts, info, stk, x, lo, k);
    }
  }

  // ---- The main loop ----

  /** Open the tables that code C of length k needs. */
  method OpenTables(pl: Plan, ts0: seq<seq<Huft>>, ghost info0: seq<Place>, stk0: seq<nat>, x0: seq<nat>,
                    w0: int, i: nat, k: nat, a: nat, ghost C: nat, ghost lo: nat)
    returns (ts: seq<seq<Huft>>, ghost info: seq<Place>, stk: seq<nat>, x: seq<nat>, w: int)
    requires Complete(pl) && HasCode(pl.c, k, C) && k <= pl.g && C + a + 1 == End(pl.c, k) && i == Rev(C, k)
    requires Inv(pl, ts0, info0, stk0, x0, lo, k) && lo == Shl(C, pl.g - k) < Pow2(pl.g)
    requires w0 + pl.l == NextDepth(pl, info0, stk0)
    ensures Inv(pl, ts, info, stk, x, lo, k) && w + pl.l == NextDepth(pl, info, stk)
    ensures k <= w + pl.l && |stk| > 0 && stk[|stk| - 1] == |ts| - 1
  {
    ts, info, stk, x, w := ts0, info0, stk0, x0, w0;
    while k > w + pl.l
      invariant Inv(pl, ts, info, stk, x, lo, k) && w + pl.l == NextDepth(pl, info, stk)
      decreases k - w
    {
      ts, info, stk, x := AddTable(pl, ts, info, stk, x, w, i, k, a, C, lo);
      w := w + pl.l;
    }
  }

  /** The innermost table holds code C, which then ends at or before the table's end. */
  lemma PlaceFacts(pl: Plan, ts: seq<seq<Huft>>, info: seq<Place>, stk: seq<nat>, x: seq<nat>, k: nat, C: nat)
    requires Complete(pl) && HasCode(pl.c, k, C) && k <= pl.g && Shl(C, pl.g - k) < Pow2(pl.g)
    requires Inv(pl, ts, info, stk, x, Shl(C, pl.g - k), k)
    requires |stk| > 0 && stk[|stk| - 1] == |ts| - 1 && k <= NextDepth(pl, info, stk)
    ensures var at := info[|ts| - 1];
            at.w < k <= at.w + Used(pl, at) && Shr(C, k - at.w) == at.p
            && Shr(Rev(C, k), at.w) == Rev(C, k - at.w)
    ensures Leaving(pl, ts, info, stk, Shl(C + 1, pl.g - k), k)
  {
    hide Shl, Shr, Mask, Pow2, Rev;
    var at := info[|ts| - 1];
    assert Shr(C, k - at.w) == at.p by { StartInCode(C, k, at.p, at.w, pl.g); }
    assert k <= at.w + Used(pl, at) by { CodeFits(pl, at, k, C); }
    assert Shr(Rev(C, k), at.w) == Rev(C, k - at.w) by { LastBits(C, at.w, k - at.w); }
    CodeEnd(pl, at, k, C);
  }

  /** Where code C ends, seen from the table that holds it. */
  lemma CodeEnd(pl: Plan, at: Place, k: nat, C: nat)
    requires at.w <= k <= pl.g && k <= at.w + pl.l && Shr(C, k - at.w) == at.p
    ensures Shl(C, pl.g - k) < Shl(C + 1, pl.g - k) <= High(pl, at)
    ensures at.w + pl.l <= pl.g ==> Mask(Shl(C + 1, pl.g - k), pl.g - at.w - pl.l) == 0
  {
    CodeInsideTable(pl.g, at.w, at.p, k, C);
    ShlOrder(C, C + 1, pl.g - k);
    AlignedShl(C + 1, pl.g - k);
    if at.w + pl.l <= pl.g {
      AlignedWeaken(Shl(C + 1, pl.g - k), pl.g - at.w - pl.l, pl.g - k);
    }
  }

  function Min(a: nat, b: nat): nat {
    if a < b then a else b
  }

  /** One pass of the inner loop: enter code C, whose value is the t-th in code order. */
  method PlaceCode(pl: Plan, ts0: seq<seq<Huft>>, ghost info0: seq<Place>, stk0: seq<nat>, x0: seq<nat>,
                   w0: int, i0: nat, k: nat, a: nat, t0: nat, ghost C: nat)
    returns (ts: seq<seq<Huft>>, ghost info: seq<Place>, stk: seq<nat>, x: seq<nat>, w: int, i: nat, t: nat)
    requires Complete(pl) && HasCode(pl.c, k, C) && k <= pl.g && C + a + 1 == End(pl.c, k) && i0 == Rev(C, k)
    requires Inv(pl, ts0, info0, stk0, x0, Shl(C, pl.g - k), k)
    requires w0 + pl.l == NextDepth(pl, info0, stk0) && t0 == Min(Index(pl.c, k, C), |pl.v|)
    ensures Inv(pl, ts, info, stk, x, Shl(C + 1, pl.g - k), k) && |stk| > 0
    ensures w + pl.l == NextDepth(pl, info, stk) && i == Rev(C + 1, k) && t == Min(Index(pl.c, k, C) + 1, |pl.v|)
  {
    hide Shl, Shr, Mask, Pow2, Rev;
    CodeBelow(pl.c, pl.g, k, C);
    ts, info, stk, x, w := OpenTables(pl, ts0, info0, stk0, x0, w0, i0, k, a, C, Shl(C, pl.g - k));
    PlaceFacts(pl, ts, info, stk, x, k, C);
    var q := |ts| - 1;
    var r := LeafEntry(pl, t0, k - w);
    t := if t0 >= |pl.v| then t0 else t0 + 1;
    var filled := FillTable(ts[q], Shr(i0, w), k - w, r);
    FillKeeps(pl, ts, info, stk, x, k, C, q, filled);
    ts := ts[q := filled];
    i := BackIncrement(i0, k, C);
    stk, x, w := BackUp(pl, ts, info, stk, x, w, i, k, C + 1, Shl(C + 1, pl.g - k));
  }

  lemma {:induction false} NothingShorter(c: seq<nat>, k: nat)
    requires k <= |c| && forall j :: 1 <= j < k ==> c[j] == 0
    ensures NextCode(c, k) == 0 && Offset(c, k) == 0
  {
    if k > 1 { NothingShorter(c, k - 1); }
  }

  /** Between lengths: the first code of length k + 1 follows the last one of length k. */
  lemma NextLength(pl: Plan, k: nat)
    requires Complete(pl) && 1 <= k < pl.g
    ensures Shl(End(pl.c, k), pl.g - k) == Shl(NextCode(pl.c, k + 1), pl.g - k - 1)
    ensures Rev(End(pl.c, k), k) == Rev(NextCode(pl.c, k + 1), k + 1)
  {
    var e := End(pl.c, k);
    assert Shl(e, 0) == e && Shl(e, 1) == 2 * e;
    ShlAdd(e, 1, pl.g - k - 1);
  }

  /** Generate the codes in order and make the table entries for each. */
  method MakeTables(pl: Plan, k0: nat) returns (ts: seq<seq<Huft>>, ghost info: seq<Place>)
    requires Complete(pl) && 1 <= k0 <= pl.l && forall j :: 1 <= j < k0 ==> pl.c[j] == 0
    ensures Ready(pl, ts, info)
  {
    hide Shl, Shr, Mask, Pow2, Rev, Inv, Ready;
    ts, info := [], [];
    var stk: seq<nat>, x: seq<nat> := [], [];
    var w: int, i: nat, t: nat, k := 0 - pl.l, 0, 0, k0;
    NothingShorter(pl.c, k0);
    InitialInv(pl, k0);
    while k <= pl.g
      invariant k0 <= k <= pl.g + 1
      invariant k <= pl.g ==> Inv(pl, ts, info, stk, x, Shl(NextCode(pl.c, k), pl.g - k), k)
      invariant k <= pl.g ==> i == Rev(NextCode(pl.c, k), k) && t == Min(Offset(pl.c, k), |pl.v|)
      invariant w + pl.l == NextDepth(pl, info, stk)
      invariant k == pl.g + 1 ==> Inv(pl, ts, info, stk, x, Pow2(pl.g), pl.g) && |stk| > 0
    {
      var a := pl.c[k];
      ghost var C := NextCode(pl.c, k);
      while a > 0
        invariant 0 <= a <= pl.c[k] && C + a == End(pl.c, k)
        invariant Inv(pl, ts, info, stk, x, Shl(C, pl.g - k), k)
        invariant w + pl.l == NextDepth(pl, info, stk) && i == Rev(C, k)
        invariant t == Min(Offset(pl.c, k) + (C - NextCode(pl.c, k)), |pl.v|)
        invariant a < pl.c[k] ==> |stk| > 0
      {
        a := a - 1;
        ts, info, stk, x, w, i, t := PlaceCode(pl, ts, info, stk, x, w, i, k, a, t, C);
        C := C + 1;
      }
      if k < pl.g {
        NextLength(pl, k);
        InvLonger(pl, ts, info, stk, x, Shl(C, pl.g - k), k);
      } else {
        ShlZero(C);
      }
      k := k + 1;
    }
    InvReady(pl, ts, info, stk, x);
  }

  lemma InvLonger(pl: Plan, ts: seq<seq<Huft>>, info: seq<Place>, stk: seq<nat>, x: seq<nat>, lo: nat, k: nat)
    requires Complete(pl) && Inv(pl, ts, info, stk, x, lo, k)
    ensures Inv(pl, ts, info, stk, x, lo, k + 1)
  {
  }

  lemma InvReady(pl: Plan, ts: seq<seq<Huft>>, info: seq<Place>, stk: seq<nat>, x: seq<nat>)
    requires Complete(pl) && Inv(pl, ts, info, stk, x, Pow2(pl.g), pl.g) && |stk| > 0
    ensures Ready(pl, ts, info)
  {
  }

  lemma InitialInv(pl: Plan, k: nat)
    requires Complete(pl) && k <= pl.g
    ensures Shl(0, pl.g - k) == 0 && Rev(0, k) == 0
    ensures Inv(pl, [], [], [], [], 0, k)
  {
    ShlOne(pl.g - k);
    RevZero(k);
    MaskSmall(0, pl.g);
  }
}
