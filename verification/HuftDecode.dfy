/**
 What a lookup in finished tables yields: for any input position, walking the tables reads off the
 symbol whose canonical code (section 3.2.2 of RFC 1951) the input continues with.
 */
module HuftDecode {
  import opened Widths
  import opened Bits
  import opened CanonicalCode
  import opened HuftTable
  import opened HuftGeometry
  import opened HuftPlan

  /** The root table is as wide as the lookup that indexes it. */
  lemma RootWidth(pl: Plan, ts: seq<seq<Huft>>, info: seq<Place>)
    requires Complete(pl) && Ready(pl, ts, info)
    ensures Used(pl, info[0]) == pl.l
  {
    hide Shl, Shr, Mask, Pow2, Rev, NextCode, EntryOK;
    var at := info[0];
    assert TableShape(pl, ts[0], at);
    if at.j < pl.l {
      NextCodeBeyond(pl.c, at.j, pl.g);
      ShlAdd(1, at.j, pl.g - at.j);
      ShlOne(pl.g);
      ShlOrder(End(pl.c, at.j), Shl(1, at.j), pl.g - at.j);
    }
  }

  /** Where the walk stands: table q is the right one for the bits at pos. */
  ghost predicate AtTable(pl: Plan, info: seq<Place>, input: seq<Byte>, pos: nat, q: nat) {
    q < |info| && pos + info[q].w <= 8 * |input| && PeekCode(input, pos, info[q].w) == info[q].p
  }

  /** The entry found in table q continues the walk or ends it with a code the input starts with. */
  lemma Lookup(pl: Plan, ts: seq<seq<Huft>>, info: seq<Place>, input: seq<Byte>, pos: nat, q: nat)
    returns (en: Huft, k: nat, C: nat)
    requires Complete(pl) && Ready(pl, ts, info) && AtTable(pl, info, input, pos, q)
    requires pos + info[q].w + Used(pl, info[q]) <= 8 * |input|
    ensures Peek(input, pos + info[q].w, Used(pl, info[q])) < |ts[q]|
    ensures en == ts[q][Peek(input, pos + info[q].w, Used(pl, info[q]))]
    ensures en.v.Link? ==> LeadsOn(pl, info, input, pos, q, en)
    ensures !en.v.Link? ==> EndsWith(pl, info[q], input, pos, en, k, C)
  {
    hide Shl, Shr, Mask, Pow2, Rev, Peek, PeekCode;
    var at := info[q];
    var u := Used(pl, at);
    var idx := Peek(input, pos + at.w, u);
    assert TableShape(pl, ts[q], at);
    UsedWithin(pl, ts[q], at);
    WordIsInput(pl, at, input, pos);
    assert EntryOK(pl, ts, info, q, idx) by { StartBelow(pl, at, idx, ts[q]); }
    en := ts[q][idx];
    k, C := EntryMeaning(pl, ts, info, input, pos, q, idx);
  }

  /** The entry links to the table for the next l bits. */
  ghost predicate LeadsOn(pl: Plan, info: seq<Place>, input: seq<Byte>, pos: nat, q: nat, en: Huft)
    requires q < |info|
  {
    && en.v.Link? && q < en.v.t < |info| && en.e == 16 + info[en.v.t].j && en.b == pl.l
    && info[en.v.t].w == info[q].w + pl.l < pl.g && AtTable(pl, info, input, pos, en.v.t)
    && Used(pl, info[q]) == pl.l
  }

  /** The entry is the one for code C, of length k, with which the input continues. */
  ghost predicate EndsWith(pl: Plan, at: Place, input: seq<Byte>, pos: nat, en: Huft, k: nat, C: nat)
    requires |pl.al.d| == |pl.al.e| && |pl.v| <= pl.al.s + |pl.al.d|
  {
    && at.w < k <= at.w + Used(pl, at) && HasCode(pl.c, k, C) && pos + k <= 8 * |input|
    && PeekCode(input, pos, k) == C && en == LeafEntry(pl, Index(pl.c, k, C), k - at.w)
  }

  lemma EntryMeaning(pl: Plan, ts: seq<seq<Huft>>, info: seq<Place>, input: seq<Byte>, pos: nat, q: nat, idx: nat)
    returns (k: nat, C: nat)
    requires Complete(pl) && Shape(pl, ts, info) && q < |ts| && idx < |ts[q]| && EntryOK(pl, ts, info, q, idx)
    requires pos + info[q].w + Used(pl, info[q]) <= 8 * |input|
    requires Word(pl, info[q], idx) == PeekCode(input, pos, info[q].w + Used(pl, info[q]))
    ensures ts[q][idx].v.Link? ==> LeadsOn(pl, info, input, pos, q, ts[q][idx])
    ensures !ts[q][idx].v.Link? ==> EndsWith(pl, info[q], input, pos, ts[q][idx], k, C)
  {
    hide Shl, Shr, Mask, Pow2, Rev, Peek, PeekCode;
    var en := ts[q][idx];
    k, C := 0, 0;
    if LinkOK(pl, info, q, idx, en) {
      assert TableShape(pl, ts[en.v.t], info[en.v.t]);
    } else {
      k, C :| LeafOK(pl, info[q], idx, en, k, C);
      LeafMatches(pl, info[q], input, pos, idx, en, k, C);
    }
  }

  lemma LeafMatches(pl: Plan, at: Place, input: seq<Byte>, pos: nat, idx: nat, en: Huft, k: nat, C: nat)
    requires Complete(pl) && pos + at.w + Used(pl, at) <= 8 * |input|
    requires Word(pl, at, idx) == PeekCode(input, pos, at.w + Used(pl, at)) && LeafOK(pl, at, idx, en, k, C)
    ensures EndsWith(pl, at, input, pos, en, k, C) && !en.v.Link?
  {
    PeekPrefix(input, pos, k, at.w + Used(pl, at));
    LeafNotLink(pl, Index(pl.c, k, C), k - at.w);
  }

  lemma PeekPrefix(input: seq<Byte>, pos: nat, k: nat, n: nat)
    requires k <= n && pos + n <= 8 * |input|
    ensures Shr(PeekCode(input, pos, n), n - k) == PeekCode(input, pos, k)
  {
    PeekCodeSplit(input, pos, k, n - k);
    ShrMaskUnique(PeekCode(input, pos, n), n - k, PeekCode(input, pos, k), PeekCode(input, pos + k, n - k));
  }

  lemma LeafNotLink(pl: Plan, t: nat, b: nat)
    requires Complete(pl)
    ensures !LeafEntry(pl, t, b).v.Link?
  {
  }

  lemma WordIsInput(pl: Plan, at: Place, input: seq<Byte>, pos: nat)
    requires pos + at.w + Used(pl, at) <= 8 * |input| && PeekCode(input, pos, at.w) == at.p
    ensures Word(pl, at, Peek(input, pos + at.w, Used(pl, at))) == PeekCode(input, pos, at.w + Used(pl, at))
  {
    hide Shl, Shr, Mask, Pow2, Rev, Peek, PeekCode;
    var u := Used(pl, at);
    PeekCodeSplit(input, pos, at.w, u);
    PeekIsReversedCode(input, pos + at.w, u);
    RevInvolution(PeekCode(input, pos + at.w, u), u);
    MaskSmall(PeekCode(input, pos + at.w, u), u);
  }

  lemma StartBelow(pl: Plan, at: Place, idx: nat, t: seq<Huft>)
    requires Complete(pl) && TableShape(pl, t, at) && idx < Pow2(Used(pl, at))
    ensures Start(pl, at, idx) < Pow2(pl.g)
  {
    hide Shl, Shr, Mask, Pow2, Rev, Peek, PeekCode;
    var u := Used(pl, at);
    ShrMaskUnique(Word(pl, at, idx), u, at.p, Rev(idx, u));
    StartInCode(Word(pl, at, idx), at.w + u, at.p, at.w, pl.g);
    ShlPow2(at.w, pl.g - at.w);
    ShlOrder(Pow2(at.w), at.p + 1, pl.g - at.w);
  }

  /** A code of the completed set is a symbol's code or a dummy one. */
  lemma LeafMeaning(b: seq<nat>, al: Alphabet, pl: Plan, k: nat, C: nat, w: nat) returns (sym: nat)
    requires (forall i :: 0 <= i < |b| ==> b[i] <= BMAX) && PlanFor(b, al, pl) && Complete(pl) && HasCode(pl.c, k, C)
    requires w < k <= pl.g
    ensures sym < |b| ==> b[sym] == k && Code(b, sym) == C && LeafEntry(pl, Index(pl.c, k, C), k - w) == SymbolEntry(al, sym, k - w)
    ensures sym >= |b| ==> k == pl.g && C >= End(Counts(b), k) && LeafEntry(pl, Index(pl.c, k, C), k - w).v.Junk?
    ensures sym >= |b| && 0 !in b ==> LeafEntry(pl, Index(pl.c, k, C), k - w).e == 99
    ensures sym >= |b| && 0 in b && pl.g == 1 ==> LeafEntry(pl, Index(pl.c, k, C), k - w).e == 0
  {
    var c := Counts(b);
    SameBelow(c, pl.c, pl.g, k);
    var r := C - NextCode(c, k);
    if r < Count(b, k) {
      assert Holds(b, c, pl.v, k, r);
      sym := pl.v[Offset(c, k) + r];
    } else {
      sym := |b|;
      DummyIndex(b, al, pl, C);
    }
  }

  lemma DummyIndex(b: seq<nat>, al: Alphabet, pl: Plan, C: nat)
    requires (forall i :: 0 <= i < |b| ==> b[i] <= BMAX) && PlanFor(b, al, pl) && Complete(pl) && HasCode(pl.c, pl.g, C)
    requires C >= End(Counts(b), pl.g)
    ensures Index(pl.c, pl.g, C) >= Offset(Counts(b), BMAX + 1)
    ensures 0 !in b ==> Index(pl.c, pl.g, C) >= |b|
    ensures 0 in b && pl.g == 1 ==> Index(pl.c, pl.g, C) < |b|
  {
    var c, g := Counts(b), pl.g;
    SameBelow(c, pl.c, g, g);
    NothingLonger(b, g, BMAX + 1);
    TotalCount(b);
    if 0 in b {
      var i :| 0 <= i < |b| && b[i] == 0;
      CountPresent(b, i);
      if g == 1 {
        Pow2Table();
        assert NextCode(c, 1) == 0 && Offset(c, 1) == 0;
        var i :| 0 <= i < |b| && b[i] == MaxLen(b);
        CountPresent(b, i);
      }
    } else {
      CountAbsent(b, 0);
    }
  }

  lemma {:induction false} NothingLonger(b: seq<nat>, g: nat, k: nat)
    requires (forall i :: 0 <= i < |b| ==> b[i] <= BMAX) && g == MaxLen(b) >= 1 && g < k <= BMAX + 1
    ensures Offset(Counts(b), k) == Offset(Counts(b), g) + Count(b, g)
    decreases k
  {
    if k > g + 1 {
      NothingLonger(b, g, k - 1);
      CountAbsent(b, k - 1);
    }
  }

  /** Bits that start with a dummy code start with no symbol's code. */
  lemma DummyUnassigned(b: seq<nat>, al: Alphabet, pl: Plan, input: seq<Byte>, pos: nat)
    requires (forall i :: 0 <= i < |b| ==> b[i] <= BMAX) && PlanFor(b, al, pl) && Complete(pl)
    requires pos + pl.g <= 8 * |input| && HasCode(pl.c, pl.g, PeekCode(input, pos, pl.g))
    requires PeekCode(input, pos, pl.g) >= End(Counts(b), pl.g)
    ensures Decode(b, input, pos) == Unassigned
  {
    hide Shl, Shr, Mask, Pow2, Rev, Peek, PeekCode;
    var d := Decode(b, input, pos);
    if d.Symbol? {
      var k := b[d.sym];
      var c := Counts(b);
      SymbolHasCode(b, d.sym);
      SameBelow(c, pl.c, pl.g, k);
      PeekPrefix(input, pos, k, pl.g);
      PrefixFree(pl.c, k, Code(b, d.sym), pl.g, PeekCode(input, pos, pl.g));
    }
  }

  // ---- The whole walk ----

  /** Found: the entry that ends the walk and the position of its own bits. Dry: input ran out. */
  datatype Walked = Found(en: Huft, at: nat) | Dry(at: nat) | Lost

  /** Look up n bits at pos in table q and follow links, as the decoding loops of inflate_codes do. */
  function Walk(ts: seq<seq<Huft>>, q: nat, n: nat, input: seq<Byte>, pos: nat): Walked
    decreases |ts| - q
  {
    if q >= |ts| then Lost
    else if pos + n > 8 * |input| then Dry(pos)
    else if Peek(input, pos, n) >= |ts[q]| then Lost
    else
      var en := ts[q][Peek(input, pos, n)];
      if en.v.Link? && q < en.v.t && en.e > 16 then Walk(ts, en.v.t, en.e - 16, input, pos + en.b)
      else Found(en, pos)
  }

  /** What the walk tells about the bits at pos under code lengths b. */
  ghost predicate WalkOK(b: seq<nat>, al: Alphabet, input: seq<Byte>, pos: nat, r: Walked)
    requires Covers(al, |b|)
  {
    match r
    case Dry(p) => pos + BMAX > 8 * |input|
    case Found(en, p) => EndsRight(b, al, input, pos, Decode(b, input, pos), en, p)
    case Lost => false
  }

  ghost predicate EndsRight(b: seq<nat>, al: Alphabet, input: seq<Byte>, pos: nat, d: Decoded, en: Huft, p: nat)
    requires Covers(al, |b|)
  {
    && pos <= p && en.b >= 1 && p + en.b <= 8 * |input|
    && (d.Symbol? ==> d.sym < |b| && en == SymbolEntry(al, d.sym, en.b) && p + en.b == pos + b[d.sym])
    && (!d.Symbol? ==> d.Unassigned? && en.v.Junk? && (0 !in b ==> en.e == 99) && (0 in b && MaxLen(b) == 1 ==> en.e == 0))
    && (!d.Symbol? ==> 1 <= MaxLen(b) <= BMAX && Left(Counts(b), MaxLen(b)) > 0)
  }

  lemma {:induction false} WalkFrom(b: seq<nat>, al: Alphabet, pl: Plan, ts: seq<seq<Huft>>, info: seq<Place>,
                                    input: seq<Byte>, pos: nat, q: nat, n: nat)
    requires (forall i :: 0 <= i < |b| ==> b[i] <= BMAX) && Covers(al, |b|) && PlanFor(b, al, pl) && Complete(pl)
    requires Ready(pl, ts, info) && Narrow(pl) && AtTable(pl, info, input, pos, q) && n == Used(pl, info[q])
    ensures WalkOK(b, al, input, pos, Walk(ts, q, n, input, pos + info[q].w))
    decreases |ts| - q
  {
    hide PlanFor, WalkOK, Shl, Shr, Mask, Pow2, Rev, Peek, PeekCode;
    if pos + info[q].w + n > 8 * |input| {
      WalkDry(b, al, ts, input, pos, info[q].w, q, n);
    } else {
      var en, k, C := Lookup(pl, ts, info, input, pos, q);
      if en.v.Link? {
        WalkLink(pl, ts, info, input, pos, q, n, en);
        WalkFrom(b, al, pl, ts, info, input, pos, en.v.t, en.e - 16);
      } else {
        WalkLeaf(b, al, pl, ts, info[q], input, pos, q, n, en, k, C);
      }
    }
  }

  lemma WalkDry(b: seq<nat>, al: Alphabet, ts: seq<seq<Huft>>, input: seq<Byte>, pos: nat, w: nat, q: nat, n: nat)
    requires Covers(al, |b|) && q < |ts| && pos + w <= 8 * |input| < pos + w + n && w + n <= BMAX
    ensures WalkOK(b, al, input, pos, Walk(ts, q, n, input, pos + w))
  {
  }

  lemma WalkLink(pl: Plan, ts: seq<seq<Huft>>, info: seq<Place>, input: seq<Byte>, pos: nat, q: nat, n: nat, en: Huft)
    requires Complete(pl) && Shape(pl, ts, info) && Narrow(pl) && q < |ts| && LeadsOn(pl, info, input, pos, q, en)
    requires pos + info[q].w + n <= 8 * |input| && Peek(input, pos + info[q].w, n) < |ts[q]|
    requires en == ts[q][Peek(input, pos + info[q].w, n)]
    ensures en.e > 16 && en.e - 16 == Used(pl, info[en.v.t])
    ensures Walk(ts, q, n, input, pos + info[q].w) == Walk(ts, en.v.t, en.e - 16, input, pos + info[en.v.t].w)
  {
    hide Shl, Shr, Mask, Pow2, Rev, Peek, PeekCode, Walk;
    LinkWidth(pl, ts, info, en.v.t);
    WalkUnfold(ts, q, n, input, pos + info[q].w);
  }

  lemma WalkLeaf(b: seq<nat>, al: Alphabet, pl: Plan, ts: seq<seq<Huft>>, at: Place, input: seq<Byte>, pos: nat,
                 q: nat, n: nat, en: Huft, k: nat, C: nat)
    requires (forall i :: 0 <= i < |b| ==> b[i] <= BMAX) && Covers(al, |b|) && PlanFor(b, al, pl) && Complete(pl)
    requires at.w + Used(pl, at) <= pl.g && q < |ts| && EndsWith(pl, at, input, pos, en, k, C) && !en.v.Link?
    requires pos + at.w + n <= 8 * |input| && Peek(input, pos + at.w, n) < |ts[q]|
    requires en == ts[q][Peek(input, pos + at.w, n)]
    ensures WalkOK(b, al, input, pos, Walk(ts, q, n, input, pos + at.w))
  {
    hide Shl, Shr, Mask, Pow2, Rev, Peek, PeekCode;
    LeafEnds(b, al, pl, input, pos, k, C, at.w);
    WalkUnfold(ts, q, n, input, pos + at.w);
  }

  lemma WalkUnfold(ts: seq<seq<Huft>>, q: nat, n: nat, input: seq<Byte>, pos: nat)
    requires q < |ts| && pos + n <= 8 * |input| && Peek(input, pos, n) < |ts[q]|
    ensures var en := ts[q][Peek(input, pos, n)];
            Walk(ts, q, n, input, pos) ==
            if en.v.Link? && q < en.v.t && en.e > 16 then Walk(ts, en.v.t, en.e - 16, input, pos + en.b) else Found(en, pos)
  {
  }

  lemma LinkWidth(pl: Plan, ts: seq<seq<Huft>>, info: seq<Place>, t: nat)
    requires Complete(pl) && Shape(pl, ts, info) && Narrow(pl) && t < |ts| && info[t].w > 0
    ensures 1 <= info[t].j == Used(pl, info[t])
  {
    assert TableShape(pl, ts[t], info[t]);
  }

  lemma LeafEnds(b: seq<nat>, al: Alphabet, pl: Plan, input: seq<Byte>, pos: nat, k: nat, C: nat, w: nat)
    requires (forall i :: 0 <= i < |b| ==> b[i] <= BMAX) && Covers(al, |b|) && PlanFor(b, al, pl) && Complete(pl)
    requires w < k <= pl.g && HasCode(pl.c, k, C) && pos + k <= 8 * |input| && PeekCode(input, pos, k) == C
    ensures EndsRight(b, al, input, pos, Decode(b, input, pos), LeafEntry(pl, Index(pl.c, k, C), k - w), pos + w)
  {
    var sym := LeafMeaning(b, al, pl, k, C, w);
    if sym < |b| {
      DecodeIs(b, input, pos, sym);
    } else {
      DummyUnassigned(b, al, pl, input, pos);
    }
  }

  /**
   The tables huft_build makes decode the canonical code: whatever the input, the walk ends at the
   entry of the symbol whose code the input continues with, having passed over exactly that code,
   or at an invalid entry if there is no such symbol, or runs dry within 16 bits of the end of input.
   */
  lemma WalkDecodes(b: seq<nat>, al: Alphabet, pl: Plan, ts: seq<seq<Huft>>, info: seq<Place>, input: seq<Byte>, pos: nat)
    requires (forall i :: 0 <= i < |b| ==> b[i] <= BMAX) && Covers(al, |b|) && PlanFor(b, al, pl) && Complete(pl)
    requires Ready(pl, ts, info) && Narrow(pl) && pos <= 8 * |input|
    ensures WalkOK(b, al, input, pos, Walk(ts, 0, pl.l, input, pos))
  {
    RootWidth(pl, ts, info);
    WalkFrom(b, al, pl, ts, info, input, pos, 0, pl.l);
  }

  /** The flag of the entry tells the decoding loop whether the walk goes on. */
  lemma StepByFlag(pl: Plan, ts: seq<seq<Huft>>, info: seq<Place>, input: seq<Byte>, pos: nat, q: nat, n: nat)
    requires Complete(pl) && Ready(pl, ts, info) && Narrow(pl) && AtTable(pl, info, input, pos, q) && n == Used(pl, info[q])
    requires pos + info[q].w + n <= 8 * |input|
    ensures Peek(input, pos + info[q].w, n) < |ts[q]|
    ensures StepOK(pl, ts, info, input, pos, q, n, ts[q][Peek(input, pos + info[q].w, n)])
  {
    hide Shl, Shr, Mask, Pow2, Rev, Peek, PeekCode, FilledTo;
    var en, k, C := Lookup(pl, ts, info, input, pos, q);
    WalkUnfold(ts, q, n, input, pos + info[q].w);
    if en.v.Link? {
      WalkLink(pl, ts, info, input, pos, q, n, en);
      assert TableShape(pl, ts[en.v.t], info[en.v.t]);
    } else {
      LeafFlag(pl, Index(pl.c, k, C), k - info[q].w);
    }
  }

  ghost predicate StepOK(pl: Plan, ts: seq<seq<Huft>>, info: seq<Place>, input: seq<Byte>, pos: nat, q: nat, n: nat, en: Huft)
    requires q < |info|
  {
    if en.e <= 16 || en.e == 99 then
      1 <= en.b <= n && Walk(ts, q, n, input, pos + info[q].w) == Found(en, pos + info[q].w)
    else
      && en.v.Link? && q < en.v.t < |ts| == |info| && AtTable(pl, info, input, pos, en.v.t)
      && en.b == pl.l == n && info[en.v.t].w + Used(pl, info[en.v.t]) <= BMAX && info[en.v.t].w == info[q].w + en.b && en.e - 16 == Used(pl, info[en.v.t])
      && Walk(ts, q, n, input, pos + info[q].w) == Walk(ts, en.v.t, en.e - 16, input, pos + info[q].w + en.b)
  }

  lemma LeafFlag(pl: Plan, t: nat, b: nat)
    requires Complete(pl)
    ensures (LeafEntry(pl, t, b).e <= 16 || LeafEntry(pl, t, b).e == 99) && LeafEntry(pl, t, b).b == b
  {
  }
}
