/**
 The decoding tables of memdisk/inflate.c: what a table entry holds, and what it means for a set of
 tables to decode a canonical code. Tables are numbered in the order they are allocated; a link
 names the number of the table it points to.
 */
module HuftTable {
  import opened Bits
  import opened CanonicalCode

  /** The union in struct huft. Junk is memory the C code never initialised. */
  datatype Val = Num(n: nat) | Link(t: nat) | Junk

  datatype Huft = Huft(e: nat, b: nat, v: Val)

  /** Codes below s stand for themselves; code s + i has extra bits e[i] and base value d[i]. */
  datatype Alphabet = Alphabet(s: nat, d: seq<nat>, e: seq<nat>)

  ghost predicate Covers(al: Alphabet, n: nat) {
    |al.d| == |al.e| && n <= al.s + |al.d| && forall i :: 0 <= i < |al.e| ==> al.e[i] <= 14 || al.e[i] == 99
  }

  function SymbolEntry(al: Alphabet, sym: nat, b: nat): Huft
    requires |al.d| == |al.e| && sym < al.s + |al.d|
  {
    if sym < al.s then Huft(if sym < 256 then 16 else 15, b, Num(sym))
    else Huft(al.e[sym - al.s], b, Num(al.d[sym - al.s]))
  }

  /**
   Everything huft_build has worked out before it starts on the tables: counts c per length with the
   last one filled up to a complete set, longest length g, root table width l, and the values v in
   code order. A cell of v holding |v| was never written.
   */
  datatype Plan = Plan(c: seq<nat>, g: nat, l: nat, v: seq<nat>, al: Alphabet)

  ghost predicate Complete(pl: Plan) {
    && |pl.c| == BMAX + 1
    && 1 <= pl.l <= pl.g <= BMAX
    && pl.c[pl.g] > 0
    && End(pl.c, pl.g) == Pow2(pl.g)
    && Covers(pl.al, |pl.v|)
  }

  /** Under this condition no table below the root is wider than l bits. */
  ghost predicate Narrow(pl: Plan)
    requires |pl.c| == BMAX + 1 && pl.g <= BMAX
  {
    Offset(pl.c, pl.g) + pl.c[pl.g] < Pow2(pl.l) || pl.g <= 2 * pl.l
  }

  /** The entry for the t-th code, as set up in r before the table is filled. */
  function LeafEntry(pl: Plan, t: nat, b: nat): Huft
    requires |pl.al.d| == |pl.al.e| && |pl.v| <= pl.al.s + |pl.al.d|
  {
    if t >= |pl.v| then Huft(99, b, Junk)
    else if pl.v[t] >= |pl.v| then Huft(0, b, Junk)
    else SymbolEntry(pl.al, pl.v[t], b)
  }

  /** Where a table sits: it decodes words whose first w bits are p, and has 2^j entries. */
  datatype Place = Place(w: nat, p: nat, j: nat)

  function Used(pl: Plan, at: Place): nat {
    if at.j < pl.l then at.j else pl.l
  }

  /** First g-bit word under the table, and one past the last. */
  function Low(pl: Plan, at: Place): nat
    requires at.w <= pl.g
  {
    Shl(at.p, pl.g - at.w)
  }

  function High(pl: Plan, at: Place): nat
    requires at.w <= pl.g
  {
    Shl(at.p + 1, pl.g - at.w)
  }

  /** The leading bits of every word that reaches entry idx. */
  function Word(pl: Plan, at: Place, idx: nat): nat {
    Shl(at.p, Used(pl, at)) + Rev(idx, Used(pl, at))
  }

  /** First g-bit word that reaches entry idx. */
  function Start(pl: Plan, at: Place, idx: nat): nat
    requires at.w + Used(pl, at) <= pl.g
  {
    Shl(Word(pl, at, idx), pl.g - at.w - Used(pl, at))
  }

  /** Position of code C of length k in code order. */
  function Index(c: seq<nat>, k: nat, C: nat): nat
    requires HasCode(c, k, C)
  {
    Offset(c, k) + (C - NextCode(c, k))
  }

  /** Entry idx is the one for code C, which has length k and starts every word that gets here. */
  ghost predicate LeafOK(pl: Plan, at: Place, idx: nat, en: Huft, k: nat, C: nat)
    requires |pl.al.d| == |pl.al.e| && |pl.v| <= pl.al.s + |pl.al.d|
  {
    && at.w < k <= at.w + Used(pl, at)
    && HasCode(pl.c, k, C)
    && Shr(Word(pl, at, idx), at.w + Used(pl, at) - k) == C
    && en == LeafEntry(pl, Index(pl.c, k, C), k - at.w)
  }

  ghost predicate LinkOK(pl: Plan, info: seq<Place>, q: nat, idx: nat, en: Huft)
    requires q < |info|
  {
    && en.v.Link?
    && q < en.v.t < |info|
    && Used(pl, info[q]) == pl.l
    && info[en.v.t].w == info[q].w + pl.l
    && info[en.v.t].p == Word(pl, info[q], idx)
    && en == Huft(16 + info[en.v.t].j, pl.l, Link(en.v.t))
  }

  ghost predicate EntryOK(pl: Plan, ts: seq<seq<Huft>>, info: seq<Place>, q: nat, idx: nat)
    requires |pl.al.d| == |pl.al.e| && |pl.v| <= pl.al.s + |pl.al.d|
    requires q < |ts| == |info| && idx < |ts[q]|
  {
    LinkOK(pl, info, q, idx, ts[q][idx]) || exists k, C :: LeafOK(pl, info[q], idx, ts[q][idx], k, C)
  }

  /** Either the table is full width or every code below it fits in its j bits. */
  ghost predicate Fits(pl: Plan, at: Place)
    requires |pl.c| == BMAX + 1 && pl.g <= BMAX
  {
    pl.l <= at.j || (at.w + at.j <= pl.g && Shl(at.p + 1, at.j) <= End(pl.c, at.w + at.j))
  }

  ghost predicate TableShape(pl: Plan, t: seq<Huft>, at: Place)
    requires |pl.c| == BMAX + 1 && pl.g <= BMAX
  {
    && 1 <= at.j && at.w + Used(pl, at) <= pl.g
    && |t| == Pow2(at.j)
    && at.p < Pow2(at.w)
    && Fits(pl, at)
    && (Narrow(pl) && at.w > 0 ==> at.j <= pl.l)
  }

  ghost predicate Shape(pl: Plan, ts: seq<seq<Huft>>, info: seq<Place>)
    requires |pl.c| == BMAX + 1 && pl.g <= BMAX
  {
    |ts| == |info| && forall q :: 0 <= q < |ts| ==> TableShape(pl, ts[q], info[q])
  }

  lemma UsedWithin(pl: Plan, t: seq<Huft>, at: Place)
    requires |pl.c| == BMAX + 1 && pl.g <= BMAX && TableShape(pl, t, at)
    ensures Pow2(Used(pl, at)) <= |t|
  {
    Pow2Mono(Used(pl, at), at.j);
  }

  /** Every entry that starts before word lo is finished. */
  ghost predicate FilledTo(pl: Plan, ts: seq<seq<Huft>>, info: seq<Place>, lo: nat)
    requires Complete(pl) && Shape(pl, ts, info)
  {
    forall q, idx :: 0 <= q < |ts| && 0 <= idx < |ts[q]| && idx < Pow2(Used(pl, info[q])) && Start(pl, info[q], idx) < lo
                ==> EntryOK(pl, ts, info, q, idx)
  }

  /** The tables decode: every entry is finished and the root is l bits wide. */
  ghost predicate Ready(pl: Plan, ts: seq<seq<Huft>>, info: seq<Place>)
    requires Complete(pl)
  {
    && Shape(pl, ts, info)
    && FilledTo(pl, ts, info, Pow2(pl.g))
    && |ts| > 0 && info[0].w == 0 && info[0].p == 0
  }
}
