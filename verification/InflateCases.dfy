/**
 How each step of the decoder relates to the reference: what a table entry, a code set or an
 unsuccessful status of memdisk/inflate.c means for the result RFC 1951 asks for.
 */
module InflateCases {
  import opened Widths
  import opened Bits
  import opened CanonicalCode
  import opened HuftTable
  import opened HuftBuild
  import opened HuftPlan
  import opened HuftDecode
  import opened DeflateSpec
  import opened Window
  import opened SymbolTables

  /**
   How a routine ended. Err is a return code; Starved and Overrun are the two ways the C code dies
   (no more input, output buffer too small); Wild marks a read of memory that was never initialised.
   */
  datatype Status = Ok | Err(code: nat) | Starved | Overrun | Wild

  /** What an unsuccessful status says about the reference result r. */
  ghost predicate Explains(st: Status, r: Ref, input: seq<Byte>, limit: nat) {
    match st
    case Ok => false
    case Err(c) => r == Bad(c)
    case Starved => !(r.Done? && r.pos + 16 <= 8 * |input|)
    case Overrun => !(r.Done? && |r.out| <= limit)
    case Wild => r.Undefined?
  }

  /** The multiple of 8 that is less than 8 above pos. */
  lemma RoundsTo(pos: nat, n: nat)
    requires pos <= 8 * n < pos + 8
    ensures RoundUp8(pos) == 8 * n
  {
  }

  /** The stored block whose header starts with byte q. */
  lemma StoredAt(input: seq<Byte>, pos: nat, out: seq<Byte>, q: nat)
    requires RoundUp8(pos) == 8 * q
    ensures Stored(input, pos, out) ==
            if 8 * q + 32 > 8 * |input| then Truncated
            else
              var n := Peek(input, 8 * q, 16);
              if n + Peek(input, 8 * q + 16, 16) != 0xffff then Bad(1)
              else if q + 4 + n > |input| then Truncated
              else Done(8 * (q + 4 + n), out + input[q + 4..q + 4 + n])
  {
    hide Peek, Pow2;
  }

  // ---- The symbol tables of section 3.2.5 of RFC 1951, as memdisk/inflate.c lists them ----

  /** Code sets that blocks are decoded with: complete, a single code, or without unused symbols. */
  ghost predicate Accepted(lens: seq<nat>) {
    && |lens| > 0 && (forall i :: 0 <= i < |lens| ==> lens[i] <= BMAX)
    && (SetStatus(lens) == 0 || (SetStatus(lens) == 1 && 0 !in lens))
  }

  /** An entry for no symbol is flagged as invalid exactly when every symbol has a code. */
  lemma JunkFlag(lens: seq<nat>, al: Alphabet, input: seq<Byte>, pos: nat, d: Decoded, en: Huft, p: nat)
    requires Accepted(lens) && Covers(al, |lens|) && EndsRight(lens, al, input, pos, d, en, p) && !d.Symbol?
    ensures d.Unassigned? && en.v.Junk? && NoCode(lens) == if en.e == 99 then Bad(1) else Undefined
  {
  }

  /** The tables ts, with an l-bit root, decode lengths lens over alphabet al. */
  ghost predicate Usable(lens: seq<nat>, al: Alphabet, ts: seq<seq<Huft>>, l: nat, pl: Plan, info: seq<Place>) {
    && Accepted(lens)
    && Covers(al, |lens|)
    && (MaxLen(lens) == 0 ==> ts == [] && l == 0)
    && (MaxLen(lens) > 0 ==> PlanFor(lens, al, pl) && Complete(pl) && Ready(pl, ts, info) && Narrow(pl) && pl.l == l)
  }

  /** What an unsuccessful status says about reading lengths. */
  ghost predicate LengthsFail(st: Status, r: Lengths, input: seq<Byte>) {
    match st
    case Ok => false
    case Err(c) => r == NoLengths(Bad(c))
    case Starved => !(r.Lengths? && r.pos + 16 <= 8 * |input|)
    case Overrun => false
    case Wild => r == NoLengths(Undefined)
  }

  /** The same, of reading the lengths of both sets. */
  ghost predicate SetsFail(st: Status, r: Sets, input: seq<Byte>) {
    match st
    case Ok => false
    case Err(c) => r == NoSets(Bad(c))
    case Starved => !(r.Sets? && r.pos + 16 <= 8 * |input|)
    case Overrun => false
    case Wild => r == NoSets(Undefined)
  }

  /** What an entry of the code length table says about the reference. */
  lemma LengthCase(cl: seq<nat>, n: nat, input: seq<Byte>, pos: nat, lens: seq<nat>, en: Huft, p: nat)
    requires Accepted(cl) && |cl| == 19 && Covers(CODELENS, 19) && |lens| < n
    requires EndsRight(cl, CODELENS, input, pos, Decode(cl, input, pos), en, p)
    ensures !en.v.Num? ==> ReadLengths(cl, n, input, pos, lens) == NoLengths(Undefined)
    ensures en.v.Num? ==> en.v.n < 19 && ReadLengths(cl, n, input, pos, lens) == AfterSymbol(cl, n, input, p + en.b, lens, en.v.n)
  {
    hide Peek, Pow2, Accepted, Covers, SymbolEntry, CODELENS, AfterSymbol;
    var d := Decode(cl, input, pos);
    if d.Symbol? {
      CodeLengthEntry(d.sym, en.b);
    }
  }

  lemma CodeLengthEntry(sym: nat, b: nat)
    requires sym < 19
    ensures SymbolEntry(CODELENS, sym, b) == Huft(16, b, Num(sym))
  {
  }

  lemma LengthsStop(cl: seq<nat>, ts: seq<seq<Huft>>, l: nat, pl: Plan, info: seq<Place>, n: nat,
                    input: seq<Byte>, pos: nat, lens: seq<nat>, st: Status)
    requires Usable(cl, CODELENS, ts, l, pl, info) && |cl| == 19 && pos <= 8 * |input| && |lens| < n
    requires st.Starved? || st.Wild?
    requires st.Starved? ==> pos + 16 > 8 * |input|
    requires st.Wild? ==> MaxLen(cl) == 0
    ensures LengthsFail(st, ReadLengths(cl, n, input, pos, lens), input)
  {
    if st.Wild? { NoTables(cl, input, pos); }
  }

  lemma ReadAll(cl: seq<nat>, n: nat, input: seq<Byte>, pos: nat, lens: seq<nat>)
    requires |cl| == 19 && |lens| == n
    ensures ReadLengths(cl, n, input, pos, lens) == Lengths(pos, lens)
  {
  }

  /** Tables built for a usable set of at most 15-bit codes decode it, at the widths the decoder asks for. */
  lemma SetTable(lens: seq<nat>, al: Alphabet, m: nat, ts: seq<seq<Huft>>, l: nat, pl: Plan, info: seq<Place>)
    requires |lens| > 0 && (forall i :: 0 <= i < |lens| ==> lens[i] <= 15) && SetStatus(lens) == 0 && Covers(al, |lens|)
    requires m == 9 || (m == 6 && |lens| <= 30)
    requires MaxLen(lens) == 0 ==> ts == [] && l == 0
    requires MaxLen(lens) > 0 ==> PlanFor(lens, al, pl) && Complete(pl) && Ready(pl, ts, info) && pl.l == l && (l >= m || l == pl.g)
    ensures Usable(lens, al, ts, l, pl, info)
  {
    hide Ready, PlanFor, Complete;
    Pow2Table();
    BuiltUsable(lens, al, m, ts, l, pl, info);
  }

  lemma CodeLengthTable(cl: seq<nat>, ts: seq<seq<Huft>>, l: nat, pl: Plan, info: seq<Place>)
    requires |cl| == 19 && (forall i :: 0 <= i < 19 ==> cl[i] <= 7) && SetStatus(cl) == 0 && Covers(CODELENS, 19)
    requires MaxLen(cl) == 0 ==> ts == [] && l == 0
    requires MaxLen(cl) > 0 ==> PlanFor(cl, CODELENS, pl) && Complete(pl) && Ready(pl, ts, info) && pl.l == l && (l >= 7 || l == pl.g)
    ensures Usable(cl, CODELENS, ts, l, pl, info) && MaxLen(cl) <= l
  {
    BuiltUsable(cl, CODELENS, 7, ts, l, pl, info);
  }

  /** Where no code is longer than the root table, the first lookup is the only one. */
  lemma SingleLevel(lens: seq<nat>, al: Alphabet, ts: seq<seq<Huft>>, l: nat, pl: Plan, info: seq<Place>, input: seq<Byte>, pos: nat)
    requires Usable(lens, al, ts, l, pl, info) && |ts| > 0 && MaxLen(lens) <= l && pos + l <= 8 * |input|
    ensures Peek(input, pos, l) < |ts[0]|
    ensures var en := ts[0][Peek(input, pos, l)]; EndsRight(lens, al, input, pos, Decode(lens, input, pos), en, pos) && en.b <= l
  {
    hide Shl, Shr, Mask, Pow2, Peek, PeekCode, FilledTo, EndsRight;
    UsableStart(lens, al, ts, l, pl, info, input, pos);
    StepByFlag(pl, ts, info, input, pos, 0, l);
  }

  /** The fixed literal set is complete; the distance set lacks two codes but uses all its symbols. */
  lemma FixedSets()
    ensures Accepted(FixedLiteral()) && SetStatus(FixedLiteral()) == 0 && MaxLen(FixedLiteral()) == 9
    ensures Accepted(FixedDistance()) && SetStatus(FixedDistance()) == 1 && MaxLen(FixedDistance()) == 5
    ensures Covers(LITERALS, 288) && Covers(DISTANCES, 30)
  {
    AlphabetsCover();
    FixedLiteralSet();
    FixedDistanceSet();
  }

  lemma FixedLiteralSet()
    ensures Accepted(FixedLiteral()) && SetStatus(FixedLiteral()) == 0 && MaxLen(FixedLiteral()) == 9
  {
    var l := FixedLiteral();
    assert forall i :: 0 <= i < |l| ==> l[i] <= 9;
    forall k { FixedCount(k); }
    MaxLenIs(l, 9);
    var c := Counts(l);
    NothingShorter(c, 7);
    assert NextCode(c, 8) == 48;
    assert NextCode(c, 9) == 400;
    Pow2Table();
  }

  lemma FixedDistanceSet()
    ensures Accepted(FixedDistance()) && SetStatus(FixedDistance()) == 1 && MaxLen(FixedDistance()) == 5
  {
    var l := FixedDistance();
    forall k { FixedCount(k); }
    MaxLenIs(l, 5);
    NothingShorter(Counts(l), 5);
    Pow2Table();
  }

  /** Small enough sets get tables that decode. */
  lemma BuiltUsable(lens: seq<nat>, al: Alphabet, m: nat, ts: seq<seq<Huft>>, l: nat, pl: Plan, info: seq<Place>)
    requires Accepted(lens) && Covers(al, |lens|)
    requires MaxLen(lens) == 0 ==> ts == [] && l == 0
    requires MaxLen(lens) > 0 ==> PlanFor(lens, al, pl) && Complete(pl) && Ready(pl, ts, info) && pl.l == l && (l >= m || l == pl.g)
    requires MaxLen(lens) <= 2 * m || (SetStatus(lens) == 0 && |lens| < Pow2(m))
    ensures Usable(lens, al, ts, l, pl, info)
  {
    if MaxLen(lens) > 2 * m && l < pl.g {
      var c, g := Counts(lens), pl.g;
      assert pl.c == c;
      OffsetDisjoint(c, g, BMAX + 1);
      TotalCount(lens);
      Pow2Mono(m, l);
    }
  }

  lemma FixedUsable(ts: seq<seq<Huft>>, l: nat, pl: Plan, info: seq<Place>, lens: seq<nat>, al: Alphabet, m: nat)
    requires Accepted(lens) && Covers(al, |lens|) && 0 < MaxLen(lens) <= 2 * m
    requires PlanFor(lens, al, pl) && Complete(pl) && Ready(pl, ts, info) && pl.l == l && (l >= m || l == pl.g)
    ensures Usable(lens, al, ts, l, pl, info)
  {
    BuiltUsable(lens, al, m, ts, l, pl, info);
  }

  lemma SlotAdvances(w: nat, dist: nat, e: nat, i: nat)
    requires w < WSIZE && 1 <= dist <= WSIZE && w + e <= WSIZE && Slot(w, dist) + e <= WSIZE && i < e
    ensures w + i < WSIZE && Slot(w + i, dist) == Slot(w, dist) + i
  {
  }

  /** Going round the end of the window, source and target stay dist apart. */
  lemma SlotWraps(w: nat, dist: nat, e: nat)
    requires w < WSIZE && 1 <= dist <= WSIZE && w + e <= WSIZE && Slot(w, dist) + e <= WSIZE
    ensures (Slot(w, dist) + e) % WSIZE == Slot(if w + e == WSIZE then 0 else w + e, dist)
  {
  }

  lemma SlotStart(w: nat, dist: nat)
    requires w < WSIZE && 1 <= dist <= WSIZE
    ensures ((w - dist) % 0x1_0000_0000) % WSIZE == Slot(w, dist)
  {
  }

  lemma CopyFirst(out: seq<Byte>, dist: nat, len: nat)
    requires len > 0
    ensures CopyMatch(out, dist, len) == CopyMatch(out + [History(out, dist)], dist, len - 1)
  {
  }

  lemma CopyNone(out: seq<Byte>, dist: nat)
    ensures CopyMatch(out, dist, 0) == out
  {
  }

  lemma {:induction false} CopySplit(out: seq<Byte>, dist: nat, e: nat, n: nat)
    ensures CopyMatch(out, dist, e + n) == CopyMatch(CopyMatch(out, dist, e), dist, n)
    decreases e
  {
    if e > 0 {
      CopySplit(out + [History(out, dist)], dist, e - 1, n);
    }
  }

  /** What a literal/length entry says about the reference. */
  lemma LiteralCase(ll: seq<nat>, dl: seq<nat>, input: seq<Byte>, pos: nat, out: seq<Byte>, en: Huft, p: nat)
    requires Accepted(ll) && Covers(LITERALS, |ll|) && |ll| <= 288
    requires EndsRight(ll, LITERALS, input, pos, Decode(ll, input, pos), en, p)
    ensures en.e == 99 ==> Codes(ll, dl, input, pos, out) == Bad(1)
    ensures en.e != 99 && !en.v.Num? ==> Codes(ll, dl, input, pos, out) == Undefined
    ensures en.e == 16 && en.v.Num? ==> en.v.n < 256 && Codes(ll, dl, input, pos, out) == Codes(ll, dl, input, p + en.b, out + [en.v.n])
    ensures en.e == 15 && en.v.Num? ==> Codes(ll, dl, input, pos, out) == Done(p + en.b, out)
    ensures en.e != 99 && en.e != 16 && en.e != 15 && en.v.Num? ==> en.e <= 5 && en.v.n >= 1
    ensures en.e != 99 && en.e != 16 && en.e != 15 && en.v.Num? ==> LengthThen(ll, dl, input, pos, out, p + en.b, en.e, en.v.n)
  {
    hide Shl, LengthBase, LengthExtra, SymbolEntry, Covers, Accepted, Peek, PeekCode, Pow2, Decode, Match;
    var d := Decode(ll, input, pos);
    if d.Symbol? {
      LiteralEntry(d.sym, en.b);
    } else {
      JunkFlag(ll, LITERALS, input, pos, d, en, p);
    }
  }

  /** A length code: e extra bits follow, then the distance. */
  ghost predicate LengthThen(ll: seq<nat>, dl: seq<nat>, input: seq<Byte>, pos: nat, out: seq<Byte>, p: nat, e: nat, n: nat) {
    Codes(ll, dl, input, pos, out) ==
    if p + e > 8 * |input| then Truncated else Match(ll, dl, input, p + e, out, n + Peek(input, p, e))
  }

  /** What a distance entry says about the reference. */
  lemma DistanceCase(ll: seq<nat>, dl: seq<nat>, input: seq<Byte>, pos: nat, out: seq<Byte>, len: nat, en: Huft, p: nat)
    requires Accepted(dl) && Covers(DISTANCES, |dl|) && |dl| <= 30
    requires EndsRight(dl, DISTANCES, input, pos, Decode(dl, input, pos), en, p)
    ensures en.e == 99 ==> Match(ll, dl, input, pos, out, len) == Bad(1)
    ensures en.e != 99 && !en.v.Num? ==> Match(ll, dl, input, pos, out, len) == Undefined
    ensures en.e != 99 && en.v.Num? ==> en.e <= 13 && en.v.n >= 1 && en.v.n + Pow2(en.e) <= WSIZE + 1
    ensures en.e != 99 && en.v.Num? ==>
              (Match(ll, dl, input, pos, out, len) ==
               if p + en.b + en.e > 8 * |input| then Truncated
               else Codes(ll, dl, input, p + en.b + en.e, CopyMatch(out, en.v.n + Peek(input, p + en.b, en.e), len)))
  {
    hide Shl, DistBase, DistExtra, SymbolEntry, Covers, Accepted, Peek, PeekCode, Pow2, Decode, Codes;
    var d := Decode(dl, input, pos);
    if d.Symbol? {
      DistanceEntry(d.sym, en.b);
    } else {
      JunkFlag(dl, DISTANCES, input, pos, d, en, p);
    }
  }

  lemma UsableParts(lens: seq<nat>, al: Alphabet, ts: seq<seq<Huft>>, l: nat, pl: Plan, info: seq<Place>)
    requires Usable(lens, al, ts, l, pl, info)
    ensures Accepted(lens) && Covers(al, |lens|)
  {
  }

  lemma EntryBits(lens: seq<nat>, al: Alphabet, input: seq<Byte>, pos: nat, en: Huft, p: nat)
    requires Covers(al, |lens|) && EndsRight(lens, al, input, pos, Decode(lens, input, pos), en, p)
    ensures pos <= p && 1 <= en.b && p + en.b <= 8 * |input|
  {
  }

  /** Failing to fetch a distance entry, in terms of the reference. */
  lemma MatchStops(ll: seq<nat>, dl: seq<nat>, ts: seq<seq<Huft>>, l: nat, pl: Plan, info: seq<Place>,
                   input: seq<Byte>, pos: nat, out: seq<Byte>, len: nat, st: Status, limit: nat)
    requires Usable(dl, DISTANCES, ts, l, pl, info) && pos <= 8 * |input|
    requires st.Starved? || st.Wild?
    requires st.Starved? ==> pos + 16 > 8 * |input|
    requires st.Wild? ==> MaxLen(dl) == 0
    ensures Explains(st, Match(ll, dl, input, pos, out, len), input, limit)
  {
    if st.Wild? { NoTables(dl, input, pos); }
  }

  lemma CodesStop(ll: seq<nat>, dl: seq<nat>, ts: seq<seq<Huft>>, l: nat, pl: Plan, info: seq<Place>,
                  input: seq<Byte>, pos: nat, out: seq<Byte>, st: Status, limit: nat)
    requires Usable(ll, LITERALS, ts, l, pl, info) && pos <= 8 * |input|
    requires st.Starved? || st.Wild?
    requires st.Starved? ==> pos + 16 > 8 * |input|
    requires st.Wild? ==> MaxLen(ll) == 0
    ensures Explains(st, Codes(ll, dl, input, pos, out), input, limit)
  {
    if st.Wild? { NoTables(ll, input, pos); }
  }

  /** Without any codes, reading one is undefined. */
  lemma NoTables(lens: seq<nat>, input: seq<Byte>, pos: nat)
    requires MaxLen(lens) == 0 && |lens| > 0 && pos <= 8 * |input|
    ensures Decode(lens, input, pos) == Unassigned && NoCode(lens) == Undefined
  {
    assert lens[0] == 0;
  }

  /** What the decoding loop starts from. */
  lemma UsableStart(lens: seq<nat>, al: Alphabet, ts: seq<seq<Huft>>, l: nat, pl: Plan, info: seq<Place>,
                    input: seq<Byte>, pos: nat)
    requires Usable(lens, al, ts, l, pl, info) && pos <= 8 * |input|
    ensures |ts| == 0 ==> MaxLen(lens) == 0
    ensures |ts| > 0 ==> MaxLen(lens) > 0 && |info| == |ts| && info[0].w == 0 && AtTable(pl, info, input, pos, 0)
    ensures |ts| > 0 ==> l == Used(pl, info[0]) <= 16 && WalkOK(lens, al, input, pos, Walk(ts, 0, l, input, pos))
  {
    if |ts| > 0 {
      RootWidth(pl, ts, info);
      WalkDecodes(lens, al, pl, ts, info, input, pos);
    }
  }

  /** A byte fetched into the buffer continues the bits held. */
  lemma ByteIn(input: seq<Byte>, q: nat, k: nat)
    requires q < |input| && k <= 8 * q
    ensures Peek(input, 8 * q - k, k + 8) == Peek(input, 8 * q - k, k) + Shl(input[q], k)
  {
    PeekSplit(input, 8 * q - k, k, 8);
    PeekByte(input, q);
  }
}
