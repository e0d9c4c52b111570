/**
 The DEFLATE format as section 3.2 of RFC 1951 describes it, as a reference decoder over bit
 positions and an unbounded output. Where the standard leaves a case open, the reference says what
 memdisk/inflate.c does there, or Undefined where the C code reads memory it never initialised.
 */
module DeflateSpec {
  import opened Widths
  import opened Bits
  import opened CanonicalCode
  import opened HuftPlan

  /** Done: decoded up to bit pos. Bad: rejected. Truncated: the input ends too early. */
  datatype Ref = Done(pos: nat, out: seq<Byte>) | Bad(code: nat) | Undefined | Truncated

  // ---- Section 3.2.3: copying from earlier output ----

  /** The byte dist back. Distances beyond the start of the output find the zeroed window. */
  function History(out: seq<Byte>, dist: nat): Byte {
    if 1 <= dist <= |out| then out[|out| - dist] else 0
  }

  /** Append len bytes, each the one dist back from where it goes. */
  function CopyMatch(out: seq<Byte>, dist: nat, len: nat): (r: seq<Byte>)
    ensures |r| == |out| + len && out <= r
    decreases len
  {
    if len == 0 then out else CopyMatch(out + [History(out, dist)], dist, len - 1)
  }

  // ---- Section 3.2.5: lengths and distances ----

  function LengthExtra(s: nat): nat
    requires 257 <= s <= 285
  {
    if s < 265 || s == 285 then 0 else (s - 261) / 4
  }

  function LengthBase(s: nat): nat
    requires 257 <= s <= 285
  {
    if s < 265 then s - 254
    else if s == 285 then 258
    else 3 + Shl(4 + (s - 265) % 4, LengthExtra(s))
  }

  function DistExtra(s: nat): nat
    requires s < 30
  {
    if s < 4 then 0 else (s - 2) / 2
  }

  function DistBase(s: nat): nat
    requires s < 30
  {
    if s < 4 then s + 1 else 1 + Shl(2 + s % 2, DistExtra(s))
  }

  /** Bits that are no code: the builder marks them invalid if every symbol has a code. */
  function NoCode(lens: seq<nat>): Ref {
    if 0 !in lens then Bad(1) else Undefined
  }

  // ---- Sections 3.2.3 and 3.2.5: compressed data up to the end-of-block code ----

  ghost function Codes(ll: seq<nat>, dl: seq<nat>, input: seq<Byte>, pos: nat, out: seq<Byte>): (r: Ref)
    ensures r.Done? ==> pos < r.pos <= 8 * |input| && out <= r.out
    decreases 8 * |input| - pos, 1
  {
    match Decode(ll, input, pos)
    case Short => Truncated
    case Unassigned => NoCode(ll)
    case Symbol(s) =>
      var p := pos + ll[s];
      if s < 256 then Codes(ll, dl, input, p, out + [s])
      else if s == 256 then Done(p, out)
      else if s > 285 then Bad(1)
      else if p + LengthExtra(s) > 8 * |input| then Truncated
      else
        var len := LengthBase(s) + Peek(input, p, LengthExtra(s));
        Match(ll, dl, input, p + LengthExtra(s), out, len)
  }

  /** The distance part of a match of length len, and what follows. */
  ghost function Match(ll: seq<nat>, dl: seq<nat>, input: seq<Byte>, pos: nat, out: seq<Byte>, len: nat): (r: Ref)
    ensures r.Done? ==> pos < r.pos <= 8 * |input| && out <= r.out
    decreases 8 * |input| - pos, 0
  {
    match Decode(dl, input, pos)
    case Short => Truncated
    case Unassigned => NoCode(dl)
    case Symbol(s) =>
      var p := pos + dl[s];
      if s >= 30 then Bad(1)
      else if p + DistExtra(s) > 8 * |input| then Truncated
      else
        var dist := DistBase(s) + Peek(input, p, DistExtra(s));
        Codes(ll, dl, input, p + DistExtra(s), CopyMatch(out, dist, len))
  }

  // ---- Section 3.2.4: stored blocks ----

  function RoundUp8(pos: nat): nat {
    (pos + 7) / 8 * 8
  }

  function Stored(input: seq<Byte>, pos: nat, out: seq<Byte>): (r: Ref)
    ensures r.Done? ==> pos < r.pos <= 8 * |input| && out <= r.out
  {
    var p := RoundUp8(pos);
    if p + 32 > 8 * |input| then Truncated
    else
      var len := Peek(input, p, 16);
      if len + Peek(input, p + 16, 16) != 0xffff then Bad(1)
      else if p + 32 + 8 * len > 8 * |input| then Truncated
      else Done(p + 32 + 8 * len, out + input[p / 8 + 4..p / 8 + 4 + len])
  }

  // ---- Section 3.2.6: fixed codes ----

  function FixedLiteral(): (l: seq<nat>)
    ensures |l| == 288
  {
    seq(288, i => if i < 144 then 8 else if i < 256 then 9 else if i < 280 then 7 else 8)
  }

  function FixedDistance(): (l: seq<nat>)
    ensures |l| == 30
  {
    seq(30, _ => 5)
  }

  // ---- Section 3.2.7: dynamic codes ----

  /** The order in which the lengths of the code length code are sent. */
  const ORDER: seq<nat> := [16, 17, 18, 0, 8, 7, 9, 6, 10, 5, 11, 4, 12, 3, 13, 2, 14, 1, 15]

  /** Lengths of the code length code after the first nb of them, 3 bits each, have been read. */
  function CodeLengthLens(input: seq<Byte>, pos: nat, nb: nat): (l: seq<nat>)
    requires nb <= 19 && pos + 3 * nb <= 8 * |input|
    ensures |l| == 19 && forall i :: 0 <= i < 19 ==> l[i] <= 7
  {
    if nb == 0 then seq(19, _ => 0)
    else
      assert Pow2(3) == 8 by { Pow2Table(); }
      CodeLengthLens(input, pos, nb - 1)[ORDER[nb - 1] := Peek(input, pos + 3 * (nb - 1), 3)]
  }

  datatype Lengths = Lengths(pos: nat, lens: seq<nat>) | NoLengths(r: Ref)

  function Repeat(n: nat, k: nat): (l: seq<nat>)
    ensures |l| == n
  {
    seq(n, _ => k)
  }

  function LastOr0(lens: seq<nat>): nat {
    if |lens| == 0 then 0 else lens[|lens| - 1]
  }

  /** Code lengths are at most 15. */
  ghost predicate LengthsFit(lens: seq<nat>) {
    forall i :: 0 <= i < |lens| ==> lens[i] <= 15
  }

  /** Read lengths until there are n of them, with the repeat codes 16, 17 and 18. */
  ghost function ReadLengths(cl: seq<nat>, n: nat, input: seq<Byte>, pos: nat, lens: seq<nat>): (r: Lengths)
    requires |cl| == 19
    ensures r.NoLengths? ==> !r.r.Done?
    ensures r.Lengths? && |lens| <= n ==> pos <= r.pos && |r.lens| == n
    ensures r.Lengths? && |lens| <= n && LengthsFit(lens) ==> LengthsFit(r.lens)
    decreases n - |lens|, 1
  {
    if |lens| >= n then Lengths(pos, lens)
    else
      match Decode(cl, input, pos)
      case Short => NoLengths(Truncated)
      case Unassigned => NoLengths(Undefined)
      case Symbol(s) => AfterSymbol(cl, n, input, pos + cl[s], lens, s)
  }

  /** After symbol s of the code length code, whose bits end at p. */
  ghost function AfterSymbol(cl: seq<nat>, n: nat, input: seq<Byte>, p: nat, lens: seq<nat>, s: nat): (r: Lengths)
    requires |cl| == 19 && |lens| < n
    ensures r.NoLengths? ==> !r.r.Done?
    ensures r.Lengths? ==> p <= r.pos && |r.lens| == n
    ensures r.Lengths? && LengthsFit(lens) ==> LengthsFit(r.lens)
    decreases n - |lens|, 0
  {
    if s < 16 then ReadLengths(cl, n, input, p, lens + [s])
    else
      var bits := if s == 16 then 2 else if s == 17 then 3 else 7;
      if p + bits > 8 * |input| then NoLengths(Truncated)
      else
        var times := (if s == 18 then 11 else 3) + Peek(input, p, bits);
        if |lens| + times > n then NoLengths(Bad(1))
        else ReadLengths(cl, n, input, p + bits, lens + Repeat(times, if s == 16 then LastOr0(lens) else 0))
  }

  /** The code lengths of a dynamic block, for literals and for distances, and where they end. */
  datatype Sets = Sets(pos: nat, ll: seq<nat>, dl: seq<nat>) | NoSets(r: Ref)

  ghost function ReadSets(input: seq<Byte>, pos: nat): (r: Sets)
    ensures r.Sets? ==> pos < r.pos && 257 <= |r.ll| <= 286 && 1 <= |r.dl| <= 30
    ensures r.Sets? ==> LengthsFit(r.ll) && LengthsFit(r.dl)
    ensures r.NoSets? ==> !r.r.Done?
  {
    if pos + 14 > 8 * |input| then NoSets(Truncated)
    else
      var nl := 257 + Peek(input, pos, 5);
      var nd := 1 + Peek(input, pos + 5, 5);
      var nb := 4 + Peek(input, pos + 10, 4);
      assert nb <= 19 by { Pow2Table(); }
      if nl > 286 || nd > 30 then NoSets(Bad(1))
      else if pos + 14 + 3 * nb > 8 * |input| then NoSets(Truncated)
      else
        var cl := CodeLengthLens(input, pos + 14, nb);
        if SetStatus(cl) != 0 then NoSets(Bad(SetStatus(cl)))
        else
          match ReadLengths(cl, nl + nd, input, pos + 14 + 3 * nb, [])
          case NoLengths(r) => NoSets(r)
          case Lengths(p, lens) => Sets(p, lens[..nl], lens[nl..])
  }

  /** Decoding with two code sets, each checked first. */
  ghost function WithSets(ll: seq<nat>, dl: seq<nat>, input: seq<Byte>, p: nat, out: seq<Byte>): (r: Ref)
    requires LengthsFit(ll) && LengthsFit(dl)
    ensures r.Done? ==> p < r.pos <= 8 * |input| && out <= r.out
  {
    if SetStatus(ll) != 0 then Bad(SetStatus(ll))
    else if SetStatus(dl) != 0 then Bad(SetStatus(dl))
    else Codes(ll, dl, input, p, out)
  }

  ghost function Dynamic(input: seq<Byte>, pos: nat, out: seq<Byte>): (r: Ref)
    ensures r.Done? ==> pos < r.pos <= 8 * |input| && out <= r.out
  {
    match ReadSets(input, pos)
    case NoSets(r) => r
    case Sets(p, ll, dl) => WithSets(ll, dl, input, p, out)
  }

  // ---- Section 3.2.3: the sequence of blocks ----

  ghost function Block(input: seq<Byte>, pos: nat, out: seq<Byte>): (r: Ref)
    requires pos + 3 <= 8 * |input|
    ensures r.Done? ==> pos + 3 < r.pos <= 8 * |input| && out <= r.out
  {
    var t := Peek(input, pos + 1, 2);
    if t == 0 then Stored(input, pos + 3, out)
    else if t == 1 then Codes(FixedLiteral(), FixedDistance(), input, pos + 3, out)
    else if t == 2 then Dynamic(input, pos + 3, out)
    else Bad(2)
  }

  /** All blocks from bit pos on, up to and including the one marked final. */
  ghost function Inflate(input: seq<Byte>, pos: nat, out: seq<Byte>): (r: Ref)
    ensures r.Done? ==> pos < r.pos <= 8 * |input| && out <= r.out
    decreases 8 * |input| - pos
  {
    if pos + 3 > 8 * |input| then Truncated
    else
      var r := Block(input, pos, out);
      if r.Done? && Peek(input, pos, 1) == 0 then Inflate(input, r.pos, r.out) else r
  }
}
