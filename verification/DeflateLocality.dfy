/**
 A decoded stream does not depend on what follows it: the bytes after the last bit used, which
 memdisk/unzip.c allows the decoder to look at, do not change the reference result.
 */
module DeflateLocality {
  import opened Widths
  import opened Bits
  import opened CanonicalCode
  import opened HuftPlan
  import opened DeflateSpec

  /** The inputs agree on their first m bytes. */
  ghost predicate Agree(a: seq<Byte>, b: seq<Byte>, m: nat) {
    m <= |a| && m <= |b| && a[..m] == b[..m]
  }

  lemma BitLocal(a: seq<Byte>, b: seq<Byte>, m: nat, p: nat)
    requires Agree(a, b, m) && p < 8 * m
    ensures BitAt(a, p) == BitAt(b, p)
  {
    assert a[p / 8] == a[..m][p / 8] == b[..m][p / 8] == b[p / 8];
  }

  lemma {:induction false} PeekLocal(a: seq<Byte>, b: seq<Byte>, m: nat, pos: nat, n: nat)
    requires Agree(a, b, m) && pos + n <= 8 * m
    ensures Peek(a, pos, n) == Peek(b, pos, n) && PeekCode(a, pos, n) == PeekCode(b, pos, n)
  {
    if n > 0 {
      PeekLocal(a, b, m, pos, n - 1);
      BitLocal(a, b, m, pos + n - 1);
    }
  }

  lemma DecodeLocal(lens: seq<nat>, a: seq<Byte>, b: seq<Byte>, m: nat, pos: nat)
    requires Agree(a, b, m) && Decode(lens, a, pos).Symbol? && pos + lens[Decode(lens, a, pos).sym] <= 8 * m
    ensures Decode(lens, b, pos) == Decode(lens, a, pos)
  {
    var s := Decode(lens, a, pos).sym;
    PeekLocal(a, b, m, pos, lens[s]);
    assert Matches(lens, b, pos, s);
    DecodeIs(lens, b, pos, s);
  }

  lemma {:induction false} CodesLocal(ll: seq<nat>, dl: seq<nat>, a: seq<Byte>, b: seq<Byte>, m: nat, pos: nat, out: seq<Byte>)
    requires Agree(a, b, m) && Codes(ll, dl, a, pos, out).Done? && Codes(ll, dl, a, pos, out).pos <= 8 * m
    ensures Codes(ll, dl, b, pos, out) == Codes(ll, dl, a, pos, out)
    decreases 8 * |a| - pos, 1
  {
    hide Peek, PeekCode, Pow2, Decode, Shl, Match, Agree, LengthBase, CopyMatch;
    var s := Decode(ll, a, pos).sym;
    var p := pos + ll[s];
    if s < 256 {
      CodesLocal(ll, dl, a, b, m, p, out + [s]);
    } else if s > 256 {
      var len := LengthBase(s) + Peek(a, p, LengthExtra(s));
      MatchLocal(ll, dl, a, b, m, p + LengthExtra(s), out, len);
      PeekLocal(a, b, m, p, LengthExtra(s));
    }
    DecodeLocal(ll, a, b, m, pos);
  }

  lemma {:induction false} MatchLocal(ll: seq<nat>, dl: seq<nat>, a: seq<Byte>, b: seq<Byte>, m: nat, pos: nat, out: seq<Byte>, len: nat)
    requires Agree(a, b, m) && Match(ll, dl, a, pos, out, len).Done? && Match(ll, dl, a, pos, out, len).pos <= 8 * m
    ensures Match(ll, dl, b, pos, out, len) == Match(ll, dl, a, pos, out, len)
    decreases 8 * |a| - pos, 0
  {
    hide Peek, PeekCode, Pow2, Decode, Shl, Codes, Agree, DistBase, CopyMatch;
    var s := Decode(dl, a, pos).sym;
    var p := pos + dl[s];
    var dist := DistBase(s) + Peek(a, p, DistExtra(s));
    CodesLocal(ll, dl, a, b, m, p + DistExtra(s), CopyMatch(out, dist, len));
    PeekLocal(a, b, m, p, DistExtra(s));
    DecodeLocal(dl, a, b, m, pos);
  }

  lemma StoredLocal(a: seq<Byte>, b: seq<Byte>, m: nat, pos: nat, out: seq<Byte>)
    requires Agree(a, b, m) && Stored(a, pos, out).Done? && Stored(a, pos, out).pos <= 8 * m
    ensures Stored(b, pos, out) == Stored(a, pos, out)
  {
    hide Peek, Pow2, RoundUp8;
    var p := RoundUp8(pos);
    PeekLocal(a, b, m, p, 16);
    PeekLocal(a, b, m, p + 16, 16);
    SliceLocal(a, b, m, p / 8 + 4, Peek(a, p, 16));
  }

  lemma SliceLocal(a: seq<Byte>, b: seq<Byte>, m: nat, i: nat, n: nat)
    requires Agree(a, b, m) && i + n <= m
    ensures a[i..i + n] == b[i..i + n]
  {
    assert a[i..i + n] == a[..m][i..i + n] == b[..m][i..i + n] == b[i..i + n];
  }

  lemma {:induction false} CodeLengthLocal(a: seq<Byte>, b: seq<Byte>, m: nat, pos: nat, nb: nat)
    requires Agree(a, b, m) && nb <= 19 && pos + 3 * nb <= 8 * m
    ensures CodeLengthLens(a, pos, nb) == CodeLengthLens(b, pos, nb)
  {
    if nb > 0 {
      CodeLengthLocal(a, b, m, pos, nb - 1);
      PeekLocal(a, b, m, pos + 3 * (nb - 1), 3);
    }
  }

  lemma {:induction false} LengthsLocal(cl: seq<nat>, n: nat, a: seq<Byte>, b: seq<Byte>, m: nat, pos: nat, lens: seq<nat>)
    requires Agree(a, b, m) && |cl| == 19 && |lens| <= n
    requires ReadLengths(cl, n, a, pos, lens).Lengths? && ReadLengths(cl, n, a, pos, lens).pos <= 8 * m
    ensures ReadLengths(cl, n, b, pos, lens) == ReadLengths(cl, n, a, pos, lens)
    decreases n - |lens|, 1
  {
    hide Decode, AfterSymbol, Agree, LengthsFit;
    if |lens| < n {
      var s := Decode(cl, a, pos).sym;
      SymbolLocal(cl, n, a, b, m, pos + cl[s], lens, s);
      DecodeLocal(cl, a, b, m, pos);
    }
  }

  lemma {:induction false} SymbolLocal(cl: seq<nat>, n: nat, a: seq<Byte>, b: seq<Byte>, m: nat, p: nat, lens: seq<nat>, s: nat)
    requires Agree(a, b, m) && |cl| == 19 && |lens| < n
    requires AfterSymbol(cl, n, a, p, lens, s).Lengths? && AfterSymbol(cl, n, a, p, lens, s).pos <= 8 * m
    ensures AfterSymbol(cl, n, b, p, lens, s) == AfterSymbol(cl, n, a, p, lens, s)
    decreases n - |lens|, 0
  {
    hide Peek, Pow2, ReadLengths, Repeat, LastOr0, LengthsFit;
    if s < 16 {
      LengthsLocal(cl, n, a, b, m, p, lens + [s]);
    } else {
      var bits := if s == 16 then 2 else if s == 17 then 3 else 7;
      var times := (if s == 18 then 11 else 3) + Peek(a, p, bits);
      LengthsLocal(cl, n, a, b, m, p + bits, lens + Repeat(times, if s == 16 then LastOr0(lens) else 0));
      PeekLocal(a, b, m, p, bits);
    }
  }

  lemma SetsLocal(a: seq<Byte>, b: seq<Byte>, m: nat, pos: nat)
    requires Agree(a, b, m) && ReadSets(a, pos).Sets? && ReadSets(a, pos).pos <= 8 * m
    ensures ReadSets(b, pos) == ReadSets(a, pos)
  {
    hide Peek, Pow2, SetStatus, ReadLengths, CodeLengthLens, LengthsFit;
    var nl, nd, nb := 257 + Peek(a, pos, 5), 1 + Peek(a, pos + 5, 5), 4 + Peek(a, pos + 10, 4);
    Pow2Table();
    var cl := CodeLengthLens(a, pos + 14, nb);
    LengthsLocal(cl, nl + nd, a, b, m, pos + 14 + 3 * nb, []);
    CodeLengthLocal(a, b, m, pos + 14, nb);
    PeekLocal(a, b, m, pos, 5);
    PeekLocal(a, b, m, pos + 5, 5);
    PeekLocal(a, b, m, pos + 10, 4);
  }

  lemma DynamicLocal(a: seq<Byte>, b: seq<Byte>, m: nat, pos: nat, out: seq<Byte>)
    requires Agree(a, b, m) && Dynamic(a, pos, out).Done? && Dynamic(a, pos, out).pos <= 8 * m
    ensures Dynamic(b, pos, out) == Dynamic(a, pos, out)
  {
    hide ReadSets, Codes, SetStatus;
    var r := ReadSets(a, pos);
    SetsLocal(a, b, m, pos);
    CodesLocal(r.ll, r.dl, a, b, m, r.pos, out);
  }

  /** Inputs that agree up to the end of a stream decode to the same output. */
  lemma {:induction false} InflateLocal(a: seq<Byte>, b: seq<Byte>, m: nat, pos: nat, out: seq<Byte>)
    requires Agree(a, b, m) && Inflate(a, pos, out).Done? && Inflate(a, pos, out).pos <= 8 * m
    ensures Inflate(b, pos, out) == Inflate(a, pos, out)
    decreases 8 * |a| - pos
  {
    hide Peek, Pow2, Codes, Stored, Dynamic;
    var r := Block(a, pos, out);
    if Peek(a, pos, 1) == 0 {
      InflateLocal(a, b, m, r.pos, r.out);
    }
    PeekLocal(a, b, m, pos, 1);
    PeekLocal(a, b, m, pos + 1, 2);
    var t := Peek(a, pos + 1, 2);
    if t == 0 {
      StoredLocal(a, b, m, pos + 3, out);
    } else if t == 1 {
      CodesLocal(FixedLiteral(), FixedDistance(), a, b, m, pos + 3, out);
    } else {
      DynamicLocal(a, b, m, pos + 3, out);
    }
  }
}
