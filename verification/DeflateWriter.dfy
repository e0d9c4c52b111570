/**
 A writer of DEFLATE streams in the terms of RFC 1951, and its inverse: whatever is written, as stored blocks,
 with the fixed codes or with codes of one's own, the reference decoder gives the data back.
 */
module DeflateWriter {
  import opened Widths
  import opened Bits
  import opened BitWriter
  import opened CanonicalCode
  import HuftBuild
  import opened HuftPlan
  import opened DeflateSpec
  import opened SymbolTables
  import opened InflateCases
  import opened DeflateTokens

  // ---- Code sets ----

  /** A set that is not oversubscribed has room for all its codes. */
  lemma SoundSet(lens: seq<nat>)
    requires (forall i :: 0 <= i < |lens| ==> lens[i] <= BMAX) && SetStatus(lens) < 2
    ensures Sound(lens)
  {
    hide Left, Count;
    var c, g := Counts(lens), MaxLen(lens);
    forall k | 1 <= k <= BMAX
      ensures Left(c, k) >= 0
    {
      if k <= g {
        if Left(c, k) < 0 { LeftNegative(c, k, g); }
      } else {
        RoomBeyond(lens, k);
      }
    }
  }

  lemma {:induction false} RoomBeyond(lens: seq<nat>, k: nat)
    requires (forall i :: 0 <= i < |lens| ==> lens[i] <= BMAX) && SetStatus(lens) < 2 && MaxLen(lens) <= k <= BMAX
    ensures Left(Counts(lens), k) >= 0
    decreases k
  {
    hide Count;
    var c := Counts(lens);
    if k > MaxLen(lens) {
      RoomBeyond(lens, k - 1);
      LeftDoubles(c, k);
      CountAbsent(lens, k);
    } else if k == 0 {
      assert Left(c, 0) == 1;
    }
  }

  // ---- Section 3.2.4: stored blocks ----

  function DataBits(data: seq<Byte>): (b: seq<bool>)
    ensures |b| == 8 * |data|
  {
    if |data| == 0 then [] else Low(data[0], 8) + DataBits(data[1..])
  }

  lemma {:induction false} DataRead(input: seq<Byte>, q: nat, data: seq<Byte>)
    requires At(input, 8 * q, DataBits(data))
    ensures q + |data| <= |input| && input[q..q + |data|] == data
    decreases |data|
  {
    hide At, Low;
    if |data| == 0 {
      AtBound(input, 8 * q, []);
    } else {
      AtParts(input, 8 * q, Low(data[0], 8), DataBits(data[1..]));
      DataRead(input, q + 1, data[1..]);
      Pow2Table();
      AtLow(input, 8 * q, data[0], 8);
      PeekByte(input, q);
      assert input[q..q + |data|] == [input[q]] + input[q + 1..q + |data|];
    }
  }

  lemma AtBound(input: seq<Byte>, pos: nat, b: seq<bool>)
    requires At(input, pos, b)
    ensures pos + |b| <= 8 * |input|
  {
  }

  /** Bits up to the next byte. */
  function PadSize(pos: nat): (n: nat)
    ensures n < 8 && (pos + n) % 8 == 0
  {
    (8 - pos % 8) % 8
  }

  /** Bits that do not matter, the length, its complement, and the data. */
  function StoredBits(pad: seq<bool>, data: seq<Byte>): seq<bool>
    requires |data| <= 65535
  {
    pad + (Low(|data|, 16) + (Low(65535 - |data|, 16) + DataBits(data)))
  }

  lemma StoredRead(input: seq<Byte>, pos: nat, out: seq<Byte>, p: seq<bool>, data: seq<Byte>)
    requires |p| == PadSize(pos) && |data| <= 65535 && At(input, pos, StoredBits(p, data))
    ensures Stored(input, pos, out) == Done(pos + |StoredBits(p, data)|, out + data)
  {
    hide At, Low, DataBits, Pow2, Peek, RoundUp8, Stored;
    var n, m, d := Low(|data|, 16), Low(65535 - |data|, 16), DataBits(data);
    var q := (pos + |p|) / 8;
    AtParts(input, pos, p, n + (m + d));
    AtParts(input, 8 * q, n, m + d);
    AtParts(input, 8 * q + 16, m, d);
    Pow2Table();
    AtLow(input, 8 * q, |data|, 16);
    AtLow(input, 8 * q + 16, 65535 - |data|, 16);
    DataRead(input, q + 4, data);
    RoundsTo(pos, q);
    StoredAt(input, pos, out, q);
  }

  /** Where a stored block decodes, one stands in the input. */
  lemma StoredWritten(input: seq<Byte>, pos: nat, out: seq<Byte>) returns (p: seq<bool>, data: seq<Byte>)
    requires Stored(input, pos, out).Done?
    ensures |p| == PadSize(pos) && |data| <= 65535 && At(input, pos, StoredBits(p, data))
    ensures Stored(input, pos, out) == Done(pos + |StoredBits(p, data)|, out + data)
  {
    hide At, Low, DataBits, Pow2, Peek, RoundUp8, Stored;
    var q := (pos + PadSize(pos)) / 8;
    RoundsTo(pos, q);
    StoredAt(input, pos, out, q);
    Pow2Table();
    var n := Peek(input, 8 * q, 16);
    p, data := BitsFrom(input, pos, PadSize(pos)), input[q + 4..q + 4 + n];
    BitsAt(input, pos, PadSize(pos));
    LowAt(input, 8 * q, 16);
    LowAt(input, 8 * q + 16, 16);
    DataStands(input, q + 4, n);
    AtJoin(input, 8 * q + 16, Low(65535 - n, 16), DataBits(data));
    AtJoin(input, 8 * q, Low(n, 16), Low(65535 - n, 16) + DataBits(data));
    AtJoin(input, pos, p, Low(n, 16) + (Low(65535 - n, 16) + DataBits(data)));
  }

  lemma {:induction false} DataStands(input: seq<Byte>, q: nat, n: nat)
    requires q + n <= |input|
    ensures At(input, 8 * q, DataBits(input[q..q + n]))
    decreases n
  {
    hide At, Low;
    if n == 0 {
      AtNone(input, 8 * q);
    } else {
      var data := input[q..q + n];
      DataStands(input, q + 1, n - 1);
      assert data[1..] == input[q + 1..q + 1 + (n - 1)];
      LowAt(input, 8 * q, 8);
      PeekByte(input, q);
      AtJoin(input, 8 * q, Low(data[0], 8), DataBits(data[1..]));
    }
  }

  // ---- Section 3.2.6: the fixed codes, as the standard lists them ----

  function FixedBook(s: nat): seq<bool> {
    if s < 144 then High(0x30 + s, 8)
    else if s < 256 then High(0x190 + (s - 144), 9)
    else if s < 280 then High(s - 256, 7)
    else if s < 288 then High(0xC0 + (s - 280), 8)
    else []
  }

  function FixedDistBook(s: nat): seq<bool> {
    if s < 30 then High(s, 5) else []
  }

  /** Symbols below s with a code of k bits. */
  function FixedRank(s: nat, k: nat): nat {
    if k == 8 then (if s <= 144 then s else if s <= 280 then 144 else s - 136)
    else if k == 9 then (if s <= 144 then 0 else if s <= 256 then s - 144 else 112)
    else if k == 7 then (if s <= 256 then 0 else if s <= 280 then s - 256 else 24)
    else 0
  }

  lemma {:induction false} FixedRanks(s: nat, k: nat)
    requires s <= 288
    ensures Count(FixedLiteral()[..s], k) == FixedRank(s, k)
    decreases s
  {
    if s > 0 {
      FixedRanks(s - 1, k);
      CountStep(FixedLiteral(), s - 1, k);
    }
  }

  lemma FixedFirst()
    ensures var c := Counts(FixedLiteral()); NextCode(c, 7) == 0 && NextCode(c, 8) == 48 && NextCode(c, 9) == 400
  {
    hide Count;
    var c := Counts(FixedLiteral());
    forall k { FixedCount(k); }
    HuftBuild.NothingShorter(c, 7);
    assert NextCode(c, 8) == 2 * (NextCode(c, 7) + c[7]);
    assert NextCode(c, 9) == 2 * (NextCode(c, 8) + c[8]);
  }

  /** The canonical code of the fixed lengths is the listed one. */
  lemma FixedIsListed(s: nat)
    requires s < 288
    ensures Book(FixedLiteral())(s) == FixedBook(s) && Has(FixedLiteral(), s)
  {
    hide High, Count, NextCode, Counts;
    FixedFirst();
    FixedRanks(s, FixedLiteral()[s]);
  }

  lemma FixedDistIsListed(s: nat)
    requires s < 30
    ensures Book(FixedDistance())(s) == FixedDistBook(s) && Has(FixedDistance(), s)
  {
    hide High;
    var c := Counts(FixedDistance());
    forall k { FixedCount(k); }
    HuftBuild.NothingShorter(c, 5);
    CountSame(s, 5, 5);
    assert FixedDistance()[..s] == seq(s, _ => 5);
  }

  lemma {:induction false} FixedBits(ks: seq<Token>)
    requires AllInRange(ks)
    ensures TokensBits(Book(FixedLiteral()), Book(FixedDistance()), ks) == TokensBits(FixedBook, FixedDistBook, ks)
    ensures AllWritable(FixedLiteral(), FixedDistance(), ks)
    decreases |ks|
  {
    hide Book, FixedBook, FixedDistBook, TokenSymbol, TokenExtra, DistSymbol, DistBits, FixedLiteral, FixedDistance, Has, InRange;
    FixedIsListed(256);
    if |ks| > 0 {
      FixedBits(ks[1..]);
      FixedToken(ks[0]);
      forall i | 0 <= i < |ks|
        ensures Writable(FixedLiteral(), FixedDistance(), ks[i])
      {
        if i > 0 { assert ks[i] == ks[1..][i - 1]; }
      }
    }
  }

  lemma FixedToken(k: Token)
    requires InRange(k)
    ensures TokenBits(Book(FixedLiteral()), Book(FixedDistance()), k) == TokenBits(FixedBook, FixedDistBook, k)
    ensures Writable(FixedLiteral(), FixedDistance(), k)
  {
    hide Book, FixedBook, FixedDistBook, TokenSymbol, TokenExtra, DistSymbol, DistBits, FixedLiteral, FixedDistance, Has, Low;
    match k {
      case Literal(x) =>
        FixedIsListed(x);
      case Copy(len, dist, _) =>
        TokenStands(k);
        DistStands(dist);
        FixedIsListed(TokenSymbol(k));
        FixedDistIsListed(DistSymbol(dist));
    }
  }

  lemma FixedRead(input: seq<Byte>, pos: nat, out: seq<Byte>, ks: seq<Token>)
    requires AllInRange(ks) && At(input, pos, TokensBits(FixedBook, FixedDistBook, ks))
    ensures Codes(FixedLiteral(), FixedDistance(), input, pos, out) ==
            Done(pos + |TokensBits(FixedBook, FixedDistBook, ks)|, Plain(out, ks))
  {
    hide At, TokensBits, Codes, Plain, AllInRange, AllWritable, FixedLiteral, FixedDistance, SetStatus, Sound, Accepted;
    FixedBits(ks);
    FixedSets();
    FixedShort();
    SoundSet(FixedLiteral());
    SoundSet(FixedDistance());
    TokensRead(FixedLiteral(), FixedDistance(), input, pos, out, ks);
  }

  lemma FixedWritten(input: seq<Byte>, pos: nat, out: seq<Byte>) returns (ks: seq<Token>)
    requires Codes(FixedLiteral(), FixedDistance(), input, pos, out).Done?
    ensures AllInRange(ks) && At(input, pos, TokensBits(FixedBook, FixedDistBook, ks))
    ensures Codes(FixedLiteral(), FixedDistance(), input, pos, out) ==
            Done(pos + |TokensBits(FixedBook, FixedDistBook, ks)|, Plain(out, ks))
  {
    hide At, TokensBits, Codes, Plain, AllInRange, AllWritable, FixedLiteral, FixedDistance;
    ks := TokensWritten(FixedLiteral(), FixedDistance(), input, pos, out);
    FixedBits(ks);
  }

  lemma FixedShort()
    ensures (forall i :: 0 <= i < |FixedLiteral()| ==> FixedLiteral()[i] <= BMAX)
    ensures (forall i :: 0 <= i < |FixedDistance()| ==> FixedDistance()[i] <= BMAX)
  {
  }
}
