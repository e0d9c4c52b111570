/**
 Whole streams: the decoder accepts exactly what is a sequence of blocks as RFC 1951 lays them out, the last
 one marked final, and gives their plain output; so memdisk's unzip accepts exactly the images that hold one.
 */
module DeflateStream {
  import opened Widths
  import opened Bits
  import opened BitWriter
  import opened DeflateSpec
  import opened HuftPlan
  import opened DeflateTokens
  import opened DeflateWriter
  import opened DeflateHeader
  import Crc32
  import Unzip

  datatype Piece = Plainly(pad: seq<bool>, data: seq<Byte>) | WithFixed(ks: seq<Token>) | WithOwn(h: Header, ks: seq<Token>)

  ghost predicate Legal(b: Piece) {
    match b
    case Plainly(pad, data) => |data| <= 65535
    case WithFixed(ks) => AllInRange(ks)
    case WithOwn(h, ks) => LegalHeader(h) && SetStatus(h.ll) == 0 && SetStatus(h.dl) == 0 && AllInRange(ks) && AllWritable(h.ll, h.dl, ks)
  }

  /** At bit pos, the padding of a stored block reaches up to the next byte. */
  predicate Placed(b: Piece, pos: nat) {
    b.Plainly? ==> |b.pad| == PadSize(pos + 3)
  }

  ghost function Output(out: seq<Byte>, b: Piece): seq<Byte>
    requires Legal(b)
  {
    match b
    case Plainly(_, data) => out + data
    case WithFixed(ks) => Plain(out, ks)
    case WithOwn(_, ks) => Plain(out, ks)
  }

  /** The type of a block in two bits, and its contents. */
  ghost function BodyBits(b: Piece): seq<bool>
    requires Legal(b)
  {
    match b
    case Plainly(pad, data) => Low(0, 2) + StoredBits(pad, data)
    case WithFixed(ks) => Low(1, 2) + TokensBits(FixedBook, FixedDistBook, ks)
    case WithOwn(h, ks) => Low(2, 2) + OwnBits(h, ks)
  }

  ghost function OwnBits(h: Header, ks: seq<Token>): seq<bool>
    requires Legal(WithOwn(h, ks))
  {
    HeaderBits(h) + TokensBits(Book(h.ll), Book(h.dl), ks)
  }

  lemma OwnRead(input: seq<Byte>, pos: nat, out: seq<Byte>, h: Header, ks: seq<Token>)
    requires Legal(WithOwn(h, ks)) && At(input, pos, OwnBits(h, ks))
    ensures Dynamic(input, pos, out) == Done(pos + |OwnBits(h, ks)|, Plain(out, ks))
  {
    hide At, Dynamic, HeaderBits, TokensBits, Plain, AllInRange, AllWritable, Book, SetStatus;
    DynamicRead(input, pos, out, h, ks);
  }

  lemma OwnWritten(input: seq<Byte>, pos: nat, out: seq<Byte>) returns (h: Header, ks: seq<Token>)
    requires Dynamic(input, pos, out).Done?
    ensures Legal(WithOwn(h, ks)) && At(input, pos, OwnBits(h, ks))
    ensures Dynamic(input, pos, out) == Done(pos + |OwnBits(h, ks)|, Plain(out, ks))
  {
    hide At, Dynamic, HeaderBits, TokensBits, Plain, AllInRange, AllWritable, Book, SetStatus;
    h, ks := DynamicWritten(input, pos, out);
  }

  /** A block with its final flag. */
  ghost function BlockBits(b: Piece, last: bool): seq<bool>
    requires Legal(b)
  {
    [last] + BodyBits(b)
  }

  lemma TypeRead(input: seq<Byte>, pos: nat, t: nat, rest: seq<bool>)
    requires t < 4 && At(input, pos, Low(t, 2) + rest)
    ensures pos + 2 <= 8 * |input| && Peek(input, pos, 2) == t && At(input, pos + 2, rest)
  {
    hide At, Low, Peek;
    Pow2Table();
    AtParts(input, pos, Low(t, 2), rest);
    AtLow(input, pos, t, 2);
  }

  /** One block, at any place in the stream and with any output before it. */
  lemma BlockRead(input: seq<Byte>, pos: nat, out: seq<Byte>, b: Piece, last: bool)
    requires Legal(b) && Placed(b, pos) && At(input, pos, BlockBits(b, last))
    ensures pos + 3 <= 8 * |input| && Peek(input, pos, 1) == (if last then 1 else 0)
    ensures DeflateSpec.Block(input, pos, out) == Done(pos + |BlockBits(b, last)|, Output(out, b))
  {
    hide At, Low, Peek, Stored, StoredBits, Codes, Dynamic, OwnBits, TokensBits, Plain, LegalHeader, AllInRange, AllWritable, Book, FixedLiteral, FixedDistance, SetStatus;
    AtParts(input, pos, [last], BodyBits(b));
    OneBit(input, pos, last);
    match b {
      case Plainly(pad, data) =>
        TypeRead(input, pos + 1, 0, StoredBits(pad, data));
        StoredRead(input, pos + 3, out, pad, data);
      case WithFixed(ks) =>
        TypeRead(input, pos + 1, 1, TokensBits(FixedBook, FixedDistBook, ks));
        FixedRead(input, pos + 3, out, ks);
      case WithOwn(h, ks) =>
        TypeRead(input, pos + 1, 2, OwnBits(h, ks));
        OwnRead(input, pos + 3, out, h, ks);
    }
  }

  /** Where a block decodes, one stands in the input. */
  lemma BlockWritten(input: seq<Byte>, pos: nat, out: seq<Byte>) returns (b: Piece)
    requires pos + 3 <= 8 * |input| && DeflateSpec.Block(input, pos, out).Done?
    ensures Legal(b) && Placed(b, pos) && At(input, pos, BlockBits(b, Peek(input, pos, 1) != 0))
    ensures DeflateSpec.Block(input, pos, out) == Done(pos + |BlockBits(b, Peek(input, pos, 1) != 0)|, Output(out, b))
  {
    hide At, Low, Peek, Stored, StoredBits, Codes, Dynamic, OwnBits, TokensBits, Plain, LegalHeader, AllInRange, AllWritable, Book, FixedLiteral, FixedDistance, SetStatus;
    var last, t := Peek(input, pos, 1) != 0, Peek(input, pos + 1, 2);
    FlagStands(input, pos);
    LowAt(input, pos + 1, 2);
    var rest: seq<bool>;
    if t == 0 {
      var pad, data := StoredWritten(input, pos + 3, out);
      b, rest := Plainly(pad, data), StoredBits(pad, data);
    } else if t == 1 {
      var ks := FixedWritten(input, pos + 3, out);
      b, rest := WithFixed(ks), TokensBits(FixedBook, FixedDistBook, ks);
    } else {
      var h, ks := OwnWritten(input, pos + 3, out);
      b, rest := WithOwn(h, ks), OwnBits(h, ks);
    }
    AtJoin(input, pos + 1, Low(t, 2), rest);
    AtJoin(input, pos, [last], Low(t, 2) + rest);
  }

  lemma FlagStands(input: seq<Byte>, pos: nat)
    requires pos + 1 <= 8 * |input|
    ensures At(input, pos, [Peek(input, pos, 1) != 0]) && Peek(input, pos, 1) < 2
  {
    hide At;
    Pow2Table();
    LowAt(input, pos, 1);
    var v := Peek(input, pos, 1);
    assert Low(v, 1) == [v % 2 == 1] + Low(v / 2, 0) == [v != 0];
  }

  // ---- All blocks ----

  ghost predicate AllLegal(bs: seq<Piece>) {
    forall i :: 0 <= i < |bs| ==> Legal(bs[i])
  }

  ghost function AllOutput(out: seq<Byte>, bs: seq<Piece>): seq<Byte>
    requires AllLegal(bs)
    decreases |bs|
  {
    if |bs| == 0 then out else AllOutput(Output(out, bs[0]), bs[1..])
  }

  /** The blocks one behind the other; the last one is final. */
  ghost function StreamBits(bs: seq<Piece>): seq<bool>
    requires AllLegal(bs)
  {
    if |bs| == 0 then [] else BlockBits(bs[0], |bs| == 1) + StreamBits(bs[1..])
  }

  ghost predicate AllPlaced(bs: seq<Piece>, pos: nat)
    requires AllLegal(bs)
    decreases |bs|
  {
    |bs| == 0 || (Placed(bs[0], pos) && AllPlaced(bs[1..], pos + |BlockBits(bs[0], |bs| == 1)|))
  }

  /** The stream of the blocks bs stands at bit pos. */
  ghost predicate Stands(input: seq<Byte>, pos: nat, bs: seq<Piece>) {
    |bs| > 0 && AllLegal(bs) && AllPlaced(bs, pos) && At(input, pos, StreamBits(bs))
  }

  /** A stream of any blocks inflates to their output, wherever it stands and whatever follows. */
  lemma {:induction false} StreamRead(input: seq<Byte>, pos: nat, out: seq<Byte>, bs: seq<Piece>)
    requires Stands(input, pos, bs)
    ensures DeflateSpec.Inflate(input, pos, out) == Done(pos + |StreamBits(bs)|, AllOutput(out, bs))
    decreases |bs|
  {
    hide At, Peek, DeflateSpec.Block, BlockBits, Output, Legal, Placed;
    var b := BlockBits(bs[0], |bs| == 1);
    AtParts(input, pos, b, StreamBits(bs[1..]));
    BlockRead(input, pos, out, bs[0], |bs| == 1);
    if |bs| > 1 { StreamRead(input, pos + |b|, Output(out, bs[0]), bs[1..]); }
  }

  /** Where anything inflates, such a stream stands. */
  lemma {:induction false} StreamWritten(input: seq<Byte>, pos: nat, out: seq<Byte>) returns (bs: seq<Piece>)
    requires DeflateSpec.Inflate(input, pos, out).Done?
    ensures Stands(input, pos, bs) && DeflateSpec.Inflate(input, pos, out) == Done(pos + |StreamBits(bs)|, AllOutput(out, bs))
    decreases 8 * |input| - pos
  {
    hide At, Peek, DeflateSpec.Block, BlockBits, Output, Legal, Placed;
    var b := BlockWritten(input, pos, out);
    var last := Peek(input, pos, 1) != 0;
    var rest := [];
    var n := |BlockBits(b, last)|;
    if last {
      NoMore(input, pos, b);
    } else {
      rest := StreamWritten(input, pos + n, Output(out, b));
      AtJoin(input, pos, BlockBits(b, last), StreamBits(rest));
    }
    More(b, rest, pos, out);
    bs := [b] + rest;
  }

  lemma NoMore(input: seq<Byte>, pos: nat, b: Piece)
    requires Legal(b)
    ensures BlockBits(b, true) + StreamBits([]) == BlockBits(b, true)
  {
    hide Legal;
  }

  lemma More(b: Piece, rest: seq<Piece>, pos: nat, out: seq<Byte>)
    requires Legal(b) && Placed(b, pos) && AllLegal(rest) && AllPlaced(rest, pos + |BlockBits(b, |rest| == 0)|)
    ensures AllLegal([b] + rest) && AllPlaced([b] + rest, pos) && AllOutput(out, [b] + rest) == AllOutput(Output(out, b), rest)
    ensures StreamBits([b] + rest) == BlockBits(b, |rest| == 0) + StreamBits(rest)
  {
    hide Legal, Placed, BlockBits, Output;
    assert ([b] + rest)[1..] == rest;
  }

  /** The blocks bs stand at bit pos, end at bit p, and grow the output from out to r. */
  ghost predicate Written(input: seq<Byte>, pos: nat, out: seq<Byte>, bs: seq<Piece>, p: nat, r: seq<Byte>) {
    Stands(input, pos, bs) && p == pos + |StreamBits(bs)| && r == AllOutput(out, bs)
  }

  /** Inflating succeeds exactly where such a stream stands, and then gives its plain output. */
  lemma InflatesIff(input: seq<Byte>, pos: nat, out: seq<Byte>, p: nat, r: seq<Byte>)
    ensures DeflateSpec.Inflate(input, pos, out) == Done(p, r) <==> exists bs :: Written(input, pos, out, bs, p, r)
  {
    hide DeflateSpec.Inflate, StreamBits, AllOutput, AllLegal, AllPlaced, At;
    if DeflateSpec.Inflate(input, pos, out) == Done(p, r) {
      var bs := StreamWritten(input, pos, out);
      assert Written(input, pos, out, bs, p, r);
    }
    if bs :| Written(input, pos, out, bs, p, r) {
      StreamRead(input, pos, out, bs);
    }
  }

  /** The images that unzip accepts: a stream of blocks up to the last byte, and the right size and CRC. */
  lemma GenuineIff(z: seq<Byte>, dbytes: nat, origCrc: Crc32.word, data: seq<Byte>)
    ensures Unzip.Genuine(z, dbytes, origCrc, data) <==>
            && |data| == dbytes && Crc32.Checksum(data) == origCrc
            && exists bs, p :: Written(z, 0, [], bs, p, data) && RoundUp8(p) == 8 * |z|
  {
    hide DeflateSpec.Inflate, Written, Crc32.Checksum, RoundUp8;
    var r := DeflateSpec.Inflate(z, 0, []);
    if Unzip.Genuine(z, dbytes, origCrc, data) {
      InflatesIff(z, 0, [], r.pos, r.out);
      var bs :| Written(z, 0, [], bs, r.pos, r.out);
      assert Written(z, 0, [], bs, r.pos, data) && RoundUp8(r.pos) == 8 * |z|;
    }
    if bs, p :| Written(z, 0, [], bs, p, data) && RoundUp8(p) == 8 * |z| {
      InflatesIff(z, 0, [], p, data);
    }
  }

  /** The data of a stream come back from its bytes, with any bytes behind them. */
  lemma RoundTrip(bs: seq<Piece>, more: seq<Byte>)
    requires |bs| > 0 && AllLegal(bs) && AllPlaced(bs, 0)
    ensures DeflateSpec.Inflate(Packed(StreamBits(bs)) + more, 0, []) == Done(|StreamBits(bs)|, AllOutput([], bs))
  {
    hide At, StreamBits, Packed, AllLegal, AllPlaced, AllOutput;
    PackedAt(StreamBits(bs), more);
    StreamRead(Packed(StreamBits(bs)) + more, 0, [], bs);
  }

  // ---- Every data can be written ----

  /** Data as stored blocks of at most 65535 bytes, from a bit that is pos behind a byte on. */
  function Chunks(data: seq<Byte>, pos: nat): (bs: seq<Piece>)
    ensures |bs| > 0
    decreases |data|
  {
    var pad := seq(PadSize(pos + 3), _ => false);
    if |data| <= 65535 then [Plainly(pad, data)] else [Plainly(pad, data[..65535])] + Chunks(data[65535..], 0)
  }

  lemma {:induction false} ChunksHold(data: seq<Byte>, pos: nat, out: seq<Byte>)
    ensures var bs := Chunks(data, pos % 8); AllLegal(bs) && AllPlaced(bs, pos) && AllOutput(out, bs) == out + data
    decreases |data|
  {
    hide AllLegal, AllPlaced, AllOutput, BlockBits, Output, Legal;
    var pad := seq(PadSize(pos % 8 + 3), _ => false);
    SamePad(pos);
    if |data| <= 65535 {
      var b := Plainly(pad, data);
      PlainBlock(b, pos, out, true);
      Nothing(pos + |BlockBits(b, true)|, out + data);
      More(b, [], pos, out);
      assert [b] + [] == Chunks(data, pos % 8);
    } else {
      var b := Plainly(pad, data[..65535]);
      PlainBlock(b, pos, out, false);
      var next := pos + |BlockBits(b, false)|;
      ChunksHold(data[65535..], next, out + data[..65535]);
      More(b, Chunks(data[65535..], 0), pos, out);
      assert out + data[..65535] + data[65535..] == out + data;
    }
  }

  lemma SamePad(pos: nat)
    ensures PadSize(pos % 8 + 3) == PadSize(pos + 3)
  {
  }

  lemma Nothing(pos: nat, out: seq<Byte>)
    ensures AllLegal([]) && AllPlaced([], pos) && AllOutput(out, []) == out
  {
  }

  /** A stored block ends at a byte. */
  lemma PlainBlock(b: Piece, pos: nat, out: seq<Byte>, last: bool)
    requires b.Plainly? && |b.data| <= 65535 && Placed(b, pos)
    ensures Legal(b) && (pos + |BlockBits(b, last)|) % 8 == 0 && Output(out, b) == out + b.data
  {
    hide Low, DataBits;
  }
}
