/**
 Section 3.2.7 of RFC 1951 as it is written: the header of a block with codes of its own. Code lengths are
 sent with symbols for a length, for repeating the last one, and for runs of zeros.
 */
module DeflateHeader {
  import opened Widths
  import opened Bits
  import opened BitWriter
  import opened CanonicalCode
  import HuftBuild
  import opened HuftPlan
  import opened DeflateSpec
  import opened SymbolTables
  import opened DeflateTokens
  import opened DeflateWriter

  // ---- The code lengths ----

  datatype LenOp = Len(n: nat) | Again(times: nat) | Zeros(times: nat)

  predicate LegalOp(op: LenOp) {
    match op
    case Len(n) => n <= 15
    case Again(times) => 3 <= times <= 6
    case Zeros(times) => 3 <= times <= 138
  }

  predicate LegalOps(ops: seq<LenOp>) {
    forall i :: 0 <= i < |ops| ==> LegalOp(ops[i])
  }

  /** At the start, zero counts as the last length. */
  function OpOut(lens: seq<nat>, op: LenOp): (r: seq<nat>)
    requires LegalOp(op)
    ensures |r| > |lens|
  {
    match op
    case Len(n) => lens + [n]
    case Again(times) => lens + seq(times, _ => if |lens| == 0 then 0 else lens[|lens| - 1])
    case Zeros(times) => lens + seq(times, _ => 0)
  }

  function OpsOut(lens: seq<nat>, ops: seq<LenOp>): (r: seq<nat>)
    requires LegalOps(ops)
    ensures |r| >= |lens|
    decreases |ops|
  {
    if |ops| == 0 then lens else OpsOut(OpOut(lens, ops[0]), ops[1..])
  }

  function OpSymbol(op: LenOp): nat {
    match op
    case Len(n) => n
    case Again(_) => 16
    case Zeros(times) => if times <= 10 then 17 else 18
  }

  function OpExtra(op: LenOp): seq<bool>
    requires LegalOp(op)
  {
    match op
    case Len(_) => []
    case Again(times) => Low(times - 3, 2)
    case Zeros(times) => if times <= 10 then Low(times - 3, 3) else Low(times - 11, 7)
  }

  function OpsBits(book: CodeBook, ops: seq<LenOp>): seq<bool>
    requires LegalOps(ops)
  {
    if |ops| == 0 then [] else book(OpSymbol(ops[0])) + OpExtra(ops[0]) + OpsBits(book, ops[1..])
  }

  /** What one symbol adds. */
  lemma OpRead(cl: seq<nat>, n: nat, input: seq<Byte>, pos: nat, lens: seq<nat>, op: LenOp)
    requires |cl| == 19 && Sound(cl) && Has(cl, OpSymbol(op)) && LegalOp(op) && |OpOut(lens, op)| <= n
    requires At(input, pos, Book(cl)(OpSymbol(op)) + OpExtra(op))
    ensures ReadLengths(cl, n, input, pos, lens) ==
            ReadLengths(cl, n, input, pos + |Book(cl)(OpSymbol(op)) + OpExtra(op)|, OpOut(lens, op))
  {
    hide At, Book, Decode, Sound, OpExtra, OpOut, AfterSymbol;
    var s := OpSymbol(op);
    AtParts(input, pos, Book(cl)(s), OpExtra(op));
    SymbolRead(cl, input, pos, s);
    ExtraRead(cl, n, input, pos + cl[s], lens, op);
  }

  lemma ExtraRead(cl: seq<nat>, n: nat, input: seq<Byte>, p: nat, lens: seq<nat>, op: LenOp)
    requires |cl| == 19 && LegalOp(op) && |lens| < |OpOut(lens, op)| <= n && At(input, p, OpExtra(op))
    ensures AfterSymbol(cl, n, input, p, lens, OpSymbol(op)) == ReadLengths(cl, n, input, p + |OpExtra(op)|, OpOut(lens, op))
  {
    hide At, Low, Peek, Pow2, ReadLengths;
    Pow2Table();
    match op {
      case Len(k) =>
      case Again(times) =>
        AtLow(input, p, times - 3, 2);
        assert OpOut(lens, op) == lens + Repeat(times, LastOr0(lens));
      case Zeros(times) =>
        if times <= 10 {
          AtLow(input, p, times - 3, 3);
        } else {
          AtLow(input, p, times - 11, 7);
        }
        assert OpOut(lens, op) == lens + Repeat(times, 0);
    }
  }

  ghost predicate OpsWritable(cl: seq<nat>, ops: seq<LenOp>) {
    forall i :: 0 <= i < |ops| ==> Has(cl, OpSymbol(ops[i]))
  }

  lemma {:induction false} OpsRead(cl: seq<nat>, input: seq<Byte>, pos: nat, lens: seq<nat>, ops: seq<LenOp>)
    requires |cl| == 19 && Sound(cl) && LegalOps(ops) && OpsWritable(cl, ops)
    requires At(input, pos, OpsBits(Book(cl), ops))
    ensures ReadLengths(cl, |OpsOut(lens, ops)|, input, pos, lens) == Lengths(pos + |OpsBits(Book(cl), ops)|, OpsOut(lens, ops))
    decreases |ops|
  {
    hide At, Book, Sound, OpOut, OpSymbol, OpExtra, ReadLengths, Has, LegalOp;
    if |ops| == 0 {
      AllRead(cl, input, pos, lens);
    } else {
      var op := ops[0];
      var a, next := Book(cl)(OpSymbol(op)) + OpExtra(op), OpOut(lens, op);
      AtParts(input, pos, a, OpsBits(Book(cl), ops[1..]));
      OpRead(cl, |OpsOut(lens, ops)|, input, pos, lens, op);
      OpsRead(cl, input, pos + |a|, next, ops[1..]);
    }
  }

  lemma AllRead(cl: seq<nat>, input: seq<Byte>, pos: nat, lens: seq<nat>)
    requires |cl| == 19
    ensures ReadLengths(cl, |lens|, input, pos, lens) == Lengths(pos, lens)
  {
  }

  /** Any code lengths can be sent, one by one. */
  function EachLen(lens: seq<nat>): (ops: seq<LenOp>)
    ensures |ops| == |lens|
  {
    seq(|lens|, i requires 0 <= i < |lens| => Len(lens[i]))
  }

  lemma {:induction false} EachLenSends(pre: seq<nat>, lens: seq<nat>)
    requires LengthsFit(lens)
    ensures LegalOps(EachLen(lens)) && OpsOut(pre, EachLen(lens)) == pre + lens
    decreases |lens|
  {
    if |lens| > 0 {
      EachLenSends(pre + [lens[0]], lens[1..]);
      assert EachLen(lens)[1..] == EachLen(lens[1..]);
      assert pre + [lens[0]] + lens[1..] == pre + lens;
    } else {
      assert pre + lens == pre;
    }
  }

  // ---- The code length code ----

  /** The order of section 3.2.7: the repeat codes, zero, and then from 8 outwards. */
  function Sent(i: nat): nat
    requires i < 19
  {
    if i < 3 then 16 + i else if i == 3 then 0 else if i % 2 == 0 then 8 + (i - 4) / 2 else 8 - (i - 3) / 2
  }

  lemma SentOrder(i: nat)
    requires i < 19
    ensures Sent(i) == ORDER[i] < 19
  {
  }

  /** Three bits for each length, from the i-th on, nb in all. */
  function SentBits(cl: seq<nat>, i: nat, nb: nat): (b: seq<bool>)
    requires |cl| == 19 && i <= nb <= 19
    ensures |b| == 3 * (nb - i)
    decreases nb - i
  {
    if i == nb then [] else
      SentOrder(i);
      Low(cl[Sent(i)], 3) + SentBits(cl, i + 1, nb)
  }

  lemma {:induction false} SentRead(input: seq<Byte>, pos: nat, cl: seq<nat>, i: nat, nb: nat, j: nat)
    requires |cl| == 19 && (forall s :: 0 <= s < 19 ==> cl[s] <= 7) && i <= j < nb <= 19 && At(input, pos + 3 * i, SentBits(cl, i, nb))
    ensures pos + 3 * j + 3 <= 8 * |input| && ORDER[j] < 19 && Peek(input, pos + 3 * j, 3) == cl[ORDER[j]]
    decreases nb - i
  {
    hide At, Low, ORDER, Peek;
    SentOrder(i);
    AtParts(input, pos + 3 * i, Low(cl[Sent(i)], 3), SentBits(cl, i + 1, nb));
    if i < j {
      SentRead(input, pos, cl, i + 1, nb, j);
    } else {
      Pow2Table();
      AtLow(input, pos + 3 * i, cl[Sent(i)], 3);
    }
  }

  lemma CodeLengthsRead(input: seq<Byte>, pos: nat, cl: seq<nat>, nb: nat)
    requires |cl| == 19 && (forall s :: 0 <= s < 19 ==> cl[s] <= 7) && nb <= 19 && (forall i :: nb <= i < 19 ==> Sent(i) < 19 && cl[Sent(i)] == 0)
    requires At(input, pos, SentBits(cl, 0, nb))
    ensures pos + 3 * nb <= 8 * |input| && CodeLengthLens(input, pos, nb) == cl
  {
    hide Low, Peek, CodeLengthLens, ORDER, SentBits, BitAt;
    OrderPermutes();
    forall i | 0 <= i < 19
      ensures cl[ORDER[i]] == if i < nb then Peek(input, pos + 3 * i, 3) else 0
    {
      SentOrder(i);
      if i < nb { SentRead(input, pos, cl, 0, nb, i); }
    }
    CodeLengthsAre(input, pos, nb, cl);
  }

  // ---- The header ----

  /** Code lengths for literals and distances, the code they are sent with, how many of its lengths are sent, and the symbols. */
  datatype Header = Header(ll: seq<nat>, dl: seq<nat>, cl: seq<nat>, nb: nat, ops: seq<LenOp>)

  ghost predicate LegalHeader(h: Header) {
    && 257 <= |h.ll| <= 286 && 1 <= |h.dl| <= 30 && LengthsFit(h.ll) && LengthsFit(h.dl)
    && |h.cl| == 19 && (forall s :: 0 <= s < 19 ==> h.cl[s] <= 7) && SetStatus(h.cl) == 0
    && 4 <= h.nb <= 19 && (forall i :: h.nb <= i < 19 ==> Sent(i) < 19 && h.cl[Sent(i)] == 0)
    && LegalOps(h.ops) && OpsOut([], h.ops) == h.ll + h.dl && OpsWritable(h.cl, h.ops)
  }

  /** A complete code for all nineteen symbols. */
  function FullCode(): (cl: seq<nat>)
    ensures |cl| == 19 && forall s :: 0 <= s < 19 ==> 4 <= cl[s] <= 5
  {
    Repeat(13, 4) + Repeat(6, 5)
  }

  lemma FullCodeUsable()
    ensures SetStatus(FullCode()) == 0
  {
    hide Count;
    var cl := FullCode();
    var c := Counts(cl);
    forall k
      ensures Count(cl, k) == if k == 4 then 13 else if k == 5 then 6 else 0
    {
      CountAppend(Repeat(13, 4), Repeat(6, 5), k);
      CountSame(13, 4, k);
      CountSame(6, 5, k);
    }
    HuftBuild.NothingShorter(c, 4);
    MaxLenIs(cl, 5);
    assert NextCode(c, 5) == 2 * (NextCode(c, 4) + c[4]);
    Pow2Table();
  }

  /** So every pair of code sets can be sent. */
  lemma HeaderFor(ll: seq<nat>, dl: seq<nat>)
    requires 257 <= |ll| <= 286 && 1 <= |dl| <= 30 && LengthsFit(ll) && LengthsFit(dl)
    ensures LegalHeader(Header(ll, dl, FullCode(), 19, EachLen(ll + dl)))
  {
    hide SetStatus, LegalOps, OpsOut, FullCode, LengthsFit, OpsWritable;
    BothFit(ll, dl);
    FullCodeUsable();
    EachLenSends([], ll + dl);
    EachWritable(ll + dl);
    assert [] + (ll + dl) == ll + dl;
  }

  lemma BothFit(ll: seq<nat>, dl: seq<nat>)
    requires LengthsFit(ll) && LengthsFit(dl)
    ensures LengthsFit(ll + dl)
  {
  }

  lemma EachWritable(lens: seq<nat>)
    requires LengthsFit(lens)
    ensures OpsWritable(FullCode(), EachLen(lens))
  {
  }

  function HeaderBits(h: Header): seq<bool>
    requires 257 <= |h.ll| && 1 <= |h.dl| && 4 <= h.nb <= 19 && |h.cl| == 19 && LegalOps(h.ops)
  {
    Low(|h.ll| - 257, 5) + (Low(|h.dl| - 1, 5) + (Low(h.nb - 4, 4) + (SentBits(h.cl, 0, h.nb) + OpsBits(Book(h.cl), h.ops))))
  }

  /** The header gives the two sets of code lengths. */
  lemma HeaderRead(input: seq<Byte>, pos: nat, h: Header)
    requires LegalHeader(h) && At(input, pos, HeaderBits(h))
    ensures ReadSets(input, pos) == Sets(pos + |HeaderBits(h)|, h.ll, h.dl)
  {
    hide At, Low, Book, Peek, Pow2, CodeLengthLens, ReadLengths, SetStatus, OpsBits, SentBits, LengthsFit, OpsWritable, OpsOut, LegalOps, Sent, Sound;
    var a, b, c, d, e := Low(|h.ll| - 257, 5), Low(|h.dl| - 1, 5), Low(h.nb - 4, 4), SentBits(h.cl, 0, h.nb), OpsBits(Book(h.cl), h.ops);
    AtParts(input, pos, a, b + (c + (d + e)));
    AtParts(input, pos + 5, b, c + (d + e));
    AtParts(input, pos + 10, c, d + e);
    AtParts(input, pos + 14, d, e);
    Pow2Table();
    AtLow(input, pos, |h.ll| - 257, 5);
    AtLow(input, pos + 5, |h.dl| - 1, 5);
    AtLow(input, pos + 10, h.nb - 4, 4);
    CodeLengthsRead(input, pos + 14, h.cl, h.nb);
    SoundSet(h.cl);
    OpsRead(h.cl, input, pos + 14 + 3 * h.nb, [], h.ops);
  }

  /** A block with codes of its own. */
  lemma DynamicRead(input: seq<Byte>, pos: nat, out: seq<Byte>, h: Header, ks: seq<Token>)
    requires LegalHeader(h) && SetStatus(h.ll) == 0 && SetStatus(h.dl) == 0 && AllInRange(ks) && AllWritable(h.ll, h.dl, ks)
    requires At(input, pos, HeaderBits(h) + TokensBits(Book(h.ll), Book(h.dl), ks))
    ensures Dynamic(input, pos, out) ==
            Done(pos + |HeaderBits(h) + TokensBits(Book(h.ll), Book(h.dl), ks)|, Plain(out, ks))
  {
    hide At, Book, HeaderBits, TokensBits, ReadSets, SetStatus, Codes, AllInRange, AllWritable, Plain, Sound;
    AtParts(input, pos, HeaderBits(h), TokensBits(Book(h.ll), Book(h.dl), ks));
    HeaderRead(input, pos, h);
    SoundSet(h.ll);
    SoundSet(h.dl);
    TokensRead(h.ll, h.dl, input, pos + |HeaderBits(h)|, out, ks);
  }

  // ---- Nothing else is accepted ----

  /** Where lengths are read, the symbols for them stand in the input. */
  lemma {:induction false} OpsStand(cl: seq<nat>, n: nat, input: seq<Byte>, pos: nat, lens: seq<nat>) returns (ops: seq<LenOp>)
    requires |cl| == 19 && |lens| <= n && ReadLengths(cl, n, input, pos, lens).Lengths? && pos <= 8 * |input|
    ensures LegalOps(ops) && OpsWritable(cl, ops) && At(input, pos, OpsBits(Book(cl), ops)) && |OpsOut(lens, ops)| == n
    ensures ReadLengths(cl, n, input, pos, lens) == Lengths(pos + |OpsBits(Book(cl), ops)|, OpsOut(lens, ops))
    decreases n - |lens|
  {
    hide At, Book, OpOut, OpSymbol, OpExtra, Has, LegalOp, Decode, AfterSymbol;
    if |lens| == n {
      ops := [];
      AtNone(input, pos);
    } else {
      var op := OpStands(cl, n, input, pos, lens);
      var a := Book(cl)(OpSymbol(op)) + OpExtra(op);
      AtBound(input, pos, a);
      ops := OpsStand(cl, n, input, pos + |a|, OpOut(lens, op));
      AtJoin(input, pos, a, OpsBits(Book(cl), ops));
      MoreOps(cl, op, ops, lens);
      ops := [op] + ops;
    }
  }

  lemma MoreOps(cl: seq<nat>, op: LenOp, ops: seq<LenOp>, lens: seq<nat>)
    requires LegalOp(op) && Has(cl, OpSymbol(op)) && LegalOps(ops) && OpsWritable(cl, ops)
    ensures LegalOps([op] + ops) && OpsWritable(cl, [op] + ops) && OpsOut(lens, [op] + ops) == OpsOut(OpOut(lens, op), ops)
    ensures OpsBits(Book(cl), [op] + ops) == Book(cl)(OpSymbol(op)) + OpExtra(op) + OpsBits(Book(cl), ops)
  {
    hide LegalOp, Has, OpSymbol, OpOut, OpExtra, Book;
    assert ([op] + ops)[1..] == ops;
  }

  lemma OpStands(cl: seq<nat>, n: nat, input: seq<Byte>, pos: nat, lens: seq<nat>) returns (op: LenOp)
    requires |cl| == 19 && |lens| < n && ReadLengths(cl, n, input, pos, lens).Lengths?
    ensures LegalOp(op) && Has(cl, OpSymbol(op)) && At(input, pos, Book(cl)(OpSymbol(op)) + OpExtra(op)) && |OpOut(lens, op)| <= n
    ensures ReadLengths(cl, n, input, pos, lens) ==
            ReadLengths(cl, n, input, pos + |Book(cl)(OpSymbol(op)) + OpExtra(op)|, OpOut(lens, op))
  {
    hide At, Book, Decode, AfterSymbol, OpOut, OpExtra;
    var s := Decode(cl, input, pos).sym;
    SymbolWritten(cl, input, pos, s);
    op := ExtraStands(cl, n, input, pos + cl[s], lens, s);
    AtJoin(input, pos, Book(cl)(s), OpExtra(op));
  }

  lemma ExtraStands(cl: seq<nat>, n: nat, input: seq<Byte>, p: nat, lens: seq<nat>, s: nat) returns (op: LenOp)
    requires |cl| == 19 && |lens| < n && s < 19 && p <= 8 * |input| && AfterSymbol(cl, n, input, p, lens, s).Lengths?
    ensures LegalOp(op) && OpSymbol(op) == s && At(input, p, OpExtra(op)) && |OpOut(lens, op)| <= n
    ensures AfterSymbol(cl, n, input, p, lens, s) == ReadLengths(cl, n, input, p + |OpExtra(op)|, OpOut(lens, op))
  {
    hide At, Low, Peek, Pow2, ReadLengths;
    Pow2Table();
    if s < 16 {
      op := Len(s);
      AtNone(input, p);
    } else if s == 16 {
      LowAt(input, p, 2);
      op := Again(3 + Peek(input, p, 2));
      assert OpOut(lens, op) == lens + Repeat(op.times, LastOr0(lens));
    } else {
      LowAt(input, p, if s == 17 then 3 else 7);
      op := Zeros(if s == 17 then 3 + Peek(input, p, 3) else 11 + Peek(input, p, 7));
      assert OpOut(lens, op) == lens + Repeat(op.times, 0);
    }
  }

  lemma {:induction false} SentStands(input: seq<Byte>, pos: nat, cl: seq<nat>, i: nat, nb: nat)
    requires |cl| == 19 && i <= nb <= 19 && pos + 3 * nb <= 8 * |input|
    requires forall j :: 0 <= j < nb ==> ORDER[j] < 19 && cl[ORDER[j]] == Peek(input, pos + 3 * j, 3)
    ensures At(input, pos + 3 * i, SentBits(cl, i, nb))
    decreases nb - i
  {
    hide At, Low, Peek, ORDER;
    if i == nb {
      AtNone(input, pos + 3 * i);
    } else {
      SentOrder(i);
      SentStands(input, pos, cl, i + 1, nb);
      LowAt(input, pos + 3 * i, 3);
      AtJoin(input, pos + 3 * i, Low(cl[Sent(i)], 3), SentBits(cl, i + 1, nb));
    }
  }

  /** The lengths of the code length code stand in the input, and those not sent are zero. */
  lemma CodeLengthsStand(input: seq<Byte>, pos: nat, nb: nat)
    requires nb <= 19 && pos + 3 * nb <= 8 * |input|
    ensures At(input, pos, SentBits(CodeLengthLens(input, pos, nb), 0, nb))
    ensures forall i :: nb <= i < 19 ==> Sent(i) < 19 && CodeLengthLens(input, pos, nb)[Sent(i)] == 0
  {
    hide CodeLengthLens, Peek, ORDER, SentBits, At, Sent;
    OrderPermutes();
    var cl := CodeLengthLens(input, pos, nb);
    forall i | 0 <= i < 19
      ensures Sent(i) == ORDER[i] && cl[ORDER[i]] == if i < nb then Peek(input, pos + 3 * i, 3) else 0
    {
      SentOrder(i);
      CodeLengthAt(input, pos, nb, i);
    }
    SentStands(input, pos, cl, 0, nb);
  }

  /** Where a header is accepted, one stands in the input. */
  lemma HeaderStands(input: seq<Byte>, pos: nat) returns (h: Header)
    requires ReadSets(input, pos).Sets?
    ensures LegalHeader(h) && At(input, pos, HeaderBits(h)) && ReadSets(input, pos) == Sets(pos + |HeaderBits(h)|, h.ll, h.dl)
  {
    hide At, Low, Book, Peek, Pow2, CodeLengthLens, ReadLengths, SetStatus, OpsBits, SentBits, LengthsFit, OpsWritable, OpsOut, LegalOps, Sent;
    Pow2Table();
    var a, b, c := Peek(input, pos, 5), Peek(input, pos + 5, 5), Peek(input, pos + 10, 4);
    var nb := 4 + c;
    var cl := CodeLengthLens(input, pos + 14, nb);
    var q := pos + 14 + 3 * nb;
    var ops := OpsStand(cl, 258 + a + b, input, q, []);
    var lens := OpsOut([], ops);
    h := Header(lens[..257 + a], lens[257 + a..], cl, nb, ops);
    assert h.ll + h.dl == lens;
    LowAt(input, pos, 5);
    LowAt(input, pos + 5, 5);
    LowAt(input, pos + 10, 4);
    CodeLengthsStand(input, pos + 14, nb);
    var e := OpsBits(Book(cl), ops);
    AtJoin(input, pos + 14, SentBits(cl, 0, nb), e);
    AtJoin(input, pos + 10, Low(c, 4), SentBits(cl, 0, nb) + e);
    AtJoin(input, pos + 5, Low(b, 5), Low(c, 4) + (SentBits(cl, 0, nb) + e));
    AtJoin(input, pos, Low(a, 5), Low(b, 5) + (Low(c, 4) + (SentBits(cl, 0, nb) + e)));
  }

  /** Where a block with codes of its own decodes, one stands in the input. */
  lemma DynamicWritten(input: seq<Byte>, pos: nat, out: seq<Byte>) returns (h: Header, ks: seq<Token>)
    requires Dynamic(input, pos, out).Done?
    ensures LegalHeader(h) && SetStatus(h.ll) == 0 && SetStatus(h.dl) == 0 && AllInRange(ks) && AllWritable(h.ll, h.dl, ks)
    ensures At(input, pos, HeaderBits(h) + TokensBits(Book(h.ll), Book(h.dl), ks))
    ensures Dynamic(input, pos, out) == Done(pos + |HeaderBits(h) + TokensBits(Book(h.ll), Book(h.dl), ks)|, Plain(out, ks))
  {
    hide At, Book, HeaderBits, TokensBits, ReadSets, SetStatus, Codes, AllInRange, AllWritable, Plain, LengthsFit;
    h := HeaderStands(input, pos);
    ks := TokensWritten(h.ll, h.dl, input, pos + |HeaderBits(h)|, out);
    AtJoin(input, pos, HeaderBits(h), TokensBits(Book(h.ll), Book(h.dl), ks));
  }
}
