/**
 The plain meaning of compressed data, and how it is written: literals and references to earlier output
 (section 3.2.3 to 3.2.5 of RFC 1951), each as the bits of its codes and its extra bits.
 */
module DeflateTokens {
  import opened Widths
  import opened Bits
  import opened BitWriter
  import opened CanonicalCode
  import opened DeflateSpec

  /** Length 258 can also be written with the symbol for 227 and up. */
  datatype Token = Literal(x: Byte) | Copy(len: nat, dist: nat, long: bool)

  predicate InRange(k: Token) {
    k.Literal? || (3 <= k.len <= 258 && 1 <= k.dist <= 32768 && (k.long ==> k.len == 258))
  }

  predicate AllInRange(ks: seq<Token>) {
    forall i :: 0 <= i < |ks| ==> InRange(ks[i])
  }

  /** The last dist bytes of the output, over and over, len bytes in all. Before its start there are zeros. */
  function Copied(out: seq<Byte>, dist: nat, len: nat): (r: seq<Byte>)
    requires 1 <= dist
    ensures |r| == |out| + len
  {
    out + seq(len, i requires 0 <= i < len => Past(out, dist - Cycle(i, dist)))
  }

  /** The k-th byte from the end. */
  function Past(out: seq<Byte>, k: nat): Byte
    requires k >= 1
  {
    if k > |out| then 0 else out[|out| - k]
  }

  function Cycle(i: nat, n: nat): (r: nat)
    requires n > 0
    ensures r < n
  {
    i % n
  }

  function Grown(out: seq<Byte>, k: Token): seq<Byte>
    requires InRange(k)
  {
    match k
    case Literal(x) => out + [x]
    case Copy(len, dist, _) => Copied(out, dist, len)
  }

  /** The output after the tokens. */
  function Plain(out: seq<Byte>, ks: seq<Token>): seq<Byte>
    requires AllInRange(ks)
    decreases |ks|
  {
    if |ks| == 0 then out else Plain(Grown(out, ks[0]), ks[1..])
  }

  /** Byte by byte copying repeats the last dist bytes. */
  lemma {:induction false} CopyRepeats(out: seq<Byte>, dist: nat, len: nat)
    requires 1 <= dist
    ensures CopyMatch(out, dist, len) == Copied(out, dist, len)
    decreases len
  {
    if len == 0 {
      assert Copied(out, dist, 0) == out;
    } else {
      CopyRepeats(out + [Past(out, dist)], dist, len - 1);
      OneMore(out, dist, len);
    }
  }

  lemma OneMore(out: seq<Byte>, dist: nat, len: nat)
    requires 1 <= dist && len > 0
    ensures Copied(out + [Past(out, dist)], dist, len - 1) == Copied(out, dist, len)
  {
    hide Cycle, Past;
    var out' := out + [Past(out, dist)];
    var a, b := Copied(out', dist, len - 1), Copied(out, dist, len);
    Period(1, dist);
    forall j | 0 <= j < |b|
      ensures a[j] == b[j]
    {
      if j > |out| {
        var i := j - |out|;
        Period(i, dist);
        Shifted(out, Past(out, dist), dist - Cycle(i - 1, dist));
      }
    }
  }

  lemma Shifted(out: seq<Byte>, x: Byte, k: nat)
    requires k >= 1
    ensures Past(out + [x], k) == if k == 1 then x else Past(out, k - 1)
  {
  }

  lemma Period(j: nat, dist: nat)
    requires 1 <= j && 1 <= dist
    ensures Cycle(j, dist) == if Cycle(j - 1, dist) == dist - 1 then 0 else Cycle(j - 1, dist) + 1
    ensures Cycle(0, dist) == 0
  {
    var q, r := (j - 1) / dist, (j - 1) % dist;
    DivModUnique(0, dist, 0, 0);
    DivModParts(j - 1, dist);
    if r == dist - 1 {
      MulDistrib(dist, q, 1);
      DivModUnique(j, dist, q + 1, 0);
    } else {
      DivModUnique(j, dist, q, r + 1);
    }
  }

  // ---- Which symbol a length or a distance has ----

  /** The number of bits of x behind its first one bit. */
  function Log2(x: nat): (k: nat)
    requires x > 0
    ensures Pow2(k) <= x < Pow2(k + 1)
  {
    if x == 1 then 0 else 1 + Log2(x / 2)
  }

  /** Lengths 3 to 10 have a symbol each; then every power of two has four. 258 has one of its own. */
  function LengthSymbol(len: nat): nat
    requires 3 <= len <= 258
  {
    var x := len - 3;
    if len == 258 then 285 else if x < 8 then 257 + x else 253 + 4 * Log2(x) + Shr(x, Log2(x) - 2) % 4
  }

  /** The other bits of the length. */
  function LengthBits(len: nat): seq<bool>
    requires 3 <= len <= 258
  {
    var x := len - 3;
    if len == 258 || x < 8 then [] else Low(x, Log2(x) - 2)
  }

  /** Distances 1 to 4 have a symbol each; then every power of two has two. */
  function DistSymbol(dist: nat): nat
    requires 1 <= dist
  {
    var x := dist - 1;
    if x < 4 then x else 2 * Log2(x) + Shr(x, Log2(x) - 1) % 2
  }

  function DistBits(dist: nat): seq<bool>
    requires 1 <= dist
  {
    var x := dist - 1;
    if x < 4 then [] else Low(x, Log2(x) - 1)
  }

  /** The leading n + 1 bits of x, without the first, tell which of the symbols of its power of two it is. */
  lemma Leading(x: nat, k: nat, n: nat)
    requires n <= k && Pow2(k) <= x < Pow2(k + 1)
    ensures Pow2(n) <= Shr(x, k - n) < Pow2(n + 1)
  {
    hide Pow2, Shl, Shr, Mask;
    ShrMask(x, k - n);
    ShlPow2(n, k - n);
    ShlPow2(n + 1, k - n);
    var h := Shr(x, k - n);
    ShlOrder(h, Pow2(n), k - n);
    ShlOrder(h, Pow2(n + 1), k - n);
    ShlOne(k - n);
    if h < Pow2(n) {
      ShlOrder(Pow2(n), h + 1, k - n);
      ShlPlus(h, 1, k - n);
    }
  }

  lemma {:induction false} Log2Range(x: nat, lo: nat, hi: nat)
    requires 0 < x && Pow2(lo) <= x < Pow2(hi)
    ensures lo <= Log2(x) < hi
  {
    var k := Log2(x);
    if k < lo { Pow2Mono(k + 1, lo); }
    if k >= hi { Pow2Mono(hi, k); }
  }

  /** Reading the low bits of a number gives its lowest part. */
  lemma {:induction false} LowMask(v: nat, n: nat)
    ensures Low(v, n) == Low(Mask(v, n), n)
    decreases n
  {
    if n > 0 {
      LowMask(v / 2, n - 1);
      var m := Mask(v, n);
      assert m == 2 * Mask(v / 2, n - 1) + v % 2;
      assert m / 2 == Mask(v / 2, n - 1) && m % 2 == v % 2;
    }
  }

  /** The symbol and the extra bits of a length stand for it in the table of section 3.2.5. */
  lemma LengthStands(len: nat)
    requires 3 <= len <= 258
    ensures var s := LengthSymbol(len);
            && 257 <= s <= 285 && |LengthBits(len)| == LengthExtra(s)
            && len >= LengthBase(s) && len - LengthBase(s) < Pow2(LengthExtra(s)) && LengthBits(len) == Low(len - LengthBase(s), LengthExtra(s))
  {
    var x := len - 3;
    if len != 258 && x >= 8 {
      LongLength(x);
    } else {
      assert Pow2(0) == 1;
    }
  }

  lemma LongLength(x: nat)
    requires 8 <= x < 255
    ensures var s := LengthSymbol(x + 3);
            && 265 <= s < 285 && Log2(x) - 2 == LengthExtra(s)
            && x + 3 >= LengthBase(s) && x + 3 - LengthBase(s) < Pow2(LengthExtra(s))
            && LengthBits(x + 3) == Low(x + 3 - LengthBase(s), LengthExtra(s))
  {
    hide Pow2, Shl, Shr, Mask, Log2, Low;
    Pow2Table();
    Log2Range(x, 3, 8);
    var k := Log2(x);
    Leading(x, k, 2);
    ShrMask(x, k - 2);
    LowMask(x, k - 2);
    var s, r := LengthSymbol(x + 3), Shr(x, k - 2) - 4;
    assert s == 253 + 4 * k + r && (s - 261) / 4 == k - 2 && (s - 265) % 4 == r;
  }

  lemma DistStands(dist: nat)
    requires 1 <= dist <= 32768
    ensures var s := DistSymbol(dist);
            && s < 30 && |DistBits(dist)| == DistExtra(s)
            && dist >= DistBase(s) && dist - DistBase(s) < Pow2(DistExtra(s)) && DistBits(dist) == Low(dist - DistBase(s), DistExtra(s))
  {
    var x := dist - 1;
    if x >= 4 {
      FarDist(x);
    } else {
      assert Pow2(0) == 1;
    }
  }

  lemma FarDist(x: nat)
    requires 4 <= x < 32768
    ensures var s := DistSymbol(x + 1);
            && 4 <= s < 30 && Log2(x) - 1 == DistExtra(s)
            && x + 1 >= DistBase(s) && x + 1 - DistBase(s) < Pow2(DistExtra(s))
            && DistBits(x + 1) == Low(x + 1 - DistBase(s), DistExtra(s))
  {
    hide Pow2, Shl, Shr, Mask, Log2, Low;
    Pow2Table();
    Log2Range(x, 2, 15);
    var k := Log2(x);
    Leading(x, k, 1);
    ShrMask(x, k - 1);
    LowMask(x, k - 1);
    var s, r := DistSymbol(x + 1), Shr(x, k - 1) - 2;
    assert s == 2 * k + r && (s - 2) / 2 == k - 1 && s % 2 == r;
  }

  // ---- The bits of tokens ----

  /** Each symbol with its extra bits is that of one length only, but for the other way to write 258. */
  lemma LengthOf(s: nat, e: nat)
    requires 257 <= s <= 285 && e < Pow2(LengthExtra(s))
    ensures var len := LengthBase(s) + e;
            && 3 <= len <= 258
            && if s == 284 && e == 31 then len == 258 else LengthSymbol(len) == s && LengthBits(len) == Low(e, LengthExtra(s))
  {
    if 265 <= s < 285 {
      LongLengthOf(s, e);
    } else {
      assert Pow2(0) == 1;
    }
  }

  lemma LongLengthOf(s: nat, e: nat)
    requires 265 <= s < 285 && e < Pow2(LengthExtra(s))
    ensures var len := LengthBase(s) + e;
            && 3 <= len <= 258
            && if s == 284 && e == 31 then len == 258 else LengthSymbol(len) == s && LengthBits(len) == Low(e, LengthExtra(s))
  {
    hide Pow2, Shl, Shr, Mask, Log2, Low;
    Pow2Table();
    var n, r := LengthExtra(s), (s - 265) % 4;
    var x := Shl(4 + r, n) + e;
    assert 1 <= n <= 5 && s == 261 + 4 * n + r;
    TopBits(x, 4 + r, e, n, 2);
    LowMask(x, n);
    Pow2Mono(n + 3, 8);
    Pow2Mono(3, n + 2);
    Top255(n, r, e);
  }

  /** The longest length in the table. */
  lemma Top255(n: nat, r: nat, e: nat)
    requires 1 <= n <= 5 && r < 4 && e < Pow2(n)
    ensures Shl(4 + r, n) + e == 255 <==> n == 5 && r == 3 && e == 31
  {
    hide Shl;
    Pow2Table();
    assert Shl(4 + r, n) == if n == 1 then 8 + 2 * r else if n == 2 then 16 + 4 * r else if n == 3 then 32 + 8 * r
                            else if n == 4 then 64 + 16 * r else 128 + 32 * r by {
      SmallShl(4 + r);
    }
  }

  lemma SmallShl(x: nat)
    ensures Shl(x, 1) == 2 * x && Shl(x, 2) == 4 * x && Shl(x, 3) == 8 * x && Shl(x, 4) == 16 * x && Shl(x, 5) == 32 * x
  {
    ShlZero(x);
    assert Shl(x, 1) == 2 * Shl(x, 0);
    assert Shl(x, 2) == 2 * Shl(x, 1);
    assert Shl(x, 3) == 2 * Shl(x, 2);
    assert Shl(x, 4) == 2 * Shl(x, 3);
  }

  /** A number from its leading bits and the rest. */
  lemma TopBits(x: nat, h: nat, e: nat, n: nat, m: nat)
    requires x == Shl(h, n) + e && e < Pow2(n) && Pow2(m) <= h < Pow2(m + 1)
    ensures Pow2(n + m) <= x < Pow2(n + m + 1) && Log2(x) == n + m && Shr(x, n) == h && Mask(x, n) == e
  {
    hide Pow2, Shl, Shr, Mask, Log2;
    ShrMaskUnique(x, n, h, e);
    ShlPow2(m, n);
    ShlPow2(m + 1, n);
    ShlOrder(h, Pow2(m), n);
    ShlOrder(h + 1, Pow2(m + 1), n);
    ShlOrder(Pow2(m + 1), h + 1, n);
    ShlPlus(h, 1, n);
    ShlOne(n);
    Log2Range(x, n + m, n + m + 1);
  }

  lemma DistOf(s: nat, e: nat)
    requires s < 30 && e < Pow2(DistExtra(s))
    ensures var dist := DistBase(s) + e; 1 <= dist <= 32768 && DistSymbol(dist) == s && DistBits(dist) == Low(e, DistExtra(s))
  {
    if s >= 4 {
      FarDistOf(s, e);
    } else {
      assert Pow2(0) == 1;
    }
  }

  lemma FarDistOf(s: nat, e: nat)
    requires 4 <= s < 30 && e < Pow2(DistExtra(s))
    ensures var dist := DistBase(s) + e; 1 <= dist <= 32768 && DistSymbol(dist) == s && DistBits(dist) == Low(e, DistExtra(s))
  {
    hide Pow2, Shl, Shr, Mask, Log2, Low;
    Pow2Table();
    var n, r := DistExtra(s), s % 2;
    var x := Shl(2 + r, n) + e;
    assert 1 <= n <= 13 && s == 2 + 2 * n + r;
    TopBits(x, 2 + r, e, n, 1);
    LowMask(x, n);
    Pow2Mono(n + 2, 15);
    if x < 4 { Pow2Mono(2, n + 1); }
  }

  // ---- The bits of tokens ----

  /** A code for each symbol of an alphabet: its bits, or none. */
  type CodeBook = nat -> seq<bool>

  /** The canonical code of the given lengths. */
  function Book(lens: seq<nat>): CodeBook {
    (s: nat) => if s < |lens| && lens[s] <= BMAX then High(Code(lens, s), lens[s]) else []
  }

  /** The symbol and the extra bits for the length of a reference. */
  function TokenSymbol(k: Token): nat
    requires InRange(k) && k.Copy?
  {
    if k.long then 284 else LengthSymbol(k.len)
  }

  function TokenExtra(k: Token): seq<bool>
    requires InRange(k) && k.Copy?
  {
    if k.long then Low(31, 5) else LengthBits(k.len)
  }

  function TokenBits(lit: CodeBook, dst: CodeBook, k: Token): seq<bool>
    requires InRange(k)
  {
    match k
    case Literal(x) => lit(x)
    case Copy(len, dist, _) => lit(TokenSymbol(k)) + TokenExtra(k) + (dst(DistSymbol(dist)) + DistBits(dist))
  }

  /** All tokens and the end-of-block code. */
  function TokensBits(lit: CodeBook, dst: CodeBook, ks: seq<Token>): seq<bool>
    requires AllInRange(ks)
  {
    if |ks| == 0 then lit(256) else TokenBits(lit, dst, ks[0]) + TokensBits(lit, dst, ks[1..])
  }

  /** Code lengths that leave room for all codes. */
  ghost predicate Sound(lens: seq<nat>) {
    && (forall i :: 0 <= i < |lens| ==> lens[i] <= BMAX)
    && forall k :: 1 <= k <= BMAX ==> Left(Counts(lens), k) >= 0
  }

  /** Symbol s has a code. */
  predicate Has(lens: seq<nat>, s: nat) {
    s < |lens| && 1 <= lens[s] <= BMAX
  }

  /** A symbol that was written with its canonical code is the symbol decoded. */
  lemma SymbolRead(lens: seq<nat>, input: seq<Byte>, pos: nat, s: nat)
    requires Sound(lens) && Has(lens, s) && At(input, pos, Book(lens)(s))
    ensures Decode(lens, input, pos) == Symbol(s) && pos + lens[s] <= 8 * |input| && |Book(lens)(s)| == lens[s]
  {
    hide Decode, Code, BitAt, PeekCode, High, Pow2;
    CodeFits(lens, s);
    AtHigh(input, pos, Code(lens, s), lens[s]);
    DecodeIs(lens, input, pos, s);
  }

  lemma CodeFits(lens: seq<nat>, s: nat)
    requires Sound(lens) && Has(lens, s)
    ensures Code(lens, s) < Pow2(lens[s])
  {
    hide Code, Pow2, Counts, NextCode;
    SymbolHasCode(lens, s);
    assert Left(Counts(lens), lens[s]) >= 0;
  }

  /** And a symbol is only decoded where its code stands. */
  lemma SymbolWritten(lens: seq<nat>, input: seq<Byte>, pos: nat, s: nat)
    requires Decode(lens, input, pos) == Symbol(s)
    ensures Has(lens, s) && pos + lens[s] <= 8 * |input| && At(input, pos, Book(lens)(s)) && |Book(lens)(s)| == lens[s]
  {
    hide Code, BitAt, PeekCode, High, At;
    assert Matches(lens, input, pos, s);
    HighAt(input, pos, lens[s]);
  }

  /** The token uses symbols that have codes. */
  predicate Writable(ll: seq<nat>, dl: seq<nat>, k: Token)
    requires InRange(k)
  {
    match k
    case Literal(x) => Has(ll, x)
    case Copy(len, dist, _) => Has(ll, TokenSymbol(k)) && Has(dl, DistSymbol(dist))
  }

  ghost predicate AllWritable(ll: seq<nat>, dl: seq<nat>, ks: seq<Token>)
    requires AllInRange(ks)
  {
    Has(ll, 256) && forall i :: 0 <= i < |ks| ==> Writable(ll, dl, ks[i])
  }

  /** The symbol of a token and its extra bits stand for its length. */
  lemma TokenStands(k: Token)
    requires InRange(k) && k.Copy?
    ensures var s := TokenSymbol(k);
            && 257 <= s <= 285 && |TokenExtra(k)| == LengthExtra(s)
            && k.len >= LengthBase(s) && k.len - LengthBase(s) < Pow2(LengthExtra(s)) && TokenExtra(k) == Low(k.len - LengthBase(s), LengthExtra(s))
  {
    if k.long {
      Pow2Table();
    } else {
      LengthStands(k.len);
    }
  }

  /** Tokens written with the codes of two sets decode to their plain output. */
  lemma {:induction false} TokensRead(ll: seq<nat>, dl: seq<nat>, input: seq<Byte>, pos: nat, out: seq<Byte>, ks: seq<Token>)
    requires Sound(ll) && Sound(dl) && AllInRange(ks) && AllWritable(ll, dl, ks)
    requires At(input, pos, TokensBits(Book(ll), Book(dl), ks))
    ensures Codes(ll, dl, input, pos, out) == Done(pos + |TokensBits(Book(ll), Book(dl), ks)|, Plain(out, ks))
    decreases |ks|
  {
    hide Codes, Decode, Book, TokenBits, Sound, Has, Writable, Grown, InRange;
    if |ks| == 0 {
      EndRead(ll, dl, input, pos, out);
    } else {
      var k := ks[0];
      AtParts(input, pos, TokenBits(Book(ll), Book(dl), k), TokensBits(Book(ll), Book(dl), ks[1..]));
      TokenRead(ll, dl, input, pos, out, k);
      TokensRead(ll, dl, input, pos + |TokenBits(Book(ll), Book(dl), k)|, Grown(out, k), ks[1..]);
    }
  }

  lemma EndRead(ll: seq<nat>, dl: seq<nat>, input: seq<Byte>, pos: nat, out: seq<Byte>)
    requires Sound(ll) && Has(ll, 256) && At(input, pos, Book(ll)(256))
    ensures Codes(ll, dl, input, pos, out) == Done(pos + |Book(ll)(256)|, out)
  {
    hide Decode, Book, Sound, Match;
    SymbolRead(ll, input, pos, 256);
  }

  lemma TokenRead(ll: seq<nat>, dl: seq<nat>, input: seq<Byte>, pos: nat, out: seq<Byte>, k: Token)
    requires Sound(ll) && Sound(dl) && InRange(k) && Writable(ll, dl, k)
    requires At(input, pos, TokenBits(Book(ll), Book(dl), k))
    ensures Codes(ll, dl, input, pos, out) == Codes(ll, dl, input, pos + |TokenBits(Book(ll), Book(dl), k)|, Grown(out, k))
  {
    hide Decode, Book, Sound, Match, TokenSymbol, TokenExtra, DistSymbol, DistBits, Copied, LengthBase, LengthExtra, Peek;
    match k {
      case Literal(x) =>
        SymbolRead(ll, input, pos, x);
      case Copy(len, dist, long) =>
        CopyRead(ll, dl, input, pos, out, k);
    }
  }

  /** A reference: its length, and then its distance. */
  lemma CopyRead(ll: seq<nat>, dl: seq<nat>, input: seq<Byte>, pos: nat, out: seq<Byte>, k: Token)
    requires Sound(ll) && Sound(dl) && InRange(k) && k.Copy? && Writable(ll, dl, k)
    requires At(input, pos, TokenBits(Book(ll), Book(dl), k))
    ensures Codes(ll, dl, input, pos, out) ==
            Codes(ll, dl, input, pos + |TokenBits(Book(ll), Book(dl), k)|, Copied(out, k.dist, k.len))
  {
    hide Decode, Book, TokenSymbol, TokenExtra, DistSymbol, DistBits, Peek, Sound, LengthBase, LengthExtra, Match, Low, Pow2, Copied;
    var s := TokenSymbol(k);
    var a, b := Book(ll)(s) + TokenExtra(k), Book(dl)(DistSymbol(k.dist)) + DistBits(k.dist);
    AtParts(input, pos, a, b);
    AtParts(input, pos, Book(ll)(s), TokenExtra(k));
    SymbolRead(ll, input, pos, s);
    TokenStands(k);
    AtLow(input, pos + ll[s], k.len - LengthBase(s), LengthExtra(s));
    DistRead(ll, dl, input, pos + |a|, out, k.len, k.dist);
  }

  lemma DistRead(ll: seq<nat>, dl: seq<nat>, input: seq<Byte>, pos: nat, out: seq<Byte>, len: nat, dist: nat)
    requires Sound(dl) && 1 <= dist <= 32768 && Has(dl, DistSymbol(dist))
    requires At(input, pos, Book(dl)(DistSymbol(dist)) + DistBits(dist))
    ensures Match(ll, dl, input, pos, out, len) ==
            Codes(ll, dl, input, pos + |Book(dl)(DistSymbol(dist)) + DistBits(dist)|, Copied(out, dist, len))
  {
    hide Decode, Book, DistSymbol, DistBits, Peek, Sound, DistBase, DistExtra, Codes, Low, Pow2, Copied;
    var s := DistSymbol(dist);
    AtParts(input, pos, Book(dl)(s), DistBits(dist));
    SymbolRead(dl, input, pos, s);
    DistStands(dist);
    AtLow(input, pos + dl[s], dist - DistBase(s), DistExtra(s));
    CopyRepeats(out, dist, len);
  }

  // ---- Nothing else decodes ----

  /** Where a block of codes decodes, tokens stand in the input, and their output is what it decodes to. */
  lemma {:induction false} TokensWritten(ll: seq<nat>, dl: seq<nat>, input: seq<Byte>, pos: nat, out: seq<Byte>) returns (ks: seq<Token>)
    requires Codes(ll, dl, input, pos, out).Done?
    ensures AllInRange(ks) && AllWritable(ll, dl, ks) && At(input, pos, TokensBits(Book(ll), Book(dl), ks))
    ensures Codes(ll, dl, input, pos, out) == Done(pos + |TokensBits(Book(ll), Book(dl), ks)|, Plain(out, ks))
    decreases 8 * |input| - pos
  {
    hide At, Decode, Book, TokenBits, Writable, Grown, InRange, Match, LengthBase, LengthExtra, Peek;
    var s := Decode(ll, input, pos).sym;
    SymbolWritten(ll, input, pos, s);
    if s == 256 {
      ks := [];
    } else {
      var k := FirstWritten(ll, dl, input, pos, out);
      var n := |TokenBits(Book(ll), Book(dl), k)|;
      ks := TokensWritten(ll, dl, input, pos + n, Grown(out, k));
      AtJoin(input, pos, TokenBits(Book(ll), Book(dl), k), TokensBits(Book(ll), Book(dl), ks));
      MoreTokens(ll, dl, k, ks, out);
      ks := [k] + ks;
    }
  }

  lemma MoreTokens(ll: seq<nat>, dl: seq<nat>, k: Token, ks: seq<Token>, out: seq<Byte>)
    requires InRange(k) && Writable(ll, dl, k) && AllInRange(ks) && AllWritable(ll, dl, ks)
    ensures AllInRange([k] + ks) && AllWritable(ll, dl, [k] + ks) && Plain(out, [k] + ks) == Plain(Grown(out, k), ks)
    ensures TokensBits(Book(ll), Book(dl), [k] + ks) == TokenBits(Book(ll), Book(dl), k) + TokensBits(Book(ll), Book(dl), ks)
  {
    hide InRange, Writable, Has, Grown, TokenBits, Book;
    assert ([k] + ks)[1..] == ks;
  }

  /** The token in front. */
  lemma FirstWritten(ll: seq<nat>, dl: seq<nat>, input: seq<Byte>, pos: nat, out: seq<Byte>) returns (k: Token)
    requires Codes(ll, dl, input, pos, out).Done? && Decode(ll, input, pos).Symbol? && Decode(ll, input, pos).sym != 256
    ensures InRange(k) && Writable(ll, dl, k) && At(input, pos, TokenBits(Book(ll), Book(dl), k)) && |TokenBits(Book(ll), Book(dl), k)| > 0
    ensures Codes(ll, dl, input, pos, out) == Codes(ll, dl, input, pos + |TokenBits(Book(ll), Book(dl), k)|, Grown(out, k))
  {
    hide At, Decode, Book, Match, LengthBase, LengthExtra, Peek, TokenSymbol, TokenExtra, DistSymbol, DistBits, Copied, Low, Pow2;
    var s := Decode(ll, input, pos).sym;
    SymbolWritten(ll, input, pos, s);
    if s < 256 {
      k := Literal(s);
    } else {
      k := FirstCopy(ll, dl, input, pos, out);
    }
  }

  lemma FirstCopy(ll: seq<nat>, dl: seq<nat>, input: seq<Byte>, pos: nat, out: seq<Byte>) returns (k: Token)
    requires Codes(ll, dl, input, pos, out).Done? && Decode(ll, input, pos).Symbol? && Decode(ll, input, pos).sym > 256
    ensures InRange(k) && Writable(ll, dl, k) && At(input, pos, TokenBits(Book(ll), Book(dl), k)) && |TokenBits(Book(ll), Book(dl), k)| > 0
    ensures Codes(ll, dl, input, pos, out) == Codes(ll, dl, input, pos + |TokenBits(Book(ll), Book(dl), k)|, Grown(out, k))
  {
    hide At, Decode, Book, Match, LengthBase, LengthExtra, Peek, TokenSymbol, TokenExtra, DistSymbol, DistBits, Copied, Low, Pow2, Has;
    var s := Decode(ll, input, pos).sym;
    SymbolWritten(ll, input, pos, s);
    CodesCopy(ll, dl, input, pos, out, s);
    HasFew(ll, s);
    var p, x := pos + ll[s], LengthExtra(s);
    var e := Peek(input, p, x);
    var dist := DistWritten(ll, dl, input, p + x, out, LengthBase(s) + e);
    k := ReferenceOf(s, e, dist);
    LowAt(input, p, x);
    AtJoin(input, pos, Book(ll)(s), Low(e, x));
    AtJoin(input, pos, Book(ll)(s) + Low(e, x), Book(dl)(DistSymbol(dist)) + DistBits(dist));
  }

  lemma HasFew(lens: seq<nat>, s: nat)
    requires Has(lens, s)
    ensures s < |lens| && lens[s] > 0
  {
  }

  /** What follows the symbol of a length. */
  lemma CodesCopy(ll: seq<nat>, dl: seq<nat>, input: seq<Byte>, pos: nat, out: seq<Byte>, s: nat)
    requires Codes(ll, dl, input, pos, out).Done? && Decode(ll, input, pos) == Symbol(s) && s > 256
    ensures s < |ll| && s <= 285 && pos + ll[s] + LengthExtra(s) <= 8 * |input|
    ensures var p := pos + ll[s];
            Codes(ll, dl, input, pos, out) == Match(ll, dl, input, p + LengthExtra(s), out, LengthBase(s) + Peek(input, p, LengthExtra(s)))
  {
    hide Decode, Match, LengthBase, LengthExtra, Peek;
  }

  lemma ReferenceOf(s: nat, e: nat, dist: nat) returns (k: Token)
    requires 257 <= s <= 285 && e < Pow2(LengthExtra(s)) && 1 <= dist <= 32768
    ensures InRange(k) && k.Copy? && k.len == LengthBase(s) + e && k.dist == dist && TokenSymbol(k) == s && TokenExtra(k) == Low(e, LengthExtra(s))
  {
    LengthOf(s, e);
    k := Copy(LengthBase(s) + e, dist, s == 284 && e == 31);
  }

  lemma DistWritten(ll: seq<nat>, dl: seq<nat>, input: seq<Byte>, pos: nat, out: seq<Byte>, len: nat) returns (dist: nat)
    requires Match(ll, dl, input, pos, out, len).Done?
    ensures 1 <= dist <= 32768 && Has(dl, DistSymbol(dist)) && At(input, pos, Book(dl)(DistSymbol(dist)) + DistBits(dist))
    ensures Match(ll, dl, input, pos, out, len) ==
            Codes(ll, dl, input, pos + |Book(dl)(DistSymbol(dist)) + DistBits(dist)|, Copied(out, dist, len))
  {
    hide At, Decode, Book, DistBase, DistExtra, Peek, DistSymbol, DistBits, Copied, Low, Pow2, Codes;
    var s := Decode(dl, input, pos).sym;
    SymbolWritten(dl, input, pos, s);
    var p := pos + dl[s];
    var e := Peek(input, p, DistExtra(s));
    DistOf(s, e);
    dist := DistBase(s) + e;
    CopyRepeats(out, dist, len);
    LowAt(input, p, DistExtra(s));
    AtJoin(input, pos, Book(dl)(s), Low(e, DistExtra(s)));
  }
}
