/**
 The decoder of memdisk/inflate.c with the buffers of memdisk/unzip.c: one object holds the input
 pointer, the bit buffer, the window, the flushed output and the running CRC.
 */
module Inflate {
  import opened Widths
  import opened Bits
  import opened CanonicalCode
  import opened HuftTable
  import opened HuftPlan
  import opened HuftDecode
  import opened DeflateSpec
  import opened Window
  import opened SymbolTables
  import opened InflateCases
  import Crc32

  class Inflater {
    const input: seq<Byte>
    const limit: nat
    const tab: seq<Crc32.word>
    const window: array<Byte>
    var inptr: nat
    var bb: nat
    var bk: nat
    var outcnt: nat
    var output: seq<Byte>
    var bytesOut: nat
    var crc: Crc32.word

    /** Flushed bytes are counted and summed, and fit the output buffer. */
    ghost predicate Valid()
      reads this`output, this`bytesOut, this`crc
    {
      && window.Length == WSIZE
      && limit + WSIZE < 0x1_0000_0000
      && bytesOut == |output| <= limit
      && Crc32.GoodTable(tab)
      && crc == Crc32.Crc(Crc32.ONES, output)
    }

    /** Bits taken from the input but not used yet: k of them, held in b. */
    ghost predicate Held(b: nat, k: nat)
      reads this`inptr
    {
      inptr <= |input| && k <= 23 && k <= 8 * inptr && b == Peek(input, 8 * inptr - k, k)
    }

    /** Position of the next unused bit. */
    ghost function Pos(k: nat): nat
      reads this`inptr
      requires k <= 8 * inptr
    {
      8 * inptr - k
    }

    ghost function Out(w: nat): seq<Byte>
      reads this`output, window
      requires w <= window.Length
    {
      Produced(window[..], output, w)
    }

    ghost predicate Win(w: nat)
      reads this`output, window
    {
      Remembers(window[..], output, w)
    }

    constructor (data: seq<Byte>, size: nat)
      requires size + WSIZE < 0x1_0000_0000
      ensures Valid() && input == data && limit == size && fresh(window)
      ensures inptr == 0 && output == [] && Win(0)
    {
      input, limit := data, size;
      var t := Crc32.MakeCrc();
      tab := t;
      window := new Byte[WSIZE](_ => 0);
      inptr, bb, bk, outcnt, output, bytesOut := 0, 0, 0, 0, [], 0;
      crc := Crc32.ONES;
    }

    // ---- The bit buffer ----

    /** NEEDBITS: fetch bytes until at least n bits are held. The buffer never exceeds 23 bits. */
    method NeedBits(b0: nat, k0: nat, n: nat) returns (ok: bool, b: nat, k: nat)
      requires Held(b0, k0) && n <= 16
      modifies this`inptr
      ensures inptr <= |input|
      ensures ok ==> Held(b, k) && n <= k && Pos(k) == old(Pos(k0))
      ensures !ok ==> old(Pos(k0)) + n > 8 * |input|
    {
      hide Peek, Shl, Pow2;
      b, k := b0, k0;
      while k < n
        invariant Held(b, k) && Pos(k) == old(Pos(k0))
        decreases n - k
      {
        if inptr == |input| {
          return false, b, k;
        }
        ByteIn(input, inptr, k);
        b := b + Shl(input[inptr], k);
        inptr := inptr + 1;
        k := k + 8;
      }
      ok := true;
    }

    /** b & mask_bits[n], and the buffer after DUMPBITS(n). */
    method TakeBits(b0: nat, k0: nat, n: nat) returns (v: nat, b: nat, k: nat)
      requires Held(b0, k0) && n <= k0
      ensures v == Peek(input, Pos(k0), n) && Held(b, k) && k == k0 - n
    {
      hide Peek, Pow2, Shr, Mask;
      PeekTake(input, Pos(k0), n, k0);
      v := Mask(b0, n);
      b := Shr(b0, n);
      k := k0 - n;
    }

    /** NEEDBITS, read, DUMPBITS in one. */
    method GetBits(b0: nat, k0: nat, n: nat) returns (ok: bool, v: nat, b: nat, k: nat)
      requires Held(b0, k0) && n <= 16
      modifies this`inptr
      ensures inptr <= |input|
      ensures ok ==> old(Pos(k0)) + n <= 8 * |input| && v == Peek(input, old(Pos(k0)), n)
      ensures ok ==> Held(b, k) && Pos(k) == old(Pos(k0)) + n
      ensures !ok ==> old(Pos(k0)) + n > 8 * |input|
    {
      ok, b, k := NeedBits(b0, k0, n);
      v := 0;
      if ok {
        v, b, k := TakeBits(b, k, n);
      }
    }

    // ---- The window ----

    /** flush_output(w): append the first w cells of the window to the output and its CRC. */
    method Flush(w: nat) returns (ok: bool)
      requires Valid() && w <= WSIZE
      modifies this`output, this`bytesOut, this`crc, this`outcnt
      ensures ok ==> Valid() && output == old(Out(w)) && outcnt == 0
      ensures !ok ==> |old(Out(w))| > limit
    {
      hide Crc32.Crc, Crc32.GoodTable;
      outcnt := w;
      if (bytesOut + outcnt) % 0x1_0000_0000 > limit {
        return false;
      }
      var c, n, out := crc, 0, output;
      while n < w
        invariant 0 <= n <= w == outcnt && bytesOut == old(bytesOut) && out == old(output) + old(window[..n])
        invariant c == Crc32.Crc(Crc32.ONES, out)
      {
        c := SumByte(c, out, window[n]);
        out := out + [window[n]];
        n := n + 1;
      }
      assert old(window[..])[..w] == old(window[..w]);
      crc, output, bytesOut, outcnt := c, out, bytesOut + outcnt, 0;
      ok := true;
    }

    method SumByte(c: Crc32.word, ghost out: seq<Byte>, ch: Byte) returns (c': Crc32.word)
      requires Crc32.GoodTable(tab) && c == Crc32.Crc(Crc32.ONES, out)
      ensures c' == Crc32.Crc(Crc32.ONES, out + [ch])
    {
      Crc32.UpdateIsCrcByte(tab, c, ch);
      assert (out + [ch])[..|out|] == out;
      c' := Crc32.Update(tab, c, ch);
    }

    /** slide[w++] = x, flushing a full window. */
    method PutByte(w0: nat, x: Byte) returns (ok: bool, w: nat)
      requires Valid() && Win(w0) && w0 < WSIZE
      modifies this`output, this`bytesOut, this`crc, this`outcnt, window
      ensures ok ==> Valid() && Win(w) && w < WSIZE && Out(w) == old(Out(w0)) + [x]
      ensures !ok ==> |old(Out(w0))| + 1 > limit
    {
      PutCell(window[..], output, w0, x);
      window[w0] := x;
      assert window[..] == old(window[..])[w0 := x];
      ok, w := FlushIfFull(w0 + 1);
    }

    method FlushIfFull(w0: nat) returns (ok: bool, w: nat)
      requires Valid() && Win(w0) && w0 <= WSIZE
      modifies this`output, this`bytesOut, this`crc, this`outcnt
      ensures ok ==> Valid() && Win(w) && Out(w) == old(Out(w0)) && w == if w0 == WSIZE then 0 else w0
      ensures !ok ==> |old(Out(w0))| > limit
    {
      ok, w := true, w0;
      if w == WSIZE {
        FlushFull(window[..], output);
        assert window[..WSIZE] == window[..];
        ok := Flush(w);
        w := 0;
      }
    }

    /** Copy e cells from d to w: as a block where source and target do not interfere, else in turn. */
    method CopyRun(d0: nat, w0: nat, e0: nat, ghost dist: nat)
      requires Valid() && Win(w0) && w0 < WSIZE && 1 <= dist <= WSIZE && d0 == Slot(w0, dist)
      requires 1 <= e0 && w0 + e0 <= WSIZE && d0 + e0 <= WSIZE
      modifies window
      ensures Valid() && Win(w0 + e0) && Out(w0 + e0) == CopyMatch(old(Out(w0)), dist, e0)
    {
      hide CopyMatch, Remembers, Produced, History, Crc32.GoodTable, Crc32.Crc;
      if (w0 - d0) % 0x1_0000_0000 >= e0 {
        BlockCopy(window[..], output, w0, dist, e0);
        MoveBlock(d0, w0, e0);
        BlockPut(old(window[..]), window[..], output, w0, old(window[..])[d0..d0 + e0]);
      } else {
        CopySlow(d0, w0, e0, dist);
      }
    }

    /** memcpy within the window. */
    method MoveBlock(d: nat, w: nat, e: nat)
      requires d + e <= window.Length && w + e <= window.Length
      modifies window
      ensures window[..] == old(window[..])[..w] + old(window[..])[d..d + e] + old(window[..])[w + e..]
    {
      forall i | 0 <= i < e {
        window[w + i] := window[d + i];
      }
    }

    method CopySlow(d0: nat, w0: nat, e0: nat, ghost dist: nat)
      requires Valid() && Win(w0) && w0 < WSIZE && 1 <= dist <= WSIZE && d0 == Slot(w0, dist)
      requires 1 <= e0 && w0 + e0 <= WSIZE && d0 + e0 <= WSIZE
      modifies window
      ensures Valid() && Win(w0 + e0) && Out(w0 + e0) == CopyMatch(old(Out(w0)), dist, e0)
    {
      hide CopyMatch, Remembers, Produced, History, Crc32.GoodTable, Crc32.Crc;
      var d, w, e := d0, w0, e0;
      while e > 0
        invariant 0 <= e <= e0 && w == w0 + e0 - e && d == d0 + e0 - e
        invariant Valid() && Win(w)
        invariant CopyMatch(Out(w), dist, e) == CopyMatch(old(Out(w0)), dist, e0)
      {
        ghost var win := window[..];
        SlotAdvances(w0, dist, e0, e0 - e);
        HistorySlot(win, output, w, dist);
        PutCell(win, output, w, win[d]);
        CopyFirst(Out(w), dist, e);
        window[w] := window[d];
        assert window[..] == win[w := win[d]];
        w, d, e := w + 1, d + 1, e - 1;
      }
      CopyNone(Out(w), dist);
    }

    /** The copy loop: n bytes from dist back, in runs that stop where either end of the window is met. */
    method CopyBytes(w0: nat, n0: nat, dist: nat) returns (ok: bool, w: nat)
      requires Valid() && Win(w0) && w0 < WSIZE && 1 <= dist <= WSIZE && 1 <= n0
      modifies this`output, this`bytesOut, this`crc, this`outcnt, window
      ensures ok ==> Valid() && Win(w) && w < WSIZE && Out(w) == CopyMatch(old(Out(w0)), dist, n0)
      ensures !ok ==> |old(Out(w0))| + n0 > limit
    {
      hide CopyMatch, Remembers, Produced;
      w := w0;
      var n, d := n0, (w0 - dist) % 0x1_0000_0000;
      SlotStart(w0, dist);
      while n > 0
        invariant Valid() && Win(w) && w < WSIZE && 0 <= n <= n0
        invariant n > 0 ==> d >= 0 && d % WSIZE == Slot(w, dist)
        invariant CopyMatch(Out(w), dist, n) == CopyMatch(old(Out(w0)), dist, n0)
        decreases n
      {
        d := d % WSIZE;
        var e := WSIZE - (if d > w then d else w);
        e := if e > n then n else e;
        n := n - e;
        CopySplit(Out(w), dist, e, n);
        SlotWraps(w, dist, e);
        CopyRun(d, w, e, dist);
        w, d := w + e, d + e;
        ok, w := FlushIfFull(w);
        if !ok {
          return;
        }
      }
      CopyNone(Out(w), dist);
      ok := true;
    }

    // ---- Decoding symbols ----

    /** Fetch bits and walk the tables to an entry. The entry's own bits are not dumped yet. */
    method NextEntry(ghost lens: seq<nat>, ghost al: Alphabet, ts: seq<seq<Huft>>, l: nat, b0: nat, k0: nat,
                     ghost pl: Plan, ghost info: seq<Place>)
      returns (st: Status, en: Huft, b: nat, k: nat)
      requires Held(b0, k0) && Usable(lens, al, ts, l, pl, info)
      modifies this`inptr
      ensures inptr <= |input| && (st.Ok? || st.Starved? || st.Wild?)
      ensures st.Ok? ==> Held(b, k) && en.b <= k
      ensures st.Ok? ==> EndsRight(lens, al, input, old(Pos(k0)), Decode(lens, input, old(Pos(k0))), en, Pos(k))
      ensures st.Starved? ==> old(Pos(k0)) + 16 > 8 * |input|
      ensures st.Wild? ==> MaxLen(lens) == 0
    {
      hide Shl, Shr, Mask, Pow2, Peek, PeekCode, Complete, Ready, PlanFor, Walk;
      ghost var pos := Pos(k0);
      en := Huft(0, 0, Junk);
      b, k := b0, k0;
      UsableStart(lens, al, ts, l, pl, info, input, pos);
      if |ts| == 0 {
        st := Wild;
        return;
      }
      var q, n := 0, l;
      while true
        invariant Held(b, k) && 0 <= q < |ts| == |info| && AtTable(pl, info, input, pos, q)
        invariant 0 <= n == Used(pl, info[q]) && info[q].w + n <= 16
        invariant Pos(k) == pos + info[q].w && Walk(ts, q, n, input, Pos(k)) == Walk(ts, 0, l, input, pos)
        decreases |ts| - q
      {
        var ok;
        ok, b, k := NeedBits(b, k, n);
        if !ok {
          st := Starved;
          return;
        }
        PeekTake(input, Pos(k), n, k);
        StepByFlag(pl, ts, info, input, pos, q, n);
        en := ts[q][Mask(b, n)];
        if en.e <= 16 || en.e == 99 {
          st := Ok;
          return;
        }
        var _, b', k' := TakeBits(b, k, en.b);
        q, n, b, k := en.v.t, en.e - 16, b', k';
      }
      assert false;
    }

    /** Everything is in step: the bits held, the window, the flushed output. */
    ghost predicate Sync(b: nat, k: nat, w: nat)
      reads this`inptr, this`output, this`bytesOut, this`crc, window
    {
      Valid() && Held(b, k) && Win(w) && w < WSIZE == window.Length
    }

    /** A match: the extra bits of its length, the distance code and its extra bits, and the copy. */
    method DoMatch(ghost ll: seq<nat>, ghost dl: seq<nat>, td: seq<seq<Huft>>, bd: nat, ghost pl: Plan, ghost info: seq<Place>,
                   b0: nat, k0: nat, w0: nat, e: nat, base: nat)
      returns (st: Status, b: nat, k: nat, w: nat)
      requires Sync(b0, k0, w0) && Usable(dl, DISTANCES, td, bd, pl, info) && |dl| <= 30 && e <= 5 && base >= 1
      modifies this`inptr, this`output, this`bytesOut, this`crc, this`outcnt, window
      ensures st.Ok? ==> Sync(b, k, w) && old(Pos(k0)) < Pos(k)
      ensures st.Ok? ==> old(Pos(k0)) + e <= 8 * |input|
      ensures st.Ok? ==> Match(ll, dl, input, old(Pos(k0)) + e, old(Out(w0)), base + Peek(input, old(Pos(k0)), e))
                         == Codes(ll, dl, input, Pos(k), Out(w))
      ensures !st.Ok? ==>
                Explains(st, if old(Pos(k0)) + e > 8 * |input| then Truncated
                             else Match(ll, dl, input, old(Pos(k0)) + e, old(Out(w0)), base + Peek(input, old(Pos(k0)), e)), input, limit)
    {
      hide Valid, Win, Out, Shl, Shr, Mask, Pow2, Peek, Decode, Usable, EndsRight, Match, Codes, LITERALS, DISTANCES;
      ghost var pos, out := Pos(k0), Out(w0);
      w := w0;
      var ok, extra;
      ok, extra, b, k := GetBits(b0, k0, e);
      if !ok {
        st := Starved;
        return;
      }
      var n := base + extra;
      var en;
      st, en, b, k := NextEntry(dl, DISTANCES, td, bd, b, k, pl, info);
      if !st.Ok? {
        MatchStops(ll, dl, td, bd, pl, info, input, pos + e, out, n, st, limit);
        return;
      }
      ghost var p := Pos(k);
      UsableParts(dl, DISTANCES, td, bd, pl, info);
      DistanceCase(ll, dl, input, pos + e, out, n, en, p);
      if en.e == 99 {
        st := Err(1);
        return;
      }
      if !en.v.Num? {
        st := Wild;
        return;
      }
      EntryBits(dl, DISTANCES, input, pos + e, en, p);
      st, b, k, w := CopyFrom(b, k, w, n, en);
    }

    /** The extra bits of the distance, and the copy from there. */
    method CopyFrom(b0: nat, k0: nat, w0: nat, n: nat, en: Huft) returns (st: Status, b: nat, k: nat, w: nat)
      requires Sync(b0, k0, w0) && en.v.Num? && en.b <= k0 && en.e <= 16 && 1 <= n && 1 <= en.v.n
      requires en.v.n + Pow2(en.e) <= WSIZE + 1
      modifies this`inptr, this`output, this`bytesOut, this`crc, this`outcnt, window
      ensures st.Ok? ==> Sync(b, k, w) && Pos(k) == old(Pos(k0)) + en.b + en.e <= 8 * |input|
      ensures st.Ok? ==> Out(w) == CopyMatch(old(Out(w0)), en.v.n + Peek(input, old(Pos(k0)) + en.b, en.e), n)
      ensures !st.Ok? ==> || (st.Starved? && old(Pos(k0)) + en.b + en.e > 8 * |input|)
                          || (st.Overrun? && |old(Out(w0))| + n > limit && old(Pos(k0)) + en.b + en.e <= 8 * |input|)
    {
      hide Valid, Win, Out, Peek, CopyMatch, Pow2;
      w := w0;
      var v, ok, extra;
      v, b, k := TakeBits(b0, k0, en.b);
      ok, extra, b, k := GetBits(b, k, en.e);
      if !ok {
        st := Starved;
        return;
      }
      ok, w := CopyBytes(w, n, en.v.n + extra);
      st := if ok then Ok else Overrun;
    }

    /** inflate_codes: decode literals and matches up to the end-of-block code. */
    method InflateCodes(ghost ll: seq<nat>, ghost dl: seq<nat>, tl: seq<seq<Huft>>, td: seq<seq<Huft>>, bl: nat, bd: nat,
                        ghost lp: Plan, ghost li: seq<Place>, ghost dp: Plan, ghost di: seq<Place>)
      returns (st: Status)
      requires Sync(bb, bk, outcnt)
      requires Usable(ll, LITERALS, tl, bl, lp, li) && |ll| <= 288 && Usable(dl, DISTANCES, td, bd, dp, di) && |dl| <= 30
      modifies this, window
      ensures st.Ok? ==> Sync(bb, bk, outcnt)
      ensures st.Ok? ==> Codes(ll, dl, input, old(Pos(bk)), old(Out(outcnt))) == Done(Pos(bk), Out(outcnt))
      ensures !st.Ok? ==> Explains(st, Codes(ll, dl, input, old(Pos(bk)), old(Out(outcnt))), input, limit)
    {
      hide Valid, Win, Out, Peek, Pow2, Decode, Usable, EndsRight, Match, Codes, LITERALS, DISTANCES, Accepted, Covers;
      var b, k, w := bb, bk, outcnt;
      ghost var goal := Codes(ll, dl, input, Pos(k), Out(w));
      UsableParts(ll, LITERALS, tl, bl, lp, li);
      while true
        invariant Sync(b, k, w) && goal == Codes(ll, dl, input, Pos(k), Out(w))
        decreases 8 * |input| - Pos(k)
      {
        ghost var pos, out := Pos(k), Out(w);
        var en;
        st, en, b, k := NextEntry(ll, LITERALS, tl, bl, b, k, lp, li);
        if !st.Ok? {
          CodesStop(ll, dl, tl, bl, lp, li, input, pos, out, st, limit);
          return;
        }
        ghost var p := Pos(k);
        LiteralCase(ll, dl, input, pos, out, en, p);
        if en.e == 99 {
          st := Err(1);
          return;
        }
        if !en.v.Num? {
          st := Wild;
          return;
        }
        EntryBits(ll, LITERALS, input, pos, en, p);
        var _, b', k' := TakeBits(b, k, en.b);
        b, k := b', k';
        if en.e == 16 {
          var ok;
          ok, w := PutByte(w, en.v.n);
          if !ok {
            st := Overrun;
            return;
          }
        } else if en.e == 15 {
          break;
        } else {
          st, b, k, w := DoMatch(ll, dl, td, bd, dp, di, b, k, w, en.e, en.v.n);
          if !st.Ok? {
            return;
          }
        }
      }
      outcnt, bb, bk := w, b, k;
    }

    /** inflate_stored: a block of bytes, byte aligned, after their count and its complement. */
    method InflateStored() returns (st: Status)
      requires Sync(bb, bk, outcnt)
      modifies this, window
      ensures st.Ok? ==> Sync(bb, bk, outcnt) && Stored(input, old(Pos(bk)), old(Out(outcnt))) == Done(Pos(bk), Out(outcnt))
      ensures !st.Ok? ==> Explains(st, Stored(input, old(Pos(bk)), old(Out(outcnt))), input, limit)
    {
      hide Valid, Win, Out, Shl, Shr, Mask, Pow2, Peek, RoundUp8, Stored;
      var b, k := ToByte(bb, bk);
      ghost var q := inptr - k / 8;
      StoredAt(input, Pos(bk), Out(outcnt), q);
      var ok, n, m, w;
      ok, n, m, b, k := StoredHeader(b, k);
      if !ok {
        return Starved;
      }
      if n + m != 0xffff {
        return Err(1);
      }
      st, b, k, w := StoredBytes(b, k, outcnt, n, q + 4);
      outcnt, bb, bk := w, b, k;
    }

    method StoredHeader(b0: nat, k0: nat) returns (ok: bool, n: nat, m: nat, b: nat, k: nat)
      requires Held(b0, k0)
      modifies this`inptr
      ensures inptr <= |input|
      ensures ok ==> Held(b, k) && Pos(k) == old(Pos(k0)) + 32 <= 8 * |input|
      ensures ok ==> n == Peek(input, old(Pos(k0)), 16) && m == Peek(input, old(Pos(k0)) + 16, 16)
      ensures !ok ==> old(Pos(k0)) + 32 > 8 * |input|
    {
      hide Peek;
      m := 0;
      ok, n, b, k := GetBits(b0, k0, 16);
      if ok {
        ok, m, b, k := GetBits(b, k, 16);
      }
    }

    /** Drop the bits up to the next byte. */
    method ToByte(b0: nat, k0: nat) returns (b: nat, k: nat)
      requires Held(b0, k0)
      ensures Held(b, k) && k % 8 == 0 && 8 * (inptr - k / 8) == Pos(k) == RoundUp8(Pos(k0))
    {
      hide Peek, RoundUp8;
      var v;
      v, b, k := TakeBits(b0, k0, k0 % 8);
      RoundsTo(Pos(k0), inptr - k / 8);
    }

    /** Read and output n bytes. */
    method StoredBytes(b0: nat, k0: nat, w0: nat, n: nat, ghost from: nat) returns (st: Status, b: nat, k: nat, w: nat)
      requires Sync(b0, k0, w0) && Pos(k0) == 8 * from
      modifies this`inptr, this`output, this`bytesOut, this`crc, this`outcnt, window
      ensures st.Ok? ==> Sync(b, k, w) && Pos(k) == 8 * (from + n) && from + n <= |input| && Out(w) == old(Out(w0)) + input[from..from + n]
      ensures !st.Ok? ==> (st.Starved? && from + n > |input|) || (st.Overrun? && |old(Out(w0))| + n > limit)
    {
      hide Valid, Win, Out, Shl, Shr, Mask, Pow2, Peek;
      b, k, w := b0, k0, w0;
      var i := 0;
      while i < n
        invariant 0 <= i <= n && Sync(b, k, w) && Pos(k) == 8 * (from + i)
        invariant from + i <= |input| && Out(w) == old(Out(w0)) + input[from..from + i]
      {
        var ok, x;
        ok, x, b, k := GetBits(b, k, 8);
        if !ok {
          st := Starved;
          return;
        }
        PeekByte(input, from + i);
        ok, w := PutByte(w, x);
        if !ok {
          st := Overrun;
          return;
        }
        assert input[from..from + i] + [input[from + i]] == input[from..from + i + 1];
        i := i + 1;
      }
      st := Ok;
    }

    /** inflate_fixed: build the fixed tables and decode with them. */
    method InflateFixed() returns (st: Status)
      requires Sync(bb, bk, outcnt)
      modifies this, window
      ensures st.Ok? ==> Sync(bb, bk, outcnt)
      ensures st.Ok? ==> Codes(FixedLiteral(), FixedDistance(), input, old(Pos(bk)), old(Out(outcnt))) == Done(Pos(bk), Out(outcnt))
      ensures !st.Ok? ==> Explains(st, Codes(FixedLiteral(), FixedDistance(), input, old(Pos(bk)), old(Out(outcnt))), input, limit)
    {
      hide Sync, Out, Codes, Usable, Complete, Ready, PlanFor, SetStatus, Accepted, FixedLiteral, FixedDistance, LITERALS, DISTANCES, Covers, MaxLen;
      FixedSets();
      var lens := FixedLengths();
      var r, tl, bl, lp, li := Build(lens, LITERALS, 7);
      if r != 0 {
        return Err(r);
      }
      FixedUsable(tl, bl, lp, li, FixedLiteral(), LITERALS, 7);
      var dist := FixedDistances();
      var r', td, bd, dp, di := Build(dist, DISTANCES, 5);
      if r' > 1 {
        return Err(r');
      }
      FixedUsable(td, bd, dp, di, FixedDistance(), DISTANCES, 5);
      st := InflateCodes(FixedLiteral(), FixedDistance(), tl, td, bl, bd, lp, li, dp, di);
    }

    /** The lengths of the code length code: nb of them in the sent order, the others zero. */
    method ReadCodeLengthLens(b0: nat, k0: nat, nb: nat) returns (ok: bool, cl: seq<nat>, b: nat, k: nat)
      requires Held(b0, k0) && nb <= 19
      modifies this`inptr
      ensures inptr <= |input|
      ensures ok ==> Held(b, k) && Pos(k) == old(Pos(k0)) + 3 * nb && cl == CodeLengthLens(input, old(Pos(k0)), nb)
      ensures !ok ==> old(Pos(k0)) + 3 * nb > 8 * |input|
    {
      hide Peek, Pow2, CodeLengthLens, ORDER;
      OrderPermutes();
      ghost var pos := Pos(k0);
      b, k, cl := b0, k0, [];
      var ll := new nat[19];
      var j := 0;
      while j < nb
        invariant 0 <= j <= nb && Held(b, k) && Pos(k) == pos + 3 * j
        invariant forall i :: 0 <= i < j ==> ll[ORDER[i]] == Peek(input, pos + 3 * i, 3)
      {
        var v;
        ok, v, b, k := GetBits(b, k, 3);
        if !ok {
          return;
        }
        ll[ORDER[j]] := v;
        j := j + 1;
      }
      ClearRest(ll, nb);
      cl := ll[..];
      CodeLengthsAre(input, pos, nb, cl);
      ok := true;
    }

    /** One lookup in the single-level table of the code length code. */
    method LengthEntry(ghost cl: seq<nat>, tl: seq<seq<Huft>>, bl: nat, b0: nat, k0: nat, ghost pl: Plan, ghost info: seq<Place>)
      returns (st: Status, en: Huft, b: nat, k: nat)
      requires Held(b0, k0) && Usable(cl, CODELENS, tl, bl, pl, info) && MaxLen(cl) <= bl
      modifies this`inptr
      ensures inptr <= |input| && (st.Ok? || st.Starved? || st.Wild?)
      ensures st.Ok? ==> Held(b, k) && en.b <= k
      ensures st.Ok? ==> EndsRight(cl, CODELENS, input, old(Pos(k0)), Decode(cl, input, old(Pos(k0))), en, Pos(k))
      ensures st.Starved? ==> old(Pos(k0)) + 16 > 8 * |input|
      ensures st.Wild? ==> MaxLen(cl) == 0
    {
      hide Shl, Shr, Mask, Pow2, Peek, PeekCode, Usable, EndsRight, Decode;
      ghost var pos := Pos(k0);
      en := Huft(0, 0, Junk);
      b, k := b0, k0;
      UsableStart(cl, CODELENS, tl, bl, pl, info, input, pos);
      if |tl| == 0 {
        st := Wild;
        return;
      }
      var ok;
      ok, b, k := NeedBits(b, k, bl);
      if !ok {
        st := Starved;
        return;
      }
      PeekTake(input, Pos(k), bl, k);
      SingleLevel(cl, CODELENS, tl, bl, pl, info, input, pos);
      en := tl[0][Mask(b, bl)];
      st := Ok;
    }

    /** The literal/length and distance code lengths, with their repeat codes. */
    method ReadAllLengths(ghost cl: seq<nat>, tl: seq<seq<Huft>>, bl: nat, n: nat, b0: nat, k0: nat, ghost pl: Plan, ghost info: seq<Place>)
      returns (st: Status, lens: seq<nat>, b: nat, k: nat)
      requires Held(b0, k0) && Usable(cl, CODELENS, tl, bl, pl, info) && MaxLen(cl) <= bl && |cl| == 19
      modifies this`inptr
      ensures inptr <= |input|
      ensures st.Ok? ==> Held(b, k) && ReadLengths(cl, n, input, old(Pos(k0)), []) == Lengths(Pos(k), lens)
      ensures !st.Ok? ==> LengthsFail(st, ReadLengths(cl, n, input, old(Pos(k0)), []), input)
    {
      hide Shl, Shr, Mask, Pow2, Peek, Usable, EndsRight, Decode, ReadLengths, AfterSymbol, CODELENS;
      b, k, lens := b0, k0, [];
      ghost var goal := ReadLengths(cl, n, input, Pos(k), []);
      UsableParts(cl, CODELENS, tl, bl, pl, info);
      var l := 0;
      while |lens| < n
        invariant Held(b, k) && |lens| <= n && l == LastOr0(lens)
        invariant goal == ReadLengths(cl, n, input, Pos(k), lens)
        decreases n - |lens|
      {
        ghost var pos := Pos(k);
        var en, more;
        st, en, b, k := LengthEntry(cl, tl, bl, b, k, pl, info);
        if !st.Ok? {
          LengthsStop(cl, tl, bl, pl, info, n, input, pos, lens, st);
          return;
        }
        LengthCase(cl, n, input, pos, lens, en, Pos(k));
        if !en.v.Num? {
          st := Wild;
          return;
        }
        EntryBits(cl, CODELENS, input, pos, en, Pos(k));
        var v;
        v, b, k := TakeBits(b, k, en.b);
        st, more, b, k := LengthRun(cl, n, lens, en.v.n, l, b, k);
        if !st.Ok? {
          return;
        }
        lens := lens + more;
        l := LastOr0(lens);
      }
      ReadAll(cl, n, input, Pos(k), lens);
      st := Ok;
    }

    /** What one symbol of the code length code adds: itself, or a run of a repeated length. */
    method LengthRun(ghost cl: seq<nat>, n: nat, lens: seq<nat>, j: nat, l: nat, b0: nat, k0: nat)
      returns (st: Status, more: seq<nat>, b: nat, k: nat)
      requires Held(b0, k0) && |cl| == 19 && |lens| < n && j < 19 && l == LastOr0(lens)
      modifies this`inptr
      ensures inptr <= |input|
      ensures st.Ok? ==> Held(b, k) && 0 < |more| <= n - |lens|
      ensures st.Ok? ==> AfterSymbol(cl, n, input, old(Pos(k0)), lens, j) == ReadLengths(cl, n, input, Pos(k), lens + more)
      ensures !st.Ok? ==> LengthsFail(st, AfterSymbol(cl, n, input, old(Pos(k0)), lens, j), input)
    {
      hide Shl, Shr, Mask, Pow2, Peek, ReadLengths;
      b, k, more := b0, k0, [];
      if j < 16 {
        st, more := Ok, [j];
      } else {
        var bits := if j == 16 then 2 else if j == 17 then 3 else 7;
        var ok, v;
        ok, v, b, k := GetBits(b, k, bits);
        if !ok {
          st := Starved;
          return;
        }
        var times := (if j == 18 then 11 else 3) + v;
        if |lens| + times > n {
          st := Err(1);
          return;
        }
        st, more := Ok, Repeat(times, if j == 16 then l else 0);
      }
    }

    /** inflate_dynamic: read the code lengths, build both tables, decode with them. */
    method InflateDynamic() returns (st: Status)
      requires Sync(bb, bk, outcnt)
      modifies this, window
      ensures st.Ok? ==> Sync(bb, bk, outcnt) && Dynamic(input, old(Pos(bk)), old(Out(outcnt))) == Done(Pos(bk), Out(outcnt))
      ensures !st.Ok? ==> Explains(st, Dynamic(input, old(Pos(bk)), old(Out(outcnt))), input, limit)
    {
      hide Valid, Win, Out, DeflateSpec.ReadSets, WithSets, LengthsFit;
      var b, k, ll, dl;
      st, ll, dl, b, k := ReadSets(bb, bk);
      if !st.Ok? {
        return;
      }
      bb, bk := b, k;
      st := DecodeWith(ll, dl);
    }

    /** The header of a dynamic block and the code lengths it announces. */
    method ReadSets(b0: nat, k0: nat) returns (st: Status, ll: seq<nat>, dl: seq<nat>, b: nat, k: nat)
      requires Held(b0, k0)
      modifies this`inptr
      ensures inptr <= |input|
      ensures st.Ok? ==> Held(b, k) && DeflateSpec.ReadSets(input, old(Pos(k0))) == Sets(Pos(k), ll, dl)
      ensures !st.Ok? ==> SetsFail(st, DeflateSpec.ReadSets(input, old(Pos(k0))), input)
    {
      hide Peek, Pow2, ReadLengths, SetStatus, CodeLengthLens, LengthsFit;
      ll, dl := [], [];
      var ok, nl, nd, nb, cl, lens;
      ok, nl, nd, nb, b, k := DynamicHeader(b0, k0);
      if !ok {
        st := Starved;
        return;
      }
      if nl > 286 || nd > 30 {
        st := Err(1);
        return;
      }
      ok, cl, b, k := ReadCodeLengthLens(b, k, nb);
      if !ok {
        st := Starved;
        return;
      }
      st, lens, b, k := ReadWithCode(cl, nl + nd, b, k);
      if st.Ok? {
        ll, dl := lens[..nl], lens[nl..];
      }
    }

    method DynamicHeader(b0: nat, k0: nat) returns (ok: bool, nl: nat, nd: nat, nb: nat, b: nat, k: nat)
      requires Held(b0, k0)
      modifies this`inptr
      ensures inptr <= |input|
      ensures ok ==> Held(b, k) && Pos(k) == old(Pos(k0)) + 14
      ensures ok ==> nl == 257 + Peek(input, old(Pos(k0)), 5) && nd == 1 + Peek(input, old(Pos(k0)) + 5, 5)
      ensures ok ==> nb == 4 + Peek(input, old(Pos(k0)) + 10, 4) <= 19
      ensures !ok ==> old(Pos(k0)) + 14 > 8 * |input|
    {
      hide Pow2, Peek;
      Pow2Table();
      ghost var pos := Pos(k0);
      nl, nd, nb := 0, 0, 0;
      ok, nl, b, k := GetBits(b0, k0, 5);
      if !ok {
        return;
      }
      ok, nd, b, k := GetBits(b, k, 5);
      if !ok {
        return;
      }
      ok, nb, b, k := GetBits(b, k, 4);
      nl, nd, nb := 257 + nl, 1 + nd, 4 + nb;
    }

    /** Build the table of the code length code, and read n lengths with it. */
    method ReadWithCode(cl: seq<nat>, n: nat, b0: nat, k0: nat) returns (st: Status, lens: seq<nat>, b: nat, k: nat)
      requires Held(b0, k0) && |cl| == 19 && forall i :: 0 <= i < 19 ==> cl[i] <= 7
      modifies this`inptr
      ensures inptr <= |input|
      ensures st.Ok? ==> Held(b, k) && SetStatus(cl) == 0 && ReadLengths(cl, n, input, old(Pos(k0)), []) == Lengths(Pos(k), lens)
      ensures !st.Ok? ==> if SetStatus(cl) != 0 then st == Err(SetStatus(cl))
                          else LengthsFail(st, ReadLengths(cl, n, input, old(Pos(k0)), []), input)
    {
      hide Shl, Shr, Mask, Pow2, Peek, Usable, ReadLengths, SetStatus, Complete, Ready, PlanFor;
      lens, b, k := [], b0, k0;
      AlphabetsCover();
      var r, tl, bl, pl, info := Build(cl, CODELENS, 7);
      if r != 0 {
        st := Err(r);
        return;
      }
      CodeLengthTable(cl, tl, bl, pl, info);
      st, lens, b, k := ReadAllLengths(cl, tl, bl, n, b, k, pl, info);
    }

    /** Build the tables for lengths ll and dl, and decode a block with them. */
    method DecodeWith(ll: seq<nat>, dl: seq<nat>) returns (st: Status)
      requires Sync(bb, bk, outcnt)
      requires 257 <= |ll| <= 286 && 1 <= |dl| <= 30
      requires LengthsFit(ll) && LengthsFit(dl)
      modifies this, window
      ensures st.Ok? ==> Sync(bb, bk, outcnt) && WithSets(ll, dl, input, old(Pos(bk)), old(Out(outcnt))) == Done(Pos(bk), Out(outcnt))
      ensures !st.Ok? ==> Explains(st, WithSets(ll, dl, input, old(Pos(bk)), old(Out(outcnt))), input, limit)
    {
      hide Sync, Shl, Shr, Mask, Pow2, Peek, Usable, Codes, SetStatus, Complete, Ready, PlanFor;
      AlphabetsCover();
      var r, tl, bl, lp, li := Build(ll, LITERALS, 9);
      if r != 0 {
        return Err(r);
      }
      SetTable(ll, LITERALS, 9, tl, bl, lp, li);
      var r', td, bd, dp, di := Build(dl, DISTANCES, 6);
      if r' != 0 {
        return Err(r');
      }
      SetTable(dl, DISTANCES, 6, td, bd, dp, di);
      st := InflateCodes(ll, dl, tl, td, bl, bd, lp, li, dp, di);
    }

    /** inflate_block: one block and its final flag. */
    method InflateBlock() returns (st: Status, e: nat)
      requires Sync(bb, bk, outcnt)
      modifies this, window
      ensures st.Ok? ==> Sync(bb, bk, outcnt) && old(Pos(bk)) + 3 <= 8 * |input| && e == Peek(input, old(Pos(bk)), 1)
      ensures st.Ok? ==> Block(input, old(Pos(bk)), old(Out(outcnt))) == Done(Pos(bk), Out(outcnt))
      ensures !st.Ok? ==> if old(Pos(bk)) + 3 > 8 * |input| then st.Starved?
                          else Explains(st, Block(input, old(Pos(bk)), old(Out(outcnt))), input, limit)
    {
      hide Valid, Win, Out, Shl, Shr, Mask, Pow2, Peek, Codes, Stored, Dynamic;
      Pow2Table();
      var b, k := bb, bk;
      var ok, t;
      ok, e, b, k := GetBits(b, k, 1);
      if !ok {
        st := Starved;
        return;
      }
      ok, t, b, k := GetBits(b, k, 2);
      if !ok {
        st := Starved;
        return;
      }
      bb, bk := b, k;
      if t == 2 {
        st := InflateDynamic();
      } else if t == 0 {
        st := InflateStored();
      } else if t == 1 {
        st := InflateFixed();
      } else {
        st := Err(2);
      }
    }

    /** inflate: all blocks; then give back whole unused bytes and flush what is left in the window. */
    method Run() returns (st: Status)
      requires Valid() && inptr == 0 && output == [] && Win(0)
      modifies this, window
      ensures st.Ok? ==> Valid() && inptr <= |input| && DeflateSpec.Inflate(input, 0, []).Done?
      ensures st.Ok? ==> output == DeflateSpec.Inflate(input, 0, []).out
      ensures st.Ok? ==> 8 * inptr == RoundUp8(DeflateSpec.Inflate(input, 0, []).pos)
      ensures !st.Ok? ==> Explains(st, DeflateSpec.Inflate(input, 0, []), input, limit)
    {
      hide Remembers, Crc32.GoodTable, Crc32.Crc, DeflateSpec.Inflate;
      outcnt, bk, bb := 0, 0, 0;
      assert Out(0) == [];
      EmptyHeld();
      st := RunBlocks();
      if !st.Ok? {
        return;
      }
      assert Out(outcnt) == Produced(window[..], output, outcnt);
      GiveBack();
      var ok := Flush(outcnt);
      st := if ok then Ok else Overrun;
    }

    lemma EmptyHeld()
      requires inptr == 0
      ensures Held(0, 0)
    {
    }

    method RunBlocks() returns (st: Status)
      requires Sync(bb, bk, outcnt)
      modifies this, window
      ensures st.Ok? ==> Sync(bb, bk, outcnt)
      ensures st.Ok? ==> DeflateSpec.Inflate(input, old(Pos(bk)), old(Out(outcnt))) == Done(Pos(bk), Out(outcnt))
      ensures !st.Ok? ==> Explains(st, DeflateSpec.Inflate(input, old(Pos(bk)), old(Out(outcnt))), input, limit)
    {
      hide Valid, Win, Out, Peek, Block;
      ghost var goal := DeflateSpec.Inflate(input, Pos(bk), Out(outcnt));
      var e := 0;
      while e == 0
        invariant Sync(bb, bk, outcnt)
        invariant goal == if e == 0 then DeflateSpec.Inflate(input, Pos(bk), Out(outcnt)) else Done(Pos(bk), Out(outcnt))
        decreases e == 0, 8 * |input| - Pos(bk)
      {
        st, e := InflateBlock();
        if !st.Ok? {
          return;
        }
      }
      st := Ok;
    }

    /** Whole bytes still in the bit buffer go back to the input. */
    method GiveBack()
      requires Held(bb, bk)
      modifies this`bk, this`inptr
      ensures inptr <= |input| && 8 * inptr == RoundUp8(old(Pos(bk)))
    {
      hide Peek;
      ghost var pos := Pos(bk);
      while bk >= 8
        invariant bk <= 8 * inptr && inptr <= |input| && 8 * inptr - bk == pos
      {
        bk := bk - 8;
        inptr := inptr - 1;
      }
      RoundsTo(pos, inptr);
    }
  }
}
