/**
 The circular output window of memdisk/inflate.c as sequences of bytes: what its cells hold, and
 what block copies inside it do to the output.
 */
module Window {
  import opened Widths
  import opened DeflateSpec

  const WSIZE := 0x8000

  /** Cells from w on still hold the output of the previous round (or zeros before any output). */
  ghost predicate Remembers(win: seq<Byte>, output: seq<Byte>, w: nat) {
    |win| == WSIZE && w <= WSIZE && forall i :: w <= i < WSIZE ==> win[i] == History(output, WSIZE - i)
  }

  /** The cell dist back from w, going round the end. */
  function Slot(w: nat, dist: nat): nat
    requires w < WSIZE && 1 <= dist <= WSIZE
  {
    if dist <= w then w - dist else w + WSIZE - dist
  }

  /** Flushed output followed by the filled part of the window is the output so far. */
  function Produced(win: seq<Byte>, output: seq<Byte>, w: nat): seq<Byte>
    requires w <= |win|
  {
    output + win[..w]
  }

  /** The window gives back any of the last 32768 bytes. */
  lemma HistorySlot(win: seq<Byte>, output: seq<Byte>, w: nat, dist: nat)
    requires Remembers(win, output, w) && w < WSIZE && 1 <= dist <= WSIZE
    ensures History(Produced(win, output, w), dist) == win[Slot(w, dist)]
  {
  }

  /** Writing the next cell extends the output by one byte. */
  lemma PutCell(win: seq<Byte>, output: seq<Byte>, w: nat, x: Byte)
    requires Remembers(win, output, w) && w < WSIZE
    ensures Remembers(win[w := x], output, w + 1)
    ensures Produced(win[w := x], output, w + 1) == Produced(win, output, w) + [x]
  {
  }

  /** A full window that has been flushed is the history for the next round. */
  lemma FlushFull(win: seq<Byte>, output: seq<Byte>)
    requires |win| == WSIZE
    ensures Remembers(win, output + win, 0) && Produced(win, output + win, 0) == Produced(win, output, WSIZE)
  {
    assert win[..WSIZE] == win;
  }

  /** Copying e cells as a block, where no cell is read after it is written, is copying byte by byte. */
  lemma {:induction false} BlockCopy(win: seq<Byte>, output: seq<Byte>, w: nat, dist: nat, e: nat)
    requires Remembers(win, output, w) && w < WSIZE && 1 <= dist <= WSIZE
    requires w + e <= WSIZE && Slot(w, dist) + e <= WSIZE
    requires Slot(w, dist) + e <= w || Slot(w, dist) > w
    ensures CopyMatch(Produced(win, output, w), dist, e) == Produced(win, output, w) + win[Slot(w, dist)..Slot(w, dist) + e]
    decreases e
  {
    hide History;
    var d := Slot(w, dist);
    if e > 0 {
      HistorySlot(win, output, w, dist);
      PutCell(win, output, w, win[d]);
      var win' := win[w := win[d]];
      var out' := Produced(win', output, w + 1);
      assert CopyMatch(Produced(win, output, w), dist, e) == CopyMatch(out', dist, e - 1);
      if e > 1 {
        BlockCopy(win', output, w + 1, dist, e - 1);
        assert Slot(w + 1, dist) == d + 1;
        assert win'[d + 1..d + e] == win[d + 1..d + e];
      }
      assert win[d..d + e] == [win[d]] + win[d + 1..d + e];
    }
  }

  /** Cells w..w+e replaced by bytes s. */
  lemma BlockPut(win: seq<Byte>, win': seq<Byte>, output: seq<Byte>, w: nat, s: seq<Byte>)
    requires Remembers(win, output, w) && w + |s| <= WSIZE && win' == win[..w] + s + win[w + |s|..]
    ensures Remembers(win', output, w + |s|)
    ensures Produced(win', output, w + |s|) == Produced(win, output, w) + s
  {
    assert win'[..w + |s|] == win[..w] + s;
  }
}
