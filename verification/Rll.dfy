/**
 The run-length packer and unpacker (core/rllpack.c). Packed data is written downwards in memory; here
 a packed stream is the sequence of its bytes from high to low addresses.
 */
module Rll {
  import opened Widths

  // ---- The format ----

  const MAX_RUN: nat := 8191
  const MAX_VERBATIM: nat := 128

  /** Length of the run at the beginning of s, up to n bytes. */
  function Run(s: seq<Byte>, n: nat): (r: nat)
    requires 1 <= n <= |s|
    ensures 1 <= r <= n && forall k :: 0 <= k < r ==> s[k] == s[0]
    ensures r < n ==> s[r] != s[0]
  {
    if n == 1 then 1
    else
      var r := Run(s, n - 1);
      if r == n - 1 && s[r] == s[0] then n else r
  }

  function RunOf(s: seq<Byte>): (r: nat)
    requires |s| > 0
    ensures 1 <= r <= |s| && r <= MAX_RUN && forall k :: 0 <= k < r ==> s[k] == s[0]
  {
    Run(s, if |s| > MAX_RUN then MAX_RUN else |s|)
  }

  function Verbatim(lit: seq<Byte>): seq<Byte>
    requires |lit| <= MAX_VERBATIM
  {
    if |lit| == 0 then [] else [|lit|] + lit
  }

  function Repeat(run: nat, c: Byte): seq<Byte>
    requires 3 <= run <= MAX_RUN
  {
    if run < 224 - 126 then [run + 126, c] else [224 + run / 256, run % 256, c]
  }

  /** Pack s after the verbatim bytes lit, to which more may be added. */
  function PackFrom(s: seq<Byte>, lit: seq<Byte>): seq<Byte>
    requires |lit| <= MAX_VERBATIM
    decreases |s|
  {
    if |s| == 0 then Verbatim(lit) + [0]
    else
      var run := RunOf(s);
      if run >= 3 then Verbatim(lit) + Repeat(run, s[0]) + PackFrom(s[run..], [])
      else if |lit| == MAX_VERBATIM then Verbatim(lit) + PackFrom(s[1..], [s[0]])
      else PackFrom(s[1..], lit + [s[0]])
  }

  function Pack(s: seq<Byte>): seq<Byte> {
    PackFrom(s, [])
  }

  datatype Unpacked = Truncated | Unpacked(bytes: seq<Byte>, used: nat)

  function Times(n: nat, c: Byte): (r: seq<Byte>)
    ensures |r| == n && forall k :: 0 <= k < n ==> r[k] == c
  {
    seq(n, _ => c)
  }

  function After(bytes: seq<Byte>, n: nat, u: Unpacked): Unpacked {
    if u.Truncated? then u else Unpacked(bytes + u.bytes, n + u.used)
  }

  /** What the format means: the bytes packed, and the length of the stream up to its end mark. */
  function Unpack(z: seq<Byte>): (u: Unpacked)
    ensures u.Unpacked? ==> 0 < u.used <= |z|
  {
    if |z| == 0 then Truncated
    else
      var c := z[0];
      if c == 0 then Unpacked([], 1)
      else if c <= 128 then (if |z| < 1 + c then Truncated else After(z[1..1 + c], 1 + c, Unpack(z[1 + c..])))
      else if c < 224 then (if |z| < 2 then Truncated else After(Times(c - 126, z[1]), 2, Unpack(z[2..])))
      else if |z| < 3 then Truncated
      else After(Times((c as int - 224) * 256 + z[1] as int, z[2]), 3, Unpack(z[3..]))
  }

  // ---- Unpacking undoes packing ----

  lemma UnpackVerbatim(lit: seq<Byte>, z: seq<Byte>)
    requires |lit| <= MAX_VERBATIM
    ensures Unpack(Verbatim(lit) + z) == After(lit, |Verbatim(lit)|, Unpack(z))
  {
    var y := Verbatim(lit) + z;
    if |lit| == 0 {
      assert y == z;
    } else {
      assert y[1..1 + |lit|] == lit && y[1 + |lit|..] == z;
    }
  }

  lemma UnpackRepeat(run: nat, c: Byte, z: seq<Byte>)
    requires 3 <= run <= MAX_RUN
    ensures Unpack(Repeat(run, c) + z) == After(Times(run, c), |Repeat(run, c)|, Unpack(z))
  {
    hide Unpack, Times, After;
    if run < 224 - 126 {
      UnpackShort(run + 126, c, z);
    } else {
      UnpackLong(224 + run / 256, run % 256, c, z);
    }
  }

  lemma UnpackShort(h: Byte, c: Byte, z: seq<Byte>)
    requires 128 < h < 224
    ensures Unpack([h, c] + z) == After(Times(h - 126, c), 2, Unpack(z))
  {
    assert ([h, c] + z)[2..] == z;
  }

  lemma UnpackLong(h: Byte, low: Byte, c: Byte, z: seq<Byte>)
    requires h >= 224
    ensures Unpack([h, low, c] + z) == After(Times((h as int - 224) * 256 + low as int, c), 3, Unpack(z))
  {
    assert ([h, low, c] + z)[3..] == z;
  }

  /** Whatever follows in memory, unpacking stops where packing ended and returns what was packed. */
  lemma {:induction false} RoundTripFrom(s: seq<Byte>, lit: seq<Byte>, z: seq<Byte>)
    requires |lit| <= MAX_VERBATIM
    ensures Unpack(PackFrom(s, lit) + z) == Unpacked(lit + s, |PackFrom(s, lit)|)
    decreases |s|
  {
    hide Unpack, Verbatim, Repeat, RunOf, PackFrom;
    if |s| == 0 {
      PackEnds(lit);
      EndOfData(z);
      UnpackAfter(lit, [0], z, []);
      assert lit + [] == lit + s;
    } else {
      var run := RunOf(s);
      PackNext(s, lit);
      if run >= 3 {
        var y := PackFrom(s[run..], []);
        RoundTripFrom(s[run..], [], z);
        assert [] + s[run..] == s[run..];
        UnpackRun(run, s, y, z);
        UnpackAfter(lit, Repeat(run, s[0]) + y, z, s);
        assert Verbatim(lit) + Repeat(run, s[0]) + y == Verbatim(lit) + (Repeat(run, s[0]) + y);
      } else if |lit| == MAX_VERBATIM {
        RoundTripFrom(s[1..], [s[0]], z);
        assert [s[0]] + s[1..] == s;
        UnpackAfter(lit, PackFrom(s[1..], [s[0]]), z, s);
      } else {
        RoundTripFrom(s[1..], lit + [s[0]], z);
        assert lit + [s[0]] + s[1..] == lit + s;
      }
    }
  }

  lemma PackEnds(lit: seq<Byte>)
    requires |lit| <= MAX_VERBATIM
    ensures PackFrom([], lit) == Verbatim(lit) + [0]
  {
  }

  lemma PackNext(s: seq<Byte>, lit: seq<Byte>)
    requires |lit| <= MAX_VERBATIM && |s| > 0
    ensures var p, run := PackFrom(s, lit), RunOf(s);
            if run >= 3 then p == Verbatim(lit) + Repeat(run, s[0]) + PackFrom(s[run..], [])
            else if |lit| == MAX_VERBATIM then p == Verbatim(lit) + PackFrom(s[1..], [s[0]])
            else p == PackFrom(s[1..], lit + [s[0]])
  {
    hide Verbatim, Repeat, RunOf;
  }

  /** A verbatim block in front of a stream. */
  lemma UnpackAfter(lit: seq<Byte>, y: seq<Byte>, z: seq<Byte>, s: seq<Byte>)
    requires |lit| <= MAX_VERBATIM && Unpack(y + z) == Unpacked(s, |y|)
    ensures Unpack(Verbatim(lit) + y + z) == Unpacked(lit + s, |Verbatim(lit) + y|)
  {
    hide Unpack, Verbatim;
    UnpackVerbatim(lit, y + z);
    assert Verbatim(lit) + y + z == Verbatim(lit) + (y + z);
  }

  /** A run in front of a stream. */
  lemma UnpackRun(run: nat, s: seq<Byte>, y: seq<Byte>, z: seq<Byte>)
    requires 3 <= run <= MAX_RUN && run <= |s| && (forall k :: 0 <= k < run ==> s[k] == s[0])
    requires Unpack(y + z) == Unpacked(s[run..], |y|)
    ensures Unpack(Repeat(run, s[0]) + y + z) == Unpacked(s, |Repeat(run, s[0]) + y|)
  {
    hide Unpack, Repeat;
    UnpackRepeat(run, s[0], y + z);
    assert Repeat(run, s[0]) + y + z == Repeat(run, s[0]) + (y + z);
    assert Times(run, s[0]) + s[run..] == s;
  }

  // ---- What packed streams look like ----

  lemma {:induction false} WholeRun(s: seq<Byte>, n: nat)
    requires 1 <= n <= |s| && forall k :: 0 <= k < n ==> s[k] == s[0]
    ensures Run(s, n) == n
  {
    if n > 1 { WholeRun(s, n - 1); }
  }

  /** A run of up to 97 bytes is two bytes, and one of up to 8191 is three. */
  lemma RunPacked(n: nat, c: Byte)
    requires 3 <= n <= 8191
    ensures Pack(Times(n, c)) == (if n <= 97 then [n + 126, c] else [224 + n / 256, n % 256, c]) + [0]
  {
    var s := Times(n, c);
    WholeRun(s, n);
    hide Run;
    PackNext(s, []);
    PackEnds([]);
    assert s[n..] == [];
    assert [] + Repeat(n, c) + [0] == Repeat(n, c) + [0];
  }

  /** Up to 128 bytes without three equal ones in a row are their number and themselves. */
  lemma VerbatimPacked(s: seq<Byte>)
    requires 1 <= |s| <= 128 && forall k :: 0 <= k < |s| - 2 ==> !(s[k] == s[k + 1] == s[k + 2])
    ensures Pack(s) == [|s|] + s + [0]
  {
    VerbatimFrom(s, []);
    assert [] + s == s;
  }

  lemma {:induction false} VerbatimFrom(s: seq<Byte>, lit: seq<Byte>)
    requires |lit| + |s| <= 128 && forall k :: 0 <= k < |s| - 2 ==> !(s[k] == s[k + 1] == s[k + 2])
    ensures PackFrom(s, lit) == Verbatim(lit + s) + [0]
    decreases |s|
  {
    hide Run, PackFrom, Verbatim;
    if |s| == 0 {
      PackEnds(lit);
      assert lit + s == lit;
    } else {
      PackNext(s, lit);
      ShortRun(s);
      VerbatimFrom(s[1..], lit + [s[0]]);
      assert lit + [s[0]] + s[1..] == lit + s;
    }
  }

  lemma ShortRun(s: seq<Byte>)
    requires |s| > 0 && (|s| >= 3 ==> !(s[0] == s[1] == s[2]))
    ensures RunOf(s) < 3
  {
  }

  lemma EndOfData(z: seq<Byte>)
    ensures Unpack([0] + z) == Unpacked([], 1)
  {
  }

  lemma RoundTrip(s: seq<Byte>, z: seq<Byte>)
    ensures Unpack(Pack(s) + z) == Unpacked(s, |Pack(s)|)
  {
    RoundTripFrom(s, [], z);
    assert [] + s == s;
  }

  // ---- Packed size ----

  /** n bytes pack into at most this many. */
  function Bound(n: nat): nat {
    n + (n + 127) / 128 + 1
  }

  lemma {:induction false} PackedSizeFrom(s: seq<Byte>, lit: seq<Byte>)
    requires |lit| <= MAX_VERBATIM
    ensures |PackFrom(s, lit)| <= Bound(|s| + |lit|)
    decreases |s|
  {
    if |s| > 0 {
      var run := RunOf(s);
      hide RunOf;
      if run >= 3 {
        PackedSizeFrom(s[run..], []);
      } else if |lit| == MAX_VERBATIM {
        PackedSizeFrom(s[1..], [s[0]]);
      } else {
        PackedSizeFrom(s[1..], lit + [s[0]]);
      }
    }
  }

  lemma PackedSize(s: seq<Byte>)
    ensures |Pack(s)| <= Bound(|s|) <= |s| + |s| / 128 + 2
  {
    PackedSizeFrom(s, []);
  }

  // ---- The code ----

  /** A stretch of memory from high to low addresses. */
  function Downwards(s: seq<Byte>): (r: seq<Byte>)
    ensures |r| == |s| && forall k :: 0 <= k < |s| ==> r[k] == s[|s| - 1 - k]
  {
    seq(|s|, k requires 0 <= k < |s| => s[|s| - 1 - k])
  }

  /** The inner loop of rllpack. */
  method CountRun(src: array<Byte>, i: nat, cnt: nat) returns (run: nat)
    requires 0 < cnt && i + cnt <= src.Length
    ensures run == RunOf(src[i..i + cnt])
  {
    var c := src[i];
    run := 1;
    var tcnt := if cnt > MAX_RUN then MAX_RUN else cnt;
    ghost var s := src[i..i + cnt];
    while run < tcnt && src[i + run] == c
      invariant 1 <= run <= tcnt && forall k :: 0 <= k < run ==> s[k] == s[0]
    {
      run := run + 1;
    }
    ghost var r := Run(s, tcnt);
    assert r < tcnt ==> s[r] != s[0];
    assert run < tcnt ==> s[run] != s[0];
  }

  lemma DownwardsUpdate(s: seq<Byte>, k: nat, b: Byte)
    requires k < |s|
    ensures Downwards(s[k := b]) == Downwards(s)[|s| - 1 - k := b]
  {
  }

  /** Write one byte below o. */
  method Put(mem: array<Byte>, o0: nat, b: Byte, ghost top: nat) returns (o: nat)
    requires 0 < o0 <= top <= mem.Length
    modifies mem
    ensures o == o0 - 1 && forall k :: 0 <= k < mem.Length && k != o ==> mem[k] == old(mem[k])
    ensures Downwards(mem[o..top]) == old(Downwards(mem[o0..top])) + [b]
  {
    o := o0 - 1;
    mem[o] := b;
    assert mem[o..top] == [b] + old(mem[o0..top]);
  }

  /** The packer has written out; the last verbatim block in it is lit, and its header is at hdr. */
  ghost predicate Writing(out: seq<Byte>, pre: seq<Byte>, lit: seq<Byte>, o: nat, hdr: nat, vrun: nat) {
    && |lit| <= MAX_VERBATIM && out == pre + Verbatim(lit)
    && (if |lit| == 0 then vrun > MAX_VERBATIM else vrun == |lit| && hdr == o + |lit|)
  }

  lemma VerbatimSize(lit: seq<Byte>)
    requires |lit| <= MAX_VERBATIM
    ensures |Verbatim(lit)| == if |lit| == 0 then 0 else |lit| + 1
  {
  }

  lemma NoVerbatim()
    ensures Verbatim([]) == []
  {
  }

  /** Setting the count in the header takes in the byte just written. */
  lemma Extend(pre: seq<Byte>, lit: seq<Byte>, c: Byte)
    requires |lit| < MAX_VERBATIM
    ensures |lit| > 0 ==> (pre + Verbatim(lit) + [c])[|pre| := |lit| + 1] == pre + Verbatim(lit + [c])
    ensures (pre + [0] + [c])[|pre| := 1] == pre + Verbatim([c])
  {
    VerbatimIs([c]);
    VerbatimIs(lit + [c]);
    if |lit| > 0 { VerbatimIs(lit); }
    hide Verbatim;
    SetCount(pre, 0, [c], 1);
    if |lit| > 0 {
      SetCount(pre, |lit|, lit + [c], |lit| + 1);
      assert pre + ([|lit|] + lit) + [c] == pre + [|lit|] + (lit + [c]);
    }
  }

  lemma VerbatimIs(lit: seq<Byte>)
    requires 0 < |lit| <= MAX_VERBATIM
    ensures Verbatim(lit) == [|lit|] + lit
  {
  }

  lemma SetCount(pre: seq<Byte>, was: Byte, body: seq<Byte>, count: Byte)
    ensures (pre + [was] + body)[|pre| := count] == pre + ([count] + body)
  {
  }

  /** The branch of rllpack for a byte that is packed verbatim. */
  method PutVerbatim(mem: array<Byte>, o0: nat, hdr0: nat, vrun0: nat, c: Byte, ghost top: nat, ghost pre: seq<Byte>, ghost lit: seq<Byte>)
      returns (o: nat, hdr: nat, vrun: nat)
    requires o0 <= top <= mem.Length && Writing(Downwards(mem[o0..top]), pre, lit, o0, hdr0, vrun0)
    requires o0 >= if 0 < |lit| < MAX_VERBATIM then 1 else 2
    modifies mem
    ensures o <= top && forall k :: 0 <= k < mem.Length && !(o <= k < top) ==> mem[k] == old(mem[k])
    ensures o == o0 - if 0 < |lit| < MAX_VERBATIM then 1 else 2
    ensures if |lit| == MAX_VERBATIM then Writing(Downwards(mem[o..top]), pre + Verbatim(lit), [c], o, hdr, vrun)
            else Writing(Downwards(mem[o..top]), pre, lit + [c], o, hdr, vrun)
  {
    hide Verbatim;
    NoVerbatim();
    ghost var was := Downwards(mem[o0..top]);
    assert |was| == |pre| + |Verbatim(lit)|;
    VerbatimSize(lit);
    Extend(was, [], c);
    if |lit| < MAX_VERBATIM { Extend(pre, lit, c); }
    o, hdr, vrun := o0, hdr0, vrun0;
    if vrun >= 128 {
      o := Put(mem, o, 0, top);
      hdr := o;
      vrun := 0;
    }
    o := Put(mem, o, c, top);
    vrun := vrun + 1;
    DownwardsUpdate(mem[o..top], hdr - o, vrun);
    ghost var next := mem[o..top][hdr - o := vrun];
    mem[hdr] := vrun;
    assert mem[o..top] == next;
    assert [] + [c] == [c];
  }

  /** The branch of rllpack for a run. */
  method PutRun(mem: array<Byte>, o0: nat, run: nat, c: Byte, ghost top: nat) returns (o: nat)
    requires 3 <= run <= MAX_RUN && |Repeat(run, c)| <= o0 <= top <= mem.Length
    modifies mem
    ensures o == o0 - |Repeat(run, c)| && forall k :: 0 <= k < mem.Length && !(o <= k < o0) ==> mem[k] == old(mem[k])
    ensures Downwards(mem[o..top]) == old(Downwards(mem[o0..top])) + Repeat(run, c)
  {
    if run < 224 - 126 {
      o := Put(mem, o0, run + 126, top);
    } else {
      var word := run + 224 * 256;
      o := Put(mem, o0, word / 256, top);
      o := Put(mem, o, word % 256, top);
    }
    o := Put(mem, o, c, top);
  }

  lemma {:induction false} AtLeast(s: seq<Byte>, lit: seq<Byte>)
    requires |lit| <= MAX_VERBATIM
    ensures |PackFrom(s, lit)| >= |Verbatim(lit)| + 1
    decreases |s|
  {
    if |s| > 0 {
      hide RunOf;
      if |lit| < MAX_VERBATIM {
        AtLeast(s[1..], lit + [s[0]]);
      } else {
        AtLeast(s[1..], [s[0]]);
      }
    }
  }

  /** One turn of the packer, after pre. */
  lemma PackTurn(pre: seq<Byte>, s: seq<Byte>, lit: seq<Byte>)
    requires |lit| <= MAX_VERBATIM && |s| > 0
    ensures var p, run := pre + PackFrom(s, lit), RunOf(s);
            if run >= 3 then p == pre + Verbatim(lit) + Repeat(run, s[0]) + PackFrom(s[run..], [])
            else if |lit| == MAX_VERBATIM then p == pre + Verbatim(lit) + PackFrom(s[1..], [s[0]])
            else p == pre + PackFrom(s[1..], lit + [s[0]])
  {
    var run := RunOf(s);
    if run >= 3 {
      Assoc(pre, Verbatim(lit), Repeat(run, s[0]), PackFrom(s[run..], []));
    } else if |lit| == MAX_VERBATIM {
      Assoc(pre, Verbatim(lit), [], PackFrom(s[1..], [s[0]]));
      assert Verbatim(lit) + [] == Verbatim(lit) && pre + Verbatim(lit) + [] == pre + Verbatim(lit);
    }
  }

  lemma Assoc(a: seq<Byte>, b: seq<Byte>, c: seq<Byte>, d: seq<Byte>)
    ensures a + (b + c + d) == a + b + c + d
  {
  }

  /** How much the packer still writes, at least. */
  lemma PackRoom(s: seq<Byte>, lit: seq<Byte>)
    requires |lit| <= MAX_VERBATIM && |s| > 0
    ensures RunOf(s) >= 3 ==> |PackFrom(s, lit)| >= |Verbatim(lit)| + |Repeat(RunOf(s), s[0])|
    ensures RunOf(s) < 3 ==> |PackFrom(s, lit)| >= |Verbatim(lit)| + if 0 < |lit| < MAX_VERBATIM then 1 else 2
  {
    hide RunOf;
    if |lit| == MAX_VERBATIM {
      AtLeast(s[1..], [s[0]]);
    } else {
      AtLeast(s[1..], lit + [s[0]]);
    }
  }

  lemma Ending(pre: seq<Byte>, lit: seq<Byte>)
    requires |lit| <= MAX_VERBATIM
    ensures pre + PackFrom([], lit) == pre + Verbatim(lit) + [0]
  {
  }

  /** rllpack: packs downwards from o0, and returns the end of the input and of the output. */
  method RllPack(src: array<Byte>, i0: nat, cnt0: nat, mem: array<Byte>, o0: nat) returns (i: nat, o: nat)
    requires src != mem && i0 + cnt0 <= src.Length && Bound(cnt0) <= o0 <= mem.Length
    modifies mem
    ensures i == i0 + cnt0 && o <= o0 && forall k :: 0 <= k < mem.Length && !(o <= k < o0) ==> mem[k] == old(mem[k])
    ensures Downwards(mem[o..o0]) == Pack(src[i0..i0 + cnt0])
  {
    hide Repeat, RunOf, Bound, PackFrom, Verbatim;
    i, o := i0, o0;
    var cnt, hdr, vrun := cnt0, 0, 0xFFFF_FFFF;
    ghost var all, pre, lit := src[i0..i0 + cnt0], [], [];
    ghost var left := all;
    PackedSize(all);
    NoVerbatim();
    while cnt > 0
      invariant i + cnt == i0 + cnt0 && o <= o0 && forall k :: 0 <= k < mem.Length && !(o <= k < o0) ==> mem[k] == old(mem[k])
      invariant Writing(Downwards(mem[o..o0]), pre, lit, o, hdr, vrun)
      invariant left == src[i..i + cnt] && Pack(all) == pre + PackFrom(left, lit)
    {
      ghost var rest := left;
      var run := CountRun(src, i, cnt);
      PackTurn(pre, rest, lit);
      PackRoom(rest, lit);
      if run < 3 {
        o, hdr, vrun := PutVerbatim(mem, o, hdr, vrun, src[i], o0, pre, lit);
        if |lit| == MAX_VERBATIM {
          pre, lit := pre + Verbatim(lit), [src[i]];
        } else {
          lit := lit + [src[i]];
        }
        left := rest[1..];
        i := i + 1;
        cnt := cnt - 1;
      } else {
        o := PutRun(mem, o, run, src[i], o0);
        pre, lit := pre + Verbatim(lit) + Repeat(run, src[i]), [];
        left := rest[run..];
        vrun := 0xFFFF_FFFF;
        i := i + run;
        cnt := cnt - run;
      }
    }
    Ending(pre, lit);
    o := Put(mem, o, 0, o0);
  }

  /** Copy n bytes below i to o and up, in the order they were packed. */
  method CopyDown(mem: array<Byte>, i0: nat, dst: array<Byte>, o0: nat, n: nat) returns (i: nat, o: nat)
    requires mem != dst && n <= i0 <= mem.Length && o0 + n <= dst.Length
    modifies dst
    ensures i == i0 - n && o == o0 + n && dst[o0..o] == Downwards(mem[i..i0])
    ensures forall k :: 0 <= k < dst.Length && !(o0 <= k < o) ==> dst[k] == old(dst[k])
  {
    i, o := i0, o0;
    var c := n;
    while c > 0
      invariant 0 <= c <= n && i == i0 - (n - c) && o == o0 + (n - c)
      invariant forall k :: o0 <= k < o ==> dst[k] == mem[i0 - 1 - (k - o0)]
      invariant forall k :: 0 <= k < dst.Length && !(o0 <= k < o) ==> dst[k] == old(dst[k])
    {
      i := i - 1;
      dst[o] := mem[i];
      o := o + 1;
      c := c - 1;
    }
  }

  method Fill(dst: array<Byte>, o0: nat, n: nat, c: Byte) returns (o: nat)
    requires o0 + n <= dst.Length
    modifies dst
    ensures o == o0 + n && dst[o0..o] == Times(n, c)
    ensures forall k :: 0 <= k < dst.Length && !(o0 <= k < o) ==> dst[k] == old(dst[k])
  {
    o := o0;
    while o < o0 + n
      invariant o0 <= o <= o0 + n
      invariant forall k :: o0 <= k < o ==> dst[k] == c
      invariant forall k :: 0 <= k < dst.Length && !(o0 <= k < o) ==> dst[k] == old(dst[k])
    {
      dst[o] := c;
      o := o + 1;
    }
  }

  /** The bytes and the stream left after the first block of a stream that does not end at once. */
  lemma UnpackTurn(z: seq<Byte>)
    requires Unpack(z).Unpacked? && z[0] != 0
    ensures z[0] <= 128 ==> 1 + z[0] <= |z| && Unpack(z) == After(z[1..1 + z[0]], 1 + z[0], Unpack(z[1 + z[0]..]))
    ensures 128 < z[0] < 224 ==> |z| >= 2 && Unpack(z) == After(Times(z[0] - 126, z[1]), 2, Unpack(z[2..]))
    ensures z[0] >= 224 ==> |z| >= 3 && Unpack(z) == After(Times((z[0] as int - 224) * 256 + z[1] as int, z[2]), 3, Unpack(z[3..]))
  {
  }

  /** The stream at i, after n bytes of it. */
  lemma DownwardsFrom(s: seq<Byte>, n: nat)
    requires n <= |s|
    ensures Downwards(s)[n..] == Downwards(s[..|s| - n])
    ensures Downwards(s)[..n] == Downwards(s[|s| - n..])
  {
  }

  lemma AfterAfter(a: seq<Byte>, m: nat, b: seq<Byte>, n: nat, u: Unpacked)
    ensures After(a, m, After(b, n, u)) == After(a + b, m + n, u)
  {
    if u.Unpacked? { assert a + (b + u.bytes) == a + b + u.bytes; }
  }

  /** One block: unpack it to o and up. */
  method UnpackBlock(mem: array<Byte>, i0: nat, dst: array<Byte>, o0: nat, c: Byte) returns (i: nat, o: nat, ghost part: seq<Byte>)
    requires mem != dst && 0 < i0 <= mem.Length && c == mem[i0 - 1] && c != 0
    requires var u := Unpack(Downwards(mem[..i0])); u.Unpacked? && o0 + |u.bytes| <= dst.Length
    modifies dst
    ensures i < i0 && o == o0 + |part| && o <= dst.Length && dst[o0..o] == part
    ensures Unpack(Downwards(mem[..i0])) == After(part, i0 - i, Unpack(Downwards(mem[..i])))
    ensures forall k :: 0 <= k < dst.Length && !(o0 <= k < o) ==> dst[k] == old(dst[k])
  {
    hide Unpack;
    if c <= 128 {
      i, o, part := TakeVerbatim(mem, i0, dst, o0, c);
    } else {
      i, o, part := TakeRun(mem, i0, dst, o0, c);
    }
  }

  method TakeVerbatim(mem: array<Byte>, i0: nat, dst: array<Byte>, o0: nat, c: Byte) returns (i: nat, o: nat, ghost part: seq<Byte>)
    requires mem != dst && 0 < i0 <= mem.Length && c == mem[i0 - 1] && 0 < c <= 128
    requires var u := Unpack(Downwards(mem[..i0])); u.Unpacked? && o0 + |u.bytes| <= dst.Length
    modifies dst
    ensures i < i0 && o == o0 + |part| && o <= dst.Length && dst[o0..o] == part
    ensures Unpack(Downwards(mem[..i0])) == After(part, i0 - i, Unpack(Downwards(mem[..i])))
    ensures forall k :: 0 <= k < dst.Length && !(o0 <= k < o) ==> dst[k] == old(dst[k])
  {
    hide Unpack;
    ghost var z := Downwards(mem[..i0]);
    UnpackTurn(z);
    i := i0 - 1;
    DownwardsFrom(mem[..i0], 1 + c);
    DownwardsFrom(mem[..i], c);
    assert mem[..i0][..i0 - (1 + c)] == mem[..i - c] && mem[..i][i - c..] == mem[i - c..i];
    assert z[1..1 + c] == Downwards(mem[i - c..i]);
    i, o := CopyDown(mem, i, dst, o0, c);
    part := z[1..1 + c];
  }

  method TakeRun(mem: array<Byte>, i0: nat, dst: array<Byte>, o0: nat, c: Byte) returns (i: nat, o: nat, ghost part: seq<Byte>)
    requires mem != dst && 0 < i0 <= mem.Length && c == mem[i0 - 1] && 128 < c
    requires var u := Unpack(Downwards(mem[..i0])); u.Unpacked? && o0 + |u.bytes| <= dst.Length
    modifies dst
    ensures i < i0 && o == o0 + |part| && o <= dst.Length && dst[o0..o] == part
    ensures Unpack(Downwards(mem[..i0])) == After(part, i0 - i, Unpack(Downwards(mem[..i])))
    ensures forall k :: 0 <= k < dst.Length && !(o0 <= k < o) ==> dst[k] == old(dst[k])
  {
    hide Unpack;
    UnpackTurn(Downwards(mem[..i0]));
    i := i0 - 1;
    var n := 0;
    if c < 224 {
      n := c as int - 126;
      assert mem[..i0][..i0 - 2] == mem[..i0 - 2];
      DownwardsFrom(mem[..i0], 2);
    } else {
      i := i - 1;
      n := (c as int - 224) * 256 + mem[i] as int;
      assert mem[..i0][..i0 - 3] == mem[..i0 - 3];
      DownwardsFrom(mem[..i0], 3);
    }
    i := i - 1;
    part := Times(n, mem[i]);
    o := Fill(dst, o0, n, mem[i]);
  }

  /** rllunpack: unpacks the stream below i0, and returns where it ends and how many bytes it held. */
  method RllUnpack(mem: array<Byte>, i0: nat, dst: array<Byte>, o0: nat) returns (i: nat, n: nat, o: nat)
    requires mem != dst && i0 <= mem.Length
    requires var u := Unpack(Downwards(mem[..i0])); u.Unpacked? && o0 + |u.bytes| <= dst.Length
    modifies dst
    ensures var u := Unpack(Downwards(mem[..i0])); i == i0 - u.used && n == |u.bytes| && o == o0 + n && dst[o0..o] == u.bytes
    ensures forall k :: 0 <= k < dst.Length && !(o0 <= k < o) ==> dst[k] == old(dst[k])
  {
    hide Unpack;
    ghost var u, out := Unpack(Downwards(mem[..i0])), [];
    StreamStarts(mem[..i0]);
    i, o := i0 - 1, o0;
    var c := mem[i];
    while c != 0
      invariant 0 <= i < i0 && c == mem[i] && o == o0 + |out| && o <= dst.Length && dst[o0..o] == out
      invariant u == After(out, i0 - 1 - i, Unpack(Downwards(mem[..i + 1])))
      invariant forall k :: 0 <= k < dst.Length && !(o0 <= k < o) ==> dst[k] == old(dst[k])
      decreases i
    {
      ghost var top, was := i + 1, o;
      ghost var part;
      i, o, part := UnpackBlock(mem, i + 1, dst, o, c);
      AfterAfter(out, i0 - top, part, top - i, Unpack(Downwards(mem[..i])));
      assert dst[o0..o] == dst[o0..was] + dst[was..o];
      out := out + part;
      StreamStarts(mem[..i]);
      i := i - 1;
      c := mem[i];
    }
    StreamEnds(mem[..i + 1]);
    n := o - o0;
  }

  lemma StreamStarts(s: seq<Byte>)
    requires Unpack(Downwards(s)).Unpacked?
    ensures |s| > 0
  {
  }

  lemma StreamEnds(s: seq<Byte>)
    requires |s| > 0 && s[|s| - 1] == 0
    ensures Unpack(Downwards(s)) == Unpacked([], 1)
  {
  }

  /** What rllpack left in memory between end and top, rllunpack turns back, stopping at end. */
  lemma PackedInMemory(mem: seq<Byte>, end: nat, s: seq<Byte>)
    requires end <= |mem| && Downwards(mem[end..]) == Pack(s)
    ensures Unpack(Downwards(mem)) == Unpacked(s, |mem| - end)
  {
    assert Downwards(mem) == Downwards(mem[end..]) + Downwards(mem[..end]);
    RoundTrip(s, Downwards(mem[..end]));
  }
}
