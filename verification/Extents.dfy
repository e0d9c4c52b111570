/**
 Sector extents (libinstaller/syslxmod.c): a sector map as the shortest list of runs of consecutive
 sectors.
 */
module Extents {
  import opened Widths
  import opened Bytes

  /** An extent is shorter than 64 KiB. */
  const MAX_LEN: nat := 127

  datatype Extent = Extent(lba: nat, len: nat)

  /** The sectors of an extent, in 64-bit arithmetic. */
  function Sectors(x: Extent): (s: seq<nat>)
    ensures |s| == x.len && forall k :: 0 <= k < x.len ==> s[k] == (x.lba + k) % WRAP64
  {
    seq(x.len, k => (x.lba + k) % WRAP64)
  }

  function Expand(xs: seq<Extent>): seq<nat> {
    if |xs| == 0 then [] else Sectors(xs[0]) + Expand(xs[1..])
  }

  predicate Fit(x: Extent) {
    1 <= x.len <= MAX_LEN && x.lba < WRAP64
  }

  ghost predicate Bounded(xs: seq<Extent>) {
    forall i :: 0 <= i < |xs| ==> Fit(xs[i])
  }

  ghost predicate Lbas(s: seq<nat>) {
    forall i :: 0 <= i < |s| ==> s[i] < WRAP64
  }

  /** Whether the next sector s continues an extent. */
  predicate Continues(x: Extent, s: nat) {
    s == (x.lba + x.len) % WRAP64 && x.len < MAX_LEN
  }

  /** The extents of s after x, which may still grow. */
  function From(x: Extent, s: seq<nat>): seq<Extent>
    decreases |s|
  {
    if |s| == 0 then [x]
    else if Continues(x, s[0]) then From(Extent(x.lba, x.len + 1), s[1..])
    else [x] + From(Extent(s[0], 1), s[1..])
  }

  /** The extents of a sector map. */
  function Of(s: seq<nat>): seq<Extent> {
    if |s| == 0 then [] else From(Extent(s[0], 1), s[1..])
  }

  // ---- The extents stand for the map ----

  lemma {:induction false} FromExpands(x: Extent, s: seq<nat>)
    requires Lbas(s) && 1 <= x.len <= MAX_LEN && x.lba < WRAP64
    ensures Bounded(From(x, s)) && Expand(From(x, s)) == Sectors(x) + s
    decreases |s|
  {
    if |s| == 0 {
      assert [x][1..] == [] && Sectors(x) + [] == Sectors(x);
    } else if Continues(x, s[0]) {
      var y := Extent(x.lba, x.len + 1);
      FromExpands(y, s[1..]);
      hide Expand, From;
      assert Sectors(y) == Sectors(x) + [s[0]];
      assert Sectors(x) + [s[0]] + s[1..] == Sectors(x) + s;
    } else {
      var y := Extent(s[0], 1);
      FromExpands(y, s[1..]);
      assert Sectors(y) == [s[0]];
      assert ([x] + From(y, s[1..]))[1..] == From(y, s[1..]);
      assert [s[0]] + s[1..] == s;
    }
  }

  lemma ExpandsToMap(s: seq<nat>)
    requires Lbas(s)
    ensures Bounded(Of(s)) && Expand(Of(s)) == s
  {
    if |s| > 0 {
      FromExpands(Extent(s[0], 1), s[1..]);
      assert Sectors(Extent(s[0], 1)) == [s[0]];
      assert [s[0]] + s[1..] == s;
    }
  }

  // ---- No list is shorter ----

  /** How many sectors of s extent x takes in. */
  function Grown(x: Extent, s: seq<nat>): (k: nat)
    ensures k <= |s|
    decreases |s|
  {
    if |s| > 0 && Continues(x, s[0]) then 1 + Grown(Extent(x.lba, x.len + 1), s[1..]) else 0
  }

  /** The first extent takes as many sectors as it can; the rest starts afresh. */
  lemma {:induction false} FromSplits(x: Extent, s: seq<nat>)
    ensures var k := Grown(x, s); From(x, s) == [Extent(x.lba, x.len + k)] + Of(s[k..])
    decreases |s|
  {
    if |s| == 0 {
      assert [x] + [] == [x];
    } else if Continues(x, s[0]) {
      var y := Extent(x.lba, x.len + 1);
      FromSplits(y, s[1..]);
      var k := Grown(y, s[1..]);
      assert Grown(x, s) == k + 1 && s[1..][k..] == s[k + 1..];
    } else {
      assert Grown(x, s) == 0 && s[0..] == s;
    }
  }

  /** It takes at least as many as any extent that fits. */
  lemma {:induction false} GrowsEnough(x: Extent, s: seq<nat>, m: nat)
    requires m <= |s| && x.len + m <= MAX_LEN && forall k :: 0 <= k < m ==> s[k] == (x.lba + x.len + k) % WRAP64
    ensures Grown(x, s) >= m
    decreases m
  {
    if m > 0 {
      var y := Extent(x.lba, x.len + 1);
      assert forall k :: 0 <= k < m - 1 ==> s[1..][k] == s[k + 1];
      GrowsEnough(y, s[1..], m - 1);
    }
  }

  lemma {:induction false} GrownMeans(x: Extent, s: seq<nat>, n: nat)
    requires n == Grown(x, s) && x.len <= MAX_LEN
    ensures x.len + n <= MAX_LEN && forall k :: 0 <= k < n ==> s[k] == (x.lba + x.len + k) % WRAP64
    decreases |s|
  {
    if n > 0 {
      GrownMeans(Extent(x.lba, x.len + 1), s[1..], n - 1);
      forall k | 0 < k < n
        ensures s[k] == (x.lba + x.len + k) % WRAP64
      {
        assert s[1..][k - 1] == s[k];
      }
    }
  }

  /** The first m sectors are one run. */
  ghost predicate Consecutive(s: seq<nat>, m: nat) {
    m <= |s| && forall j :: 0 <= j < m ==> s[j] == (s[0] + j) % WRAP64
  }

  /** The first extent of a map is its longest run of at most MAX_LEN sectors. */
  lemma OfSplits(s: seq<nat>, m: nat) returns (n: nat)
    requires Lbas(s) && |s| > 0
    ensures 1 <= n <= MAX_LEN && Consecutive(s, n) && n <= |s| && Of(s) == [Extent(s[0], n)] + Of(s[n..])
    ensures m <= MAX_LEN && Consecutive(s, m) ==> m <= n
  {
    var x := Extent(s[0], 1);
    n := 1 + Grown(x, s[1..]);
    FromSplits(x, s[1..]);
    GrownMeans(x, s[1..], n - 1);
    hide From, Grown;
    assert s[1..][n - 1..] == s[n..];
    forall j | 0 < j < n
      ensures s[j] == (s[0] + j) % WRAP64
    {
      assert s[j] == s[1..][j - 1];
    }
    if 1 <= m <= MAX_LEN && Consecutive(s, m) {
      forall k | 0 <= k < m - 1
        ensures s[1..][k] == (x.lba + x.len + k) % WRAP64
      {
        assert s[1..][k] == s[k + 1];
      }
      GrowsEnough(x, s[1..], m - 1);
    }
  }

  /** A suffix of a map needs no more extents. */
  lemma {:induction false} SuffixNoMore(s: seq<nat>, k: nat)
    requires Lbas(s) && k <= |s|
    ensures |Of(s[k..])| <= |Of(s)|
    decreases |s|, k
  {
    hide Of, Consecutive;
    if k == 0 {
      assert s[0..] == s;
    } else {
      var n := OfSplits(s, 0);
      ConsecutiveFits(s, n);
      if k >= n {
        SuffixNoMore(s[n..], k - n);
        assert s[n..][k - n..] == s[k..];
      } else {
        var t := s[k..];
        Shifted(s, k, n);
        var m := OfSplits(t, n - k);
        ConsecutiveFits(t, m);
        assert t[m..] == s[n..][k + m - n..];
        SuffixNoMore(s[n..], k + m - n);
      }
    }
  }

  lemma ConsecutiveFits(s: seq<nat>, n: nat)
    requires Consecutive(s, n)
    ensures n <= |s|
  {
  }

  /** A later part of a run is a run. */
  lemma Shifted(s: seq<nat>, k: nat, n: nat)
    requires Consecutive(s, n) && k < n
    ensures Consecutive(s[k..], n - k)
  {
    var t := s[k..];
    forall j | 0 <= j < n - k
      ensures t[j] == (t[0] + j) % WRAP64
    {
      assert t[j] == s[k + j] && t[0] == s[k];
      ModPlus(s[0] + k, j);
    }
  }

  lemma ModPlus(a: nat, b: nat)
    ensures (a % WRAP64 + b) % WRAP64 == (a + b) % WRAP64
  {
    var q := a / WRAP64;
    var p := (a + b) / WRAP64;
    assert a % WRAP64 + b == WRAP64 * (p - q) + (a + b) % WRAP64;
  }

  /** Every list of extents for the map is at least as long. */
  lemma {:induction false} FewestExtents(xs: seq<Extent>)
    requires Bounded(xs)
    ensures |Of(Expand(xs))| <= |xs|
    decreases |xs|
  {
    if |xs| > 0 {
      ExpandLbas(xs[1..]);
      FewestExtents(xs[1..]);
      hide Of;
      FirstTakes(xs[0], Expand(xs[1..]));
    }
  }

  /** Putting an extent in front costs at most one extent more. */
  lemma FirstTakes(x: Extent, rest: seq<nat>)
    requires Fit(x) && Lbas(rest)
    ensures |Of(Sectors(x) + rest)| <= 1 + |Of(rest)|
  {
    var s := Sectors(x) + rest;
    assert s[0] == Sectors(x)[0] == x.lba;
    assert Consecutive(s, x.len);
    hide Of, Sectors, Consecutive;
    var n := OfSplits(s, x.len);
    ConsecutiveFits(s, n);
    assert s[n..] == rest[n - x.len..];
    SuffixNoMore(rest, n - x.len);
  }

  lemma {:induction false} ExpandLbas(xs: seq<Extent>)
    ensures Lbas(Expand(xs))
    decreases |xs|
  {
    if |xs| > 0 { ExpandLbas(xs[1..]); }
  }

  // ---- The table in memory ----

  const SLOT: nat := 10

  function Encode(x: Extent): (d: seq<Byte>)
    requires x.lba < WRAP64 && x.len < 0x1_0000
    ensures |d| == SLOT
  {
    Put64(x.lba) + Put16(x.len)
  }

  function EncodeAll(xs: seq<Extent>): (d: seq<Byte>)
    requires Bounded(xs)
    ensures |d| == 10 * |xs|
  {
    if |xs| == 0 then [] else EncodeAll(xs[..|xs| - 1]) + Encode(xs[|xs| - 1])
  }

  /** The extent table: unused slots are zero. */
  function Table(xs: seq<Extent>, slots: nat): seq<Byte>
    requires Bounded(xs) && |xs| <= slots
  {
    EncodeAll(xs) + Zeros(10 * (slots - |xs|))
  }

  /** The table as it is read: up to the first slot of length zero. */
  function Read(d: seq<Byte>): seq<Extent> {
    if |d| < SLOT || Get16(d, 8) == 0 then [] else [Extent(Get64(d, 0), Get16(d, 8))] + Read(d[SLOT..])
  }

  lemma ReadZeros(n: nat)
    ensures Read(Zeros(n)) == []
  {
  }

  lemma ReadCons(x: Extent, d: seq<Byte>)
    requires x.lba < WRAP64 && 1 <= x.len < 0x1_0000
    ensures Read(Encode(x) + d) == [x] + Read(d)
  {
    var e := Encode(x) + d;
    assert e[SLOT..] == d && e[0..8] == Put64(x.lba) && e[8..10] == Put16(x.len);
    Words(e, x.lba, x.len);
  }

  lemma Words(e: seq<Byte>, lba: nat, len: nat)
    requires |e| >= SLOT && lba < WRAP64 && len < 0x1_0000 && e[0..8] == Put64(lba) && e[8..10] == Put16(len)
    ensures Get64(e, 0) == lba && Get16(e, 8) == len
  {
    Read64(e, 0, lba);
    Same16(e, 8, Put16(len));
  }

  lemma {:induction false} ReadEncoded(xs: seq<Extent>, d: seq<Byte>)
    requires Bounded(xs)
    ensures Read(EncodeAll(xs) + d) == xs + Read(d)
    decreases |xs|
  {
    hide Read, Encode;
    if |xs| == 0 {
      assert EncodeAll(xs) + d == d && xs + Read(d) == Read(d);
    } else {
      var f, x := xs[..|xs| - 1], xs[|xs| - 1];
      assert EncodeAll(xs) + d == EncodeAll(f) + (Encode(x) + d);
      ReadEncoded(f, Encode(x) + d);
      ReadCons(x, d);
      assert xs + Read(d) == f + ([x] + Read(d));
    }
  }

  /** What is read from the table is what was put into it. */
  lemma ReadTable(xs: seq<Extent>, slots: nat)
    requires Bounded(xs) && |xs| <= slots
    ensures Read(Table(xs, slots)) == xs
  {
    ReadEncoded(xs, Zeros(10 * (slots - |xs|)));
    ReadZeros(10 * (slots - |xs|));
    assert xs + [] == xs;
  }

  // ---- The loop ----

  /** Sector addr of the image is len sectors after base. */
  predicate At(addr: nat, base: nat, len: nat) {
    addr < 0x1_0000_0000 && addr % 512 == 0 && (base + 512 * len) % 0x1_0000_0000 == addr
  }

  /** The 64 KiB test compares a sector's first and last byte, so it never fails. */
  lemma NoBoundary(addr: nat, base: nat, len: nat)
    requires At(addr, base, len)
    ensures OnePage(addr, base, len)
  {
    var x := base + 512 * len;
    LastByte(x, addr);
    assert base + 512 * (len + 1) - 1 == x + 511;
  }

  lemma LastByte(x: nat, addr: nat)
    requires x % 0x1_0000_0000 == addr && addr % 512 == 0
    ensures (x + 511) % 0x1_0000_0000 == addr + 511 && (addr + 511) / 0x1_0000 == addr / 0x1_0000
  {
    var q, r := x / 0x1_0000_0000, addr / 512;
    assert addr == 512 * r && x + 511 == 0x1_0000_0000 * q + (512 * r + 511);
    var g, t := r / 128, r % 128;
    assert addr == 0x1_0000 * g + 512 * t;
  }

  /** Address of the next sector. */
  lemma NextAddr(addr: nat, base: nat, len: nat)
    requires At(addr, base, len)
    ensures At(NextAddress(addr), base, len + 1) && At(NextAddress(addr), addr, 1)
  {
    var x := base + 512 * len;
    NextAligned(x, addr);
    assert base + 512 * (len + 1) == x + 512;
  }

  lemma NextAligned(x: nat, addr: nat)
    requires x % 0x1_0000_0000 == addr && addr % 512 == 0
    ensures (x + 512) % 0x1_0000_0000 == (addr + 512) % 0x1_0000_0000 && (addr + 512) % 0x1_0000_0000 % 512 == 0
  {
    var q, r := x / 0x1_0000_0000, addr / 512;
    assert addr + 512 == 512 * (r + 1) && x + 512 == 0x1_0000_0000 * q + 512 * (r + 1);
    assert r + 1 <= 0x80_0000;
  }

  lemma {:induction false} EncodeSnoc(xs: seq<Extent>, x: Extent)
    requires Bounded(xs) && Fit(x)
    ensures Bounded(xs + [x]) && EncodeAll(xs + [x]) == EncodeAll(xs) + Encode(x)
  {
    assert Bounded(xs + [x]);
    assert (xs + [x])[..|xs|] == xs;
  }

  /** Put one extent into its slot. */
  method Store(img: array<Byte>, ex: nat, x: Extent)
    requires ex + SLOT <= img.Length && x.lba < WRAP64 && x.len < 0x1_0000
    modifies img
    ensures img[ex..ex + SLOT] == Encode(x)
    ensures forall k :: 0 <= k < img.Length && !(ex <= k < ex + SLOT) ==> img[k] == old(img[k])
  {
    hide Put64, Put16;
    CopyIn(img, ex, Put64(x.lba));
    ghost var was := img[..];
    CopyIn(img, ex + 8, Put16(x.len));
    TwoFields(was, img[..], ex, Put64(x.lba), Put16(x.len));
  }

  lemma TwoFields(was: seq<Byte>, now: seq<Byte>, k: nat, x: seq<Byte>, y: seq<Byte>)
    requires k + |x| + |y| <= |was| == |now| && was[k..k + |x|] == x && now[k + |x|..k + |x| + |y|] == y
    requires forall j :: k <= j < k + |x| ==> now[j] == was[j]
    ensures now[k..k + |x| + |y|] == x + y
  {
    var m := k + |x|;
    assert now[k..m] == was[k..m];
    assert now[k..m + |y|] == now[k..m] + now[m..m + |y|];
  }

  /** The table so far. */
  ghost predicate Filled(img: seq<Byte>, at: nat, slots: nat, done: seq<Extent>) {
    && at + 10 * slots <= |img| && |done| <= slots && Bounded(done)
    && img[at..at + 10 * slots] == Table(done, slots)
  }

  /** Outside lo..hi the buffers agree. */
  predicate Outside(a: seq<Byte>, b: seq<Byte>, lo: nat, hi: nat) {
    lo <= hi <= |a| == |b| && a[..lo] == b[..lo] && a[hi..] == b[hi..]
  }

  lemma OutsideTrans(a: seq<Byte>, b: seq<Byte>, c: seq<Byte>, lo: nat, hi: nat)
    requires Outside(a, b, lo, hi) && Outside(b, c, lo, hi)
    ensures Outside(a, c, lo, hi)
  {
  }

  /** Storing the next extent. */
  method StoreNext(img: array<Byte>, at: nat, slots: nat, ex: nat, x: Extent, ghost done: seq<Extent>)
    requires Filled(img[..], at, slots, done) && ex == at + 10 * |done| && |done| < slots && Fit(x)
    modifies img
    ensures Filled(img[..], at, slots, done + [x])
    ensures Outside(old(img[..]), img[..], at, at + 10 * slots)
  {
    ghost var was := img[..];
    FilledIs(was, at, slots, done);
    hide Encode, Filled, Outside, Table;
    Store(img, ex, x);
    FilledNext(was, img[..], at, slots, done, x);
  }

  lemma FilledNext(a: seq<Byte>, b: seq<Byte>, at: nat, slots: nat, done: seq<Extent>, x: Extent)
    requires Filled(a, at, slots, done) && |done| < slots && Fit(x) && |b| == |a|
    requires var ex := at + 10 * |done|;
             ex + SLOT <= |b| && b[ex..ex + SLOT] == Encode(x) && forall k :: 0 <= k < |a| && !(ex <= k < ex + SLOT) ==> b[k] == a[k]
    ensures Filled(b, at, slots, done + [x]) && Outside(a, b, at, at + 10 * slots)
  {
    hide Encode, Table;
    var end, ex := at + 10 * slots, at + 10 * |done|;
    SubSlice(b, at, end, 10 * |done|, SLOT);
    var t, u := a[at..end], b[at..end];
    forall k | 0 <= k < |t| && !(10 * |done| <= k < 10 * |done| + SLOT)
      ensures u[k] == t[k]
    {
      assert u[k] == b[at + k] && t[k] == a[at + k];
    }
    TableNext(t, u, done, x, slots);
  }

  lemma SubSlice(a: seq<Byte>, lo: nat, hi: nat, m: nat, n: nat)
    requires lo + m + n <= hi <= |a|
    ensures a[lo..hi][m..m + n] == a[lo + m..lo + m + n]
  {
    var x, y := a[lo..hi][m..m + n], a[lo + m..lo + m + n];
    assert forall k :: 0 <= k < n ==> x[k] == y[k];
  }

  lemma TableNext(a: seq<Byte>, b: seq<Byte>, done: seq<Extent>, x: Extent, slots: nat)
    requires Bounded(done) && Fit(x) && |done| < slots && a == Table(done, slots) && |b| == |a|
    requires var m := 10 * |done|;
             m + SLOT <= |b| && b[m..m + SLOT] == Encode(x) && forall k :: 0 <= k < |a| && !(m <= k < m + SLOT) ==> b[k] == a[k]
    ensures Bounded(done + [x]) && b == Table(done + [x], slots)
  {
    EncodeSnoc(done, x);
    hide Encode, EncodeAll, Bounded;
    NextSlot(a, b, EncodeAll(done), Encode(x), 10 * (slots - |done|));
  }

  /** One slot more, on bytes. */
  lemma NextSlot(a: seq<Byte>, b: seq<Byte>, e: seq<Byte>, x: seq<Byte>, n: nat)
    requires a == e + Zeros(n) && |b| == |a| && |x| <= n && b[|e|..|e| + |x|] == x
    requires forall k :: 0 <= k < |a| && !(|e| <= k < |e| + |x|) ==> b[k] == a[k]
    ensures b == e + x + Zeros(n - |x|)
  {
    var m := |e| + |x|;
    assert b[..|e|] == e;
    assert b[m..] == Zeros(n - |x|);
    assert b == b[..|e|] + b[|e|..m] + b[m..];
  }

  /** Store the current extent, if there is one. */
  method StoreCurrent(img: array<Byte>, at: nat, slots: nat, ex0: nat, x: Extent, ghost done0: seq<Extent>, ghost was: seq<Byte>)
      returns (ex: nat, ghost done: seq<Extent>)
    requires Filled(img[..], at, slots, done0) && ex0 == at + 10 * |done0| && Outside(was, img[..], at, at + 10 * slots)
    requires x.len > 0 ==> |done0| < slots && Fit(x)
    modifies img
    ensures done == (if x.len == 0 then done0 else done0 + [x]) && ex == at + 10 * |done|
    ensures Filled(img[..], at, slots, done) && Outside(was, img[..], at, at + 10 * slots)
  {
    hide Filled, Outside;
    ex, done := ex0, done0;
    if x.len != 0 {
      ghost var now := img[..];
      StoreNext(img, at, slots, ex, x, done);
      OutsideTrans(was, now, img[..], at, at + 10 * slots);
      ex, done := ex + SLOT, done + [x];
    }
  }

  /** generate_extents: the table of nptrs slots at offset at of the image. */
  method GenerateExtents(img: array<Byte>, at: nat, nptrs: nat, sects: seq<nat>)
    requires Lbas(sects) && at + 10 * nptrs <= img.Length && |Of(sects)| <= nptrs
    modifies img
    ensures Bounded(Of(sects)) && img[at..at + 10 * nptrs] == Table(Of(sects), nptrs)
    ensures Outside(old(img[..]), img[..], at, at + 10 * nptrs)
  {
    ghost var was := img[..];
    CopyIn(img, at, Zeros(10 * nptrs));
    EmptyTable(img[..], at, nptrs);
    assert Outside(was, img[..], at, at + 10 * nptrs);
    hide Table, Of, Filled, Outside, Bounded;
    FillExtents(img, at, nptrs, sects, was);
    ExpandsToMap(sects);
    FilledIs(img[..], at, nptrs, Of(sects));
  }

  /** What the loop of generate_extents keeps: x is the current extent, loaded from base on. */
  ghost predicate Going(img: seq<Byte>, at: nat, nptrs: nat, sects: seq<nat>, i: nat, done: seq<Extent>, x: Extent, addr: nat, base: nat) {
    && x.len <= MAX_LEN && x.lba < WRAP64 && At(addr, base, x.len) && Left(sects, i, done, x) && Filled(img, at, nptrs, done)
  }

  /** The loop of generate_extents, on a table of empty slots. */
  method FillExtents(img: array<Byte>, at: nat, nptrs: nat, sects: seq<nat>, ghost was: seq<Byte>)
    requires Lbas(sects) && |Of(sects)| <= nptrs
    requires Filled(img[..], at, nptrs, []) && Outside(was, img[..], at, at + 10 * nptrs)
    modifies img
    ensures Filled(img[..], at, nptrs, Of(sects)) && Outside(was, img[..], at, at + 10 * nptrs)
  {
    LeftStart(sects);
    var addr: nat, base: nat, x, ex: nat := 0x8000, 0x8000, Extent(0, 0), at;
    ghost var done: seq<Extent> := [];
    assert Going(img[..], at, nptrs, sects, 0, done, x, addr, base);
    hide Of, Filled, Outside, Lbas, Going;
    var i := 0;
    while i < |sects|
      invariant 0 <= i <= |sects| && Going(img[..], at, nptrs, sects, i, done, x, addr, base)
      invariant ex == at + 10 * |done| && Outside(was, img[..], at, at + 10 * nptrs)
    {
      x, ex, base, done := OneSector(img, at, nptrs, sects, i, x, ex, addr, base, done, was);
      addr := NextAddress(addr);
      i := i + 1;
    }
    LastExtent(img[..], at, nptrs, sects, done, x, addr, base);
    ex, done := StoreCurrent(img, at, nptrs, ex, x, done, was);
  }

  function NextAddress(addr: nat): nat {
    (addr + 512) % 0x1_0000_0000
  }

  lemma LastExtent(img: seq<Byte>, at: nat, nptrs: nat, sects: seq<nat>, done: seq<Extent>, x: Extent, addr: nat, base: nat)
    requires Going(img, at, nptrs, sects, |sects|, done, x, addr, base) && |Of(sects)| <= nptrs
    ensures Filled(img, at, nptrs, done) && (x.len > 0 ==> |done| < nptrs && Fit(x))
    ensures Of(sects) == if x.len == 0 then done else done + [x]
  {
    hide Of, At, Filled, Left;
    LeftEnd(sects, done, x);
  }

  /** One turn: the sector joins the current extent, or that one is stored and a new one begins. */
  method OneSector(img: array<Byte>, at: nat, nptrs: nat, sects: seq<nat>, i: nat, x0: Extent, ex0: nat, addr: nat, base0: nat,
                   ghost done0: seq<Extent>, ghost was: seq<Byte>)
      returns (x: Extent, ex: nat, base: nat, ghost done: seq<Extent>)
    requires Lbas(sects) && |Of(sects)| <= nptrs && i < |sects| && Going(img[..], at, nptrs, sects, i, done0, x0, addr, base0)
    requires ex0 == at + 10 * |done0| && Outside(was, img[..], at, at + 10 * nptrs)
    modifies img
    ensures Going(img[..], at, nptrs, sects, i + 1, done, x, NextAddress(addr), base)
    ensures ex == at + 10 * |done| && Outside(was, img[..], at, at + 10 * nptrs)
  {
    hide Of, From, Filled, At, Left, Continues, Outside, Lbas, Extends, NextAddress;
    x, ex, base, done := x0, ex0, base0, done0;
    var sect := sects[i];
    NextAddr(addr, base, x.len);
    LeftTurn(sects, i, done, x);
    ExtendsIff(x.lba, x.len, sect, addr, base);
    if x.len != 0 && Extends(x.lba, x.len, sect, addr, base) {
      x := Extent(x.lba, x.len + 1);
    } else {
      ex, done := StoreCurrent(img, at, nptrs, ex, x, done, was);
      base, x := addr, Extent(sect, 1);
    }
  }

  /** The test of generate_extents: the sector follows, and the extent stays below and within 64 KiB. */
  predicate Extends(lba: nat, len: nat, sect: nat, addr: nat, base: nat) {
    sect == (lba + len) % WRAP64 && 512 * (len + 1) < 65536 && OnePage(addr, base, len)
  }

  /** The addresses compared have the same high half. */
  predicate OnePage(addr: nat, base: nat, len: nat) {
    addr / 0x1_0000 == (base + 512 * (len + 1) - 1) % 0x1_0000_0000 / 0x1_0000
  }

  /** It comes down to the sector being next and the extent being short enough. */
  lemma ExtendsIff(lba: nat, len: nat, sect: nat, addr: nat, base: nat)
    requires At(addr, base, len)
    ensures Extends(lba, len, sect, addr, base) <==> Continues(Extent(lba, len), sect)
  {
    hide At, OnePage;
    NoBoundary(addr, base, len);
  }

  /** The extents done, the current one x unless it is empty, and the sectors from i on make up the map. */
  ghost predicate Left(s: seq<nat>, i: nat, done: seq<Extent>, x: Extent) {
    i <= |s| && Of(s) == done + if x.len == 0 then Of(s[i..]) else From(x, s[i..])
  }

  lemma LeftStart(s: seq<nat>)
    ensures Left(s, 0, [], Extent(0, 0))
  {
    assert s[0..] == s && [] + Of(s) == Of(s);
  }

  /** What one more sector does. */
  lemma LeftTurn(s: seq<nat>, i: nat, done: seq<Extent>, x: Extent)
    requires Left(s, i, done, x) && i < |s| && Lbas(s)
    ensures s[i] < WRAP64
    ensures x.len == 0 ==> Left(s, i + 1, done, Extent(s[i], 1))
    ensures x.len > 0 && Continues(x, s[i]) ==> x.len < MAX_LEN && Left(s, i + 1, done, Extent(x.lba, x.len + 1))
    ensures x.len > 0 && !Continues(x, s[i]) ==> Left(s, i + 1, done + [x], Extent(s[i], 1)) && |done| < |Of(s)|
  {
    assert s[i..][0] == s[i] && s[i..][1..] == s[i + 1..];
    if x.len > 0 && !Continues(x, s[i]) {
      assert done + ([x] + From(Extent(s[i], 1), s[i + 1..])) == done + [x] + From(Extent(s[i], 1), s[i + 1..]);
    }
  }

  lemma LeftEnd(s: seq<nat>, done: seq<Extent>, x: Extent)
    requires Left(s, |s|, done, x)
    ensures Of(s) == if x.len == 0 then done else done + [x]
  {
  }

  lemma EmptyTable(img: seq<Byte>, at: nat, slots: nat)
    requires at + 10 * slots <= |img| && img[at..at + 10 * slots] == Zeros(10 * slots)
    ensures Filled(img, at, slots, [])
  {
    assert [] + Zeros(10 * slots) == Zeros(10 * slots);
  }

  lemma FilledIs(img: seq<Byte>, at: nat, slots: nat, done: seq<Extent>)
    requires Filled(img, at, slots, done)
    ensures at + 10 * slots <= |img| && |done| <= slots && Bounded(done) && img[at..at + 10 * slots] == Table(done, slots)
  {
  }
}
