/**
 Patching the boot sector and ldlinux.sys (libinstaller/syslxmod.c): where each sector is, and a
 checksum over the image.
 */
module Patch {
  import opened Widths
  import opened Bytes
  import opened Options
  import opened Extents

  const MAGIC: nat := 0x3eb202fe

  // ---- Where things are ----

  /** The fields the patch area at offset patch and the extended patch area name. */
  datatype Layout = Layout(patch: nat, epa: nat, adv: nat, dir: nat, dirlen: nat, subvol: nat, subvollen: nat, extents: nat, slots: nat,
                           ptr0: nat, ptr1: nat, raid: nat)

  /** What the extended patch area at offset e says. */
  function FieldsOf(img: seq<Byte>, p: nat, e: nat): Layout
    requires e + 20 <= |img|
  {
    Layout(p, e, Get16(img, e), Get16(img, e + 2), Get16(img, e + 4), Get16(img, e + 6), Get16(img, e + 8),
           Get16(img, e + 10), Get16(img, e + 12), Get16(img, e + 14), Get16(img, e + 16), Get16(img, e + 18))
  }

  function LayoutOf(img: seq<Byte>, p: nat): Layout
    requires p + 24 <= |img| && Get16(img, p + 22) + 20 <= |img|
  {
    FieldsOf(img, p, Get16(img, p + 22))
  }

  /** The extended patch area as it is laid out in memory: ten words. */
  function AreaBytes(l: Layout): (d: seq<Byte>)
    requires l.adv < 0x1_0000 && l.dir < 0x1_0000 && l.dirlen < 0x1_0000 && l.subvol < 0x1_0000 && l.subvollen < 0x1_0000
    requires l.extents < 0x1_0000 && l.slots < 0x1_0000 && l.ptr0 < 0x1_0000 && l.ptr1 < 0x1_0000 && l.raid < 0x1_0000
    ensures |d| == 20
  {
    Put16(l.adv) + Put16(l.dir) + Put16(l.dirlen) + Put16(l.subvol) + Put16(l.subvollen) +
    Put16(l.extents) + Put16(l.slots) + Put16(l.ptr0) + Put16(l.ptr1) + Put16(l.raid)
  }

  /** Each field is read from the word it was written to. */
  lemma FieldsWritten(img: seq<Byte>, l: Layout)
    requires l.adv < 0x1_0000 && l.dir < 0x1_0000 && l.dirlen < 0x1_0000 && l.subvol < 0x1_0000 && l.subvollen < 0x1_0000
    requires l.extents < 0x1_0000 && l.slots < 0x1_0000 && l.ptr0 < 0x1_0000 && l.ptr1 < 0x1_0000 && l.raid < 0x1_0000
    requires l.epa + 20 <= |img| && img[l.epa..l.epa + 20] == AreaBytes(l)
    ensures FieldsOf(img, l.patch, l.epa) == l
  {
    hide Get16, Put16;
    FieldAt(img, l, 0, l.adv);
    FieldAt(img, l, 2, l.dir);
    FieldAt(img, l, 4, l.dirlen);
    FieldAt(img, l, 6, l.subvol);
    FieldAt(img, l, 8, l.subvollen);
    FieldAt(img, l, 10, l.extents);
    FieldAt(img, l, 12, l.slots);
    FieldAt(img, l, 14, l.ptr0);
    FieldAt(img, l, 16, l.ptr1);
    FieldAt(img, l, 18, l.raid);
  }

  lemma FieldAt(img: seq<Byte>, l: Layout, k: nat, v: nat)
    requires l.epa + 20 <= |img| && k + 2 <= 20 && v < 0x1_0000 && img[l.epa..l.epa + 20][k..k + 2] == Put16(v)
    ensures Get16(img, l.epa + k) == v
  {
    hide Put16;
    var d, w := img[l.epa..l.epa + 20], Put16(v);
    assert d[k] == img[l.epa + k] && d[k + 1] == img[l.epa + k + 1];
    assert d[k..k + 2][0] == d[k] && d[k..k + 2][1] == d[k + 1];
    assert w[0] == d[k] && w[1] == d[k + 1];
  }

  lemma FieldsKept(a: seq<Byte>, b: seq<Byte>, p: nat, e: nat, at: nat, n: nat)
    requires e + 20 <= |a| == |b| && Apart(at, n, e, 20)
    requires forall k :: 0 <= k < |a| && !(at <= k < at + n) ==> a[k] == b[k]
    ensures FieldsOf(b, p, e) == FieldsOf(a, p, e)
  {
    SameFields(a, b, p, e);
  }

  lemma SameFields(a: seq<Byte>, b: seq<Byte>, p: nat, e: nat)
    requires e + 20 <= |a| == |b| && forall k :: e <= k < e + 20 ==> a[k] == b[k]
    ensures FieldsOf(b, p, e) == FieldsOf(a, p, e)
  {
    forall k | e <= k < e + 19
      ensures Get16(b, k) == Get16(a, k)
    {
      assert b[k] == a[k] && b[k + 1] == a[k + 1];
    }
  }

  predicate Apart(a: nat, m: nat, b: nat, n: nat) {
    a + m <= b || b + n <= a
  }

  /** The fields lie inside the image and do not overlap. */
  ghost predicate Separate(l: Layout, size: nat) {
    && l.patch + 24 <= size && l.epa + 20 <= size && l.adv + 16 <= size && l.extents + 10 * l.slots <= size
    && l.dir + l.dirlen <= size && l.subvol + l.subvollen <= size
    && Apart(l.patch, 24, l.epa, 20) && Apart(l.patch, 24, l.adv, 16) && Apart(l.patch, 24, l.extents, 10 * l.slots)
    && Apart(l.patch, 24, l.dir, l.dirlen) && Apart(l.patch, 24, l.subvol, l.subvollen)
    && Apart(l.adv, 16, l.extents, 10 * l.slots) && Apart(l.adv, 16, l.epa, 20)
    && Apart(l.adv, 16, l.dir, l.dirlen) && Apart(l.adv, 16, l.subvol, l.subvollen)
    && Apart(l.extents, 10 * l.slots, l.dir, l.dirlen) && Apart(l.extents, 10 * l.slots, l.subvol, l.subvollen)
    && Apart(l.extents, 10 * l.slots, l.epa, 20) && Apart(l.epa, 20, l.dir, l.dirlen) && Apart(l.epa, 20, l.subvol, l.subvollen)
  }

  ghost predicate SeparateInBoot(l: Layout, size: nat) {
    && l.ptr0 + 4 <= size && l.ptr1 + 4 <= size && l.raid + 2 <= size
    && Apart(l.ptr0, 4, l.ptr1, 4) && Apart(l.ptr0, 4, l.raid, 2) && Apart(l.ptr1, 4, l.raid, 2)
  }

  // ---- The checksum ----

  /** Sum of the first n words. */
  function WordSum(img: seq<Byte>, n: nat): nat
    requires 4 * n <= |img|
  {
    if n == 0 then 0 else WordSum(img, n - 1) + Get32(img, 4 * (n - 1))
  }

  lemma {:induction false} SumOf(a: seq<Byte>, b: seq<Byte>, n: nat, q: nat)
    requires |a| == |b| && 4 * n <= |a| && 4 * q + 4 <= |a|
    requires forall k :: 0 <= k < |a| && !(4 * q <= k < 4 * q + 4) ==> a[k] == b[k]
    ensures n <= q ==> WordSum(a, n) == WordSum(b, n)
    ensures n > q ==> WordSum(a, n) - Get32(a, 4 * q) == WordSum(b, n) - Get32(b, 4 * q)
    decreases n
  {
    if n > 0 {
      SumOf(a, b, n - 1, q);
      if n - 1 != q {
        var k := 4 * (n - 1);
        assert a[k] == b[k] && a[k + 1] == b[k + 1] && a[k + 2] == b[k + 2] && a[k + 3] == b[k + 3];
      }
    }
  }

  /** Zero the checksum word at p + 16, sum, and set it so that the image sums to the magic number. */
  method SetChecksum(img: array<Byte>, p: nat, dw: nat)
    requires p % 4 == 0 && p + 20 <= 4 * dw <= img.Length
    modifies img
    ensures WordSum(img[..], dw) % WRAP == MAGIC
    ensures forall k :: 0 <= k < img.Length && !(p + 16 <= k < p + 20) ==> img[k] == old(img[k])
  {
    hide Get32, Put32, WordSum;
    CopyIn(img, p + 16, Put32(0));
    ghost var zeroed := img[..];
    var csum := NegativeSum(img, dw);
    CopyIn(img, p + 16, Put32(csum));
    ChecksumSet(zeroed, img[..], p, dw, csum);
  }

  /** The magic number minus the words of the image. */
  method NegativeSum(img: array<Byte>, dw: nat) returns (csum: nat)
    requires 4 * dw <= img.Length
    ensures csum < WRAP && (csum + WordSum(img[..], dw)) % WRAP == MAGIC
  {
    hide Get32;
    csum := MAGIC;
    var i := 0;
    while i < dw
      invariant 0 <= i <= dw && 0 <= csum < WRAP
      invariant (csum + WordSum(img[..], i)) % WRAP == MAGIC
    {
      var w := Get32(img[4 * i..4 * i + 4], 0);
      SameWord(img[..], 4 * i, img[4 * i..4 * i + 4]);
      SubWord(csum, w, WordSum(img[..], i));
      csum := (csum - w) % WRAP;
      i := i + 1;
    }
  }

  lemma ChecksumSet(a: seq<Byte>, b: seq<Byte>, p: nat, dw: nat, csum: nat)
    requires p % 4 == 0 && p + 20 <= 4 * dw <= |a| && |b| == |a| && csum < WRAP
    requires a[p + 16..p + 20] == Put32(0) && b[p + 16..p + 20] == Put32(csum)
    requires forall k :: 0 <= k < |a| && !(p + 16 <= k < p + 20) ==> a[k] == b[k]
    ensures WordSum(b, dw) == WordSum(a, dw) + csum
  {
    hide Get32, Put32, WordSum;
    var q := p / 4 + 4;
    SameWord(a, 4 * q, Put32(0));
    SameWord(b, 4 * q, Put32(csum));
    SumOf(a, b, dw, q);
  }

  lemma SubWord(c: nat, w: nat, s: nat)
    ensures ((c - w as int) % WRAP + (s + w)) % WRAP == (c + s) % WRAP
  {
    var q := (c - w as int) / WRAP;
    assert (c - w as int) % WRAP == c - w - WRAP * q;
    var t := (c + s) / WRAP;
    assert (c - w as int) % WRAP + (s + w) == WRAP * (t - q) + (c + s) % WRAP;
  }

  // ---- The patch ----

  datatype Result = TooSmall | TooLong | Patched(bytes: nat)

  /** Sectors needed for the image and two copies of the auxiliary data vector. */
  function Needed(size: nat): nat {
    (size + 511) / 512 + 2
  }

  lemma NeededSome(size: nat)
    requires size > 0
    ensures Needed(size) == (size + 511) / 512 + 2 >= 3
  {
  }

  /** The sector map as the boot sector and the image record it. */
  function Recorded(boot: seq<Byte>, img: seq<Byte>, l: Layout): seq<nat>
    requires l.ptr0 + 4 <= |boot| && l.ptr1 + 4 <= |boot| && l.extents + 10 * l.slots <= |img| && l.adv + 16 <= |img|
  {
    [Get32(boot, l.ptr0) + WRAP * Get32(boot, l.ptr1)] + Expand(Read(img[l.extents..l.extents + 10 * l.slots])) +
    [Get64(img, l.adv), Get64(img, l.adv + 8)]
  }

  /** Search for the patch area. */
  method FindPatch(img: array<Byte>, ghost at: nat) returns (p: nat)
    requires 4 * at + 4 <= img.Length && Get32(img[..], 4 * at) == MAGIC && forall j :: 0 <= j < at ==> Get32(img[..], 4 * j) != MAGIC
    ensures p == 4 * at
  {
    hide Get32;
    ghost var n := 0;
    p := 0;
    SameWord(img[..], p, img[p..p + 4]);
    while Get32(img[p..p + 4], 0) != MAGIC
      invariant p == 4 * n && n <= at && Get32(img[..], p) == Get32(img[p..p + 4], 0)
      decreases at - n
    {
      p, n := p + 4, n + 1;
      SameWord(img[..], p, img[p..p + 4]);
    }
  }

  /** The pointer to the first sector, and the RAID patch, in the boot sector. */
  method PatchBoot(boot: array<Byte>, l: Layout, sect: nat, raid: bool)
    requires SeparateInBoot(l, boot.Length) && sect < WRAP64
    modifies boot
    ensures Get32(boot[..], l.ptr0) + WRAP * Get32(boot[..], l.ptr1) == sect
    ensures raid ==> Get16(boot[..], l.raid) == 0x18CD
    ensures forall k :: 0 <= k < boot.Length && OutsideBoot(k, l, raid) ==> boot[k] == old(boot[k])
  {
    hide Get32, Put32, Get16, Put16;
    SetFirst(boot, l.ptr0, l.ptr1, sect % WRAP, sect / WRAP);
    ghost var b := boot[..];
    if raid {
      CopyIn(boot, l.raid, Put16(0x18CD));
      SliceKept(b, boot[..], l.ptr0, 4, l.raid, 2);
      SliceKept(b, boot[..], l.ptr1, 4, l.raid, 2);
      Same16(boot[..], l.raid, Put16(0x18CD));
    }
    BootWord(boot[..], l.ptr0, sect % WRAP);
    BootWord(boot[..], l.ptr1, sect / WRAP);
  }

  /** The two halves of the pointer to the first sector. */
  method SetFirst(boot: array<Byte>, p: nat, q: nat, low: nat, high: nat)
    requires p + 4 <= boot.Length && q + 4 <= boot.Length && Apart(p, 4, q, 4) && low < WRAP && high < WRAP
    modifies boot
    ensures boot[..][p..p + 4] == Put32(low) && boot[..][q..q + 4] == Put32(high)
    ensures forall k :: 0 <= k < boot.Length && Apart(k, 1, p, 4) && Apart(k, 1, q, 4) ==> boot[k] == old(boot[k])
  {
    hide Put32;
    CopyIn(boot, p, Put32(low));
    ghost var a := boot[..];
    CopyIn(boot, q, Put32(high));
    SliceKept(a, boot[..], p, 4, q, 4);
    assert boot[..][q..q + 4] == boot[q..q + 4];
  }

  /** A field is not changed by a write elsewhere. */
  lemma SliceKept(a: seq<Byte>, b: seq<Byte>, k: nat, n: nat, at: nat, m: nat)
    requires |a| == |b| && k + n <= |a| && Apart(k, n, at, m)
    requires forall j :: 0 <= j < |a| && !(at <= j < at + m) ==> b[j] == a[j]
    ensures b[k..k + n] == a[k..k + n]
  {
  }

  lemma BootWord(d: seq<Byte>, k: nat, v: nat)
    requires k + 4 <= |d| && v < WRAP && d[k..k + 4] == Put32(v)
    ensures Get32(d, k) == v
  {
    hide Get32, Put32;
    SameWord(d, k, Put32(v));
  }

  /** The totals: sectors of the image and of the auxiliary data vector, words, and the transfer limit. */
  method SetTotals(img: array<Byte>, p: nat, nsect: nat, dw: nat, stupid: bool)
    requires p + 24 <= img.Length && nsect >= 2 && dw < WRAP
    modifies img
    ensures img[..][p + 8..p + 10] == Put16((nsect - 2) % 0x1_0000) && img[..][p + 10..p + 12] == Put16(2) && img[..][p + 12..p + 16] == Put32(dw)
    ensures stupid ==> img[..][p + 20..p + 22] == Put16(1)
    ensures forall k :: 0 <= k < img.Length && !(p + 8 <= k < p + 16) && !(stupid && p + 20 <= k < p + 22) ==> img[k] == old(img[k])
  {
    hide Put16, Put32;
    CopyIn(img, p + 8, Put16((nsect - 2) % 0x1_0000));
    CopyIn(img, p + 10, Put16(2));
    CopyIn(img, p + 12, Put32(dw));
    if stupid {
      CopyIn(img, p + 20, Put16(1));
      assert img[..][p + 20..p + 22] == img[p + 20..p + 22];
    }
    assert img[..][p + 8..p + 10] == img[p + 8..p + 10] && img[..][p + 10..p + 12] == img[p + 10..p + 12];
    assert img[..][p + 12..p + 16] == img[p + 12..p + 16];
  }

  /** What the patch area says about the image, apart from its sum. */
  ghost predicate Totals(img: seq<Byte>, p: nat, stupid: bool) {
    && p + 24 <= |img|
    && Get16(img, p + 8) == (|img| + 511) / 512 % 0x1_0000
    && Get16(img, p + 10) == 2
    && Get32(img, p + 12) == |img| / 4
    && (stupid ==> Get16(img, p + 20) == 1)
  }

  lemma TotalsSet(img: seq<Byte>, p: nat, stupid: bool)
    requires p + 24 <= |img| < WRAP && img[p + 12..p + 16] == Put32(|img| / 4) && (stupid ==> img[p + 20..p + 22] == Put16(1))
    requires img[p + 8..p + 10] == Put16((Needed(|img|) - 2) % 0x1_0000) && img[p + 10..p + 12] == Put16(2)
    ensures Totals(img, p, stupid)
  {
    hide Get16, Get32, Put16, Put32;
    Same16(img, p + 8, Put16((Needed(|img|) - 2) % 0x1_0000));
    Same16(img, p + 10, Put16(2));
    SameWord(img, p + 12, Put32(|img| / 4));
    if stupid { Same16(img, p + 20, Put16(1)); }
  }

  lemma TotalsKept(a: seq<Byte>, b: seq<Byte>, p: nat, stupid: bool)
    requires Totals(a, p, stupid) && |a| == |b|
    requires forall k :: p + 8 <= k < p + 24 && !(p + 16 <= k < p + 20) ==> b[k] == a[k]
    ensures Totals(b, p, stupid)
  {
    assert b[p + 8] == a[p + 8] && b[p + 9] == a[p + 9] && b[p + 10] == a[p + 10] && b[p + 11] == a[p + 11];
    assert b[p + 12] == a[p + 12] && b[p + 13] == a[p + 13] && b[p + 14] == a[p + 14] && b[p + 15] == a[p + 15];
    assert b[p + 20] == a[p + 20] && b[p + 21] == a[p + 21];
  }

  method SetAdvPointers(img: array<Byte>, at: nat, first: nat, second: nat)
    requires at + 16 <= img.Length && first < WRAP64 && second < WRAP64
    modifies img
    ensures img[at..at + 8] == Put64(first) && img[at + 8..at + 16] == Put64(second)
    ensures forall k :: 0 <= k < img.Length && !(at <= k < at + 16) ==> img[k] == old(img[k])
  {
    hide Put64;
    CopyIn(img, at, Put64(first));
    CopyIn(img, at + 8, Put64(second));
  }

  /** Whether a name and its end mark fit a field. */
  predicate Fits(name: Option<seq<Byte>>, size: nat) {
    name.Some? ==> |name.value| + 1 <= size
  }

  /** Poke a name into its field, if there is one and it fits. */
  method SetName(img: array<Byte>, at: nat, size: nat, name: Option<seq<Byte>>) returns (ok: bool)
    requires at + size <= img.Length
    modifies img
    ensures ok <==> Fits(name, size)
    ensures ok ==> NameAt(img[..], at, name)
    ensures forall k :: 0 <= k < img.Length && !(ok && at <= k < at + NameSize(name)) ==> img[k] == old(img[k])
  {
    if name.Some? {
      if size < |name.value| + 1 {
        return false;
      }
      CopyIn(img, at, name.value + [0]);
      assert img[..][at..at + |name.value| + 1] == img[at..at + |name.value| + 1];
    }
    return true;
  }

  /** Bytes a name takes with its end mark. */
  function NameSize(name: Option<seq<Byte>>): nat {
    if name.Some? then |name.value| + 1 else 0
  }

  /** A name that was given stands at its place. */
  ghost predicate NameAt(img: seq<Byte>, at: nat, name: Option<seq<Byte>>) {
    name.Some? ==> at + |name.value| + 1 <= |img| && img[at..at + |name.value| + 1] == name.value + [0]
  }

  lemma NameKept(a: seq<Byte>, b: seq<Byte>, at: nat, name: Option<seq<Byte>>)
    requires NameAt(a, at, name) && |a| == |b| && forall k :: at <= k < at + NameSize(name) && k < |a| ==> b[k] == a[k]
    ensures NameAt(b, at, name)
  {
    if name.Some? { assert b[at..at + |name.value| + 1] == a[at..at + |name.value| + 1]; }
  }

  /** What the sector fields of the image hold. */
  ghost predicate HoldsMap(img: seq<Byte>, l: Layout, sm: seq<nat>) {
    && Lbas(sm) && |sm| >= 3 && Separate(l, |img|) && |Of(sm[1..|sm| - 2])| <= l.slots && Bounded(Of(sm[1..|sm| - 2]))
    && img[l.extents..l.extents + 10 * l.slots] == Table(Of(sm[1..|sm| - 2]), l.slots)
    && img[l.adv..l.adv + 8] == Put64(sm[|sm| - 2]) && img[l.adv + 8..l.adv + 16] == Put64(sm[|sm| - 1])
  }

  /** Changes elsewhere do not matter. */
  lemma HoldsFrame(a: seq<Byte>, b: seq<Byte>, l: Layout, sm: seq<nat>)
    requires HoldsMap(a, l, sm) && |a| == |b|
    requires forall k :: 0 <= k < |a| && (!Apart(k, 1, l.extents, 10 * l.slots) || !Apart(k, 1, l.adv, 16)) ==> a[k] == b[k]
    ensures HoldsMap(b, l, sm)
  {
    hide Table, Put64, Of;
    assert b[l.extents..l.extents + 10 * l.slots] == a[l.extents..l.extents + 10 * l.slots];
    assert b[l.adv..l.adv + 8] == a[l.adv..l.adv + 8] && b[l.adv + 8..l.adv + 16] == a[l.adv + 8..l.adv + 16];
  }

  lemma HoldsOutside(a: seq<Byte>, b: seq<Byte>, l: Layout, sm: seq<nat>, at: nat, n: nat)
    requires HoldsMap(a, l, sm) && |a| == |b| && Apart(l.extents, 10 * l.slots, at, n) && Apart(l.adv, 16, at, n)
    requires forall k :: 0 <= k < |a| && !(at <= k < at + n) ==> a[k] == b[k]
    ensures HoldsMap(b, l, sm)
  {
    HoldsFrame(a, b, l, sm);
  }

  lemma Bounds(l: Layout, size: nat)
    requires Separate(l, size)
    ensures Apart(l.extents, 10 * l.slots, l.adv, 16)
    ensures l.patch + 24 <= size && l.dir + l.dirlen <= size && l.subvol + l.subvollen <= size
    ensures l.extents + 10 * l.slots <= size && l.adv + 16 <= size
    ensures Apart(l.extents, 10 * l.slots, l.dir, l.dirlen) && Apart(l.adv, 16, l.dir, l.dirlen)
    ensures Apart(l.extents, 10 * l.slots, l.subvol, l.subvollen) && Apart(l.adv, 16, l.subvol, l.subvollen)
    ensures Apart(l.extents, 10 * l.slots, l.patch + 16, 4) && Apart(l.adv, 16, l.patch + 16, 4)
    ensures Apart(l.patch, 24, l.epa, 20) && Apart(l.dir, l.dirlen, l.epa, 20)
    ensures Apart(l.extents, 10 * l.slots, l.epa, 20) && Apart(l.adv, 16, l.epa, 20)
    ensures Apart(l.patch, 24, l.dir, l.dirlen) && Apart(l.patch, 24, l.subvol, l.subvollen) && Apart(l.subvol, l.subvollen, l.epa, 20)
    ensures Apart(l.patch, 24, l.adv, 16) && Apart(l.patch, 24, l.extents, 10 * l.slots)
  {
  }

  /** The extents stand for the sectors between the first one and the last two. */
  lemma HoldsExtents(img: seq<Byte>, l: Layout, sm: seq<nat>)
    requires HoldsMap(img, l, sm)
    ensures |sm| >= 3 && l.extents + 10 * l.slots <= |img|
    ensures var xs := Read(img[l.extents..l.extents + 10 * l.slots]);
            xs == Of(sm[1..|sm| - 2]) && Bounded(xs) && Expand(xs) == sm[1..|sm| - 2] && Lbas(sm[1..|sm| - 2])
  {
    hide Table, Of, Expand, Read, Bounded, Lbas, HoldsMap;
    HoldsTable(img, l, sm);
    var mid := sm[1..|sm| - 2];
    ReadTable(Of(mid), l.slots);
    ExpandsToMap(mid);
  }

  lemma HoldsTable(img: seq<Byte>, l: Layout, sm: seq<nat>)
    requires HoldsMap(img, l, sm)
    ensures |sm| >= 3 && l.extents + 10 * l.slots <= |img| && Lbas(sm[1..|sm| - 2])
    ensures var xs := Of(sm[1..|sm| - 2]); |xs| <= l.slots && Bounded(xs) && img[l.extents..l.extents + 10 * l.slots] == Table(xs, l.slots)
  {
    hide Table, Of, Bounded, Put64;
  }

  /** No other list of extents for them is shorter. */
  lemma HoldsFewest(img: seq<Byte>, l: Layout, sm: seq<nat>, ys: seq<Extent>)
    requires HoldsMap(img, l, sm) && Bounded(ys) && Expand(ys) == sm[1..|sm| - 2]
    ensures l.extents + 10 * l.slots <= |img| && |Read(img[l.extents..l.extents + 10 * l.slots])| <= |ys|
  {
    hide Of, Expand, Read, Bounded, Lbas, HoldsMap;
    HoldsExtents(img, l, sm);
    FewestExtents(ys);
  }

  lemma HoldsPointers(img: seq<Byte>, l: Layout, sm: seq<nat>)
    requires HoldsMap(img, l, sm)
    ensures |sm| >= 3 && l.extents + 10 * l.slots <= |img| && l.adv + 16 <= |img|
    ensures Get64(img, l.adv) == sm[|sm| - 2] && Get64(img, l.adv + 8) == sm[|sm| - 1]
  {
    hide Put64, Get64, Table, Of, Bounded, Lbas, Separate;
    MapParts(sm);
    Bounds(l, |img|);
    Read64(img, l.adv, sm[|sm| - 2]);
    Read64(img, l.adv + 8, sm[|sm| - 1]);
  }

  lemma SplitMap(sm: seq<nat>)
    requires |sm| >= 3
    ensures sm == [sm[0]] + sm[1..|sm| - 2] + [sm[|sm| - 2], sm[|sm| - 1]]
  {
  }

  /** So the map is read back as it was given. */
  lemma HoldsRecorded(boot: seq<Byte>, img: seq<Byte>, l: Layout, sm: seq<nat>)
    requires HoldsMap(img, l, sm) && l.ptr0 + 4 <= |boot| && l.ptr1 + 4 <= |boot|
    requires |sm| > 0 && Get32(boot, l.ptr0) + WRAP * Get32(boot, l.ptr1) == sm[0]
    ensures l.extents + 10 * l.slots <= |img| && l.adv + 16 <= |img| && Recorded(boot, img, l) == sm
  {
    hide Get32, Get64, Of, Expand, Bounded, Read, Lbas, HoldsMap;
    HoldsPointers(img, l, sm);
    HoldsExtents(img, l, sm);
    SplitMap(sm);
  }

  /** The extents and the pointers to the two copies of the auxiliary data vector. */
  method SetMap(img: array<Byte>, l: Layout, sm: seq<nat>)
    requires Lbas(sm) && |sm| >= 3 && Separate(l, img.Length) && |Of(sm[1..|sm| - 2])| <= l.slots
    modifies img
    ensures HoldsMap(img[..], l, sm)
    ensures forall k :: 0 <= k < img.Length && Apart(k, 1, l.extents, 10 * l.slots) && Apart(k, 1, l.adv, 16) ==> img[k] == old(img[k])
  {
    hide Table, Put64, Of, Separate, Lbas, Bounded, Outside, HoldsMap, Apart;
    MapParts(sm);
    Bounds(l, img.Length);
    ghost var was, lo, hi := img[..], l.extents, l.extents + 10 * l.slots;
    GenerateExtents(img, l.extents, l.slots, sm[1..|sm| - 2]);
    ghost var now := img[..];
    OutsideBytes(was, now, lo, hi);
    SetAdvPointers(img, l.adv, sm[|sm| - 2], sm[|sm| - 1]);
    MapSet(now, img[..], l, sm);
    BothOutside(was, now, img[..], l);
  }

  lemma MapParts(sm: seq<nat>)
    requires Lbas(sm) && |sm| >= 3
    ensures Lbas(sm[1..|sm| - 2]) && sm[|sm| - 2] < WRAP64 && sm[|sm| - 1] < WRAP64
  {
  }

  lemma BothOutside(a: seq<Byte>, b: seq<Byte>, c: seq<Byte>, l: Layout)
    requires |a| == |b| == |c|
    requires forall k :: 0 <= k < |a| && !(l.extents <= k < l.extents + 10 * l.slots) ==> a[k] == b[k]
    requires forall k :: 0 <= k < |a| && !(l.adv <= k < l.adv + 16) ==> c[k] == b[k]
    ensures forall k :: 0 <= k < |a| && Apart(k, 1, l.extents, 10 * l.slots) && Apart(k, 1, l.adv, 16) ==> c[k] == a[k]
  {
  }

  lemma MapSet(a: seq<Byte>, b: seq<Byte>, l: Layout, sm: seq<nat>)
    requires Lbas(sm) && |sm| >= 3 && Separate(l, |a|) && |a| == |b| && |Of(sm[1..|sm| - 2])| <= l.slots && Bounded(Of(sm[1..|sm| - 2]))
    requires a[l.extents..l.extents + 10 * l.slots] == Table(Of(sm[1..|sm| - 2]), l.slots)
    requires b[l.adv..l.adv + 8] == Put64(sm[|sm| - 2]) && b[l.adv + 8..l.adv + 16] == Put64(sm[|sm| - 1])
    requires forall k :: 0 <= k < |a| && !(l.adv <= k < l.adv + 16) ==> b[k] == a[k]
    ensures HoldsMap(b, l, sm)
  {
    hide Table, Put64, Of, Separate, Lbas, Bounded;
    Bounds(l, |a|);
    assert b[l.extents..l.extents + 10 * l.slots] == a[l.extents..l.extents + 10 * l.slots];
  }

  lemma OutsideBytes(a: seq<Byte>, b: seq<Byte>, lo: nat, hi: nat)
    requires Outside(a, b, lo, hi)
    ensures |a| == |b| && forall k :: 0 <= k < |a| && !(lo <= k < hi) ==> a[k] == b[k]
  {
    forall k | 0 <= k < |a| && !(lo <= k < hi)
      ensures a[k] == b[k]
    {
      if k < lo {
        assert a[k] == a[..lo][k] && b[k] == b[..lo][k];
      } else {
        assert a[k] == a[hi..][k - hi] && b[k] == b[hi..][k - hi];
      }
    }
  }

  /** syslinux_patch. The patch area is at the at-th word, and l is what it and the extended patch area say. */
  method SyslinuxPatch(boot: array<Byte>, img: array<Byte>, sects: seq<nat>, stupid: bool, raid: bool,
                       subdir: Option<seq<Byte>>, subvol: Option<seq<Byte>>, ghost at: nat, ghost l: Layout) returns (r: Result)
    requires boot != img && Lbas(sects) && img.Length < WRAP
    requires 4 * at + 24 <= img.Length && Get32(img[..], 4 * at) == MAGIC && forall j :: 0 <= j < at ==> Get32(img[..], 4 * j) != MAGIC
    requires Get16(img[..], 4 * at + 22) + 20 <= img.Length && l == LayoutOf(img[..], 4 * at)
    requires Separate(l, img.Length) && SeparateInBoot(l, boot.Length)
    requires |sects| >= Needed(img.Length) ==> |Of(sects[1..Needed(img.Length) - 2])| <= l.slots
    modifies boot, img
    ensures r == if |sects| < Needed(img.Length) then TooSmall
                 else if Fits(subdir, l.dirlen) && Fits(subvol, l.subvollen) then Patched(img.Length / 4 * 4) else TooLong
    ensures r == TooSmall ==> boot[..] == old(boot[..]) && img[..] == old(img[..])
    ensures r.Patched? ==> Installed(boot[..], img[..], l, sects[..Needed(img.Length)])
    ensures r.Patched? ==> Marked(boot[..], img[..], l, stupid, raid, subdir, subvol)
    ensures r.Patched? ==> Only(old(boot[..]), boot[..], old(img[..]), img[..], l, stupid, raid, subdir, subvol)
  {
    hide Marked, Only, Apart, Recorded, HoldsMap, Needed, Lbas, FieldsOf, Separate, SeparateInBoot, LayoutOf, Get32, Get16, Of, Fits, Installed;
    NeededSome(img.Length);
    var nsect := (img.Length + 511) / 512 + 2;
    if |sects| < nsect {
      return TooSmall;
    }
    var layout := FindLayout(img, at);
    PrefixMap(sects, nsect);
    r := Install(boot, img, layout, sects[..nsect], stupid, raid, subdir, subvol);
  }

  lemma PrefixMap(sects: seq<nat>, n: nat)
    requires Lbas(sects) && 3 <= n <= |sects|
    ensures Lbas(sects[..n]) && sects[..n][1..n - 2] == sects[1..n - 2]
  {
  }

  /** Boot sector and image record the sector map, and the image sums to the magic number. */
  ghost predicate Installed(boot: seq<Byte>, img: seq<Byte>, l: Layout, sm: seq<nat>) {
    && SeparateInBoot(l, |boot|) && HoldsMap(img, l, sm) && Recorded(boot, img, l) == sm
    && WordSum(img, |img| / 4) % WRAP == MAGIC
  }

  /** The other fields: totals, names unless the subvolume is written over the directory, and the RAID patch. */
  ghost predicate Marked(boot: seq<Byte>, img: seq<Byte>, l: Layout, stupid: bool, raid: bool,
                         subdir: Option<seq<Byte>>, subvol: Option<seq<Byte>>) {
    && Totals(img, l.patch, stupid)
    && (Apart(l.dir, NameSize(subdir), l.subvol, NameSize(subvol)) ==> NameAt(img, l.dir, subdir)) && NameAt(img, l.subvol, subvol)
    && (raid ==> l.raid + 2 <= |boot| && Get16(boot, l.raid) == 0x18CD)
  }

  /** Byte k of the boot sector is in none of its fields. */
  ghost predicate OutsideBoot(k: nat, l: Layout, raid: bool) {
    Apart(k, 1, l.ptr0, 4) && Apart(k, 1, l.ptr1, 4) && (raid ==> Apart(k, 1, l.raid, 2))
  }

  /** Byte k of the image is none of the totals, nor in the sector map. */
  ghost predicate OutsideTable(k: nat, l: Layout, stupid: bool) {
    && !(l.patch + 8 <= k < l.patch + 16) && !(stupid && l.patch + 20 <= k < l.patch + 22)
    && Apart(k, 1, l.extents, 10 * l.slots) && Apart(k, 1, l.adv, 16)
  }

  ghost predicate OutsideNames(k: nat, l: Layout, subdir: Option<seq<Byte>>, subvol: Option<seq<Byte>>) {
    !(l.dir <= k < l.dir + NameSize(subdir)) && !(l.subvol <= k < l.subvol + NameSize(subvol))
  }

  ghost predicate OutsideImage(k: nat, l: Layout, stupid: bool, subdir: Option<seq<Byte>>, subvol: Option<seq<Byte>>) {
    OutsideTable(k, l, stupid) && OutsideNames(k, l, subdir, subvol) && !(l.patch + 16 <= k < l.patch + 20)
  }

  /** Nothing else changes. */
  ghost predicate Only(boot0: seq<Byte>, boot: seq<Byte>, img0: seq<Byte>, img: seq<Byte>, l: Layout, stupid: bool, raid: bool,
                       subdir: Option<seq<Byte>>, subvol: Option<seq<Byte>>) {
    && |boot| == |boot0| && (forall k :: 0 <= k < |boot| && OutsideBoot(k, l, raid) ==> boot[k] == boot0[k])
    && |img| == |img0| && (forall k :: 0 <= k < |img| && OutsideImage(k, l, stupid, subdir, subvol) ==> img[k] == img0[k])
  }

  /** The part of syslinux_patch after the patch area is found. */
  method Install(boot: array<Byte>, img: array<Byte>, l: Layout, sm: seq<nat>, stupid: bool, raid: bool,
                 subdir: Option<seq<Byte>>, subvol: Option<seq<Byte>>) returns (r: Result)
    requires boot != img && Separate(l, img.Length) && SeparateInBoot(l, boot.Length) && l.patch % 4 == 0 && img.Length < WRAP
    requires l.epa + 20 <= img.Length && l == FieldsOf(img[..], l.patch, l.epa)
    requires Lbas(sm) && |sm| == Needed(img.Length) >= 3 && |Of(sm[1..|sm| - 2])| <= l.slots
    modifies boot, img
    ensures r == if Fits(subdir, l.dirlen) && Fits(subvol, l.subvollen) then Patched(img.Length / 4 * 4) else TooLong
    ensures r.Patched? ==> Installed(boot[..], img[..], l, sm)
    ensures r.Patched? ==> Marked(boot[..], img[..], l, stupid, raid, subdir, subvol)
    ensures r.Patched? ==> Only(old(boot[..]), boot[..], old(img[..]), img[..], l, stupid, raid, subdir, subvol)
  {
    hide Separate, SeparateInBoot, HoldsMap, Get32, Get16, Recorded, WordSum, Of, Fits, FieldsOf, Needed, OutsideBoot, OutsideImage, Totals, NameAt;
    BootBounds(l, boot.Length);
    PatchBoot(boot, l, sm[0], raid);
    r := PatchImage(img, l, sm, stupid, subdir, subvol);
    if r.Patched? { HoldsRecorded(boot[..], img[..], l, sm); }
  }

  /** The part of syslinux_patch that writes to the image. */
  method PatchImage(img: array<Byte>, l: Layout, sm: seq<nat>, stupid: bool, subdir: Option<seq<Byte>>, subvol: Option<seq<Byte>>) returns (r: Result)
    requires Separate(l, img.Length) && Lbas(sm) && |sm| == Needed(img.Length) >= 3 && |Of(sm[1..|sm| - 2])| <= l.slots
    requires l.patch % 4 == 0 && img.Length < WRAP
    requires l.epa + 20 <= img.Length && l == FieldsOf(img[..], l.patch, l.epa)
    modifies img
    ensures r == if Fits(subdir, l.dirlen) && Fits(subvol, l.subvollen) then Patched(img.Length / 4 * 4) else TooLong
    ensures r.Patched? ==> HoldsMap(img[..], l, sm) && WordSum(img[..], img.Length / 4) % WRAP == MAGIC
    ensures r.Patched? ==> ImageMarked(img[..], l, stupid, subdir, subvol)
    ensures r.Patched? ==> forall k :: 0 <= k < img.Length && OutsideImage(k, l, stupid, subdir, subvol) ==> img[k] == old(img[k])
  {
    hide Separate, HoldsMap, Get32, Get16, WordSum, Of, Fits, FieldsOf, Lbas, Totals, Needed, OutsideTable, OutsideNames, ImageMarked, NameAt, Apart;
    Bounds(l, img.Length);
    var dw := img.Length / 4;
    SetTable(img, l, sm, dw, stupid);
    var ok := SetNames(img, l, sm, stupid, subdir, subvol);
    if !ok {
      return TooLong;
    }
    ghost var a := img[..];
    SetChecksum(img, l.patch, dw);
    HoldsOutside(a, img[..], l, sm, l.patch + 16, 4);
    MarkedKept(a, img[..], l, stupid, subdir, subvol);
    return Patched(dw * 4);
  }

  /** The part of `Marked` about the image. */
  ghost predicate ImageMarked(img: seq<Byte>, l: Layout, stupid: bool, subdir: Option<seq<Byte>>, subvol: Option<seq<Byte>>) {
    && Totals(img, l.patch, stupid) && NameAt(img, l.subvol, subvol)
    && (Apart(l.dir, NameSize(subdir), l.subvol, NameSize(subvol)) ==> NameAt(img, l.dir, subdir))
  }

  /** The checksum is none of those fields. */
  lemma MarkedKept(a: seq<Byte>, b: seq<Byte>, l: Layout, stupid: bool, subdir: Option<seq<Byte>>, subvol: Option<seq<Byte>>)
    requires ImageMarked(a, l, stupid, subdir, subvol) && |a| == |b| && Separate(l, |a|)
    requires Fits(subdir, l.dirlen) && Fits(subvol, l.subvollen)
    requires forall k :: 0 <= k < |a| && !(l.patch + 16 <= k < l.patch + 20) ==> b[k] == a[k]
    ensures ImageMarked(b, l, stupid, subdir, subvol)
  {
    hide Totals, NameAt;
    TotalsKept(a, b, l.patch, stupid);
    NameKept(a, b, l.subvol, subvol);
    if Apart(l.dir, NameSize(subdir), l.subvol, NameSize(subvol)) { NameKept(a, b, l.dir, subdir); }
  }

  /** The totals and the sector map. */
  method SetTable(img: array<Byte>, l: Layout, sm: seq<nat>, dw: nat, stupid: bool)
    requires Separate(l, img.Length) && Lbas(sm) && |sm| == Needed(img.Length) >= 3 && |Of(sm[1..|sm| - 2])| <= l.slots
    requires dw == img.Length / 4 && img.Length < WRAP
    requires l.epa + 20 <= img.Length && l == FieldsOf(img[..], l.patch, l.epa)
    modifies img
    ensures HoldsMap(img[..], l, sm) && l == FieldsOf(img[..], l.patch, l.epa) && Totals(img[..], l.patch, stupid)
    ensures forall k :: 0 <= k < img.Length && OutsideTable(k, l, stupid) ==> img[k] == old(img[k])
  {
    hide Separate, HoldsMap, Get32, Get16, Of, FieldsOf, Lbas, Put16, Put32, Needed, Totals;
    Bounds(l, img.Length);
    ghost var a := img[..];
    SetTotals(img, l.patch, |sm|, dw, stupid);
    TotalsSet(img[..], l.patch, stupid);
    FieldsKept(a, img[..], l.patch, l.epa, l.patch, 24);
    var now := Reread(img, l.patch, l.epa);
    a := img[..];
    SetMap(img, now, sm);
    FieldsKeptTwice(a, img[..], l);
    TotalsKept(a, img[..], l.patch, stupid);
  }

  /** The names, each into the field the image names by then. */
  method SetNames(img: array<Byte>, l: Layout, ghost sm: seq<nat>, ghost stupid: bool,
                  subdir: Option<seq<Byte>>, subvol: Option<seq<Byte>>) returns (ok: bool)
    requires Separate(l, img.Length) && HoldsMap(img[..], l, sm) && l.epa + 20 <= img.Length && l == FieldsOf(img[..], l.patch, l.epa)
    requires Totals(img[..], l.patch, stupid)
    modifies img
    ensures ok <==> Fits(subdir, l.dirlen) && Fits(subvol, l.subvollen)
    ensures HoldsMap(img[..], l, sm)
    ensures ok ==> ImageMarked(img[..], l, stupid, subdir, subvol)
    ensures ok ==> forall k :: 0 <= k < img.Length && OutsideNames(k, l, subdir, subvol) ==> img[k] == old(img[k])
  {
    hide Separate, HoldsMap, Get16, FieldsOf, Totals, NameAt;
    Bounds(l, img.Length);
    var now := Reread(img, l.patch, l.epa);
    ok := PokeName(img, l, sm, stupid, now.dir, now.dirlen, subdir);
    if !ok {
      return;
    }
    now := Reread(img, l.patch, l.epa);
    ghost var b := img[..];
    ok := PokeName(img, l, sm, stupid, now.subvol, now.subvollen, subvol);
    if ok && Apart(l.dir, NameSize(subdir), l.subvol, NameSize(subvol)) { NameKept(b, img[..], l.dir, subdir); }
  }

  /** A name goes into a field of its own, and leaves the others as they are. */
  method PokeName(img: array<Byte>, l: Layout, ghost sm: seq<nat>, ghost stupid: bool, at: nat, size: nat, name: Option<seq<Byte>>) returns (ok: bool)
    requires HoldsMap(img[..], l, sm) && l.epa + 20 <= img.Length && l == FieldsOf(img[..], l.patch, l.epa) && Totals(img[..], l.patch, stupid)
    requires l.patch + 24 <= img.Length && at + size <= img.Length && Apart(l.extents, 10 * l.slots, at, size) && Apart(l.adv, 16, at, size)
    requires Apart(l.patch, 24, at, size) && Apart(at, size, l.epa, 20)
    modifies img
    ensures ok <==> Fits(name, size)
    ensures HoldsMap(img[..], l, sm) && l == FieldsOf(img[..], l.patch, l.epa) && Totals(img[..], l.patch, stupid)
    ensures ok ==> NameAt(img[..], at, name)
    ensures forall k :: 0 <= k < img.Length && !(at <= k < at + NameSize(name)) ==> img[k] == old(img[k])
  {
    hide HoldsMap, Get16, FieldsOf, Totals, NameAt;
    ghost var a := img[..];
    ok := SetName(img, at, size, name);
    HoldsOutside(a, img[..], l, sm, at, size);
    FieldsKept(a, img[..], l.patch, l.epa, at, size);
    TotalsKept(a, img[..], l.patch, stupid);
  }

  /** The fields are read again each time they are needed, from the image as it is by then. */
  method Reread(img: array<Byte>, p: nat, e: nat) returns (l: Layout)
    requires e + 20 <= img.Length
    ensures l == FieldsOf(img[..], p, e)
  {
    l := FieldsOf(img[..], p, e);
  }

  lemma FieldsKeptTwice(a: seq<Byte>, b: seq<Byte>, l: Layout)
    requires l.epa + 20 <= |a| == |b| && Apart(l.extents, 10 * l.slots, l.epa, 20) && Apart(l.adv, 16, l.epa, 20)
    requires forall k :: 0 <= k < |a| && Apart(k, 1, l.extents, 10 * l.slots) && Apart(k, 1, l.adv, 16) ==> b[k] == a[k]
    ensures FieldsOf(b, l.patch, l.epa) == FieldsOf(a, l.patch, l.epa)
  {
    SameFields(a, b, l.patch, l.epa);
  }

  lemma BootBounds(l: Layout, size: nat)
    requires SeparateInBoot(l, size)
    ensures l.ptr0 + 4 <= size && l.ptr1 + 4 <= size && l.raid + 2 <= size
  {
  }

  /** Find the patch area and read the offsets of the patch fields. */
  method FindLayout(img: array<Byte>, ghost at: nat) returns (l: Layout)
    requires 4 * at + 24 <= img.Length && Get32(img[..], 4 * at) == MAGIC && forall j :: 0 <= j < at ==> Get32(img[..], 4 * j) != MAGIC
    requires Get16(img[..], 4 * at + 22) + 20 <= img.Length
    ensures l == LayoutOf(img[..], 4 * at) && l.patch % 4 == 0 && l.epa + 20 <= img.Length && l == FieldsOf(img[..], l.patch, l.epa)
  {
    hide Get32, Get16;
    var p := FindPatch(img, at);
    l := LayoutOf(img[..], p);
  }
}
