/**
 Bytes, and words stored in them with the low byte first.
 */
module Bytes {
  import opened Widths

  function Get32(d: seq<Byte>, k: nat): (v: nat)
    requires k + 4 <= |d|
    ensures v < WRAP
  {
    d[k] as int + 0x100 * (d[k + 1] as int) + 0x1_0000 * (d[k + 2] as int) + 0x100_0000 * (d[k + 3] as int)
  }

  function Put32(v: nat): (d: seq<Byte>)
    requires v < WRAP
    ensures |d| == 4 && Get32(d, 0) == v
  {
    var a, b, c := v / 0x100, v / 0x1_0000, v / 0x100_0000;
    [v % 0x100, a % 0x100, b % 0x100, c]
  }

  lemma SameWord(d: seq<Byte>, k: nat, w: seq<Byte>)
    requires k + 4 <= |d| && |w| == 4 && d[k..k + 4] == w
    ensures Get32(d, k) == Get32(w, 0)
  {
    assert d[k] == w[0] && d[k + 1] == w[1] && d[k + 2] == w[2] && d[k + 3] == w[3];
  }

  lemma WordUnique(d: seq<Byte>, e: seq<Byte>, k: nat)
    requires k + 4 <= |d| == |e| && Get32(d, k) == Get32(e, k)
    ensures d[k..k + 4] == e[k..k + 4]
  {
    Digit(0x100_0000, d[k] as int + 0x100 * (d[k + 1] as int) + 0x1_0000 * (d[k + 2] as int), d[k + 3] as int,
          e[k] as int + 0x100 * (e[k + 1] as int) + 0x1_0000 * (e[k + 2] as int), e[k + 3] as int);
    Digit(0x1_0000, d[k] as int + 0x100 * (d[k + 1] as int), d[k + 2] as int,
          e[k] as int + 0x100 * (e[k + 1] as int), e[k + 2] as int);
    Digit(0x100, d[k] as int, d[k + 1] as int, e[k] as int, e[k + 1] as int);
  }

  lemma Digit(m: nat, x: nat, a: nat, y: nat, b: nat)
    requires x < m && y < m && x + m * a == y + m * b
    ensures x == y && a == b
  {
    if a < b {
      Scale(m, a + 1, b);
    } else if b < a {
      Scale(m, b + 1, a);
    }
  }

  lemma Scale(m: nat, x: nat, y: nat)
    requires x <= y
    ensures m * x <= m * y
  {
    assert m * y == m * x + m * (y - x);
  }

  // ---- Other widths ----

  function Get16(d: seq<Byte>, k: nat): (v: nat)
    requires k + 2 <= |d|
    ensures v < 0x1_0000
  {
    d[k] as int + 0x100 * (d[k + 1] as int)
  }

  function Put16(v: nat): (d: seq<Byte>)
    requires v < 0x1_0000
    ensures |d| == 2 && Get16(d, 0) == v
  {
    [v % 0x100, v / 0x100]
  }

  function Get64(d: seq<Byte>, k: nat): (v: nat)
    requires k + 8 <= |d|
    ensures v < WRAP64
  {
    Get32(d, k) + WRAP * Get32(d, k + 4)
  }

  function Put64(v: nat): (d: seq<Byte>)
    requires v < WRAP64
    ensures |d| == 8 && d[0..4] == Put32(v % WRAP) && d[4..8] == Put32(v / WRAP)
  {
    Put32(v % WRAP) + Put32(v / WRAP)
  }

  lemma Same16(d: seq<Byte>, k: nat, w: seq<Byte>)
    requires k + 2 <= |d| && |w| == 2 && d[k..k + 2] == w
    ensures Get16(d, k) == Get16(w, 0)
  {
    assert d[k] == w[0] && d[k + 1] == w[1];
  }

  lemma Read64(d: seq<Byte>, k: nat, v: nat)
    requires k + 8 <= |d| && v < WRAP64 && d[k..k + 8] == Put64(v)
    ensures Get64(d, k) == v
  {
    hide Get32, Put32;
    assert d[k..k + 4] == d[k..k + 8][0..4] && d[k + 4..k + 8] == d[k..k + 8][4..8];
    SameWord(d, k, Put32(v % WRAP));
    SameWord(d, k + 4, Put32(v / WRAP));
  }

  // ---- Buffers ----

  /** Copy bytes into a buffer. */
  method CopyIn(a: array<Byte>, at: nat, d: seq<Byte>)
    requires at + |d| <= a.Length
    modifies a
    ensures a[at..at + |d|] == d
    ensures forall j :: 0 <= j < a.Length && !(at <= j < at + |d|) ==> a[j] == old(a[j])
  {
    var k := 0;
    while k < |d|
      invariant 0 <= k <= |d|
      invariant forall j :: 0 <= j < a.Length && !(at <= j < at + k) ==> a[j] == old(a[j])
      invariant forall j :: at <= j < at + k ==> a[j] == d[j - at]
    {
      a[at + k] := d[k];
      k := k + 1;
    }
  }

  function Zeros(n: nat): (z: seq<Byte>)
    ensures |z| == n && forall k :: 0 <= k < n ==> z[k] == 0
  {
    seq(n, _ => 0)
  }
}
