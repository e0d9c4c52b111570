/**
 FAT volumes (libfat): the file allocation table as packed entries, and the sectors of a cluster chain.
 */
module FatSpec {
  import opened Widths
  import opened Bytes
  import opened Options

  const SECTOR: nat := 512

  type Sector = d: seq<Byte> | |d| == 512 witness Zeros(512)
  type Disk = map<nat, Sector>

  datatype Kind = Fat12 | Fat16 | Fat28

  /** The fields libfat_open computes; libfat_sector_t values and cluster numbers as integers. */
  datatype Geometry = Geometry(kind: Kind, clustSize: nat, endCluster: nat, rootCluster: nat, fat: nat, rootDir: nat, data: nat, end: nat)

  /** Values from here on end a chain. */
  function EndMark(k: Kind): nat {
    match k
    case Fat12 => 0xFF8
    case Fat16 => 0xFFF8
    case Fat28 => 0xFFF_FFF8
  }

  // ---- The table as packed entries ----

  /** Bytes of the table that hold entries 0 to n. */
  function Extent(k: Kind, n: nat): nat {
    match k
    case Fat12 => n + n / 2 + 2
    case Fat16 => 2 * n + 2
    case Fat28 => 4 * n + 4
  }

  /**
   Entry n of a table. Two 12-bit entries share three bytes: the first has the first byte and the low half
   of the second, the other the high half of the second and the third.
   */
  function Entry(f: seq<Byte>, k: Kind, n: nat): nat
    requires Extent(k, n) <= |f|
  {
    match k
    case Fat12 =>
      var m := n / 2 * 3;
      if n % 2 == 0 then f[m] as int + 0x100 * (f[m + 1] as int % 16) else f[m + 1] as int / 16 + 16 * (f[m + 2] as int)
    case Fat16 => Get16(f, 2 * n)
    case Fat28 => Get32(f, 4 * n) % 0x1000_0000
  }

  /** The bytes f are the table on the disk. */
  ghost predicate IsTable(disk: Disk, g: Geometry, f: seq<Byte>) {
    forall k :: 0 <= k < |f| ==> ByteAt(disk, g, k) == Some(f[k])
  }

  // ---- What the code reads ----

  function ByteAt(disk: Disk, g: Geometry, k: nat): Option<Byte> {
    var s := g.fat + k / SECTOR;
    if s in disk then Some(disk[s][k % SECTOR]) else None
  }

  /** An entry of n bytes at a multiple of n does not cross the end of its sector. */
  lemma Aligned(k: nat, c: nat, n: nat)
    requires (n == 2 || n == 4) && k == n * c
    ensures k % SECTOR + n <= SECTOR
  {
    var q, r := k / 512, k % 512;
    if n == 2 {
      assert r == 2 * (c - 256 * q);
    } else {
      assert r == 4 * (c - 128 * q);
    }
  }

  /** The part of libfat_nextsector that assembles the next cluster number. */
  function Link(disk: Disk, g: Geometry, c: nat): Option<nat> {
    match g.kind
    case Fat12 =>
      var o := c + c / 2;
      var b0, b1 := ByteAt(disk, g, o), ByteAt(disk, g, o + 1);
      if b0 == None || b1 == None then None
      else
        var v := b0.value as int + 0x100 * (b1.value as int);
        Some(if c % 2 == 1 then v / 16 else v % 0x1000)
    case Fat16 =>
      var k := 2 * c;
      var s := g.fat + k / SECTOR;
      Aligned(k, c, 2);
      if s in disk then Some(Get16(disk[s], k % SECTOR)) else None
    case Fat28 =>
      var k := 4 * c;
      var s := g.fat + k / SECTOR;
      Aligned(k, c, 4);
      if s in disk then Some(Get32(disk[s], k % SECTOR) % 0x1000_0000) else None
  }

  /** libfat_clustertosector; -1 is an error. */
  function ClusterToSector(g: Geometry, cluster: nat): int {
    var c := if cluster == 0 then g.rootCluster else cluster;
    if c == 0 then g.rootDir else if c < 2 || c >= g.endCluster then -1 else g.data + (c - 2) * g.clustSize
  }

  /** libfat_nextsector; 0 is the end, -1 an error. */
  function Next(disk: Disk, g: Geometry, s: nat): int
    requires g.clustSize > 0
  {
    if s < g.data then (if s < g.rootDir then -1 else if s + 1 < g.data then s + 1 else 0)
    else
      var rs := s - g.data;
      if rs % g.clustSize != g.clustSize - 1 then s + 1
      else
        var c := 2 + rs / g.clustSize;
        if c >= g.endCluster then -1
        else
          var v := Link(disk, g, c);
          if v == None then -1 else if v.value >= EndMark(g.kind) then 0 else ClusterToSector(g, v.value)
  }

  /** What is read from the sectors is the packed entry. */
  lemma LinkIsEntry(disk: Disk, g: Geometry, f: seq<Byte>, c: nat)
    requires IsTable(disk, g, f) && Extent(g.kind, c) <= |f|
    ensures Link(disk, g, c) == Some(Entry(f, g.kind, c))
  {
    match g.kind {
      case Fat12 =>
        Link12(disk, g, f, c);
      case Fat16 =>
        SameSector(disk, g, f, 2 * c, 2);
      case Fat28 =>
        SameSector(disk, g, f, 4 * c, 4);
    }
  }

  lemma Link12(disk: Disk, g: Geometry, f: seq<Byte>, c: nat)
    requires IsTable(disk, g, f) && g.kind == Fat12 && c + c / 2 + 2 <= |f|
    ensures Link(disk, g, c) == Some(Entry(f, g.kind, c))
  {
    var o := c + c / 2;
    assert ByteAt(disk, g, o) == Some(f[o]) && ByteAt(disk, g, o + 1) == Some(f[o + 1]);
    hide ByteAt, IsTable;
    var m := c / 2 * 3;
    assert if c % 2 == 0 then o == m else o == m + 1;
    Nibbles(f[o], f[o + 1]);
  }

  lemma Nibbles(a: Byte, b: Byte)
    ensures var v := a as int + 0x100 * (b as int); v % 0x1000 == a as int + 0x100 * (b as int % 16) && v / 16 == a as int / 16 + 16 * (b as int)
  {
  }

  /** An aligned entry of n bytes lies in one sector. */
  lemma SameSector(disk: Disk, g: Geometry, f: seq<Byte>, k: nat, n: nat)
    requires IsTable(disk, g, f) && (n == 2 || n == 4) && k % n == 0 && k + n <= |f|
    ensures var s := g.fat + k / SECTOR; s in disk && k % SECTOR + n <= SECTOR && disk[s][k % SECTOR..k % SECTOR + n] == f[k..k + n]
    ensures var s := g.fat + k / SECTOR; (n == 2 ==> Get16(disk[s], k % SECTOR) == Get16(f, k)) && (n == 4 ==> Get32(disk[s], k % SECTOR) == Get32(f, k))
  {
    var s := g.fat + k / SECTOR;
    assert ByteAt(disk, g, k) == Some(f[k]);
    var x, y := disk[s][k % SECTOR..k % SECTOR + n], f[k..k + n];
    forall j | 0 <= j < n
      ensures x[j] == y[j]
    {
      assert (k + j) / SECTOR == k / SECTOR && (k + j) % SECTOR == k % SECTOR + j;
      assert ByteAt(disk, g, k + j) == Some(f[k + j]);
    }
    assert x[0] == y[0] && x[1] == y[1];
    if n == 4 { assert x[2] == y[2] && x[3] == y[3]; }
    assert disk[s][k % SECTOR] == f[k] && disk[s][k % SECTOR + 1] == f[k + 1];
    if n == 4 { assert disk[s][k % SECTOR + 2] == f[k + 2] && disk[s][k % SECTOR + 3] == f[k + 3]; }
  }

  // ---- Chains ----

  /** Clusters of a file or directory: each entry links to the next one, the last one ends the chain. */
  ghost predicate IsChain(f: seq<Byte>, g: Geometry, chain: seq<nat>) {
    && |chain| > 0 && (forall i :: 0 <= i < |chain| ==> 2 <= chain[i] < g.endCluster && Extent(g.kind, chain[i]) <= |f|)
    && (forall i :: 0 <= i < |chain| - 1 ==> Entry(f, g.kind, chain[i]) == chain[i + 1])
    && Entry(f, g.kind, chain[|chain| - 1]) >= EndMark(g.kind)
  }

  /** Cluster numbers stay below the marks that end a chain. */
  ghost predicate Sound(g: Geometry) {
    g.clustSize > 0 && g.endCluster <= EndMark(g.kind)
  }

  /** All sectors of the clusters, in order. */
  function ChainSectors(g: Geometry, chain: seq<nat>): (s: seq<nat>)
    requires g.clustSize > 0 && forall i :: 0 <= i < |chain| ==> chain[i] >= 2
    ensures |s| == |chain| * g.clustSize
  {
    if |chain| == 0 then [] else ClusterSectors(g, chain[0]) + ChainSectors(g, chain[1..])
  }

  /** The first sector of cluster c. */
  function FirstSector(g: Geometry, c: nat): (s: nat)
    requires c >= 2
    ensures s >= g.data
  {
    g.data + Product(c - 2, g.clustSize)
  }

  /** A product of natural numbers is one. */
  function Product(a: nat, b: nat): nat {
    a * b
  }

  function ClusterSectors(g: Geometry, c: nat): (s: seq<nat>)
    requires c >= 2
    ensures |s| == g.clustSize && forall j :: 0 <= j < g.clustSize ==> s[j] == FirstSector(g, c) + j
  {
    seq(g.clustSize, j => FirstSector(g, c) + j)
  }

  /** The sectors found from s on by asking for the next one until there is none: a walk of n steps. */
  ghost predicate Walks(disk: Disk, g: Geometry, w: seq<nat>, last: int)
    requires g.clustSize > 0
  {
    |w| > 0 && (forall i :: 0 <= i < |w| - 1 ==> Next(disk, g, w[i]) == w[i + 1]) && Next(disk, g, w[|w| - 1]) == last
  }

  lemma InCluster(disk: Disk, g: Geometry, c: nat, j: nat)
    requires g.clustSize > 0 && c >= 2 && j < g.clustSize
    ensures var s := FirstSector(g, c) + j;
            && (j + 1 < g.clustSize ==> Next(disk, g, s) == s + 1)
            && (j + 1 == g.clustSize && c < g.endCluster ==>
                  Next(disk, g, s) == var v := Link(disk, g, c);
                                      if v == None then -1 else if v.value >= EndMark(g.kind) then 0 else ClusterToSector(g, v.value))
  {
    DivMod(c - 2, g.clustSize, j);
  }

  lemma DivMod(q: nat, m: nat, r: nat)
    requires r < m
    ensures (q * m + r) / m == q && (q * m + r) % m == r
  {
    var x := q * m + r;
    var d := x / m;
    assert x == d * m + x % m;
    if d < q {
      Scale(m, d + 1, q);
    } else if d > q {
      Scale(m, q + 1, d);
    }
  }

  /** Walking a cluster and then a walk from the sector its link leads to. */
  lemma JoinWalks(disk: Disk, g: Geometry, c: nat, w: seq<nat>, last: int)
    requires g.clustSize > 0 && 2 <= c < g.endCluster
    requires var v := Link(disk, g, c);
             v.Some? && if |w| == 0 then v.value >= EndMark(g.kind) && last == 0
                        else v.value < EndMark(g.kind) && ClusterToSector(g, v.value) == w[0] && Walks(disk, g, w, last)
    ensures Walks(disk, g, ClusterSectors(g, c) + w, last)
  {
    var x := ClusterSectors(g, c);
    var z := x + w;
    forall i | 0 <= i < |z| - 1
      ensures Next(disk, g, z[i]) == z[i + 1]
    {
      if i < g.clustSize {
        InCluster(disk, g, c, i);
      } else {
        assert z[i] == w[i - g.clustSize];
      }
    }
    if |w| == 0 { InCluster(disk, g, c, g.clustSize - 1); }
  }

  /** From the first sector of a chain the walk is exactly the sectors of its clusters, in order, and then the end. */
  lemma {:induction false} ChainWalk(disk: Disk, g: Geometry, f: seq<Byte>, chain: seq<nat>)
    requires Sound(g) && IsTable(disk, g, f) && IsChain(f, g, chain)
    ensures Walks(disk, g, ChainSectors(g, chain), 0) && ChainSectors(g, chain)[0] == ClusterToSector(g, chain[0])
    decreases |chain|
  {
    hide Next, Link, Entry, Extent, Walks;
    var c := chain[0];
    LinkIsEntry(disk, g, f, c);
    assert ClusterSectors(g, c)[0] == ClusterToSector(g, c);
    if |chain| == 1 {
      assert ChainSectors(g, chain) == ClusterSectors(g, c) + [];
      JoinWalks(disk, g, c, [], 0);
    } else {
      var more := chain[1..];
      assert IsChain(f, g, more);
      ChainWalk(disk, g, f, more);
      assert Entry(f, g.kind, c) == chain[1] == more[0];
      JoinWalks(disk, g, c, ChainSectors(g, more), 0);
    }
  }

  /** A root directory of its own is the sectors up to the data area. */
  lemma RootWalk(disk: Disk, g: Geometry, w: seq<nat>)
    requires g.clustSize > 0 && g.rootCluster == 0 && g.rootDir < g.data
    requires |w| == g.data - g.rootDir && forall i :: 0 <= i < |w| ==> w[i] == g.rootDir + i
    ensures Walks(disk, g, w, 0) && w[0] == ClusterToSector(g, 0)
  {
  }
}
