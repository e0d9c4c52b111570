/**
 libfat at work: opening a volume, its sector cache, following chains and searching directories.
 */
module Fat {
  import opened Widths
  import opened Bytes
  import opened Options
  import opened FatSpec

  // ---- libfat_open ----

  function FatSize(bs: Sector): nat {
    if Get16(bs, 22) != 0 then Get16(bs, 22) else Get32(bs, 36)
  }

  function Sectors(bs: Sector): nat {
    if Get16(bs, 19) != 0 then Get16(bs, 19) else Get32(bs, 32)
  }

  /** Sectors the table must have for n clusters, as libfat_open computes it. */
  function MinFatSize(k: Kind, endCluster: nat): nat {
    var bytes := match k case Fat12 => endCluster + endCluster / 2 case Fat16 => 2 * endCluster case Fat28 => 4 * endCluster;
    (bytes + 511) / SECTOR
  }

  function KindOf(nclusters: nat): Option<Kind> {
    if nclusters <= 0xff4 then Some(Fat12) else if nclusters <= 0xfff4 then Some(Fat16)
    else if nclusters <= 0xffffff4 then Some(Fat28) else None
  }

  /** Cluster sizes are powers of two up to 256, which is stored as zero. */
  predicate ClusterSize(n: nat) {
    n in {1, 2, 4, 8, 16, 32, 64, 128, 256}
  }

  /** The geometry the boot sector describes with clusters of n sectors. */
  function GeometryOf(bs: Sector, n: nat): Option<Geometry>
    requires n > 0
  {
    var fat := Get16(bs, 14);
    var rootDir := fat + FatSize(bs) * bs[16] % WRAP;
    var data := rootDir + (Get16(bs, 17) * 32 + 511) / SECTOR;
    if data >= Sectors(bs) then None
    else
      var nclusters := (Sectors(bs) - data) / n;
      var kind := KindOf(nclusters);
      if kind == None || MinFatSize(kind.value, nclusters + 2) > FatSize(bs) then None
      else Some(Geometry(kind.value, n, nclusters + 2, if kind.value == Fat28 then Get32(bs, 44) else 0, fat, rootDir, data, Sectors(bs)))
  }

  /** libfat_open from the cluster size on. */
  method GeometryFrom(bs: Sector, n: nat) returns (r: Option<Geometry>)
    requires n > 0
    ensures r == GeometryOf(bs, n)
  {
    hide Get16, Get32, MinFatSize, KindOf;
    var sectors := Get16(bs, 19);
    if sectors == 0 {
      sectors := Get32(bs, 32);
    }
    var fat := Get16(bs, 14);
    var fatsize := Get16(bs, 22);
    if fatsize == 0 {
      fatsize := Get32(bs, 36);
    }
    var rootdir := fat + fatsize * bs[16] % WRAP;
    var rootdirsize := (Get16(bs, 17) * 32 + 511) / SECTOR;
    var data := rootdir + rootdirsize;
    if data >= sectors {
      return None;
    }
    var nclusters := (sectors - data) / n;
    var endcluster := nclusters + 2;
    var ok, kind, minfatsize := ChooseKind(nclusters);
    if !ok || minfatsize > fatsize {
      return None;
    }
    var rootcluster := if kind == Fat28 then Get32(bs, 44) else 0;
    return Some(Geometry(kind, n, endcluster, rootcluster, fat, rootdir, data, sectors));
  }

  /** The kind of FAT for a number of clusters, and the sectors it needs. */
  method ChooseKind(nclusters: nat) returns (ok: bool, kind: Kind, minfatsize: nat)
    ensures if ok then KindOf(nclusters) == Some(kind) && minfatsize == MinFatSize(kind, nclusters + 2) else KindOf(nclusters) == None
  {
    var endcluster := nclusters + 2;
    ok := true;
    if nclusters <= 0xff4 {
      kind, minfatsize := Fat12, endcluster + endcluster / 2;
    } else if nclusters <= 0xfff4 {
      kind, minfatsize := Fat16, 2 * endcluster;
    } else if nclusters <= 0xffffff4 {
      kind, minfatsize := Fat28, 4 * endcluster;
    } else {
      return false, Fat12, 0;
    }
    minfatsize := (minfatsize + 511) / SECTOR;
  }

  /** The geometry computation of libfat_open. */
  method ComputeGeometry(bs: Sector) returns (r: Option<Geometry>)
    ensures r.Some? ==> ClusterSize(r.value.clustSize) && bs[13] == r.value.clustSize % 256
    ensures r.Some? ==> Get16(bs, 11) == SECTOR && r == GeometryOf(bs, r.value.clustSize)
    ensures r.None? ==> Get16(bs, 11) != SECTOR || forall n: nat :: n > 0 && ClusterSize(n) && bs[13] == n % 256 ==> GeometryOf(bs, n) == None
  {
    hide Get16, Get32, MinFatSize;
    if Get16(bs, 11) != SECTOR {
      return None;
    }
    var i, n := 0, 1;
    while i <= 8 && bs[13] != n % 256
      invariant 0 <= i <= 9 && n == [1, 2, 4, 8, 16, 32, 64, 128, 256, 512][i]
      invariant forall m: nat :: ClusterSize(m) && m < n ==> bs[13] != m % 256
      decreases 9 - i
    {
      i, n := i + 1, 2 * n;
    }
    if i > 8 {
      return None;
    }
    r := GeometryFrom(bs, n);
    assert forall m: nat :: ClusterSize(m) && bs[13] == m % 256 ==> m == n;
  }

  /** Chains end properly, and every cluster lies inside the volume. */
  lemma GeometrySound(bs: Sector, n: nat, c: nat)
    requires n > 0 && GeometryOf(bs, n).Some? && 2 <= c < GeometryOf(bs, n).value.endCluster
    ensures var g := GeometryOf(bs, n).value; Sound(g) && g.data + (c - 2) * n + n <= g.end
  {
    hide Get16, Get32, MinFatSize;
    var g := GeometryOf(bs, n).value;
    var k := (g.end - g.data) / n;
    assert k * n <= g.end - g.data;
    Scale(n, c - 1, k);
    assert n * (c - 1) == (c - 2) * n + n;
  }

  /** The table holds every 16-bit or 28-bit entry. */
  lemma TableHolds(bs: Sector, n: nat, c: nat)
    requires n > 0 && GeometryOf(bs, n).Some? && c < GeometryOf(bs, n).value.endCluster
    ensures var k := GeometryOf(bs, n).value.kind; k != Fat12 ==> Extent(k, c) <= SECTOR * FatSize(bs)
  {
    hide Get16, Get32;
  }

  /** The 12-bit table can be a byte short: exactly when the number of entries is odd and the rest fills it. */
  lemma Table12Holds(bs: Sector, n: nat)
    requires n > 0 && GeometryOf(bs, n).Some? && GeometryOf(bs, n).value.kind == Fat12
    ensures var e := GeometryOf(bs, n).value.endCluster;
            (forall c :: 2 <= c < e ==> Extent(Fat12, c) <= SECTOR * FatSize(bs)) <==>
            e <= 2 || !(e % 2 == 1 && e + e / 2 == SECTOR * FatSize(bs))
  {
    hide Get16, Get32, GeometryOf;
    Kept(bs, n);
    var e := GeometryOf(bs, n).value.endCluster;
    if e > 2 {
      assert Extent(Fat12, e - 1) == e - 1 + (e - 1) / 2 + 2;
      forall c | 2 <= c < e
        ensures Extent(Fat12, c) <= Extent(Fat12, e - 1)
      {
      }
    }
  }

  /** A boot sector with one reserved sector, one FAT of two sectors, and 684 sectors in clusters of one. */
  function ShortBoot(): (bs: Sector)
    ensures bs[11] == 0 && bs[12] == 2 && bs[13] == 1 && bs[14] == 1 && bs[15] == 0 && bs[16] == 1 && bs[17] == 0 && bs[18] == 0
    ensures bs[19] == 172 && bs[20] == 2 && bs[22] == 2 && bs[23] == 0
  {
    Zeros(512)[12 := 2][13 := 1][14 := 1][16 := 1][19 := 172][20 := 2][22 := 2]
  }

  /** It is accepted, but the entry of the last cluster, 682, needs a byte behind the FAT. */
  lemma Table12Short()
    ensures var bs := ShortBoot();
            && Get16(bs, 11) == SECTOR && bs[13] == 1 && GeometryOf(bs, 1).Some?
            && GeometryOf(bs, 1).value.kind == Fat12 && GeometryOf(bs, 1).value.endCluster == 683
            && Extent(Fat12, 682) == SECTOR * FatSize(bs) + 1
  {
    ShortFields();
    hide ShortBoot, Get16, Get32;
    var bs := ShortBoot();
    assert FatSize(bs) == 2 && Sectors(bs) == 684 && MinFatSize(Fat12, 683) == 2;
    hide FatSize, Sectors, MinFatSize;
  }

  lemma ShortFields()
    ensures var bs := ShortBoot();
            && Get16(bs, 11) == SECTOR && Get16(bs, 14) == 1 && Get16(bs, 17) == 0 && Get16(bs, 19) == 684 && Get16(bs, 22) == 2
            && bs[13] == 1 && bs[16] == 1
  {
    hide ShortBoot;
  }

  lemma Kept(bs: Sector, n: nat)
    requires n > 0 && GeometryOf(bs, n).Some?
    ensures var g := GeometryOf(bs, n).value; MinFatSize(g.kind, g.endCluster) <= FatSize(bs)
  {
  }

  // ---- Directories ----

  datatype Dirent = Dirent(sector: nat, offset: nat, bytes: seq<Byte>)

  predicate Named(e: Dirent, name: seq<Byte>) {
    |e.bytes| == 32 && e.bytes[..11] == name
  }

  predicate HighWater(e: Dirent) {
    |e.bytes| == 32 && e.bytes[0] == 0
  }

  /** The entries of a sector from offset k on. */
  function EntriesOf(s: nat, d: Sector, k: nat): (es: seq<Dirent>)
    requires k % 32 == 0 && k <= SECTOR
    decreases SECTOR - k
  {
    if k == SECTOR then [] else [Dirent(s, k, d[k..k + 32])] + EntriesOf(s, d, k + 32)
  }

  /** The entries of a directory, sector by sector. */
  function AllEntries(disk: Disk, w: seq<nat>): seq<Dirent>
    requires forall i :: 0 <= i < |w| ==> w[i] in disk
  {
    if |w| == 0 then [] else EntriesOf(w[0], disk[w[0]], 0) + AllEntries(disk, w[1..])
  }

  datatype Outcome = Found(e: Dirent) | NotFound | Error | GoOn

  /** The first entry with the name, unless an entry with a zero byte comes first. */
  function Search(es: seq<Dirent>, name: seq<Byte>): Outcome {
    if |es| == 0 then GoOn
    else if Named(es[0], name) then Found(es[0])
    else if HighWater(es[0]) then NotFound
    else Search(es[1..], name)
  }

  lemma SearchTurn(s: nat, d: Sector, k: nat, name: seq<Byte>)
    requires k % 32 == 0 && k < SECTOR
    ensures Search(EntriesOf(s, d, k), name) ==
            if d[k..k + 11] == name then Found(Dirent(s, k, d[k..k + 32]))
            else if d[k] == 0 then NotFound else Search(EntriesOf(s, d, k + 32), name)
  {
    var e, more := Dirent(s, k, d[k..k + 32]), EntriesOf(s, d, k + 32);
    assert EntriesOf(s, d, k) == [e] + more;
    hide EntriesOf;
    assert ([e] + more)[1..] == more;
    Front(d, k);
  }

  lemma Front(d: Sector, k: nat)
    requires k + 32 <= SECTOR
    ensures d[k..k + 32][..11] == d[k..k + 11]
  {
    var x, y := d[k..k + 32][..11], d[k..k + 11];
    assert forall j :: 0 <= j < 11 ==> x[j] == y[j];
  }

  lemma NoEntries(s: nat, d: Sector, name: seq<Byte>)
    ensures Search(EntriesOf(s, d, SECTOR), name) == GoOn
  {
  }

  /** What finding an entry means, whatever its place. */
  lemma {:induction false} SearchFinds(es: seq<Dirent>, name: seq<Byte>, i: nat)
    requires i < |es|
    ensures (Named(es[i], name) && forall j :: 0 <= j < i ==> !Named(es[j], name) && !HighWater(es[j])) ==> Search(es, name) == Found(es[i])
    decreases i
  {
    if i > 0 && !Named(es[0], name) && !HighWater(es[0]) {
      assert forall j :: 0 <= j < i - 1 ==> es[1..][j] == es[j + 1];
      SearchFinds(es[1..], name, i - 1);
    }
  }

  lemma {:induction false} SearchFound(es: seq<Dirent>, name: seq<Byte>)
    requires Search(es, name).Found?
    ensures exists i :: 0 <= i < |es| && Search(es, name).e == es[i] && Named(es[i], name)
                        && forall j :: 0 <= j < i ==> !Named(es[j], name) && !HighWater(es[j])
    decreases |es|
  {
    if Named(es[0], name) {
      assert Search(es, name).e == es[0];
    } else {
      SearchFound(es[1..], name);
      var i :| 0 <= i < |es[1..]| && Search(es[1..], name).e == es[1..][i] && Named(es[1..][i], name)
               && forall j :: 0 <= j < i ==> !Named(es[1..][j], name) && !HighWater(es[1..][j]);
      forall j | 0 <= j < i + 1
        ensures !Named(es[j], name) && !HighWater(es[j])
      {
        assert j > 0 ==> es[j] == es[1..][j - 1];
      }
      assert es[i + 1] == es[1..][i];
    }
  }

  lemma {:induction false} SearchAppend(a: seq<Dirent>, b: seq<Dirent>, name: seq<Byte>)
    ensures Search(a + b, name) == if Search(a, name) == GoOn then Search(b, name) else Search(a, name)
    decreases |a|
  {
    if |a| == 0 {
      assert a + b == b;
    } else {
      SearchAppend(a[1..], b, name);
      assert (a + b)[1..] == a[1..] + b;
    }
  }

  /** What libfat_searchdir finds on a walk of sectors that ends with last. */
  function Scan(disk: Disk, w: seq<nat>, last: int, name: seq<Byte>): Outcome {
    if |w| == 0 then (if last == 0 then NotFound else Error)
    else if w[0] !in disk then Error
    else
      var o := Search(EntriesOf(w[0], disk[w[0]], 0), name);
      if o == GoOn then Scan(disk, w[1..], last, name) else o
  }

  /** On a directory that can be read it is the search through all its entries. */
  lemma {:induction false} ScanIsSearch(disk: Disk, w: seq<nat>, name: seq<Byte>)
    requires forall i :: 0 <= i < |w| ==> w[i] in disk
    ensures Scan(disk, w, 0, name) == var o := Search(AllEntries(disk, w), name); if o == GoOn then NotFound else o
    decreases |w|
  {
    if |w| > 0 {
      hide EntriesOf;
      ScanIsSearch(disk, w[1..], name);
      SearchAppend(EntriesOf(w[0], disk[w[0]], 0), AllEntries(disk, w[1..]), name);
    }
  }

  /**
   A directory with a cluster chain that can be read: starting at its first cluster, the sectors that
   libfat_searchdir goes through are those of the chain, and it finds what a search of all their entries finds.
   */
  lemma DirectoryFound(disk: Disk, g: Geometry, f: seq<Byte>, chain: seq<nat>, name: seq<Byte>)
    requires Sound(g) && g.data > 0 && IsTable(disk, g, f) && IsChain(f, g, chain)
    requires forall i :: 0 <= i < |ChainSectors(g, chain)| ==> ChainSectors(g, chain)[i] in disk
    ensures forall i :: 0 <= i < |chain| ==> chain[i] >= 2
    ensures var w := ChainSectors(g, chain);
            && |w| > 0 && Walks(disk, g, w, 0) && w[0] == ClusterToSector(g, chain[0]) && (forall i :: 0 <= i < |w| ==> w[i] > 0)
            && Scan(disk, w, 0, name) == Directory(disk, g, chain, name)
  {
    ChainWalk(disk, g, f, chain);
    SectorsPositive(g, chain);
    ScanIsSearch(disk, ChainSectors(g, chain), name);
  }

  /** The first entry with the name among all entries of a directory. */
  function Directory(disk: Disk, g: Geometry, chain: seq<nat>, name: seq<Byte>): Outcome
    requires g.clustSize > 0 && forall i :: 0 <= i < |chain| ==> chain[i] >= 2
    requires forall i :: 0 <= i < |ChainSectors(g, chain)| ==> ChainSectors(g, chain)[i] in disk
  {
    var o := Search(AllEntries(disk, ChainSectors(g, chain)), name);
    if o == GoOn then NotFound else o
  }

  lemma {:induction false} SectorsPositive(g: Geometry, chain: seq<nat>)
    requires g.clustSize > 0 && g.data > 0 && forall i :: 0 <= i < |chain| ==> chain[i] >= 2
    ensures forall i :: 0 <= i < |ChainSectors(g, chain)| ==> ChainSectors(g, chain)[i] > 0
    decreases |chain|
  {
    if |chain| > 0 {
      hide FirstSector, ClusterSectors;
      SectorsPositive(g, chain[1..]);
      assert forall j :: 0 <= j < g.clustSize ==> ClusterSectors(g, chain[0])[j] > 0;
    }
  }

  /** The value libfat_searchdir returns: a 32-bit cluster number, or a code. */
  function Answer(o: Outcome): int {
    match o
    case Found(e) =>
      if |e.bytes| != 32 || Get32(e.bytes, 28) == 0 then 0
      else
        var v := Get16(e.bytes, 26) + 0x1_0000 * Get16(e.bytes, 20);
        if v < 0x8000_0000 then v else v - WRAP
    case NotFound => -2
    case _ => -1
  }

  // ---- The volume ----

  class Volume {
    /** What the read function returns; sectors not in it cannot be read. */
    const disk: Disk
    const g: Geometry

    /** The cached sectors, newest first. */
    var cache: seq<(nat, Sector)>
    /** Sectors that can still be allocated. */
    var memory: nat

    constructor (d: Disk, geometry: Geometry, m: nat)
      ensures disk == d && g == geometry && cache == [] && memory == m && Coherent()
    {
      disk, g, cache, memory := d, geometry, [], m;
    }

    ghost predicate Coherent()
      reads this
    {
      forall i :: 0 <= i < |cache| ==> cache[i].0 in disk && disk[cache[i].0] == cache[i].1
    }

    function Capacity(): nat
      reads this
    {
      memory + |cache|
    }

    /** libfat_flush. */
    method Flush()
      modifies this`cache, this`memory
      ensures cache == [] && Capacity() == old(Capacity()) && Coherent()
    {
      memory := memory + |cache|;
      cache := [];
    }

    /** libfat_get_sector: like reading the disk, as long as there is memory for one sector. */
    method GetSector(n: nat) returns (r: Option<Sector>)
      requires Coherent()
      modifies this`cache, this`memory
      ensures Coherent() && Capacity() == old(Capacity())
      ensures r == if Capacity() > 0 && n in disk then Some(disk[n]) else None
    {
      var i := 0;
      while i < |cache|
        invariant 0 <= i <= |cache| && forall j :: 0 <= j < i ==> cache[j].0 != n
      {
        if cache[i].0 == n {
          return Some(cache[i].1);
        }
        i := i + 1;
      }
      if memory == 0 {
        Flush();
        if memory == 0 {
          return None;
        }
      }
      if n !in disk {
        return None;
      }
      memory := memory - 1;
      cache := [(n, disk[n])] + cache;
      return Some(disk[n]);
    }

    /** The disk as far as there is memory to read it. */
    ghost function Readable(): Disk
      reads this
    {
      if Capacity() > 0 then disk else map[]
    }

    /** The part of libfat_nextsector that reads the table. */
    method ReadLink(c: nat) returns (r: Option<nat>)
      requires Coherent()
      modifies this`cache, this`memory
      ensures Coherent() && Capacity() == old(Capacity()) && r == Link(Readable(), g, c)
    {
      hide Get16, Get32;
      match g.kind {
        case Fat12 =>
          var offset := c + c / 2;
          var d := GetSector(g.fat + offset / SECTOR);
          if d == None {
            return None;
          }
          var next := d.value[offset % SECTOR] as int;
          offset := offset + 1;
          d := GetSector(g.fat + offset / SECTOR);
          if d == None {
            return None;
          }
          next := next + 0x100 * (d.value[offset % SECTOR] as int);
          return Some(if c % 2 == 1 then next / 16 else next % 0x1000);
        case Fat16 =>
          var offset := 2 * c;
          var d := GetSector(g.fat + offset / SECTOR);
          if d == None {
            return None;
          }
          Aligned(offset, c, 2);
          return Some(Get16(d.value, offset % SECTOR));
        case Fat28 =>
          var offset := 4 * c;
          var d := GetSector(g.fat + offset / SECTOR);
          if d == None {
            return None;
          }
          Aligned(offset, c, 4);
          return Some(Get32(d.value, offset % SECTOR) % 0x1000_0000);
      }
    }

    /** libfat_nextsector. */
    method NextSector(s: nat) returns (r: int)
      requires Coherent() && g.clustSize > 0
      modifies this`cache, this`memory
      ensures Coherent() && Capacity() == old(Capacity()) && r == Next(Readable(), g, s)
    {
      hide Link;
      if s < g.data {
        if s < g.rootDir {
          return -1;
        }
        return if s + 1 < g.data then s + 1 else 0;
      }
      var rs := s - g.data;
      if rs % g.clustSize != g.clustSize - 1 {
        return s + 1;
      }
      var cluster := 2 + rs / g.clustSize;
      if cluster >= g.endCluster {
        return -1;
      }
      var next := ReadLink(cluster);
      if next == None {
        return -1;
      }
      if next.value >= EndMark(g.kind) {
        return 0;
      }
      return ClusterToSector(g, next.value);
    }

    /** The inner loop of libfat_searchdir. */
    method SearchSector(s: nat, d: Sector, name: seq<Byte>) returns (o: Outcome)
      requires |name| == 11
      ensures o == Search(EntriesOf(s, d, 0), name)
    {
      hide EntriesOf, Search;
      var nent := 0;
      while nent < SECTOR
        invariant 0 <= nent <= SECTOR && nent % 32 == 0
        invariant Search(EntriesOf(s, d, 0), name) == Search(EntriesOf(s, d, nent), name)
      {
        SearchTurn(s, d, nent, name);
        if d[nent..nent + 11] == name {
          return Found(Dirent(s, nent, d[nent..nent + 32]));
        }
        if d[nent] == 0 {
          return NotFound;
        }
        nent := nent + 32;
      }
      NoEntries(s, d, name);
      o := GoOn;
    }

    /** libfat_searchdir, on a directory whose sectors are w and end with last. */
    method SearchDir(dirclust: nat, name: seq<Byte>, ghost w: seq<nat>, ghost last: int) returns (r: int, entry: Option<Dirent>)
      requires Coherent() && g.clustSize > 0 && |name| == 11 && (last == 0 || last == -1)
      requires if |w| == 0 then ClusterToSector(g, dirclust) == last
               else ClusterToSector(g, dirclust) == w[0] && Walks(Readable(), g, w, last)
      requires forall i :: 0 <= i < |w| ==> w[i] > 0
      modifies this`cache, this`memory
      ensures Coherent() && Capacity() == old(Capacity()) && r == Answer(Scan(Readable(), w, last, name))
      ensures var o := Scan(Readable(), w, last, name); entry == if o.Found? then Some(o.e) else None
    {
      var o := Locate(dirclust, name, w, last);
      r, entry := Answer(o), if o.Found? then Some(o.e) else None;
    }

    /** The loop of libfat_searchdir. */
    method Locate(dirclust: nat, name: seq<Byte>, ghost w: seq<nat>, ghost last: int) returns (o: Outcome)
      requires Coherent() && g.clustSize > 0 && |name| == 11 && (last == 0 || last == -1)
      requires if |w| == 0 then ClusterToSector(g, dirclust) == last
               else ClusterToSector(g, dirclust) == w[0] && Walks(Readable(), g, w, last)
      requires forall i :: 0 <= i < |w| ==> w[i] > 0
      modifies this`cache, this`memory
      ensures Coherent() && Capacity() == old(Capacity()) && o == Scan(Readable(), w, last, name)
    {
      hide Search, EntriesOf, Next;
      var s := ClusterToSector(g, dirclust);
      ghost var i := 0;
      while true
        invariant Coherent() && Capacity() == old(Capacity()) && 0 <= i <= |w| && s == if i < |w| then w[i] else last
        invariant Scan(Readable(), w, last, name) == Scan(Readable(), w[i..], last, name)
        decreases |w| - i
      {
        if s == 0 {
          return NotFound;
        } else if s == -1 {
          return Error;
        }
        var d := GetSector(s);
        if d == None {
          return Error;
        }
        o := SearchSector(s, d.value, name);
        if o != GoOn {
          return;
        }
        assert w[i..][1..] == w[i + 1..];
        s := NextSector(s);
        i := i + 1;
      }
    }

    /** libfat_searchdir on a directory with a cluster chain: the first match, whatever is cached. */
    method SearchChain(dirclust: nat, name: seq<Byte>, ghost f: seq<Byte>, ghost chain: seq<nat>) returns (r: int, entry: Option<Dirent>)
      requires Coherent() && Capacity() > 0 && |name| == 11
      requires Sound(g) && g.data > 0 && IsTable(disk, g, f) && IsChain(f, g, chain)
      requires |chain| > 0 && ClusterToSector(g, dirclust) == ClusterToSector(g, chain[0])
      requires forall i :: 0 <= i < |ChainSectors(g, chain)| ==> ChainSectors(g, chain)[i] in disk
      modifies this`cache, this`memory
      ensures Coherent() && Capacity() == old(Capacity()) && r == Answer(Directory(disk, g, chain, name))
      ensures var o := Directory(disk, g, chain, name); entry == if o.Found? then Some(o.e) else None
    {
      hide Directory, Scan, Walks, IsChain, IsTable;
      DirectoryFound(disk, g, f, chain, name);
      r, entry := SearchDir(dirclust, name, ChainSectors(g, chain), 0);
    }
  }
}
