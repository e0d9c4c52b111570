/**
 A FAT volume as it is written: the boot sector from a layout, the table from a list of links, directories
 from a list of files. What libfat reads from it is what was written.
 */
module FatVolume {
  import opened Widths
  import opened Bytes
  import opened Options
  import opened FatSpec
  import opened Fat

  // ---- The boot sector ----

  /** A volume: clusters of clustSize sectors behind the reserved sectors, the tables and the root directory. */
  datatype Layout = Layout(clustSize: nat, reserved: nat, fats: nat, fatSize: nat, rootEntries: nat, rootSectors: nat,
                           rootCluster: nat, clusters: nat, sectors: nat)

  function RootStart(l: Layout): nat {
    l.reserved + Product(l.fats, l.fatSize)
  }

  function DataStart(l: Layout): nat {
    RootStart(l) + l.rootSectors
  }

  /** The root directory takes as few sectors as hold it, and there are as many clusters as fit. */
  ghost predicate Consistent(l: Layout) {
    && ClusterSize(l.clustSize) && Product(l.fats, l.fatSize) < WRAP
    && 32 * l.rootEntries <= 512 * l.rootSectors < 32 * l.rootEntries + 512
    && DataStart(l) < l.sectors
    && DataStart(l) + l.clusters * l.clustSize <= l.sectors < DataStart(l) + (l.clusters + 1) * l.clustSize
  }

  /** A number that is stored in 16 bits if it fits, or else as zero and in 32 bits elsewhere. */
  ghost predicate Stored(bs: Sector, short: nat, long: nat, v: nat)
    requires short + 2 <= 512 && long + 4 <= 512
  {
    || (0 < v < 0x1_0000 && bs[short..short + 2] == Put16(v))
    || (v < WRAP && bs[short..short + 2] == Put16(0) && bs[long..long + 4] == Put32(v))
  }

  /** The fields of a boot sector; all other bytes are of no interest. */
  ghost predicate LaidOut(bs: Sector, l: Layout) {
    && bs[11..13] == Put16(512)
    && bs[13] == l.clustSize % 256
    && l.reserved < 0x1_0000 && bs[14..16] == Put16(l.reserved)
    && bs[16] == l.fats
    && l.rootEntries < 0x1_0000 && bs[17..19] == Put16(l.rootEntries)
    && Stored(bs, 19, 32, l.sectors)
    && Stored(bs, 22, 36, l.fatSize)
    && l.rootCluster < WRAP && bs[44..48] == Put32(l.rootCluster)
  }

  lemma StoredIs(bs: Sector, short: nat, long: nat, v: nat)
    requires short + 2 <= 512 && long + 4 <= 512 && Stored(bs, short, long, v)
    ensures v == if Get16(bs, short) != 0 then Get16(bs, short) else Get32(bs, long)
  {
    hide Get16, Get32, Put16, Put32;
    if 0 < v < 0x1_0000 && bs[short..short + 2] == Put16(v) {
      Same16(bs, short, Put16(v));
    } else {
      Same16(bs, short, Put16(0));
      SameWord(bs, long, Put32(v));
    }
  }

  lemma Fields(bs: Sector, l: Layout)
    requires LaidOut(bs, l)
    ensures Get16(bs, 11) == 512 && bs[13] == l.clustSize % 256 && Get16(bs, 14) == l.reserved && bs[16] == l.fats
    ensures Get16(bs, 17) == l.rootEntries && Sectors(bs) == l.sectors && FatSize(bs) == l.fatSize && Get32(bs, 44) == l.rootCluster
  {
    hide Get16, Get32, Put16, Put32, Stored;
    Same16(bs, 11, Put16(512));
    Same16(bs, 14, Put16(l.reserved));
    Same16(bs, 17, Put16(l.rootEntries));
    SameWord(bs, 44, Put32(l.rootCluster));
    StoredIs(bs, 19, 32, l.sectors);
    StoredIs(bs, 22, 36, l.fatSize);
  }

  /** The kind of FAT that so many clusters call for. */
  ghost predicate Calls(clusters: nat, k: Kind) {
    match k
    case Fat12 => clusters <= 4084
    case Fat16 => 4084 < clusters <= 65524
    case Fat28 => 65524 < clusters <= 268435444
  }

  /** Bytes of the table for two reserved entries and one for each cluster, as libfat_open counts them. */
  function TableBytes(k: Kind, clusters: nat): nat {
    match k
    case Fat12 => 3 * (clusters + 2) / 2
    case Fat16 => 2 * (clusters + 2)
    case Fat28 => 4 * (clusters + 2)
  }

  /** Opening a volume gives its layout, if the table is large enough for its clusters, and nothing else. */
  lemma BootGeometry(bs: Sector, l: Layout, k: Kind)
    requires LaidOut(bs, l) && Consistent(l) && Calls(l.clusters, k)
    ensures GeometryOf(bs, l.clustSize) ==
            if TableBytes(k, l.clusters) <= 512 * l.fatSize
            then Some(Geometry(k, l.clustSize, l.clusters + 2, if k == Fat28 then l.rootCluster else 0, l.reserved,
                               RootStart(l), DataStart(l), l.sectors))
            else None
  {
    hide Get16, Get32, LaidOut, FatSize, Sectors, MinFatSize, TableBytes, Product;
    Fields(bs, l);
    Quotient(l.sectors - DataStart(l), l.clustSize, l.clusters);
    SmallProduct(l.fatSize, l.fats);
    RootSize(l.rootEntries, l.rootSectors);
    TableSectors(k, l.clusters, l.fatSize);
  }

  lemma SmallProduct(a: nat, b: nat)
    requires Product(b, a) < WRAP
    ensures a * b % WRAP == Product(b, a)
  {
    assert a * b == b * a;
  }

  lemma RootSize(entries: nat, sectors: nat)
    requires 32 * entries <= 512 * sectors < 32 * entries + 512
    ensures (entries * 32 + 511) / 512 == sectors
  {
  }

  lemma Quotient(x: nat, n: nat, q: nat)
    requires n > 0 && q * n <= x < (q + 1) * n
    ensures x / n == q
  {
    DivMod(q, n, x - q * n);
  }

  lemma TableSectors(k: Kind, clusters: nat, fatSize: nat)
    ensures MinFatSize(k, clusters + 2) <= fatSize <==> TableBytes(k, clusters) <= 512 * fatSize
  {
    var bytes := match k case Fat12 => clusters + 2 + (clusters + 2) / 2 case Fat16 => 2 * (clusters + 2) case Fat28 => 4 * (clusters + 2);
    assert bytes == TableBytes(k, clusters);
    assert MinFatSize(k, clusters + 2) == (bytes + 511) / 512;
  }

  // ---- The table ----

  /** An entry without the bits that do not count. */
  function LinkOf(k: Kind, e: nat): nat {
    if k == Fat28 then e % 0x1000_0000 else e
  }

  ghost predicate Fits(k: Kind, es: seq<nat>) {
    forall i :: 0 <= i < |es| ==> es[i] < match k case Fat12 => 0x1000 case Fat16 => 0x1_0000 case Fat28 => 0x1_0000_0000
  }

  /** Two 12-bit entries in three bytes, the low parts first. */
  function Packed12(es: seq<nat>): (f: seq<Byte>)
    requires Fits(Fat12, es)
    ensures |f| == 3 * (|es| / 2) + 2 * (|es| % 2)
  {
    if |es| == 0 then []
    else if |es| == 1 then [es[0] % 256, es[0] / 256]
    else [es[0] % 256, es[0] / 256 + 16 * (es[1] % 16), es[1] / 16] + Packed12(es[2..])
  }

  function Packed16(es: seq<nat>): (f: seq<Byte>)
    requires Fits(Fat16, es)
    ensures |f| == 2 * |es|
  {
    if |es| == 0 then [] else Put16(es[0]) + Packed16(es[1..])
  }

  function Packed28(es: seq<nat>): (f: seq<Byte>)
    requires Fits(Fat28, es)
    ensures |f| == 4 * |es|
  {
    if |es| == 0 then [] else Put32(es[0]) + Packed28(es[1..])
  }

  function Packed(k: Kind, es: seq<nat>): seq<Byte>
    requires Fits(k, es)
  {
    match k
    case Fat12 => Packed12(es)
    case Fat16 => Packed16(es)
    case Fat28 => Packed28(es)
  }

  lemma {:induction false} Entry12(es: seq<nat>, n: nat)
    requires Fits(Fat12, es) && n < |es|
    ensures Extent(Fat12, n) <= |Packed12(es)| && Entry(Packed12(es), Fat12, n) == es[n]
    decreases n
  {
    hide Packed12, Entry;
    Front12(es);
    var f := Packed12(es);
    if n < 2 {
      First12(f, es, n);
    } else {
      Entry12(es[2..], n - 2);
      Behind12(f[..3], f[3..], n);
      assert f == f[..3] + f[3..];
    }
  }

  lemma Front12(es: seq<nat>)
    requires Fits(Fat12, es) && |es| > 0
    ensures var f := Packed12(es);
            if |es| == 1 then |f| == 2 && f[0] == es[0] % 256 && f[1] == es[0] / 256
            else |f| >= 3 && f[0] == es[0] % 256 && f[1] == es[0] / 256 + 16 * (es[1] % 16) && f[2] == es[1] / 16
                 && f[3..] == Packed12(es[2..])
  {
  }

  lemma First12(f: seq<Byte>, es: seq<nat>, n: nat)
    requires Fits(Fat12, es) && n < 2 && n < |es|
    requires if |es| == 1 then |f| == 2 && f[0] == es[0] % 256 && f[1] == es[0] / 256
             else |f| >= 3 && f[0] == es[0] % 256 && f[1] == es[0] / 256 + 16 * (es[1] % 16) && f[2] == es[1] / 16
    ensures Extent(Fat12, n) <= |f| && Entry(f, Fat12, n) == es[n]
  {
    Halves(es[0], if |es| == 1 then 0 else es[1]);
  }

  lemma Halves(a: nat, b: nat)
    requires a < 0x1000
    ensures var y := a / 256 + 16 * (b % 16); a % 256 + 0x100 * (y % 16) == a && y / 16 + 16 * (b / 16) == b
  {
    var h, l := a / 256, b % 16;
    Nibble(h, l);
    assert a == 256 * h + a % 256 && b == 16 * (b / 16) + l;
  }

  lemma Nibble(h: nat, l: nat)
    requires h < 16
    ensures (h + 16 * l) % 16 == h && (h + 16 * l) / 16 == l
  {
  }

  lemma Behind12(a: seq<Byte>, g: seq<Byte>, n: nat)
    requires |a| == 3 && n >= 2 && Extent(Fat12, n - 2) <= |g|
    ensures Extent(Fat12, n) <= |a + g| && Entry(a + g, Fat12, n) == Entry(g, Fat12, n - 2)
  {
    var m := (n - 2) / 2 * 3;
    assert n / 2 * 3 == m + 3 && n % 2 == (n - 2) % 2;
    assert (a + g)[m + 4] == g[m + 1];
    if n % 2 == 0 { assert (a + g)[m + 3] == g[m]; } else { assert (a + g)[m + 5] == g[m + 2]; }
  }

  lemma {:induction false} Entry16(es: seq<nat>, n: nat)
    requires Fits(Fat16, es) && n < |es|
    ensures Packed16(es)[2 * n..2 * n + 2] == Put16(es[n])
    decreases n
  {
    if n > 0 {
      Entry16(es[1..], n - 1);
      assert Packed16(es)[2 * n..2 * n + 2] == Packed16(es[1..])[2 * (n - 1)..2 * (n - 1) + 2];
    }
  }

  lemma {:induction false} Entry28(es: seq<nat>, n: nat)
    requires Fits(Fat28, es) && n < |es|
    ensures Packed28(es)[4 * n..4 * n + 4] == Put32(es[n])
    decreases n
  {
    if n > 0 {
      Entry28(es[1..], n - 1);
      assert Packed28(es)[4 * n..4 * n + 4] == Packed28(es[1..])[4 * (n - 1)..4 * (n - 1) + 4];
    }
  }

  /** The entries of a table are those that were packed into it. */
  lemma EntryWritten(k: Kind, es: seq<nat>, n: nat)
    requires Fits(k, es) && n < |es|
    ensures Extent(k, n) <= |Packed(k, es)| && Entry(Packed(k, es), k, n) == LinkOf(k, es[n])
  {
    hide Get16, Get32, Put16, Put32;
    match k {
      case Fat12 =>
        Entry12(es, n);
      case Fat16 =>
        Entry16(es, n);
        Same16(Packed16(es), 2 * n, Put16(es[n]));
      case Fat28 =>
        Entry28(es, n);
        SameWord(Packed28(es), 4 * n, Put32(es[n]));
    }
  }

  /** The last eight numbers of their width end a chain. */
  predicate Ends(k: Kind, v: nat) {
    match k
    case Fat12 => 0xFF8 <= v <= 0xFFF
    case Fat16 => 0xFFF8 <= v <= 0xFFFF
    case Fat28 => 0xFFF_FFF8 <= v <= 0xFFF_FFFF
  }

  /** Other numbers that are no cluster are errors, such as the mark of a bad cluster. */
  lemma BadLink(disk: Disk, g: Geometry, es: seq<nat>, c: nat)
    requires Fits(g.kind, es) && IsTable(disk, g, Packed(g.kind, es)) && g.clustSize > 0 && 2 <= c < |es| && c < g.endCluster
    requires var v := LinkOf(g.kind, es[c]); v >= g.endCluster && !Ends(g.kind, v) && v > 0
    ensures Next(disk, g, FirstSector(g, c) + g.clustSize - 1) == -1
  {
    hide Packed, Entry, Extent, FirstSector, Next, Fits, LinkOf, Link;
    EntryWritten(g.kind, es, c);
    LinkIsEntry(disk, g, Packed(g.kind, es), c);
    InCluster(disk, g, c, g.clustSize - 1);
    LinkRange(g.kind, es, c);
  }

  lemma LinkRange(k: Kind, es: seq<nat>, c: nat)
    requires Fits(k, es) && c < |es|
    ensures LinkOf(k, es[c]) < match k case Fat12 => 0x1000 case Fat16 => 0x1_0000 case Fat28 => 0x1000_0000
  {
  }

  /** Clusters linked one to the next in a list of entries, the last one with an end mark. */
  ghost predicate Linked(k: Kind, es: seq<nat>, chain: seq<nat>) {
    && |chain| > 0 && (forall i :: 0 <= i < |chain| ==> 2 <= chain[i] < |es|)
    && (forall i :: 0 <= i < |chain| - 1 ==> LinkOf(k, es[chain[i]]) == chain[i + 1])
    && Ends(k, LinkOf(k, es[chain[|chain| - 1]]))
  }

  lemma ChainWritten(g: Geometry, es: seq<nat>, chain: seq<nat>)
    requires Fits(g.kind, es) && Linked(g.kind, es, chain) && forall i :: 0 <= i < |chain| ==> chain[i] < g.endCluster
    ensures IsChain(Packed(g.kind, es), g, chain)
  {
    hide Packed, Entry, Extent, Fits, LinkOf;
    forall i | 0 <= i < |chain|
      ensures Extent(g.kind, chain[i]) <= |Packed(g.kind, es)|
      ensures Entry(Packed(g.kind, es), g.kind, chain[i]) == LinkOf(g.kind, es[chain[i]])
    {
      EntryWritten(g.kind, es, chain[i]);
    }
  }

  // ---- Directories ----

  /** A directory entry: name, the 9 bytes of attributes and times, first cluster, time of the last change, and size. */
  datatype File = File(name: seq<Byte>, info: seq<Byte>, cluster: nat, time: seq<Byte>, size: nat)

  ghost predicate Proper(x: File) {
    |x.name| == 11 && |x.info| == 9 && |x.time| == 4 && x.cluster < WRAP && x.size < WRAP
  }

  /** The high half of the cluster number stands before the time, the low half behind it. */
  function Written(x: File): (d: seq<Byte>)
    requires Proper(x)
    ensures |d| == 32 && d[..11] == x.name && d[0] == x.name[0]
    ensures d[20..22] == Put16(x.cluster / 0x1_0000) && d[26..28] == Put16(x.cluster % 0x1_0000) && d[28..32] == Put32(x.size)
  {
    x.name + x.info + Put16(x.cluster / 0x1_0000) + x.time + Put16(x.cluster % 0x1_0000) + Put32(x.size)
  }

  /** An int32_t from the same bits. */
  function Int32(v: nat): int {
    if v < 0x8000_0000 then v else v - WRAP
  }

  /** The answer for an entry is its cluster, or 0 for an empty file. */
  lemma AnswerWritten(x: File, sector: nat, offset: nat)
    requires Proper(x)
    ensures Answer(Found(Dirent(sector, offset, Written(x)))) == if x.size == 0 then 0 else Int32(x.cluster)
  {
    hide Get16, Get32, Put16, Put32, Written;
    var d := Written(x);
    Same16(d, 20, Put16(x.cluster / 0x1_0000));
    Same16(d, 26, Put16(x.cluster % 0x1_0000));
    SameWord(d, 28, Put32(x.size));
  }

  function Flat(xs: seq<File>): (d: seq<Byte>)
    requires forall i :: 0 <= i < |xs| ==> Proper(xs[i])
    ensures |d| == 32 * |xs|
  {
    if |xs| == 0 then [] else Written(xs[0]) + Flat(xs[1..])
  }

  /** The bytes of the sectors w, one after the other. */
  function Contents(disk: Disk, w: seq<nat>): (d: seq<Byte>)
    requires forall i :: 0 <= i < |w| ==> w[i] in disk
    ensures |d| == 512 * |w|
  {
    if |w| == 0 then [] else disk[w[0]] + Contents(disk, w[1..])
  }

  lemma {:induction false} FlatAt(xs: seq<File>, i: nat)
    requires (forall i :: 0 <= i < |xs| ==> Proper(xs[i])) && i < |xs|
    ensures Flat(xs)[32 * i..32 * i + 32] == Written(xs[i])
    decreases i
  {
    hide Written;
    if i > 0 {
      FlatAt(xs[1..], i - 1);
      assert Flat(xs)[32 * i..32 * i + 32] == Flat(xs[1..])[32 * (i - 1)..32 * (i - 1) + 32];
    }
  }

  lemma {:induction false} SectorEntries(s: nat, d: Sector, k: nat, i: nat)
    requires k % 32 == 0 && k <= 512 && k + 32 * i < 512
    ensures |EntriesOf(s, d, k)| == (512 - k) / 32
    ensures EntriesOf(s, d, k)[i] == Dirent(s, k + 32 * i, d[k + 32 * i..k + 32 * i + 32])
    decreases 512 - k
  {
    if k + 32 < 512 { SectorEntries(s, d, k + 32, if i > 0 then i - 1 else 0); }
  }

  lemma {:induction false} AllEntriesAre(disk: Disk, w: seq<nat>, i: nat)
    requires (forall i :: 0 <= i < |w| ==> w[i] in disk) && i < 16 * |w|
    ensures |AllEntries(disk, w)| == 16 * |w|
    ensures AllEntries(disk, w)[i].bytes == Contents(disk, w)[32 * i..32 * i + 32]
    decreases |w|
  {
    hide EntriesOf;
    var d := disk[w[0]];
    SectorEntries(w[0], d, 0, if i < 16 then i else 0);
    if i < 16 {
      assert Contents(disk, w)[32 * i..32 * i + 32] == d[32 * i..32 * i + 32];
      if |w| > 1 { AllEntriesAre(disk, w[1..], 0); } else { assert w[1..] == []; }
    } else {
      AllEntriesAre(disk, w[1..], i - 16);
      assert Contents(disk, w)[32 * i..32 * i + 32] == Contents(disk, w[1..])[32 * (i - 16)..32 * (i - 16) + 32];
    }
  }

  /** File i is the first one with the name, and no entry before it marks the end. */
  ghost predicate First(xs: seq<File>, name: seq<Byte>, i: nat) {
    && i < |xs| && xs[i].name == name
    && forall j :: 0 <= j < i ==> xs[j].name != name && |xs[j].name| == 11 && xs[j].name[0] != 0
  }

  /** The sectors w hold the directory xs. */
  ghost predicate Holds(disk: Disk, w: seq<nat>, xs: seq<File>) {
    && (forall i :: 0 <= i < |w| ==> w[i] in disk) && (forall i :: 0 <= i < |xs| ==> Proper(xs[i]))
    && Contents(disk, w) == Flat(xs)
  }

  lemma EntriesWritten(disk: Disk, w: seq<nat>, xs: seq<File>, i: nat)
    requires Holds(disk, w, xs) && i < |xs|
    ensures |AllEntries(disk, w)| == |xs| && AllEntries(disk, w)[i].bytes == Written(xs[i])
  {
    hide AllEntries, Contents, Flat, Written;
    AllEntriesAre(disk, w, i);
    FlatAt(xs, i);
  }

  /** Searching a directory that was written finds the first file with the name. */
  lemma FileFound(disk: Disk, w: seq<nat>, xs: seq<File>, name: seq<Byte>, i: nat)
    requires Holds(disk, w, xs) && First(xs, name, i)
    ensures var o := Scan(disk, w, 0, name);
            && o.Found? && o.e.bytes == Written(xs[i])
            && Answer(o) == if xs[i].size == 0 then 0 else Int32(xs[i].cluster)
  {
    hide AllEntries, Contents, Flat, Written, Answer, Search, Scan;
    var es := AllEntries(disk, w);
    ScanIsSearch(disk, w, name);
    forall j | 0 <= j <= i
      ensures j < |es| && es[j].bytes == Written(xs[j])
    {
      EntriesWritten(disk, w, xs, j);
    }
    SearchFinds(es, name, i);
    AnswerWritten(xs[i], es[i].sector, es[i].offset);
  }

  /** If no file with the name comes before the end, or before an entry that marks it, the answer is -2. */
  lemma FileAbsent(disk: Disk, w: seq<nat>, xs: seq<File>, name: seq<Byte>)
    requires Holds(disk, w, xs) && forall i :: 0 <= i < |xs| ==> !First(xs, name, i)
    ensures Answer(Scan(disk, w, 0, name)) == -2
  {
    hide AllEntries, Search, Scan, First;
    ScanIsSearch(disk, w, name);
    NeverError(AllEntries(disk, w), name);
    if Scan(disk, w, 0, name).Found? { FoundFirst(disk, w, xs, name); }
  }

  lemma FoundFirst(disk: Disk, w: seq<nat>, xs: seq<File>, name: seq<Byte>)
    requires Holds(disk, w, xs) && Scan(disk, w, 0, name).Found?
    ensures exists i :: 0 <= i < |xs| && First(xs, name, i)
  {
    hide AllEntries, Contents, Flat, Written, Search, Scan;
    var es := AllEntries(disk, w);
    ScanIsSearch(disk, w, name);
    SearchFound(es, name);
    var i :| 0 <= i < |es| && Search(es, name).e == es[i] && Named(es[i], name)
             && forall j :: 0 <= j < i ==> !Named(es[j], name) && !HighWater(es[j]);
    forall j | 0 <= j <= i
      ensures j < |xs| && es[j].bytes == Written(xs[j])
    {
      AllWritten(disk, w, xs);
      EntriesWritten(disk, w, xs, j);
    }
    assert First(xs, name, i);
  }

  /**
   The block map of the installer (dos/syslinux.c): find a file in the root directory, and list its sectors
   up to a limit.
   */
  method MapFile(v: Volume, name: seq<Byte>, limit: nat,
                 ghost w: seq<nat>, ghost xs: seq<File>, ghost i: nat, ghost es: seq<nat>, ghost chain: seq<nat>)
    returns (sectors: seq<nat>)
    requires v.Coherent() && v.Capacity() > 0 && Sound(v.g) && v.g.data > 0 && |name| == 11
    requires |w| > 0 && w[0] == ClusterToSector(v.g, 0) && Walks(v.disk, v.g, w, 0) && forall i :: 0 <= i < |w| ==> w[i] > 0
    requires Holds(v.disk, w, xs) && First(xs, name, i) && xs[i].size > 0
    requires Fits(v.g.kind, es) && IsTable(v.disk, v.g, Packed(v.g.kind, es))
    requires Linked(v.g.kind, es, chain) && chain[0] == xs[i].cluster && forall i :: 0 <= i < |chain| ==> chain[i] < v.g.endCluster
    modifies v`cache, v`memory
    ensures v.Coherent() && v.Capacity() == old(v.Capacity())
    ensures forall i :: 0 <= i < |chain| ==> chain[i] >= 2
    ensures var all := ChainSectors(v.g, chain); sectors == if limit <= |all| then all[..limit] else all
  {
    hide Holds, First, Walks, Linked, IsTable, IsChain, Answer, Scan, Next, ChainSectors, ClusterToSector, EndMark;
    FileFound(v.disk, w, xs, name, i);
    ChainRead(v.disk, v.g, es, chain);
    ghost var all := ChainSectors(v.g, chain);
    var cluster, entry := v.SearchDir(0, name, w, 0);
    var s := ClusterToSector(v.g, cluster);
    sectors := [];
    while s != 0 && |sectors| < limit
      invariant v.Coherent() && v.Capacity() == old(v.Capacity()) && |sectors| <= |all| && sectors == all[..|sectors|]
      invariant |sectors| <= limit && s == if |sectors| < |all| then all[|sectors|] else 0
      decreases |all| - |sectors|
    {
      WalkStep(v.disk, v.g, all, |sectors|);
      sectors := sectors + [s];
      s := v.NextSector(s);
    }
  }

  lemma WalkStep(disk: Disk, g: Geometry, all: seq<nat>, k: nat)
    requires g.clustSize > 0 && Walks(disk, g, all, 0) && k < |all|
    ensures Next(disk, g, all[k]) == if k + 1 < |all| then all[k + 1] else 0
  {
    hide Next;
  }

  /** The sectors of a chain, as they are found one after the other. */
  lemma ChainRead(disk: Disk, g: Geometry, es: seq<nat>, chain: seq<nat>)
    requires Sound(g) && g.data > 0 && Fits(g.kind, es) && IsTable(disk, g, Packed(g.kind, es)) && Linked(g.kind, es, chain)
    requires forall i :: 0 <= i < |chain| ==> chain[i] < g.endCluster
    ensures |chain| > 0 && chain[0] < 0x8000_0000 && forall i :: 0 <= i < |chain| ==> chain[i] >= 2
    ensures var all := ChainSectors(g, chain);
            |all| > 0 && Walks(disk, g, all, 0) && all[0] == ClusterToSector(g, chain[0]) && forall i :: 0 <= i < |all| ==> all[i] > 0
  {
    hide Packed, Fits, Walks, ClusterToSector, ChainSectors;
    ChainWritten(g, es, chain);
    ChainWalk(disk, g, Packed(g.kind, es), chain);
    SectorsPositive(g, chain);
    NonEmptyWalk(disk, g, ChainSectors(g, chain));
  }

  lemma NonEmptyWalk(disk: Disk, g: Geometry, w: seq<nat>)
    requires g.clustSize > 0 && Walks(disk, g, w, 0)
    ensures |w| > 0
  {
  }

  lemma AllWritten(disk: Disk, w: seq<nat>, xs: seq<File>)
    requires Holds(disk, w, xs)
    ensures |AllEntries(disk, w)| == |xs|
  {
    hide Contents, Flat;
    if |w| > 0 { AllEntriesAre(disk, w, 0); }
  }

  lemma {:induction false} NeverError(es: seq<Dirent>, name: seq<Byte>)
    ensures Search(es, name) != Error
    decreases |es|
  {
    if |es| > 0 { NeverError(es[1..], name); }
  }
}
