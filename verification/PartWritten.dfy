/**
 A partitioned disk as it is written: the table of the MBR from four entries, the EBR chain from a list of
 logical partitions. What the iterator finds on it is what was written, with the numbers that partitions have.
 */
module PartWritten {
  import opened Widths
  import opened Bytes
  import opened PartSpec

  /** An entry of a partition table; type 0 is no partition. */
  datatype Entry = Entry(kind: Byte, start: nat, len: nat)

  /** One EBR: its sector, the size that the link to it gives, and its partition, whose start counts from here. */
  datatype Logical = Logical(sector: nat, frame: nat, part: Entry)

  datatype Table = Table(primary: seq<Entry>, logical: seq<Logical>)

  /** Entry i of the table in a sector: sixteen bytes from 446 on, of which the activity flag and the CHS addresses do not matter. */
  ghost predicate EntryAt(d: Sector, i: nat, e: Entry) {
    && |d| == 512 && i < 4 && e.start < WRAP && e.len < WRAP
    && var at := 446 + 16 * i;
       d[at + 4] == e.kind && d[at + 8..at + 12] == Put32(e.start) && d[at + 12..at + 16] == Put32(e.len)
  }

  lemma EntryRead(d: Sector, i: nat, e: Entry)
    requires EntryAt(d, i, e)
    ensures OsType(d, i) == e.kind && StartLba(d, i) == e.start && Length(d, i) == e.len
  {
    hide Get32, Put32;
    var at := 446 + 16 * i;
    SameWord(d, at + 8, Put32(e.start));
    SameWord(d, at + 12, Put32(e.len));
  }

  predicate Extended(e: Entry) {
    e.kind == 0x05 || e.kind == 0x0F || e.kind == 0x85
  }

  /** Place of the extended entry among the first i, or -1. */
  function ExtendedBefore(t: Table, i: nat): (k: int)
    requires |t.primary| == 4 && i <= 4
    ensures -1 <= k < i && (k >= 0 ==> Extended(t.primary[k]))
    ensures k < 0 ==> forall j :: 0 <= j < i ==> !Extended(t.primary[j])
  {
    if i == 0 then -1 else if Extended(t.primary[i - 1]) then i - 1 else ExtendedBefore(t, i - 1)
  }

  /** Not empty, and on the disk without wrapping. */
  predicate Fits(cfg: Config, e: Entry) {
    0 < e.start && 0 < e.len && e.start + e.len < WRAP && (cfg.stricter ==> e.start + e.len <= cfg.lbacnt)
  }

  /** At most one extended entry; in strict mode all partitions are on the disk. */
  ghost predicate LegalPrimaries(cfg: Config, t: Table) {
    && |t.primary| == 4
    && (forall i, j :: 0 <= i < 4 && 0 <= j < 4 && Extended(t.primary[i]) && Extended(t.primary[j]) ==> i == j)
    && (forall i :: 0 <= i < 4 && t.primary[i].kind != 0 && cfg.strict ==> Fits(cfg, t.primary[i]))
  }

  /** EBR j lies behind the start b of the extended partition; in strict mode its partition is in its frame and the frame in that. */
  ghost predicate LegalLogical(cfg: Config, b: Entry, x: Logical) {
    && b.start <= x.sector < WRAP && !Extended(x.part)
    && (cfg.strict && x.part.kind != 0 ==> 0 < x.part.start && 0 < x.part.len && x.part.start + x.part.len <= x.frame)
  }

  ghost predicate LegalLink(cfg: Config, b: Entry, x: Logical) {
    cfg.strict ==> b.start < x.sector && 0 < x.frame && x.sector - b.start + x.frame <= b.len
  }

  ghost predicate Legal(cfg: Config, t: Table) {
    && LegalPrimaries(cfg, t)
    && var k := ExtendedBefore(t, 4);
       if k < 0 then t.logical == []
       else
         var b := t.primary[k];
         && 0 < b.start && 0 < |t.logical| <= 1020 && t.logical[0].sector == b.start && t.logical[0].frame == b.len < WRAP
         && (forall j :: 0 <= j < |t.logical| ==> LegalLogical(cfg, b, t.logical[j]) && t.logical[j].frame < WRAP)
         && (forall j :: 1 <= j < |t.logical| ==> LegalLink(cfg, b, t.logical[j]))
  }

  /** The second entry of an EBR links to the next one, relative to the extended partition; the last EBR has none. */
  ghost predicate LinkAt(d: Sector, t: Table, b: Entry, j: nat)
    requires j < |t.logical|
  {
    if j + 1 < |t.logical| then
      t.logical[j + 1].sector >= b.start &&
      exists e: Entry :: Extended(e) && EntryAt(d, 1, e) && e.start == t.logical[j + 1].sector - b.start && e.len == t.logical[j + 1].frame
    else exists e: Entry :: e.kind == 0 && EntryAt(d, 1, e)
  }

  /** The disk holds the table; nothing is said about other bytes. */
  ghost predicate Written(disk: Disk, t: Table) {
    && |t.primary| == 4 && 0 in disk && (forall i :: 0 <= i < 4 ==> EntryAt(disk[0], i, t.primary[i]))
    && forall j :: 0 <= j < |t.logical| ==>
                     && t.logical[j].sector in disk && EntryAt(disk[t.logical[j].sector], 0, t.logical[j].part)
                     && (ExtendedBefore(t, 4) >= 0 ==> LinkAt(disk[t.logical[j].sector], t, t.primary[ExtendedBefore(t, 4)], j))
  }

  // ---- What should be found ----

  /** A partition found: its number, place, type, the sector and record of its entry, and how many entries came before. */
  datatype Part = Part(number: int, start: nat, len: nat, kind: Byte, sector: nat, record: nat, before: int)

  /** Partitions among the first j EBRs. */
  function Count(xs: seq<Logical>, j: nat): (n: nat)
    requires j <= |xs|
    ensures n <= j
  {
    if j == 0 then 0 else Count(xs, j - 1) + if xs[j - 1].part.kind == 0 then 0 else 1
  }

  /** Primary entry i is number i + 1. */
  function PrimaryPart(t: Table, i: nat): Part
    requires i < |t.primary|
  {
    var e := t.primary[i];
    Part(if e.kind == 0 then -1 else i + 1, e.start, e.len, e.kind, 0, i, i)
  }

  /** Logical partitions are numbered from 5 on. */
  function LogicalPart(t: Table, j: nat): Part
    requires j < |t.logical|
  {
    var x := t.logical[j];
    Part(if x.part.kind == 0 then -1 else 5 + Count(t.logical, j), if x.part.start == 0 then 0 else (x.sector + x.part.start) % WRAP,
         x.part.len, x.part.kind, x.sector, 0, 4 + j)
  }

  function LogicalsFrom(t: Table, j: nat): seq<Part>
    requires j <= |t.logical|
    decreases |t.logical| - j
  {
    if j == |t.logical| then [] else [LogicalPart(t, j)] + LogicalsFrom(t, j + 1)
  }

  function PartsFrom(t: Table, i: nat): seq<Part>
    requires |t.primary| == 4 && i <= 4
    decreases 4 - i
  {
    if i == 4 then LogicalsFrom(t, 0) else [PrimaryPart(t, i)] + PartsFrom(t, i + 1)
  }

  /** What an iterator has found. */
  function Seen(s: Iter): Part
    requires |s.data| == SECTOR && s.record < 4
  {
    Part(s.index, s.absLba, s.length, OsType(s.data, s.record), s.cebrLba, s.record, s.index0)
  }

  /** The walk w yields the partitions ps. */
  ghost predicate Yields(w: seq<Iter>, ps: seq<Part>) {
    |w| == |ps| && forall i :: 0 <= i < |w| ==> |w[i].data| == SECTOR && w[i].record < 4 && Seen(w[i]) == ps[i]
  }

  lemma YieldsMore(t: Iter, w: seq<Iter>, p: Part, ps: seq<Part>)
    requires |t.data| == SECTOR && t.record < 4 && Seen(t) == p && Yields(w, ps)
    ensures Yields([t] + w, [p] + ps)
  {
    hide Seen;
    forall i | 0 <= i < |[t] + w|
      ensures var x := ([t] + w)[i]; |x.data| == SECTOR && x.record < 4 && Seen(x) == ([p] + ps)[i]
    {
      if i > 0 { assert ([t] + w)[i] == w[i - 1] && ([p] + ps)[i] == ps[i - 1]; }
    }
  }

  // ---- The primaries ----

  /** The iterator has passed the first i entries of the MBR. */
  ghost predicate AtPrimary(s: Iter, disk: Disk, cfg: Config, t: Table, i: nat) {
    && |t.primary| == 4 && 0 in disk && i <= 4
    && s.cfg == cfg && s.data == disk[0] && s.index0 == i - 1 && s.status == Ok && s.bebrLba == 0 && s.cebrLba == 0
    && s.logskip == 0 && s.bebrIndex0 == ExtendedBefore(t, i)
  }

  lemma PrimaryStep(disk: Disk, cfg: Config, t: Table, s: Iter, i: nat)
    requires Sectors(disk) && cfg.stepAll && LegalPrimaries(cfg, t) && Written(disk, t) && i < 4 && AtPrimary(s, disk, cfg, t, i)
    ensures Ready(s) && var u := Next(disk, s); AtPrimary(u, disk, cfg, t, i + 1) && u.record == i && Seen(u) == PrimaryPart(t, i)
  {
    hide Get32, Written, LinkAt, EntryAt;
    WrittenEntry(disk, t, i);
    EntryRead(disk[0], i, t.primary[i]);
    NotInsane(cfg, disk[0], t, i);
    assert MbrEntry(s) == s.(index0 := i, bebrIndex0 := ExtendedBefore(t, i + 1));
    MbrKeeps(s);
  }

  lemma WrittenEntry(disk: Disk, t: Table, i: nat)
    requires Written(disk, t) && i < 4
    ensures |t.primary| == 4 && 0 in disk && EntryAt(disk[0], i, t.primary[i])
  {
  }

  lemma NotInsane(cfg: Config, d: Sector, t: Table, i: nat)
    requires LegalPrimaries(cfg, t) && i < 4 && EntryAt(d, i, t.primary[i])
    ensures |d| == SECTOR && !NotSanePrimary(cfg, d, i) && IsExt(OsType(d, i)) == Extended(t.primary[i])
    ensures Extended(t.primary[i]) ==> ExtendedBefore(t, i) < 0
  {
    hide Get32, EntryAt;
    EntryLength(d, i, t.primary[i]);
    EntryRead(d, i, t.primary[i]);
  }

  /** The rest of the walk, from entry i of the MBR on. */
  lemma {:induction false} PrimaryWalk(disk: Disk, cfg: Config, t: Table, s: Iter, i: nat)
    requires Sectors(disk) && cfg.stepAll && Legal(cfg, t) && Written(disk, t) && i <= 4 && AtPrimary(s, disk, cfg, t, i)
    ensures Ready(s) && Yields(Walk(disk, s), PartsFrom(t, i)) && Last(disk, s).status == Done
    decreases 4 - i
  {
    hide Next, Written, Seen, Yields, AtPrimary;
    if i < 4 {
      PrimaryStep(disk, cfg, t, s, i);
      var u := Next(disk, s);
      PrimaryFacts(disk, cfg, t, s, i);
      PrimaryFacts(disk, cfg, t, u, i + 1);
      PrimaryWalk(disk, cfg, t, u, i + 1);
      NextIndex(disk, s);
      YieldsMore(u, Walk(disk, u), PrimaryPart(t, i), PartsFrom(t, i + 1));
    } else {
      FirstLogical(disk, cfg, t, s);
    }
  }

  lemma PrimaryFacts(disk: Disk, cfg: Config, t: Table, s: Iter, i: nat)
    requires Sectors(disk) && AtPrimary(s, disk, cfg, t, i)
    ensures Ready(s) && s.status == Ok && |s.data| == SECTOR
  {
  }

  // ---- The logical partitions ----

  /** The frames of the iterator are those of EBR j, and the EBRs before it have been counted. */
  ghost predicate AtLogical(s: Iter, cfg: Config, t: Table, k: nat, j: nat) {
    && k < |t.primary| && j <= |t.logical| && s.cfg == cfg && s.index0 == 3 + j && s.status == Ok && s.bebrIndex0 == k
    && s.bebrLba == t.primary[k].start && s.bebrSiz == t.primary[k].len
    && s.logskip == j - Count(t.logical, j)
    && (if j < |t.logical| then s.nebrLba == t.logical[j].sector && s.nebrSiz == t.logical[j].frame else s.nebrLba == 0)
  }

  /** EBR j is loaded and found in order, and the frames move on. */
  lemma EbrStep(disk: Disk, cfg: Config, t: Table, s: Iter, k: nat, j: nat)
    requires Sectors(disk) && cfg.stepAll && Legal(cfg, t) && Written(disk, t) && k == ExtendedBefore(t, 4)
    requires j < |t.logical| && AtLogical(s, cfg, t, k, j)
    ensures var r := EbrLoop(disk, s);
            && AtLogical(r.it, cfg, t, k, j + 1) && r.rec == 0 && |r.it.data| == SECTOR && r.it.cebrLba == t.logical[j].sector
            && OsType(r.it.data, 0) == t.logical[j].part.kind && Length(r.it.data, 0) == t.logical[j].part.len
            && r.lba == LogicalPart(t, j).start
  {
    hide Get32, EntryAt, Written, LinkAt, NotSaneLogical, NotSaneExtended;
    var x := t.logical[j];
    LogicalRead(disk, cfg, t, k, j);
    LinkRead(disk, cfg, t, k, j);
  }

  lemma LogicalRead(disk: Disk, cfg: Config, t: Table, k: nat, j: nat)
    requires Sectors(disk) && Legal(cfg, t) && Written(disk, t) && k == ExtendedBefore(t, 4) && j < |t.logical|
    ensures var x := t.logical[j];
            && x.sector in disk && x.sector != 0 && |disk[x.sector]| == SECTOR
            && var d := disk[x.sector];
               && OsType(d, 0) == x.part.kind && StartLba(d, 0) == x.part.start && Length(d, 0) == x.part.len
               && !NotSaneLogical(cfg, d, x.frame)
  {
    hide Get32, LinkAt, EntryAt;
    EntryRead(disk[t.logical[j].sector], 0, t.logical[j].part);
    assert LegalLogical(cfg, t.primary[k], t.logical[j]);
  }

  lemma LinkRead(disk: Disk, cfg: Config, t: Table, k: nat, j: nat)
    requires Sectors(disk) && Legal(cfg, t) && Written(disk, t) && k == ExtendedBefore(t, 4) && j < |t.logical|
    ensures var x, b := t.logical[j], t.primary[k];
            && x.sector in disk && |disk[x.sector]| == SECTOR
            && var d := disk[x.sector];
               && !NotSaneExtended(cfg, d, b.len)
               && if j + 1 < |t.logical|
                  then OsType(d, 1) != 0 && (b.start + StartLba(d, 1)) % WRAP == t.logical[j + 1].sector && Length(d, 1) == t.logical[j + 1].frame
                  else OsType(d, 1) == 0
  {
    hide Get32, EntryAt, NotSaneExtended, LegalLogical, LegalLink;
    var x, b := t.logical[j], t.primary[k];
    assert LinkAt(disk[x.sector], t, b, j);
    if j + 1 < |t.logical| {
      BaseFits(cfg, t, k);
      NextLink(disk[x.sector], cfg, t, b, j);
    } else {
      LastLink(disk[x.sector], cfg, t, b, j);
    }
  }

  lemma NextLink(d: Sector, cfg: Config, t: Table, b: Entry, j: nat)
    requires j + 1 < |t.logical| && LinkAt(d, t, b, j) && LegalLogical(cfg, b, t.logical[j + 1]) && LegalLink(cfg, b, t.logical[j + 1])
    requires cfg.strict ==> b.start + b.len < WRAP
    ensures |d| == SECTOR && !NotSaneExtended(cfg, d, b.len) && OsType(d, 1) != 0
    ensures (b.start + StartLba(d, 1)) % WRAP == t.logical[j + 1].sector && Length(d, 1) == t.logical[j + 1].frame
  {
    hide Get32, EntryAt;
    var y := t.logical[j + 1];
    var e: Entry :| Extended(e) && EntryAt(d, 1, e) && e.start == y.sector - b.start && e.len == y.frame;
    EntryLength(d, 1, e);
    EntryRead(d, 1, e);
  }

  lemma LastLink(d: Sector, cfg: Config, t: Table, b: Entry, j: nat)
    requires j + 1 == |t.logical| && LinkAt(d, t, b, j)
    ensures |d| == SECTOR && !NotSaneExtended(cfg, d, b.len) && OsType(d, 1) == 0
  {
    hide Get32, EntryAt;
    var e: Entry :| e.kind == 0 && EntryAt(d, 1, e);
    EntryLength(d, 1, e);
    EntryRead(d, 1, e);
  }

  lemma EntryLength(d: Sector, i: nat, e: Entry)
    requires EntryAt(d, i, e)
    ensures |d| == SECTOR && i < 4
  {
  }

  lemma BaseFits(cfg: Config, t: Table, k: nat)
    requires Legal(cfg, t) && k == ExtendedBefore(t, 4)
    ensures k < 4 && Extended(t.primary[k]) && (cfg.strict ==> t.primary[k].start + t.primary[k].len < WRAP)
  {
  }

  /** The rest of the walk, from EBR j on, once the iterator is among the EBRs. */
  lemma {:induction false} LogicalWalk(disk: Disk, cfg: Config, t: Table, s: Iter, k: nat, j: nat)
    requires Sectors(disk) && cfg.stepAll && Legal(cfg, t) && Written(disk, t) && k == ExtendedBefore(t, 4)
    requires 0 < j <= |t.logical| && AtLogical(s, cfg, t, k, j) && |s.data| == SECTOR
    ensures Ready(s) && Yields(Walk(disk, s), LogicalsFrom(t, j)) && Last(disk, s).status == Done
    decreases |t.logical| - j
  {
    hide Next, Written, Seen, Yields, EbrLoop;
    LogicalReady(cfg, t, s, k, j);
    LogicalNext(disk, cfg, t, s, s, k, j);
    if j < |t.logical| {
      var u := Next(disk, s);
      NextIndex(disk, s);
      LogicalWalk(disk, cfg, t, u, k, j + 1);
      YieldsMore(u, Walk(disk, u), LogicalPart(t, j), LogicalsFrom(t, j + 1));
    } else {
      NoneYielded();
    }
  }

  lemma NoneYielded()
    ensures Yields([], [])
  {
  }

  lemma LogicalReady(cfg: Config, t: Table, s: Iter, k: nat, j: nat)
    requires Legal(cfg, t) && k == ExtendedBefore(t, 4) && 0 < j <= |t.logical| && AtLogical(s, cfg, t, k, j) && |s.data| == SECTOR
    ensures Ready(s) && s.index0 >= 4 && s.bebrLba != 0
  {
  }

  /** One call among the EBRs, or the one that comes to them: m is where the search of EBRs starts. */
  lemma LogicalNext(disk: Disk, cfg: Config, t: Table, s: Iter, m: Iter, k: nat, j: nat)
    requires Sectors(disk) && cfg.stepAll && Legal(cfg, t) && Written(disk, t) && k == ExtendedBefore(t, 4) && AtLogical(m, cfg, t, k, j)
    requires Ready(s) && s.status == Ok && Find(disk, s) == EbrLoop(disk, m)
    ensures var u := Next(disk, s);
            if j < |t.logical| then |u.data| == SECTOR && u.record == 0 && AtLogical(u, cfg, t, k, j + 1) && Seen(u) == LogicalPart(t, j)
            else u.status == Done
  {
    hide Get32, Written, Find, EbrLoop, EbrEntry, Ready, Legal;
    if j < |t.logical| {
      EbrStep(disk, cfg, t, m, k, j);
      FindKeeps(disk, s);
    } else {
      ChainEnds(disk, m);
    }
  }

  lemma ChainEnds(disk: Disk, s: Iter)
    requires Sectors(disk) && s.nebrLba == 0
    ensures EbrLoop(disk, s).it.status == Done
  {
  }

  /** From the MBR to the first EBR, if there is one. */
  lemma FirstLogical(disk: Disk, cfg: Config, t: Table, s: Iter)
    requires Sectors(disk) && cfg.stepAll && Legal(cfg, t) && Written(disk, t) && AtPrimary(s, disk, cfg, t, 4)
    ensures Ready(s) && Yields(Walk(disk, s), LogicalsFrom(t, 0)) && Last(disk, s).status == Done
  {
    hide Next, Written, Seen, Yields, EbrLoop;
    var k := ExtendedBefore(t, 4);
    PrimaryFacts(disk, cfg, t, s, 4);
    if k < 0 {
      NoExtended(disk, s);
      NoneYielded();
    } else {
      var m := Prep(s.(index0 := 4));
      Entering(disk, cfg, t, s, k);
      LogicalNext(disk, cfg, t, s, m, k, 0);
      var u := Next(disk, s);
      NextIndex(disk, s);
      LogicalWalk(disk, cfg, t, u, k, 1);
      YieldsMore(u, Walk(disk, u), LogicalPart(t, 0), LogicalsFrom(t, 1));
    }
  }

  lemma NoExtended(disk: Disk, s: Iter)
    requires Sectors(disk) && Ready(s) && s.status == Ok && s.index0 == 3 && s.bebrIndex0 < 0
    ensures Next(disk, s).status == Done
  {
  }

  lemma Entering(disk: Disk, cfg: Config, t: Table, s: Iter, k: nat)
    requires Sectors(disk) && Legal(cfg, t) && Written(disk, t) && AtPrimary(s, disk, cfg, t, 4) && Ready(s) && k == ExtendedBefore(t, 4)
    ensures |s.data| == SECTOR && s.bebrIndex0 == k
    ensures var m := Prep(s.(index0 := 4)); AtLogical(m, cfg, t, k, 0) && Find(disk, s) == EbrLoop(disk, m)
  {
    hide Get32, EbrLoop, Written, EntryAt;
    WrittenEntry(disk, t, k);
    EntryRead(disk[0], k, t.primary[k]);
  }

  /** A fresh walk over all entries finds the four of the MBR and then those of the EBR chain, and is done. */
  lemma WrittenWalk(disk: Disk, cfg: Config, t: Table)
    requires Sectors(disk) && cfg.stepAll && Legal(cfg, t) && Written(disk, t)
    ensures 0 in disk && Ready(Begin(cfg, disk[0]))
    ensures var s := Begin(cfg, disk[0]); Yields(Walk(disk, s), PartsFrom(t, 0)) && Last(disk, s).status == Done
  {
    hide Next, Seen, Yields, Walk, Last;
    PrimaryWalk(disk, cfg, t, Begin(cfg, disk[0]), 0);
  }
}
