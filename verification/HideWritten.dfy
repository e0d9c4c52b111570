/**
 Hiding on a disk that was written from a partition table: what manglepe_hide leaves is the same table with
 the types changed that should be.
 */
module HideWritten {
  import opened Widths
  import opened Bytes
  import opened PartSpec
  import opened HideSpec
  import opened PartWritten

  /** The types of FAT and NTFS partitions, and the types that stand for them when they are hidden. */
  const VISIBLE: set<Byte> := {0x01, 0x04, 0x06, 0x07, 0x0B, 0x0C, 0x0E}
  const HIDDEN: set<Byte> := {0x11, 0x14, 0x16, 0x17, 0x1B, 0x1C, 0x1E}

  /** The selected partition becomes visible, the others hidden, or all visible in reverse mode. */
  function NewKind(kind: Byte, number: int, o: Options): Byte {
    var show := o.rev || number == o.selected;
    if kind in VISIBLE && !show then kind + 0x10
    else if kind in HIDDEN && show then kind - 0x10
    else kind
  }

  /** Logical partitions take part only with the ext option. */
  function Hidden(t: Table, o: Options): Table {
    Table(seq(|t.primary|, i requires 0 <= i < |t.primary| => t.primary[i].(kind := NewKind(t.primary[i].kind, i + 1, o))),
          seq(|t.logical|, j requires 0 <= j < |t.logical| => HiddenLogical(t, o, j)))
  }

  function HiddenLogical(t: Table, o: Options, j: nat): Logical
    requires j < |t.logical|
  {
    var x := t.logical[j];
    if o.ext then x.(part := x.part.(kind := NewKind(x.part.kind, 5 + Count(t.logical, j), o))) else x
  }

  /** Each EBR has a sector of its own. */
  ghost predicate Apart(t: Table) {
    forall i, j :: 0 <= i < j < |t.logical| ==> t.logical[i].sector != t.logical[j].sector
  }

  lemma NewKindIsFlip(kind: Byte, number: int, o: Options)
    ensures Flip(kind, number == o.selected || o.rev) == NewKind(kind, number, o)
  {
  }

  /** A type that is not one of them is left alone, whatever is done to it. */
  lemma OtherKinds(x: Byte, y: Byte)
    requires AlikeByte(x, y) && x !in VISIBLE && x !in HIDDEN
    ensures y == x
  {
  }

  lemma {:induction false} PartsAre(t: Table, i: nat)
    requires |t.primary| == 4
    ensures |PartsFrom(t, 0)| == 4 + |t.logical|
    ensures i < 4 ==> PartsFrom(t, 0)[i] == PrimaryPart(t, i)
    ensures 4 <= i < 4 + |t.logical| ==> PartsFrom(t, 0)[i] == LogicalPart(t, i - 4)
  {
    hide PrimaryPart, LogicalPart, LogicalsFrom;
    var l := LogicalsFrom(t, 0);
    assert PartsFrom(t, 4) == l;
    assert PartsFrom(t, 3) == [PrimaryPart(t, 3)] + l;
    assert PartsFrom(t, 2) == [PrimaryPart(t, 2)] + ([PrimaryPart(t, 3)] + l);
    assert PartsFrom(t, 1) == [PrimaryPart(t, 1)] + ([PrimaryPart(t, 2)] + ([PrimaryPart(t, 3)] + l));
    assert PartsFrom(t, 0) == [PrimaryPart(t, 0)] + ([PrimaryPart(t, 1)] + ([PrimaryPart(t, 2)] + ([PrimaryPart(t, 3)] + l)));
    LogicalsAre(t, 0, if 4 <= i < 4 + |t.logical| then i - 4 else 0);
  }

  lemma {:induction false} LogicalsAre(t: Table, j: nat, i: nat)
    requires j <= |t.logical|
    ensures |LogicalsFrom(t, j)| == |t.logical| - j
    ensures j <= i < |t.logical| ==> LogicalsFrom(t, j)[i - j] == LogicalPart(t, i)
    decreases |t.logical| - j
  {
    hide LogicalPart;
    if j < |t.logical| { LogicalsAre(t, j + 1, i); }
  }

  /** The walk over a disk that was written, entry by entry. */
  lemma WalkParts(d: Disk, cfg: Config, t: Table, i: nat)
    requires Sectors(d) && cfg.stepAll && Legal(cfg, t) && Written(d, t) && i < 4 + |t.logical|
    ensures 0 in d && |t.primary| == 4 && var w := Walk(d, Begin(cfg, d[0]));
            && |w| == 4 + |t.logical| && w[i].record < 4 && w[i].index0 == i
            && (i < 4 ==> w[i].cebrLba == 0 && w[i].record == i && w[i].index == if t.primary[i].kind == 0 then -1 else i + 1)
            && (i >= 4 ==> w[i].cebrLba == t.logical[i - 4].sector && w[i].record == 0
                           && w[i].index == if t.logical[i - 4].part.kind == 0 then -1 else 5 + Count(t.logical, i - 4))
  {
    hide Walk, Written, Legal, PartsFrom, Last;
    WrittenWalk(d, cfg, t);
    WrittenPrimary(d, t);
    PartsAre(t, i);
  }

  lemma WrittenPrimary(d: Disk, t: Table)
    requires Written(d, t)
    ensures 0 in d && |t.primary| == 4
  {
    hide EntryAt, LinkAt;
  }

  /** Sectors of EBRs are not the MBR, so no entry is visited twice. */
  lemma Distinct(d: Disk, cfg: Config, t: Table, o: Options)
    requires Sectors(d) && cfg.stepAll && Legal(cfg, t) && Written(d, t) && Apart(t)
    ensures 0 in d && DistinctSpots(Walk(d, Begin(cfg, d[0])), o)
  {
    hide Walk, Written, Touched, Legal;
    WrittenPrimary(d, t);
    var w := Walk(d, Begin(cfg, d[0]));
    WalkParts(d, cfg, t, 0);
    forall i, j | 0 <= i < j < |w|
      ensures w[i].cebrLba != w[j].cebrLba || w[i].record != w[j].record
    {
      WalkParts(d, cfg, t, i);
      WalkParts(d, cfg, t, j);
      if j >= 4 { NotMbr(cfg, t, j - 4); }
    }
  }

  lemma NotMbr(cfg: Config, t: Table, j: nat)
    requires Legal(cfg, t) && j < |t.logical|
    ensures t.logical[j].sector > 0
  {
    assert LegalLogical(cfg, t.primary[ExtendedBefore(t, 4)], t.logical[j]);
  }

  lemma {:induction false} TargetUnvisited(w: seq<Iter>, o: Options, c: nat, i: nat, t: Byte)
    requires forall k :: 0 <= k < |w| ==> !At(w[k], o, c, i)
    ensures Target(w, o, c, i, t) == t
    decreases |w|
  {
    if |w| > 0 { TargetUnvisited(w[..|w| - 1], o, c, i, t); }
  }

  /** The type of an entry after hiding. */
  lemma TypeAfter(d: Disk, cfg: Config, t: Table, o: Options, i: nat)
    requires Sectors(d) && cfg.stepAll && Legal(cfg, t) && Written(d, t) && Apart(t) && i < 4 + |t.logical|
    ensures 0 in d && |t.primary| == 4
    ensures var e, c := HideOf(d, cfg, o), if i < 4 then 0 else t.logical[i - 4].sector;
            && c in d && c in e && |d[c]| == |e[c]| == SECTOR
            && OsType(e[c], if i < 4 then i else 0) ==
               if i < 4 then NewKind(t.primary[i].kind, i + 1, o) else HiddenLogical(t, o, i - 4).part.kind
  {
    hide Walk, Written, Legal, Applied, Target, DistinctSpots, AlikeDisk, AlikeSector;
    WrittenPrimary(d, t);
    var w := Walk(d, Begin(cfg, d[0]));
    assert cfg.(stepAll := true) == cfg;
    WalkParts(d, cfg, t, i);
    var c, r := w[i].cebrLba, w[i].record;
    KindBefore(d, t, i);
    Distinct(d, cfg, t, o);
    AppliedBytes(d, w, o, c);
    if Touched(w[i], o) {
      TargetDistinct(w, o, i, OsType(d[c], r));
      NewKindIsFlip(OsType(d[c], r), w[i].index, o);
    } else if w[i].index == -1 {
      HideAlike(d, cfg, o);
      AlikeType(d, HideOf(d, cfg, o), c, r);
      OtherKinds(OsType(d[c], r), OsType(HideOf(d, cfg, o)[c], r));
    } else {
      NotVisited(d, cfg, t, o, i);
      TargetUnvisited(w, o, c, r, OsType(d[c], r));
    }
  }

  lemma AlikeType(d: Disk, e: Disk, c: nat, r: nat)
    requires AlikeDisk(d, e) && c in d && |d[c]| == SECTOR && r < 4
    ensures c in e && |e[c]| == SECTOR && AlikeByte(OsType(d[c], r), OsType(e[c], r))
  {
    assert AlikeSector(d[c], e[c]);
  }

  lemma KindBefore(d: Disk, t: Table, i: nat)
    requires Sectors(d) && Written(d, t) && i < 4 + |t.logical|
    ensures |t.primary| == 4
    ensures var c := if i < 4 then 0 else t.logical[i - 4].sector;
            c in d && |d[c]| == SECTOR && OsType(d[c], if i < 4 then i else 0) == if i < 4 then t.primary[i].kind else t.logical[i - 4].part.kind
  {
    hide Get32, LinkAt, EntryAt;
    if i < 4 {
      EntryRead(d[0], i, t.primary[i]);
    } else {
      EntryRead(d[t.logical[i - 4].sector], 0, t.logical[i - 4].part);
    }
  }

  /** Without the ext option no logical entry is visited. */
  lemma NotVisited(d: Disk, cfg: Config, t: Table, o: Options, i: nat)
    requires Sectors(d) && cfg.stepAll && Legal(cfg, t) && Written(d, t) && Apart(t) && i < 4 + |t.logical|
    requires 0 in d && i < |Walk(d, Begin(cfg, d[0]))| && var y := Walk(d, Begin(cfg, d[0]))[i]; y.index != -1 && !Touched(y, o)
    ensures !o.ext && i >= 4
    ensures var w := Walk(d, Begin(cfg, d[0])); forall k :: 0 <= k < |w| ==> !At(w[k], o, w[i].cebrLba, w[i].record)
  {
    hide Walk, Written, Legal;
    var w := Walk(d, Begin(cfg, d[0]));
    WalkParts(d, cfg, t, i);
    forall k | 0 <= k < |w|
      ensures !At(w[k], o, w[i].cebrLba, w[i].record)
    {
      WalkParts(d, cfg, t, k);
      NotMbr(cfg, t, i - 4);
    }
  }

  /** An entry with another type byte and the rest as before. */
  lemma EntryAfter(x: Sector, y: Sector, i: nat, e: Entry, kind: Byte)
    requires EntryAt(x, i, e) && AlikeSector(x, y) && OsType(y, i) == kind
    ensures EntryAt(y, i, e.(kind := kind))
  {
    var at := 446 + 16 * i;
    forall k | at + 8 <= k < at + 16
      ensures y[k] == x[k]
    {
      assert !IsTypeOffset(k);
    }
    assert y[at + 8..at + 12] == x[at + 8..at + 12] && y[at + 12..at + 16] == x[at + 12..at + 16];
  }

  /** Links between EBRs are not hideable. */
  lemma LinkAfter(x: Sector, y: Sector, t: Table, u: Table, b: Entry, j: nat)
    requires j < |t.logical| && LinkAt(x, t, b, j) && AlikeSector(x, y) && |u.logical| == |t.logical|
    requires forall i :: 0 <= i < |t.logical| ==> u.logical[i].sector == t.logical[i].sector && u.logical[i].frame == t.logical[i].frame
    ensures LinkAt(y, u, b, j)
  {
    hide EntryAt, AlikeSector;
    if j + 1 < |t.logical| {
      var z := t.logical[j + 1];
      var e: Entry :| Extended(e) && EntryAt(x, 1, e) && e.start == z.sector - b.start && e.len == z.frame;
      SameEntry(x, y, e);
    } else {
      var e: Entry :| e.kind == 0 && EntryAt(x, 1, e);
      SameEntry(x, y, e);
    }
  }

  lemma SameEntry(x: Sector, y: Sector, e: Entry)
    requires EntryAt(x, 1, e) && AlikeSector(x, y) && e.kind !in VISIBLE && e.kind !in HIDDEN
    ensures EntryAt(y, 1, e)
  {
    EntryRead(x, 1, e);
    assert AlikeByte(OsType(x, 1), OsType(y, 1));
    OtherKinds(e.kind, OsType(y, 1));
    EntryAfter(x, y, 1, e, e.kind);
  }

  /** The extended partition stays where it is. */
  lemma {:induction false} SameExtended(t: Table, o: Options, i: nat)
    requires |t.primary| == 4 && i <= 4
    ensures ExtendedBefore(Hidden(t, o), i) == ExtendedBefore(t, i)
    ensures var k := ExtendedBefore(t, i); k >= 0 ==> Hidden(t, o).primary[k] == t.primary[k]
    decreases i
  {
    if i > 0 {
      SameExtended(t, o, i - 1);
      var e := t.primary[i - 1];
      assert Hidden(t, o).primary[i - 1] == e.(kind := NewKind(e.kind, i, o));
    }
  }

  /** After hiding, the disk holds the table in which exactly the selected partition is visible. */
  lemma HiddenWritten(d: Disk, cfg: Config, t: Table, o: Options)
    requires Sectors(d) && Legal(cfg.(stepAll := true), t) && Written(d, t) && Apart(t)
    ensures 0 in d && Written(HideOf(d, cfg, o), Hidden(t, o))
  {
    hide Legal, EntryAt, LinkAt, HideOf, Apart, AlikeSector, OsType, NewKind, HiddenLogical, Extended, ExtendedBefore;
    var flags := cfg.(stepAll := true);
    var e, u := HideOf(d, cfg, o), Hidden(t, o);
    SameHide(d, cfg, o);
    HideAlike(d, cfg, o);
    SameExtended(t, o, 4);
    forall i | 0 <= i < 4
      ensures EntryAt(e[0], i, u.primary[i])
    {
      TypeAfter(d, flags, t, o, i);
      EntryAfter(d[0], e[0], i, t.primary[i], NewKind(t.primary[i].kind, i + 1, o));
    }
    forall j | 0 <= j < |t.logical|
      ensures u.logical[j].sector in e && EntryAt(e[u.logical[j].sector], 0, u.logical[j].part)
      ensures var k := ExtendedBefore(u, 4); k >= 0 ==> LinkAt(e[u.logical[j].sector], u, u.primary[k], j)
    {
      LogicalAfter(d, flags, t, o, e, j);
    }
  }

  lemma SameHide(d: Disk, cfg: Config, o: Options)
    requires Sectors(d) && 0 in d
    ensures HideOf(d, cfg, o) == HideOf(d, cfg.(stepAll := true), o)
  {
    assert cfg.(stepAll := true).(stepAll := true) == cfg.(stepAll := true);
  }

  lemma LogicalAfter(d: Disk, cfg: Config, t: Table, o: Options, e: Disk, j: nat)
    requires Sectors(d) && cfg.stepAll && Legal(cfg, t) && Written(d, t) && Apart(t) && 0 in d && e == HideOf(d, cfg, o) && j < |t.logical|
    requires AlikeDisk(d, e) && |t.primary| == 4
    ensures var u := Hidden(t, o);
            && u.logical[j].sector in e && EntryAt(e[u.logical[j].sector], 0, u.logical[j].part)
            && var k := ExtendedBefore(u, 4); (k >= 0 ==> LinkAt(e[u.logical[j].sector], u, u.primary[k], j))
  {
    hide Legal, EntryAt, LinkAt, HideOf, Apart, AlikeSector, OsType, NewKind, Extended, ExtendedBefore;
    var u, x := Hidden(t, o), t.logical[j];
    TypeAfter(d, cfg, t, o, 4 + j);
    EntryAfter(d[x.sector], e[x.sector], 0, x.part, HiddenLogical(t, o, j).part.kind);
    SameExtended(t, o, 4);
    var k := ExtendedBefore(t, 4);
    if k >= 0 { LinkAfter(d[x.sector], e[x.sector], t, u, t.primary[k], j); }
  }
}
