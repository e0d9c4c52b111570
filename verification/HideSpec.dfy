/**
 Hiding partitions (com32/chain/mangle.c): what the rewrite does to the disk, and that it does not
 change what the partition iterator finds.
 */
module HideSpec {
  import opened Widths
  import opened Bytes
  import opened PartSpec

  /** The options of the hide command, and the number of the partition to leave visible. */
  datatype Options = Options(ext: bool, rev: bool, selected: int)

  /** FAT and NTFS types and their hidden variants, which differ in bit 0x10. */
  predicate Hideable(t: Byte) {
    t <= 0x1F && t as int % 16 in {0x1, 0x4, 0x6, 0x7, 0xB, 0xC, 0xE}
  }

  function Flip(t: Byte, unhide: bool): Byte {
    if !Hideable(t) then t else if unhide then t as int % 16 else 16 + t as int % 16
  }

  // ---- Disks that differ in hide bits only ----

  predicate AlikeByte(x: Byte, y: Byte) {
    x == y || (Hideable(x) && Hideable(y) && x as int % 16 == y as int % 16)
  }

  predicate IsTypeOffset(k: nat) {
    k == 450 || k == 466 || k == 482 || k == 498
  }

  ghost predicate AlikeSector(a: Sector, b: Sector) {
    |a| == |b| && forall k :: 0 <= k < |a| ==> a[k] == b[k] || (IsTypeOffset(k) && AlikeByte(a[k], b[k]))
  }

  ghost predicate AlikeDisk(d: Disk, e: Disk) {
    d.Keys == e.Keys && forall a :: a in d ==> AlikeSector(d[a], e[a])
  }

  /** Flipping is deciding: only the last flip counts, and the type stays what it is. */
  lemma FlipFacts(t: Byte, u: bool, v: bool)
    ensures Flip(Flip(t, u), v) == Flip(t, v) && AlikeByte(t, Flip(t, u))
    ensures Hideable(Flip(t, u)) == Hideable(t)
    ensures Hideable(t) ==> (u <==> Flip(t, u) < 0x10)
  {
  }

  lemma AlikeTransitive(a: Sector, b: Sector, c: Sector)
    requires AlikeSector(a, b) && AlikeSector(b, c)
    ensures AlikeSector(a, c)
  {
    forall k | 0 <= k < |a|
      ensures a[k] == c[k] || (IsTypeOffset(k) && AlikeByte(a[k], c[k]))
    {
      assert a[k] == b[k] || AlikeByte(a[k], b[k]);
      assert b[k] == c[k] || AlikeByte(b[k], c[k]);
    }
  }

  lemma AlikeEntry(a: Sector, b: Sector, i: nat)
    requires AlikeSector(a, b) && |a| == SECTOR && i < 4
    ensures StartLba(a, i) == StartLba(b, i) && Length(a, i) == Length(b, i)
    ensures (OsType(a, i) == 0 <==> OsType(b, i) == 0) && (IsExt(OsType(a, i)) <==> IsExt(OsType(b, i)))
  {
    var k := 454 + 16 * i;
    forall j: nat | k <= j < k + 8
      ensures a[j] == b[j]
    {
      assert !IsTypeOffset(j);
    }
    assert AlikeByte(OsType(a, i), OsType(b, i));
  }

  // ---- The walk does not see hide bits ----

  ghost predicate AlikeIter(s: Iter, u: Iter) {
    u == s.(data := u.data) && |s.data| == |u.data| == SECTOR && AlikeSector(s.data, u.data)
  }

  lemma {:induction false} AlikeMbr(s: Iter, u: Iter)
    requires AlikeIter(s, u) && -1 <= s.index0 < 4
    ensures var r, q := NextMbr(s), NextMbr(u); AlikeIter(r.it, q.it) && r.lba == q.lba && r.rec == q.rec
    decreases 4 - s.index0
  {
    hide Get32, AlikeSector;
    if s.index0 < 3 {
      AlikeEntry(s.data, u.data, s.index0 + 1);
      AlikeMbr(MbrEntry(s), MbrEntry(u));
    }
  }

  lemma {:induction false} AlikeEbr(d: Disk, e: Disk, s: Iter, u: Iter)
    requires AlikeDisk(d, e) && Sectors(d) && Sectors(e) && AlikeIter(s, u)
    ensures var r, q := EbrLoop(d, s), EbrLoop(e, u); AlikeIter(r.it, q.it) && r.lba == q.lba && r.rec == q.rec
    decreases 1024 - s.index0
  {
    hide Get32, AlikeSector, AlikeDisk, EbrEntry;
    var t, v := EbrEntry(d, s), EbrEntry(e, u);
    AlikeLoad(d, e, s, u);
    if t.status == Ok {
      AlikeEntry(t.data, v.data, 0);
      AlikeEbr(d, e, t, v);
    }
  }

  /** One EBR looks the same. */
  lemma AlikeLoad(d: Disk, e: Disk, s: Iter, u: Iter)
    requires AlikeDisk(d, e) && Sectors(d) && Sectors(e) && AlikeIter(s, u)
    ensures AlikeIter(EbrEntry(d, s), EbrEntry(e, u))
  {
    hide Get32, AlikeSector;
    if s.nebrLba in d {
      AlikeEntry(d[s.nebrLba], e[s.nebrLba], 0);
      AlikeEntry(d[s.nebrLba], e[s.nebrLba], 1);
    }
  }

  lemma AlikeNext(d: Disk, e: Disk, s: Iter, u: Iter)
    requires AlikeDisk(d, e) && Sectors(d) && Sectors(e) && AlikeIter(s, u) && Ready(s)
    ensures Ready(u) && AlikeIter(Next(d, s), Next(e, u))
  {
    hide Get32, AlikeSector, NextMbr, EbrLoop, AlikeDisk;
    if s.status == Ok {
      MbrKeeps(s);
      MbrKeeps(u);
      FindKeeps(d, s);
      FindKeeps(e, u);
      if s.index0 < 4 { AlikeMbr(s, u); }
      var m, n := if s.index0 < 4 then NextMbr(s).it else s, if u.index0 < 4 then NextMbr(u).it else u;
      if m.status == Ok && m.index0 >= 4 && m.bebrIndex0 >= 0 {
        AlikeEntry(m.data, n.data, m.bebrIndex0);
        AlikeEbr(d, e, Prep(m), Prep(n));
      }
      var r, q := Find(d, s), Find(e, u);
      if r.it.status == Ok { AlikeEntry(r.it.data, q.it.data, r.rec); }
    }
  }

  ghost predicate AlikeWalks(w: seq<Iter>, v: seq<Iter>) {
    |w| == |v| && forall i :: 0 <= i < |w| ==> AlikeIter(w[i], v[i])
  }

  /** On disks that differ in hide bits only, the walk finds the same entries with the same numbers. */
  lemma {:induction false} SameWalk(d: Disk, e: Disk, s: Iter, u: Iter)
    requires AlikeDisk(d, e) && Sectors(d) && Sectors(e) && AlikeIter(s, u) && Ready(s)
    ensures Ready(u) && AlikeWalks(Walk(d, s), Walk(e, u)) && Last(d, s).status == Last(e, u).status
    decreases 1024 - s.index0
  {
    hide AlikeDisk, AlikeSector, Next;
    AlikeNext(d, e, s, u);
    if s.status == Ok && Next(d, s).status == Ok {
      NextIndex(d, s);
      NextIndex(e, u);
      SameWalk(d, e, Next(d, s), Next(e, u));
    }
  }

  // ---- What hiding writes ----

  predicate Touched(y: Iter, o: Options) {
    y.index != -1 && (o.ext || y.index0 <= 3) && y.record < 4
  }

  function Unhide(y: Iter, o: Options): bool {
    y.index == o.selected || o.rev
  }

  function FlipAt(d: Sector, i: nat, unhide: bool): Sector
    requires |d| == SECTOR && i < 4
  {
    d[TypeOffset(i) := Flip(OsType(d, i), unhide)]
  }

  function Touch(d: Disk, y: Iter, o: Options): Disk
    requires Sectors(d)
  {
    if Touched(y, o) && y.cebrLba in d then d[y.cebrLba := FlipAt(d[y.cebrLba], y.record, Unhide(y, o))] else d
  }

  /** The disk after flipping the entries of a walk one after another. */
  function Applied(d: Disk, w: seq<Iter>, o: Options): (e: Disk)
    requires Sectors(d)
    ensures Sectors(e) && e.Keys == d.Keys
  {
    if |w| == 0 then d else Touch(Applied(d, w[..|w| - 1], o), w[|w| - 1], o)
  }

  /** The disk after manglepe_hide: as it was if the MBR is not sane. */
  function HideOf(d: Disk, cfg: Config, o: Options): Disk
    requires Sectors(d) && 0 in d
  {
    var w := Walk(d, Begin(cfg.(stepAll := true), d[0]));
    if |w| < 4 then d else Applied(d, w, o)
  }

  lemma {:induction false} AppliedAlike(d: Disk, w: seq<Iter>, o: Options)
    requires Sectors(d)
    ensures AlikeDisk(d, Applied(d, w, o))
    decreases |w|
  {
    if |w| > 0 {
      var e, y := Applied(d, w[..|w| - 1], o), w[|w| - 1];
      AppliedAlike(d, w[..|w| - 1], o);
      TouchAlike(e, y, o);
      hide AlikeSector;
      forall a | a in d
        ensures AlikeSector(d[a], Touch(e, y, o)[a])
      {
        AlikeTransitive(d[a], e[a], Touch(e, y, o)[a]);
      }
    }
  }

  lemma TouchAlike(d: Disk, y: Iter, o: Options)
    requires Sectors(d)
    ensures AlikeDisk(d, Touch(d, y, o)) && Sectors(Touch(d, y, o))
  {
    if Touched(y, o) && y.cebrLba in d {
      FlipFacts(OsType(d[y.cebrLba], y.record), Unhide(y, o), true);
      assert IsTypeOffset(TypeOffset(y.record));
    }
  }

  /** Whether y is about entry i of the sector at LBA c. */
  predicate At(y: Iter, o: Options, c: nat, i: nat) {
    Touched(y, o) && y.cebrLba == c && y.record == i
  }

  /** Type t of entry i of the sector at c after a walk: the last visit decides. */
  function Target(w: seq<Iter>, o: Options, c: nat, i: nat, t: Byte): Byte {
    if |w| == 0 then t
    else if At(w[|w| - 1], o, c, i) then Flip(t, Unhide(w[|w| - 1], o))
    else Target(w[..|w| - 1], o, c, i, t)
  }

  /** All bytes of the disk after a walk. */
  lemma {:induction false} AppliedBytes(d: Disk, w: seq<Iter>, o: Options, c: nat)
    requires Sectors(d) && c in d
    ensures var x, y := d[c], Applied(d, w, o)[c];
            && (forall k :: 0 <= k < SECTOR && !IsTypeOffset(k) ==> y[k] == x[k])
            && (forall i :: 0 <= i < 4 ==> OsType(y, i) == Target(w, o, c, i, OsType(x, i)))
    decreases |w|
  {
    if |w| > 0 {
      var f, y := w[..|w| - 1], w[|w| - 1];
      AppliedBytes(d, f, o, c);
      var e := Applied(d, f, o);
      forall i | 0 <= i < 4
        ensures OsType(Touch(e, y, o)[c], i) == Target(w, o, c, i, OsType(d[c], i))
      {
        TargetIsFlip(f, o, c, i, OsType(d[c], i), Unhide(y, o));
      }
    }
  }

  lemma {:induction false} TargetIsFlip(w: seq<Iter>, o: Options, c: nat, i: nat, t: Byte, u: bool)
    ensures var x := Target(w, o, c, i, t); Flip(x, u) == Flip(t, u) && Target(w, o, c, i, x) == x
    decreases |w|
  {
    FlipFacts(t, u, u);
    if |w| > 0 {
      var y := w[|w| - 1];
      FlipFacts(t, Unhide(y, o), u);
      FlipFacts(t, Unhide(y, o), Unhide(y, o));
      if !At(y, o, c, i) { TargetIsFlip(w[..|w| - 1], o, c, i, t, u); }
    }
  }

  lemma SectorsEqual(x: Sector, y: Sector)
    requires |x| == SECTOR && |y| == SECTOR
    requires forall k :: 0 <= k < SECTOR && !IsTypeOffset(k) ==> x[k] == y[k]
    requires forall i :: 0 <= i < 4 ==> OsType(x, i) == OsType(y, i)
    ensures x == y
  {
    forall k | 0 <= k < SECTOR
      ensures x[k] == y[k]
    {
      assert OsType(x, 0) == OsType(y, 0) && OsType(x, 1) == OsType(y, 1);
      assert OsType(x, 2) == OsType(y, 2) && OsType(x, 3) == OsType(y, 3);
    }
  }

  /** Doing it all again changes nothing. */
  lemma AppliedTwice(d: Disk, w: seq<Iter>, o: Options)
    requires Sectors(d)
    ensures Applied(Applied(d, w, o), w, o) == Applied(d, w, o)
  {
    var e := Applied(d, w, o);
    var f := Applied(e, w, o);
    forall c | c in d
      ensures f[c] == e[c]
    {
      AppliedBytes(d, w, o, c);
      AppliedBytes(e, w, o, c);
      forall i | 0 <= i < 4
        ensures OsType(f[c], i) == OsType(e[c], i)
      {
        TargetIsFlip(w, o, c, i, OsType(d[c], i), true);
      }
      SectorsEqual(f[c], e[c]);
    }
  }

  lemma {:induction false} AppliedSame(d: Disk, w: seq<Iter>, v: seq<Iter>, o: Options)
    requires Sectors(d) && AlikeWalks(w, v)
    ensures Applied(d, w, o) == Applied(d, v, o)
    decreases |w|
  {
    if |w| > 0 { AppliedSame(d, w[..|w| - 1], v[..|v| - 1], o); }
  }

  // ---- The main results about hiding ----

  lemma HideAlike(d: Disk, cfg: Config, o: Options)
    requires Sectors(d) && 0 in d
    ensures AlikeDisk(d, HideOf(d, cfg, o)) && Sectors(HideOf(d, cfg, o)) && 0 in HideOf(d, cfg, o)
  {
    AppliedAlike(d, Walk(d, Begin(cfg.(stepAll := true), d[0])), o);
  }

  /** Hiding never changes what any iterator finds, on any disk and with any flags. */
  lemma HideKeepsWalk(d: Disk, cfg: Config, o: Options, flags: Config)
    requires Sectors(d) && 0 in d
    ensures var e := HideOf(d, cfg, o);
            && Sectors(e) && 0 in e
            && AlikeWalks(Walk(d, Begin(flags, d[0])), Walk(e, Begin(flags, e[0])))
            && Last(d, Begin(flags, d[0])).status == Last(e, Begin(flags, e[0])).status
  {
    var e := HideOf(d, cfg, o);
    HideAlike(d, cfg, o);
    SameWalk(d, e, Begin(flags, d[0]), Begin(flags, e[0]));
  }

  lemma HideIdempotent(d: Disk, cfg: Config, o: Options)
    requires Sectors(d) && 0 in d
    ensures var e := HideOf(d, cfg, o); Sectors(e) && 0 in e && HideOf(e, cfg, o) == e
  {
    var e, flags := HideOf(d, cfg, o), cfg.(stepAll := true);
    HideKeepsWalk(d, cfg, o, flags);
    var w := Walk(d, Begin(flags, d[0]));
    AppliedTwice(d, w, o);
    AppliedSame(e, w, Walk(e, Begin(flags, e[0])), o);
  }

  /** Stepping over everything: index0 counts, the buffer is the MBR up to 3, then the EBR just read. */
  lemma NextStepAll(d: Disk, s: Iter)
    requires Sectors(d) && Ready(s) && s.status == Ok && s.cfg.stepAll
    ensures var t := Next(d, s); t.status == Ok ==>
              && Ready(t) && t.cfg == s.cfg && t.index0 == s.index0 + 1 && t.record < 4
              && (s.index0 < 3 ==> t.data == s.data && t.cebrLba == s.cebrLba == 0)
              && (s.index0 >= 3 ==> t.cebrLba in d && t.data == d[t.cebrLba])
  {
    MbrKeeps(s);
    FindKeeps(d, s);
    var m := if s.index0 < 4 then NextMbr(s).it else s;
    if m.status == Ok && m.index0 >= 4 && m.bebrIndex0 >= 0 { EbrKeeps(d, Prep(m)); }
  }

  lemma {:induction false} WalkSectors(d: Disk, s: Iter)
    requires Sectors(d) && Ready(s) && s.cfg.stepAll && 0 in d
    ensures forall i :: 0 <= i < |Walk(d, s)| ==> Walk(d, s)[i].cebrLba in d
    decreases 1024 - s.index0
  {
    hide Next;
    if s.status == Ok {
      NextStepAll(d, s);
      if Next(d, s).status == Ok { WalkSectors(d, Next(d, s)); }
    }
  }

  /** No entry is visited twice. */
  ghost predicate DistinctSpots(w: seq<Iter>, o: Options) {
    forall i, j :: 0 <= i < j < |w| && Touched(w[i], o) && Touched(w[j], o) ==>
      w[i].cebrLba != w[j].cebrLba || w[i].record != w[j].record
  }

  lemma {:induction false} TargetDistinct(w: seq<Iter>, o: Options, k: nat, t: Byte)
    requires DistinctSpots(w, o) && k < |w| && Touched(w[k], o)
    ensures Target(w, o, w[k].cebrLba, w[k].record, t) == Flip(t, Unhide(w[k], o))
    decreases |w|
  {
    if k < |w| - 1 { TargetDistinct(w[..|w| - 1], o, k, t); }
  }

  /** Of the hideable partitions found, exactly the selected one is left visible. */
  lemma ExactlySelected(d: Disk, cfg: Config, o: Options, k: nat)
    requires Sectors(d) && 0 in d
    requires var w := Walk(d, Begin(cfg.(stepAll := true), d[0]));
             |w| >= 4 && DistinctSpots(w, o) && k < |w| && Touched(w[k], o) && !o.rev
    ensures var y := Walk(d, Begin(cfg.(stepAll := true), d[0]))[k]; var e := HideOf(d, cfg, o);
            && y.cebrLba in e && |e[y.cebrLba]| == SECTOR
            && y.cebrLba in d && Hideable(OsType(d[y.cebrLba], y.record)) == Hideable(OsType(e[y.cebrLba], y.record))
            && (Hideable(OsType(d[y.cebrLba], y.record)) ==>
                  (OsType(e[y.cebrLba], y.record) < 0x10 <==> y.index == o.selected))
  {
    var w := Walk(d, Begin(cfg.(stepAll := true), d[0]));
    WalkSectors(d, Begin(cfg.(stepAll := true), d[0]));
    AppliedBytes(d, w, o, w[k].cebrLba);
    var t := OsType(d[w[k].cebrLba], w[k].record);
    TargetDistinct(w, o, k, t);
    FlipFacts(t, Unhide(w[k], o), true);
  }
}
