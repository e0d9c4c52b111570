/**
 The MBR/EBR partition iterator (com32/chain/partiter.c) on values: the iterator's fields as a record,
 the disk as a map from readable LBAs to sectors, and each call as a function of the two.
 */
module PartSpec {
  import opened Widths
  import opened Bytes

  type Sector = seq<Byte>
  type Disk = map<nat, Sector>

  const SECTOR: nat := 512

  // ---- A partition table ----

  /** Offset of the type byte of entry i. */
  function TypeOffset(i: nat): nat {
    450 + 16 * i
  }

  function OsType(d: Sector, i: nat): Byte
    requires |d| == SECTOR && i < 4
  {
    d[TypeOffset(i)]
  }

  function StartLba(d: Sector, i: nat): nat
    requires |d| == SECTOR && i < 4
  {
    Get32(d, 454 + 16 * i)
  }

  function Length(d: Sector, i: nat): nat
    requires |d| == SECTOR && i < 4
  {
    Get32(d, 458 + 16 * i)
  }

  predicate IsExt(t: Byte) {
    t == 0x05 || t == 0x0F || t == 0x85
  }

  predicate NonData(t: Byte) {
    IsExt(t) || t == 0
  }

  /** s + l > s in 32-bit arithmetic. */
  predicate Sane(s: nat, l: nat) {
    (s + l) % WRAP > s
  }

  // ---- The iterator ----

  datatype Config = Config(stepAll: bool, strict: bool, stricter: bool, lbacnt: nat)

  datatype Status = Ok | Done | Insane | ErrLoad

  datatype Iter = Iter(
    cfg: Config, data: Sector, record: nat, absLba: nat, length: nat, index0: int, index: int, status: Status,
    bebrLba: nat, bebrSiz: nat, cebrLba: nat, cebrSiz: nat, nebrLba: nat, nebrSiz: nat, bebrIndex0: int, logskip: nat)

  function Begin(cfg: Config, mbr: Sector): Iter {
    Iter(cfg, mbr, 0, 0, cfg.lbacnt, -1, 0, Ok, 0, 0, 0, 0, 0, 0, -1, 0)
  }

  predicate NotSanePrimary(cfg: Config, d: Sector, i: nat)
    requires |d| == SECTOR && i < 4
  {
    var s, l := StartLba(d, i), Length(d, i);
    && OsType(d, i) != 0 && cfg.strict
    && (s == 0 || l == 0 || !Sane(s, l) || (cfg.stricter && (s + l) % WRAP > cfg.lbacnt))
  }

  predicate NotSaneLogical(cfg: Config, d: Sector, nebrSiz: nat)
    requires |d| == SECTOR
  {
    var s, l := StartLba(d, 0), Length(d, 0);
    OsType(d, 0) != 0 &&
    (IsExt(OsType(d, 0)) || (cfg.strict && (s == 0 || l == 0 || !Sane(s, l) || (s + l) % WRAP > nebrSiz)))
  }

  predicate NotSaneExtended(cfg: Config, d: Sector, bebrSiz: nat)
    requires |d| == SECTOR
  {
    var s, l := StartLba(d, 1), Length(d, 1);
    OsType(d, 1) != 0 &&
    (!NonData(OsType(d, 1)) || (cfg.strict && (s == 0 || l == 0 || !Sane(s, l) || (s + l) % WRAP > bebrSiz)))
  }

  /** What holds between calls. */
  ghost predicate Ready(s: Iter) {
    && |s.data| == SECTOR && -1 <= s.index0 < 1024 && -1 <= s.bebrIndex0 < 4
    && (s.index0 >= 4 <==> s.bebrLba != 0) && (s.index0 < 4 ==> s.logskip == 0 && s.cebrLba == 0) && s.logskip <= s.index0 + 1
  }

  ghost predicate Sectors(disk: Disk) {
    forall a :: a in disk ==> |disk[a]| == SECTOR
  }

  /** An iterator and the entry found: its LBA and its place in the table. */
  datatype Step = Step(it: Iter, lba: nat, rec: nat)

  /** One turn of the loop of dos_next_mbr: check the next entry, and remember an extended one. */
  function MbrEntry(s: Iter): (t: Iter)
    requires |s.data| == SECTOR && -1 <= s.index0 < 3
  {
    var i := s.index0 + 1;
    var ext := IsExt(OsType(s.data, i));
    if NotSanePrimary(s.cfg, s.data, i) || (ext && s.bebrIndex0 >= 0) then s.(index0 := i, status := Insane)
    else s.(index0 := i, bebrIndex0 := if ext then i else s.bebrIndex0)
  }

  /** dos_next_mbr. Nothing was found when index0 reaches 4. */
  function NextMbr(s: Iter): (r: Step)
    requires |s.data| == SECTOR && -1 <= s.index0 < 4
    ensures r.it.data == s.data && s.index0 < r.it.index0 <= 4 && (r.it.index0 < 4 ==> r.rec == r.it.index0)
    ensures r.it.status == Insane || r.it.status == s.status
    decreases 4 - s.index0
  {
    if s.index0 == 3 then Step(s.(index0 := 4), 0, 0)
    else
      var t := MbrEntry(s);
      if t.status == Insane || !NonData(OsType(s.data, t.index0)) || s.cfg.stepAll
      then Step(t, StartLba(s.data, t.index0), t.index0) else NextMbr(t)
  }

  /** prep_base_ebr, when there is an extended partition. */
  function Prep(s: Iter): Iter
    requires |s.data| == SECTOR && 0 <= s.bebrIndex0 < 4
  {
    if s.bebrLba != 0 then s
    else
      var lba, siz := StartLba(s.data, s.bebrIndex0), Length(s.data, s.bebrIndex0);
      s.(bebrLba := lba, bebrSiz := siz, nebrLba := lba, nebrSiz := siz, index0 := s.index0 - 1)
  }

  /** One EBR: the frames move on to the next one, and a hole is counted. */
  function Advance(s: Iter, d: Sector): Iter
    requires |d| == SECTOR
  {
    s.(data := d, cebrLba := s.nebrLba, cebrSiz := s.nebrSiz,
       nebrLba := if OsType(d, 1) != 0 then (s.bebrLba + StartLba(d, 1)) % WRAP else 0,
       nebrSiz := if OsType(d, 1) != 0 then Length(d, 1) else 0,
       logskip := if OsType(d, 0) == 0 then s.logskip + 1 else s.logskip)
  }

  /** One turn of the loop of dos_next_ebr: load, check, advance. */
  function EbrEntry(disk: Disk, s: Iter): (t: Iter)
    requires Sectors(disk)
    ensures t.status == Ok ==> s.nebrLba in disk && t.data == disk[s.nebrLba] && |t.data| == SECTOR && t.index0 < 1024
    ensures t.index0 == s.index0 + 1
  {
    var t := s.(index0 := s.index0 + 1);
    if t.index0 >= 1024 || t.nebrLba == 0 then t.(status := Done)
    else if t.nebrLba !in disk then t.(status := ErrLoad)
    else
      var d := disk[t.nebrLba];
      if NotSaneLogical(t.cfg, d, t.nebrSiz) || NotSaneExtended(t.cfg, d, t.bebrSiz) then t.(data := d, status := Insane)
      else Advance(t, d)
  }

  /** The loop of dos_next_ebr. */
  function EbrLoop(disk: Disk, s: Iter): (r: Step)
    requires Sectors(disk)
    ensures r.it.status == Ok ==> s.index0 < r.it.index0 < 1024 && r.rec == 0 && |r.it.data| == SECTOR && s.nebrLba != 0
    decreases 1024 - s.index0
  {
    var t := EbrEntry(disk, s);
    if t.status != Ok then Step(t, 0, 0)
    else if OsType(t.data, 0) != 0 || t.cfg.stepAll then
      Step(t, if StartLba(t.data, 0) != 0 then (t.cebrLba + StartLba(t.data, 0)) % WRAP else 0, 0)
    else EbrLoop(disk, t)
  }

  /** dos_next_ebr. */
  function NextEbr(disk: Disk, s: Iter): Step
    requires Sectors(disk) && |s.data| == SECTOR && -1 <= s.bebrIndex0 < 4
  {
    if s.bebrIndex0 < 0 then Step(s.(status := Done), 0, 0) else EbrLoop(disk, Prep(s))
  }

  /** The number of an entry: 1 to 4, or from 5 on without counting holes; a hole has none. */
  function Number(r: Step): int
    requires |r.it.data| == SECTOR && r.rec < 4
  {
    if OsType(r.it.data, r.rec) == 0 then -1 else r.it.index0 + 1 - r.it.logskip
  }

  function Yield(r: Step): Iter
    requires |r.it.data| == SECTOR && r.rec < 4
  {
    r.it.(index := Number(r), absLba := r.lba, length := Length(r.it.data, r.rec), record := r.rec)
  }

  /** The entry a call of pi_dos_next finds, if the status stays Ok. */
  function Find(disk: Disk, s: Iter): Step
    requires Sectors(disk) && Ready(s) && s.status == Ok
  {
    var m := if s.index0 < 4 then NextMbr(s) else Step(s, 0, 0);
    MbrKeeps(s);
    if m.it.status == Ok && m.it.index0 >= 4 then NextEbr(disk, m.it) else m
  }

  /** pi_dos_next. */
  function Next(disk: Disk, s: Iter): Iter
    requires Sectors(disk) && Ready(s)
  {
    if s.status != Ok then s
    else
      var r := Find(disk, s);
      if r.it.status != Ok then r.it else
        FindKeeps(disk, s);
        Yield(r)
  }

  /** What dos_next_mbr leaves alone. */
  lemma {:induction false} MbrKeeps(s: Iter)
    requires |s.data| == SECTOR && -1 <= s.bebrIndex0 < 4
    ensures -1 <= s.index0 < 4 ==> var t := NextMbr(s).it;
                                   && t == s.(index0 := t.index0, bebrIndex0 := t.bebrIndex0, status := t.status) && -1 <= t.bebrIndex0 < 4
    decreases 4 - s.index0
  {
    if -1 <= s.index0 < 3 { MbrKeeps(MbrEntry(s)); }
  }

  lemma {:induction false} EbrKeeps(disk: Disk, s: Iter)
    requires Sectors(disk)
    ensures var t := EbrLoop(disk, s).it;
            && t.cfg == s.cfg && t.bebrLba == s.bebrLba && t.bebrSiz == s.bebrSiz && t.bebrIndex0 == s.bebrIndex0
            && (t.status == Ok ==> t.index0 - t.logskip <= s.index0 - s.logskip + 1 && t.logskip - s.logskip <= t.index0 - s.index0
                                   && t.cebrLba in disk && t.cebrLba != 0 && t.data == disk[t.cebrLba] && !IsExt(OsType(t.data, 0)))
    decreases 1024 - s.index0
  {
    if EbrEntry(disk, s).status == Ok { EbrKeeps(disk, EbrEntry(disk, s)); }
  }

  /** A call that finds something moves on, below 1024. */
  lemma FindKeeps(disk: Disk, s: Iter)
    requires Sectors(disk) && Ready(s) && s.status == Ok
    ensures var r := Find(disk, s); r.it.status == Ok ==> s.index0 < r.it.index0 && r.rec < 4 && Ready(r.it) && r.it.cfg == s.cfg
  {
    MbrKeeps(s);
    var m := if s.index0 < 4 then NextMbr(s).it else s;
    if m.status == Ok && m.index0 >= 4 && m.bebrIndex0 >= 0 {
      EbrKeeps(disk, Prep(m));
    }
  }

  /** The entries found by calling pi_dos_next until its status is not Ok. */
  function Walk(disk: Disk, s: Iter): seq<Iter>
    requires Sectors(disk) && Ready(s)
    decreases 1024 - s.index0
  {
    if s.status != Ok then []
    else
      FindKeeps(disk, s);
      var t := Next(disk, s);
      if t.status != Ok then [] else [t] + Walk(disk, t)
  }

  /** The iterator after the last call. */
  function Last(disk: Disk, s: Iter): Iter
    requires Sectors(disk) && Ready(s)
    decreases 1024 - s.index0
  {
    if s.status != Ok then s
    else
      FindKeeps(disk, s);
      var t := Next(disk, s);
      if t.status != Ok then t else Last(disk, t)
  }

  // ---- Every walk ends ----

  lemma {:induction false} WalkBounded(disk: Disk, s: Iter)
    requires Sectors(disk) && Ready(s)
    ensures |Walk(disk, s)| <= 1023 - s.index0 && Last(disk, s).status != Ok
    ensures forall i :: 0 <= i < |Walk(disk, s)| ==> s.index0 < Walk(disk, s)[i].index0 < 1024
    decreases 1024 - s.index0
  {
    hide Next;
    if s.status == Ok {
      FindKeeps(disk, s);
      var t := Next(disk, s);
      if t.status == Ok {
        NextIndex(disk, s);
        WalkBounded(disk, t);
      }
    }
  }

  lemma NextIndex(disk: Disk, s: Iter)
    requires Sectors(disk) && Ready(s) && s.status == Ok && Next(disk, s).status == Ok
    ensures Ready(Next(disk, s)) && s.index0 < Next(disk, s).index0 < 1024
  {
    FindKeeps(disk, s);
  }

  /** For any disk contents, also cyclic EBR chains, a walk has at most 1024 entries and ends. */
  lemma WalkEnds(disk: Disk, cfg: Config, mbr: Sector)
    requires Sectors(disk) && |mbr| == SECTOR
    ensures |Walk(disk, Begin(cfg, mbr))| <= 1024 && Last(disk, Begin(cfg, mbr)).status != Ok
  {
    WalkBounded(disk, Begin(cfg, mbr));
  }

  // ---- Strict mode ----

  /** Length l from s on lies in size n from b on, is not empty and does not wrap. */
  predicate Inside(s: nat, l: nat, b: nat, n: nat) {
    0 < l && b <= s && s + l <= b + n && b + n < WRAP
  }

  predicate OnDisk(cfg: Config, s: nat, l: nat) {
    0 < s && 0 < l && s + l < WRAP && (cfg.stricter ==> s + l <= cfg.lbacnt)
  }

  /** In strict mode: the base extended partition is on the disk and the frames lie inside it. */
  ghost predicate Framed(s: Iter) {
    && (0 <= s.bebrIndex0 < 4 && |s.data| == SECTOR && s.bebrLba == 0 ==> OnDisk(s.cfg, StartLba(s.data, s.bebrIndex0), Length(s.data, s.bebrIndex0)))
    && (s.bebrLba != 0 ==> OnDisk(s.cfg, s.bebrLba, s.bebrSiz))
    && (s.nebrLba != 0 ==> s.bebrLba != 0 && Inside(s.nebrLba, s.nebrSiz, s.bebrLba, s.bebrSiz))
  }

  /** What strict mode promises of an entry found. */
  ghost predicate Placed(t: Iter) {
    if t.index0 < 4 then OnDisk(t.cfg, t.absLba, t.length)
    else
      && OnDisk(t.cfg, t.bebrLba, t.bebrSiz) && Inside(t.cebrLba, t.cebrSiz, t.bebrLba, t.bebrSiz)
      && t.absLba > t.cebrLba && Inside(t.absLba, t.length, t.cebrLba, t.cebrSiz)
  }

  lemma {:induction false} MbrFramed(s: Iter)
    requires Ready(s) && s.cfg.strict && s.index0 < 4 && s.status == Ok && Framed(s)
    ensures var r := NextMbr(s); r.it.status == Ok ==> Framed(r.it)
    ensures var r := NextMbr(s); r.it.status == Ok && r.it.index0 < 4 && OsType(s.data, r.rec) != 0 ==>
              OnDisk(s.cfg, r.lba, Length(s.data, r.rec))
    decreases 4 - s.index0
  {
    hide Get32;
    if s.index0 < 3 {
      var t := MbrEntry(s);
      SaneIs(StartLba(s.data, t.index0), Length(s.data, t.index0));
      if t.status == Ok { MbrFramed(t); }
    }
  }

  lemma SaneIs(s: nat, l: nat)
    requires s < WRAP && l < WRAP
    ensures Sane(s, l) <==> 0 < l && s + l < WRAP
    ensures Sane(s, l) ==> (s + l) % WRAP == s + l
  {
    if s + l >= WRAP { assert (s + l) % WRAP == s + l - WRAP; }
  }

  lemma {:induction false} EbrFramed(disk: Disk, s: Iter)
    requires Sectors(disk) && s.cfg.strict && s.status == Ok && s.bebrLba != 0 && Framed(s)
    ensures var r := EbrLoop(disk, s); r.it.status == Ok ==> Framed(r.it) && Inside(r.it.cebrLba, r.it.cebrSiz, r.it.bebrLba, r.it.bebrSiz)
    ensures var r := EbrLoop(disk, s); r.it.status == Ok && OsType(r.it.data, 0) != 0 ==>
              r.lba > r.it.cebrLba && Inside(r.lba, Length(r.it.data, 0), r.it.cebrLba, r.it.cebrSiz)
    decreases 1024 - s.index0
  {
    hide Get32;
    var t := EbrEntry(disk, s);
    if t.status == Ok {
      SaneIs(StartLba(t.data, 0), Length(t.data, 0));
      SaneIs(StartLba(t.data, 1), Length(t.data, 1));
      assert Framed(t);
      if OsType(t.data, 0) == 0 { EbrFramed(disk, t); }
    }
  }

  lemma NextPlaced(disk: Disk, s: Iter)
    requires Sectors(disk) && Ready(s) && s.cfg.strict && Framed(s) && s.status == Ok
    ensures var t := Next(disk, s); t.status == Ok ==> Framed(t) && (t.index != -1 ==> Placed(t))
  {
    hide Framed, NextMbr, EbrLoop;
    MbrKeeps(s);
    FindKeeps(disk, s);
    var m := if s.index0 < 4 then NextMbr(s).it else s;
    if s.index0 < 4 { MbrFramed(s); }
    if m.status == Ok && m.index0 >= 4 && m.bebrIndex0 >= 0 {
      PrepFramed(m);
      if Prep(m).bebrLba != 0 {
        EbrFramed(disk, Prep(m));
        EbrKeeps(disk, Prep(m));
        EbrBase(disk, Prep(m));
      }
    }
    if Find(disk, s).it.status == Ok { YieldFramed(Find(disk, s)); }
  }

  lemma YieldFramed(r: Step)
    requires |r.it.data| == SECTOR && r.rec < 4
    ensures Framed(Yield(r)) <==> Framed(r.it)
  {
  }

  lemma PrepFramed(s: Iter)
    requires |s.data| == SECTOR && 0 <= s.bebrIndex0 < 4 && Framed(s)
    ensures Framed(Prep(s)) && Prep(s).bebrLba != 0
  {
  }

  lemma EbrBase(disk: Disk, s: Iter)
    requires Sectors(disk) && Framed(s) && s.bebrLba != 0
    ensures var t := EbrLoop(disk, s).it; OnDisk(t.cfg, t.bebrLba, t.bebrSiz)
  {
    EbrKeeps(disk, s);
  }

  /** In strict mode every partition found lies in its frame, in the base extended partition and on the disk. */
  lemma {:induction false} StrictWalk(disk: Disk, s: Iter)
    requires Sectors(disk) && Ready(s) && s.cfg.strict && Framed(s)
    ensures forall i :: 0 <= i < |Walk(disk, s)| && Walk(disk, s)[i].index != -1 ==> Placed(Walk(disk, s)[i])
    decreases 1024 - s.index0
  {
    hide Next, Framed, Placed;
    if s.status == Ok {
      var t := Next(disk, s);
      NextPlaced(disk, s);
      if t.status == Ok {
        NextIndex(disk, s);
        NextConfig(disk, s);
        StrictWalk(disk, t);
      }
    }
  }

  lemma NextConfig(disk: Disk, s: Iter)
    requires Sectors(disk) && Ready(s)
    ensures Next(disk, s).cfg == s.cfg
  {
    if s.status == Ok {
      MbrKeeps(s);
      FindKeeps(disk, s);
      var m := if s.index0 < 4 then NextMbr(s).it else s;
      if m.status == Ok && m.index0 >= 4 && m.bebrIndex0 >= 0 { EbrKeeps(disk, Prep(m)); }
    }
  }

  lemma StrictFromStart(disk: Disk, cfg: Config, mbr: Sector)
    requires Sectors(disk) && |mbr| == SECTOR && cfg.strict
    ensures var w := Walk(disk, Begin(cfg, mbr)); forall i :: 0 <= i < |w| && w[i].index != -1 ==> Placed(w[i])
  {
    StrictWalk(disk, Begin(cfg, mbr));
  }

  // ---- Holes take no numbers ----

  lemma {:induction false} EbrNumbers(disk: Disk, s: Iter)
    requires Sectors(disk)
    ensures var t := EbrLoop(disk, s).it;
            t.status == Ok ==> t.index0 - t.logskip == s.index0 - s.logskip + (if OsType(t.data, 0) == 0 then 0 else 1)
    decreases 1024 - s.index0
  {
    if EbrEntry(disk, s).status == Ok { EbrNumbers(disk, EbrEntry(disk, s)); }
  }

  /** Numbers given so far to logical partitions, plus 4. */
  function Numbered(s: Iter): int {
    if s.index0 < 4 then 4 else s.index0 + 1 - s.logskip
  }

  /** The logical partitions are numbered 5, 6, 7 and so on, whatever holes lie between them. */
  lemma LogicalNumbers(disk: Disk, s: Iter)
    requires Sectors(disk) && Ready(s) && s.status == Ok
    ensures var t := Next(disk, s); t.status == Ok && t.index0 >= 4 ==>
              Numbered(t) == Numbered(s) + (if t.index == -1 then 0 else 1) && (t.index != -1 ==> t.index == Numbered(t))
  {
    MbrKeeps(s);
    FindKeeps(disk, s);
    var m := if s.index0 < 4 then NextMbr(s).it else s;
    if m.status == Ok && m.index0 >= 4 && m.bebrIndex0 >= 0 {
      EbrNumbers(disk, Prep(m));
      EbrKeeps(disk, Prep(m));
    }
  }

  // ---- Stepping over everything finds the same partitions ----

  function Plain(s: Iter): Iter {
    s.(cfg := s.cfg.(stepAll := false))
  }

  /** Without the fields that only describe the last entry found. */
  function Core(s: Iter): Iter {
    s.(record := 0, absLba := 0, length := 0, index := 0)
  }

  predicate IsData(t: Iter)
    requires Ready(t)
  {
    t.record < 4 && !NonData(OsType(t.data, t.record))
  }

  /** The walk without holes and extended partitions. */
  function DataOnly(w: seq<Iter>): seq<Iter>
    requires forall i :: 0 <= i < |w| ==> Ready(w[i])
  {
    if |w| == 0 then [] else (if IsData(w[0]) then [Plain(w[0])] else []) + DataOnly(w[1..])
  }

  lemma {:induction false} WalkReady(disk: Disk, s: Iter)
    requires Sectors(disk) && Ready(s)
    ensures forall i :: 0 <= i < |Walk(disk, s)| ==> Ready(Walk(disk, s)[i]) && Walk(disk, s)[i].status == Ok
    decreases 1024 - s.index0
  {
    hide Next, Ready;
    if s.status == Ok {
      var t := Next(disk, s);
      if t.status == Ok {
        NextIndex(disk, s);
        WalkReady(disk, t);
      }
    }
  }

  /** Next depends on the core only. */
  lemma {:induction false} MbrCore(s: Iter, u: Iter)
    requires |s.data| == SECTOR && -1 <= s.index0 < 4 && Core(s) == Core(u)
    ensures var r, q := NextMbr(s), NextMbr(u); Core(r.it) == Core(q.it) && r.lba == q.lba && r.rec == q.rec
    decreases 4 - s.index0
  {
    if s.index0 < 3 { MbrCore(MbrEntry(s), MbrEntry(u)); }
  }

  lemma {:induction false} EbrCore(disk: Disk, s: Iter, u: Iter)
    requires Sectors(disk) && Core(s) == Core(u)
    ensures var r, q := EbrLoop(disk, s), EbrLoop(disk, u); Core(r.it) == Core(q.it) && r.lba == q.lba && r.rec == q.rec
    decreases 1024 - s.index0
  {
    if EbrEntry(disk, s).status == Ok { EbrCore(disk, EbrEntry(disk, s), EbrEntry(disk, u)); }
  }

  lemma NextCore(disk: Disk, s: Iter, u: Iter)
    requires Sectors(disk) && Ready(s) && Core(s) == Core(u) && s.status == Ok
    ensures Ready(u)
    ensures var t, v := Next(disk, s), Next(disk, u); Core(t) == Core(v) && (t.status == Ok ==> t == v)
  {
    hide Get32, NextMbr, EbrLoop;
    MbrKeeps(s);
    MbrKeeps(u);
    FindKeeps(disk, s);
    FindKeeps(disk, u);
    if s.index0 < 4 { MbrCore(s, u); }
    var m, n := if s.index0 < 4 then NextMbr(s).it else s, if u.index0 < 4 then NextMbr(u).it else u;
    if m.status == Ok && m.index0 >= 4 && m.bebrIndex0 >= 0 { EbrCore(disk, Prep(m), Prep(n)); }
  }

  lemma PlainMbr(s: Iter)
    requires |s.data| == SECTOR && -1 <= s.index0 < 4 && s.cfg.stepAll && s.status == Ok
    ensures var r, p := NextMbr(s), NextMbr(Plain(s));
            if r.it.status != Ok || r.it.index0 == 4 || !NonData(OsType(s.data, r.rec)) then p == r.(it := Plain(r.it))
            else p == NextMbr(Plain(r.it))
  {
    if s.index0 < 3 {
      PlainEntry(s);
      hide MbrEntry;
      var t := MbrEntry(s);
      assert NextMbr(s) == Step(t, StartLba(s.data, t.index0), t.index0);
    }
  }

  lemma PlainEntry(s: Iter)
    requires |s.data| == SECTOR && -1 <= s.index0 < 3
    ensures MbrEntry(Plain(s)) == Plain(MbrEntry(s)) && MbrEntry(s) == s.(index0 := s.index0 + 1, status := MbrEntry(s).status, bebrIndex0 := MbrEntry(s).bebrIndex0)
  {
    hide Get32;
  }

  lemma PlainEbr(disk: Disk, s: Iter)
    requires Sectors(disk) && s.cfg.stepAll && s.status == Ok
    ensures var r, p := EbrLoop(disk, s), EbrLoop(disk, Plain(s));
            if r.it.status != Ok || OsType(r.it.data, 0) != 0 then p == r.(it := Plain(r.it))
            else p == EbrLoop(disk, Plain(r.it))
  {
    hide EbrEntry;
    PlainEbrEntry(disk, s);
  }

  lemma PlainEbrEntry(disk: Disk, s: Iter)
    requires Sectors(disk)
    ensures EbrEntry(disk, Plain(s)) == Plain(EbrEntry(disk, s)) && EbrEntry(disk, s).cfg == s.cfg
  {
    hide Get32;
  }

  /** What the plain iterator finds from s is what everything-stepping finds, or what follows that. */
  lemma PlainFind(disk: Disk, s: Iter)
    requires Sectors(disk) && Ready(s) && s.status == Ok && s.cfg.stepAll
    ensures Ready(Plain(s))
    ensures var r, p := Find(disk, s), Find(disk, Plain(s));
            if r.it.status != Ok then p.it == Plain(r.it)
            else
              && Ready(r.it) && Ready(Plain(r.it)) && r.rec < 4
              && (if NonData(OsType(r.it.data, r.rec)) then p == Find(disk, Plain(r.it)) else p == r.(it := Plain(r.it)))
  {
    hide NextMbr, EbrLoop;
    MbrKeeps(s);
    FindKeeps(disk, s);
    var m := if s.index0 < 4 then NextMbr(s).it else s;
    if s.index0 < 4 { PlainMbr(s); }
    if m.status == Ok && m.index0 >= 4 && m.bebrIndex0 >= 0 {
      PlainEbr(disk, Prep(m));
      EbrKeeps(disk, Prep(m));
    }
  }

  /** One step over everything, against the plain iterator. */
  lemma PlainStep(disk: Disk, s: Iter)
    requires Sectors(disk) && Ready(s) && s.status == Ok && s.cfg.stepAll
    ensures Ready(Plain(s))
    ensures var t, p := Next(disk, s), Next(disk, Plain(s));
            if t.status != Ok then p.status == t.status
            else
              && Ready(t) && Ready(Plain(t))
              && (if IsData(t) then p == Plain(t)
                  else p.status == Next(disk, Plain(t)).status && (p.status == Ok ==> p == Next(disk, Plain(t))))
  {
    hide Find;
    PlainFind(disk, s);
    FindKeeps(disk, s);
    var r := Find(disk, s);
    if r.it.status == Ok && NonData(OsType(r.it.data, r.rec)) {
      NextCore(disk, Plain(r.it), Plain(Next(disk, s)));
    }
  }

  /** Plain iteration finds the data partitions that stepping over everything finds, numbered alike. */
  lemma {:induction false} PlainWalk(disk: Disk, s: Iter)
    requires Sectors(disk) && Ready(s) && s.cfg.stepAll && s.status == Ok
    ensures Ready(Plain(s)) && forall i :: 0 <= i < |Walk(disk, s)| ==> Ready(Walk(disk, s)[i])
    ensures Walk(disk, Plain(s)) == DataOnly(Walk(disk, s))
    ensures Last(disk, Plain(s)).status == Last(disk, s).status
    decreases 1024 - s.index0
  {
    WalkReady(disk, s);
    PlainStep(disk, s);
    hide Next;
    var t, p := Next(disk, s), Next(disk, Plain(s));
    if t.status == Ok {
      NextIndex(disk, s);
      NextConfig(disk, s);
      PlainWalk(disk, t);
      assert Walk(disk, s) == [t] + Walk(disk, t) && Walk(disk, s)[1..] == Walk(disk, t);
    }
  }
}
