/** The partition iterator as the object that com32/chain/partiter.c updates field by field. */
module PartIter {
  import opened Widths
  import opened Bytes
  import opened PartSpec

  class Iterator {
    const cfg: Config
    var data: Sector
    var record: nat
    var absLba: nat
    var length: nat
    var index0: int
    var index: int
    var status: Status
    var bebrLba: nat
    var bebrSiz: nat
    var cebrLba: nat
    var cebrSiz: nat
    var nebrLba: nat
    var nebrSiz: nat
    var bebrIndex0: int
    var logskip: nat

    ghost function State(): Iter
      reads this
    {
      Iter(cfg, data, record, absLba, length, index0, index, status,
           bebrLba, bebrSiz, cebrLba, cebrSiz, nebrLba, nebrSiz, bebrIndex0, logskip)
    }

    /** pi_dos_ctor. */
    constructor (c: Config, mbr: Sector)
      ensures State() == Begin(c, mbr)
    {
      cfg, data, index0, length := c, mbr, -1, c.lbacnt;
      record, absLba, index, status := 0, 0, 0, Ok;
      bebrLba, bebrSiz, cebrLba, cebrSiz, nebrLba, nebrSiz := 0, 0, 0, 0, 0, 0;
      bebrIndex0, logskip := -1, 0;
    }

    /** A turn of the loop of dos_next_mbr up to the point where an entry may be found. */
    method CheckPrimary()
      requires |data| == SECTOR && 0 <= index0 < 4 && status == Ok
      modifies this`status, this`bebrIndex0
      ensures State() == MbrEntry(old(State()).(index0 := index0 - 1))
    {
      hide Get32, NotSanePrimary;
      if NotSanePrimary(cfg, data, index0) {
        status := Insane;
        return;
      }
      if IsExt(OsType(data, index0)) {
        if bebrIndex0 >= 0 {
          status := Insane;
          return;
        }
        bebrIndex0 := index0;
      }
    }

    /** dos_next_mbr. */
    method NextMbr() returns (lba: nat, rec: nat)
      requires |data| == SECTOR && -1 <= index0 < 4 && status == Ok
      modifies this
      ensures State() == PartSpec.NextMbr(old(State())).it
      ensures status == Ok && index0 < 4 ==> Step(State(), lba, rec) == PartSpec.NextMbr(old(State()))
    {
      hide Get32, PartSpec.NextMbr, MbrEntry;
      lba, rec := 0, 0;
      ghost var p := State();
      MbrTurn(p);
      index0 := index0 + 1;
      while index0 < 4
        invariant |data| == SECTOR && 0 <= index0 <= 4 && status == Ok && p == State().(index0 := index0 - 1)
        invariant PartSpec.NextMbr(p) == PartSpec.NextMbr(old(State()))
        decreases 4 - index0
      {
        MbrTurn(p);
        CheckPrimary();
        if status != Ok {
          return;
        }
        if !NonData(OsType(data, index0)) || cfg.stepAll {
          lba, rec := StartLba(data, index0), index0;
          return;
        }
        p := State();
        index0 := index0 + 1;
      }
      MbrTurn(p);
    }

    /** prep_base_ebr. */
    method PrepBaseEbr() returns (ok: bool)
      requires |data| == SECTOR && bebrIndex0 < 4
      modifies this
      ensures ok <==> bebrIndex0 >= 0
      ensures State() == if old(bebrIndex0) < 0 then old(State()) else Prep(old(State()))
    {
      if bebrIndex0 < 0 {
        return false;
      } else if bebrLba == 0 {
        bebrLba, bebrSiz := StartLba(data, bebrIndex0), Length(data, bebrIndex0);
        nebrLba, nebrSiz := StartLba(data, bebrIndex0), Length(data, bebrIndex0);
        index0 := index0 - 1;
      }
      return true;
    }

    /** A turn of the loop of dos_next_ebr up to the point where an entry may be found. */
    method LoadEbr(disk: Disk)
      requires Sectors(disk) && status == Ok && index0 < 1024 && nebrLba != 0
      modifies this
      ensures State() == EbrEntry(disk, old(State()).(index0 := old(index0) - 1))
    {
      hide Get32, NotSaneLogical, NotSaneExtended, Advance;
      if nebrLba !in disk {
        status := ErrLoad;
        return;
      }
      data := disk[nebrLba];
      if NotSaneLogical(cfg, data, nebrSiz) || NotSaneExtended(cfg, data, bebrSiz) {
        status := Insane;
        return;
      }
      AdvanceLoads(old(State()), data);
      ToNextEbr();
    }

    /** The frames after an EBR that is sane. */
    method ToNextEbr()
      requires |data| == SECTOR
      modifies this
      ensures State() == Advance(old(State()), old(data))
    {
      hide Get32;
      cebrLba, cebrSiz := nebrLba, nebrSiz;
      if OsType(data, 1) != 0 {
        nebrLba, nebrSiz := (bebrLba + StartLba(data, 1)) % WRAP, Length(data, 1);
      } else {
        nebrLba, nebrSiz := 0, 0;
      }
      if OsType(data, 0) == 0 {
        logskip := logskip + 1;
      }
    }

    /** dos_next_ebr. */
    method NextEbr(disk: Disk) returns (lba: nat, rec: nat)
      requires Sectors(disk) && |data| == SECTOR && -1 <= bebrIndex0 < 4 && status == Ok
      modifies this
      ensures State() == PartSpec.NextEbr(disk, old(State())).it
      ensures status == Ok ==> Step(State(), lba, rec) == PartSpec.NextEbr(disk, old(State()))
    {
      hide Get32, EbrLoop, Advance, NotSaneLogical, NotSaneExtended;
      lba, rec := 0, 0;
      var ok := PrepBaseEbr();
      if !ok {
        status := Done;
        return;
      }
      ghost var s, p := State(), State();
      index0 := index0 + 1;
      while index0 < 1024 && nebrLba != 0
        invariant status == Ok && p == State().(index0 := index0 - 1) && EbrLoop(disk, p) == EbrLoop(disk, s)
        decreases 1024 - index0
      {
        EbrTurn(disk, p);
        LoadEbr(disk);
        if status != Ok {
          return;
        }
        if OsType(data, 0) != 0 || cfg.stepAll {
          lba := if StartLba(data, 0) != 0 then (cebrLba + StartLba(data, 0)) % WRAP else 0;
          return;
        }
        p := State();
        index0 := index0 + 1;
      }
      EbrTurn(disk, p);
      status := Done;
    }

    /** pi_dos_next. */
    method Next(disk: Disk)
      requires Sectors(disk) && Ready(State())
      modifies this
      ensures State() == PartSpec.Next(disk, old(State()))
    {
      hide Get32, PartSpec.NextMbr, EbrLoop;
      if status != Ok {
        return;
      }
      ghost var s := State();
      MbrKeeps(s);
      FindKeeps(disk, s);
      var lba, rec := 0, 0;
      if index0 < 4 {
        lba, rec := NextMbr();
        if status != Ok {
          return;
        }
      }
      if index0 >= 4 {
        lba, rec := NextEbr(disk);
        if status != Ok {
          return;
        }
      }
      index := if OsType(data, rec) == 0 then -1 else index0 + 1 - logskip;
      absLba, length, record := lba, Length(data, rec), rec;
    }
  }

  lemma AdvanceLoads(s: Iter, d: Sector)
    requires |d| == SECTOR
    ensures Advance(s.(data := d), d) == Advance(s, d)
  {
  }

  lemma MbrTurn(s: Iter)
    requires |s.data| == SECTOR && -1 <= s.index0 < 4
    ensures s.index0 == 3 ==> PartSpec.NextMbr(s) == Step(s.(index0 := 4), 0, 0)
    ensures s.index0 < 3 ==> MbrEntry(s).index0 == s.index0 + 1 && (MbrEntry(s).status == s.status || MbrEntry(s).status == Insane)
    ensures s.index0 < 3 ==>
              var t := MbrEntry(s);
              if t.status == Insane || !NonData(OsType(s.data, t.index0)) || s.cfg.stepAll
              then PartSpec.NextMbr(s) == Step(t, StartLba(s.data, t.index0), t.index0) else PartSpec.NextMbr(s) == PartSpec.NextMbr(t)
  {
    hide Get32;
  }

  lemma EbrTurn(disk: Disk, s: Iter)
    requires Sectors(disk)
    ensures var t, r := EbrEntry(disk, s), EbrLoop(disk, s);
            if t.status != Ok then r == Step(t, 0, 0)
            else if OsType(t.data, 0) == 0 && !t.cfg.stepAll then r == EbrLoop(disk, t)
            else r == Step(t, if StartLba(t.data, 0) != 0 then (t.cebrLba + StartLba(t.data, 0)) % WRAP else 0, 0)
  {
    hide Get32;
  }
}
