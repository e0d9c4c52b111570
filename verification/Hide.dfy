/**
 manglepe_hide (com32/chain/mangle.c): walk all entries, flip hide bits in the iterator's buffer, and
 write a sector back when it is finished with.
 */
module Hide {
  import opened PartSpec
  import opened HideSpec
  import PartIter

  /** A disk that is written to; writes to the LBAs in bad fail. */
  class Drive {
    var sectors: Disk
    const bad: set<nat>

    constructor (s: Disk, b: set<nat>)
      ensures sectors == s && bad == b
    {
      sectors, bad := s, b;
    }

    /** disk_write_sectors, for one sector. */
    method Write(lba: nat, data: Sector) returns (err: bool)
      modifies this`sectors
      ensures err <==> lba in bad
      ensures sectors == if err then old(sectors) else old(sectors)[lba := data]
    {
      err := lba in bad;
      if !err {
        sectors := sectors[lba := data];
      }
    }
  }

  /** fliphide: flip the hide bit of the entry just found, and say whether that changed it. */
  method FlipHide(iter: PartIter.Iterator, o: Options) returns (changed: bool)
    requires |iter.data| == SECTOR && iter.record < 4
    modifies iter`data
    ensures iter.data == FlipAt(old(iter.data), iter.record, iter.index == o.selected || o.rev)
    ensures changed <==> iter.data != old(iter.data)
  {
    var t := OsType(iter.data, iter.record);
    if t <= 0x1F && t as int % 16 in {0x1, 0x4, 0x6, 0x7, 0xB, 0xC, 0xE} {
      if o.selected == iter.index || o.rev {
        t := t as int % 16;
      } else {
        t := 16 + t as int % 16;
      }
    }
    changed := OsType(iter.data, iter.record) != t;
    if changed {
      iter.data := iter.data[TypeOffset(iter.record) := t];
    }
  }

  // ---- What one round keeps ----

  /** The walk of the original disk d is the entries done and those from p on. */
  ghost predicate Remaining(d: Disk, w: seq<Iter>, done: seq<Iter>, p: Iter) {
    Sectors(d) && (p.status == Ok ==> Ready(p) && w == done + [p] + Walk(d, p)) && (p.status != Ok ==> w == done)
  }

  /** The iterator s on the rewritten disk e is where p is on the original disk d. */
  ghost predicate Tracks(d: Disk, e: Disk, p: Iter, s: Iter) {
    && Sectors(d) && Sectors(e) && 0 in d && AlikeDisk(d, e) && AlikeIter(p, s)
    && (p.status == Ok ==> Ready(p) && Ready(s) && p.cebrLba in d && p.record < 4) && p.cfg.stepAll
  }

  /** Up to the buffer of s, which is written at the end of the MBR and of each EBR, e is the flipped disk. */
  ghost predicate Pending(d: Disk, e: Disk, done: seq<Iter>, p: Iter, s: Iter, o: Options, wb: bool)
    requires Sectors(d)
  {
    && (|done| < 4 ==> e == d)
    && (p.status != Ok && |done| >= 4 ==> e == Applied(d, done, o))
    && (p.status == Ok ==>
          && |done| == p.index0 && p.cebrLba in e && Applied(d, done, o) == e[p.cebrLba := s.data]
          && (!wb ==> e[p.cebrLba] == s.data) && (wb ==> p.index0 <= 3))
  }

  lemma RemainingStep(d: Disk, w: seq<Iter>, done: seq<Iter>, p: Iter)
    requires Remaining(d, w, done, p) && p.status == Ok
    ensures Remaining(d, w, done + [p], Next(d, p))
  {
    hide Next;
    var t := Next(d, p);
    if t.status == Ok {
      NextIndex(d, p);
      assert Walk(d, p) == [t] + Walk(d, t);
    }
  }

  /** The buffer after the flip of a round. */
  function Flipped(s: Iter, o: Options): Iter
    requires |s.data| == SECTOR && s.record < 4
  {
    if Touched(s, o) then s.(data := FlipAt(s.data, s.record, Unhide(s, o))) else s
  }

  lemma FlippedAlike(p: Iter, s: Iter, o: Options)
    requires AlikeIter(p, s) && s.record < 4
    ensures AlikeIter(p, Flipped(s, o)) && (Ready(s) ==> Ready(Flipped(s, o)))
  {
    FlipFacts(OsType(s.data, s.record), Unhide(s, o), true);
    assert IsTypeOffset(TypeOffset(s.record));
    AlikeTransitive(p.data, s.data, Flipped(s, o).data);
  }

  lemma {:induction false} AppliedNext(d: Disk, done: seq<Iter>, p: Iter, s: Iter, e: Disk, o: Options)
    requires Sectors(d) && Sectors(e) && AlikeIter(p, s) && p.record < 4 && p.cebrLba in e
    requires Applied(d, done, o) == e[p.cebrLba := s.data]
    ensures Applied(d, done + [p], o) == e[p.cebrLba := Flipped(s, o).data]
  {
    assert (done + [p])[..|done|] == done;
  }

  /** The disk after a round in which the buffer is written if it is finished with. */
  function Written(e: Disk, p: Iter, s: Iter, o: Options): Disk
    requires |s.data| == SECTOR && s.record < 4
  {
    if p.index0 >= 3 then e[p.cebrLba := Flipped(s, o).data] else e
  }

  lemma RoundTracks(d: Disk, e: Disk, done: seq<Iter>, p: Iter, s: Iter, o: Options, wb: bool)
    requires Tracks(d, e, p, s) && Pending(d, e, done, p, s, o, wb) && p.status == Ok && s.record < 4
    ensures var f, e' := Flipped(s, o), Written(e, p, s, o); Ready(f) && Sectors(e') && Tracks(d, e', Next(d, p), Next(e', f))
    ensures var f, e' := Flipped(s, o), Written(e, p, s, o); Next(e', f).status == Ok ==> Next(e', f).index0 > s.index0
  {
    var f, e' := Flipped(s, o), Written(e, p, s, o);
    hide AlikeSector, Next, Touched, FlipAt;
    FlippedAlike(p, s, o);
    AppliedNext(d, done, p, s, e, o);
    if p.index0 >= 3 { AppliedAlike(d, done + [p], o); }
    AlikeNext(d, e', p, f);
    NextStepAll(d, p);
    NextStepAll(e', f);
    NextConfig(d, p);
  }

  lemma RoundPending(d: Disk, e: Disk, done: seq<Iter>, p: Iter, s: Iter, o: Options, wb: bool)
    requires Tracks(d, e, p, s) && Pending(d, e, done, p, s, o, wb) && p.status == Ok && s.record < 4
    requires var f, e' := Flipped(s, o), Written(e, p, s, o); Ready(f) && Sectors(e') && Tracks(d, e', Next(d, p), Next(e', f))
    ensures var f, e' := Flipped(s, o), Written(e, p, s, o);
            Pending(d, e', done + [p], Next(d, p), Next(e', f), o, p.index0 < 3 && (wb || f.data != s.data))
  {
    hide AlikeSector, AlikeDisk, Next, Ready, Applied, Flipped, Walk;
    var f, e' := Flipped(s, o), Written(e, p, s, o);
    FlippedAlike(p, s, o);
    AppliedNext(d, done, p, s, e, o);
    NextStepAll(d, p);
    NextStepAll(e', f);
    var t, u := Next(d, p), Next(e', f);
    if p.index0 < 3 {
      InMbr(d, e, done, p, t, u, o, wb || f.data != s.data);
    } else {
      PastMbr(d, e', done, p, t, u, o);
    }
  }

  lemma PastMbr(d: Disk, e: Disk, done: seq<Iter>, p: Iter, t: Iter, u: Iter, o: Options)
    requires Sectors(d) && |done| == p.index0 >= 3 && e == Applied(d, done + [p], o)
    requires t.status == Ok ==> t.index0 == p.index0 + 1 && t.cebrLba in e && u.data == e[t.cebrLba]
    ensures Pending(d, e, done + [p], t, u, o, false)
  {
    hide Applied;
    assert t.status == Ok ==> e[t.cebrLba := u.data] == e;
  }

  lemma InMbr(d: Disk, e: Disk, done: seq<Iter>, p: Iter, t: Iter, u: Iter, o: Options, wb: bool)
    requires Sectors(d) && e == d && |done| == p.index0 < 3 && 0 in e
    requires t.status == Ok ==> t.index0 == p.index0 + 1 && t.cebrLba == 0 && Applied(d, done + [p], o) == e[0 := u.data]
    requires t.status == Ok && !wb ==> e[0] == u.data
    ensures Pending(d, e, done + [p], t, u, o, wb)
  {
  }

  /** Entries past the MBR are not touched without the ext option. */
  lemma {:induction false} UntouchedRest(d: Disk, done: seq<Iter>, rest: seq<Iter>, o: Options)
    requires Sectors(d) && !o.ext && forall i :: 0 <= i < |rest| ==> rest[i].index0 > 3
    ensures Applied(d, done + rest, o) == Applied(d, done, o)
    decreases |rest|
  {
    if |rest| == 0 {
      assert done + rest == done;
    } else {
      var f := rest[..|rest| - 1];
      UntouchedRest(d, done, f, o);
      assert (done + rest)[..|done + rest| - 1] == done + f;
    }
  }

  lemma StopAtExtended(d: Disk, w: seq<Iter>, done: seq<Iter>, p: Iter, o: Options)
    requires Remaining(d, w, done, p) && p.status == Ok && p.index0 > 3 && !o.ext
    ensures Applied(d, w, o) == Applied(d, done, o)
  {
    WalkBounded(d, p);
    var rest := [p] + Walk(d, p);
    assert w == done + rest;
    UntouchedRest(d, done, rest, o);
  }

  lemma AlikeSelf(d: Disk)
    ensures AlikeDisk(d, d)
  {
  }

  /** Before the first round. */
  lemma Start(d: Disk, p: Iter, cfg: Config, o: Options)
    requires Sectors(d) && 0 in d && p == Begin(cfg.(stepAll := true), d[0])
    ensures Ready(p) && Tracks(d, d, Next(d, p), Next(d, p)) && Pending(d, d, [], Next(d, p), Next(d, p), o, false)
    ensures Remaining(d, Walk(d, p), [], Next(d, p)) && Good(d, d, Walk(d, p), [], Next(d, p), Next(d, p), o, false)
  {
    hide Next;
    AlikeSelf(d);
    NextStepAll(d, p);
    NextConfig(d, p);
    AlikeNext(d, d, p, p);
  }

  /** When the walk is over, or stops at the logical partitions, everything is written. */
  lemma Finished(d: Disk, e: Disk, w: seq<Iter>, done: seq<Iter>, p: Iter, s: Iter, cfg: Config, o: Options, wb: bool)
    requires Sectors(d) && 0 in d && w == Walk(d, Begin(cfg.(stepAll := true), d[0]))
    requires Tracks(d, e, p, s) && Pending(d, e, done, p, s, o, wb) && Remaining(d, w, done, p)
    requires p.status != Ok || (p.index0 > 3 && !o.ext)
    ensures e == HideOf(d, cfg, o)
  {
    hide Ready, AlikeDisk, Next, Walk, AlikeIter;
    if p.status == Ok { StopAtExtended(d, w, done, p, o); }
  }

  // ---- The whole rewrite ----

  /** mbrcpy: keep the buffer of the matched iterator in step. */
  method MbrCopy(dst: PartIter.Iterator, src: PartIter.Iterator)
    modifies dst`data
    ensures dst.data == if dst.cebrLba == src.cebrLba then old(src.data) else old(dst.data)
  {
    if dst.cebrLba == src.cebrLba {
      dst.data := src.data;
    }
  }

  /** The flip and, at the end of the MBR and in every EBR, the write of one round. */
  method HideEntry(drive: Drive, miter: PartIter.Iterator, iter: PartIter.Iterator, o: Options, wb0: bool) returns (wb: bool, werr: bool)
    requires miter != iter && |iter.data| == SECTOR && iter.record < 4 && (o.ext || iter.index0 <= 3)
    requires iter.cebrLba in drive.sectors && (!wb0 ==> drive.sectors[iter.cebrLba] == iter.data)
    modifies drive`sectors, miter`data, iter`data
    ensures iter.State() == Flipped(old(iter.State()), o)
    ensures werr ==> iter.cebrLba in drive.bad && drive.sectors == old(drive.sectors)
    ensures !werr ==> drive.sectors == Written(old(drive.sectors), old(iter.State()), old(iter.State()), o)
    ensures !werr ==> (wb <==> iter.index0 < 3 && (wb0 || iter.data != old(iter.data)))
    ensures !werr && miter.cebrLba in old(drive.sectors) && old(miter.data == drive.sectors[miter.cebrLba]) ==>
              miter.cebrLba in drive.sectors && miter.data == drive.sectors[miter.cebrLba]
  {
    wb, werr := wb0, false;
    var ridx := iter.index0;
    if iter.index != -1 {
      var changed := FlipHide(iter, o);
      wb := wb || changed;
    }
    if ridx >= 3 && wb {
      MbrCopy(miter, iter);
      werr := drive.Write(iter.cebrLba, iter.data);
      wb := false;
    }
  }

  /** Everything the loop of manglepe_hide keeps while writes succeed. */
  ghost predicate Good(d: Disk, e: Disk, w: seq<Iter>, done: seq<Iter>, p: Iter, s: Iter, o: Options, wb: bool) {
    Tracks(d, e, p, s) && Pending(d, e, done, p, s, o, wb) && Remaining(d, w, done, p)
  }

  lemma RoundGood(d: Disk, e: Disk, w: seq<Iter>, done: seq<Iter>, p: Iter, s: Iter, o: Options, wb: bool)
    requires Good(d, e, w, done, p, s, o, wb) && s.status == Ok
    ensures |s.data| == SECTOR && s.record < 4 && s.cebrLba in e && (!wb ==> e[s.cebrLba] == s.data) && Sectors(e)
    ensures var f, e' := Flipped(s, o), Written(e, s, s, o);
            && Ready(f) && Ready(p) && Sectors(e') && Sectors(d) && (Next(e', f).status == Ok ==> s.index0 < Next(e', f).index0)
            && Good(d, e', w, done + [p], Next(d, p), Next(e', f), o, s.index0 < 3 && (wb || f.data != s.data))
    ensures s.index0 < 1024 && Ready(Flipped(s, o))
  {
    hide Ready, Next, Walk, AlikeIter, AlikeDisk, Flipped, Applied, Pending, Remaining, Tracks;
    Facts(d, e, done, p, s, o, wb);
    RoundTracks(d, e, done, p, s, o, wb);
    RoundPending(d, e, done, p, s, o, wb);
    RemainingStep(d, w, done, p);
    WrittenSame(e, p, s, o);
  }

  /** One round: flip, write if due, and go on to the next entry. */
  method HideRound(drive: Drive, miter: PartIter.Iterator, iter: PartIter.Iterator, o: Options, wb0: bool,
                   ghost d: Disk, ghost w: seq<Iter>, ghost done: seq<Iter>, ghost p: Iter) returns (wb: bool, werr: bool)
    requires miter != iter && Good(d, drive.sectors, w, done, p, iter.State(), o, wb0)
    requires iter.status == Ok && (o.ext || iter.index0 <= 3)
    modifies drive`sectors, miter`data, iter
    ensures old(iter.index0) < 1024 && (!werr && iter.status == Ok ==> old(iter.index0) < iter.index0)
    ensures werr ==> drive.bad != {} && drive.sectors == old(drive.sectors)
    ensures Sectors(d) && Ready(p) && (!werr ==> Good(d, drive.sectors, w, done + [p], Next(d, p), iter.State(), o, wb))
    ensures !werr && miter.cebrLba in old(drive.sectors) && old(miter.data == drive.sectors[miter.cebrLba]) ==>
              miter.cebrLba in drive.sectors && miter.data == drive.sectors[miter.cebrLba]
  {
    hide Good, Ready, Next, Walk, Flipped, Written;
    RoundGood(d, drive.sectors, w, done, p, iter.State(), o, wb0);
    wb, werr := HideEntry(drive, miter, iter, o, wb0);
    iter.Next(drive.sectors);
  }

  lemma GoodFacts(d: Disk, e: Disk, w: seq<Iter>, done: seq<Iter>, p: Iter, s: Iter, cfg: Config, o: Options, wb: bool)
    requires Good(d, e, w, done, p, s, o, wb)
    requires Sectors(d) && 0 in d && w == Walk(d, Begin(cfg.(stepAll := true), d[0]))
    ensures AlikeDisk(d, e) && Sectors(e)
    ensures s.status != Ok || (s.index0 > 3 && !o.ext) ==> e == HideOf(d, cfg, o)
  {
    hide Ready, Next, Walk, AlikeDisk, HideOf, Applied;
    if s.status != Ok || (s.index0 > 3 && !o.ext) { Finished(d, e, w, done, p, s, cfg, o, wb); }
  }

  /** manglepe_hide. */
  method ManglePeHide(drive: Drive, miter: PartIter.Iterator, cfg: Config, on: bool, ext: bool, rev: bool) returns (ret: int)
    requires Sectors(drive.sectors)
    modifies drive`sectors, miter`data
    ensures ret == if on && 0 !in old(drive.sectors) then -1 else 0
    ensures AlikeDisk(old(drive.sectors), drive.sectors)
    ensures !on ==> drive.sectors == old(drive.sectors)
    ensures on && ret == 0 && drive.bad == {} ==>
              drive.sectors == HideOf(old(drive.sectors), cfg, Options(ext, rev, miter.index))
    ensures drive.bad == {} && miter.cebrLba in old(drive.sectors) && old(miter.data == drive.sectors[miter.cebrLba]) ==>
              miter.cebrLba in drive.sectors && miter.data == drive.sectors[miter.cebrLba]
  {
    hide AlikeDisk, HideOf;
    AlikeSelf(drive.sectors);
    if !on {
      return 0;
    }
    if 0 !in drive.sectors {
      return -1;
    }
    HideWalk(drive, miter, cfg, Options(ext, rev, miter.index));
    return 0;
  }

  /** The loop of manglepe_hide, with its iterator. */
  method HideWalk(drive: Drive, miter: PartIter.Iterator, cfg: Config, o: Options)
    requires Sectors(drive.sectors) && 0 in drive.sectors
    modifies drive`sectors, miter`data
    ensures AlikeDisk(old(drive.sectors), drive.sectors)
    ensures drive.bad == {} ==> drive.sectors == HideOf(old(drive.sectors), cfg, o)
    ensures drive.bad == {} && miter.cebrLba in old(drive.sectors) && old(miter.data == drive.sectors[miter.cebrLba]) ==>
              miter.cebrLba in drive.sectors && miter.data == drive.sectors[miter.cebrLba]
  {
    hide Next, Ready, AlikeDisk, Walk, Good, HideOf, Sectors, Begin;
    ghost var d := drive.sectors;
    ghost var coherent := miter.cebrLba in d && miter.data == d[miter.cebrLba];
    var wb, werr := false, false;
    var iter := new PartIter.Iterator(cfg.(stepAll := true), drive.sectors[0]);
    ghost var p, done := iter.State(), [];
    Start(d, p, cfg, o);
    ghost var w := Walk(d, p);
    iter.Next(drive.sectors);
    p := Next(d, p);
    GoodFacts(d, d, w, done, p, p, cfg, o, wb);
    while iter.status == Ok && !werr && (o.ext || iter.index0 <= 3)
      invariant AlikeDisk(d, drive.sectors) && (werr ==> drive.bad != {})
      invariant !werr ==> Good(d, drive.sectors, w, done, p, iter.State(), o, wb)
      invariant !werr && coherent ==> miter.cebrLba in drive.sectors && miter.data == drive.sectors[miter.cebrLba]
      decreases if iter.status == Ok && !werr then 1 else 0, 1024 - iter.index0
    {
      wb, werr := HideRound(drive, miter, iter, o, wb, d, w, done, p);
      done, p := done + [p], Next(d, p);
      if !werr { GoodFacts(d, drive.sectors, w, done, p, iter.State(), cfg, o, wb); }
    }
    if !werr { GoodFacts(d, drive.sectors, w, done, p, iter.State(), cfg, o, wb); }
  }

  /** What the round reads off. */
  lemma Facts(d: Disk, e: Disk, done: seq<Iter>, p: Iter, s: Iter, o: Options, wb: bool)
    requires Tracks(d, e, p, s) && Pending(d, e, done, p, s, o, wb) && s.status == Ok
    ensures p.status == Ok && p.index0 == s.index0 && |s.data| == SECTOR && s.record < 4 && s.index0 < 1024
    ensures s.cebrLba == p.cebrLba && p.cebrLba in e
    ensures Sectors(d) && Sectors(e) && Ready(p) && Ready(s) && (!wb ==> e[s.cebrLba] == s.data)
  {
  }

  lemma WrittenSame(e: Disk, p: Iter, s: Iter, o: Options)
    requires |s.data| == SECTOR && s.record < 4 && p.index0 == s.index0 && p.cebrLba == s.cebrLba
    ensures Written(e, p, s, o) == Written(e, s, s, o)
  {
  }
}
