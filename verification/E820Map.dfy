/**
 The E820 map as an array edited in place (memdisk/e820func.c), and its two users parse_mem
 (memdisk/msetup.c) and setmaxmem (memdisk/setup.c).
 */
module E820Map {
  import opened Widths
  import opened E820

  const MAXRANGES: nat := 1024
  const MIB1: nat := 0x10_0000
  const MIB16: nat := 0x100_0000
  const GIB4: nat := 0x1_0000_0000

  /** x - 1 in 64-bit arithmetic. */
  function Dec(x: nat): nat {
    if x == 0 then WRAP64 - 1 else x - 1
  }

  class Map {
    var ranges: array<Range>
    var nranges: nat

    ghost predicate Room()
      reads this, ranges
    {
      ranges.Length == MAXRANGES && nranges < MAXRANGES && ranges[nranges] == Range(0, NONE)
    }

    ghost function Rows(): seq<Range>
      requires Room()
      reads this, ranges
    {
      ranges[..nranges]
    }

    ghost predicate Valid()
      reads this, ranges
    {
      Room() && WellFormed(Rows())
    }

    constructor ()
      ensures Valid() && Rows() == [Range(0, 0)] && fresh(ranges)
    {
      ranges := new Range[MAXRANGES](_ => Range(0, 0));
      nranges := 1;
      new;
      ranges[1] := Range(0, NONE);
    }

    /** insertrange_at: put a row in the middle and move the sentinel up. */
    method InsertAt(where: nat, start: nat, kind: nat)
      requires Room() && nranges + 1 < MAXRANGES && where <= nranges
      modifies this`nranges, ranges
      ensures Room() && Rows() == old(Rows()[..where]) + [Range(start, kind)] + old(Rows()[where..])
      ensures nranges == old(nranges) + 1
    {
      ghost var rs := Rows();
      var i := nranges;
      while i > where
        invariant where <= i <= nranges == |rs| && ranges.Length == MAXRANGES
        invariant forall k :: 0 <= k < i ==> ranges[k] == rs[k]
        invariant forall k :: i < k <= nranges ==> ranges[k] == rs[k - 1]
      {
        ranges[i] := ranges[i - 1];
        i := i - 1;
      }
      ranges[where] := Range(start, kind);
      nranges := nranges + 1;
      ranges[nranges] := Range(0, NONE);
      InsertedRow(rs, where, Range(start, kind), ranges[..nranges]);
    }

    /** The final scan of insertrange: remove redundant rows in place. */
    method Squeeze()
      requires Room() && nranges > 0
      modifies this`nranges, ranges
      ensures Room() && Rows() == Compact(old(Rows())) && nranges <= old(nranges)
    {
      hide Compact;
      ghost var rs := Rows();
      ghost var kept := Compact(rs[..1]);
      CompactOne(rs);
      var i, j := 1, 1;
      var oldtype := ranges[0].kind;
      while i < nranges
        invariant 1 <= j <= i <= nranges == |rs| && Room()
        invariant kept == Compact(rs[..i]) && |kept| == j && ranges[..j] == kept
        invariant forall k :: i <= k < nranges ==> ranges[k] == rs[k]
        invariant oldtype == rs[i - 1].kind
      {
        CompactSnoc(rs, i);
        if ranges[i].kind == oldtype {
          i := i + 1;
        } else {
          oldtype := ranges[i].kind;
          kept := kept + [rs[i]];
          if i != j {
            ranges[j] := ranges[i];
          }
          i := i + 1;
          j := j + 1;
        }
      }
      assert rs[..i] == rs;
      if i != j {
        ranges[j] := ranges[i];
        nranges := nranges - (i - j);
      }
    }

    /** insertrange; the end of a range may roll over, and then it is not recorded or the rows get out of order. */
    method InsertRange(start: nat, len: nat, kind: nat)
      requires Valid() && start < WRAP64 && len < WRAP64 && kind < NONE && nranges + 2 < MAXRANGES
      modifies this`nranges, ranges
      ensures Room() && nranges <= old(nranges) + 2
      ensures start + len <= WRAP64 ==> Valid() && Rows() == Apply(old(Rows()), Call(start, len, kind))
      ensures start + len <= WRAP64 && len > 0 ==> Canonical(Rows())
      ensures start + len <= WRAP64 ==>
                forall a :: 0 <= a < WRAP64 ==>
                  TypeAt(Rows(), a) == if start <= a < start + len then kind else old(TypeAt(Rows(), a))
      ensures start + len > WRAP64 && (Boundary(old(Rows()), start) || old(TypeAt(Rows(), start)) == kind) ==>
                Rows() == Compact(old(Rows()))
      ensures Valid() <==> start + len <= WRAP64 || Boundary(old(Rows()), start) || old(TypeAt(Rows(), start)) == kind
    {
      hide WellFormed, Insert, TypeAt, Canonical, Compact, Overlay, Boundary, RolledRows, Apply;
      ghost var rs := Rows();
      RowsTyped(rs);
      if start + len <= WRAP64 { ApplyAll(rs, Call(start, len, kind)); }
      ApplyIs(rs, Call(start, len, kind));
      if len == 0 {
        return;
      }
      Overwrite(start, len, kind);
      Squeeze();
      if start + len > WRAP64 { RolledResult(rs, start, start + len - 1 - WRAP64, kind); }
    }

    /** parse_mem: the sizes are right exactly when the last row is not memory from 16 MiB or below. */
    method ParseMem() returns (dosMem: nat, lowMem: nat, highMem: nat)
      requires Valid() && OnesApart(Rows())
      ensures Sizes(Rows(), dosMem, lowMem, highMem) <==> !OpenTop(Rows(), MIB16 + 1)
    {
      hide WellFormed, Settled, TypeAt, OnesApart;
      ghost var rs := Rows();
      var ep := 0;
      dosMem, lowMem, highMem := 0, 0, 0;
      RowsTyped(rs);
      NothingYet(rs);
      while ranges[ep].kind != NONE
        invariant 0 <= ep <= nranges && (ep == 0 ==> dosMem == 0)
        invariant Settled(rs, ep, 0, MIB1, dosMem)
        invariant Settled(rs, ep, MIB1, MIB16 - MIB1, lowMem)
        invariant Settled(rs, ep, MIB16, GIB4 - MIB16, highMem)
        decreases nranges - ep
      {
        ShareStep(rs, ep, 0, MIB1, dosMem);
        ShareStep(rs, ep, MIB1, MIB16 - MIB1, lowMem);
        ShareStep(rs, ep, MIB16, GIB4 - MIB16, highMem);
        if ranges[ep].kind == 1 {
          if ranges[ep].start == 0 {
            if ranges[ep + 1].start > MIB1 {
              dosMem := MIB1;
            } else {
              dosMem := ranges[ep + 1].start;
            }
          }
          if ranges[ep].start <= MIB1 && ranges[ep + 1].start > MIB1 {
            if ranges[ep + 1].start > MIB16 {
              lowMem := MIB16 - MIB1;
            } else {
              lowMem := ranges[ep + 1].start - MIB1;
            }
          }
          if ranges[ep].start <= MIB16 && ranges[ep + 1].start > MIB16 {
            if ranges[ep + 1].start > GIB4 {
              highMem := GIB4 - MIB16;
            } else {
              highMem := ranges[ep + 1].start - MIB16;
            }
          }
        }
        ep := ep + 1;
      }
      SettledIsSpan(rs, 0, MIB1, dosMem);
      SettledIsSpan(rs, MIB1, MIB16 - MIB1, lowMem);
      SettledIsSpan(rs, MIB16, GIB4 - MIB16, highMem);
    }

    /**
     setmaxmem: memory from the limit on becomes reserved, and nothing else changes, exactly when the
     last row is not memory that starts below the limit.
     */
    method SetMaxMem(r: nat) returns (dosMem: nat, lowMem: nat, highMem: nat)
      requires Valid() && Canonical(Rows()) && nranges + 2 < MAXRANGES
      modifies this`nranges, ranges
      ensures Valid() && nranges <= old(nranges) + 2
      ensures (forall a :: 0 <= a < WRAP64 ==> TypeAt(Rows(), a) == Capped(old(Rows()), a, Limit(r)))
              <==> !OpenTop(old(Rows()), Limit(r))
      ensures !OpenTop(old(Rows()), Limit(r)) ==> Sizes(Rows(), dosMem, lowMem, highMem)
    {
      hide WellFormed, Canonical, OnesApart, TypeAt, Capped, Scan, Apply;
      var restop := Limit(r);
      var ep := 0;
      ghost var rs0, cut := Rows(), false;
      RowsTyped(rs0);
      ghost var open := OpenTop(rs0, restop);
      ScanStart(rs0, restop);
      while ranges[ep].kind != NONE
        invariant Valid() && 0 <= ep <= nranges
        invariant if open then Rows() == rs0 && !cut else Scan(rs0, Rows(), ep, restop)
        invariant if cut then nranges <= |rs0| + 2 && (ep < nranges ==> ranges[ep].start >= restop) else nranges == |rs0|
        decreases if cut then 0 else 1, nranges - ep
      {
        ghost var rs := Rows();
        RowsTyped(rs);
        if ep + 1 < nranges { NextLater(rs, ep); }
        if open {
          OpenBelow(rs0, restop);
        } else {
          ScanTop(rs0, rs, ep, restop);
        }
        if ranges[ep].kind == 1 {
          if ranges[ep].start >= restop {
            ranges[ep] := Range(ranges[ep].start, 2);
            ScanRetype(rs0, rs, ep, restop);
            assert Rows() == rs[ep := Range(rs[ep].start, 2)];
          } else if ranges[ep + 1].start > restop {
            ScanCut(rs0, rs, ep, restop);
            InsertRange(restop, ranges[ep + 1].start - restop, 2);
            cut := true;
          } else if !open {
            ScanPass(rs0, rs, ep, restop);
          }
        } else if !open {
          ScanPass(rs0, rs, ep, restop);
        }
        ep := ep + 1;
      }
      RowsTyped(Rows());
      if open {
        OpenWrong(rs0, restop);
      } else {
        ScanDone(rs0, Rows(), restop);
      }
      dosMem, lowMem, highMem := ParseMem();
    }

    /** First loop of insertrange: the first row not below start, and the type of the row before it. */
    method Locate(start: nat) returns (i: nat, oldtype: nat)
      requires Valid()
      ensures i == Below(Rows(), start) && (i > 0 ==> oldtype == ranges[i - 1].kind)
    {
      ghost var rs := Rows();
      i, oldtype := 0, NONE - 1;
      while start > ranges[i].start && ranges[i].kind != NONE
        invariant 0 <= i <= nranges
        invariant forall k :: 0 <= k < i ==> rs[k].start < start
        invariant i > 0 ==> oldtype == rs[i - 1].kind
        decreases nranges - i
      {
        oldtype := ranges[i].kind;
        i := i + 1;
      }
      BelowIs(rs, start, i);
    }

    /**
     Second loop of insertrange. Row p of sp starts the new range; it may already have the new type,
     and then oldtype is the one it had.
     */
    method Recolour(ghost p: nat, i0: nat, oldtype0: nat, last: nat, kind: nat, ghost sp: seq<Range>) returns (i: nat, oldtype: nat)
      requires Room() && nranges == |sp| && WellFormed(sp) && p < |sp| && last < WRAP64
      requires forall k :: 0 <= k < |sp| && k != p ==> ranges[k] == sp[k]
      requires i0 == p || i0 == p + 1
      requires if i0 == p then ranges[p] == sp[p] else ranges[p] == Range(sp[p].start, kind) && oldtype0 == sp[p].kind
      modifies ranges
      ensures Room() && i <= nranges
      ensures sp[p].start <= last ==> Rows() == Retype(sp, sp[p].start, last + 1, kind)
      ensures sp[p].start <= last ==> 0 < i == Below(sp, last + 1) && oldtype == sp[i - 1].kind
      ensures last < sp[p].start ==> i == i0 && oldtype == oldtype0 && Rows() == old(Rows())
    {
      hide Retype, Below, WellFormed;
      RecolourStops(sp, p, last);
      i, oldtype := i0, oldtype0;
      while i == 0 || last > Dec(ranges[i].start)
        invariant p <= i <= nranges && i0 <= i && Room()
        invariant forall k :: 0 <= k < |sp| && (k < p || i <= k != p) ==> ranges[k] == sp[k]
        invariant if i == p then ranges[p] == sp[p] else oldtype == sp[i - 1].kind
        invariant forall k :: p <= k < i ==> ranges[k] == Range(sp[k].start, kind)
        invariant forall k :: i0 <= k < i ==> sp[k].start <= last
        invariant last < sp[p].start ==> i == i0
        invariant i == i0 ==> oldtype == oldtype0
        decreases nranges - i
      {
        oldtype := ranges[i].kind;
        ranges[i] := Range(ranges[i].start, kind);
        i := i + 1;
      }
      if sp[p].start <= last { RecolourEnd(sp, p, last, i); }
    }

    /** insertrange up to its final scan. */
    method Overwrite(start: nat, len: nat, kind: nat)
      requires Valid() && start < WRAP64 && 0 < len < WRAP64 && kind < NONE && nranges + 2 < MAXRANGES
      modifies this`nranges, ranges
      ensures Room() && 0 < nranges <= old(nranges) + 2
      ensures start + len <= WRAP64 ==> Rows() == Overlay(old(Rows()), start, start + len, kind)
      ensures start + len > WRAP64 ==> 0 < Below(old(Rows()), start)
      ensures start + len > WRAP64 ==> Rows() == RolledRows(old(Rows()), start, start + len - 1 - WRAP64, kind)
    {
      hide Below, Split, WellFormed, Retype, RolledRows, Ended;
      ghost var rs := Rows();
      var last := (start + len - 1) % WRAP64;
      var i, oldtype := Paint(start, last, kind);
      ghost var now := Rows();
      Terminate(i, last, oldtype);
      if start <= last {
        EndedOverlay(rs, start, last, kind, i, oldtype);
      } else {
        EndedRolled(rs, start, last, kind, now, i, oldtype);
      }
    }

    /** insertrange through its second loop. */
    method Paint(start: nat, last: nat, kind: nat) returns (i: nat, oldtype: nat)
      requires Valid() && start < WRAP64 && last < WRAP64 && kind < NONE && nranges + 2 < MAXRANGES
      modifies this`nranges, ranges
      ensures Room() && i <= nranges && 0 < nranges <= old(nranges) + 1
      ensures start <= last ==>
                var sp := Split(old(Rows()), start);
                Rows() == Retype(sp, start, last + 1, kind) && 0 < i == Below(sp, last + 1) <= |sp| && oldtype == sp[i - 1].kind
      ensures last < start ==> Skipped(old(Rows()), start, kind, Rows(), i, oldtype)
    {
      hide Below, Split, WellFormed, Retype;
      ghost var p, sp := Below(Rows(), start), Split(Rows(), start);
      i, oldtype := SplitRow(start, kind);
      i, oldtype := Recolour(p, i, oldtype, last, kind, sp);
    }

    /** insertrange up to its second loop: a row that starts where the new range does. */
    method SplitRow(start: nat, kind: nat) returns (i: nat, oldtype: nat)
      requires Valid() && start < WRAP64 && kind < NONE && nranges + 2 < MAXRANGES
      modifies this`nranges, ranges
      ensures Room() && nranges <= old(nranges) + 1
      ensures var p, sp := Below(old(Rows()), start), Split(old(Rows()), start);
              && nranges == |sp| && WellFormed(sp) && p < |sp| && sp[p].start == start && (i == p || i == p + 1)
              && (forall k :: 0 <= k < |sp| && k != p ==> ranges[k] == sp[k])
              && (if i == p then ranges[p] == sp[p] else ranges[p] == Range(start, kind) && oldtype == sp[p].kind)
              && (i == p <==> p < |old(Rows())| && old(Rows())[p].start == start)
              && (p > 0 ==> oldtype == old(Rows())[p - 1].kind)
    {
      hide Below, Split, WellFormed;
      ghost var rs := Rows();
      i, oldtype := Locate(start);
      ghost var p, sp := i, Split(rs, start);
      SplitAt(rs, start, p);
      assert i < nranges ==> ranges[i] == rs[i];
      if start < ranges[i].start || ranges[i].kind == NONE {
        assert p > 0 && ranges[p - 1] == rs[p - 1] && sp[p] == Range(start, rs[p - 1].kind);
        InsertAt(i, start, kind);
        i := i + 1;
      }
    }

    /** What insertrange does after its second loop: the rest of a row that was cut keeps its type. */
    method Terminate(i: nat, last: nat, oldtype: nat)
      requires Room() && i <= nranges && nranges + 1 < MAXRANGES
      modifies this`nranges, ranges
      ensures Room() && old(nranges) <= nranges <= old(nranges) + 1
      ensures Rows() == Ended(old(Rows()), i, last, oldtype)
    {
      if last < Dec(ranges[i].start) {
        InsertAt(i, last + 1, oldtype);
      }
    }
  }

  lemma InsertedRow(rs: seq<Range>, where: nat, r: Range, s: seq<Range>)
    requires where <= |rs| && |s| == |rs| + 1 && s[where] == r
    requires forall k :: 0 <= k < where ==> s[k] == rs[k]
    requires forall k :: where < k <= |rs| ==> s[k] == rs[k - 1]
    ensures s == rs[..where] + [r] + rs[where..]
  {
  }

  /** The second loop of insertrange passes the first row, and stops in front of a later row that starts past the range. */
  lemma RecolourStops(sp: seq<Range>, p: nat, last: nat)
    requires WellFormed(sp) && p < |sp| && last < WRAP64
    ensures |sp| > 0 && sp[0].start == 0
    ensures last < sp[p].start ==> 0 < p && forall k :: p <= k < |sp| ==> !(last > Dec(sp[k].start))
    ensures forall k :: 0 < k < |sp| && !(last > Dec(sp[k].start)) ==> sp[k].start > last
    ensures forall k :: 0 < k < |sp| && last > Dec(sp[k].start) ==> sp[k].start <= last
  {
  }

  lemma RecolourEnd(sp: seq<Range>, p: nat, last: nat, i: nat)
    requires WellFormed(sp) && p < i <= |sp| && sp[p].start <= last && (i < |sp| ==> sp[i].start > last)
    requires forall k :: p <= k < i ==> sp[k].start <= last
    ensures i == Below(sp, last + 1)
    ensures forall k :: 0 <= k < p ==> sp[k].start < sp[p].start
    ensures forall k :: p <= k < i ==> sp[p].start <= sp[k].start
    ensures forall k :: i <= k < |sp| ==> sp[k].start > last
  {
    BelowIs(sp, last + 1, i);
  }

  // ---- parse_mem ----

  /** m is how far memory of type 1 reaches without a gap from lo on, up to cap bytes. */
  ghost predicate Span(rs: seq<Range>, lo: nat, cap: nat, m: nat)
    requires |rs| > 0
  {
    m <= cap && (forall a :: lo <= a < lo + m ==> TypeAt(rs, a) == 1) && (m < cap ==> TypeAt(rs, lo + m) != 1)
  }

  /** No two neighbouring rows are of type 1. */
  ghost predicate OnesApart(rs: seq<Range>) {
    forall i :: 0 <= i < |rs| - 1 ==> rs[i].kind != 1 || rs[i + 1].kind != 1
  }

  /** The last row, whose end reads as address 0, is memory and starts below x. */
  predicate OpenTop(rs: seq<Range>, x: nat)
    requires |rs| > 0
  {
    rs[|rs| - 1].kind == 1 && rs[|rs| - 1].start < x
  }

  ghost predicate Sizes(rs: seq<Range>, dos: nat, low: nat, high: nat)
    requires |rs| > 0
  {
    Span(rs, 0, MIB1, dos) && Span(rs, MIB1, MIB16 - MIB1, low) && Span(rs, MIB16, GIB4 - MIB16, high)
  }

  /** What row i contributes to the span from lo on, given the end address as it is read from the next row. */
  function Share(r: Range, end: nat, lo: nat, cap: nat, m: nat): nat {
    if r.kind == 1 && r.start <= lo && end > lo then (if end > lo + cap then cap else end - lo) else m
  }

  /** The row that covers lo decides the span; all others leave the value alone. */
  ghost predicate Settled(rs: seq<Range>, n: nat, lo: nat, cap: nat, m: nat)
    requires 0 < |rs|
  {
    if exists i :: 0 <= i < n && i < |rs| - 1 && rs[i].kind == 1 && rs[i].start <= lo < rs[i + 1].start
    then Span(rs, lo, cap, m) && m > 0 else m == 0
  }

  /** A map that is all memory is open at the top: no size of 0 bytes is the span from address 0. */
  lemma AllMemory(low: nat, high: nat)
    ensures var rs := [Range(0, 1)]; WellFormed(rs) && OnesApart(rs) && OpenTop(rs, MIB16 + 1) && !Sizes(rs, 0, low, high)
  {
    assert TypeAt([Range(0, 1)], 0) == 1;
  }

  lemma NothingYet(rs: seq<Range>)
    requires |rs| > 0
    ensures forall lo, cap :: Settled(rs, 0, lo, cap, 0)
  {
  }

  lemma RowsTyped(rs: seq<Range>)
    requires WellFormed(rs)
    ensures |rs| > 0
    ensures forall i :: 0 <= i < |rs| ==> rs[i].kind < NONE && rs[i].start < WRAP64 && (rs[i].start == 0 <==> i == 0)
  {
    forall i | 0 < i < |rs|
      ensures rs[0].start < rs[i].start
    {
    }
  }

  lemma NextLater(rs: seq<Range>, i: nat)
    requires WellFormed(rs) && i + 1 < |rs|
    ensures rs[i].start < rs[i + 1].start
  {
  }

  lemma ShareStep(rs: seq<Range>, n: nat, lo: nat, cap: nat, m: nat)
    requires WellFormed(rs) && OnesApart(rs) && n < |rs| && lo + cap < WRAP64 && cap > 0 && Settled(rs, n, lo, cap, m)
    ensures Settled(rs, n + 1, lo, cap, Share(rs[n], if n + 1 < |rs| then rs[n + 1].start else 0, lo, cap, m))
  {
    if n + 1 < |rs| && rs[n].kind == 1 && rs[n].start <= lo < rs[n + 1].start {
      var end := rs[n + 1].start;
      var v := if end > lo + cap then cap else end - lo;
      forall a | lo <= a < lo + v
        ensures TypeAt(rs, a) == 1
      {
        TypeIs(rs, n, a);
      }
      if v < cap { TypeIs(rs, n + 1, end); }
    }
  }

  /** At the end: the value is the span, unless the last row should have counted. */
  lemma SettledIsSpan(rs: seq<Range>, lo: nat, cap: nat, m: nat)
    requires WellFormed(rs) && lo + cap < WRAP64 && cap > 0 && Settled(rs, |rs|, lo, cap, m)
    ensures Span(rs, lo, cap, m) <==> !OpenTop(rs, lo + 1)
  {
    var i := RowOf(rs, lo);
    if i + 1 == |rs| {
      assert forall k :: 0 <= k < |rs| ==> rs[k].start <= rs[i].start;
    } else {
      assert rs[|rs| - 1].start >= rs[i + 1].start;
      assert rs[i].kind == 1 ==> rs[i].start <= lo < rs[i + 1].start;
    }
  }

  // ---- setmaxmem ----

  function Limit(r: nat): nat {
    if r < 0xFFFF_FFFF then r else 0xFFFF_FFFF
  }

  /** Type of address a once memory from x on is reserved. */
  function Capped(rs: seq<Range>, a: nat, x: nat): nat
    requires |rs| > 0
  {
    if TypeAt(rs, a) == 1 && a >= x then 2 else TypeAt(rs, a)
  }

  /** Start of row e, or the end of the address space. */
  function Bound(rs: seq<Range>, e: nat): nat {
    if e < |rs| then rs[e].start else WRAP64
  }

  /**
   The scan of setmaxmem has reached row e: addresses below are as they should be, addresses above are
   so or still as they were.
   */
  ghost predicate Scan(rs0: seq<Range>, rs: seq<Range>, e: nat, x: nat) {
    && WellFormed(rs0) && Canonical(rs0) && !OpenTop(rs0, x) && WellFormed(rs) && e <= |rs| && OnesApart(rs)
    && (Canonical(rs) || (e > 0 && rs[e - 1].start >= x))
    && (forall a :: 0 <= a < WRAP64 ==> TypeAt(rs, a) == TypeAt(rs0, a) || TypeAt(rs, a) == Capped(rs0, a, x))
    && (forall a :: 0 <= a < Bound(rs, e) ==> TypeAt(rs, a) == Capped(rs0, a, x))
  }

  lemma ScanStart(rs0: seq<Range>, x: nat)
    requires WellFormed(rs0) && Canonical(rs0)
    ensures OnesApart(rs0) && (!OpenTop(rs0, x) ==> Scan(rs0, rs0, 0, x))
  {
  }

  /** Nothing below the last row is changed when the last row starts below the limit. */
  lemma OpenBelow(rs0: seq<Range>, x: nat)
    requires WellFormed(rs0) && OpenTop(rs0, x)
    ensures forall i :: 0 <= i < |rs0| ==> rs0[i].start < x
  {
    assert forall i :: 0 <= i < |rs0| ==> rs0[i].start <= rs0[|rs0| - 1].start;
  }

  /** The top of the address space then stays memory although it lies above the limit. */
  lemma OpenWrong(rs0: seq<Range>, x: nat)
    requires WellFormed(rs0) && OpenTop(rs0, x) && x < WRAP64 && Canonical(rs0)
    ensures TypeAt(rs0, WRAP64 - 1) != Capped(rs0, WRAP64 - 1, x) && OnesApart(rs0)
  {
  }

  /** The last row is never left as memory that starts below the limit. */
  lemma ScanTop(rs0: seq<Range>, rs: seq<Range>, e: nat, x: nat)
    requires Scan(rs0, rs, e, x) && x < WRAP64
    ensures !OpenTop(rs, x)
  {
    if OpenTop(rs, x) {
      var t, t0 := |rs| - 1, |rs0| - 1;
      TypeIs(rs, t, WRAP64 - 1);
      TypeIs(rs0, t0, WRAP64 - 1);
      if rs0[t0].start > 0 {
        assert t0 > 0;
        TypeIs(rs0, t0 - 1, rs0[t0].start - 1);
      }
    }
  }

  lemma ScanRetype(rs0: seq<Range>, rs: seq<Range>, e: nat, x: nat)
    requires Scan(rs0, rs, e, x) && e < |rs| && rs[e].kind == 1 && rs[e].start >= x
    ensures var s := rs[e := Range(rs[e].start, 2)]; WellFormed(s) && Scan(rs0, s, e + 1, x)
  {
    hide TypeAt;
    RowRetyped(rs, e);
    ScanRow(rs0, rs, e, x);
  }

  lemma RowRetyped(rs: seq<Range>, e: nat)
    requires WellFormed(rs) && e < |rs|
    ensures var s := rs[e := Range(rs[e].start, 2)];
            forall a :: 0 <= a < WRAP64 ==> TypeAt(s, a) == if rs[e].start <= a < EndOf(rs, e) then 2 else TypeAt(rs, a)
  {
    hide TypeAt;
    var s := rs[e := Range(rs[e].start, 2)];
    forall a | 0 <= a < WRAP64
      ensures TypeAt(s, a) == if rs[e].start <= a < EndOf(rs, e) then 2 else TypeAt(rs, a)
    {
      var i := RowOf(rs, a);
      TypeIs(s, i, a);
      TypeIs(rs, i, a);
      if e < i { assert rs[e + 1].start <= rs[i].start; }
    }
  }

  /** Row e of type 1 was of type 1 before. */
  lemma ScanRow(rs0: seq<Range>, rs: seq<Range>, e: nat, x: nat)
    requires Scan(rs0, rs, e, x) && e < |rs|
    ensures forall a :: rs[e].start <= a < EndOf(rs, e) ==> TypeAt(rs, a) == rs[e].kind && (rs[e].kind == 1 ==> TypeAt(rs0, a) == 1)
  {
    forall a | rs[e].start <= a < EndOf(rs, e)
      ensures TypeAt(rs, a) == rs[e].kind && (rs[e].kind == 1 ==> TypeAt(rs0, a) == 1)
    {
      TypeIs(rs, e, a);
    }
  }

  lemma ScanPass(rs0: seq<Range>, rs: seq<Range>, e: nat, x: nat)
    requires Scan(rs0, rs, e, x) && e < |rs| && (rs[e].kind == 1 ==> rs[e].start < x && EndOf(rs, e) <= x)
    ensures Scan(rs0, rs, e + 1, x)
  {
    ScanRow(rs0, rs, e, x);
  }

  lemma ScanCut(rs0: seq<Range>, rs: seq<Range>, e: nat, x: nat)
    requires Scan(rs0, rs, e, x) && e + 1 < |rs| && rs[e].kind == 1 && rs[e].start < x < rs[e + 1].start
    ensures var s := Apply(rs, Call(x, rs[e + 1].start - x, 2));
            e < |s| && Scan(rs0, s, e + 1, x) && (e + 1 < |s| ==> s[e + 1].start >= x)
  {
    var c := Call(x, rs[e + 1].start - x, 2);
    var s := Apply(rs, c);
    hide Apply, Insert;
    ApplyAll(rs, c);
    CutPrefix(rs0, rs, e, x);
    assert s[e] == s[..e + 1][e] == rs[..e + 1][e];
    ScanRow(rs0, rs, e, x);
    CutNext(rs, s, e, x);
    forall a | rs[e].start <= a < Bound(s, e + 1)
      ensures TypeAt(s, a) == 1
    {
      TypeIs(s, e, a);
    }
    CutScan(rs0, rs, s, e, x);
  }

  lemma CutPrefix(rs0: seq<Range>, rs: seq<Range>, e: nat, x: nat)
    requires Scan(rs0, rs, e, x) && e + 1 < |rs| && rs[e].kind == 1 && rs[e].start < x < rs[e + 1].start
    ensures Canonical(rs)
    ensures var s := Apply(rs, Call(x, rs[e + 1].start - x, 2)); e < |s| && s[..e + 1] == rs[..e + 1]
  {
    hide Insert, TypeAt;
    InsertPrefix(rs, e, x, rs[e + 1].start, 2);
  }

  /** The row after the cut starts no lower than the limit. */
  lemma CutNext(rs: seq<Range>, s: seq<Range>, e: nat, x: nat)
    requires WellFormed(s) && Canonical(s) && WellFormed(rs) && e < |s| && e + 1 < |rs| && s[e] == rs[e] && rs[e].kind == 1
    requires rs[e].start < x < rs[e + 1].start
    requires forall a :: rs[e].start <= a < x ==> TypeAt(s, a) == 1
    ensures e + 1 < |s| ==> s[e + 1].start >= x
  {
    if e + 1 < |s| && s[e + 1].start < x {
      TypeIs(s, e + 1, s[e + 1].start);
    }
  }

  lemma CutScan(rs0: seq<Range>, rs: seq<Range>, s: seq<Range>, e: nat, x: nat)
    requires Scan(rs0, rs, e, x) && e + 1 < |rs| && rs[e].kind == 1 && rs[e].start < x < rs[e + 1].start
    requires WellFormed(s) && Canonical(s) && e < |s|
    requires forall a :: 0 <= a < WRAP64 ==> TypeAt(s, a) == if x <= a < rs[e + 1].start then 2 else TypeAt(rs, a)
    requires forall a :: rs[e].start <= a < Bound(s, e + 1) ==> TypeAt(s, a) == 1
    ensures Scan(rs0, s, e + 1, x)
  {
    hide TypeAt;
    ScanRow(rs0, rs, e, x);
    assert TypeAt(s, x) == 2;
    assert Bound(s, e + 1) <= x;
    forall a | 0 <= a < WRAP64
      ensures TypeAt(s, a) == TypeAt(rs0, a) || TypeAt(s, a) == Capped(rs0, a, x)
      ensures a < Bound(s, e + 1) ==> TypeAt(s, a) == Capped(rs0, a, x)
    {
    }
  }

  /** Rows below the inserted range stay where they are. */
  lemma InsertPrefix(rs: seq<Range>, e: nat, lo: nat, hi: nat, t: nat)
    requires WellFormed(rs) && Canonical(rs) && e + 1 < |rs| && rs[e].start < lo < rs[e + 1].start && lo < hi <= WRAP64 && t < NONE
    ensures var s := Insert(rs, lo, hi, t); e < |s| && s[..e + 1] == rs[..e + 1]
  {
    hide Split, Compact, WellFormed, Canonical;
    var sp := Split(rs, lo);
    SplitShape(rs, lo);
    SplitPrefix(rs, lo, e + 1);
    assert sp[e] == sp[..e + 1][e];
    SplitShape(sp, hi);
    SplitPrefix(sp, hi, e + 1);
    assert Split(sp, hi)[e] == Split(sp, hi)[..e + 1][e];
    var m := Overlay(rs, lo, hi, t);
    RetypePrefix(Split(sp, hi), lo, hi, t, e + 1);
    CompactPrefix(m, e + 1);
    CanonicalPrefix(rs, e + 1);
    CompactCanonical(rs[..e + 1]);
  }

  lemma SplitPrefix(rs: seq<Range>, x: nat, k: nat)
    requires WellFormed(rs) && 0 < k <= |rs| && rs[k - 1].start < x
    ensures k <= |Split(rs, x)| && Split(rs, x)[..k] == rs[..k]
  {
    assert forall i :: 0 <= i < k ==> rs[i].start <= rs[k - 1].start;
  }

  lemma RetypePrefix(rs: seq<Range>, lo: nat, hi: nat, t: nat, k: nat)
    requires WellFormed(rs) && 0 < k <= |rs| && rs[k - 1].start < lo
    ensures Retype(rs, lo, hi, t)[..k] == rs[..k]
  {
    forall i | 0 <= i < k
      ensures rs[i].start < lo
    {
      assert i < k - 1 ==> rs[i].start < rs[k - 1].start;
    }
  }

  lemma CanonicalPrefix(rs: seq<Range>, k: nat)
    requires Canonical(rs) && k <= |rs|
    ensures Canonical(rs[..k])
  {
  }

  lemma ScanDone(rs0: seq<Range>, rs: seq<Range>, x: nat)
    requires Scan(rs0, rs, |rs|, x) && x < WRAP64
    ensures forall a :: 0 <= a < WRAP64 ==> TypeAt(rs, a) == Capped(rs0, a, x)
    ensures OnesApart(rs) && rs[|rs| - 1].kind != 1
  {
    TypeIs(rs, |rs| - 1, WRAP64 - 1);
  }

  /** What the row found by the first loop says about splitting at its address. */
  lemma SplitAt(rs: seq<Range>, x: nat, p: nat)
    requires WellFormed(rs) && x < WRAP64 && p == Below(rs, x)
    ensures var s := Split(rs, x);
            && WellFormed(s) && p < |s| && s[p].start == x && (p == |rs| || rs[p].start >= x)
            && s == (if p < |rs| && rs[p].start == x then rs else rs[..p] + [Range(x, rs[p - 1].kind)] + rs[p..])
    ensures p < |rs| ==> rs[p].kind != NONE
    ensures |rs| > 0 && (p == 0 ==> rs[0].start == x)
  {
    SplitShape(rs, x);
  }

  lemma ApplyIs(rs: seq<Range>, c: Call)
    ensures Apply(rs, c) == if c.len == 0 then rs else Compact(Overlay(rs, c.start, c.start + c.len, c.kind))
  {
    hide Compact, Overlay;
  }

  /** Rows now, with the end of the range made a row start at place i where it is none. */
  ghost function Ended(now: seq<Range>, i: nat, last: nat, oldtype: nat): seq<Range>
    requires i <= |now|
  {
    if last < Dec(if i < |now| then now[i].start else 0) then now[..i] + [Range(last + 1, oldtype)] + now[i..] else now
  }

  /** Only the row at the start of the range has been added to rs, or none, and i is the next row. */
  ghost predicate Skipped(rs: seq<Range>, start: nat, kind: nat, now: seq<Range>, i: nat, oldtype: nat) {
    var p, sp := Below(rs, start), Split(rs, start);
    && p < |sp| && (p > 0 ==> oldtype == rs[p - 1].kind)
    && (if p < |rs| && rs[p].start == start then i == p && now == sp else i == p + 1 && now == sp[p := Range(start, kind)])
  }

  lemma EndedOverlay(rs: seq<Range>, start: nat, last: nat, kind: nat, i: nat, oldtype: nat)
    requires WellFormed(rs) && start <= last < WRAP64
    requires var sp := Split(rs, start); 0 < i == Below(sp, last + 1) <= |sp| && oldtype == sp[i - 1].kind
    ensures Ended(Retype(Split(rs, start), start, last + 1, kind), i, last, oldtype) == Overlay(rs, start, last + 1, kind)
  {
    hide Below, Split, WellFormed;
    SplitShape(rs, start);
    RetypeSplit(Split(rs, start), start, last + 1, kind, i);
  }

  lemma EndedRolled(rs: seq<Range>, start: nat, last: nat, kind: nat, now: seq<Range>, i: nat, oldtype: nat)
    requires WellFormed(rs) && last + 1 < start < WRAP64 && i <= |now| && Skipped(rs, start, kind, now, i, oldtype)
    ensures 0 < Below(rs, start) && Ended(now, i, last, oldtype) == RolledRows(rs, start, last, kind)
  {
    hide Below, Split, WellFormed;
    RowsTyped(rs);
    SplitAt(rs, start, Below(rs, start));
  }

  lemma RolledResult(rs: seq<Range>, start: nat, last: nat, kind: nat)
    requires WellFormed(rs) && last + 1 < start < WRAP64
    ensures 0 < Below(rs, start)
    ensures var s := Compact(RolledRows(rs, start, last, kind));
            && (WellFormed(s) <==> Boundary(rs, start) || TypeAt(rs, start) == kind)
            && (Boundary(rs, start) || TypeAt(rs, start) == kind ==> s == Compact(rs))
  {
    hide Compact, RolledRows, Boundary, TypeAt;
    RolledOver(rs, start, last, kind);
    CompactShape(rs);
  }

  lemma ApplyAll(rs: seq<Range>, c: Call)
    requires WellFormed(rs) && Legal(c)
    ensures var s := Apply(rs, c); WellFormed(s) && |s| <= |rs| + 2 && (c.len > 0 ==> Canonical(s))
    ensures |Apply(rs, c)| > 0
    ensures forall a :: 0 <= a < WRAP64 ==>
              TypeAt(Apply(rs, c), a) == if c.start <= a < c.start + c.len then c.kind else TypeAt(rs, a)
  {
    hide Insert, TypeAt, Canonical;
    if c.len > 0 { InsertShape(rs, c.start, c.start + c.len, c.kind); }
    forall a | 0 <= a < WRAP64
      ensures TypeAt(Apply(rs, c), a) == if c.start <= a < c.start + c.len then c.kind else TypeAt(rs, a)
    {
      ApplyMeaning(rs, c, a);
    }
  }

  lemma CompactOne(rs: seq<Range>)
    requires |rs| > 0
    ensures Compact(rs[..1]) == [rs[0]]
  {
  }

  lemma CompactSnoc(rs: seq<Range>, i: nat)
    requires 1 <= i < |rs|
    ensures Compact(rs[..i + 1]) == if rs[i].kind == rs[i - 1].kind then Compact(rs[..i]) else Compact(rs[..i]) + [rs[i]]
  {
    assert rs[..i + 1][..i] == rs[..i];
  }

  /** Retyping and then splitting at the end gives what splitting first would. */
  lemma RetypeSplit(rs: seq<Range>, lo: nat, hi: nat, t: nat, p: nat)
    requires WellFormed(rs) && p == Below(rs, hi) && 0 < p && lo < hi
    ensures p < |rs| ==> 0 < Retype(rs, lo, hi, t)[p].start == rs[p].start && hi <= rs[p].start < WRAP64
    ensures Retype(Split(rs, hi), lo, hi, t) ==
            if hi >= WRAP64 || (p < |rs| && rs[p].start == hi) then Retype(rs, lo, hi, t)
            else Retype(rs, lo, hi, t)[..p] + [Range(hi, rs[p - 1].kind)] + Retype(rs, lo, hi, t)[p..]
  {
    if Split(rs, hi) != rs {
      RetypeInserted(rs, lo, hi, t, p, Range(hi, rs[p - 1].kind));
    }
  }

  lemma RetypeInserted(rs: seq<Range>, lo: nat, hi: nat, t: nat, p: nat, r: Range)
    requires p <= |rs| && r.start >= hi
    ensures Retype(rs[..p] + [r] + rs[p..], lo, hi, t) == Retype(rs, lo, hi, t)[..p] + [r] + Retype(rs, lo, hi, t)[p..]
  {
  }
}
