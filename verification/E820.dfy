/**
 The E820 memory map as a value (memdisk/e820func.c): rows with increasing starting addresses, each
 reaching up to the next one and the last to the end of the 64-bit space, denote a total function
 from addresses to types.
 */
module E820 {
  import opened Widths

  /** Type -1U marks the row after the last. */
  const NONE: nat := 0xFFFF_FFFF

  datatype Range = Range(start: nat, kind: nat)

  ghost predicate Sorted(rs: seq<Range>) {
    forall i, j :: 0 <= i < j < |rs| ==> rs[i].start < rs[j].start
  }

  ghost predicate Typed(rs: seq<Range>) {
    forall i :: 0 <= i < |rs| ==> rs[i].kind < NONE && rs[i].start < WRAP64
  }

  ghost predicate WellFormed(rs: seq<Range>) {
    |rs| > 0 && rs[0].start == 0 && Sorted(rs) && Typed(rs)
  }

  /** Neighbours have different types. */
  ghost predicate Canonical(rs: seq<Range>) {
    forall i :: 0 <= i < |rs| - 1 ==> rs[i].kind != rs[i + 1].kind
  }

  /** What the map says about address a: the last row that starts at or below it. */
  function TypeAt(rs: seq<Range>, a: nat): nat
    requires |rs| > 0
  {
    var r := rs[|rs| - 1];
    if |rs| == 1 || r.start <= a then r.kind else TypeAt(rs[..|rs| - 1], a)
  }

  /** End of row i. */
  function EndOf(rs: seq<Range>, i: nat): nat {
    if i + 1 < |rs| then rs[i + 1].start else WRAP64
  }

  lemma {:induction false} TypeIs(rs: seq<Range>, i: nat, a: nat)
    requires Sorted(rs) && Typed(rs) && i < |rs| && rs[i].start <= a < EndOf(rs, i)
    ensures TypeAt(rs, a) == rs[i].kind
    decreases |rs|
  {
    if i + 1 < |rs| {
      var f := rs[..|rs| - 1];
      assert rs[|rs| - 1].start >= rs[i + 1].start;
      assert f[i] == rs[i] && (i + 1 < |f| ==> f[i + 1] == rs[i + 1]);
      TypeIs(f, i, a);
    }
  }

  lemma {:induction false} RowOf(rs: seq<Range>, a: nat) returns (i: nat)
    requires |rs| > 0 && Sorted(rs) && Typed(rs) && rs[0].start <= a < WRAP64
    ensures i < |rs| && rs[i].start <= a < EndOf(rs, i) && TypeAt(rs, a) == rs[i].kind
    decreases |rs|
  {
    if |rs| == 1 || rs[|rs| - 1].start <= a {
      i := |rs| - 1;
    } else {
      i := RowOf(rs[..|rs| - 1], a);
    }
  }

  // ---- One canonical map for each denotation ----

  ghost predicate SameMap(x: seq<Range>, y: seq<Range>)
    requires |x| > 0 && |y| > 0
  {
    forall a :: 0 <= a < WRAP64 ==> TypeAt(x, a) == TypeAt(y, a)
  }

  /** A canonical row boundary is a change of type, so every map with the same meaning has it too. */
  lemma BoundaryShared(x: seq<Range>, y: seq<Range>, i: nat) returns (j: nat)
    requires WellFormed(x) && WellFormed(y) && Canonical(x) && SameMap(x, y) && i < |x|
    ensures j < |y| && y[j] == x[i]
  {
    if i == 0 {
      j := 0;
      TypeIs(x, 0, 0);
      TypeIs(y, 0, 0);
    } else {
      var a := x[i].start;
      TypeIs(x, i, a);
      TypeIs(x, i - 1, a - 1);
      j := RowOf(y, a);
      if y[j].start < a { TypeIs(y, j, a - 1); }
    }
  }

  /** Two canonical maps that denote the same function are the same rows. */
  lemma {:induction false} CanonicalUnique(x: seq<Range>, y: seq<Range>)
    requires WellFormed(x) && WellFormed(y) && Canonical(x) && Canonical(y) && SameMap(x, y)
    ensures x == y
  {
    var n := if |x| < |y| then |x| else |y|;
    forall i | 0 <= i < n
      ensures x[i] == y[i]
    {
      UniqueUpTo(x, y, i);
    }
    if |y| > |x| {
      var _ := BoundaryShared(y, x, |x|);
    } else if |x| > |y| {
      var _ := BoundaryShared(x, y, |y|);
    }
  }

  lemma {:induction false} UniqueUpTo(x: seq<Range>, y: seq<Range>, i: nat)
    requires WellFormed(x) && WellFormed(y) && Canonical(x) && Canonical(y) && SameMap(x, y)
    requires i < |x| && i < |y|
    ensures forall k :: 0 <= k <= i ==> x[k] == y[k]
    decreases i
  {
    if i > 0 { UniqueUpTo(x, y, i - 1); }
    var _ := BoundaryShared(x, y, i);
    var _ := BoundaryShared(y, x, i);
  }

  /** A canonical map has the fewest rows of all that denote its function. */
  lemma CanonicalFewest(x: seq<Range>, y: seq<Range>)
    requires WellFormed(x) && WellFormed(y) && Canonical(x) && SameMap(x, y)
    ensures |x| <= |y|
  {
    LaterRow(x, y, |x| - 1);
  }

  lemma {:induction false} LaterRow(x: seq<Range>, y: seq<Range>, i: nat)
    requires WellFormed(x) && WellFormed(y) && Canonical(x) && SameMap(x, y) && i < |x|
    ensures i < |y| && y[i].start <= x[i].start
    decreases i
  {
    var j := BoundaryShared(x, y, i);
    if i > 0 {
      LaterRow(x, y, i - 1);
      assert j >= i;
      if i < j { assert y[i].start < y[j].start; }
    }
  }

  // ---- The steps of insertrange ----

  /** Number of rows that start below x. */
  function Below(rs: seq<Range>, x: nat): (p: nat)
    ensures p <= |rs| && (p < |rs| ==> rs[p].start >= x)
    ensures forall i :: 0 <= i < p ==> rs[i].start < x
  {
    if |rs| == 0 || rs[0].start >= x then 0 else 1 + Below(rs[1..], x)
  }

  lemma BelowIs(rs: seq<Range>, x: nat, p: nat)
    requires Sorted(rs) && p <= |rs| && (p < |rs| ==> rs[p].start >= x)
    requires forall i :: 0 <= i < p ==> rs[i].start < x
    ensures Below(rs, x) == p
  {
    var q := Below(rs, x);
    assert q < |rs| ==> !(rs[q].start < x);
    assert p < |rs| ==> !(rs[p].start < x);
  }

  /** Make x a row boundary without changing the meaning. */
  function Split(rs: seq<Range>, x: nat): seq<Range> {
    var p := Below(rs, x);
    if x >= WRAP64 || p == 0 || (p < |rs| && rs[p].start == x) then rs
    else rs[..p] + [Range(x, rs[p - 1].kind)] + rs[p..]
  }

  /** Give type t to every row that starts in lo..hi. */
  function Retype(rs: seq<Range>, lo: nat, hi: nat, t: nat): (s: seq<Range>)
    ensures |s| == |rs|
    ensures forall i :: 0 <= i < |rs| ==> s[i] == if lo <= rs[i].start < hi then Range(rs[i].start, t) else rs[i]
  {
    seq(|rs|, i requires 0 <= i < |rs| => if lo <= rs[i].start < hi then Range(rs[i].start, t) else rs[i])
  }

  /** Drop every row of the same type as the row before it. */
  function Compact(rs: seq<Range>): seq<Range> {
    if |rs| <= 1 then rs
    else
      var n := |rs| - 1;
      if rs[n].kind == rs[n - 1].kind then Compact(rs[..n]) else Compact(rs[..n]) + [rs[n]]
  }

  function Overlay(rs: seq<Range>, lo: nat, hi: nat, t: nat): seq<Range> {
    Retype(Split(Split(rs, lo), hi), lo, hi, t)
  }

  /** The rows insertrange leaves for the non-empty range lo..hi. */
  function Insert(rs: seq<Range>, lo: nat, hi: nat, t: nat): seq<Range> {
    Compact(Overlay(rs, lo, hi, t))
  }

  ghost predicate Boundary(rs: seq<Range>, x: nat) {
    x == WRAP64 || exists i :: 0 <= i < |rs| && rs[i].start == x
  }

  lemma SplitShape(rs: seq<Range>, x: nat)
    requires WellFormed(rs) && x <= WRAP64
    ensures WellFormed(Split(rs, x)) && Boundary(Split(rs, x), x) && |Split(rs, x)| <= |rs| + 1
    ensures forall y :: Boundary(rs, y) ==> Boundary(Split(rs, x), y)
  {
    hide Below;
    var p, s := Below(rs, x), Split(rs, x);
    if s != rs {
      SplitFormed(rs, x);
      assert s[p].start == x;
      hide WellFormed;
      forall y | Boundary(rs, y) && y != WRAP64
        ensures Boundary(s, y)
      {
        var i :| 0 <= i < |rs| && rs[i].start == y;
        assert s[if i < p then i else i + 1].start == y;
      }
    } else if x < WRAP64 && p == 0 {
      assert rs[0].start == x;
    }
  }

  lemma SplitFormed(rs: seq<Range>, x: nat)
    requires WellFormed(rs) && x < WRAP64 && 0 < Below(rs, x) && (Below(rs, x) < |rs| ==> rs[Below(rs, x)].start != x)
    ensures WellFormed(Split(rs, x))
  {
    hide Below;
    var p, s := Below(rs, x), Split(rs, x);
    forall i, j | 0 <= i < j < |s|
      ensures s[i].start < s[j].start
    {
      if p < i {
        assert rs[i - 1].start < rs[j - 1].start;
      } else if p < j {
        assert p < j - 1 ==> rs[p].start < rs[j - 1].start;
      }
    }
  }

  lemma SplitMeaning(rs: seq<Range>, x: nat, a: nat)
    requires WellFormed(rs) && x <= WRAP64 && a < WRAP64
    ensures |Split(rs, x)| > 0 && TypeAt(Split(rs, x), a) == TypeAt(rs, a)
  {
    var p, s := Below(rs, x), Split(rs, x);
    if s != rs {
      SplitShape(rs, x);
      var i := RowOf(rs, a);
      var k := if i < p - 1 || (i == p - 1 && a < x) then i else i + 1;
      TypeIs(s, k, a);
    }
  }

  /** A boundary never falls between an address and the start of its row. */
  lemma SameSide(rs: seq<Range>, i: nat, a: nat, x: nat)
    requires Sorted(rs) && Typed(rs) && i < |rs| && rs[i].start <= a < EndOf(rs, i) && Boundary(rs, x)
    ensures rs[i].start < x <==> a < x
  {
    if x < WRAP64 {
      var j :| 0 <= j < |rs| && rs[j].start == x;
      assert i < j ==> rs[i + 1].start <= rs[j].start;
    }
  }

  lemma RetypeFormed(rs: seq<Range>, lo: nat, hi: nat, t: nat)
    requires WellFormed(rs) && t < NONE
    ensures WellFormed(Retype(rs, lo, hi, t))
  {
    hide Retype;
  }

  lemma RetypeMeaning(rs: seq<Range>, lo: nat, hi: nat, t: nat, a: nat)
    requires WellFormed(rs) && t < NONE && lo < hi <= WRAP64 && Boundary(rs, lo) && Boundary(rs, hi) && a < WRAP64
    ensures var s := Retype(rs, lo, hi, t); WellFormed(s) && TypeAt(s, a) == if lo <= a < hi then t else TypeAt(rs, a)
  {
    hide Retype, TypeAt, Boundary;
    RetypeFormed(rs, lo, hi, t);
    var s := Retype(rs, lo, hi, t);
    var i := RowOf(rs, a);
    assert s[i].start == rs[i].start && (i + 1 < |s| ==> s[i + 1].start == rs[i + 1].start);
    TypeIs(s, i, a);
    SameSide(rs, i, a, lo);
    SameSide(rs, i, a, hi);
  }

  lemma {:induction false} CompactShape(rs: seq<Range>)
    requires WellFormed(rs)
    ensures var s := Compact(rs); WellFormed(s) && Canonical(s) && |s| <= |rs|
    ensures var s := Compact(rs); |s| > 0 && s[|s| - 1].kind == rs[|rs| - 1].kind && s[|s| - 1].start <= rs[|rs| - 1].start
    decreases |rs|
  {
    if |rs| > 1 {
      var f := rs[..|rs| - 1];
      assert f[|f| - 1] == rs[|rs| - 2] && f[0] == rs[0];
      PrefixWellFormed(rs, |rs| - 1);
      hide WellFormed, Canonical;
      CompactShape(f);
      NextRow(rs);
      if rs[|rs| - 1].kind != rs[|rs| - 2].kind { SnocShape(Compact(f), rs[|rs| - 1]); }
    }
  }

  lemma PrefixWellFormed(rs: seq<Range>, k: nat)
    requires WellFormed(rs) && 0 < k <= |rs|
    ensures WellFormed(rs[..k])
  {
  }

  lemma NextRow(rs: seq<Range>)
    requires WellFormed(rs) && |rs| > 1
    ensures rs[|rs| - 2].start < rs[|rs| - 1].start < WRAP64 && rs[|rs| - 1].kind < NONE
  {
  }

  lemma SnocShape(s: seq<Range>, r: Range)
    requires WellFormed(s) && Canonical(s) && r.start < WRAP64 && r.kind < NONE
    requires s[|s| - 1].start < r.start && s[|s| - 1].kind != r.kind
    ensures WellFormed(s + [r]) && Canonical(s + [r])
  {
    forall i | 0 <= i < |s|
      ensures s[i].start < r.start
    {
      assert i < |s| - 1 ==> s[i].start < s[|s| - 1].start;
    }
  }

  lemma {:induction false} CompactMeaning(rs: seq<Range>, a: nat)
    requires WellFormed(rs) && a < WRAP64
    ensures |Compact(rs)| > 0 && TypeAt(Compact(rs), a) == TypeAt(rs, a)
    decreases |rs|
  {
    CompactShape(rs);
    if |rs| > 1 {
      var n := |rs| - 1;
      var f := rs[..n];
      CompactMeaning(f, a);
      CompactShape(f);
      if rs[n].kind == rs[n - 1].kind {
        if rs[n].start <= a { TypeIs(f, n - 1, a); }
      } else {
        assert (Compact(f) + [rs[n]])[..|Compact(f)|] == Compact(f);
      }
    }
  }

  lemma {:induction false} CompactPrefix(rs: seq<Range>, k: nat)
    requires 1 <= k <= |rs|
    ensures Compact(rs[..k]) <= Compact(rs)
    decreases |rs|
  {
    if k < |rs| {
      CompactPrefix(rs[..|rs| - 1], k);
      assert rs[..|rs| - 1][..k] == rs[..k];
    } else {
      assert rs[..k] == rs;
    }
  }

  lemma {:induction false} CompactCanonical(rs: seq<Range>)
    requires Canonical(rs)
    ensures Compact(rs) == rs
    decreases |rs|
  {
    if |rs| > 1 {
      var f := rs[..|rs| - 1];
      assert forall i :: 0 <= i < |f| ==> f[i] == rs[i];
      CompactCanonical(f);
    }
  }

  // ---- insertrange is pointwise override ----

  lemma InsertShape(rs: seq<Range>, lo: nat, hi: nat, t: nat)
    requires WellFormed(rs) && t < NONE && lo < hi <= WRAP64
    ensures var s := Insert(rs, lo, hi, t); WellFormed(s) && Canonical(s) && |s| <= |rs| + 2
  {
    hide WellFormed, Split, Compact, Boundary, Canonical;
    SplitShape(rs, lo);
    SplitShape(Split(rs, lo), hi);
    RetypeMeaning(Split(Split(rs, lo), hi), lo, hi, t, 0);
    CompactShape(Overlay(rs, lo, hi, t));
  }

  lemma InsertMeaning(rs: seq<Range>, lo: nat, hi: nat, t: nat, a: nat)
    requires WellFormed(rs) && t < NONE && lo < hi <= WRAP64 && a < WRAP64
    ensures |Insert(rs, lo, hi, t)| > 0 && TypeAt(Insert(rs, lo, hi, t), a) == if lo <= a < hi then t else TypeAt(rs, a)
  {
    hide WellFormed, Split, Compact, Boundary, TypeAt, Retype;
    SplitShape(rs, lo);
    SplitMeaning(rs, lo, a);
    SplitShape(Split(rs, lo), hi);
    SplitMeaning(Split(rs, lo), hi, a);
    RetypeMeaning(Split(Split(rs, lo), hi), lo, hi, t, a);
    CompactMeaning(Overlay(rs, lo, hi, t), a);
  }

  // ---- Whole histories ----

  datatype Call = Call(start: nat, len: nat, kind: nat)

  /** What a caller of insertrange must respect. */
  predicate Legal(c: Call) {
    c.start + c.len <= WRAP64 && c.kind < NONE
  }

  function Apply(rs: seq<Range>, c: Call): seq<Range> {
    if c.len == 0 then rs else Insert(rs, c.start, c.start + c.len, c.kind)
  }

  /** The rows after the given calls, from the single row e820map_init makes. */
  function Rows(calls: seq<Call>): seq<Range> {
    if |calls| == 0 then [Range(0, 0)] else Apply(Rows(calls[..|calls| - 1]), calls[|calls| - 1])
  }

  /** What the calls mean: the last one that covers an address decides its type. */
  function Meaning(calls: seq<Call>, a: nat): nat {
    if |calls| == 0 then 0
    else
      var c := calls[|calls| - 1];
      if c.start <= a < c.start + c.len then c.kind else Meaning(calls[..|calls| - 1], a)
  }

  lemma InitShape()
    ensures WellFormed(Rows([])) && Canonical(Rows([])) && |Rows([])| == 1
  {
  }

  lemma ApplyShape(rs: seq<Range>, c: Call)
    requires WellFormed(rs) && Canonical(rs) && Legal(c)
    ensures WellFormed(Apply(rs, c)) && Canonical(Apply(rs, c)) && |Apply(rs, c)| <= |rs| + 2
  {
    hide WellFormed, Canonical, Insert;
    if c.len > 0 { InsertShape(rs, c.start, c.start + c.len, c.kind); }
  }

  lemma ApplyMeaning(rs: seq<Range>, c: Call, a: nat)
    requires WellFormed(rs) && Legal(c) && a < WRAP64
    ensures |Apply(rs, c)| > 0 && TypeAt(Apply(rs, c), a) == if c.start <= a < c.start + c.len then c.kind else TypeAt(rs, a)
  {
    hide TypeAt, Insert;
    if c.len > 0 { InsertMeaning(rs, c.start, c.start + c.len, c.kind, a); }
  }

  /** After any calls the rows are canonical, and k calls leave at most 2k + 1 of them. */
  lemma {:induction false} HistoryShape(calls: seq<Call>)
    requires forall c :: c in calls ==> Legal(c)
    ensures WellFormed(Rows(calls)) && Canonical(Rows(calls)) && |Rows(calls)| <= 2 * |calls| + 1
    decreases |calls|
  {
    hide WellFormed, Canonical, Apply, Legal;
    if |calls| == 0 {
      InitShape();
    } else {
      var c, f := calls[|calls| - 1], calls[..|calls| - 1];
      assert c in calls && forall d :: d in f ==> d in calls;
      HistoryShape(f);
      ApplyShape(Rows(f), c);
    }
  }

  /** The rows denote what the calls mean. */
  lemma {:induction false} HistoryMeaning(calls: seq<Call>, a: nat)
    requires (forall c :: c in calls ==> Legal(c)) && a < WRAP64
    ensures |Rows(calls)| > 0 && TypeAt(Rows(calls), a) == Meaning(calls, a)
    decreases |calls|
  {
    hide Canonical, Apply, Legal;
    if |calls| > 0 {
      var c, f := calls[|calls| - 1], calls[..|calls| - 1];
      assert c in calls && forall d :: d in f ==> d in calls;
      HistoryShape(f);
      HistoryMeaning(f, a);
      hide WellFormed, TypeAt;
      ApplyMeaning(Rows(f), c, a);
    }
  }

  /** Histories with the same meaning leave the same rows. */
  lemma SameHistorySameRows(x: seq<Call>, y: seq<Call>)
    requires (forall c :: c in x ==> Legal(c)) && (forall c :: c in y ==> Legal(c))
    requires forall a :: 0 <= a < WRAP64 ==> Meaning(x, a) == Meaning(y, a)
    ensures Rows(x) == Rows(y)
  {
    HistoryShape(x);
    HistoryShape(y);
    forall a | 0 <= a < WRAP64
      ensures TypeAt(Rows(x), a) == TypeAt(Rows(y), a)
    {
      HistoryMeaning(x, a);
      HistoryMeaning(y, a);
    }
    CanonicalUnique(Rows(x), Rows(y));
  }

  // ---- Ranges that roll over the end of the address space ----

  /** The rows that insertrange has before its final scan when last, the end of the range, has rolled over. */
  function RolledRows(rs: seq<Range>, start: nat, last: nat, t: nat): (s: seq<Range>)
    requires 0 < Below(rs, start)
    ensures 0 < |s| <= |rs| + 2
  {
    var p := Below(rs, start);
    var rest := Range(last + 1, rs[p - 1].kind);
    if p < |rs| && rs[p].start == start then rs[..p] + [rest] + rs[p..]
    else rs[..p] + [Range(start, t), rest] + rs[p..]
  }

  /** Such a range is not recorded where it starts with a row or is of the type that is there; elsewhere the rows get out of order. */
  lemma RolledOver(rs: seq<Range>, start: nat, last: nat, t: nat)
    requires WellFormed(rs) && last + 1 < start < WRAP64
    ensures 0 < Below(rs, start)
    ensures var s := Compact(RolledRows(rs, start, last, t));
            if Boundary(rs, start) || TypeAt(rs, start) == t then s == Compact(rs) else !Sorted(s)
  {
    hide TypeAt, Compact, RolledRows, Boundary, WellFormed, Below, Sorted;
    var p := Below(rs, start);
    RolledParts(rs, start, last, t);
    var a, b, x, rest := rs[..p], rs[p..], Range(start, t), Range(last + 1, rs[p - 1].kind);
    if Boundary(rs, start) {
      CompactSkips(a, rest, b);
    } else if t == rest.kind {
      CompactSkipsBoth(a, x, rest, b);
    } else {
      OutOfOrder(a, x, rest, b);
    }
  }

  lemma RolledParts(rs: seq<Range>, start: nat, last: nat, t: nat)
    requires WellFormed(rs) && last + 1 < start < WRAP64
    ensures var p := Below(rs, start);
            && 0 < p <= |rs| && rs[..p] + rs[p..] == rs && rs[..p][p - 1] == rs[p - 1]
            && var rest := Range(last + 1, rs[p - 1].kind);
               if Boundary(rs, start) then RolledRows(rs, start, last, t) == rs[..p] + [rest] + rs[p..]
               else TypeAt(rs, start) == rest.kind && RolledRows(rs, start, last, t) == rs[..p] + [Range(start, t), rest] + rs[p..]
  {
    hide TypeAt;
    var p := Below(rs, start);
    BoundaryBelow(rs, start);
    if !Boundary(rs, start) { TypeIs(rs, p - 1, start); }
  }

  lemma BoundaryBelow(rs: seq<Range>, x: nat)
    requires Sorted(rs) && x < WRAP64
    ensures var p := Below(rs, x); Boundary(rs, x) <==> p < |rs| && rs[p].start == x
  {
    if Boundary(rs, x) {
      var i :| 0 <= i < |rs| && rs[i].start == x;
      BelowIs(rs, x, i);
    }
  }

  lemma CompactSkipsBoth(a: seq<Range>, x: Range, y: Range, b: seq<Range>)
    requires |a| > 0 && x.kind == y.kind == a[|a| - 1].kind
    ensures Compact(a + [x, y] + b) == Compact(a + b)
  {
    hide Compact;
    assert a + [x, y] + b == a + [x] + ([y] + b);
    CompactSkips(a, x, [y] + b);
    assert a + ([y] + b) == a + [y] + b;
    CompactSkips(a, y, b);
  }

  /** A row of the type of the row before it makes no difference. */
  lemma {:induction false} CompactSkips(a: seq<Range>, x: Range, b: seq<Range>)
    requires |a| > 0 && x.kind == a[|a| - 1].kind
    ensures Compact(a + [x] + b) == Compact(a + b)
    decreases |b|
  {
    if |b| == 0 {
      assert (a + [x] + b)[..|a|] == a && a + b == a;
    } else {
      var b' := b[..|b| - 1];
      CompactSkips(a, x, b');
      assert (a + [x] + b)[..|a| + |b|] == a + [x] + b' && (a + b)[..|a| + |b| - 1] == a + b';
    }
  }

  lemma OutOfOrder(a: seq<Range>, x: Range, y: Range, b: seq<Range>)
    requires |a| > 0 && y.kind == a[|a| - 1].kind != x.kind && y.start < x.start
    ensures !Sorted(Compact(a + [x, y] + b))
  {
    hide Compact;
    CompactTwo(a, x, y);
    CompactPrefix(a + [x, y] + b, |a| + 2);
    assert (a + [x, y] + b)[..|a| + 2] == a + [x, y];
    var c := Compact(a);
    assert (c + [x, y])[|c|] == x && (c + [x, y])[|c| + 1] == y;
  }

  lemma CompactSnocs(a: seq<Range>, x: Range)
    requires |a| > 0 && x.kind != a[|a| - 1].kind
    ensures Compact(a + [x]) == Compact(a) + [x]
  {
    assert (a + [x])[..|a|] == a;
  }

  lemma CompactTwo(a: seq<Range>, x: Range, y: Range)
    requires |a| > 0 && y.kind == a[|a| - 1].kind != x.kind
    ensures Compact(a + [x, y]) == Compact(a) + [x, y]
  {
    hide Compact;
    CompactSnocs(a, x);
    CompactSnocs(a + [x], y);
    assert a + [x] + [y] == a + [x, y];
    assert Compact(a) + [x] + [y] == Compact(a) + [x, y];
  }

  /** One row of no type, and a range of two bytes from the last address on. */
  lemma RollExample()
    ensures Compact(RolledRows([Range(0, 0)], 0xFFFF_FFFF_FFFF_FFFF, 0, 1)) == [Range(0, 0), Range(0xFFFF_FFFF_FFFF_FFFF, 1), Range(1, 0)]
  {
    var a, x, y := [Range(0, 0)], Range(0xFFFF_FFFF_FFFF_FFFF, 1), Range(1, 0);
    assert Below(a[1..], x.start) == 0;
    assert RolledRows(a, x.start, 0, 1) == a + [x, y];
    CompactTwo(a, x, y);
  }
}
