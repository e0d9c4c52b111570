/**
 Extents and 64 KiB pages (libinstaller/syslxmod.c:54-56): the test that should keep an extent within one
 page never fails, so extents cross pages; here is exactly when.
 */
module ExtentPages {
  import opened Widths
  import opened Extents

  const LOAD: nat := 0x8000
  const PAGE: nat := 0x1_0000

  // ---- Where extents start ----

  /** Number of sectors before extent i. */
  function Before(xs: seq<Extent>, i: nat): nat
    requires i <= |xs|
  {
    if i == 0 then 0 else xs[0].len + Before(xs[1..], i - 1)
  }

  /** The sectors before extent i are those the extents before it stand for. */
  lemma {:induction false} BeforeExpand(xs: seq<Extent>, i: nat)
    requires i <= |xs|
    ensures Before(xs, i) == |Expand(xs[..i])|
    decreases i
  {
    if i > 0 {
      BeforeExpand(xs[1..], i - 1);
      assert xs[..i][1..] == xs[1..][..i - 1];
    }
  }

  /** Sector j of the map is the first one of an extent. */
  ghost predicate Starts(xs: seq<Extent>, j: nat) {
    exists i :: 0 <= i < |xs| && Before(xs, i) == j
  }

  /** First sector of the run of consecutive sectors that sector j belongs to. */
  function RunStart(s: seq<nat>, j: nat): (r: nat)
    requires j < |s|
    ensures r <= j
  {
    if j == 0 || s[j] != (s[j - 1] + 1) % WRAP64 then j else RunStart(s, j - 1)
  }

  /** Within the first n sectors, if they are one run, the run starts at 0. */
  lemma {:induction false} RunFromZero(s: seq<nat>, n: nat, j: nat)
    requires Lbas(s) && Consecutive(s, n) && j < n
    ensures RunStart(s, j) == 0
    decreases j
  {
    if j > 0 {
      ModPlus(s[0] + (j - 1), 1);
      RunFromZero(s, n, j - 1);
    }
  }

  /** The run of a later sector, seen from a suffix of the map. */
  lemma {:induction false} RunOfSuffix(s: seq<nat>, n: nat, j: nat)
    requires n <= j < |s|
    ensures RunStart(s[n..], j - n) > 0 ==> RunStart(s, j) == n + RunStart(s[n..], j - n)
    ensures RunStart(s[n..], j - n) == 0 ==> RunStart(s, j) == RunStart(s, n)
    decreases j
  {
    if j > n {
      assert s[n..][j - n] == s[j] && s[n..][j - n - 1] == s[j - 1];
      RunOfSuffix(s, n, j - 1);
    }
  }

  lemma RunGrows(s: seq<nat>, n: nat)
    requires Consecutive(s, n) && 1 <= n < |s| && s[n] == (s[n - 1] + 1) % WRAP64
    ensures Consecutive(s, n + 1)
  {
    ModPlus(s[0] + (n - 1), 1);
  }

  /** The first extent ends at the end of its run, or is full. */
  lemma FirstExtent(s: seq<nat>) returns (n: nat)
    requires Lbas(s) && |s| > 0
    ensures 1 <= n <= MAX_LEN && Consecutive(s, n) && n <= |s|
    ensures Of(s) == [Extent(s[0], n)] + Of(s[n..])
    ensures n < |s| && n < MAX_LEN ==> s[n] != (s[n - 1] + 1) % WRAP64
  {
    hide Of, From, Grown;
    n := OfSplits(s, 0);
    var m := OfSplits(s, n + 1);
    assert Of(s)[0].len == n == m;
    hide Consecutive;
    if n < |s| && n < MAX_LEN && s[n] == (s[n - 1] + 1) % WRAP64 { RunGrows(s, n); }
  }

  lemma StartsLater(xs: seq<Extent>, j: nat)
    requires |xs| > 0 && xs[0].len > 0
    ensures j < xs[0].len ==> (Starts(xs, j) <==> j == 0)
    ensures j >= xs[0].len ==> (Starts(xs, j) <==> Starts(xs[1..], j - xs[0].len))
  {
    assert Before(xs, 0) == 0;
    if j >= xs[0].len && Starts(xs[1..], j - xs[0].len) {
      var i :| 0 <= i < |xs[1..]| && Before(xs[1..], i) == j - xs[0].len;
      assert Before(xs, i + 1) == j;
    }
    if Starts(xs, j) {
      var i :| 0 <= i < |xs| && Before(xs, i) == j;
      assert i > 0 ==> Before(xs[1..], i - 1) == j - xs[0].len;
    }
  }

  /** Extents start at the beginning of each run of consecutive sectors and after every 127 sectors of it. */
  lemma {:induction false} StartsIff(s: seq<nat>, j: nat)
    requires Lbas(s) && j < |s|
    ensures Starts(Of(s), j) <==> (j - RunStart(s, j)) % MAX_LEN == 0
    decreases |s|
  {
    hide Of, Starts, Consecutive, RunStart, Lbas;
    var n := FirstExtent(s);
    StartsLater(Of(s), j);
    if j < n {
      RunFromZero(s, n, j);
    } else {
      assert Of(s)[1..] == Of(s[n..]);
      SuffixLbas(s, n);
      StartsIff(s[n..], j - n);
      SameRest(s, n, j);
    }
  }

  lemma SuffixLbas(s: seq<nat>, n: nat)
    requires Lbas(s) && n <= |s|
    ensures Lbas(s[n..])
  {
  }

  /** Counting from the start of the run in the whole map or behind the first extent leaves the same remainder. */
  lemma SameRest(s: seq<nat>, n: nat, j: nat)
    requires Lbas(s) && Consecutive(s, n) && 1 <= n <= MAX_LEN && n <= j < |s|
    requires n < MAX_LEN ==> s[n] != (s[n - 1] + 1) % WRAP64
    ensures (j - RunStart(s, j)) % MAX_LEN == (j - n - RunStart(s[n..], j - n)) % MAX_LEN
  {
    hide RunStart;
    RunOfSuffix(s, n, j);
    RunAtSplit(s, n);
    if RunStart(s[n..], j - n) == 0 && RunStart(s, n) == 0 {
      assert j % 127 == (j - 127) % 127;
    }
  }

  /** The sector after a first extent starts a run, or goes on with the run of a full extent. */
  lemma RunAtSplit(s: seq<nat>, n: nat)
    requires Lbas(s) && Consecutive(s, n) && 1 <= n < |s|
    ensures RunStart(s, n) == if s[n] != (s[n - 1] + 1) % WRAP64 then n else 0
  {
    if s[n] == (s[n - 1] + 1) % WRAP64 { RunFromZero(s, n, n - 1); }
  }

  // ---- Pages ----

  /** Extent i reaches from one 64 KiB page into the next when it is loaded. */
  ghost predicate Crosses(xs: seq<Extent>, i: nat)
    requires i < |xs|
  {
    var at := LOAD + 512 * Before(xs, i);
    at / PAGE != (at + 512 * xs[i].len - 1) / PAGE
  }

  /** Sectors 64, 192, 320 and so on are loaded to the beginning of a page. */
  lemma PageStarts(b: nat, len: nat)
    requires 1 <= len <= MAX_LEN
    ensures var at := LOAD + 512 * b;
            at / PAGE != (at + 512 * len - 1) / PAGE <==> exists j :: b < j < b + len && j % 128 == 64
  {
    var at := LOAD + 512 * b;
    var p := at / PAGE;
    assert p == (64 + b) / 128 && (at + 512 * len - 1) / PAGE == (64 + b + len - 1) / 128;
    var next := 128 * p + 64;
    assert next % 128 == 64 && b < next <= b + 128;
    if j :| b < j < b + len && j % 128 == 64 {
      assert j >= next;
    }
  }

  /** Every sector belongs to one extent, and extents do not overlap. */
  lemma {:induction false} Owner(xs: seq<Extent>, j: nat) returns (i: nat)
    requires j < |Expand(xs)|
    ensures i < |xs| && Before(xs, i) <= j < Before(xs, i) + xs[i].len
    decreases |xs|
  {
    if j < xs[0].len {
      i := 0;
    } else {
      i := Owner(xs[1..], j - xs[0].len);
      i := i + 1;
    }
  }

  lemma {:induction false} Ordered(xs: seq<Extent>, i: nat, k: nat)
    requires i < k < |xs|
    ensures Before(xs, i) + xs[i].len <= Before(xs, k)
    decreases i
  {
    if i > 0 { Ordered(xs[1..], i - 1, k - 1); }
  }

  lemma {:induction false} InMap(xs: seq<Extent>, i: nat)
    requires i < |xs|
    ensures Before(xs, i) + xs[i].len <= |Expand(xs)|
    decreases i
  {
    if i > 0 { InMap(xs[1..], i - 1); }
  }

  lemma Inner(xs: seq<Extent>, i: nat, j: nat)
    requires i < |xs| && Before(xs, i) < j < Before(xs, i) + xs[i].len
    ensures !Starts(xs, j)
  {
    if Starts(xs, j) {
      var k :| 0 <= k < |xs| && Before(xs, k) == j;
      if i < k {
        Ordered(xs, i, k);
      } else if k < i {
        Ordered(xs, k, i);
      }
    }
  }

  /** Sector j of the map is where an extent has to start for pages to be respected, and it does. */
  ghost predicate Respected(s: seq<nat>, j: nat)
    requires j < |s|
  {
    j % 128 == 64 ==> (j - RunStart(s, j)) % MAX_LEN == 0
  }

  /**
   No extent crosses a page if and only if each sector that is loaded to the beginning of a page starts a
   run of consecutive sectors of the map, or comes a multiple of 127 sectors after the start of its run.
   */
  lemma PagesKept(s: seq<nat>)
    requires Lbas(s)
    ensures (forall i :: 0 <= i < |Of(s)| ==> !Crosses(Of(s), i)) <==> (forall j :: 0 <= j < |s| ==> Respected(s, j))
  {
    var xs := Of(s);
    ExpandsToMap(s);
    hide Of, Starts, Before;
    if forall i :: 0 <= i < |xs| ==> !Crosses(xs, i) {
      forall j | 0 <= j < |s|
        ensures Respected(s, j)
      {
        OneRespected(s, j);
      }
    }
    if forall j :: 0 <= j < |s| ==> Respected(s, j) {
      forall i | 0 <= i < |xs|
        ensures !Crosses(xs, i)
      {
        OneKept(s, i);
      }
    }
  }

  lemma OneRespected(s: seq<nat>, j: nat)
    requires Lbas(s) && j < |s| && forall i :: 0 <= i < |Of(s)| ==> !Crosses(Of(s), i)
    ensures Respected(s, j)
  {
    var xs := Of(s);
    ExpandsToMap(s);
    hide Of, Expand;
    var i := Owner(xs, j);
    assert Fit(xs[i]) && !Crosses(xs, i);
    PageStarts(Before(xs, i), xs[i].len);
    if j % 128 == 64 {
      assert j == Before(xs, i);
      assert Starts(xs, j);
      StartsIff(s, j);
    }
  }

  lemma OneKept(s: seq<nat>, i: nat)
    requires Lbas(s) && i < |Of(s)| && forall j :: 0 <= j < |s| ==> Respected(s, j)
    ensures !Crosses(Of(s), i)
  {
    var xs := Of(s);
    ExpandsToMap(s);
    hide Of, Expand;
    assert Fit(xs[i]);
    var b := Before(xs, i);
    PageStarts(b, xs[i].len);
    if j :| b < j < b + xs[i].len && j % 128 == 64 {
      InMap(xs, i);
      assert Respected(s, j);
      StartsIff(s, j);
      Inner(xs, i, j);
    }
  }

  /** A file whose first 65 sectors are consecutive has an extent that crosses into the second page. */
  lemma LongRunCrosses(s: seq<nat>)
    requires Lbas(s) && Consecutive(s, 65)
    ensures |Of(s)| > 0 && Crosses(Of(s), 0)
  {
    hide Of;
    var n := FirstExtent(s);
    var m := OfSplits(s, 65);
    assert Of(s)[0] == Extent(s[0], n) == Extent(s[0], m);
    assert Before(Of(s), 0) == 0;
  }

  /** For example sectors 0 to 64. */
  lemma PageCrossed()
    ensures var s := seq(65, k => k); Lbas(s) && |Of(s)| > 0 && Crosses(Of(s), 0)
  {
    var s: seq<nat> := seq(65, k => k);
    LongRunCrosses(s);
  }
}
