/**
 What every run of the allocator keeps, and what its results mean for the caller.
 */
module ArenaProofs {
  import opened Arena

  /** Find locates the one block at an address. */
  lemma FindIs(bs: seq<Block>, lo: nat, hi: nat, i: nat)
    requires Tiles(bs, lo, hi) && Roomy(bs) && i < |bs|
    ensures Find(bs, bs[i].addr) == i
  {
    AddrUnique(bs, lo, hi, i, Find(bs, bs[i].addr));
  }

  lemma ChainBlock(s: Arena, k: nat) returns (i: nat)
    requires Orderly(s) && k < |s.chain|
    ensures i == Find(s.blocks, s.chain[k]) < |s.blocks|
    ensures !s.blocks[i].used && s.blocks[i].addr == s.chain[k] && SizeAt(s.blocks, s.chain[k]) == s.blocks[i].size
  {
    assert s.chain[k] in s.chain && IsFree(s.blocks, s.chain[k]);
    i :| 0 <= i < |s.blocks| && s.blocks[i].addr == s.chain[k] && !s.blocks[i].used;
    FindIs(s.blocks, s.base, s.limit, i);
  }

  /** Block sizes leave room for the sum in the splitting test. */
  lemma BlockRoom(s: Arena, i: nat)
    requires Orderly(s) && i < |s.blocks|
    ensures 2 * HEADER <= s.blocks[i].size && s.blocks[i].size + 2 * HEADER < SIZE_T
  {
    TilesSplit(s.blocks, s.base, s.limit, i);
  }

  /** The blocks after replacing block i by mid: which are free? */
  lemma FreeAfter(bs: seq<Block>, i: nat, j: nat, mid: seq<Block>, a: nat)
    requires i <= j <= |bs|
    ensures IsFree(bs[..i] + mid + bs[j..], a) <==> IsFree(bs[..i], a) || IsFree(mid, a) || IsFree(bs[j..], a)
  {
    FreeAppend(bs[..i] + mid, bs[j..], a);
    FreeAppend(bs[..i], mid, a);
  }

  lemma FreeAppend(x: seq<Block>, y: seq<Block>, a: nat)
    ensures IsFree(x + y, a) <==> IsFree(x, a) || IsFree(y, a)
  {
    if IsFree(x, a) {
      var i :| 0 <= i < |x| && x[i].addr == a && !x[i].used;
      assert (x + y)[i] == x[i];
    }
    if IsFree(y, a) {
      var i :| 0 <= i < |y| && y[i].addr == a && !y[i].used;
      assert (x + y)[|x| + i] == y[i];
    }
  }

  /** Elsewhere in the arena there is no block at the addresses of blocks i..j. */
  lemma FreeOutside(bs: seq<Block>, lo: nat, hi: nat, i: nat, j: nat, a: nat)
    requires Tiles(bs, lo, hi) && Roomy(bs) && i < j <= |bs|
    requires bs[i].addr <= a < bs[j - 1].addr + bs[j - 1].size
    ensures !IsFree(bs[..i], a) && !IsFree(bs[j..], a)
  {
    if IsFree(bs[..i], a) {
      var m :| 0 <= m < i && bs[m].addr == a && !bs[m].used;
      TilesOrder(bs, lo, hi, m, i);
    }
    if IsFree(bs[j..], a) {
      var m :| 0 <= m < |bs[j..]| && bs[j..][m].addr == a && !bs[j..][m].used;
      TilesOrder(bs, lo, hi, j - 1, j + m);
    }
  }

  lemma WholeAsParts(bs: seq<Block>, i: nat, j: nat)
    requires i <= j <= |bs|
    ensures bs == bs[..i] + bs[i..j] + bs[j..]
  {
  }

  // ---- malloc keeps the arena in order ----

  lemma TakeShape(s: Arena, k: nat, r: nat)
    requires Inv(s) && k < |s.chain| && 2 * HEADER <= r <= SizeAt(s.blocks, s.chain[k]) && Find(s.blocks, s.chain[k]) < |s.blocks|
    ensures var t := Take(s, k, r); |t.blocks| > 0 && Tiles(t.blocks, s.base, s.limit) && Roomy(t.blocks) && Coalesced(t.blocks)
  {
    var i := ChainBlock(s, k);
    var b := s.blocks[i];
    PiecesTile(b, r);
    TilesReplace(s.blocks, s.base, s.limit, i, i + 1, Pieces(b, r));
    hide Tiles;
    assert Take(s, k, r).blocks == s.blocks[..i] + Pieces(b, r) + s.blocks[i + 1..];
    TakeCoalesced(s.blocks, i, r);
  }

  lemma PiecesTile(b: Block, r: nat)
    requires r <= b.size
    ensures Tiles(Pieces(b, r), b.addr, b.addr + b.size)
  {
    var mid := Pieces(b, r);
    assert mid[1..] == [] || mid[1..][1..] == [];
  }

  lemma TakeCoalesced(bs: seq<Block>, i: nat, r: nat)
    requires Roomy(bs) && Coalesced(bs) && i < |bs| && !bs[i].used && 2 * HEADER <= r <= bs[i].size
    ensures var t := bs[..i] + Pieces(bs[i], r) + bs[i + 1..]; Roomy(t) && Coalesced(t)
  {
  }

  /** The blocks that take the place of the one allocated from. */
  function Pieces(b: Block, r: nat): seq<Block>
    requires r <= b.size
  {
    if b.size >= r + 2 * HEADER then [Block(b.addr, r, true), Block(b.addr + r, b.size - r, false)] else [b.(used := true)]
  }

  lemma TakeChain(s: Arena, k: nat, r: nat)
    requires Inv(s) && k < |s.chain| && 2 * HEADER <= r <= SizeAt(s.blocks, s.chain[k]) && Find(s.blocks, s.chain[k]) < |s.blocks|
    ensures ChainOK(Take(s, k, r).blocks, Take(s, k, r).chain)
  {
    var i := ChainBlock(s, k);
    hide Tiles, Inv, Coalesced, Roomy, IsFree;
    var b, t := s.blocks[i], Take(s, k, r);
    assert t.blocks == s.blocks[..i] + Pieces(b, r) + s.blocks[i + 1..];
    forall a
      ensures a in t.chain <==> IsFree(t.blocks, a)
    {
      TakeFree(s, i, r, a);
      TakeFree(s, i, r, b.addr + r);
      ChainWithout(s.chain, k, a);
      if b.size >= r + 2 * HEADER { ChainReplaced(s.chain, k, b.addr + r, a); }
    }
    ChainWithout(s.chain, k, 0);
    if b.size >= r + 2 * HEADER {
      TakeFree(s, i, r, b.addr + r);
      ChainReplaced(s.chain, k, b.addr + r, 0);
    }
  }

  /** Which addresses are free after allocating from block i. */
  lemma TakeFree(s: Arena, i: nat, r: nat, a: nat)
    requires Inv(s) && i < |s.blocks| && !s.blocks[i].used && 2 * HEADER <= r <= s.blocks[i].size
    ensures var b := s.blocks[i]; var split := b.size >= r + 2 * HEADER;
            && (IsFree(s.blocks[..i] + Pieces(b, r) + s.blocks[i + 1..], a) <==>
                (split && a == b.addr + r) || (a != b.addr && IsFree(s.blocks, a)))
            && (split && a == b.addr + r ==> !IsFree(s.blocks, a))
  {
    var b := s.blocks[i];
    var mid := Pieces(b, r);
    WholeAsParts(s.blocks, i, i + 1);
    assert s.blocks[i..i + 1] == [b];
    FreeAfter(s.blocks, i, i + 1, [b], a);
    FreeAfter(s.blocks, i, i + 1, mid, a);
    assert [b][0] == b;
    assert IsFree([b], a) <==> a == b.addr;
    assert b.size >= r + 2 * HEADER ==> mid[1].addr == b.addr + r;
    assert IsFree(mid, a) <==> b.size >= r + 2 * HEADER && a == b.addr + r;
    if b.addr <= a < b.addr + b.size {
      FreeOutside(s.blocks, s.base, s.limit, i, i + 1, a);
    }
  }

  lemma ChainWithout(c: seq<nat>, k: nat, a: nat)
    requires k < |c| && Distinct(c)
    ensures a in c[..k] + c[k + 1..] <==> a in c && a != c[k]
    ensures Distinct(c[..k] + c[k + 1..])
  {
    if a in c && a != c[k] {
      var j :| 0 <= j < |c| && c[j] == a;
      var d := c[..k] + c[k + 1..];
      assert if j < k then d[j] == a else d[j - 1] == a;
    }
  }

  lemma ChainReplaced(c: seq<nat>, k: nat, x: nat, a: nat)
    requires k < |c| && Distinct(c) && x !in c
    ensures a in c[k := x] <==> a == x || (a in c && a != c[k])
    ensures Distinct(c[k := x])
  {
    if a in c && a != c[k] {
      var j :| 0 <= j < |c| && c[j] == a;
      assert c[k := x][j] == a;
    }
    assert c[k := x][k] == x;
  }

  /** Serving a request of a rounded size keeps the invariant. */
  lemma TakeInv(s: Arena, k: nat, r: nat)
    requires Inv(s) && k < |s.chain| && 2 * HEADER <= r <= SizeAt(s.blocks, s.chain[k]) && Find(s.blocks, s.chain[k]) < |s.blocks|
    ensures Inv(Take(s, k, r))
  {
    TakeShape(s, k, r);
    TakeChain(s, k, r);
  }

  // ---- free keeps the arena in order ----

  /** In order, except that free block j may still have a free right neighbour. */
  ghost predicate InvBut(s: Arena, j: nat) {
    && Orderly(s) && j < |s.blocks| && !s.blocks[j].used
    && forall i :: 0 <= i < |s.blocks| - 1 && i != j ==> s.blocks[i].used || s.blocks[i + 1].used
  }

  /** Two blocks made one: the free addresses lose the second one if it was free. */
  lemma MergeFree(bs: seq<Block>, lo: nat, hi: nat, i: nat, a: nat)
    requires Tiles(bs, lo, hi) && Roomy(bs) && i + 1 < |bs| && !bs[i].used
    ensures Tiles(Merge(bs, i), lo, hi) && Roomy(Merge(bs, i))
    ensures IsFree(Merge(bs, i), a) <==> IsFree(bs, a) && a != bs[i + 1].addr
  {
    var m := bs[i].(size := bs[i].size + bs[i + 1].size);
    TilesSplit(bs, lo, hi, i);
    assert [m][1..] == [];
    TilesReplace(bs, lo, hi, i, i + 2, [m]);
    WholeAsParts(bs, i, i + 2);
    var two := bs[i..i + 2];
    assert two == [bs[i], bs[i + 1]];
    FreeAfter(bs, i, i + 2, two, a);
    FreeAfter(bs, i, i + 2, [m], a);
    assert [m][0] == m && two[0] == bs[i] && two[1] == bs[i + 1];
    assert IsFree([m], a) <==> a == bs[i].addr;
    assert IsFree(two, a) <==> a == bs[i].addr || (a == bs[i + 1].addr && !bs[i + 1].used);
    if a == bs[i + 1].addr {
      FreeOutside(bs, lo, hi, i, i + 2, a);
    }
  }

  lemma ReleaseLeftInv(s: Arena, i: nat)
    requires Inv(s) && i < |s.blocks| && s.blocks[i].used
    ensures InvBut(ReleaseLeft(s, i), if i > 0 && !s.blocks[i - 1].used then i - 1 else i)
  {
    hide Tiles, Merge, Roomy, ChainOK;
    UsedNotFree(s, i);
    if i > 0 && !s.blocks[i - 1].used {
      JoinedLeft(s, i);
    } else {
      FreedAlone(s, i);
    }
  }

  lemma JoinedLeft(s: Arena, i: nat)
    requires Orderly(s) && 0 < i < |s.blocks| && s.blocks[i].used && !s.blocks[i - 1].used && s.blocks[i].addr !in s.chain
    ensures var t := ReleaseLeft(s, i);
            && Orderly(t) && |t.blocks| == |s.blocks| - 1 && !t.blocks[i - 1].used
            && (forall k :: 0 <= k < i - 1 ==> t.blocks[k].used == s.blocks[k].used)
            && (forall k :: i <= k < |t.blocks| ==> t.blocks[k].used == s.blocks[k + 1].used)
  {
    hide Tiles;
    var bs, t := s.blocks, ReleaseLeft(s, i);
    forall a
      ensures a in t.chain <==> IsFree(t.blocks, a)
    {
      MergeFree(bs, s.base, s.limit, i - 1, a);
    }
    MergeFree(bs, s.base, s.limit, i - 1, 0);
  }

  lemma FreedAlone(s: Arena, i: nat)
    requires Orderly(s) && i < |s.blocks| && s.blocks[i].used && !(i > 0 && !s.blocks[i - 1].used) && s.blocks[i].addr !in s.chain
    ensures Orderly(ReleaseLeft(s, i))
  {
    hide Tiles;
    var bs, t := s.blocks, ReleaseLeft(s, i);
    var b := bs[i].(used := false);
    assert t.blocks == bs[..i] + [b] + bs[i + 1..];
    WholeAsParts(bs, i, i + 1);
    assert bs[i..i + 1] == [bs[i]];
    OneBlock(b);
    TilesReplace(bs, s.base, s.limit, i, i + 1, [b]);
    forall a
      ensures a in t.chain <==> IsFree(t.blocks, a)
    {
      FreeAfter(bs, i, i + 1, [b], a);
      FreeAfter(bs, i, i + 1, [bs[i]], a);
      assert [b][0] == b;
    }
  }

  lemma OneBlock(b: Block)
    ensures Tiles([b], b.addr, b.addr + b.size)
  {
    assert [b][1..] == [];
  }

  lemma UsedNotFree(s: Arena, i: nat)
    requires Inv(s) && i < |s.blocks| && s.blocks[i].used
    ensures !IsFree(s.blocks, s.blocks[i].addr) && s.blocks[i].addr !in s.chain
  {
    if IsFree(s.blocks, s.blocks[i].addr) {
      var j :| 0 <= j < |s.blocks| && s.blocks[j].addr == s.blocks[i].addr && !s.blocks[j].used;
      AddrUnique(s.blocks, s.base, s.limit, i, j);
    }
  }

  lemma {:induction false} RemoveMember(c: seq<nat>, x: nat, a: nat)
    requires Distinct(c)
    ensures a in Remove(c, x) <==> a in c && a != x
    ensures Distinct(Remove(c, x))
    decreases |c|
  {
    if |c| > 0 {
      RemoveMember(c[1..], x, a);
      RemoveMember(c[1..], x, c[0]);
      assert c == [c[0]] + c[1..];
    }
  }

  lemma ReleaseRightInv(s: Arena, j: nat)
    requires InvBut(s, j)
    ensures Inv(ReleaseRight(s, j))
  {
    hide Tiles;
    var bs, t := s.blocks, ReleaseRight(s, j);
    if j + 1 < |bs| && !bs[j + 1].used {
      forall a
        ensures a in t.chain <==> IsFree(t.blocks, a)
      {
        MergeFree(bs, s.base, s.limit, j, a);
        RemoveMember(s.chain, bs[j + 1].addr, a);
      }
      MergeFree(bs, s.base, s.limit, j, 0);
      RemoveMember(s.chain, bs[j + 1].addr, 0);
    }
  }

  /** Releasing a used block keeps the invariant. */
  lemma ReleaseInv(s: Arena, i: nat)
    requires Inv(s) && i < |s.blocks| && s.blocks[i].used
    ensures Inv(Release(s, i))
  {
    ReleaseLeftInv(s, i);
    ReleaseRightInv(ReleaseLeft(s, i), if i > 0 && !s.blocks[i - 1].used then i - 1 else i);
  }

  // ---- What callers see ----

  /** The allocations in use. */
  ghost function Live(s: Arena): set<Block> {
    set b | b in s.blocks && b.used
  }

  /** Live allocations lie inside the arena and do not overlap. */
  lemma LiveDisjoint(s: Arena, x: Block, y: Block)
    requires Inv(s) && x in Live(s) && y in Live(s) && x != y
    ensures s.base <= x.addr && x.addr + x.size <= s.limit
    ensures x.addr + x.size <= y.addr || y.addr + y.size <= x.addr
  {
    var i :| 0 <= i < |s.blocks| && s.blocks[i] == x;
    var j :| 0 <= j < |s.blocks| && s.blocks[j] == y;
    TilesSplit(s.blocks, s.base, s.limit, i);
    if i < j {
      TilesOrder(s.blocks, s.base, s.limit, i, j);
    } else {
      TilesOrder(s.blocks, s.base, s.limit, j, i);
    }
  }

  /** A new allocation joins the live ones, which stay as they were. */
  lemma TakeLive(s: Arena, k: nat, r: nat)
    requires Inv(s) && k < |s.chain| && 2 * HEADER <= r <= SizeAt(s.blocks, s.chain[k]) && Find(s.blocks, s.chain[k]) < |s.blocks|
    ensures exists b :: b !in Live(s) && b.addr == s.chain[k] && b.size >= r && Live(Take(s, k, r)) == Live(s) + {b}
  {
    hide Tiles;
    var i := ChainBlock(s, k);
    var b, t := s.blocks[i], Take(s, k, r);
    var n := if b.size >= r + 2 * HEADER then Block(b.addr, r, true) else b.(used := true);
    var mid := if b.size >= r + 2 * HEADER then [n, Block(b.addr + r, b.size - r, false)] else [n];
    assert t.blocks == s.blocks[..i] + mid + s.blocks[i + 1..];
    assert n !in s.blocks by {
      if n in s.blocks {
        var j :| 0 <= j < |s.blocks| && s.blocks[j] == n;
        AddrUnique(s.blocks, s.base, s.limit, i, j);
      }
    }
    forall x
      ensures x in Live(t) <==> x in Live(s) + {n}
    {
      assert mid[0] == n;
      SwapUsed(s.blocks, i, mid, n, x);
    }
    assert Live(t) == Live(s) + {n};
  }

  /** Putting blocks mid, of which only n is used, in the place of a free block. */
  lemma SwapUsed(bs: seq<Block>, i: nat, mid: seq<Block>, n: Block, x: Block)
    requires i < |bs| && !bs[i].used && n in mid && n.used && forall m :: m in mid && m != n ==> !m.used
    ensures x.used ==> (x in bs[..i] + mid + bs[i + 1..] <==> x in bs || x == n)
  {
    WholeAsParts(bs, i, i + 1);
    assert bs[i..i + 1] == [bs[i]];
    InParts(bs, i, i + 1, mid, x);
    InParts(bs, i, i + 1, [bs[i]], x);
  }

  lemma InParts(bs: seq<Block>, i: nat, j: nat, mid: seq<Block>, x: Block)
    requires i <= j <= |bs|
    ensures x in bs[..i] + mid + bs[j..] <==> x in bs[..i] || x in mid || x in bs[j..]
  {
  }

  /** Releasing takes exactly that allocation out of the live ones. */
  lemma ReleaseLive(s: Arena, i: nat)
    requires Inv(s) && i < |s.blocks| && s.blocks[i].used
    ensures Live(Release(s, i)) == Live(s) - {s.blocks[i]}
  {
    hide Inv;
    var t := ReleaseLeft(s, i);
    var j := if i > 0 && !s.blocks[i - 1].used then i - 1 else i;
    forall x: Block | x.used
      ensures x in t.blocks <==> x in s.blocks && x != s.blocks[i]
      ensures x in ReleaseRight(t, j).blocks <==> x in t.blocks
    {
      ReleaseLeftUsed(s, i, x);
      if j + 1 < |t.blocks| && !t.blocks[j + 1].used { MergeLive(t.blocks, j, x); }
    }
  }

  lemma ReleaseLeftUsed(s: Arena, i: nat, x: Block)
    requires Inv(s) && i < |s.blocks| && s.blocks[i].used && x.used
    ensures x in ReleaseLeft(s, i).blocks <==> x in s.blocks && x != s.blocks[i]
  {
    hide Tiles;
    var bs := s.blocks;
    OnlyHere(s, i, x);
    if i > 0 && !bs[i - 1].used {
      MergeLive(bs, i - 1, x);
    } else {
      var b := bs[i].(used := false);
      assert ReleaseLeft(s, i).blocks == bs[..i] + [b] + bs[i + 1..];
      WholeAsParts(bs, i, i + 1);
      assert bs[i..i + 1] == [bs[i]];
      InParts(bs, i, i + 1, [b], x);
      InParts(bs, i, i + 1, [bs[i]], x);
    }
  }

  /** Block i occurs once. */
  lemma OnlyHere(s: Arena, i: nat, x: Block)
    requires Inv(s) && i < |s.blocks|
    ensures x == s.blocks[i] ==> x !in s.blocks[..i] && x !in s.blocks[i + 1..]
  {
    if x == s.blocks[i] && x in s.blocks[..i] {
      var m :| 0 <= m < i && s.blocks[m] == x;
      AddrUnique(s.blocks, s.base, s.limit, m, i);
    }
    if x == s.blocks[i] && x in s.blocks[i + 1..] {
      var m :| 0 <= m < |s.blocks[i + 1..]| && s.blocks[i + 1..][m] == x;
      AddrUnique(s.blocks, s.base, s.limit, i + 1 + m, i);
    }
  }

  /** Merging into a free block drops the second one from the used blocks. */
  lemma MergeLive(bs: seq<Block>, i: nat, x: Block)
    requires i + 1 < |bs| && !bs[i].used
    ensures x.used ==> (x in Merge(bs, i) <==> x in bs[..i] || x in bs[i + 2..])
    ensures x.used ==> (x in bs <==> x in bs[..i] || x == bs[i + 1] || x in bs[i + 2..])
    ensures bs[i + 1..] == [bs[i + 1]] + bs[i + 2..] && bs[..i + 1] == bs[..i] + [bs[i]]
  {
    WholeAsParts(bs, i, i + 2);
    assert bs[i..i + 2] == [bs[i], bs[i + 1]];
    InParts(bs, i, i + 2, [bs[i], bs[i + 1]], x);
    InParts(bs, i, i + 2, [bs[i].(size := bs[i].size + bs[i + 1].size)], x);
  }

  lemma AtMostOne(c: seq<nat>)
    requires forall i, j :: 0 <= i < |c| && 0 <= j < |c| ==> c[i] == c[j]
    ensures Distinct(c) ==> |c| <= 1
  {
    if |c| > 1 { assert c[0] == c[1]; }
  }

  /** With nothing in use, the arena is the one free block it started as. */
  lemma AllFree(s: Arena)
    requires Inv(s) && Live(s) == {}
    ensures s.base < s.limit && s.blocks == [Block(s.base, s.limit - s.base, false)] && s.chain == [s.base]
  {
    forall i | 0 <= i < |s.blocks|
      ensures !s.blocks[i].used
    {
      assert s.blocks[i] in Live(s) <==> s.blocks[i].used;
    }
    TilesSplit(s.blocks, s.base, s.limit, 0);
    assert |s.blocks| == 1;
    assert s.blocks[0].addr == s.base && IsFree(s.blocks, s.base);
    assert s.base in s.chain;
    forall k | 0 <= k < |s.chain|
      ensures s.chain[k] == s.base
    {
      assert s.chain[k] in s.chain && IsFree(s.blocks, s.chain[k]);
    }
    AtMostOne(s.chain);
  }

  /** Byte x belongs to a free block. */
  ghost predicate FreeByte(s: Arena, x: nat) {
    exists i :: 0 <= i < |s.blocks| && !s.blocks[i].used && s.blocks[i].addr <= x < s.blocks[i].addr + s.blocks[i].size
  }

  /** A run of free bytes never crosses a block boundary. */
  lemma {:induction false} SpanInOneBlock(s: Arena, i: nat, x: nat, y: nat)
    requires Inv(s) && i < |s.blocks| && !s.blocks[i].used
    requires s.blocks[i].addr <= x < s.blocks[i].addr + s.blocks[i].size && x < y
    requires forall z :: x <= z < y ==> FreeByte(s, z)
    ensures y <= s.blocks[i].addr + s.blocks[i].size
  {
    var e := s.blocks[i].addr + s.blocks[i].size;
    if y > e {
      assert FreeByte(s, e);
      var j :| 0 <= j < |s.blocks| && !s.blocks[j].used && s.blocks[j].addr <= e < s.blocks[j].addr + s.blocks[j].size;
      TilesSplit(s.blocks, s.base, s.limit, i);
      if j <= i {
        if j < i { TilesOrder(s.blocks, s.base, s.limit, j, i); }
      } else if j > i + 1 {
        TilesOrder(s.blocks, s.base, s.limit, i + 1, j);
      }
    }
  }

  /** The r bytes from x on are all free. */
  ghost predicate FreeSpan(s: Arena, x: nat, r: nat) {
    forall z :: x <= z < x + r ==> FreeByte(s, z)
  }

  /** First fit finds nothing exactly when no run of free bytes is as long as the rounded request. */
  lemma FailsOnly(s: Arena, r: nat)
    requires Inv(s) && r > 0
    ensures FirstFit(s.blocks, s.chain, r) == |s.chain| <==> forall x: nat :: !FreeSpan(s, x, r)
  {
    var k := FirstFit(s.blocks, s.chain, r);
    if k < |s.chain| {
      var i := ChainBlock(s, k);
      assert FreeSpan(s, s.blocks[i].addr, r);
    } else {
      forall x: nat
        ensures !FreeSpan(s, x, r)
      {
        NoSpan(s, r, x);
      }
    }
  }

  lemma NoSpan(s: Arena, r: nat, x: nat)
    requires Inv(s) && r > 0 && FirstFit(s.blocks, s.chain, r) == |s.chain|
    ensures !FreeSpan(s, x, r)
  {
    if FreeSpan(s, x, r) {
      assert FreeByte(s, x);
      var i :| 0 <= i < |s.blocks| && !s.blocks[i].used && s.blocks[i].addr <= x < s.blocks[i].addr + s.blocks[i].size;
      SpanInOneBlock(s, i, x, x + r);
      FindIs(s.blocks, s.base, s.limit, i);
      assert IsFree(s.blocks, s.blocks[i].addr);
    }
  }

  lemma {:induction false} FirstFitIs(bs: seq<Block>, c: seq<nat>, r: nat, k: nat)
    requires k <= |c| && (forall j :: 0 <= j < k ==> SizeAt(bs, c[j]) < r) && (k < |c| ==> SizeAt(bs, c[k]) >= r)
    ensures FirstFit(bs, c, r) == k
  {
    if k > 0 { FirstFitIs(bs, c[1..], r, k - 1); }
  }

  lemma {:induction false} RemoveAt(c: seq<nat>, k: nat)
    requires Distinct(c) && k < |c|
    ensures Remove(c, c[k]) == c[..k] + c[k + 1..]
    decreases |c|
  {
    if k > 0 {
      RemoveAt(c[1..], k - 1);
      assert c[..k] == [c[0]] + c[1..][..k - 1];
    }
  }

  // ---- Whole runs ----

  datatype Call = CallMalloc(n: nat) | CallFree(addr: nat)

  function Run(s: Arena, calls: seq<Call>): Arena {
    if |calls| == 0 then s
    else
      var t := Run(s, calls[..|calls| - 1]);
      match calls[|calls| - 1]
      case CallMalloc(n) => Serve(t, n)
      case CallFree(a) => Give(t, a)
  }

  lemma ServeInv(s: Arena, n: nat)
    requires Inv(s) && n <= MAX_REQUEST
    ensures Inv(Serve(s, n)) && Serve(s, n).base == s.base && Serve(s, n).limit == s.limit
  {
    var k := FirstFit(s.blocks, s.chain, Round(n));
    if n > 0 && k < |s.chain| {
      var i := ChainBlock(s, k);
      RoundEnough(n);
      TakeInv(s, k, Round(n));
    }
  }

  lemma GiveInv(s: Arena, a: nat)
    requires Inv(s)
    ensures Inv(Give(s, a)) && Give(s, a).base == s.base && Give(s, a).limit == s.limit
  {
    var i := Find(s.blocks, a);
    if i < |s.blocks| && s.blocks[i].used { ReleaseInv(s, i); }
  }

  /** The initial arena is in order. */
  lemma InitInv(base: nat, limit: nat)
    requires 0 < base && base + 2 * HEADER <= limit && limit + 2 * HEADER <= SIZE_T
    ensures Inv(Init(base, limit)) && Live(Init(base, limit)) == {}
  {
    var s := Init(base, limit);
    OneBlock(s.blocks[0]);
    assert IsFree(s.blocks, base);
  }

  /** Any calls in any order, with requests that do not wrap, keep the arena in order. */
  lemma {:induction false} RunInv(s: Arena, calls: seq<Call>)
    requires Inv(s) && forall c :: c in calls && c.CallMalloc? ==> c.n <= MAX_REQUEST
    ensures Inv(Run(s, calls)) && Run(s, calls).base == s.base && Run(s, calls).limit == s.limit
    decreases |calls|
  {
    hide Inv, Serve, Give;
    if |calls| > 0 {
      var c := calls[|calls| - 1];
      assert c in calls;
      RunInv(s, calls[..|calls| - 1]);
      var t := Run(s, calls[..|calls| - 1]);
      match c {
        case CallMalloc(n) => ServeInv(t, n);
        case CallFree(a) => GiveInv(t, a);
      }
    }
  }

  // ---- The alignment unit ----

  /** Only splitting a block makes a new address, and it splits off a multiple of the header size. */
  lemma TakeGrid(s: Arena, k: nat, r: nat)
    requires OnGrid(s) && k < |s.chain| && Find(s.blocks, s.chain[k]) < |s.blocks| && r <= SizeAt(s.blocks, s.chain[k])
    requires Units(r)
    ensures OnGrid(Take(s, k, r))
  {
    hide Units, Find;
    var i, t := Find(s.blocks, s.chain[k]), Take(s, k, r);
    var b := s.blocks[i];
    GridStep(b.addr - s.base, r);
    forall j | 0 <= j < |t.blocks|
      ensures Units(t.blocks[j].addr - s.base)
    {
      if b.size >= r + 2 * HEADER {
        assert t.blocks[j].addr == if j <= i then s.blocks[j].addr else if j == i + 1 then b.addr + r else s.blocks[j - 1].addr;
      } else {
        assert t.blocks[j].addr == s.blocks[j].addr;
      }
    }
  }

  lemma GridStep(x: int, r: nat)
    requires Units(x) && Units(r)
    ensures Units(x + r)
  {
  }

  lemma GridGap(x: nat, y: nat)
    requires Units(x) && Units(y)
    ensures Units(y - x)
  {
  }

  lemma ReleaseGrid(s: Arena, i: nat)
    requires OnGrid(s) && i < |s.blocks|
    ensures OnGrid(Release(s, i))
  {
    hide Units;
    var t := ReleaseLeft(s, i);
    LeftGrid(s, i);
    RightGrid(t, if i > 0 && !s.blocks[i - 1].used then i - 1 else i);
  }

  lemma LeftGrid(s: Arena, i: nat)
    requires OnGrid(s) && i < |s.blocks|
    ensures OnGrid(ReleaseLeft(s, i))
  {
    hide Units;
  }

  lemma RightGrid(s: Arena, i: nat)
    requires OnGrid(s) && i < |s.blocks|
    ensures OnGrid(ReleaseRight(s, i))
  {
    hide Units, Remove;
  }

  /** So what malloc returns for the k-th free block is on the grid. */
  lemma GrantGrid(s: Arena, k: nat, r: nat)
    requires Orderly(s) && OnGrid(s) && k < |s.chain| && r <= SizeAt(s.blocks, s.chain[k]) && Units(r)
    ensures Find(s.blocks, s.chain[k]) < |s.blocks| && OnGrid(Take(s, k, r)) && Take(s, k, r).base == s.base
    ensures Units(s.chain[k] + HEADER - s.base)
  {
    hide Orderly, Take, Find, SizeAt;
    var i := ChainBlock(s, k);
    TakeGrid(s, k, r);
    TakeBase(s, k, r);
    GridStep(s.blocks[i].addr - s.base, HEADER);
  }

  lemma TakeBase(s: Arena, k: nat, r: nat)
    requires k < |s.chain| && Find(s.blocks, s.chain[k]) < |s.blocks| && r <= SizeAt(s.blocks, s.chain[k])
    ensures Take(s, k, r).base == s.base
  {
  }

  lemma ServeGrid(s: Arena, n: nat)
    requires OnGrid(s) && n <= MAX_REQUEST
    ensures OnGrid(Serve(s, n))
  {
    hide OnGrid, Take;
    var k := FirstFit(s.blocks, s.chain, Round(n));
    if !(n == 0 || k == |s.chain| || Find(s.blocks, s.chain[k]) == |s.blocks|) {
      RoundEnough(n);
      TakeGrid(s, k, Round(n));
    }
  }

  lemma GiveGrid(s: Arena, a: nat)
    requires OnGrid(s)
    ensures OnGrid(Give(s, a))
  {
    hide OnGrid, Release;
    var i := Find(s.blocks, a);
    if i < |s.blocks| && s.blocks[i].used { ReleaseGrid(s, i); }
  }

  lemma {:induction false} RunGrid(s: Arena, calls: seq<Call>)
    requires OnGrid(s) && forall c :: c in calls && c.CallMalloc? ==> c.n <= MAX_REQUEST
    ensures OnGrid(Run(s, calls))
    decreases |calls|
  {
    hide OnGrid, Serve, Give;
    if |calls| > 0 {
      var c := calls[|calls| - 1];
      assert c in calls;
      RunGrid(s, calls[..|calls| - 1]);
      var t := Run(s, calls[..|calls| - 1]);
      match c {
        case CallMalloc(n) => ServeGrid(t, n);
        case CallFree(a) => GiveGrid(t, a);
      }
    }
  }

  /**
   After any calls on a fresh arena that starts and ends at multiples of the header size, all blocks start
   and end at multiples of it.
   */
  lemma RunAligned(base: nat, limit: nat, calls: seq<Call>, i: nat)
    requires 0 < base && base + 2 * HEADER <= limit && limit + 2 * HEADER <= SIZE_T && base % HEADER == 0 && limit % HEADER == 0
    requires (forall c :: c in calls && c.CallMalloc? ==> c.n <= MAX_REQUEST) && i < |Run(Init(base, limit), calls).blocks|
    ensures var b := Run(Init(base, limit), calls).blocks[i]; b.addr % HEADER == 0 && b.size % HEADER == 0
  {
    hide Run;
    var s := Init(base, limit);
    InitInv(base, limit);
    RunInv(s, calls);
    RunGrid(s, calls);
    GridBlock(Run(s, calls), i);
  }

  lemma GridBlock(s: Arena, i: nat)
    requires Inv(s) && OnGrid(s) && i < |s.blocks| && s.base % HEADER == 0 && s.limit % HEADER == 0
    ensures s.blocks[i].addr % HEADER == 0 && s.blocks[i].size % HEADER == 0
  {
    hide Tiles;
    var b := s.blocks[i];
    TilesSplit(s.blocks, s.base, s.limit, i);
    var e := if i + 1 < |s.blocks| then s.blocks[i + 1].addr else s.limit;
    assert b.addr + b.size == e;
    GridStep(b.addr - s.base, s.base);
    GridStep(e - s.base, s.base);
    GridGap(b.addr, e);
  }

  function GiveAll(s: Arena, order: seq<nat>): Arena
    decreases |order|
  {
    if |order| == 0 then s else GiveAll(Give(s, order[0]), order[1..])
  }

  /** Free takes exactly the allocation at its address out of the live ones. */
  lemma GiveLive(s: Arena, b: Block)
    requires Inv(s) && b in Live(s)
    ensures Live(Give(s, b.addr)) == Live(s) - {b}
  {
    var i :| 0 <= i < |s.blocks| && s.blocks[i] == b;
    FindIs(s.blocks, s.base, s.limit, i);
    ReleaseLive(s, i);
  }

  lemma LiveAddr(s: Arena, x: Block, y: Block)
    requires Inv(s) && x in Live(s) && y in Live(s) && x.addr == y.addr
    ensures x == y
  {
    var i :| 0 <= i < |s.blocks| && s.blocks[i] == x;
    var j :| 0 <= j < |s.blocks| && s.blocks[j] == y;
    AddrUnique(s.blocks, s.base, s.limit, i, j);
  }

  /** Freeing every live allocation, in whatever order, leaves the single initial free block. */
  lemma {:induction false} DrainAnyOrder(s: Arena, order: seq<nat>)
    requires Inv(s) && Distinct(order) && forall a :: a in order <==> exists b :: b in Live(s) && b.addr == a
    ensures s.base < s.limit && GiveAll(s, order) == Init(s.base, s.limit)
    decreases |order|
  {
    hide Inv, Give;
    if |order| == 0 {
      forall b | b in Live(s) ensures b.addr in order { }
      assert Live(s) == {};
      AllFree(s);
    } else {
      assert order[0] in order;
      var b :| b in Live(s) && b.addr == order[0];
      GiveLive(s, b);
      GiveInv(s, order[0]);
      var t := Give(s, order[0]);
      forall a
        ensures a in order[1..] <==> exists c :: c in Live(t) && c.addr == a
      {
        DrainStep(s, b, order, a);
      }
      DrainAnyOrder(t, order[1..]);
    }
  }

  lemma DrainStep(s: Arena, b: Block, order: seq<nat>, a: nat)
    requires Inv(s) && Distinct(order) && forall a :: a in order <==> exists b :: b in Live(s) && b.addr == a
    requires |order| > 0 && b in Live(s) && b.addr == order[0]
    ensures a in order[1..] <==> exists c :: c in Live(s) - {b} && c.addr == a
  {
    hide Inv;
    assert order == [order[0]] + order[1..];
    assert a in order[1..] <==> a in order && a != order[0];
    if a in order && a != order[0] {
      var c :| c in Live(s) && c.addr == a;
      assert c in Live(s) - {b};
    }
    if c :| c in Live(s) - {b} && c.addr == a {
      if c.addr == b.addr { LiveAddr(s, b, c); }
      assert a in order;
    }
  }
}
