/**
 The DOS allocator as it works in memory: header fields at block addresses, and two circular doubly
 linked chains through a head that is no block (dos/malloc.c, dos/free.c).
 */
module DosHeap {
  import opened Arena
  import opened ArenaProofs

  datatype Kind = Used | Free | Head

  /** Address standing for __malloc_head. */
  const HEAD: nat := 0

  // ---- Circular doubly linked lists ----

  function Succ(r: seq<nat>, i: nat): nat
    requires i < |r|
  {
    if i + 1 < |r| then r[i + 1] else r[0]
  }

  /** The list r, closed into a ring, is linked both ways. */
  ghost predicate Ring(nx: map<nat, nat>, pv: map<nat, nat>, r: seq<nat>) {
    forall i :: 0 <= i < |r| ==>
      r[i] in nx && nx[r[i]] == Succ(r, i) && Succ(r, i) in pv && pv[Succ(r, i)] == r[i]
  }

  lemma RingPrev(nx: map<nat, nat>, pv: map<nat, nat>, r: seq<nat>, i: nat)
    requires Ring(nx, pv, r) && i < |r|
    ensures r[i] in pv && pv[r[i]] == r[if i > 0 then i - 1 else |r| - 1]
    ensures r[i] in nx && nx[r[i]] == Succ(r, i)
  {
    var j := if i > 0 then i - 1 else |r| - 1;
    assert Succ(r, j) == r[i];
  }

  lemma RingInsert(nx: map<nat, nat>, pv: map<nat, nat>, r: seq<nat>, i: nat, x: nat)
    requires Ring(nx, pv, r) && Distinct(r) && x !in r && i < |r|
    ensures Ring(nx[x := Succ(r, i)][r[i] := x], pv[x := r[i]][Succ(r, i) := x], r[..i + 1] + [x] + r[i + 1..])
  {
    var nx', pv', r' := nx[x := Succ(r, i)][r[i] := x], pv[x := r[i]][Succ(r, i) := x], r[..i + 1] + [x] + r[i + 1..];
    forall j | 0 <= j < |r'|
      ensures r'[j] in nx' && nx'[r'[j]] == Succ(r', j) && Succ(r', j) in pv' && pv'[Succ(r', j)] == r'[j]
    {
      if j > i + 1 {
        assert r'[j] == r[j - 1] && Succ(r', j) == Succ(r, j - 1);
        SuccDistinct(r, i, j - 1);
      } else if j < i {
        assert r'[j] == r[j] && Succ(r', j) == Succ(r, j);
        SuccDistinct(r, i, j);
      }
    }
  }

  /** Different positions have different successors. */
  lemma SuccDistinct(r: seq<nat>, i: nat, j: nat)
    requires Distinct(r) && i < |r| && j < |r| && i != j
    ensures Succ(r, i) != Succ(r, j) && r[i] != r[j]
  {
  }

  lemma RingRemove(nx: map<nat, nat>, pv: map<nat, nat>, r: seq<nat>, i: nat)
    requires Ring(nx, pv, r) && Distinct(r) && 1 <= i < |r|
    ensures r[i] in nx && r[i] in pv
    ensures Ring(nx[pv[r[i]] := nx[r[i]]], pv[nx[r[i]] := pv[r[i]]], r[..i] + r[i + 1..])
    ensures pv[r[i]] == r[i - 1] && nx[r[i]] == Succ(r, i)
  {
    RingPrev(nx, pv, r, i);
    var nx', pv', r' := nx[pv[r[i]] := nx[r[i]]], pv[nx[r[i]] := pv[r[i]]], r[..i] + r[i + 1..];
    forall j | 0 <= j < |r'|
      ensures r'[j] in nx' && nx'[r'[j]] == Succ(r', j) && Succ(r', j) in pv' && pv'[Succ(r', j)] == r'[j]
    {
      if j < i - 1 {
        assert r'[j] == r[j] && Succ(r', j) == Succ(r, j);
        SuccDistinct(r, i, j);
      } else if j == i - 1 {
        assert r'[j] == r[i - 1] && Succ(r', j) == Succ(r, i);
      } else {
        assert r'[j] == r[j + 1] && Succ(r', j) == Succ(r, j + 1);
        SuccDistinct(r, i, j + 1);
      }
    }
  }

  lemma RingReplace(nx: map<nat, nat>, pv: map<nat, nat>, r: seq<nat>, i: nat, x: nat)
    requires Ring(nx, pv, r) && Distinct(r) && 1 <= i < |r| && x !in r
    ensures r[i] in nx && r[i] in pv
    ensures Ring(nx[x := nx[r[i]]][pv[r[i]] := x], pv[x := pv[r[i]]][nx[r[i]] := x], r[i := x])
  {
    RingPrev(nx, pv, r, i);
    var nx', pv', r' := nx[x := nx[r[i]]][pv[r[i]] := x], pv[x := pv[r[i]]][nx[r[i]] := x], r[i := x];
    forall j | 0 <= j < |r'|
      ensures r'[j] in nx' && nx'[r'[j]] == Succ(r', j) && Succ(r', j) in pv' && pv'[Succ(r', j)] == r'[j]
    {
      if j == i - 1 {
        assert Succ(r', j) == x;
      } else if j != i {
        assert r'[j] == r[j] && Succ(r', j) == Succ(r, j);
        SuccDistinct(r, i, j);
        SuccDistinct(r, i - 1, j);
      } else {
        SuccDistinct(r, i - 1, i);
      }
    }
  }

  // ---- Memory and arena ----

  function Addrs(bs: seq<Block>): (a: seq<nat>)
    ensures |a| == |bs| && forall i :: 0 <= i < |bs| ==> a[i] == bs[i].addr
  {
    seq(|bs|, i requires 0 <= i < |bs| => bs[i].addr)
  }

  ghost predicate Headers(bs: seq<Block>, kind: map<nat, Kind>, size: map<nat, nat>) {
    forall i :: 0 <= i < |bs| ==>
      && bs[i].addr in kind && kind[bs[i].addr] == (if bs[i].used then Used else Free)
      && bs[i].addr in size && size[bs[i].addr] == bs[i].size
  }

  lemma RingsDistinct(s: Arena)
    requires Orderly(s)
    ensures Distinct([HEAD] + Addrs(s.blocks)) && Distinct([HEAD] + s.chain)
    ensures forall i :: 0 <= i < |s.blocks| ==> s.blocks[i].addr > 0
    ensures forall k :: 0 <= k < |s.chain| ==> s.chain[k] > 0 && s.chain[k] in Addrs(s.blocks)
  {
    var r := [HEAD] + Addrs(s.blocks);
    forall i | 0 <= i < |s.blocks|
      ensures s.blocks[i].addr > 0
    {
      TilesSplit(s.blocks, s.base, s.limit, i);
    }
    forall i, j | 0 <= i < j < |r|
      ensures r[i] != r[j]
    {
      if i > 0 { TilesOrder(s.blocks, s.base, s.limit, i - 1, j - 1); }
    }
    forall k | 0 <= k < |s.chain|
      ensures s.chain[k] > 0 && s.chain[k] in Addrs(s.blocks)
    {
      var i := ChainBlock(s, k);
      assert Addrs(s.blocks)[i] == s.chain[k];
    }
  }

  /** A new allocation at p holds n bytes beside its header; the others stay as they were. */
  ghost predicate Granted(s: Arena, t: Arena, n: nat, p: nat) {
    exists b :: b !in Live(s) && Live(t) == Live(s) + {b} && p == b.addr + HEADER && b.size >= n + HEADER
  }

  class Heap {
    var kind: map<nat, Kind>
    var size: map<nat, nat>
    var next: map<nat, nat>
    var prev: map<nat, nat>
    var nextFree: map<nat, nat>
    var prevFree: map<nat, nat>
    ghost var arena: Arena

    ghost predicate Valid()
      reads this
    {
      Inv(arena) && Described()
    }

    /** Headers and both chains describe the arena, which may be in the middle of a release. */
    ghost predicate Described()
      reads this
    {
      && HEAD in kind && kind[HEAD] == Head
      && Headers(arena.blocks, kind, size)
      && Ring(next, prev, [HEAD] + Addrs(arena.blocks))
      && Ring(nextFree, prevFree, [HEAD] + arena.chain)
    }

    /** __init_memory_arena: one free block. */
    constructor (memEnd: nat, heapEnd: nat)
      requires 0 < memEnd && memEnd + 2 * HEADER <= heapEnd && heapEnd + 2 * HEADER <= SIZE_T
      ensures Valid() && arena == Init(memEnd, heapEnd)
    {
      var fp := memEnd;
      kind := map[HEAD := Head, fp := Kind.Free];
      size := map[HEAD := 0, fp := heapEnd - memEnd];
      next := map[fp := HEAD, HEAD := fp];
      prev := map[fp := HEAD, HEAD := fp];
      nextFree := map[fp := HEAD, HEAD := fp];
      prevFree := map[fp := HEAD, HEAD := fp];
      var b := Block(memEnd, heapEnd - memEnd, false);
      arena := Arena(memEnd, heapEnd, [b], [memEnd]);
      new;
      InitInv(memEnd, heapEnd);
      assert [HEAD] + Addrs([b]) == [HEAD, memEnd];
    }

    /** __malloc_from_block: use all of a free block, or its beginning. */
    method MallocFromBlock(fp: nat, n: nat, ghost k: nat) returns (p: nat)
      requires Valid() && k < |arena.chain| && arena.chain[k] == fp
      requires Find(arena.blocks, fp) < |arena.blocks| && n <= SizeAt(arena.blocks, fp)
      modifies this
      ensures p == fp + HEADER && fp in size && size[fp] < n + 2 * HEADER
      ensures 2 * HEADER <= n ==> Valid() && arena == Take(old(arena), k, n)
    {
      hide Orderly, Take, Ring, Headers;
      ghost var i := ChainBlock(arena, k);
      BlockRoom(arena, i);
      HeaderAt(arena, kind, size, i);
      var fsize := size[fp];
      if fsize >= (n + 2 * HEADER) % SIZE_T {
        SplitBlock(fp, n, k, i);
      } else {
        UseBlock(fp, n, k, i);
      }
      p := fp + HEADER;
    }

    /** Allocate the beginning of a free block and put the rest in its place on the free chain. */
    method SplitBlock(fp: nat, n: nat, ghost k: nat, ghost i: nat)
      requires Valid() && k < |arena.chain| && arena.chain[k] == fp && i == Find(arena.blocks, fp) < |arena.blocks|
      requires n + 2 * HEADER <= arena.blocks[i].size && fp in size && size[fp] == arena.blocks[i].size
      modifies this
      ensures fp in size && size[fp] == n
      ensures 2 * HEADER <= n ==> Valid() && arena == Take(old(arena), k, n)
    {
      hide Orderly, Take, Ring, Headers;
      ghost var s := arena;
      ChainLinks(nextFree, prevFree, s, k);
      BlockLinks(next, prev, s, i);
      if 2 * HEADER <= n {
        FitsBlock(s, k, i);
        TakeInv(s, k, n);
        SplitBlockRing(next, prev, s, k, i, n);
        SplitFreeRing(nextFree, prevFree, s, k, i, n);
        TakeHeaders(s, kind, size, k, i, n);
        arena := Take(s, k, n);
      }
      var nfp := fp + n;
      var na := next[fp];
      kind := kind[nfp := Kind.Free][fp := Used];
      size := size[nfp := size[fp] - n][fp := n];
      LinkAfter(fp, nfp, na);
      ReplaceFree(fp, nfp);
    }

    /** Insert into all-block chain. */
    method LinkAfter(fp: nat, nfp: nat, na: nat)
      modifies this`next, this`prev
      ensures next == old(next)[nfp := na][fp := nfp] && prev == old(prev)[nfp := fp][na := nfp]
    {
      prev := prev[nfp := fp];
      next := next[nfp := na];
      prev := prev[na := nfp];
      next := next[fp := nfp];
    }

    /** Replace current block on free chain. */
    method ReplaceFree(fp: nat, nfp: nat)
      requires fp in nextFree && fp in prevFree && (nfp != fp ==> nextFree[fp] != fp)
      modifies this`nextFree, this`prevFree
      ensures nfp != fp ==> nextFree == old(nextFree)[nfp := old(nextFree)[fp]][old(prevFree)[fp] := nfp]
      ensures nfp != fp ==> prevFree == old(prevFree)[nfp := old(prevFree)[fp]][old(nextFree)[fp] := nfp]
    {
      nextFree := nextFree[nfp := nextFree[fp]];
      prevFree := prevFree[nfp := prevFree[fp]];
      prevFree := prevFree[nextFree[fp] := nfp];
      nextFree := nextFree[prevFree[fp] := nfp];
    }

    /** Allocate a whole free block, which leaves the free chain. */
    method UseBlock(fp: nat, n: nat, ghost k: nat, ghost i: nat)
      requires Valid() && k < |arena.chain| && arena.chain[k] == fp && i == Find(arena.blocks, fp) < |arena.blocks|
      requires n <= arena.blocks[i].size < n + 2 * HEADER
      modifies this`kind, this`nextFree, this`prevFree, this`arena
      ensures 2 * HEADER <= n ==> Valid() && arena == Take(old(arena), k, n)
    {
      hide Orderly, Take, Ring, Headers;
      ghost var s := arena;
      ChainLinks(nextFree, prevFree, s, k);
      if 2 * HEADER <= n {
        FitsBlock(s, k, i);
        TakeInv(s, k, n);
        WholeRings(next, prev, nextFree, prevFree, s, k, i, n);
        TakeHeaders(s, kind, size, k, i, n);
        arena := Take(s, k, n);
      }
      kind := kind[fp := Used];
      prevFree := prevFree[nextFree[fp] := prevFree[fp]];
      nextFree := nextFree[prevFree[fp] := nextFree[fp]];
    }

    /** A pointer into the first free block, of which less than three headers' room is allocated. */
    predicate TooSmall(first: nat, p: nat)
      reads this
    {
      p == first + HEADER && first in size && size[first] < 3 * HEADER
    }

    /** malloc: first fit along the free chain. Address 0 is NULL. Requests that wrap get far too little. */
    method Malloc(n: nat) returns (p: nat)
      requires Valid() && n < SIZE_T
      modifies this
      ensures n == 0 ==> p == 0
      ensures n <= MAX_REQUEST ==> Valid() && arena == Serve(old(arena), n)
      ensures 1 <= n <= MAX_REQUEST && p == 0 ==> arena == old(arena) && forall x: nat :: !FreeSpan(arena, x, Round(n))
      ensures 1 <= n <= MAX_REQUEST && p != 0 ==> Granted(old(arena), arena, n, p)
      ensures n <= MAX_REQUEST && OnGrid(old(arena)) ==> OnGrid(arena) && (p != 0 ==> (p - arena.base) % HEADER == 0)
      ensures n > MAX_REQUEST ==> if |old(arena).chain| == 0 then p == 0 else TooSmall(old(arena).chain[0], p)
    {
      hide Orderly, Take, Headers, Ring, FirstFit, Find, SizeAt, OnGrid;
      if n == 0 {
        return 0;
      }
      RoundEnough(n);
      var sz := (n + 2 * HEADER - 1) % SIZE_T / HEADER * HEADER;
      ghost var j, r := 0, [HEAD] + arena.chain;
      HeadOutside(arena, nextFree, prevFree);
      var fp := nextFree[HEAD];
      FreeChainAt(arena, kind, size, nextFree, prevFree, 0);
      while kind[fp] != Head
        invariant Valid() && arena == old(arena) && 0 <= j <= |arena.chain| && r == [HEAD] + arena.chain
        invariant fp == Succ(r, j) && fp in kind && (kind[fp] == Head <==> j == |arena.chain|)
        invariant forall m :: 0 <= m < j ==> SizeAt(arena.blocks, arena.chain[m]) < sz
        invariant n > MAX_REQUEST ==> j == 0
        decreases |arena.chain| - j
      {
        FreeChainAt(arena, kind, size, nextFree, prevFree, j);
        if size[fp] >= sz {
          FirstFitIs(arena.blocks, arena.chain, sz, j);
          if n <= MAX_REQUEST { TakeLive(arena, j, sz); }
          if n <= MAX_REQUEST && OnGrid(arena) { GrantGrid(arena, j, sz); }
          p := MallocFromBlock(fp, sz, j);
          return;
        }
        fp := nextFree[fp];
        j := j + 1;
        FreeChainAt(arena, kind, size, nextFree, prevFree, j);
      }
      FirstFitIs(arena.blocks, arena.chain, sz, j);
      if n <= MAX_REQUEST { FailsOnly(arena, sz); }
      return 0;
    }

    /** __free_block: join a block with free neighbours on either side, or put it on the free chain. */
    method FreeBlock(ah0: nat, ghost i: nat) returns (ah: nat)
      requires Valid() && i < |arena.blocks| && arena.blocks[i].addr == ah0 && arena.blocks[i].used
      modifies this
      ensures Valid() && arena == Release(old(arena), i)
    {
      hide Orderly, Headers, Ring, ReleaseLeft, ReleaseRight;
      ah := ah0;
      ghost var s := arena;
      BlockLinks(next, prev, s, i);
      HeaderAt(s, kind, size, i);
      if i > 0 {
        HeaderAt(s, kind, size, i - 1);
        NextAddr(s, i - 1);
      }
      var pah, nah := prev[ah], next[ah];
      ghost var j := if i > 0 && !s.blocks[i - 1].used then i - 1 else i;
      HeadOutside(s, nextFree, prevFree);
      ReleaseLeftInv(s, i);
      if kind[pah] == Kind.Free && pah + size[pah] == ah {
        JoinLeft(s, kind, size, next, prev, i);
        size := size[pah := size[pah] + size[ah]];
        next := next[pah := nah];
        prev := prev[nah := pah];
        ah := pah;
      } else {
        PushFree(s, kind, size, nextFree, prevFree, i);
        kind := kind[ah := Kind.Free];
        nextFree := nextFree[ah := nextFree[HEAD]];
        prevFree := prevFree[ah := HEAD];
        nextFree := nextFree[HEAD := ah];
        prevFree := prevFree[nextFree[ah] := ah];
      }
      arena := ReleaseLeft(s, i);
      LeftShape(s, i);
      FreeRight(ah, nah, j);
    }

    /** The second half of __free_block: join free block ah with a free right neighbour nah. */
    method FreeRight(ah: nat, nah: nat, ghost j: nat)
      requires Described() && InvBut(arena, j) && arena.blocks[j].addr == ah
      requires nah == if j + 1 < |arena.blocks| then arena.blocks[j + 1].addr else HEAD
      modifies this
      ensures Valid() && arena == ReleaseRight(old(arena), j)
    {
      hide Orderly, Headers, Ring, Remove;
      ghost var s := arena;
      ReleaseRightInv(s, j);
      HeaderAt(s, kind, size, j);
      BlockLinks(next, prev, s, j);
      if j + 1 < |s.blocks| {
        HeaderAt(s, kind, size, j + 1);
        BlockLinks(next, prev, s, j + 1);
        NextAddr(s, j);
      }
      if kind[nah] == Kind.Free && ah + size[ah] == nah {
        JoinRight(s, kind, size, next, prev, nextFree, prevFree, j);
        size := size[ah := size[ah] + size[nah]];
        prevFree := prevFree[nextFree[nah] := prevFree[nah]];
        nextFree := nextFree[prevFree[nah] := nextFree[nah]];
        next := next[ah := next[nah]];
        prev := prev[next[nah] := ah];
      }
      arena := ReleaseRight(s, j);
    }

    /** free: NULL is ignored; anything else is the address malloc returned for a block in use. */
    method Free(p: nat)
      requires Valid() && (p == 0 || exists b :: b in Live(arena) && p == b.addr + HEADER)
      modifies this
      ensures Valid()
      ensures p == 0 ==> arena == old(arena)
      ensures p > 0 ==> p >= HEADER && arena == Give(old(arena), p - HEADER)
      ensures forall b :: b in old(Live(arena)) && p == b.addr + HEADER ==> Live(arena) == old(Live(arena)) - {b}
    {
      if p == 0 {
        return;
      }
      hide Inv, Give, Release, Live, Find, Headers, Ring;
      ghost var i, b := LiveBlock(arena, p);
      var ah := p - HEADER;
      var _ := FreeBlock(ah, i);
    }
  }

  lemma FitsBlock(s: Arena, k: nat, i: nat)
    requires Orderly(s) && k < |s.chain| && i == Find(s.blocks, s.chain[k])
    ensures i < |s.blocks| && s.blocks[i].addr == s.chain[k] > 0 && SizeAt(s.blocks, s.chain[k]) == s.blocks[i].size
  {
    var j := ChainBlock(s, k);
    TilesSplit(s.blocks, s.base, s.limit, j);
  }

  /** The block of a live allocation at p, and what freeing it means. */
  lemma LiveBlock(s: Arena, p: nat) returns (i: nat, b: Block)
    requires Inv(s) && exists b :: b in Live(s) && p == b.addr + HEADER
    ensures i < |s.blocks| && s.blocks[i] == b && b.used && p == b.addr + HEADER
    ensures Give(s, p - HEADER) == Release(s, i) && Live(Release(s, i)) == Live(s) - {b}
    ensures forall c :: c in Live(s) && p == c.addr + HEADER ==> c == b
  {
    b :| b in Live(s) && p == b.addr + HEADER;
    var j :| 0 <= j < |s.blocks| && s.blocks[j] == b;
    i := j;
    hide Release;
    GiveLive(s, b);
    FindIs(s.blocks, s.base, s.limit, i);
    forall c | c in Live(s) && p == c.addr + HEADER
      ensures c == b
    {
      LiveAddr(s, b, c);
    }
  }

  /** What the first-fit loop reads at the j-th place of the free chain. */
  lemma FreeChainAt(s: Arena, kind: map<nat, Kind>, size: map<nat, nat>, nf: map<nat, nat>, pf: map<nat, nat>, j: nat)
    requires Inv(s) && HEAD in kind && kind[HEAD] == Head && Headers(s.blocks, kind, size) && Ring(nf, pf, [HEAD] + s.chain)
    requires j <= |s.chain|
    ensures var fp := Succ([HEAD] + s.chain, j); fp in kind && (kind[fp] == Head <==> j == |s.chain|)
    ensures j < |s.chain| ==> s.chain[j] in size && size[s.chain[j]] == SizeAt(s.blocks, s.chain[j]) >= 2 * HEADER
    ensures j < |s.chain| ==> s.chain[j] in nf && nf[s.chain[j]] == Succ([HEAD] + s.chain, j + 1)
    ensures j < |s.chain| ==> Find(s.blocks, s.chain[j]) < |s.blocks| && s.chain[j] == Succ([HEAD] + s.chain, j)
  {
    if j < |s.chain| {
      var i := ChainBlock(s, j);
      assert ([HEAD] + s.chain)[j + 1] == s.chain[j];
    }
  }

  lemma HeadOutside(s: Arena, nf: map<nat, nat>, pf: map<nat, nat>)
    requires Orderly(s) && Ring(nf, pf, [HEAD] + s.chain)
    ensures HEAD in nf && nf[HEAD] == Succ([HEAD] + s.chain, 0)
  {
    assert ([HEAD] + s.chain)[0] == HEAD;
  }

  lemma NextAddr(s: Arena, j: nat)
    requires Orderly(s) && j + 1 < |s.blocks|
    ensures s.blocks[j + 1].addr == s.blocks[j].addr + s.blocks[j].size
  {
    TilesSplit(s.blocks, s.base, s.limit, j);
  }

  /** Where the released block, and its right neighbour, are after the first half of __free_block. */
  lemma LeftShape(s: Arena, i: nat)
    requires i < |s.blocks|
    ensures var t, j := ReleaseLeft(s, i), if i > 0 && !s.blocks[i - 1].used then i - 1 else i;
            && j < |t.blocks| && t.blocks[j].addr == s.blocks[j].addr
            && |t.blocks| - j == |s.blocks| - i && (j + 1 < |t.blocks| ==> t.blocks[j + 1].addr == s.blocks[i + 1].addr)
  {
  }

  /** Joining used block i to the free block before it. */
  lemma JoinLeft(s: Arena, kind: map<nat, Kind>, size: map<nat, nat>, nx: map<nat, nat>, pv: map<nat, nat>, i: nat)
    requires Orderly(s) && 0 < i < |s.blocks| && !s.blocks[i - 1].used
    requires Headers(s.blocks, kind, size) && Ring(nx, pv, [HEAD] + Addrs(s.blocks))
    ensures var t, ah, pah := ReleaseLeft(s, i), s.blocks[i].addr, s.blocks[i - 1].addr;
            && ah in nx && t.chain == s.chain
            && Headers(t.blocks, kind, size[pah := s.blocks[i - 1].size + s.blocks[i].size])
            && Ring(nx[pah := nx[ah]], pv[nx[ah] := pah], [HEAD] + Addrs(t.blocks))
  {
    hide Orderly;
    var r := [HEAD] + Addrs(s.blocks);
    var t := ReleaseLeft(s, i);
    RingsDistinct(s);
    RingRemove(nx, pv, r, i + 1);
    MergeAddrs(s.blocks, i - 1);
    MergeHeaders(s, kind, size, i - 1);
  }

  lemma MergeAddrs(bs: seq<Block>, i: nat)
    requires i + 1 < |bs|
    ensures var r := [HEAD] + Addrs(bs); [HEAD] + Addrs(Merge(bs, i)) == r[..i + 2] + r[i + 3..]
  {
  }

  lemma MergeHeaders(s: Arena, kind: map<nat, Kind>, size: map<nat, nat>, i: nat)
    requires Orderly(s) && i + 1 < |s.blocks| && !s.blocks[i].used && Headers(s.blocks, kind, size)
    ensures Headers(Merge(s.blocks, i), kind, size[s.blocks[i].addr := s.blocks[i].size + s.blocks[i + 1].size])
  {
    hide Tiles;
    forall j | 0 <= j < |s.blocks| && j != i
      ensures s.blocks[j].addr != s.blocks[i].addr
    {
      if s.blocks[j].addr == s.blocks[i].addr { AddrUnique(s.blocks, s.base, s.limit, i, j); }
    }
  }

  /** Putting used block i at the front of the free chain. */
  lemma PushFree(s: Arena, kind: map<nat, Kind>, size: map<nat, nat>, nf: map<nat, nat>, pf: map<nat, nat>, i: nat)
    requires Inv(s) && i < |s.blocks| && s.blocks[i].used && (i > 0 ==> s.blocks[i - 1].used)
    requires Headers(s.blocks, kind, size) && Ring(nf, pf, [HEAD] + s.chain)
    ensures var t, ah := ReleaseLeft(s, i), s.blocks[i].addr;
            && HEAD in nf && ah != HEAD && ah != nf[HEAD] && Addrs(t.blocks) == Addrs(s.blocks)
            && Headers(t.blocks, kind[ah := Free], size)
            && Ring(nf[ah := nf[HEAD]][HEAD := ah], pf[ah := HEAD][nf[HEAD] := ah], [HEAD] + t.chain)
  {
    var r, ah := [HEAD] + s.chain, s.blocks[i].addr;
    RingsDistinct(s);
    UsedNotFree(s, i);
    assert r[0] == HEAD && ah !in r;
    RingInsert(nf, pf, r, 0, ah);
    assert r[..1] + [ah] + r[1..] == [HEAD] + ([ah] + s.chain);
    forall j | 0 <= j < |s.blocks| && j != i
      ensures s.blocks[j].addr != ah
    {
      if s.blocks[j].addr == ah { AddrUnique(s.blocks, s.base, s.limit, i, j); }
    }
  }

  /** Joining free block j with the free block after it, which leaves the free chain. */
  lemma JoinRight(s: Arena, kind: map<nat, Kind>, size: map<nat, nat>, nx: map<nat, nat>, pv: map<nat, nat>,
                  nf: map<nat, nat>, pf: map<nat, nat>, j: nat)
    requires Orderly(s) && j + 1 < |s.blocks| && !s.blocks[j].used && !s.blocks[j + 1].used
    requires Headers(s.blocks, kind, size) && Ring(nx, pv, [HEAD] + Addrs(s.blocks)) && Ring(nf, pf, [HEAD] + s.chain)
    ensures var t, ah, nah := ReleaseRight(s, j), s.blocks[j].addr, s.blocks[j + 1].addr;
            && nah in nx && nah in nf && nah in pf && nf[nah] != nah && pf[nah] != nah
            && Headers(t.blocks, kind, size[ah := s.blocks[j].size + s.blocks[j + 1].size])
            && Ring(nx[ah := nx[nah]], pv[nx[nah] := ah], [HEAD] + Addrs(t.blocks))
            && Ring(nf[pf[nah] := nf[nah]], pf[nf[nah] := pf[nah]], [HEAD] + t.chain)
  {
    hide Orderly, Ring, Headers, Remove;
    JoinBlocks(s, nx, pv, j);
    MergeHeaders(s, kind, size, j);
    var k := FreePlace(s, j + 1);
    LeaveChain(s, nf, pf, k);
  }

  lemma FreePlace(s: Arena, i: nat) returns (k: nat)
    requires Orderly(s) && i < |s.blocks| && !s.blocks[i].used
    ensures k < |s.chain| && s.chain[k] == s.blocks[i].addr
  {
    var a := s.blocks[i].addr;
    assert a in s.chain by { assert IsFree(s.blocks, a); }
    var j :| 0 <= j < |s.chain| && s.chain[j] == a;
    k := j;
  }

  /** Block j takes over its right neighbour on the chain of all blocks. */
  lemma JoinBlocks(s: Arena, nx: map<nat, nat>, pv: map<nat, nat>, j: nat)
    requires Orderly(s) && j + 1 < |s.blocks| && Ring(nx, pv, [HEAD] + Addrs(s.blocks))
    ensures var ah, nah := s.blocks[j].addr, s.blocks[j + 1].addr;
            nah in nx && Ring(nx[ah := nx[nah]], pv[nx[nah] := ah], [HEAD] + Addrs(Merge(s.blocks, j)))
  {
    hide Orderly, Ring;
    var r := [HEAD] + Addrs(s.blocks);
    RingsDistinct(s);
    RingRemove(nx, pv, r, j + 2);
    MergeAddrs(s.blocks, j);
  }

  /** The k-th free block leaves the free chain. */
  lemma LeaveChain(s: Arena, nf: map<nat, nat>, pf: map<nat, nat>, k: nat)
    requires Orderly(s) && k < |s.chain| && Ring(nf, pf, [HEAD] + s.chain)
    ensures var a := s.chain[k];
            && a in nf && a in pf && nf[a] != a && pf[a] != a
            && Ring(nf[pf[a] := nf[a]], pf[nf[a] := pf[a]], [HEAD] + Remove(s.chain, a))
  {
    hide Orderly, Ring, Remove;
    RingsDistinct(s);
    var c := [HEAD] + s.chain;
    ChainLinks(nf, pf, s, k);
    RingRemove(nf, pf, c, k + 1);
    RemoveFrom(s, k);
    assert c[..k + 1] + c[k + 2..] == [HEAD] + (s.chain[..k] + s.chain[k + 1..]);
  }

  lemma RemoveFrom(s: Arena, k: nat)
    requires Orderly(s) && k < |s.chain|
    ensures Remove(s.chain, s.chain[k]) == s.chain[..k] + s.chain[k + 1..]
  {
    RemoveAt(s.chain, k);
  }

  /** The free-chain links of the k-th free block. */
  lemma ChainLinks(nx: map<nat, nat>, pv: map<nat, nat>, s: Arena, k: nat)
    requires Orderly(s) && Ring(nx, pv, [HEAD] + s.chain) && k < |s.chain|
    ensures s.chain[k] in nx && s.chain[k] in pv
    ensures nx[s.chain[k]] == Succ([HEAD] + s.chain, k + 1) && pv[s.chain[k]] == ([HEAD] + s.chain)[k]
    ensures nx[s.chain[k]] != s.chain[k] && pv[s.chain[k]] != s.chain[k]
  {
    RingsDistinct(s);
    RingPrev(nx, pv, [HEAD] + s.chain, k + 1);
  }

  lemma BlockLinks(nx: map<nat, nat>, pv: map<nat, nat>, s: Arena, i: nat)
    requires Orderly(s) && Ring(nx, pv, [HEAD] + Addrs(s.blocks)) && i < |s.blocks|
    ensures s.blocks[i].addr in nx && s.blocks[i].addr in pv
    ensures nx[s.blocks[i].addr] == (if i + 1 < |s.blocks| then s.blocks[i + 1].addr else HEAD)
    ensures pv[s.blocks[i].addr] == (if i > 0 then s.blocks[i - 1].addr else HEAD)
    ensures nx[s.blocks[i].addr] != s.blocks[i].addr && pv[s.blocks[i].addr] != s.blocks[i].addr
  {
    var r := [HEAD] + Addrs(s.blocks);
    RingsDistinct(s);
    RingPrev(nx, pv, r, i + 1);
    assert r[i + 1] == s.blocks[i].addr;
    assert i > 0 ==> r[i] == s.blocks[i - 1].addr;
  }

  lemma HeaderAt(s: Arena, kind: map<nat, Kind>, size: map<nat, nat>, i: nat)
    requires Orderly(s) && Headers(s.blocks, kind, size) && i < |s.blocks|
    ensures s.blocks[i].addr in kind && kind[s.blocks[i].addr] == (if s.blocks[i].used then Used else Free)
    ensures s.blocks[i].addr in size && size[s.blocks[i].addr] == s.blocks[i].size
    ensures s.blocks[i].addr > 0
  {
    TilesSplit(s.blocks, s.base, s.limit, i);
  }

  /** No block starts inside block i. */
  lemma InsideFresh(s: Arena, i: nat, x: nat)
    requires Orderly(s) && i < |s.blocks| && s.blocks[i].addr < x < s.blocks[i].addr + s.blocks[i].size
    ensures x !in [HEAD] + Addrs(s.blocks) && x !in [HEAD] + s.chain
  {
    RingsDistinct(s);
    forall j | 0 <= j < |s.blocks|
      ensures s.blocks[j].addr != x
    {
      if j < i {
        TilesOrder(s.blocks, s.base, s.limit, j, i);
      } else if i < j {
        TilesOrder(s.blocks, s.base, s.limit, i, j);
      }
    }
  }

  lemma SplitAddrs(s: Arena, k: nat, i: nat, n: nat)
    requires k < |s.chain| && i == Find(s.blocks, s.chain[k]) < |s.blocks| && n + 2 * HEADER <= s.blocks[i].size
    ensures var r := [HEAD] + Addrs(s.blocks);
            [HEAD] + Addrs(Take(s, k, n).blocks) == r[..i + 2] + [s.blocks[i].addr + n] + r[i + 2..]
  {
  }

  lemma SplitBlockRing(nx: map<nat, nat>, pv: map<nat, nat>, s: Arena, k: nat, i: nat, n: nat)
    requires Inv(s) && Ring(nx, pv, [HEAD] + Addrs(s.blocks)) && k < |s.chain| && i == Find(s.blocks, s.chain[k]) < |s.blocks|
    requires 2 * HEADER <= n && n + 2 * HEADER <= s.blocks[i].size
    ensures s.blocks[i].addr in nx
    ensures var fp := s.blocks[i].addr;
            Ring(nx[fp + n := nx[fp]][fp := fp + n], pv[fp + n := fp][nx[fp] := fp + n], [HEAD] + Addrs(Take(s, k, n).blocks))
  {
    hide Orderly, Ring;
    var r, fp := [HEAD] + Addrs(s.blocks), s.blocks[i].addr;
    InsideFresh(s, i, fp + n);
    RingsDistinct(s);
    RingInsert(nx, pv, r, i + 1, fp + n);
    RingPrev(nx, pv, r, i + 1);
    SplitAddrs(s, k, i, n);
  }

  lemma SplitFreeRing(nf: map<nat, nat>, pf: map<nat, nat>, s: Arena, k: nat, i: nat, n: nat)
    requires Inv(s) && Ring(nf, pf, [HEAD] + s.chain) && k < |s.chain| && i == Find(s.blocks, s.chain[k]) < |s.blocks|
    requires 2 * HEADER <= n && n + 2 * HEADER <= s.blocks[i].size
    ensures s.blocks[i].addr in nf && s.blocks[i].addr in pf
    ensures var fp := s.blocks[i].addr;
            Ring(nf[fp + n := nf[fp]][pf[fp] := fp + n], pf[fp + n := pf[fp]][nf[fp] := fp + n], [HEAD] + Take(s, k, n).chain)
  {
    hide Orderly, Ring;
    var r, fp := [HEAD] + s.chain, s.blocks[i].addr;
    InsideFresh(s, i, fp + n);
    RingsDistinct(s);
    RingReplace(nf, pf, r, k + 1, fp + n);
    assert r[k + 1 := fp + n] == [HEAD] + Take(s, k, n).chain;
  }

  lemma WholeRings(nx: map<nat, nat>, pv: map<nat, nat>, nf: map<nat, nat>, pf: map<nat, nat>, s: Arena, k: nat, i: nat, n: nat)
    requires Inv(s) && Ring(nx, pv, [HEAD] + Addrs(s.blocks)) && Ring(nf, pf, [HEAD] + s.chain)
    requires k < |s.chain| && i == Find(s.blocks, s.chain[k]) < |s.blocks| && n <= s.blocks[i].size < n + 2 * HEADER
    ensures Ring(nx, pv, [HEAD] + Addrs(Take(s, k, n).blocks))
    ensures var fp := s.blocks[i].addr; fp in nf && fp in pf && Ring(nf[pf[fp] := nf[fp]], pf[nf[fp] := pf[fp]], [HEAD] + Take(s, k, n).chain)
  {
    var r := [HEAD] + s.chain;
    assert Addrs(Take(s, k, n).blocks) == Addrs(s.blocks);
    RingsDistinct(s);
    RingRemove(nf, pf, r, k + 1);
    assert r[..k + 1] + r[k + 2..] == [HEAD] + Take(s, k, n).chain;
  }

  lemma TakeHeaders(s: Arena, kind: map<nat, Kind>, size: map<nat, nat>, k: nat, i: nat, n: nat)
    requires Inv(s) && Headers(s.blocks, kind, size) && k < |s.chain| && i == Find(s.blocks, s.chain[k]) < |s.blocks|
    requires 2 * HEADER <= n <= s.blocks[i].size
    ensures var fp, b := s.blocks[i].addr, s.blocks[i];
            if b.size >= n + 2 * HEADER then
              Headers(Take(s, k, n).blocks, kind[fp + n := Free][fp := Used], size[fp + n := b.size - n][fp := n])
            else Headers(Take(s, k, n).blocks, kind[fp := Used], size)
  {
    hide Tiles;
    var b, t := s.blocks[i], Take(s, k, n);
    forall j | 0 <= j < |s.blocks| && j != i
      ensures s.blocks[j].addr != b.addr
      ensures b.size >= n + 2 * HEADER ==> s.blocks[j].addr != b.addr + n
    {
      if s.blocks[j].addr == b.addr { AddrUnique(s.blocks, s.base, s.limit, i, j); }
      if b.size >= n + 2 * HEADER {
        InsideFresh(s, i, b.addr + n);
        assert ([HEAD] + Addrs(s.blocks))[j + 1] == s.blocks[j].addr;
      }
    }
  }
}
