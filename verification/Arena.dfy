/**
 The DOS allocator (dos/malloc.c, dos/free.c) on values: the arena as the sequence of blocks that
 tile it, and the free chain as the sequence of addresses in the order it is searched.
 */
module Arena {

  /** sizeof(struct arena_header); a free block needs room for two of them. */
  const HEADER := 16
  const SIZE_T := 0x1_0000_0000

  datatype Block = Block(addr: nat, size: nat, used: bool)

  datatype Arena = Arena(base: nat, limit: nat, blocks: seq<Block>, chain: seq<nat>)

  // ---- What holds in every run ----

  /** Blocks lie end to end from lo to hi. */
  ghost predicate Tiles(bs: seq<Block>, lo: nat, hi: nat) {
    if |bs| == 0 then lo == hi
    else bs[0].addr == lo && Tiles(bs[1..], lo + bs[0].size, hi)
  }

  ghost predicate Roomy(bs: seq<Block>) {
    forall i :: 0 <= i < |bs| ==> bs[i].size >= 2 * HEADER
  }

  /** No two neighbours are both free. */
  ghost predicate Coalesced(bs: seq<Block>) {
    forall i :: 0 <= i < |bs| - 1 ==> bs[i].used || bs[i + 1].used
  }

  ghost predicate Distinct(c: seq<nat>) {
    forall i, j :: 0 <= i < j < |c| ==> c[i] != c[j]
  }

  ghost predicate IsFree(bs: seq<Block>, a: nat) {
    exists i :: 0 <= i < |bs| && bs[i].addr == a && !bs[i].used
  }

  /** The free chain holds exactly the free blocks, each once. */
  ghost predicate ChainOK(bs: seq<Block>, c: seq<nat>) {
    Distinct(c) && forall a :: a in c <==> IsFree(bs, a)
  }

  /** The arena ends early enough for sizes not to wrap when a block is split. */
  ghost predicate Orderly(s: Arena) {
    0 < s.base && s.limit + 2 * HEADER <= SIZE_T && Tiles(s.blocks, s.base, s.limit) && Roomy(s.blocks) && ChainOK(s.blocks, s.chain)
  }

  ghost predicate Inv(s: Arena) {
    Orderly(s) && |s.blocks| > 0 && Coalesced(s.blocks)
  }

  /** Blocks start a multiple of the header size behind the start of the arena. */
  ghost predicate OnGrid(s: Arena) {
    forall i :: 0 <= i < |s.blocks| ==> Units(s.blocks[i].addr - s.base)
  }

  /** A multiple of the header size. */
  predicate Units(x: int) {
    x % HEADER == 0
  }

  // ---- Tiling ----

  lemma {:induction false} TilesAppend(a: seq<Block>, b: seq<Block>, lo: nat, mid: nat, hi: nat)
    requires Tiles(a, lo, mid) && Tiles(b, mid, hi)
    ensures Tiles(a + b, lo, hi)
  {
    if |a| == 0 {
      assert a + b == b;
    } else {
      TilesAppend(a[1..], b, lo + a[0].size, mid, hi);
      assert (a + b)[1..] == a[1..] + b;
    }
  }

  lemma {:induction false} TilesSplit(bs: seq<Block>, lo: nat, hi: nat, i: nat)
    requires Tiles(bs, lo, hi) && i <= |bs|
    ensures i < |bs| ==> Tiles(bs[..i], lo, bs[i].addr) && Tiles(bs[i..], bs[i].addr, hi)
    ensures i < |bs| ==> lo <= bs[i].addr && bs[i].addr + bs[i].size <= hi
    ensures i + 1 < |bs| ==> bs[i + 1].addr == bs[i].addr + bs[i].size
    ensures i + 1 == |bs| ==> bs[i].addr + bs[i].size == hi
    ensures lo <= hi
    decreases |bs|
  {
    if |bs| > 0 {
      if i == 0 {
        TilesSplit(bs[1..], lo + bs[0].size, hi, 0);
        assert bs[..0] == [] && bs[0..] == bs;
      } else {
        TilesSplit(bs[1..], lo + bs[0].size, hi, i - 1);
        if i < |bs| {
          assert bs[..i][1..] == bs[1..][..i - 1];
          assert bs[1..][i - 1..] == bs[i..];
        }
      }
    }
  }

  /** Blocks come in address order and do not overlap. */
  lemma {:induction false} TilesOrder(bs: seq<Block>, lo: nat, hi: nat, i: nat, j: nat)
    requires Tiles(bs, lo, hi) && i < j < |bs|
    ensures bs[i].addr + bs[i].size <= bs[j].addr
  {
    if i == 0 {
      TilesSplit(bs[1..], lo + bs[0].size, hi, j - 1);
    } else {
      TilesOrder(bs[1..], lo + bs[0].size, hi, i - 1, j - 1);
    }
  }

  lemma AddrUnique(bs: seq<Block>, lo: nat, hi: nat, i: nat, j: nat)
    requires Tiles(bs, lo, hi) && Roomy(bs) && i < |bs| && j < |bs| && bs[i].addr == bs[j].addr
    ensures i == j
  {
    if i < j {
      TilesOrder(bs, lo, hi, i, j);
    } else if j < i {
      TilesOrder(bs, lo, hi, j, i);
    }
  }

  /** Replacing blocks i..j by others over the same addresses keeps the tiling. */
  lemma TilesReplace(bs: seq<Block>, lo: nat, hi: nat, i: nat, j: nat, mid: seq<Block>)
    requires Tiles(bs, lo, hi) && i < j <= |bs|
    requires Tiles(mid, bs[i].addr, bs[j - 1].addr + bs[j - 1].size)
    ensures Tiles(bs[..i] + mid + bs[j..], lo, hi)
  {
    TilesSplit(bs, lo, hi, i);
    TilesSplit(bs, lo, hi, j - 1);
    var e := bs[j - 1].addr + bs[j - 1].size;
    assert Tiles(bs[j..], e, hi) by {
      if j < |bs| {
        TilesSplit(bs, lo, hi, j);
      } else {
        assert bs[j..] == [];
      }
    }
    TilesAppend(bs[..i], mid, lo, bs[i].addr, e);
    TilesAppend(bs[..i] + mid, bs[j..], lo, e, hi);
  }

  // ---- malloc ----

  /** Index of the block at address a, or |bs|. */
  function Find(bs: seq<Block>, a: nat): (i: nat)
    ensures i <= |bs| && (i < |bs| ==> bs[i].addr == a)
    ensures forall j :: 0 <= j < i ==> bs[j].addr != a
  {
    if |bs| == 0 then 0
    else if bs[0].addr == a then 0
    else 1 + Find(bs[1..], a)
  }

  function SizeAt(bs: seq<Block>, a: nat): nat {
    if Find(bs, a) < |bs| then bs[Find(bs, a)].size else 0
  }

  /** Request plus header, rounded up to a multiple of the header size, in 32-bit arithmetic. */
  function Round(n: nat): nat {
    (n + 2 * HEADER - 1) % SIZE_T / HEADER * HEADER
  }

  const MAX_REQUEST := SIZE_T - 2 * HEADER

  /** A request is served with enough room exactly when its rounding does not wrap. */
  lemma RoundEnough(n: nat)
    requires 1 <= n < SIZE_T
    ensures n <= MAX_REQUEST <==> Round(n) >= n + HEADER
    ensures n <= MAX_REQUEST <==> Round(n) >= 2 * HEADER
    ensures n <= MAX_REQUEST ==> Round(n) < n + 2 * HEADER
    ensures n > MAX_REQUEST ==> Round(n) == if n <= SIZE_T - HEADER then 0 else HEADER
    ensures Round(n) % HEADER == 0
  {
  }

  /** One byte more and nothing is left of the request. */
  lemma RoundWraps()
    ensures Round(MAX_REQUEST + 1) == 0
  {
  }

  /** First block on the free chain that is large enough, or |c|. */
  function FirstFit(bs: seq<Block>, c: seq<nat>, r: nat): (i: nat)
    ensures i <= |c| && (i < |c| ==> SizeAt(bs, c[i]) >= r)
    ensures forall j :: 0 <= j < i ==> SizeAt(bs, c[j]) < r
  {
    if |c| == 0 then 0
    else if SizeAt(bs, c[0]) >= r then 0
    else 1 + FirstFit(bs, c[1..], r)
  }

  /** Allocate r bytes from the k-th block on the free chain; the rest stays free if it is big enough. */
  function Take(s: Arena, k: nat, r: nat): Arena
    requires k < |s.chain| && Find(s.blocks, s.chain[k]) < |s.blocks| && r <= SizeAt(s.blocks, s.chain[k])
  {
    var i := Find(s.blocks, s.chain[k]);
    var b := s.blocks[i];
    if b.size >= r + 2 * HEADER then
      s.(blocks := s.blocks[..i] + [Block(b.addr, r, true), Block(b.addr + r, b.size - r, false)] + s.blocks[i + 1..],
         chain := s.chain[k := b.addr + r])
    else
      s.(blocks := s.blocks[..i] + [b.(used := true)] + s.blocks[i + 1..],
         chain := s.chain[..k] + s.chain[k + 1..])
  }

  // ---- free ----

  /** Blocks i and i + 1 made one. */
  function Merge(bs: seq<Block>, i: nat): seq<Block>
    requires i + 1 < |bs|
  {
    bs[..i] + [bs[i].(size := bs[i].size + bs[i + 1].size)] + bs[i + 2..]
  }

  function Remove(c: seq<nat>, a: nat): seq<nat> {
    if |c| == 0 then [] else if c[0] == a then c[1..] else [c[0]] + Remove(c[1..], a)
  }

  /** Join block i with a free left neighbour, or put it on the free chain. */
  function ReleaseLeft(s: Arena, i: nat): Arena
    requires i < |s.blocks|
  {
    if i > 0 && !s.blocks[i - 1].used then s.(blocks := Merge(s.blocks, i - 1))
    else s.(blocks := s.blocks[i := s.blocks[i].(used := false)], chain := [s.blocks[i].addr] + s.chain)
  }

  /** Join free block i with a free right neighbour, which leaves the free chain. */
  function ReleaseRight(s: Arena, i: nat): Arena
    requires i < |s.blocks|
  {
    if i + 1 < |s.blocks| && !s.blocks[i + 1].used then
      s.(blocks := Merge(s.blocks, i), chain := Remove(s.chain, s.blocks[i + 1].addr))
    else s
  }

  function Release(s: Arena, i: nat): Arena
    requires i < |s.blocks|
  {
    var j := if i > 0 && !s.blocks[i - 1].used then i - 1 else i;
    ReleaseRight(ReleaseLeft(s, i), j)
  }

  // ---- The two calls ----

  /** What malloc(n) leaves; a null result leaves the arena alone. */
  function Serve(s: Arena, n: nat): Arena {
    var k := FirstFit(s.blocks, s.chain, Round(n));
    if n == 0 || k == |s.chain| || Find(s.blocks, s.chain[k]) == |s.blocks| then s else Take(s, k, Round(n))
  }

  /** What free leaves when given the allocation whose block is at address a. */
  function Give(s: Arena, a: nat): Arena {
    var i := Find(s.blocks, a);
    if i < |s.blocks| && s.blocks[i].used then Release(s, i) else s
  }

  function Init(base: nat, limit: nat): Arena
    requires base < limit
  {
    Arena(base, limit, [Block(base, limit - base, false)], [base])
  }
}
