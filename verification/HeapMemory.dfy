/**
 The heap's fields as bytes in memory (dos/malloc.h), and what callers do to the rest of it.
 */
module HeapMemory {
  import opened Widths
  import opened Bytes
  import opened Arena
  import opened ArenaProofs
  import opened DosHeap

  /** The fields of all headers and free blocks, by address, as the heap keeps them. */
  datatype Fields = Fields(kind: map<nat, Kind>, size: map<nat, nat>, next: map<nat, nat>, prev: map<nat, nat>,
                           nextFree: map<nat, nat>, prevFree: map<nat, nat>)

  /** Two pointers follow the header of a free block. */
  const LINKS := 8

  function Code(k: Kind): nat {
    match k
    case Used => 0
    case Free => 1
    case Head => 2
  }

  /** The list head is at address h. */
  function Pointer(h: nat, a: nat): nat {
    if a == HEAD then h else a
  }

  predicate Word(mem: seq<Byte>, a: nat, v: nat) {
    a + 4 <= |mem| && Get32(mem, a) == v
  }

  predicate PointerAt(mem: seq<Byte>, a: nat, m: map<nat, nat>, at: nat, h: nat) {
    a in m && m[a] != h && Word(mem, at, Pointer(h, m[a]))
  }

  predicate HeaderStored(mem: seq<Byte>, a: nat, f: Fields, h: nat) {
    && a in f.kind && Word(mem, a, Code(f.kind[a])) && a in f.size && Word(mem, a + 4, f.size[a])
    && PointerAt(mem, a, f.next, a + 8, h) && PointerAt(mem, a, f.prev, a + 12, h)
  }

  predicate LinksStored(mem: seq<Byte>, a: nat, f: Fields, h: nat) {
    PointerAt(mem, a, f.nextFree, a + 16, h) && PointerAt(mem, a, f.prevFree, a + 20, h)
  }

  /** Memory holds the fields of all blocks. */
  ghost predicate Stored(mem: seq<Byte>, s: Arena, f: Fields, h: nat) {
    forall i :: 0 <= i < |s.blocks| ==>
      HeaderStored(mem, s.blocks[i].addr, f, h) && (!s.blocks[i].used ==> LinksStored(mem, s.blocks[i].addr, f, h))
  }

  /** What a caller may write to: a live allocation behind its header. */
  ghost predicate Payload(s: Arena, x: nat) {
    exists b :: b in Live(s) && b.addr + HEADER <= x < b.addr + b.size
  }

  /** No header, and no link of a free block, lies in the payload of an allocation. */
  lemma PayloadApart(s: Arena, c: Block, x: nat)
    requires Inv(s) && c in s.blocks && Payload(s, x)
    ensures !(c.addr <= x < c.addr + HEADER) && (!c.used ==> !(c.addr <= x < c.addr + HEADER + LINKS))
  {
    var b :| b in Live(s) && b.addr + HEADER <= x < b.addr + b.size;
    var i :| 0 <= i < |s.blocks| && s.blocks[i] == b;
    var j :| 0 <= j < |s.blocks| && s.blocks[j] == c;
    if i < j {
      TilesOrder(s.blocks, s.base, s.limit, i, j);
    } else if j < i {
      TilesOrder(s.blocks, s.base, s.limit, j, i);
    }
  }

  lemma WordKept(mem: seq<Byte>, mem': seq<Byte>, a: nat, v: nat)
    requires Word(mem, a, v) && |mem'| == |mem| && forall x :: a <= x < a + 4 ==> mem'[x] == mem[x]
    ensures Word(mem', a, v)
  {
    assert mem'[a] == mem[a] && mem'[a + 1] == mem[a + 1] && mem'[a + 2] == mem[a + 2] && mem'[a + 3] == mem[a + 3];
  }

  /** Whatever callers write into their allocations, memory holds the same fields. */
  lemma WritesKeepFields(s: Arena, mem: seq<Byte>, mem': seq<Byte>, f: Fields, h: nat)
    requires Inv(s) && Stored(mem, s, f, h) && |mem'| == |mem|
    requires forall x :: 0 <= x < |mem| && !Payload(s, x) ==> mem'[x] == mem[x]
    ensures Stored(mem', s, f, h)
  {
    hide Inv, Word, Payload;
    forall i | 0 <= i < |s.blocks|
      ensures HeaderStored(mem', s.blocks[i].addr, f, h) && (!s.blocks[i].used ==> LinksStored(mem', s.blocks[i].addr, f, h))
    {
      BlockKept(s, mem, mem', f, h, s.blocks[i]);
    }
  }

  lemma BlockKept(s: Arena, mem: seq<Byte>, mem': seq<Byte>, f: Fields, h: nat, c: Block)
    requires Inv(s) && c in s.blocks && |mem'| == |mem|
    requires HeaderStored(mem, c.addr, f, h) && (!c.used ==> LinksStored(mem, c.addr, f, h))
    requires forall x :: 0 <= x < |mem| && !Payload(s, x) ==> mem'[x] == mem[x]
    ensures HeaderStored(mem', c.addr, f, h) && (!c.used ==> LinksStored(mem', c.addr, f, h))
  {
    hide Inv, Payload;
    var a := c.addr;
    forall x | a <= x < |mem| && (x < a + HEADER || (!c.used && x < a + HEADER + LINKS))
      ensures mem'[x] == mem[x]
    {
      if Payload(s, x) { PayloadApart(s, c, x); }
    }
    WordKept(mem, mem', a, Code(f.kind[a]));
    WordKept(mem, mem', a + 4, f.size[a]);
    WordKept(mem, mem', a + 8, Pointer(h, f.next[a]));
    WordKept(mem, mem', a + 12, Pointer(h, f.prev[a]));
    if !c.used {
      WordKept(mem, mem', a + 16, Pointer(h, f.nextFree[a]));
      WordKept(mem, mem', a + 20, Pointer(h, f.prevFree[a]));
    }
  }

  // ---- What the heap reads afterwards ----

  /** The fields describe the arena: what `Heap.Described` says of a heap. */
  ghost predicate Describes(f: Fields, s: Arena) {
    && HEAD in f.kind && f.kind[HEAD] == Head && Headers(s.blocks, f.kind, f.size)
    && Ring(f.next, f.prev, [HEAD] + Addrs(s.blocks)) && Ring(f.nextFree, f.prevFree, [HEAD] + s.chain)
  }

  ghost predicate Same<T>(m: map<nat, T>, m': map<nat, T>, a: nat) {
    a in m ==> a in m' && m'[a] == m[a]
  }

  /** The list head is not in the arena, so nothing changes it. */
  ghost predicate SameHead(f: Fields, f': Fields) {
    && Same(f.kind, f'.kind, HEAD) && Same(f.next, f'.next, HEAD) && Same(f.prev, f'.prev, HEAD)
    && Same(f.nextFree, f'.nextFree, HEAD) && Same(f.prevFree, f'.prevFree, HEAD)
  }

  /** The same bytes are read as the same fields. */
  lemma SameRead(mem: seq<Byte>, a: nat, f: Fields, f': Fields, h: nat)
    requires HeaderStored(mem, a, f, h) && HeaderStored(mem, a, f', h)
    ensures Same(f.kind, f'.kind, a) && Same(f.size, f'.size, a) && Same(f.next, f'.next, a) && Same(f.prev, f'.prev, a)
    ensures LinksStored(mem, a, f, h) && LinksStored(mem, a, f', h) ==>
              Same(f.nextFree, f'.nextFree, a) && Same(f.prevFree, f'.prevFree, a)
  {
    hide Get32;
  }

  lemma RingAgrees(nx: map<nat, nat>, pv: map<nat, nat>, nx': map<nat, nat>, pv': map<nat, nat>, r: seq<nat>)
    requires Ring(nx, pv, r) && forall a :: a in r ==> Same(nx, nx', a) && Same(pv, pv', a)
    ensures Ring(nx', pv', r)
  {
    forall i | 0 <= i < |r|
      ensures Succ(r, i) in r && r[i] in r
    {
    }
  }

  /**
   Callers own what lies behind the headers of their allocations: links of blocks that were free, and
   headers of blocks since merged, lie there too. Whatever they write there, the fields read from memory
   afterwards describe the arena as before.
   */
  lemma PayloadIrrelevant(s: Arena, mem: seq<Byte>, mem': seq<Byte>, f: Fields, f': Fields, h: nat)
    requires Inv(s) && Describes(f, s) && Stored(mem, s, f, h) && |mem'| == |mem|
    requires forall x :: 0 <= x < |mem| && !Payload(s, x) ==> mem'[x] == mem[x]
    requires Stored(mem', s, f', h) && SameHead(f, f')
    ensures Describes(f', s)
  {
    hide Inv, Payload, HeaderStored, LinksStored, Ring;
    WritesKeepFields(s, mem, mem', f, h);
    forall i | 0 <= i < |s.blocks|
      ensures var a := s.blocks[i].addr;
              Same(f.kind, f'.kind, a) && Same(f.size, f'.size, a) && Same(f.next, f'.next, a) && Same(f.prev, f'.prev, a)
      ensures !s.blocks[i].used ==> Same(f.nextFree, f'.nextFree, s.blocks[i].addr) && Same(f.prevFree, f'.prevFree, s.blocks[i].addr)
    {
      SameRead(mem', s.blocks[i].addr, f, f', h);
    }
    forall k | 0 <= k < |s.chain|
      ensures Same(f.nextFree, f'.nextFree, s.chain[k]) && Same(f.prevFree, f'.prevFree, s.chain[k])
    {
      var i := OnChain(s, k);
    }
    RingAgrees(f.next, f.prev, f'.next, f'.prev, [HEAD] + Addrs(s.blocks));
    RingAgrees(f.nextFree, f.prevFree, f'.nextFree, f'.prevFree, [HEAD] + s.chain);
  }

  lemma OnChain(s: Arena, k: nat) returns (i: nat)
    requires Inv(s) && k < |s.chain|
    ensures i < |s.blocks| && !s.blocks[i].used && s.blocks[i].addr == s.chain[k]
  {
    i := ChainBlock(s, k);
  }
}
