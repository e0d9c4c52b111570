/**
 The auxiliary data vector (libinstaller/setadv.c) on values: items in tag, length, value form in a data
 area of fixed size, framed by two signatures and a checksum.
 */
module AdvSpec {
  import opened Widths
  import opened Bytes

  const ADV_SIZE: nat := 512
  const ADV_LEN: nat := 500
  const MAGIC1: nat := 0x5a2d2fa5
  const MAGIC2: nat := 0xa3041767
  const MAGIC3: nat := 0xdd28bf64

  // ---- Items ----

  datatype Item = Item(tag: Byte, data: seq<Byte>)

  ghost predicate Legal(items: seq<Item>) {
    forall i :: 0 <= i < |items| ==> items[i].tag != 0 && |items[i].data| < 256
  }

  function Encode(x: Item): seq<Byte>
    requires |x.data| < 256
  {
    [x.tag, |x.data|] + x.data
  }

  function EncodeAll(items: seq<Item>): seq<Byte>
    requires Legal(items)
  {
    if |items| == 0 then [] else Encode(items[0]) + EncodeAll(items[1..])
  }

  /** Nothing more can be read: no room for an item, the end mark, or an item that overruns the area. */
  predicate Stops(d: seq<Byte>) {
    |d| < 2 || d[0] == 0 || d[1] + 2 > |d|
  }

  /** The items a data area holds. */
  function Items(d: seq<Byte>): (items: seq<Item>)
    ensures Legal(items)
  {
    if Stops(d) then [] else [Item(d[0], d[2..d[1] + 2])] + Items(d[d[1] + 2..])
  }

  /** What follows the items. */
  function Tail(d: seq<Byte>): seq<Byte> {
    if Stops(d) then d else Tail(d[d[1] + 2..])
  }

  lemma {:induction false} ItemsAndTail(d: seq<Byte>)
    ensures d == EncodeAll(Items(d)) + Tail(d) && Stops(Tail(d))
    decreases |d|
  {
    if !Stops(d) {
      hide Items, Tail, EncodeAll;
      var n: nat := d[1] as int + 2;
      var x, more := Item(d[0], d[2..n]), d[n..];
      assert Encode(x) == d[..n] && d == d[..n] + more;
      ItemsCons(x, more);
      ItemsAndTail(more);
      EncodeCons(x, Items(more));
      Rearrange(Encode(x), EncodeAll(Items(more)), Tail(more));
    } else {
      assert d == [] + d;
    }
  }

  lemma EncodeCons(x: Item, items: seq<Item>)
    requires x.tag != 0 && Legal(items) && |x.data| < 256
    ensures Legal([x] + items) && EncodeAll([x] + items) == Encode(x) + EncodeAll(items)
  {
    assert ([x] + items)[1..] == items;
  }

  lemma Rearrange(a: seq<Byte>, b: seq<Byte>, c: seq<Byte>)
    ensures a + b + c == a + (b + c)
  {
  }

  /** Items read back as they were written. */
  lemma {:induction false} ItemsOfEncoding(items: seq<Item>, tail: seq<Byte>)
    requires Legal(items) && Stops(tail)
    ensures Items(EncodeAll(items) + tail) == items && Tail(EncodeAll(items) + tail) == tail
    decreases |items|
  {
    if |items| == 0 {
      assert EncodeAll(items) + tail == tail;
    } else {
      hide Items, Tail, Encode;
      ItemsOfEncoding(items[1..], tail);
      assert EncodeAll(items) + tail == Encode(items[0]) + (EncodeAll(items[1..]) + tail);
      ItemsCons(items[0], EncodeAll(items[1..]) + tail);
      assert items == [items[0]] + items[1..];
    }
  }

  lemma ItemsCons(x: Item, d: seq<Byte>)
    requires x.tag != 0 && |x.data| < 256
    ensures Items(Encode(x) + d) == [x] + Items(d) && Tail(Encode(x) + d) == Tail(d)
  {
    var e, n := Encode(x) + d, |x.data| + 2;
    assert e[n..] == d && e[2..n] == x.data;
  }

  lemma {:induction false} EncodeAppend(a: seq<Item>, b: seq<Item>)
    requires Legal(a) && Legal(b)
    ensures Legal(a + b) && EncodeAll(a + b) == EncodeAll(a) + EncodeAll(b)
    decreases |a|
  {
    if |a| == 0 {
      assert a + b == b;
    } else {
      EncodeAppend(a[1..], b);
      assert (a + b)[1..] == a[1..] + b;
    }
  }

  /** The items with another tag, in their order. */
  function Without(items: seq<Item>, tag: int): (r: seq<Item>)
    ensures Legal(items) ==> Legal(r)
  {
    if |items| == 0 then []
    else (if items[0].tag == tag then [] else [items[0]]) + Without(items[1..], tag)
  }

  predicate HasTag(items: seq<Item>, tag: int) {
    exists i :: 0 <= i < |items| && items[i].tag == tag
  }

  /** The items after setting a tag; no data deletes it. */
  function Updated(items: seq<Item>, tag: Byte, data: seq<Byte>): (r: seq<Item>)
    requires Legal(items) && tag != 0 && |data| < 256
    ensures Legal(r)
  {
    Without(items, tag) + if |data| == 0 then [] else [Item(tag, data)]
  }

  /** What the deletion loop relies on: an end mark behind the items, or nothing to move up. */
  ghost predicate Movable(items: seq<Item>, tail: seq<Byte>, tag: int) {
    || (|tail| > 0 && tail[0] == 0)
    || !HasTag(items, tag)
    || (|tail| == 0 && !HasTag(items[..|items| - 1], tag))
  }

  // ---- The frame ----

  /** Sum of the words from k up to the tail signature. */
  function WordSum(d: seq<Byte>, k: nat): nat
    requires |d| == ADV_SIZE && k % 4 == 0 && k <= ADV_SIZE - 4
    decreases ADV_SIZE - k
  {
    if k == ADV_SIZE - 4 then 0 else Get32(d, k) + WordSum(d, k + 4)
  }

  predicate Consistent(d: seq<Byte>)
    requires |d| == ADV_SIZE
  {
    Get32(d, 0) == MAGIC1 && Get32(d, ADV_SIZE - 4) == MAGIC3 && WordSum(d, 4) % WRAP == MAGIC2
  }

  /** The checksum that makes the sum of all words come out right. */
  function Checksum(d: seq<Byte>): nat
    requires |d| == ADV_SIZE
  {
    (MAGIC2 - WordSum(d, 8) as int) % WRAP
  }

  /** One copy around a data area. */
  function Framed(area: seq<Byte>): (d: seq<Byte>)
    requires |area| == ADV_LEN
    ensures |d| == ADV_SIZE && d[8..8 + ADV_LEN] == area
  {
    var body := Zeros(8) + area + Zeros(4);
    Put32(MAGIC1) + Put32(Checksum(body)) + area + Put32(MAGIC3)
  }

  lemma {:induction false} SumDepends(d: seq<Byte>, e: seq<Byte>, k: nat)
    requires |d| == |e| == ADV_SIZE && k % 4 == 0 && 8 <= k <= ADV_SIZE - 4 && d[8..8 + ADV_LEN] == e[8..8 + ADV_LEN]
    ensures WordSum(d, k) == WordSum(e, k)
    decreases ADV_SIZE - k
  {
    if k < ADV_SIZE - 4 {
      SumDepends(d, e, k + 4);
      forall j | k <= j < k + 4
        ensures d[j] == e[j]
      {
        assert d[j] == d[8..8 + ADV_LEN][j - 8] && e[j] == e[8..8 + ADV_LEN][j - 8];
      }
      assert d[k] == e[k] && d[k + 1] == e[k + 1] && d[k + 2] == e[k + 2] && d[k + 3] == e[k + 3];
    }
  }

  lemma FramedConsistent(area: seq<Byte>)
    requires |area| == ADV_LEN
    ensures Consistent(Framed(area))
  {
    hide Get32, WordSum, Put32;
    var d, body := Framed(area), Zeros(8) + area + Zeros(4);
    assert body[8..8 + ADV_LEN] == area;
    SumDepends(d, body, 8);
    FirstWord(d);
    SameWord(d, 0, Put32(MAGIC1));
    SameWord(d, 4, Put32(Checksum(body)));
    SameWord(d, 508, Put32(MAGIC3));
    SumBack(MAGIC2, WordSum(d, 8));
  }

  lemma FirstWord(d: seq<Byte>)
    requires |d| == ADV_SIZE
    ensures WordSum(d, 4) == Get32(d, 4) + WordSum(d, 8)
  {
  }

  lemma SumBack(m: nat, s: nat)
    requires m < WRAP
    ensures ((m - s as int) % WRAP + s) % WRAP == m
  {
    var q := (m - s as int) / WRAP;
    assert (m - s as int) % WRAP + s == m - WRAP * q;
  }

  /** The first word is fixed by the sum. */
  lemma SumFixes(x: nat, y: nat, s: nat)
    requires x < WRAP && y < WRAP && (x + s) % WRAP == (y + s) % WRAP
    ensures x == y
  {
    var p, q := (x + s) / WRAP, (y + s) / WRAP;
    assert x - y == WRAP * (p - q);
  }

  /** A copy that passes the check is the frame around its own data area. */
  lemma ConsistentIsFramed(d: seq<Byte>)
    requires |d| == ADV_SIZE && Consistent(d)
    ensures d == Framed(d[8..8 + ADV_LEN])
  {
    hide Get32, WordSum, Put32;
    var area := d[8..8 + ADV_LEN];
    var f := Framed(area);
    FramedConsistent(area);
    SumDepends(d, f, 8);
    FirstWord(d);
    FirstWord(f);
    SumFixes(Get32(d, 4), Get32(f, 4), WordSum(d, 8));
    WordUnique(d, f, 0);
    WordUnique(d, f, 4);
    WordUnique(d, f, ADV_SIZE - 4);
    Quarters(d);
    Quarters(f);
  }

  lemma Quarters(d: seq<Byte>)
    requires |d| == ADV_SIZE
    ensures d == d[0..4] + d[4..8] + d[8..8 + ADV_LEN] + d[508..512]
  {
  }

  // ---- An empty store ----

  lemma {:induction false} NoSum(d: seq<Byte>, k: nat)
    requires |d| == ADV_SIZE && k % 4 == 0 && 8 <= k <= ADV_SIZE - 4 && forall j :: 8 <= j < ADV_SIZE - 4 ==> d[j] == 0
    ensures WordSum(d, k) == 0
    decreases ADV_SIZE - k
  {
    if k < ADV_SIZE - 4 { NoSum(d, k + 4); }
  }

  /** The bytes of a copy without items. */
  lemma EmptyFrame()
    ensures Framed(Zeros(ADV_LEN)) == [0xA5, 0x2F, 0x2D, 0x5A, 0x67, 0x17, 0x04, 0xA3] + Zeros(500) + [0x64, 0xBF, 0x28, 0xDD]
  {
    hide Get32, WordSum;
    NoSum(Zeros(8) + Zeros(ADV_LEN) + Zeros(4), 8);
    assert Checksum(Zeros(8) + Zeros(ADV_LEN) + Zeros(4)) == MAGIC2;
    Signatures();
    hide Put32, Checksum;
    assert [0xA5, 0x2F, 0x2D, 0x5A] + [0x67, 0x17, 0x04, 0xA3] == [0xA5, 0x2F, 0x2D, 0x5A, 0x67, 0x17, 0x04, 0xA3];
  }

  lemma Signatures()
    ensures Put32(MAGIC1) == [0xA5, 0x2F, 0x2D, 0x5A] && Put32(MAGIC2) == [0x67, 0x17, 0x04, 0xA3] && Put32(MAGIC3) == [0x64, 0xBF, 0x28, 0xDD]
  {
  }
}
