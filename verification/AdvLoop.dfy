/**
 The deletion loop of syslinux_setadv (libinstaller/setadv.c:79-103) on values. Deleting an item moves up
 what follows it but leaves the length of the area as it was, so bytes left behind are read again; here is
 when the loop nevertheless keeps exactly the other items.
 */
module AdvLoop {
  import opened Widths
  import opened Bytes
  import opened AdvSpec

  /** The working copy is kept followed by rest; the loop looks at the beginning of rest. */
  datatype Place = Place(kept: seq<Byte>, rest: seq<Byte>)

  /** The loop breaks here. */
  predicate Breaks(u: seq<Byte>, tag: Byte) {
    |u| < 2 || u[0] == 0 || (if u[0] == tag then u[1] + 2 >= |u| else u[1] + 2 > |u|)
  }

  /** Move up what follows the first n bytes; as many bytes at the end stay. */
  function MoveUp(u: seq<Byte>, n: nat): (r: seq<Byte>)
    requires n <= |u|
    ensures |r| == |u|
  {
    u[n..] + u[|u| - n..]
  }

  /** One turn of the loop. */
  function Turn(s: Place, tag: Byte): (t: Place)
    requires !Breaks(s.rest, tag)
    ensures |t.kept + t.rest| == |s.kept + s.rest| && |t.kept| >= |s.kept|
  {
    var n: nat := s.rest[1] as int + 2;
    if s.rest[0] == tag then Place(s.kept, MoveUp(s.rest, n)) else Place(s.kept + s.rest[..n], s.rest[n..])
  }

  /** Where the loop is after n turns, or when it broke before that. */
  function After(s: Place, tag: Byte, n: nat): (t: Place)
    ensures |t.kept + t.rest| == |s.kept + s.rest| && |t.kept| >= |s.kept|
    decreases n
  {
    if n == 0 || Breaks(s.rest, tag) then s else After(Turn(s, tag), tag, n - 1)
  }

  lemma {:induction false} AfterSum(s: Place, tag: Byte, m: nat, n: nat)
    ensures After(s, tag, m + n) == After(After(s, tag, m), tag, n)
    decreases m
  {
    hide After, Turn, Breaks;
    AfterTurn(s, tag, m);
    AfterTurn(s, tag, m + n);
    if m > 0 && !Breaks(s.rest, tag) {
      AfterSum(Turn(s, tag), tag, m - 1, n);
    } else if m > 0 {
      AfterTurn(s, tag, n);
    }
  }

  lemma AfterTurn(s: Place, tag: Byte, n: nat)
    ensures After(s, tag, n) == if n == 0 || Breaks(s.rest, tag) then s else After(Turn(s, tag), tag, n - 1)
  {
  }

  /** The loop breaks within n turns, at t. */
  ghost predicate EndsAt(s: Place, tag: Byte, n: nat, t: Place) {
    After(s, tag, n) == t && Breaks(t.rest, tag)
  }

  /** It breaks in one place only. */
  lemma EndUnique(s: Place, tag: Byte, m: nat, t: Place, n: nat, u: Place)
    requires EndsAt(s, tag, m, t) && EndsAt(s, tag, n, u)
    ensures t == u
  {
    if m <= n {
      AfterSum(s, tag, m, n - m);
    } else {
      AfterSum(s, tag, n, m - n);
    }
  }

  // ---- The items that were there ----

  /** What the loop stands at once the items are used up: the tail and what deletions left behind. */
  function Left(items: seq<Item>, tail: seq<Byte>, tag: Byte): seq<Byte>
    requires Legal(items)
    decreases |items|
  {
    if |items| == 0 then tail
    else if items[0].tag != tag then Left(items[1..], tail, tag)
    else if |items| == 1 && |tail| == 0 then Encode(items[0])
    else
      Left(items[1..], tail + Stale(items[0], EncodeAll(items[1..]) + tail), tag)
  }

  /** What the loop reads at an item. */
  lemma AtItem(x: Item, d: seq<Byte>, tag: Byte)
    requires x.tag != 0 && |x.data| < 256
    ensures var u, n := Encode(x) + d, 2 + |x.data|;
            && |u| >= n && u[0] == x.tag && u[1] as int + 2 == n && u[..n] == Encode(x) && u[n..] == d
            && (Breaks(u, tag) <==> x.tag == tag && |d| == 0)
  {
  }

  lemma TurnKeep(kept: seq<Byte>, x: Item, d: seq<Byte>, tag: Byte, m: nat)
    requires x.tag != 0 && |x.data| < 256 && x.tag != tag
    ensures After(Place(kept, Encode(x) + d), tag, m + 1) == After(Place(kept + Encode(x), d), tag, m)
  {
    AtItem(x, d, tag);
    hide Encode, Breaks;
    assert Turn(Place(kept, Encode(x) + d), tag) == Place(kept + Encode(x), d);
  }

  /** The bytes a deletion leaves behind at the end. */
  function Stale(x: Item, d: seq<Byte>): seq<Byte>
    requires |x.data| < 256
  {
    (Encode(x) + d)[|d|..]
  }

  lemma TurnDrop(kept: seq<Byte>, x: Item, d: seq<Byte>, tag: Byte, m: nat)
    requires x.tag != 0 && |x.data| < 256 && x.tag == tag && |d| > 0
    ensures After(Place(kept, Encode(x) + d), tag, m + 1) == After(Place(kept, d + Stale(x, d)), tag, m)
  {
    AtItem(x, d, tag);
    var u, n := Encode(x) + d, 2 + |x.data|;
    assert |u| - n == |d|;
    hide Encode, Breaks;
    assert Turn(Place(kept, u), tag) == Place(kept, d + Stale(x, d));
  }

  /** The items are gone through one by one, and those with the tag disappear. */
  lemma {:induction false} ThroughItems(kept: seq<Byte>, items: seq<Item>, tail: seq<Byte>, tag: Byte) returns (m: nat)
    requires Legal(items)
    ensures After(Place(kept, EncodeAll(items) + tail), tag, m) == Place(kept + EncodeAll(Without(items, tag)), Left(items, tail, tag))
    decreases |items|
  {
    if |items| == 0 {
      m := 0;
      assert EncodeAll(items) + tail == tail && kept + [] == kept;
    } else {
      var x, more := items[0], items[1..];
      EncodedItem(items, tail);
      WithoutItem(items, tag);
      LeftItem(items, tail, tag);
      hide EncodeAll, Encode, Without, Left, Legal, After;
      if x.tag != tag {
        m := ThroughItems(kept + Encode(x), more, tail, tag);
        TurnKeep(kept, x, EncodeAll(more) + tail, tag, m);
        m := m + 1;
        Rearrange(kept, Encode(x), EncodeAll(Without(more, tag)));
      } else if |more| == 0 && |tail| == 0 {
        m := 0;
        NothingLeft(Place(kept, EncodeAll(items) + tail), more, tag);
      } else {
        var stale := Stale(x, EncodeAll(more) + tail);
        m := ThroughItems(kept, more, tail + stale, tag);
        TurnDrop(kept, x, EncodeAll(more) + tail, tag, m);
        m := m + 1;
        Rearrange(EncodeAll(more), tail, stale);
      }
    }
  }

  lemma NothingLeft(s: Place, items: seq<Item>, tag: Byte)
    requires |items| == 0
    ensures After(s, tag, 0) == s && s.kept + EncodeAll(Without(items, tag)) == s.kept
  {
  }

  lemma EncodedItem(items: seq<Item>, tail: seq<Byte>)
    requires Legal(items) && |items| > 0
    ensures Legal(items[1..]) && items[0].tag != 0 && |items[0].data| < 256
    ensures EncodeAll(items) + tail == Encode(items[0]) + (EncodeAll(items[1..]) + tail)
    ensures |EncodeAll(items[1..]) + tail| == 0 <==> |items[1..]| == 0 && |tail| == 0
  {
    var x, more := Encode(items[0]), EncodeAll(items[1..]);
    assert |items[1..]| > 0 ==> |more| >= 2;
    assert EncodeAll(items) == x + more;
    hide EncodeAll, Encode;
    Rearrange(x, more, tail);
  }

  lemma WithoutItem(items: seq<Item>, tag: Byte)
    requires Legal(items) && |items| > 0
    ensures EncodeAll(Without(items, tag)) ==
            (if items[0].tag == tag then [] else Encode(items[0])) + EncodeAll(Without(items[1..], tag))
    ensures items[0].tag == tag ==> Without(items, tag) == Without(items[1..], tag)
  {
    var w := Without(items[1..], tag);
    if items[0].tag != tag {
      EncodeCons(items[0], w);
    } else {
      assert Without(items, tag) == w && [] + EncodeAll(w) == EncodeAll(w);
    }
  }

  lemma LeftItem(items: seq<Item>, tail: seq<Byte>, tag: Byte)
    requires Legal(items) && |items| > 0
    ensures items[0].tag != tag ==> Left(items, tail, tag) == Left(items[1..], tail, tag)
    ensures items[0].tag == tag && |items[1..]| == 0 && |tail| == 0 ==> Left(items, tail, tag) == EncodeAll(items) + tail
    ensures items[0].tag == tag && !(|items[1..]| == 0 && |tail| == 0) ==>
              Left(items, tail, tag) == Left(items[1..], tail + Stale(items[0], EncodeAll(items[1..]) + tail), tag)
  {
    hide Encode;
    assert |items| == 1 ==> EncodeAll(items[1..]) == [];
  }

  // ---- When exactly the other items are kept ----

  /** From u the loop deletes m more pieces that begin with the tag, and then breaks. */
  ghost predicate Settles(u: seq<Byte>, tag: Byte, m: nat)
    decreases m
  {
    if Breaks(u, tag) then m == 0
    else m > 0 && u[0] == tag && Settles(MoveUp(u, u[1] as int + 2), tag, m - 1)
  }

  /** What is left to read after the items makes the loop break before it keeps anything of it. */
  ghost predicate Clean(a: seq<Byte>, tag: Byte) {
    exists m: nat :: Settles(Left(Items(a), Tail(a), tag), tag, m)
  }

  lemma {:induction false} SettlesEnds(kept: seq<Byte>, u: seq<Byte>, tag: Byte, m: nat) returns (t: Place)
    requires Settles(u, tag, m)
    ensures t.kept == kept && EndsAt(Place(kept, u), tag, m, t)
    decreases m
  {
    if m == 0 {
      t := Place(kept, u);
    } else {
      t := SettlesEnds(kept, MoveUp(u, u[1] as int + 2), tag, m - 1);
    }
  }

  lemma {:induction false} EndSettles(kept: seq<Byte>, u: seq<Byte>, tag: Byte, n: nat, t: Place) returns (m: nat)
    requires EndsAt(Place(kept, u), tag, n, t) && |t.kept| == |kept|
    ensures Settles(u, tag, m)
    decreases n
  {
    if Breaks(u, tag) {
      m := 0;
    } else {
      var s := Turn(Place(kept, u), tag);
      assert u[0] == tag;
      m := EndSettles(kept, s.rest, tag, n - 1, t);
      m := m + 1;
    }
  }

  /** The whole run, from the beginning of the area. */
  lemma ThroughArea(a: seq<Byte>, tag: Byte) returns (m: nat)
    ensures After(Place([], a), tag, m) == Place(EncodeAll(Without(Items(a), tag)), Left(Items(a), Tail(a), tag))
  {
    hide EncodeAll, Items, Tail, Without, Left;
    ItemsAndTail(a);
    m := ThroughItems([], Items(a), Tail(a), tag);
    assert [] + EncodeAll(Without(Items(a), tag)) == EncodeAll(Without(Items(a), tag));
  }

  /** The loop ends having kept exactly the items with other tags if and only if the area is clean. */
  lemma DeletesExactly(a: seq<Byte>, tag: Byte)
    ensures Clean(a, tag) <==> exists n: nat, t :: EndsAt(Place([], a), tag, n, t) && t.kept == EncodeAll(Without(Items(a), tag))
  {
    hide After, EncodeAll, Items, Tail, Without, Left, Settles, Breaks;
    var k := ThroughArea(a, tag);
    var w, r := EncodeAll(Without(Items(a), tag)), Left(Items(a), Tail(a), tag);
    if m: nat :| Settles(r, tag, m) {
      var t := SettlesEnds(w, r, tag, m);
      AfterSum(Place([], a), tag, k, m);
      assert EndsAt(Place([], a), tag, k + m, t);
    }
    if n: nat, t :| EndsAt(Place([], a), tag, n, t) && t.kept == w {
      EndsLater(Place([], a), tag, n, k, t);
      var _ := EndSettles(w, r, tag, n, t);
    }
  }

  /** From any place on the way, the loop ends where it ends. */
  lemma EndsLater(s: Place, tag: Byte, n: nat, k: nat, t: Place)
    requires EndsAt(s, tag, n, t)
    ensures EndsAt(After(s, tag, k), tag, n, t)
  {
    AfterSum(s, tag, k, n);
    AfterSum(s, tag, n, k);
  }

  /** If what is left does not begin with the tag, it has to make the loop break at once. */
  lemma CleanIff(a: seq<Byte>, tag: Byte)
    requires var r := Left(Items(a), Tail(a), tag); |r| > 0 ==> r[0] != tag
    ensures Clean(a, tag) <==> Stops(Left(Items(a), Tail(a), tag))
  {
    var r := Left(Items(a), Tail(a), tag);
    hide Left, Items, Tail;
    if Stops(r) { assert Settles(r, tag, 0); }
  }

  /** So a run that ends has kept exactly those items if and only if the area is clean. */
  lemma KeepsExactly(a: seq<Byte>, tag: Byte, n: nat)
    requires Breaks(After(Place([], a), tag, n).rest, tag)
    ensures After(Place([], a), tag, n).kept == EncodeAll(Without(Items(a), tag)) <==> Clean(a, tag)
  {
    hide After, Breaks, EncodeAll, Items, Without, Clean;
    DeletesExactly(a, tag);
    var t := After(Place([], a), tag, n);
    assert EndsAt(Place([], a), tag, n, t);
    if m: nat, u :| EndsAt(Place([], a), tag, m, u) && u.kept == EncodeAll(Without(Items(a), tag)) {
      EndUnique(Place([], a), tag, n, t, m, u);
    }
  }

  /** And if what is left does not begin with the tag, if and only if that stops the loop. */
  lemma KeepsIffStops(a: seq<Byte>, tag: Byte, n: nat)
    requires Breaks(After(Place([], a), tag, n).rest, tag)
    requires var r := Left(Items(a), Tail(a), tag); |r| > 0 ==> r[0] != tag
    ensures After(Place([], a), tag, n).kept == EncodeAll(Without(Items(a), tag)) <==> Stops(Left(Items(a), Tail(a), tag))
  {
    hide *;
    KeepsExactly(a, tag, n);
    CleanIff(a, tag);
  }

  /** An end mark behind the items is enough, and so is having nothing to move up. */
  lemma MovableClean(a: seq<Byte>, tag: Byte)
    requires tag != 0 && Movable(Items(a), Tail(a), tag)
    ensures Clean(a, tag)
  {
    ItemsAndTail(a);
    LeftMovable(Items(a), Tail(a), tag);
    assert Settles(Left(Items(a), Tail(a), tag), tag, 0);
  }

  lemma {:induction false} LeftMovable(items: seq<Item>, tail: seq<Byte>, tag: Byte)
    requires Legal(items) && Stops(tail) && tag != 0 && Movable(items, tail, tag)
    ensures Breaks(Left(items, tail, tag), tag)
    decreases |items|
  {
    if |items| > 0 {
      MovableRest(items, tail, tag);
      if items[0].tag != tag {
        LeftMovable(items[1..], tail, tag);
      } else if !(|items| == 1 && |tail| == 0) {
        LeftMovable(items[1..], tail + Stale(items[0], EncodeAll(items[1..]) + tail), tag);
      }
    }
  }

  lemma MovableRest(rest: seq<Item>, tail: seq<Byte>, tag: int)
    requires Movable(rest, tail, tag) && |rest| > 0
    ensures Movable(rest[1..], tail, tag)
    ensures rest[0].tag == tag ==> (|tail| > 0 && tail[0] == 0) || (|rest| == 1 && |tail| == 0)
  {
    var r := rest[1..];
    if HasTag(r, tag) {
      var i :| 0 <= i < |r| && r[i].tag == tag;
      assert rest[i + 1].tag == tag;
    }
    if |r| > 0 && HasTag(r[..|r| - 1], tag) {
      var i :| 0 <= i < |r| - 1 && r[i].tag == tag;
      assert rest[..|rest| - 1][i + 1].tag == tag;
    }
    if |rest| > 1 { assert rest[..|rest| - 1][0] == rest[0]; }
  }

  // ---- Areas on which it goes wrong ----

  lemma ItemsPrefix(items: seq<Item>, d: seq<Byte>)
    requires Legal(items)
    ensures Items(EncodeAll(items) + d) == items + Items(d)
  {
    hide Items, Tail, EncodeAll, Legal;
    ItemsAndTail(d);
    EncodeAppend(items, Items(d));
    Rearrange(EncodeAll(items), EncodeAll(Items(d)), Tail(d));
    ItemsOfEncoding(items + Items(d), Tail(d));
  }

  /**
   In a full area, deleting the first item leaves as many stale bytes at the end as it had, and the loop
   goes on to read them: unless they stop it, pieces of the last item turn into items of their own.
   */
  lemma StaleItems(items: seq<Item>, tag: Byte)
    requires Legal(items) && |items| > 1 && items[0].tag == tag
    ensures var a, n := EncodeAll(items), 2 + |items[0].data|;
            && n <= |a| && !Breaks(a, tag) && Turn(Place([], a), tag).kept == []
            && Items(Turn(Place([], a), tag).rest) == items[1..] + Items(a[|a| - n..])
  {
    EncodedItem(items, []);
    hide EncodeAll, Items, Encode, Breaks, Legal;
    var a, n, more := EncodeAll(items), 2 + |items[0].data|, EncodeAll(items[1..]);
    assert more + [] == more && a + [] == a;
    AtItem(items[0], more, tag);
    assert Turn(Place([], a), tag) == Place([], more + a[|a| - n..]);
    ItemsPrefix(items[1..], a[|a| - n..]);
  }

  function Phantom(): (items: seq<Item>)
    ensures Legal(items)
  {
    [Item(1, []), Item(2, Zeros(247)), Item(3, Zeros(245) + [9, 0])]
  }

  /**
   For example: a full area of three items whose first one is empty. Deleting that leaves the two bytes
   behind that end the last item, and they are kept as an item of tag 9, so no space is found free.
   */
  lemma PhantomKept()
    ensures var a := EncodeAll(Phantom());
            && |a| == ADV_LEN && Items(a) == Phantom() && Tail(a) == [] && !Clean(a, 1)
            && exists n: nat :: EndsAt(Place([], a), 1, n, Place(EncodeAll(Without(Phantom(), 1)) + [9, 0], []))
  {
    var items := Phantom();
    var a := EncodeAll(items);
    PhantomParts();
    hide Phantom, EncodeAll, Left, Items, Tail, Legal, Breaks, Stops, After, Clean;
    ItemsOfEncoding(items, []);
    assert a + [] == a;
    CleanIff(a, 1);
    var m := ThroughArea(a, 1);
    var w := EncodeAll(Without(items, 1));
    PhantomTurn(w);
    AfterSum(Place([], a), 1, m, 1);
    assert EndsAt(Place([], a), 1, m + 1, Place(w + [9, 0], []));
  }

  lemma PhantomTurn(w: seq<Byte>)
    ensures After(Place(w, [9, 0]), 1, 1) == Place(w + [9, 0], []) && Breaks([], 1) && !Stops([9, 0]) && Stops([])
  {
    assert Turn(Place(w, [9, 0]), 1) == Place(w + [9, 0], []);
  }

  lemma PhantomParts()
    ensures |EncodeAll(Phantom())| == ADV_LEN && Left(Phantom(), [], 1) == [9, 0]
  {
    var x, y, z := Item(1, []), Item(2, Zeros(247)), Item(3, Zeros(245) + [9, 0]);
    TwoItems(y, z);
    assert [x, y, z][1..] == [y, z] && [y, z][1..] == [z] && [z][1..] == [];
    EncodedItem([x, y, z], []);
    LeftItem([x, y, z], [], 1);
    LeftItem([y, z], [9, 0], 1);
    LeftItem([z], [9, 0], 1);
    hide EncodeAll;
    var d := EncodeAll([y, z]) + [];
    assert d == Encode(y) + Encode(z);
    assert Stale(x, d) == [9, 0];
    assert [] + [9, 0] == [9, 0];
    assert EncodeAll([x, y, z]) + [] == EncodeAll([x, y, z]);
  }

  lemma TwoItems(y: Item, z: Item)
    requires Legal([y, z]) && |y.data| < 256 && |z.data| < 256
    ensures EncodeAll([y, z]) == Encode(y) + Encode(z)
  {
    assert [y, z][0] == y && [y, z][1] == z;
    assert [y, z] == [y] + [z] && [z] == [z] + [];
    EncodeCons(z, []);
    EncodeCons(y, [z]);
    assert Encode(z) + [] == Encode(z);
  }

  /** Worse, an area full of empty items of the tag is the same after a deletion: the loop never ends. */
  lemma {:induction false} DeleteForever(a: seq<Byte>, tag: Byte, n: nat)
    requires |a| == ADV_LEN && tag != 0 && forall k :: 0 <= k < ADV_LEN ==> a[k] == if k % 2 == 0 then tag else 0
    ensures After(Place([], a), tag, n) == Place([], a) && !Breaks(a, tag)
    decreases n
  {
    assert MoveUp(a, 2) == a;
    if n > 0 { DeleteForever(a, tag, n - 1); }
  }
}
