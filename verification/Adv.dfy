/**
 The auxiliary data vector as libinstaller/setadv.c edits it in place: two copies in one buffer.
 */
module Adv {
  import opened Widths
  import opened Bytes
  import opened AdvSpec
  import opened AdvLoop

  datatype Result = Success | Invalid | NoSpace

  /** memmove of the rest of a buffer down over the n bytes at p; the last n bytes stay. */
  method MoveRest(a: array<Byte>, p: nat, n: nat, left: nat)
    requires p + left == a.Length && n <= left
    modifies a
    ensures a[..p] == old(a[..p]) && a[p..] == old(a[p + n..] + a[a.Length - n..])
  {
    ghost var was := a[..];
    var k := p;
    while k < a.Length - n
      invariant p <= k <= a.Length - n
      invariant forall j :: p <= j < k ==> a[j] == was[j + n]
      invariant forall j :: 0 <= j < p || k <= j < a.Length ==> a[j] == was[j]
    {
      a[k] := a[k + n];
      k := k + 1;
    }
    MovedRest(was, a[..], p, n);
  }

  // ---- The deletion loop ----

  /**
   The loop of syslinux_setadv: find the place to write to, deleting items with the tag on the way. It is
   followed for the n turns after which it breaks.
   */
  method Delete(tmp: array<Byte>, tag: Byte, ghost n: nat) returns (p: nat)
    requires tmp.Length == ADV_LEN && Breaks(After(Place([], tmp[..]), tag, n).rest, tag)
    modifies tmp
    ensures p <= ADV_LEN && Place(tmp[..p], tmp[p..]) == After(Place([], old(tmp[..])), tag, n)
  {
    hide After, Turn, Breaks, MoveUp;
    p := 0;
    var left := ADV_LEN;
    ghost var m := n;
    assert Place(tmp[..p], tmp[p..]) == Place([], tmp[..]);
    while left >= 2
      invariant 0 <= p <= ADV_LEN && left == ADV_LEN - p && 0 <= m
      invariant After(Place(tmp[..p], tmp[p..]), tag, m) == After(Place([], old(tmp[..])), tag, n)
      decreases m
    {
      ghost var was := tmp[..];
      TurnAt(was, p, tag, m);
      var ptag, plen := tmp[p], tmp[p + 1] as int + 2;
      if ptag == 0 {
        break;
      }
      if ptag == tag {
        if plen >= left {
          break;
        }
        MoveRest(tmp, p, plen, left);
      } else {
        if plen > left {
          break;
        }
        left := left - plen;
        p := p + plen;
      }
      m := m - 1;
    }
    if left < 2 { AtEnd(Place(tmp[..p], tmp[p..]), tag, m); }
  }

  lemma MovedRest(was: seq<Byte>, now: seq<Byte>, p: nat, n: nat)
    requires p + n <= |was| == |now| && (forall j :: p <= j < |was| - n ==> now[j] == was[j + n])
    requires forall j :: 0 <= j < p || |was| - n <= j < |was| ==> now[j] == was[j]
    ensures now[..p] == was[..p] && now[p..] == was[p + n..] + was[|was| - n..]
  {
  }

  lemma AtEnd(s: Place, tag: Byte, m: nat)
    requires |s.rest| < 2
    ensures After(s, tag, m) == s
  {
  }

  /** One turn, in terms of the working copy, with m more turns to go. */
  lemma TurnAt(a: seq<Byte>, p: nat, tag: Byte, m: nat)
    requires p + 2 <= |a| && Breaks(After(Place(a[..p], a[p..]), tag, m).rest, tag)
    ensures var n, s := a[p + 1] as int + 2, Place(a[..p], a[p..]);
            if a[p] == 0 || (if a[p] == tag then n >= |a| - p else n > |a| - p) then After(s, tag, m) == s
            else if a[p] == tag then m > 0 && After(s, tag, m) == After(Place(a[..p], a[p + n..] + a[|a| - n..]), tag, m - 1)
            else m > 0 && After(s, tag, m) == After(Place(a[..p + n], a[p + n..]), tag, m - 1)
  {
    hide After, Breaks;
    var n, u := a[p + 1] as int + 2, a[p..];
    assert u[0] == a[p] && u[1] == a[p + 1];
    TurnOn(a[..p], u, tag, m);
    if n <= |u| {
      SuffixParts(a, p, n);
    }
  }

  lemma SuffixParts(a: seq<Byte>, p: nat, n: nat)
    requires p + n <= |a|
    ensures a[p..][n..] == a[p + n..] && a[p..][|a| - p - n..] == a[|a| - n..] && a[..p] + a[p..][..n] == a[..p + n]
  {
  }

  lemma TurnOn(kept: seq<Byte>, u: seq<Byte>, tag: Byte, m: nat)
    requires |u| >= 2 && Breaks(After(Place(kept, u), tag, m).rest, tag)
    ensures var n, s := u[1] as int + 2, Place(kept, u);
            if u[0] == 0 || (if u[0] == tag then n >= |u| else n > |u|) then After(s, tag, m) == s
            else if u[0] == tag then m > 0 && After(s, tag, m) == After(Place(kept, u[n..] + u[|u| - n..]), tag, m - 1)
            else m > 0 && After(s, tag, m) == After(Place(kept + u[..n], u[n..]), tag, m - 1)
  {
    hide After, Turn, Breaks;
    AfterTurn(Place(kept, u), tag, m);
    TurnIs(kept, u, tag);
  }

  lemma TurnIs(kept: seq<Byte>, u: seq<Byte>, tag: Byte)
    requires |u| >= 2
    ensures Breaks(u, tag) <==> u[0] == 0 || (var n := u[1] as int + 2; if u[0] == tag then n >= |u| else n > |u|)
    ensures !Breaks(u, tag) ==>
              var n := u[1] as int + 2;
              Turn(Place(kept, u), tag) == if u[0] == tag then Place(kept, u[n..] + u[|u| - n..]) else Place(kept + u[..n], u[n..])
  {
  }

  // ---- Writing the new item ----

  /** A data area that begins with d and is zero behind it. */
  function Padded(d: seq<Byte>): (a: seq<Byte>)
    requires |d| <= ADV_LEN
    ensures |a| == ADV_LEN
  {
    d + Zeros(ADV_LEN - |d|)
  }

  /** A data area that holds the items. */
  function Area(items: seq<Item>): (d: seq<Byte>)
    requires Legal(items) && |EncodeAll(items)| <= ADV_LEN
    ensures |d| == ADV_LEN
  {
    Padded(EncodeAll(items))
  }

  /** Such an area reads back as the items, and the next deletion may rely on its end. */
  lemma AreaItems(items: seq<Item>)
    requires Legal(items) && |EncodeAll(items)| <= ADV_LEN
    ensures Items(Area(items)) == items && Tail(Area(items)) == Zeros(ADV_LEN - |EncodeAll(items)|)
    ensures |EncodeAll(items)| < ADV_LEN ==> forall tag :: Movable(items, Tail(Area(items)), tag)
  {
    hide EncodeAll, Items, Tail, Legal, HasTag;
    ItemsOfEncoding(items, Zeros(ADV_LEN - |EncodeAll(items)|));
  }

  /** The bytes of the items after an update. */
  lemma UpdatedBytes(items: seq<Item>, tag: Byte, data: seq<Byte>)
    requires Legal(items) && tag != 0 && |data| < 256
    ensures EncodeAll(Updated(items, tag, data)) == EncodeAll(Without(items, tag)) + NewItem(tag, data)
  {
    if |data| > 0 {
      EncodeAppend(Without(items, tag), [Item(tag, data)]);
      assert [Item(tag, data)][1..] == [];
    } else {
      assert Without(items, tag) + [] == Without(items, tag);
    }
  }

  /** The bytes of a new item; no data means no item. */
  function NewItem(tag: Byte, data: seq<Byte>): seq<Byte>
    requires |data| < 256
  {
    if |data| == 0 then [] else [tag, |data|] + data
  }

  /** syslinux_setadv on the working copy. */
  method Edit(tmp: array<Byte>, tag: Byte, data: seq<Byte>, ghost n: nat) returns (ok: bool)
    requires tmp.Length == ADV_LEN && |data| < 256 && Breaks(After(Place([], tmp[..]), tag, n).rest, tag)
    modifies tmp
    ensures ok <==> |After(Place([], old(tmp[..])), tag, n).kept + NewItem(tag, data)| <= ADV_LEN
    ensures ok ==> tmp[..] == Padded(After(Place([], old(tmp[..])), tag, n).kept + NewItem(tag, data))
  {
    hide After, Breaks;
    var p := Delete(tmp, tag, n);
    if |data| > 0 {
      if ADV_LEN - p < |data| + 2 {
        return false;
      }
      p := Append(tmp, p, [tag, |data|] + data);
    } else {
      assert tmp[..p] + [] == tmp[..p];
    }
    var _ := Append(tmp, p, Zeros(ADV_LEN - p));
    assert tmp[..ADV_LEN] == tmp[..];
    return true;
  }

  method Append(tmp: array<Byte>, p: nat, d: seq<Byte>) returns (q: nat)
    requires p + |d| <= tmp.Length
    modifies tmp
    ensures q == p + |d| && tmp[..q] == old(tmp[..p]) + d
  {
    CopyIn(tmp, p, d);
    q := p + |d|;
    assert tmp[..q] == tmp[..p] + tmp[p..q];
  }

  // ---- The frame ----

  method Set32(adv: array<Byte>, at: nat, v: nat)
    requires at + 4 <= adv.Length && v < WRAP
    modifies adv
    ensures adv[at..at + 4] == Put32(v) && forall j :: 0 <= j < adv.Length && !(at <= j < at + 4) ==> adv[j] == old(adv[j])
  {
    CopyIn(adv, at, Put32(v));
  }

  /** cleanup_adv: sign and checksum the first copy, and make the second one the same. */
  method Cleanup(adv: array<Byte>)
    requires adv.Length == 2 * ADV_SIZE
    modifies adv
    ensures adv[..ADV_SIZE] == adv[ADV_SIZE..] == Framed(old(adv[8..8 + ADV_LEN]))
  {
    hide Framed;
    Frame(adv);
    CopyIn(adv, ADV_SIZE, adv[..ADV_SIZE]);
    SecondCopy(adv[..]);
  }

  lemma SecondCopy(a: seq<Byte>)
    requires |a| == 2 * ADV_SIZE
    ensures a[ADV_SIZE..] == a[ADV_SIZE..ADV_SIZE + ADV_SIZE]
  {
  }

  /** The first copy: signatures, and the checksum that makes the sum come out right. */
  method Frame(adv: array<Byte>)
    requires adv.Length == 2 * ADV_SIZE
    modifies adv
    ensures adv[..ADV_SIZE] == Framed(old(adv[8..8 + ADV_LEN]))
  {
    hide Get32, Put32, WordSum;
    ghost var a := adv[..];
    Set32(adv, 0, MAGIC1);
    ghost var b := adv[..];
    var csum := Sum(adv, 0, 8);
    csum := (MAGIC2 - csum) % WRAP;
    Set32(adv, 4, csum);
    ghost var c := adv[..];
    Set32(adv, ADV_SIZE - 4, MAGIC3);
    SumOfArea(a, b, csum);
    FrameWritten(a, b, c, adv[..], csum);
  }

  /** The sum over a copy is that over its data area. */
  lemma SumOfArea(a: seq<Byte>, b: seq<Byte>, csum: nat)
    requires |a| == |b| == 2 * ADV_SIZE && (forall j :: 4 <= j < |a| ==> b[j] == a[j])
    requires csum == (MAGIC2 - (WordSum(b[..ADV_SIZE], 8) % WRAP) as int) % WRAP
    ensures csum == Checksum(Zeros(8) + a[8..8 + ADV_LEN] + Zeros(4))
  {
    hide Get32, WordSum;
    var area := a[8..8 + ADV_LEN];
    var body := Zeros(8) + area + Zeros(4);
    assert b[..ADV_SIZE][8..8 + ADV_LEN] == area && body[8..8 + ADV_LEN] == area;
    SumDepends(b[..ADV_SIZE], body, 8);
    SubtractSum(MAGIC2, WordSum(body, 8));
  }

  /** The three words around the data area, written one after the other. */
  lemma FrameWritten(a: seq<Byte>, b: seq<Byte>, c: seq<Byte>, d: seq<Byte>, csum: nat)
    requires |a| == |b| == |c| == |d| == 2 * ADV_SIZE && csum == Checksum(Zeros(8) + a[8..8 + ADV_LEN] + Zeros(4)) < WRAP
    requires b[0..4] == Put32(MAGIC1) && forall j :: 4 <= j < |a| ==> b[j] == a[j]
    requires c[4..8] == Put32(csum) && forall j :: 0 <= j < |a| && !(4 <= j < 8) ==> c[j] == b[j]
    requires d[508..512] == Put32(MAGIC3) && forall j :: 0 <= j < |a| && !(508 <= j < 512) ==> d[j] == c[j]
    ensures d[..ADV_SIZE] == Framed(a[8..8 + ADV_LEN])
  {
    hide Checksum, Put32;
    var e := d[..ADV_SIZE];
    assert e[0..4] == b[0..4];
    assert e[4..8] == c[4..8];
    assert e[8..8 + ADV_LEN] == a[8..8 + ADV_LEN];
    assert e[508..512] == d[508..512];
    Quarters(e);
  }

  /** The checksum loops: the sum of the words from k on, in 32-bit arithmetic. */
  method Sum(adv: array<Byte>, at: nat, from: nat) returns (csum: nat)
    requires at + ADV_SIZE <= adv.Length && from % 4 == 0 && from <= ADV_SIZE - 4
    ensures csum == WordSum(adv[at..at + ADV_SIZE], from) % WRAP
  {
    hide Get32;
    ghost var d := adv[at..at + ADV_SIZE];
    csum := 0;
    var i := from;
    while i < ADV_SIZE - 4
      invariant from <= i <= ADV_SIZE - 4 && i % 4 == 0 && csum < WRAP
      invariant (csum + WordSum(d, i)) % WRAP == WordSum(d, from) % WRAP
    {
      var w := Get32(adv[at + i..at + i + 4], 0);
      SameWord(d, i, adv[at + i..at + i + 4]);
      AddWord(csum, w, WordSum(d, i + 4));
      csum := (csum + w) % WRAP;
      i := i + 4;
    }
  }

  lemma AddWord(c: nat, w: nat, s: nat)
    ensures ((c + w) % WRAP + s) % WRAP == (c + (w + s)) % WRAP
  {
    var q := (c + w) / WRAP;
    assert (c + w) % WRAP == c + w - WRAP * q;
    ModShift(c + w + s, q);
  }

  lemma ModShift(x: nat, q: nat)
    requires WRAP * q <= x
    ensures (x - WRAP * q) % WRAP == x % WRAP
  {
    var p := x / WRAP;
    assert x == WRAP * p + x % WRAP;
    assert x - WRAP * q == WRAP * (p - q) + x % WRAP;
  }

  lemma SubtractSum(m: nat, s: nat)
    ensures (m - (s % WRAP) as int) % WRAP == (m - s as int) % WRAP
  {
    var q := s / WRAP;
    assert s % WRAP == s - WRAP * q;
    assert m - (s % WRAP) as int == m - s as int + WRAP * q;
  }

  // ---- The interface ----

  /** The data area of a copy. */
  function DataOf(copy: seq<Byte>): seq<Byte>
    requires |copy| == ADV_SIZE
  {
    copy[8..8 + ADV_LEN]
  }

  /** syslinux_setadv, followed for the n turns of its loop. */
  method SetAdv(adv: array<Byte>, tag: int, data: seq<Byte>, ghost n: nat) returns (r: Result)
    requires adv.Length == 2 * ADV_SIZE
    requires 1 <= tag <= 255 && |data| <= 255 ==> Breaks(After(Place([], adv[8..8 + ADV_LEN]), tag, n).rest, tag)
    modifies adv
    ensures r == Invalid <==> !(1 <= tag <= 255)
    ensures r == NoSpace <==> 1 <= tag <= 255 &&
                              (|data| > 255 || |After(Place([], old(adv[8..8 + ADV_LEN])), tag, n).kept + NewItem(tag, data)| > ADV_LEN)
    ensures r != Success ==> adv[..] == old(adv[..])
    ensures r == Success ==>
              adv[..ADV_SIZE] == adv[ADV_SIZE..] ==
              Framed(Padded(After(Place([], old(adv[8..8 + ADV_LEN])), tag, n).kept + NewItem(tag, data)))
  {
    if tag < 1 || tag > 255 {
      return Invalid;
    }
    if |data| > 255 {
      return NoSpace;
    }
    hide Framed, After, Breaks, NewItem, Padded;
    var tmp := new Byte[ADV_LEN](_ => 0);
    CopyIn(tmp, 0, adv[8..8 + ADV_LEN]);
    assert tmp[..] == adv[8..8 + ADV_LEN];
    var ok := Edit(tmp, tag, data, n);
    if !ok {
      return NoSpace;
    }
    CopyIn(adv, 8, tmp[..]);
    Cleanup(adv);
    return Success;
  }

  /**
   So the bytes it writes are those of the updated items, whatever the new data are, if and only if the
   area is clean for the tag.
   */
  lemma SetsExactly(area: seq<Byte>, tag: Byte, data: seq<Byte>, n: nat)
    requires tag != 0 && |data| < 256 && Breaks(After(Place([], area), tag, n).rest, tag)
    ensures After(Place([], area), tag, n).kept + NewItem(tag, data) == EncodeAll(Updated(Items(area), tag, data)) <==> Clean(area, tag)
  {
    hide After, Breaks, EncodeAll, Items, Without, Updated, Clean, NewItem;
    UpdatedBytes(Items(area), tag, data);
    KeepsExactly(area, tag, n);
    SameFront(After(Place([], area), tag, n).kept, EncodeAll(Without(Items(area), tag)), NewItem(tag, data));
  }

  lemma SameFront(a: seq<Byte>, b: seq<Byte>, c: seq<Byte>)
    ensures a + c == b + c <==> a == b
  {
    if a + c == b + c {
      assert (a + c)[..|a|] == a && (b + c)[..|b|] == b;
    }
  }

  /** On a clean area it ends. */
  lemma CleanEnds(area: seq<Byte>, tag: Byte) returns (n: nat)
    requires Clean(area, tag)
    ensures Breaks(After(Place([], area), tag, n).rest, tag)
  {
    hide Clean;
    DeletesExactly(area, tag);
    var m: nat, t :| EndsAt(Place([], area), tag, m, t);
    n := m;
  }

  /** syslinux_reset_adv. */
  method ResetAdv(adv: array<Byte>)
    requires adv.Length == 2 * ADV_SIZE
    modifies adv
    ensures adv[..ADV_SIZE] == adv[ADV_SIZE..] == Framed(Area([]))
  {
    hide Framed;
    CopyIn(adv, 8, Zeros(ADV_LEN));
    assert Area([]) == Zeros(ADV_LEN);
    Cleanup(adv);
  }

  /** adv_consistent, for the copy at the given offset. */
  method AdvConsistent(adv: array<Byte>, at: nat) returns (ok: bool)
    requires at + ADV_SIZE <= adv.Length
    ensures ok <==> Consistent(adv[at..at + ADV_SIZE])
  {
    hide Get32, WordSum;
    ghost var d := adv[at..at + ADV_SIZE];
    SameWord(d, 0, adv[at..at + 4]);
    SameWord(d, ADV_SIZE - 4, adv[at + ADV_SIZE - 4..at + ADV_SIZE]);
    if Get32(adv[at..at + 4], 0) != MAGIC1 || Get32(adv[at + ADV_SIZE - 4..at + ADV_SIZE], 0) != MAGIC3 {
      return false;
    }
    var csum := Sum(adv, at, 4);
    return csum == MAGIC2;
  }

  /** syslinux_validate_adv: a copy that passes its check is kept, the first one if both do. */
  method ValidateAdv(adv: array<Byte>) returns (ok: bool)
    requires adv.Length == 2 * ADV_SIZE
    modifies adv
    ensures adv[..ADV_SIZE] == adv[ADV_SIZE..] && Consistent(adv[..ADV_SIZE])
    ensures ok <==> old(Consistent(adv[..ADV_SIZE]) || Consistent(adv[ADV_SIZE..]))
    ensures adv[..ADV_SIZE] == if old(Consistent(adv[..ADV_SIZE])) then old(adv[..ADV_SIZE])
                               else if old(Consistent(adv[ADV_SIZE..])) then old(adv[ADV_SIZE..])
                               else Framed(Area([]))
  {
    hide Consistent, Framed;
    assert adv[0..0 + ADV_SIZE] == adv[..ADV_SIZE] && adv[ADV_SIZE..ADV_SIZE + ADV_SIZE] == adv[ADV_SIZE..];
    var first := AdvConsistent(adv, 0);
    if first {
      ghost var kept := adv[..ADV_SIZE];
      CopyIn(adv, ADV_SIZE, adv[..ADV_SIZE]);
      assert adv[..ADV_SIZE] == kept && adv[ADV_SIZE..] == adv[ADV_SIZE..ADV_SIZE + ADV_SIZE];
      return true;
    }
    var second := AdvConsistent(adv, ADV_SIZE);
    if second {
      ghost var kept := adv[ADV_SIZE..];
      CopyIn(adv, 0, adv[ADV_SIZE..]);
      assert adv[ADV_SIZE..] == kept && adv[..ADV_SIZE] == adv[0..0 + ADV_SIZE];
      return true;
    }
    ResetAdv(adv);
    FramedConsistent(Area([]));
    return false;
  }

  /** What a successful update leaves passes the check and reads back as the updated items. */
  lemma SetThenRead(items: seq<Item>)
    requires Legal(items) && |EncodeAll(items)| <= ADV_LEN
    ensures Consistent(Framed(Area(items))) && Items(DataOf(Framed(Area(items)))) == items
  {
    FramedConsistent(Area(items));
    AreaItems(items);
  }
}
