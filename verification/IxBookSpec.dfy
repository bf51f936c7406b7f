/** Where each rule of a user access list belongs in the hardware, as a function of nothing but the
    order in which the rules were bound. */
module IxBookSpec {
  import opened Common

  datatype ActType = Acl | Policy | PolicyRoute | Other

  datatype Interface = Vlan(vid: int) | Port(pid: int)
  datatype Dest = Ingress | Egress

  datatype Key = Key(name: string, act: ActType, num: int, iface: Interface, dest: Dest)

  datatype Binding = Binding(key: Key, ix: int)

  type Bindings = seq<Binding>

  /** The zone of an action type; a rule's type decides where it goes. */
  function Zone(a: ActType): nat {
    match a
    case Acl => 0
    case Policy => 1
    case PolicyRoute => 2
    case Other => 3
  }

  function Keys(bs: Bindings): (ks: seq<Key>)
    ensures |ks| == |bs| && forall p | 0 <= p < |bs| :: ks[p] == bs[p].key
  {
    seq(|bs|, p requires 0 <= p < |bs| => bs[p].key)
  }

  /** How many keys belong to zone `z`. */
  function Count(ks: seq<Key>, z: nat): nat {
    if ks == [] then 0
    else Count(ks[..|ks| - 1], z) + if Zone(ks[|ks| - 1].act) == z then 1 else 0
  }

  /** How many keys belong to zones below `z`. */
  function Below(ks: seq<Key>, z: nat): nat {
    if z == 0 then 0 else Below(ks, z - 1) + Count(ks, z - 1)
  }

  /** The place of the `p`-th key: after all lower zones and all earlier keys of its own. */
  function Place(ks: seq<Key>, p: nat): nat
    requires p < |ks|
  {
    Below(ks, Zone(ks[p].act)) + Count(ks[..p], Zone(ks[p].act))
  }

  /** The order of the places. */
  predicate Before(ks: seq<Key>, p: nat, q: nat)
    requires p < |ks| && q < |ks|
  {
    Zone(ks[p].act) < Zone(ks[q].act) || (ks[p].act == ks[q].act && p < q)
  }

  lemma {:induction false} CountMono(ks: seq<Key>, z: nat, p: nat, q: nat)
    requires p <= q <= |ks|
    ensures Count(ks[..p], z) <= Count(ks[..q], z)
    ensures p < q && Zone(ks[p].act) == z ==> Count(ks[..p], z) < Count(ks[..q], z)
  {
    if p < q {
      assert ks[..q][..q - 1] == ks[..q - 1];
      CountMono(ks, z, p, q - 1);
    }
  }

  lemma {:induction false} BelowMono(ks: seq<Key>, y: nat, z: nat)
    requires y < z
    ensures Below(ks, y) + Count(ks, y) <= Below(ks, z)
  {
    if y < z - 1 { BelowMono(ks, y, z - 1); }
  }

  /** Every place lies in its zone. */
  lemma {:induction false} PlaceInZone(ks: seq<Key>, p: nat)
    requires p < |ks|
    ensures var z := Zone(ks[p].act); Below(ks, z) <= Place(ks, p) < Below(ks, z) + Count(ks, z)
  {
    CountMono(ks, Zone(ks[p].act), p, |ks|);
    assert ks[..|ks|] == ks;
  }

  /** Places follow the order of zones, and within a zone the order in which keys came. */
  lemma {:induction false} PlaceOrder(ks: seq<Key>, p: nat, q: nat)
    requires p < |ks| && q < |ks|
    ensures Place(ks, p) < Place(ks, q) <==> Before(ks, p, q)
    ensures Place(ks, p) == Place(ks, q) <==> p == q
  {
    PlaceInZone(ks, p);
    PlaceInZone(ks, q);
    var y, z := Zone(ks[p].act), Zone(ks[q].act);
    if y < z {
      BelowMono(ks, y, z);
    } else if z < y {
      BelowMono(ks, z, y);
    } else if p < q {
      CountMono(ks, z, p, q);
    } else {
      CountMono(ks, z, q, p);
    }
  }

  /** A zone is below `z` exactly when its places are. */
  lemma {:induction false} PlaceBelow(ks: seq<Key>, p: nat, z: nat)
    requires p < |ks|
    ensures Place(ks, p) < Below(ks, z) <==> Zone(ks[p].act) < z
  {
    PlaceInZone(ks, p);
    var y := Zone(ks[p].act);
    if y < z {
      BelowMono(ks, y, z);
    } else if z < y {
      BelowMono(ks, z, y);
    }
  }

  lemma {:induction false} CountNth(ks: seq<Key>, z: nat, n: nat) returns (p: nat)
    requires n < Count(ks, z)
    ensures p < |ks| && Zone(ks[p].act) == z && Count(ks[..p], z) == n
  {
    var m := |ks| - 1;
    if Zone(ks[m].act) == z && Count(ks[..m], z) == n {
      p := m;
    } else {
      p := CountNth(ks[..m], z, n);
      assert ks[..m][..p] == ks[..p];
    }
  }

  lemma {:induction false} CountAll(ks: seq<Key>)
    requires forall k | k in ks :: !k.act.Other?
    ensures Count(ks, 0) + Count(ks, 1) + Count(ks, 2) == |ks| && Below(ks, 3) == |ks|
  {
    if ks != [] {
      CountAll(ks[..|ks| - 1]);
      assert ks[|ks| - 1] in ks;
    }
    assert Below(ks, 3) == Below(ks, 2) + Count(ks, 2) && Below(ks, 2) == Below(ks, 1) + Count(ks, 1);
  }

  /** Places are a bijection between the keys and the first `|ks|` slots. */
  lemma {:induction false} PlaceOnto(ks: seq<Key>, i: nat) returns (p: nat)
    requires (forall k | k in ks :: !k.act.Other?) && i < |ks|
    ensures p < |ks| && Place(ks, p) == i
    ensures forall q: nat | q < |ks| && Place(ks, q) == i :: q == p
  {
    CountAll(ks);
    assert Below(ks, 2) == Below(ks, 1) + Count(ks, 1) && Below(ks, 1) == Count(ks, 0);
    var z := if i < Below(ks, 1) then 0 else if i < Below(ks, 2) then 1 else 2;
    p := CountNth(ks, z, i - Below(ks, z));
    forall q: nat | q < |ks| && Place(ks, q) == i
      ensures q == p
    {
      PlaceOrder(ks, p, q);
    }
  }

  lemma {:induction false} PlaceInside(ks: seq<Key>, p: nat)
    requires (forall k | k in ks :: !k.act.Other?) && p < |ks|
    ensures Place(ks, p) < |ks|
  {
    CountAll(ks);
    assert ks[p] in ks;
    PlaceBelow(ks, p, 3);
  }

  // ---------------------------------------------------------------------------
  // Binding a key, and letting one go
  // ---------------------------------------------------------------------------

  lemma {:induction false} CountPush(ks: seq<Key>, k: Key, z: nat)
    ensures Count(ks + [k], z) == Count(ks, z) + if Zone(k.act) == z then 1 else 0
  {
    assert (ks + [k])[..|ks|] == ks;
  }

  lemma {:induction false} BelowPush(ks: seq<Key>, k: Key, z: nat)
    ensures Below(ks + [k], z) == Below(ks, z) + if Zone(k.act) < z then 1 else 0
  {
    if z > 0 {
      BelowPush(ks, k, z - 1);
      CountPush(ks, k, z - 1);
    }
  }

  /** A new key moves up the places of all higher zones, and goes right below them. */
  lemma {:induction false} PlacePush(ks: seq<Key>, k: Key, p: nat)
    requires p <= |ks|
    ensures p < |ks| ==> Place(ks + [k], p) ==
                         Place(ks, p) + if Place(ks, p) >= Below(ks, Zone(k.act) + 1) then 1 else 0
    ensures p == |ks| ==> Place(ks + [k], p) == Below(ks, Zone(k.act) + 1)
  {
    if p < |ks| {
      assert (ks + [k])[..p] == ks[..p];
      BelowPush(ks, k, Zone(ks[p].act));
      PlaceBelow(ks, p, Zone(k.act) + 1);
    } else {
      assert (ks + [k])[..p] == ks;
      BelowPush(ks, k, Zone(k.act));
    }
  }

  function Without(ks: seq<Key>, r: nat): seq<Key>
    requires r < |ks|
  {
    ks[..r] + ks[r + 1..]
  }

  lemma {:induction false} CountWithout(ks: seq<Key>, r: nat, z: nat)
    requires r < |ks|
    ensures Count(Without(ks, r), z) == Count(ks, z) - if Zone(ks[r].act) == z then 1 else 0
  {
    hide Zone;
    var m := |ks| - 1;
    var w := Without(ks, r);
    if r < m {
      var n := m - 1;
      CountWithout(ks[..m], r, z);
      assert |w| == m && w[..n] == Without(ks[..m], r) && w[n] == ks[m] && ks[..m][r] == ks[r];
    } else {
      assert w == ks[..m];
    }
  }

  lemma {:induction false} BelowWithout(ks: seq<Key>, r: nat, z: nat)
    requires r < |ks|
    ensures Below(Without(ks, r), z) == Below(ks, z) - if Zone(ks[r].act) < z then 1 else 0
  {
    hide Without, Count;
    if z > 0 {
      BelowWithout(ks, r, z - 1);
      CountWithout(ks, r, z - 1);
    }
  }

  lemma {:induction false} WithoutPrefix(ks: seq<Key>, r: nat, p: nat)
    requires r < |ks| && p < |ks|
    ensures p < r ==> Without(ks, r)[p] == ks[p] && Without(ks, r)[..p] == ks[..p]
    ensures p > r ==> Without(ks, r)[p - 1] == ks[p] && Without(ks, r)[..p - 1] == Without(ks[..p], r)
  {
  }

  /** A key let go moves down every place above its own. */
  lemma {:induction false} PlaceWithout(ks: seq<Key>, r: nat, p: nat)
    requires r < |ks| && p < |ks| && p != r
    ensures Place(Without(ks, r), if p < r then p else p - 1) ==
            Place(ks, p) - if Place(ks, p) > Place(ks, r) then 1 else 0
  {
    hide Count, Below;
    WithoutPrefix(ks, r, p);
    BelowWithout(ks, r, Zone(ks[p].act));
    PlaceOrder(ks, r, p);
    if p > r { CountWithout(ks[..p], r, Zone(ks[p].act)); }
  }

  // ---------------------------------------------------------------------------
  // Bindings and the hardware
  // ---------------------------------------------------------------------------

  predicate Distinct(ks: seq<Key>) {
    forall p, q | 0 <= p < q < |ks| :: ks[p] != ks[q]
  }

  /** No key twice, and each in one of the three zones. */
  ghost predicate ProperKeys(ks: seq<Key>) {
    Distinct(ks) && forall k | k in ks :: !k.act.Other?
  }

  lemma {:induction false} ProperPush(ks: seq<Key>, k: Key)
    requires ProperKeys(ks) && k !in ks && !k.act.Other?
    ensures ProperKeys(ks + [k])
  {
  }

  lemma {:induction false} ProperWithout(ks: seq<Key>, r: nat)
    requires ProperKeys(ks) && r < |ks|
    ensures ProperKeys(Without(ks, r))
  {
  }

  /** Every binding carries the index of its place. */
  ghost predicate Indexed(bs: Bindings, start: int) {
    forall p | 0 <= p < |bs| :: bs[p].ix == start + Place(Keys(bs), p)
  }

  /** The slot of every rule that was written holds that rule, of every other binding nothing, and
      from the last binding on there is nothing. */
  ghost predicate Mirrored(bs: Bindings, start: int, end: int, tcam: seq<Option<Key>>, written: set<Key>) {
    && (forall p | 0 <= p < |bs| ::
          && 0 <= bs[p].ix < |tcam|
          && tcam[bs[p].ix] == if bs[p].key in written then Some(bs[p].key) else None)
    && 0 <= start && end <= |tcam|
    && (forall i | start + |bs| <= i < end :: tcam[i] == None)
  }

  /** One rule renumbered. */
  function Edited(bs: Bindings, o: int, n: int): (r: Bindings)
    ensures |r| == |bs|
  {
    seq(|bs|, p requires 0 <= p < |bs| => if bs[p].ix == o then bs[p].(ix := n) else bs[p])
  }

  /** Indices from `lo` on, and below `top`, one up. */
  function ShiftedUp(bs: Bindings, lo: int, top: int): (r: Bindings)
    ensures |r| == |bs|
  {
    seq(|bs|, p requires 0 <= p < |bs| => if lo <= bs[p].ix < top then bs[p].(ix := bs[p].ix + 1) else bs[p])
  }

  /** Indices above `lo`, and up to `top`, one down. */
  function ShiftedDown(bs: Bindings, lo: int, top: int): (r: Bindings)
    ensures |r| == |bs|
  {
    seq(|bs|, p requires 0 <= p < |bs| => if lo < bs[p].ix <= top then bs[p].(ix := bs[p].ix - 1) else bs[p])
  }

  /** Slots from `lo` on, and below `top`, one up; slot `lo` becomes empty. */
  function SlotsUp(t: seq<Option<Key>>, lo: int, top: int): (r: seq<Option<Key>>)
    requires 0 <= lo <= top < |t|
    ensures |r| == |t|
  {
    seq(|t|, i requires 0 <= i < |t| => if lo < i <= top then t[i - 1] else if i == lo && lo < top then None else t[i])
  }

  /** Slots above `lo`, and up to `top`, one down; slot `top` becomes empty. */
  function SlotsDown(t: seq<Option<Key>>, lo: int, top: int): (r: seq<Option<Key>>)
    requires 0 <= lo <= top < |t|
    ensures |r| == |t|
  {
    seq(|t|, i requires 0 <= i < |t| => if lo <= i < top then t[i + 1] else if i == top && lo < top then None else t[i])
  }

  /** The bindings after `k` is bound: it takes the slot right after its zone. */
  function Bound(bs: Bindings, start: int, k: Key): (r: Bindings)
    ensures |r| == |bs| + 1
  {
    var lo := start + Below(Keys(bs), Zone(k.act) + 1);
    ShiftedUp(bs, lo, start + |bs|) + [Binding(k, lo)]
  }

  lemma {:induction false} BoundSteps(bs: Bindings, start: int, k: Key, lo: int, d: Bindings)
    requires lo == start + Below(Keys(bs), Zone(k.act) + 1) && d == ShiftedUp(bs, lo, start + |bs|)
    ensures d + [Binding(k, lo)] == Bound(bs, start, k)
  {
  }

  /** Binding a key leaves every binding at its place. */
  lemma {:induction false} BoundIndexed(bs: Bindings, start: int, k: Key)
    requires Indexed(bs, start) && !k.act.Other? && ProperKeys(Keys(bs))
    ensures Keys(Bound(bs, start, k)) == Keys(bs) + [k]
    ensures Indexed(Bound(bs, start, k), start)
    ensures Below(Keys(bs), Zone(k.act) + 1) <= |bs| == Below(Keys(bs), 3)
  {
    hide Place, Below;
    var ks, cs := Keys(bs), Bound(bs, start, k);
    assert Keys(cs) == ks + [k];
    forall p | 0 <= p < |cs|
      ensures cs[p].ix == start + Place(ks + [k], p)
    {
      PlacePush(ks, k, p);
      if p < |bs| { PlaceInside(ks, p); }
    }
    CountAll(ks);
    BelowMax(ks, Zone(k.act) + 1);
  }

  lemma {:induction false} BelowMax(ks: seq<Key>, z: nat)
    requires z <= 3
    ensures Below(ks, z) <= Below(ks, 3)
  {
    if z < 3 { BelowMono(ks, z, 3); }
  }

  /** Binding a key moves every rule along with its index, and leaves the new slot empty. */
  lemma {:induction false} BoundMirrored(bs: Bindings, start: int, end: int, t: seq<Option<Key>>, w: set<Key>, k: Key)
    requires Indexed(bs, start) && !k.act.Other? && ProperKeys(Keys(bs))
    requires Mirrored(bs, start, end, t, w) && k !in Keys(bs)
    requires 0 <= start && start + |bs| < end <= |t|
    ensures var lo := start + Below(Keys(bs), Zone(k.act) + 1);
            0 <= lo <= start + |bs| && Mirrored(Bound(bs, start, k), start, end, SlotsUp(t, lo, start + |bs|), w - {k})
  {
    hide Place, Below, SlotsUp;
    BoundIndexed(bs, start, k);
    var lo, top, cs := start + Below(Keys(bs), Zone(k.act) + 1), start + |bs|, Bound(bs, start, k);
    forall p | 0 <= p < |bs|
      ensures start <= bs[p].ix < top && bs[p].key != k
    {
      PlaceInside(Keys(bs), p);
      assert Keys(bs)[p] == bs[p].key;
    }
    forall p | 0 <= p < |cs|
      ensures 0 <= cs[p].ix < |t|
      ensures SlotsUp(t, lo, top)[cs[p].ix] == if cs[p].key in w - {k} then Some(cs[p].key) else None
    {
      SlotUp(t, lo, top, if p < |bs| then bs[p].ix else lo);
    }
    forall i | start + |cs| <= i < end
      ensures SlotsUp(t, lo, top)[i] == None
    {
      SlotUp(t, lo, top, i);
    }
  }

  lemma {:induction false} SlotUp(t: seq<Option<Key>>, lo: int, top: int, i: int)
    requires 0 <= lo <= top < |t| && 0 <= i < |t|
    ensures lo <= i < top ==> SlotsUp(t, lo, top)[i + 1] == t[i]
    ensures i < lo || i > top ==> SlotsUp(t, lo, top)[i] == t[i]
    ensures t[top] == None ==> SlotsUp(t, lo, top)[lo] == None
  {
  }

  /** Writing the rule of the last binding into its slot. */
  lemma {:induction false} WrittenMirrored(bs: Bindings, start: int, end: int, t: seq<Option<Key>>, w: set<Key>)
    requires Indexed(bs, start) && Mirrored(bs, start, end, t, w) && |bs| > 0 && ProperKeys(Keys(bs))
    ensures var b := bs[|bs| - 1];
            && start <= b.ix < start + |bs| && 0 <= b.ix < |t|
            && Mirrored(bs, start, end, t[b.ix := Some(b.key)], w + {b.key})
  {
    hide Place;
    var n := |bs| - 1;
    PlaceInside(Keys(bs), n);
    forall p | 0 <= p < n
      ensures bs[p].ix != bs[n].ix && bs[p].key != bs[n].key
    {
      PlaceOrder(Keys(bs), p, n);
      assert Keys(bs)[p] != Keys(bs)[n];
    }
    var u, v := t[bs[n].ix := Some(bs[n].key)], w + {bs[n].key};
    forall p | 0 <= p < |bs|
      ensures u[bs[p].ix] == if bs[p].key in v then Some(bs[p].key) else None
    {
      assert p < n ==> (bs[p].key in v <==> bs[p].key in w);
    }
    assert bs[n].ix == start + Place(Keys(bs), n);
  }

  /** The bindings after the `r`-th is let go: what lies above its slot moves one down. */
  function Freed(bs: Bindings, start: int, r: nat): (c: Bindings)
    requires r < |bs|
    ensures |c| == |bs| - 1
  {
    var d := ShiftedDown(bs, bs[r].ix, start + |bs| - 1);
    d[..r] + d[r + 1..]
  }

  /** The key bound to `ix` at the end, and one up for every index not below it. */
  predicate OneUp(bs: Bindings, cs: Bindings, k: Key, ix: int) {
    && |cs| == |bs| + 1 && cs[|bs|] == Binding(k, ix)
    && forall p | 0 <= p < |bs| :: cs[p] == bs[p].(ix := if bs[p].ix >= ix then bs[p].ix + 1 else bs[p].ix)
  }

  /** A new key moves the indices from its own on up by one, and no other. */
  lemma {:induction false} BoundPlain(bs: Bindings, start: int, k: Key, ix: int)
    requires Indexed(bs, start) && ProperKeys(Keys(bs)) && Bound(bs, start, k)[|bs|] == Binding(k, ix)
    ensures OneUp(bs, Bound(bs, start, k), k, ix)
  {
    hide Place, Below;
    forall p | 0 <= p < |bs|
      ensures bs[p].ix < start + |bs|
    {
      PlaceInside(Keys(bs), p);
    }
  }

  lemma {:induction false} FreedSteps(bs: Bindings, start: int, r: nat, d: Bindings)
    requires r < |bs| && d == ShiftedDown(bs, bs[r].ix, start + |bs| - 1)
    ensures |d| == |bs| && d[..r] + d[r + 1..] == Freed(bs, start, r)
  {
  }

  lemma {:induction false} FreedIndexed(bs: Bindings, start: int, r: nat)
    requires Indexed(bs, start) && r < |bs| && ProperKeys(Keys(bs))
    ensures Keys(Freed(bs, start, r)) == Without(Keys(bs), r)
    ensures Indexed(Freed(bs, start, r), start)
  {
    hide Place;
    var ks, cs := Keys(bs), Freed(bs, start, r);
    assert Keys(cs) == Without(ks, r);
    forall q | 0 <= q < |cs|
      ensures cs[q].ix == start + Place(Without(ks, r), q)
    {
      var p := if q < r then q else q + 1;
      PlaceWithout(ks, r, p);
      PlaceInside(ks, p);
    }
  }

  /** Letting a binding go moves every other rule along with its index, and empties the top slot. */
  lemma {:induction false} FreedMirrored(bs: Bindings, start: int, end: int, t: seq<Option<Key>>, w: set<Key>, r: nat)
    requires Indexed(bs, start) && r < |bs| && ProperKeys(Keys(bs))
    requires Mirrored(bs, start, end, t, w)
    requires 0 <= start && start + |bs| <= end <= |t|
    ensures var ix, top := bs[r].ix, start + |bs| - 1;
            && 0 <= ix <= top < |t|
            && Mirrored(Freed(bs, start, r), start, end, SlotsDown(t[ix := None], ix, top), w - {bs[r].key})
  {
    hide Place, SlotsDown;
    var ix, top, cs := bs[r].ix, start + |bs| - 1, Freed(bs, start, r);
    PlaceInside(Keys(bs), r);
    var u := t[ix := None];
    forall q | 0 <= q < |cs|
      ensures 0 <= cs[q].ix < |t|
      ensures SlotsDown(u, ix, top)[cs[q].ix] == if cs[q].key in w - {bs[r].key} then Some(cs[q].key) else None
    {
      var p := if q < r then q else q + 1;
      PlaceInside(Keys(bs), p);
      PlaceOrder(Keys(bs), p, r);
      assert Keys(bs)[p] != Keys(bs)[r];
      SlotDown(u, ix, top, bs[p].ix);
    }
    forall i | start + |cs| <= i < end
      ensures SlotsDown(u, ix, top)[i] == None
    {
      SlotDown(u, ix, top, i);
    }
  }

  lemma {:induction false} SlotDown(t: seq<Option<Key>>, lo: int, top: int, i: int)
    requires 0 <= lo <= top < |t| && 0 <= i < |t|
    ensures lo < i <= top ==> SlotsDown(t, lo, top)[i - 1] == t[i]
    ensures i < lo || i > top ==> SlotsDown(t, lo, top)[i] == t[i]
    ensures t[lo] == None ==> SlotsDown(t, lo, top)[top] == None
  {
  }

  /** An index tells the zone of its binding. */
  lemma {:induction false} IndexZone(bs: Bindings, start: int, r: nat)
    requires Indexed(bs, start) && r < |bs| && ProperKeys(Keys(bs))
    ensures start <= bs[r].ix < start + |bs|
    ensures bs[r].ix < start + Below(Keys(bs), 1) <==> Zone(bs[r].key.act) < 1
    ensures bs[r].ix < start + Below(Keys(bs), 2) <==> Zone(bs[r].key.act) < 2
  {
    hide Place, Below;
    PlaceInside(Keys(bs), r);
    PlaceBelow(Keys(bs), r, 1);
    PlaceBelow(Keys(bs), r, 2);
  }

  lemma {:induction false} SlotsUpOutside(t: seq<Option<Key>>, lo: int, top: int)
    requires 0 <= lo <= top < |t|
    ensures forall i | 0 <= i < |t| && (i < lo || top < i) :: SlotsUp(t, lo, top)[i] == t[i]
  {
  }

  lemma {:induction false} SlotsDownOutside(t: seq<Option<Key>>, lo: int, top: int)
    requires 0 <= lo <= top < |t|
    ensures forall i | 0 <= i < |t| && (i < lo || top < i) :: SlotsDown(t, lo, top)[i] == t[i]
  {
  }

  // ---------------------------------------------------------------------------
  // Zones as sequences
  // ---------------------------------------------------------------------------

  /** The keys of a zone, in the order they were bound. */
  function ZoneKeys(ks: seq<Key>, z: nat): seq<Key> {
    if ks == [] then []
    else
      var r := ZoneKeys(ks[..|ks| - 1], z);
      if Zone(ks[|ks| - 1].act) == z then r + [ks[|ks| - 1]] else r
  }

  /** What the index range holds: the three zones one after the other. */
  function Layout(ks: seq<Key>): seq<Key> {
    ZoneKeys(ks, 0) + ZoneKeys(ks, 1) + ZoneKeys(ks, 2)
  }

  lemma {:induction false} ZoneLength(ks: seq<Key>, z: nat)
    ensures |ZoneKeys(ks, z)| == Count(ks, z)
  {
    if ks != [] { ZoneLength(ks[..|ks| - 1], z); }
  }

  lemma {:induction false} ZoneAt(ks: seq<Key>, z: nat, p: nat)
    requires p < |ks| && Zone(ks[p].act) == z
    ensures Count(ks[..p], z) < |ZoneKeys(ks, z)| && ZoneKeys(ks, z)[Count(ks[..p], z)] == ks[p]
  {
    var m := |ks| - 1;
    ZoneLength(ks[..m], z);
    if p < m {
      ZoneAt(ks[..m], z, p);
      assert ks[..m][..p] == ks[..p];
    }
  }

  /** The zones fill the range without a gap: the key at every place is the layout's. */
  lemma {:induction false} LayoutAt(ks: seq<Key>, p: nat)
    requires (forall k | k in ks :: !k.act.Other?) && p < |ks|
    ensures |Layout(ks)| == |ks|
    ensures Place(ks, p) < |ks| && Layout(ks)[Place(ks, p)] == ks[p]
  {
    CountAll(ks);
    ZoneLength(ks, 0);
    ZoneLength(ks, 1);
    ZoneLength(ks, 2);
    assert ks[p] in ks;
    ZoneAt(ks, Zone(ks[p].act), p);
    assert Below(ks, 2) == Below(ks, 1) + Count(ks, 1) && Below(ks, 1) == Count(ks, 0);
  }

  // ---------------------------------------------------------------------------
  // Resetting
  // ---------------------------------------------------------------------------

  /** What a reset names. */
  datatype Scope = Scope(iface: Interface, dest: Dest, act: ActType)

  predicate Matches(s: Scope, k: Key) {
    k.iface == s.iface && k.dest == s.dest && k.act == s.act
  }

  /** The keys a reset leaves, in their order. */
  function Survivors(ks: seq<Key>, s: Scope): (r: seq<Key>)
    ensures |r| <= |ks|
  {
    if ks == [] then []
    else
      var r := Survivors(ks[..|ks| - 1], s);
      if Matches(s, ks[|ks| - 1]) then r else r + [ks[|ks| - 1]]
  }

  lemma {:induction false} SurvivorsIn(ks: seq<Key>, s: Scope, k: Key)
    ensures k in Survivors(ks, s) <==> k in ks && !Matches(s, k)
  {
    if ks != [] { SurvivorsIn(ks[..|ks| - 1], s, k); }
  }

  /** A reset that has looked at the first `m` keys, kept `j` of them, and not come to the rest. */
  ghost predicate Halfway(ks: seq<Key>, s: Scope, m: nat, j: nat, now: seq<Key>) {
    m <= |ks| && j == |Survivors(ks[..m], s)| && now == Survivors(ks[..m], s) + ks[m..]
  }

  lemma {:induction false} HalfwayStart(ks: seq<Key>, s: Scope)
    ensures Halfway(ks, s, 0, 0, ks)
  {
  }

  lemma {:induction false} HalfwayStep(ks: seq<Key>, s: Scope, m: nat, j: nat, now: seq<Key>)
    requires Halfway(ks, s, m, j, now) && j < |now|
    ensures if Matches(s, now[j]) then Halfway(ks, s, m + 1, j, Without(now, j)) else Halfway(ks, s, m + 1, j + 1, now)
  {
    assert ks[..m + 1][..m] == ks[..m];
    assert now[j] == ks[m];
  }

  lemma {:induction false} HalfwayEnd(ks: seq<Key>, s: Scope, m: nat, now: seq<Key>)
    requires Halfway(ks, s, m, |now|, now)
    ensures now == Survivors(ks, s)
  {
    assert ks[..m] == ks;
  }

  /** A reset filters every zone in place. */
  lemma {:induction false} SurvivorsZone(ks: seq<Key>, s: Scope, z: nat)
    ensures ZoneKeys(Survivors(ks, s), z) == Survivors(ZoneKeys(ks, z), s)
  {
    if ks != [] {
      var m := |ks| - 1;
      SurvivorsZone(ks[..m], s, z);
      var r, zs := Survivors(ks[..m], s), ZoneKeys(ks[..m], z);
      assert (r + [ks[m]])[..|r|] == r;
      assert (zs + [ks[m]])[..|zs|] == zs;
    }
  }

  lemma {:induction false} SurvivorsJoin(a: seq<Key>, b: seq<Key>, s: Scope)
    ensures Survivors(a + b, s) == Survivors(a, s) + Survivors(b, s)
  {
    if b == [] {
      assert a + b == a;
    } else {
      var m := |b| - 1;
      SurvivorsJoin(a, b[..m], s);
      assert (a + b)[..|a| + m] == a + b[..m];
    }
  }

  /** So it filters what the index range holds. */
  lemma {:induction false} SurvivorsLayout(ks: seq<Key>, s: Scope)
    ensures Layout(Survivors(ks, s)) == Survivors(Layout(ks), s)
  {
    SurvivorsZone(ks, s, 0);
    SurvivorsZone(ks, s, 1);
    SurvivorsZone(ks, s, 2);
    SurvivorsJoin(ZoneKeys(ks, 0) + ZoneKeys(ks, 1), ZoneKeys(ks, 2), s);
    SurvivorsJoin(ZoneKeys(ks, 0), ZoneKeys(ks, 1), s);
  }

  // ---------------------------------------------------------------------------
  // The whole book
  // ---------------------------------------------------------------------------

  /** Some binding carries index `i`. */
  ghost predicate Occupied(bs: Bindings, i: int) {
    exists p :: 0 <= p < |bs| && bs[p].ix == i
  }

  /** Bindings and the indices in use are in one-to-one correspondence. */
  lemma {:induction false} IndexBijection(bs: Bindings, start: int)
    requires Indexed(bs, start) && ProperKeys(Keys(bs))
    ensures forall p | 0 <= p < |bs| :: start <= bs[p].ix < start + |bs|
    ensures forall p, q | 0 <= p < q < |bs| :: bs[p].ix != bs[q].ix
    ensures forall i | start <= i < start + |bs| :: Occupied(bs, i)
  {
    hide Place;
    forall p | 0 <= p < |bs|
      ensures start <= bs[p].ix < start + |bs|
    {
      PlaceInside(Keys(bs), p);
    }
    forall p, q | 0 <= p < q < |bs|
      ensures bs[p].ix != bs[q].ix
    {
      PlaceOrder(Keys(bs), p, q);
    }
    forall i | start <= i < start + |bs|
      ensures Occupied(bs, i)
    {
      var p := PlaceOnto(Keys(bs), i - start);
      assert bs[p].ix == i;
    }
  }

  /** The hardware range reads as the three zones one after the other, each in the order in which
      its rules were bound, with a hole for a rule that was never written. */
  lemma {:induction false} TableIsLayout(bs: Bindings, start: int, end: int, t: seq<Option<Key>>, w: set<Key>, i: nat)
    requires Indexed(bs, start) && ProperKeys(Keys(bs)) && Mirrored(bs, start, end, t, w)
    requires i < |bs| && start + |bs| <= end
    ensures |Layout(Keys(bs))| == |bs|
    ensures var k := Layout(Keys(bs))[i]; t[start + i] == if k in w then Some(k) else None
  {
    var p := PlaceOnto(Keys(bs), i);
    LayoutAt(Keys(bs), p);
    assert bs[p].ix == start + i;
  }

  /** Access rules come before policy rules, and those before policy routes. */
  lemma {:induction false} ActOrder(bs: Bindings, start: int, p: nat, q: nat)
    requires Indexed(bs, start) && p < |bs| && q < |bs|
    ensures bs[p].key.act.Acl? && bs[q].key.act.Policy? ==> bs[p].ix < bs[q].ix
    ensures bs[p].key.act.Policy? && bs[q].key.act.PolicyRoute? ==> bs[p].ix < bs[q].ix
    ensures bs[p].key.act.Acl? && bs[q].key.act.PolicyRoute? ==> bs[p].ix < bs[q].ix
  {
    hide Place;
    PlaceOrder(Keys(bs), p, q);
  }

  /** Within one action type a later rule has the higher index. */
  lemma {:induction false} ZoneOrder(bs: Bindings, start: int, p: nat, q: nat)
    requires Indexed(bs, start) && p < |bs| && q < |bs| && bs[p].key.act == bs[q].key.act
    ensures bs[p].ix < bs[q].ix <==> p < q
  {
    PlaceOrder(Keys(bs), p, q);
  }

  // --- runs ---------------------------------------------------------------------

  datatype Request = Add(k: Key, complete: bool) | ResetRules(s: Scope)

  /** Whether an add is accepted; the hardware has no say in it. */
  predicate Accepts(ks: seq<Key>, capacity: int, k: Key) {
    k !in ks && !k.act.Other? && |ks| < capacity
  }

  /** The keys bound after a run of requests. */
  function Played(ks: seq<Key>, capacity: int, rs: seq<Request>): seq<Key> {
    if rs == [] then ks
    else
      var now := Played(ks, capacity, rs[..|rs| - 1]);
      match rs[|rs| - 1]
      case Add(k, _) => if Accepts(now, capacity, k) then now + [k] else now
      case ResetRules(s) => Survivors(now, s)
  }
}
