/** The IPv4 forwarding tables: one table per prefix length, searched from the longest down, with the
    host entries below connected routes made as they are asked for. */
module Fib {
  import opened Common
  import opened FibSpec

  /** The entry for a new route. */
  function Fresh(addr: Addr, len: nat, gws: seq<Gw>): Entry
    requires len <= 32
  {
    var h := Merged(Hops([], []), gws);
    Entry(Cut(addr, len), if len == 0 then ZERO else addr, len, h.gws, h.vids, map[])
  }

  /** The default route with more next hops. */
  function Grown(t: Entry, gws: seq<Gw>): Entry {
    var h := Merged(Hops(t.gws, t.vids), gws);
    t.(gws := h.gws, vids := h.vids)
  }

  /** The map after a route is added: the default route takes the next hops on top of its own, any
      other route that is there already stays as it is. */
  function Added(m: Routes, addr: Addr, len: nat, gws: seq<Gw>): Routes
    requires len <= 32
  {
    var p := Prefix(len, Cut(addr, len));
    if p !in m then m[p := Fresh(addr, len, gws)]
    else if len == 0 then m[p := Grown(m[p], gws)]
    else m
  }

  /** A new prefix gets an entry with the first hop of each address given, in their order.  The default
      route keeps its hops and takes behind them those whose addresses are new to it.  Any other prefix
      that is there keeps its entry. */
  ghost predicate Stored(m: Routes, m': Routes, addr: Addr, len: nat, gws: seq<Gw>)
    requires len <= 32
  {
    var p := Prefix(len, Cut(addr, len));
    && p in m'
    && (forall q | q != p :: q in m' <==> q in m)
    && (forall q | q != p && q in m :: m'[q] == m[q])
    && var t' := m'[p];
       if p !in m then
         && t'.addr == p.addr && t'.len == len && t'.children == map[]
         && t'.pfx == (if len == 0 then Addr(0) else addr)
         && NewHops([], gws, t'.gws, t'.vids)
       else if len == 0 then
         var t := m[p];
         && t'.addr == t.addr && t'.pfx == t.pfx && t'.len == t.len && t'.children == t.children
         && t.gws <= t'.gws && t.vids <= t'.vids
         && NewHops(t.gws, gws, t'.gws[|t.gws|..], t'.vids[|t.vids|..])
       else
         t' == m[p]
  }

  lemma {:induction false} AddedStored(m: Routes, addr: Addr, len: nat, gws: seq<Gw>)
    requires len <= 32
    requires forall p | p in m :: |m[p].gws| == |m[p].vids|
    ensures Stored(m, Added(m, addr, len, gws), addr, len, gws)
  {
    hide Cut, Merged, NewAt;
    var p := Prefix(len, Cut(addr, len));
    var js := MergedNew(Hops([], []), gws);
    var h := Merged(Hops([], []), gws);
    assert h.gws[0..] == h.gws && h.vids[0..] == h.vids;
    if p in m {
      var _ := MergedNew(Hops(m[p].gws, m[p].vids), gws);
    }
  }

  lemma {:induction false} FreshOk(addr: Addr, len: nat, gws: seq<Gw>)
    requires len <= 32
    ensures EntryOk(Fresh(addr, len, gws), len)
  {
    hide Cut;
    MergedKeeps(Hops([], []), gws);
    CutEnds(ZERO);
    CutEnds(addr);
  }

  lemma {:induction false} DefaultAddr(t: Table, k: nat)
    requires TableOk(t, 0) && k < |t|
    ensures t[k].addr == ZERO && t[k].children == map[] && t[k].pfx == ZERO && t[k].len == 0
  {
    hide Cut;
    assert EntryOk(t[k], 0);
    CutEnds(t[k].pfx);
    assert forall a :: a !in t[k].children;
  }

  /** There is one default route at most, and it has no children. */
  lemma {:induction false} DefaultOnly(t: Table)
    requires TableOk(t, 0)
    ensures |t| <= 1
    ensures |t| == 1 ==> t[0].addr == ZERO && t[0].children == map[] && t[0].pfx == ZERO && t[0].len == 0
  {
    hide EntryOk;
    if |t| > 0 { DefaultAddr(t, 0); }
    if |t| > 1 { DefaultAddr(t, 1); }
  }

  /** Replacing one table by another that differs for one address only. */
  lemma {:induction false} TableChange(ts: Tables, len: nat, u: Table, a: Addr)
    requires TablesOk(ts) && len <= 32 && TableOk(u, len)
    requires forall b | b != a :: Found(u, b) == Found(ts[len], b)
    ensures TablesOk(ts[len := u])
    ensures RouteMap(ts[len := u]) ==
            match Found(u, a)
            case None => RouteMap(ts) - {Prefix(len, a)}
            case Some(t) => RouteMap(ts)[Prefix(len, a) := t]
  {
    hide TableOk, Found, RouteMap;
    MapDiffers(ts, ts[len := u], len, a);
  }

  lemma {:induction false} TableAt(ts: Tables, len: nat)
    requires TablesOk(ts) && len <= 32
    ensures |ts| == 33 && TableOk(ts[len], len)
  {
  }

  /** What the map has for a prefix is what its table holds. */
  lemma {:induction false} FoundIs(ts: Tables, len: nat, a: Addr)
    requires TablesOk(ts) && len <= 32
    ensures |ts| == 33 && (Prefix(len, a) in RouteMap(ts) <==> Index(ts[len], a) < |ts[len]|)
    ensures Index(ts[len], a) < |ts[len]| ==> RouteMap(ts)[Prefix(len, a)] == Plain(ts[len][Index(ts[len], a)])
  {
    hide RouteMap, Index, TableOk;
    MapAt(ts, Prefix(len, a));
  }

  lemma {:induction false} FoundOne(t: Entry, b: Addr)
    ensures Found([t], b) == if b == t.addr then Some(Plain(t)) else None
  {
  }

  lemma {:induction false} FoundNone(b: Addr)
    ensures Found([], b) == None
  {
  }

  /** The default route, in the table and in the map. */
  lemma {:induction false} DefaultAt(ts: Tables)
    requires TablesOk(ts)
    ensures |ts| == 33 && |ts[0]| <= 1 && (Prefix(0, ZERO) in RouteMap(ts) <==> |ts[0]| == 1)
    ensures |ts[0]| == 1 ==>
              && ts[0][0].addr == ts[0][0].pfx == ZERO && ts[0][0].len == 0 && ts[0][0].children == map[]
              && RouteMap(ts)[Prefix(0, ZERO)] == ts[0][0]
  {
    hide RouteMap, TableOk, Found;
    DefaultOnly(ts[0]);
    MapAt(ts, Prefix(0, ZERO));
    FoundNone(ZERO);
    if |ts[0]| == 1 {
      assert ts[0] == [ts[0][0]];
      FoundOne(ts[0][0], ZERO);
    }
  }

  /** The default route set anew. */
  lemma {:induction false} DefaultAdded(ts: Tables, t: Entry, gws: seq<Gw>)
    requires TablesOk(ts) && |ts| == 33
    requires t == if |ts[0]| == 0 then Fresh(ZERO, 0, gws) else Grown(ts[0][0], gws).(addr := ZERO, pfx := ZERO, len := 0)
    ensures TablesOk(ts[0 := [t]]) && RouteMap(ts[0 := [t]]) == Added(RouteMap(ts), ZERO, 0, gws)
  {
    hide RouteMap, Found, Cut, Merged;
    DefaultAt(ts);
    CutEnds(ZERO);
    MergedKeeps(Hops([], []), gws);
    if |ts[0]| == 1 {
      assert EntryOk(ts[0][0], 0);
      MergedKeeps(Hops(ts[0][0].gws, ts[0][0].vids), gws);
    }
    assert EntryOk(t, 0);
    forall b | b != ZERO
      ensures Found([t], b) == Found(ts[0], b)
    {
      FoundOne(t, b);
      FoundNone(b);
      if |ts[0]| == 1 {
        assert ts[0] == [ts[0][0]];
        FoundOne(ts[0][0], b);
      }
    }
    FoundOne(t, ZERO);
    TableChange(ts, 0, [t], ZERO);
  }

  lemma {:induction false} Appended(ts: Tables, len: nat, t: Entry)
    requires TablesOk(ts) && len <= 32 && EntryOk(t, len) && Index(ts[len], t.addr) == |ts[len]|
    ensures TablesOk(ts[len := ts[len] + [t]])
    ensures RouteMap(ts[len := ts[len] + [t]]) == RouteMap(ts)[Prefix(len, t.addr) := Plain(t)]
  {
    hide RouteMap, Found, TableOk, EntryOk, Index;
    forall b
      ensures Found(ts[len] + [t], b) == if b == t.addr then Some(Plain(t)) else Found(ts[len], b)
    {
      FoundAppend(ts[len], len, t, b);
    }
    FoundAppend(ts[len], len, t, t.addr);
    TableChange(ts, len, ts[len] + [t], t.addr);
  }

  lemma {:induction false} Removed(ts: Tables, len: nat, k: nat)
    requires TablesOk(ts) && len <= 32 && k < |ts[len]|
    ensures TablesOk(ts[len := ts[len][..k] + ts[len][k + 1..]])
    ensures RouteMap(ts[len := ts[len][..k] + ts[len][k + 1..]]) == RouteMap(ts) - {Prefix(len, ts[len][k].addr)}
  {
    hide RouteMap, Found, TableOk, EntryOk, Index;
    var u, a := ts[len][..k] + ts[len][k + 1..], ts[len][k].addr;
    forall b
      ensures Found(u, b) == if b == a then None else Found(ts[len], b)
    {
      FoundRemove(ts[len], len, k, b);
    }
    FoundRemove(ts[len], len, k, a);
    TableChange(ts, len, u, a);
  }

  /** A host entry more below a connected route: the map stays. */
  lemma {:induction false} ChildAdded(ts: Tables, len: nat, k: nat, a: Addr)
    requires TablesOk(ts) && 0 < len <= 32 && k < |ts[len]|
    requires Connected(ts[len][k]) && Cut(a, len) == ts[len][k].addr
    ensures var t := ts[len][k];
            var ts' := ts[len := ts[len][k := t.(children := t.children[a := HostOf(t, a)])]];
            TablesOk(ts') && RouteMap(ts') == RouteMap(ts)
  {
    hide RouteMap, Found, TableOk, Cut, Index;
    TableAt(ts, len);
    EntryAt(ts[len], len, k);
    var t := ts[len][k];
    var c := t.(children := t.children[a := HostOf(t, a)]);
    var u := ts[len][k := c];
    forall b
      ensures Found(u, b) == if b == t.addr then Some(Plain(t)) else Found(ts[len], b)
    {
      FoundReplace(ts[len], len, k, c, b);
    }
    FoundReplace(ts[len], len, k, c, t.addr);
    TableChange(ts, len, u, t.addr);
    FoundAt(ts[len], len, k);
    MapAt(ts, Prefix(len, t.addr));
  }

  lemma {:induction false} EntryAt(t: Table, len: nat, k: nat)
    requires len <= 32 && TableOk(t, len) && k < |t|
    ensures EntryOk(t[k], len)
  {
  }

  lemma {:induction false} FoundAt(t: Table, len: nat, k: nat)
    requires len <= 32 && TableOk(t, len) && k < |t|
    ensures Found(t, t[k].addr) == Some(Plain(t[k]))
  {
    hide EntryOk, Index;
    IndexAt(t, len, k);
  }

  /** What a lookup returns once it has come to entry `k` of table `len`. */
  lemma {:induction false} RouteFound(ts: Tables, len: nat, k: nat, a: Addr)
    requires TablesOk(ts) && len <= 32 && k < |ts[len]|
    ensures var t := ts[len][k];
            && (len > 0 && Connected(t) ==> Via(Plain(t), a) == HostOf(t, a))
            && (len == 0 || !Connected(t) ==> t == Plain(t) && Via(t, a) == t)
            && (a in t.children ==> t.children[a] == HostOf(t, a))
  {
    hide Cut;
    assert EntryOk(ts[len][k], len);
  }

  lemma {:induction false} MapEntries(ts: Tables)
    requires TablesOk(ts)
    ensures forall p | p in RouteMap(ts) ::
              && p.len == RouteMap(ts)[p].len <= 32 && p.addr == RouteMap(ts)[p].addr
              && |RouteMap(ts)[p].gws| == |RouteMap(ts)[p].vids|
  {
    hide Index, Cut, RouteMap;
    forall p | p in RouteMap(ts)
      ensures p.len == RouteMap(ts)[p].len <= 32 && p.addr == RouteMap(ts)[p].addr
      ensures |RouteMap(ts)[p].gws| == |RouteMap(ts)[p].vids|
    {
      MapAt(ts, p);
      EntryAt(ts[p.len], p.len, Index(ts[p.len], p.addr));
    }
  }

  /** What a lookup that answers with `r` leaves behind: the host route below a connected route. */
  ghost predicate KeptAt(ts: Tables, ts': Tables, p: Prefix, k: nat, a: Addr, r: Entry)
    requires p.len < |ts| && k < |ts[p.len]|
  {
    var t := ts[p.len][k];
    && t.addr == p.addr
    && ts' == if p.len > 0 && t.gws == [Addr(0)]
              then ts[p.len := ts[p.len][k := t.(children := t.children[a := r])]] else ts
  }

  ghost predicate Kept(ts: Tables, ts': Tables, p: Prefix, a: Addr, r: Entry) {
    p.len < |ts| && exists k: nat | k < |ts[p.len]| :: KeptAt(ts, ts', p, k, a, r)
  }

  lemma {:induction false} KeptHere(ts: Tables, len: nat, k: nat, a: Addr, r: Entry)
    requires len < |ts| && k < |ts[len]|
    ensures var t := ts[len][k];
            if len > 0 && Connected(t)
            then
              && Kept(ts, ts[len := ts[len][k := t.(children := t.children[a := r])]], Prefix(len, t.addr), a, r)
              && (a in t.children && t.children[a] == r ==> Kept(ts, ts, Prefix(len, t.addr), a, r))
            else Kept(ts, ts, Prefix(len, t.addr), a, r)
  {
    hide KeptAt;
    var t := ts[len][k];
    var u := ts[len][k := t.(children := t.children[a := r])];
    KeptIs(ts, len, k, a, r);
    if a in t.children && t.children[a] == r {
      assert t.children[a := r] == t.children;
      assert u == ts[len] && ts[len := u] == ts;
    }
    assert KeptAt(ts, if len > 0 && Connected(t) then ts[len := u] else ts, Prefix(len, t.addr), k, a, r);
  }

  lemma {:induction false} KeptIs(ts: Tables, len: nat, k: nat, a: Addr, r: Entry)
    requires len < |ts| && k < |ts[len]|
    ensures var t := ts[len][k];
            var ts' := if len > 0 && Connected(t) then ts[len := ts[len][k := t.(children := t.children[a := r])]] else ts;
            KeptAt(ts, ts', Prefix(len, t.addr), k, a, r)
  {
    assert Connected(ts[len][k]) <==> ts[len][k].gws == [Addr(0)];
  }

  lemma {:induction false} AnswerHere(m: Routes, a: Addr, p: Prefix)
    requires p in m && Covers(p, a) && forall q | q in m && Covers(q, a) :: q.len <= p.len
    ensures IsAnswer(m, a, Some(Via(m[p], a)))
  {
    hide Cut;
    assert Longest(m, a, p);
  }

  lemma {:induction false} NotHere(m: Routes, a: Addr, i: nat)
    requires 1 <= i <= 32 && Prefix(i, Cut(a, i)) !in m
    requires forall p | p in m && Covers(p, a) :: p.len <= i
    ensures forall p | p in m && Covers(p, a) :: p.len <= i - 1
  {
    hide Cut;
    assert forall p | p in m && Covers(p, a) :: p == Prefix(p.len, Cut(a, p.len));
  }

  lemma {:induction false} NoAnswer(m: Routes, a: Addr)
    requires Prefix(0, ZERO) !in m && forall p | p in m && Covers(p, a) :: p.len <= 0
    ensures IsAnswer(m, a, None)
  {
    hide Cut;
    CutEnds(a);
    assert forall p | p in m && Covers(p, a) :: p == Prefix(0, ZERO);
  }

  class Fib {
    const e: array<Table>

    ghost predicate Valid()
      reads this, e
    {
      e.Length == 33 && TablesOk(e[..])
    }

    /** The routes, host entries aside. */
    ghost function Map(): Routes
      requires Valid()
      reads this, e
    {
      RouteMap(e[..])
    }

    constructor ()
      ensures Valid() && fresh(e) && Map() == map[]
    {
      e := new Table[33](_ => []);
      new;
      assert Prefixes(e[..]) == {};
    }

    /** Appends next hops, each address once. */
    method Append(h: Hops, gws: seq<Gw>) returns (r: Hops)
      ensures r == Merged(h, gws)
    {
      r := h;
      var i := 0;
      while i < |gws|
        invariant 0 <= i <= |gws|
        invariant r == Merged(h, gws[..i])
      {
        assert gws[..i + 1][..i] == gws[..i];
        if gws[i].addr !in r.gws {
          r := Hops(r.gws + [gws[i].addr], r.vids + [gws[i].vid]);
        }
        i := i + 1;
      }
      assert gws[..|gws|] == gws;
    }

    method Add(addr: Addr, len: nat, gws: seq<Gw>)
      requires Valid() && len <= 32
      modifies e
      ensures Valid() && Map() == Added(old(Map()), addr, len, gws)
      ensures Stored(old(Map()), Map(), addr, len, gws)
      ensures len != 0 ==> old(e[len]) <= e[len]
      ensures forall l | 0 <= l <= 32 && l != len :: e[l] == old(e[l])
    {
      hide TablesOk, TableOk, EntryOk, Found, RouteMap, Merged, Cut, Index, Stored;
      ghost var ts := e[..];
      MapEntries(ts);
      AddedStored(RouteMap(ts), addr, len, gws);
      TableAt(ts, len);
      CutEnds(addr);
      CutEnds(ZERO);
      if len == 0 {
        DefaultAt(ts);
        if |e[0]| == 0 {
          e[0] := [Entry(ZERO, ZERO, 0, [], [], map[])];
        }
        var t := e[0][0];
        var h := Append(Hops(t.gws, t.vids), gws);
        t := t.(addr := ZERO, pfx := ZERO, len := 0, gws := h.gws, vids := h.vids);
        DefaultAdded(ts, t, gws);
        e[0] := [t];
        assert e[..] == ts[0 := [t]];
      } else {
        var pfx := addr;
        var a := Cut(addr, len);
        FoundIs(ts, len, a);
        if Index(e[len], a) == |e[len]| {
          var h := Append(Hops([], []), gws);
          var t := Entry(a, pfx, len, h.gws, h.vids, map[]);
          FreshOk(addr, len, gws);
          Appended(ts, len, t);
          e[len] := e[len] + [t];
          assert e[..] == ts[len := ts[len] + [t]];
        }
      }
    }

    /** Removes a route; says whether it was there. */
    method Del(addr: Addr, len: nat) returns (done: bool)
      requires Valid() && len <= 32
      modifies e
      ensures Valid() && Map() == old(Map()) - {Prefix(len, Cut(addr, len))}
      ensures done <==> Prefix(len, Cut(addr, len)) in old(Map())
      ensures forall t: Entry | t.addr != Cut(addr, len) :: t in e[len] <==> t in old(e[len])
      ensures forall l | 0 <= l <= 32 && l != len :: e[l] == old(e[l])
    {
      hide TablesOk, TableOk, EntryOk, Found, RouteMap, Cut, Index;
      ghost var ts := e[..];
      TableAt(ts, len);
      CutEnds(addr);
      if len == 0 {
        DefaultAt(ts);
        if |e[0]| != 0 {
          Removed(ts, 0, 0);
          e[0] := [];
          assert ts[0][..0] + ts[0][1..] == [];
          assert e[..] == ts[0 := []];
          return true;
        }
      } else {
        var a := Cut(addr, len);
        FoundIs(ts, len, a);
        var k := Index(e[len], a);
        if k < |e[len]| {
          Removed(ts, len, k);
          e[len] := e[len][..k] + e[len][k + 1..];
          assert e[..] == ts[len := ts[len][..k] + ts[len][k + 1..]];
          return true;
        }
      }
      done := false;
    }

    method Get(addr: Addr, len: nat) returns (r: Option<Entry>)
      requires Valid() && len <= 32
      ensures r.Some? <==> Prefix(len, Cut(addr, len)) in Map()
      ensures r.Some? ==> Plain(r.value) == Map()[Prefix(len, Cut(addr, len))]
    {
      hide TablesOk, TableOk, EntryOk, Found, RouteMap, Cut, Index;
      CutEnds(addr);
      if len == 0 {
        DefaultAt(e[..]);
        r := if |e[0]| == 0 then None else Some(e[0][0]);
      } else {
        var a := Cut(addr, len);
        FoundIs(e[..], len, a);
        var k := Index(e[len], a);
        r := if k < |e[len]| then Some(e[len][k]) else None;
      }
    }

    /** Longest-prefix match; `p` is the prefix of the route found.  A lookup below a connected route
        answers with a host route of its own and leaves it behind as a child of the route, which changes no
        route and so no later answer. */
    method Route(addr: Addr) returns (r: Option<Entry>, ghost p: Prefix)
      requires Valid()
      modifies e
      ensures Valid() && Map() == old(Map())
      ensures IsAnswer(Map(), addr, r)
      ensures r.None? ==> e[..] == old(e[..]) && forall q | q in Map() :: !Covers(q, addr)
      ensures r.Some? ==>
                && Longest(Map(), addr, p)
                && r.value == (if p.len > 0 && Map()[p].gws == [Addr(0)]
                               then Entry(addr, addr, 32, [addr], Map()[p].vids, map[]) else Map()[p])
                && Kept(old(e[..]), e[..], p, addr, r.value)
    {
      hide TablesOk, TableOk, EntryOk, Found, RouteMap, Cut, Index, ClearBit, Via, IsAnswer, Kept;
      ghost var ts, m := e[..], RouteMap(e[..]);
      var pfx := addr;
      CutEnds(addr);
      MapEntries(ts);
      p := Prefix(0, ZERO);
      var i := 32;
      while i > 0
        invariant 0 <= i <= 32 && pfx == Cut(addr, i)
        invariant Valid() && e[..] == ts
        invariant forall q | q in m && Covers(q, addr) :: q.len <= i
      {
        TableAt(ts, i);
        FoundIs(ts, i, pfx);
        var k := Index(e[i], pfx);
        if k < |e[i]| {
          var t := e[i][k];
          p := Prefix(i, pfx);
          AnswerHere(m, addr, p);
          RouteFound(ts, i, k, addr);
          if |t.gws| == 1 && t.gws[0] == ZERO {
            var c := Entry(addr, addr, 32, [addr], t.vids, map[]);
            KeptHere(ts, i, k, addr, c);
            if addr !in t.children {
              ChildAdded(ts, i, k, addr);
              e[i] := e[i][k := t.(children := t.children[addr := c])];
              assert e[..] == ts[i := ts[i][k := ts[i][k].(children := t.children[addr := c])]];
              return Some(c), p;
            }
            return Some(t.children[addr]), p;
          }
          KeptHere(ts, i, k, addr, t);
          return Some(t), p;
        }
        CutStep(addr, i);
        NotHere(m, addr, i);
        pfx := ClearBit(pfx, 32 - i);
        i := i - 1;
      }
      DefaultAt(ts);
      FoundIs(ts, 0, ZERO);
      if |e[0]| == 0 {
        NoAnswer(m, addr);
        return None, p;
      }
      AnswerHere(m, addr, p);
      RouteFound(ts, 0, 0, addr);
      KeptHere(ts, 0, 0, addr, e[0][0]);
      r := Some(e[0][0]);
    }
  }
}
