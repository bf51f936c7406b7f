/** Routes as a map from prefixes: what the forwarding tables mean, and what longest-prefix match
    promises about them. */
module FibSpec {
  import opened Common

  /** An IPv4 address, in host byte order. */
  datatype Addr = Addr(bits: bv32)

  const ZERO := Addr(0)

  /** A next hop as the caller gives it. */
  datatype Gw = Gw(addr: Addr, vid: int)

  /** A route, with the host entries that lookups have made below it. */
  datatype Entry = Entry(addr: Addr, pfx: Addr, len: nat, gws: seq<Addr>, vids: seq<int>, children: map<Addr, Entry>)

  datatype Prefix = Prefix(len: nat, addr: Addr)

  type Table = seq<Entry>
  type Tables = seq<Table>
  type Routes = map<Prefix, Entry>

  // ---------------------------------------------------------------------------
  // Masks
  // ---------------------------------------------------------------------------

  function Mask(n: nat): bv32
    requires n <= 32
  {
    if n == 0 then 0 else !(((1 as bv32) << (32 - n)) - 1)
  }

  /** The first `n` bits of an address. */
  function Cut(a: Addr, n: nat): Addr
    requires n <= 32
  {
    Addr(a.bits & Mask(n))
  }

  /** One bit cleared, counted from the right. */
  function ClearBit(a: Addr, k: nat): Addr
    requires k < 32
  {
    Addr(a.bits & !((1 as bv32) << k))
  }

  lemma {:induction false} ShiftStep(s: bv32)
    requires s < 31
    ensures !(((1 as bv32) << s) - 1) & !((1 as bv32) << s) == !(((1 as bv32) << (s + 1)) - 1)
  {
  }

  /** Clearing one more bit gives the next shorter mask. */
  lemma {:induction false} MaskStep(i: nat)
    requires 1 <= i <= 32
    ensures Mask(i - 1) == Mask(i) & !((1 as bv32) << (32 - i))
  {
    if i > 1 { ShiftStep((32 - i) as bv32); }
  }

  lemma {:induction false} AndStep(x: bv32, m: bv32, c: bv32)
    ensures (x & m) & c == x & (m & c)
  {
  }

  /** Clearing one more bit of a prefix gives the next shorter prefix. */
  lemma {:induction false} CutStep(a: Addr, i: nat)
    requires 1 <= i <= 32
    ensures ClearBit(Cut(a, i), 32 - i) == Cut(a, i - 1)
  {
    hide Mask;
    MaskStep(i);
    AndStep(a.bits, Mask(i), !((1 as bv32) << (32 - i)));
  }

  lemma {:induction false} CutEnds(a: Addr)
    ensures Cut(a, 32) == a && Cut(a, 0) == ZERO
  {
  }

  // --- which bits a prefix has ---------------------------------------------------

  function And(x: bv32, y: bv32): bv32 {
    x & y
  }

  function Bit(k: nat): bv32
    requires k < 32
  {
    (1 as bv32) << k
  }

  /** Counted from the right. */
  predicate HasBit(a: Addr, k: nat)
    requires k < 32
  {
    And(a.bits, Bit(k)) != 0
  }

  /** All bits from bit `s` up. */
  function Ones(s: nat): bv32
    requires s < 32
  {
    !(((1 as bv32) << s) - 1)
  }

  lemma {:induction false} ShiftBit(s: bv32, k: bv32)
    requires s < 32 && k < 32
    ensures !(((1 as bv32) << s) - 1) & ((1 as bv32) << k) == if k >= s then (1 as bv32) << k else 0
    ensures (1 as bv32) << k != 0
  {
  }

  lemma {:induction false} OnesBit(s: nat, k: nat)
    requires s < 32 && k < 32
    ensures And(Ones(s), Bit(k)) == if k >= s then Bit(k) else 0
    ensures Bit(k) != 0
  {
    ShiftBit(s as bv32, k as bv32);
  }

  lemma {:induction false} ZeroBit(k: nat)
    requires k < 32
    ensures And(0, Bit(k)) == 0
  {
    hide Bit;
  }

  lemma {:induction false} MaskIs(n: nat)
    requires n <= 32
    ensures Mask(n) == if n == 0 then 0 else Ones(32 - n)
  {
  }

  lemma {:induction false} MaskBit(n: nat, k: nat)
    requires n <= 32 && k < 32
    ensures And(Mask(n), Bit(k)) == if k >= 32 - n then Bit(k) else 0
  {
    hide Mask, And, Bit, Ones;
    MaskIs(n);
    ZeroBit(k);
    if n > 0 { OnesBit(32 - n, k); }
  }

  lemma {:induction false} AndAnd(x: bv32, m: bv32, c: bv32)
    ensures And(And(x, m), c) == And(x, And(m, c)) && And(x, 0) == 0
  {
  }

  lemma {:induction false} CutIs(a: Addr, n: nat)
    requires n <= 32
    ensures Cut(a, n).bits == And(a.bits, Mask(n))
  {
    hide Mask;
  }

  /** A prefix of length `n` has the leftmost `n` bits of its address and no other. */
  lemma {:induction false} CutBits(a: Addr, n: nat, k: nat)
    requires n <= 32 && k < 32
    ensures HasBit(Cut(a, n), k) <==> k >= 32 - n && HasBit(a, k)
  {
    hide Mask, Bit, And, Cut;
    CutIs(a, n);
    MaskBit(n, k);
    AndAnd(a.bits, Mask(n), Bit(k));
  }

  // ---------------------------------------------------------------------------
  // Next hops
  // ---------------------------------------------------------------------------

  predicate Distinct(s: seq<Addr>) {
    forall i, j | 0 <= i < j < |s| :: s[i] != s[j]
  }

  datatype Hops = Hops(gws: seq<Addr>, vids: seq<int>)

  /** Next hops added to those already there; one whose address is known is skipped. */
  function Merged(h: Hops, more: seq<Gw>): Hops {
    if more == [] then h
    else
      var n := |more| - 1;
      var r := Merged(h, more[..n]);
      if more[n].addr in r.gws then r else Hops(r.gws + [more[n].addr], r.vids + [more[n].vid])
  }

  /** The first of the given hops that has this address. */
  predicate FirstOf(more: seq<Gw>, j: nat, a: Addr, vid: int) {
    j < |more| && more[j] == Gw(a, vid) && forall i | 0 <= i < j :: more[i].addr != a
  }

  /** Old hops keep their place and VLAN, and no address is there twice. */
  lemma {:induction false} MergedKeeps(h: Hops, more: seq<Gw>)
    requires |h.gws| == |h.vids| && Distinct(h.gws)
    ensures var r := Merged(h, more);
            |r.gws| == |r.vids| && Distinct(r.gws) && h.gws <= r.gws && h.vids <= r.vids
  {
    if more != [] { MergedKeeps(h, more[..|more| - 1]); }
  }

  /** Every given address is there. */
  lemma {:induction false} MergedHas(h: Hops, more: seq<Gw>, j: nat)
    requires j < |more|
    ensures more[j].addr in Merged(h, more).gws
  {
    var n := |more| - 1;
    if j < n { MergedHas(h, more[..n], j); }
  }

  /** A hop that was not there before has the VLAN of its address's first occurrence. */
  lemma {:induction false} MergedFirst(h: Hops, more: seq<Gw>, k: nat) returns (j: nat)
    requires |h.gws| == |h.vids| && Distinct(h.gws) && |h.gws| <= k < |Merged(h, more).gws|
    ensures |Merged(h, more).vids| == |Merged(h, more).gws|
    ensures FirstOf(more, j, Merged(h, more).gws[k], Merged(h, more).vids[k])
  {
    MergedKeeps(h, more);
    var n := |more| - 1;
    MergedKeeps(h, more[..n]);
    if k < |Merged(h, more[..n]).gws| {
      j := MergedFirst(h, more[..n], k);
    } else {
      j := n;
      forall i | 0 <= i < n
        ensures more[i].addr != more[n].addr
      {
        MergedHas(h, more[..n], i);
      }
    }
  }

  /** Of the given hops, those at the places `js`: in their order, each the first of an address that was
      not known, and every such address is among them once. */
  predicate NewAt(known: seq<Addr>, more: seq<Gw>, js: seq<nat>, gws: seq<Addr>, vids: seq<int>) {
    && |js| == |gws| == |vids|
    && (forall k | 0 <= k < |js| :: js[k] < |more| && more[js[k]] == Gw(gws[k], vids[k]) && gws[k] !in known)
    && (forall k, i | 0 <= k < |js| && 0 <= i < js[k] :: more[i].addr != gws[k])
    && (forall k, l | 0 <= k < l < |js| :: js[k] < js[l] && gws[k] != gws[l])
    && (forall i | 0 <= i < |more| && more[i].addr !in known :: more[i].addr in gws)
  }

  ghost predicate NewHops(known: seq<Addr>, more: seq<Gw>, gws: seq<Addr>, vids: seq<int>) {
    exists js :: NewAt(known, more, js, gws, vids)
  }

  lemma {:induction false} NewAtNext(known: seq<Addr>, more: seq<Gw>, js: seq<nat>, gws: seq<Addr>, vids: seq<int>)
    requires more != []
    requires NewAt(known, more[..|more| - 1], js, gws, vids)
    ensures var g := more[|more| - 1];
            if g.addr in known || g.addr in gws then NewAt(known, more, js, gws, vids)
            else NewAt(known, more, js + [|more| - 1], gws + [g.addr], vids + [g.vid])
  {
    var n := |more| - 1;
    assert forall i | 0 <= i < n :: more[..n][i] == more[i];
  }

  /** What a merge puts behind the old hops are exactly the new ones. */
  lemma {:induction false} MergedNew(h: Hops, more: seq<Gw>) returns (js: seq<nat>)
    requires |h.gws| == |h.vids|
    ensures var r := Merged(h, more);
            && |r.gws| == |r.vids| && h.gws <= r.gws && h.vids <= r.vids
            && NewAt(h.gws, more, js, r.gws[|h.gws|..], r.vids[|h.vids|..])
  {
    hide NewAt;
    var r := Merged(h, more);
    if more == [] {
      js := [];
      NewAtNone(h.gws);
      assert r.gws[|h.gws|..] == [] && r.vids[|h.vids|..] == [];
    } else {
      var n := |more| - 1;
      var q := Merged(h, more[..n]);
      js := MergedNew(h, more[..n]);
      NewAtNext(h.gws, more, js, q.gws[|h.gws|..], q.vids[|h.vids|..]);
      assert q.gws == h.gws + q.gws[|h.gws|..];
      if more[n].addr !in q.gws {
        js := js + [n];
        assert r.gws[|h.gws|..] == q.gws[|h.gws|..] + [more[n].addr];
        assert r.vids[|h.vids|..] == q.vids[|h.vids|..] + [more[n].vid];
      }
    }
  }

  lemma {:induction false} NewAtNone(known: seq<Addr>)
    ensures NewAt(known, [], [], [], [])
  {
  }

  // ---------------------------------------------------------------------------
  // Tables
  // ---------------------------------------------------------------------------

  /** The one next hop is the address zero: the network is on the wire. */
  predicate Connected(t: Entry) {
    |t.gws| == 1 && t.gws[0] == ZERO
  }

  /** The host route below a connected one. */
  function HostOf(t: Entry, a: Addr): Entry {
    Entry(a, a, 32, [a], t.vids, map[])
  }

  /** An entry without its children. */
  function Plain(t: Entry): Entry {
    t.(children := map[])
  }

  /** The place of an address in a table, or the table's length. */
  function Index(t: Table, a: Addr): (k: nat)
    ensures k <= |t|
    ensures k < |t| ==> t[k].addr == a
    ensures forall j | 0 <= j < k :: t[j].addr != a
  {
    if t == [] then 0
    else if t[0].addr == a then 0
    else
      var k := Index(t[1..], a);
      assert forall j | 1 <= j < k + 1 :: t[j].addr == t[1..][j - 1].addr;
      k + 1
  }

  ghost predicate EntryOk(t: Entry, len: nat)
    requires len <= 32
  {
    && t.len == len
    && Cut(t.pfx, len) == t.addr && (len == 0 ==> t.pfx == ZERO)
    && |t.gws| == |t.vids| && Distinct(t.gws)
    && forall a | a in t.children :: len > 0 && Connected(t) && Cut(a, len) == t.addr && t.children[a] == HostOf(t, a)
  }

  ghost predicate TableOk(t: Table, len: nat)
    requires len <= 32
  {
    && (forall k | 0 <= k < |t| :: EntryOk(t[k], len))
    && (forall j, k | 0 <= j < k < |t| :: t[j].addr != t[k].addr)
  }

  ghost predicate TablesOk(ts: Tables) {
    |ts| == 33 && forall len | 0 <= len < 33 :: TableOk(ts[len], len)
  }

  ghost predicate Has(ts: Tables, p: Prefix) {
    p.len < |ts| && Index(ts[p.len], p.addr) < |ts[p.len]|
  }

  /** The prefixes that have an entry. */
  ghost function Prefixes(ts: Tables): (s: set<Prefix>)
    ensures forall p :: p in s <==> Has(ts, p)
  {
    var s := set len, k | 0 <= len < |ts| && 0 <= k < |ts[len]| :: Prefix(len, ts[len][k].addr);
    forall p
      ensures p in s <==> Has(ts, p)
    {
      if Has(ts, p) {
        assert ts[p.len][Index(ts[p.len], p.addr)].addr == p.addr;
      }
    }
    s
  }

  /** What the tables mean. */
  ghost function RouteMap(ts: Tables): Routes {
    map p | p in Prefixes(ts) :: Plain(ts[p.len][Index(ts[p.len], p.addr)])
  }

  /** Where an entry sits is where it is found. */
  lemma {:induction false} IndexAt(t: Table, len: nat, k: nat)
    requires len <= 32 && TableOk(t, len) && k < |t|
    ensures Index(t, t[k].addr) == k
  {
  }

  // --- how the map changes with one table --------------------------------------

  /** The tables differ in table `len`, and there in what is found for `a` alone. */
  ghost predicate DifferAt(ts: Tables, ts': Tables, len: nat, a: Addr) {
    && len < |ts| == |ts'|
    && (forall m | 0 <= m < |ts| && m != len :: ts'[m] == ts[m])
    && forall b | b != a :: Found(ts'[len], b) == Found(ts[len], b)
  }

  /** What a table holds for an address. */
  function Found(t: Table, a: Addr): Option<Entry> {
    var k := Index(t, a);
    if k < |t| then Some(Plain(t[k])) else None
  }

  lemma {:induction false} MapAt(ts: Tables, p: Prefix)
    ensures p in RouteMap(ts) <==> p.len < |ts| && Found(ts[p.len], p.addr).Some?
    ensures p in RouteMap(ts) ==> RouteMap(ts)[p] == Found(ts[p.len], p.addr).value
  {
    hide Index;
  }

  /** Then only one prefix of the map can differ. */
  lemma {:induction false} MapDiffers(ts: Tables, ts': Tables, len: nat, a: Addr)
    requires DifferAt(ts, ts', len, a)
    ensures RouteMap(ts') ==
            match Found(ts'[len], a)
            case None => RouteMap(ts) - {Prefix(len, a)}
            case Some(t) => RouteMap(ts)[Prefix(len, a) := t]
  {
    hide RouteMap, Found;
    MapAt(ts', Prefix(len, a));
    forall p | p != Prefix(len, a)
      ensures p in RouteMap(ts') <==> p in RouteMap(ts)
      ensures p in RouteMap(ts) ==> RouteMap(ts')[p] == RouteMap(ts)[p]
    {
      MapAt(ts, p);
      MapAt(ts', p);
    }
  }

  lemma {:induction false} IndexIs(t: Table, a: Addr, k: nat)
    requires k <= |t| && (k < |t| ==> t[k].addr == a) && forall j | 0 <= j < k :: t[j].addr != a
    ensures Index(t, a) == k
  {
    hide Index;
    var _ := Index(t, a);
  }

  lemma {:induction false} FoundAppend(t: Table, len: nat, e: Entry, b: Addr)
    requires len <= 32 && TableOk(t, len) && EntryOk(e, len) && Index(t, e.addr) == |t|
    ensures TableOk(t + [e], len)
    ensures Found(t + [e], b) == if b == e.addr then Some(Plain(e)) else Found(t, b)
  {
    hide Index, EntryOk;
    var i := Index(t, b);
    IndexIs(t + [e], b, if i < |t| then i else if b == e.addr then |t| else |t| + 1);
  }

  lemma {:induction false} FoundRemove(t: Table, len: nat, k: nat, b: Addr)
    requires len <= 32 && TableOk(t, len) && k < |t|
    ensures TableOk(t[..k] + t[k + 1..], len)
    ensures Found(t[..k] + t[k + 1..], b) == if b == t[k].addr then None else Found(t, b)
  {
    hide Index, EntryOk;
    var u := t[..k] + t[k + 1..];
    assert forall x | 0 <= x < |u| :: u[x] == t[if x < k then x else x + 1];
    var i := Index(t, b);
    IndexIs(u, b, if b == t[k].addr then |u| else if i < k then i else i - 1);
  }

  lemma {:induction false} FoundReplace(t: Table, len: nat, k: nat, e: Entry, b: Addr)
    requires len <= 32 && TableOk(t, len) && k < |t| && EntryOk(e, len) && e.addr == t[k].addr
    ensures TableOk(t[k := e], len)
    ensures Found(t[k := e], b) == if b == e.addr then Some(Plain(e)) else Found(t, b)
  {
    hide Index, EntryOk;
    IndexIs(t[k := e], b, Index(t, b));
  }

  // ---------------------------------------------------------------------------
  // Longest-prefix match
  // ---------------------------------------------------------------------------

  predicate Covers(p: Prefix, a: Addr) {
    p.len <= 32 && Cut(a, p.len) == p.addr
  }

  /** What a lookup answers once it has found its route. */
  function Via(t: Entry, a: Addr): Entry {
    if t.len > 0 && Connected(t) then HostOf(t, a) else t
  }

  /** The answer for an address: the route of the greatest length that covers it. */
  ghost predicate IsAnswer(m: Routes, a: Addr, r: Option<Entry>) {
    match r
    case None => forall p | p in m :: !Covers(p, a)
    case Some(t) => exists p :: Longest(m, a, p) && t == Via(m[p], a)
  }

  ghost predicate Longest(m: Routes, a: Addr, p: Prefix) {
    && p in m && Covers(p, a)
    && forall q | q in m && Covers(q, a) :: q.len <= p.len
  }

  /** There is exactly one. */
  lemma {:induction false} AnswerUnique(m: Routes, a: Addr, r: Option<Entry>, q: Option<Entry>)
    requires IsAnswer(m, a, r) && IsAnswer(m, a, q)
    ensures r == q
  {
    if r.Some? && q.Some? {
      var x :| Longest(m, a, x) && r.value == Via(m[x], a);
      var y :| Longest(m, a, y) && q.value == Via(m[y], a);
      assert x == y;
    }
  }

  /** A new prefix takes over exactly the addresses it covers that no longer prefix covers. */
  lemma {:induction false} AddAnswers(m: Routes, p: Prefix, t: Entry, a: Addr, r: Option<Entry>)
    requires p !in m && IsAnswer(m, a, r)
    ensures IsAnswer(m[p := t], a,
                     if Covers(p, a) && (forall q | q in m && Covers(q, a) :: q.len < p.len) then Some(Via(t, a)) else r)
  {
    hide Via, Cut;
    if Covers(p, a) && (forall q | q in m && Covers(q, a) :: q.len < p.len) {
      assert Longest(m[p := t], a, p);
    } else if r.Some? {
      var q :| Longest(m, a, q) && r.value == Via(m[q], a);
      assert p.len == q.len && Covers(p, a) ==> p == q;
      assert Longest(m[p := t], a, q);
    }
  }

  /** Removing a prefix changes the answer of no address but those it was the longest for. */
  lemma {:induction false} DelAnswers(m: Routes, p: Prefix, a: Addr, r: Option<Entry>)
    requires IsAnswer(m, a, r) && !Longest(m, a, p)
    ensures IsAnswer(m - {p}, a, r)
  {
    hide Via, Cut;
    if r.Some? {
      var q :| Longest(m, a, q) && r.value == Via(m[q], a);
      assert Longest(m - {p}, a, q);
    }
  }
}
