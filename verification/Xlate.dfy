/** VLAN translation: the rules of each port and the reference counts kept beside them, by how many
    rules of a port a VLAN is the target, and by how many rules of all ports. */
module Xlate {
  import opened Common

  datatype Status = OK | BadValue

  const NVLANS := 4094

  /** No VLAN, or every VLAN. */
  const ALL_VLANS := 0

  /** The counter is a bit field. */
  const REFC_LIMIT := 0x1000

  predicate VlanOrAll(vid: int) {
    vid == ALL_VLANS || VlanValid(vid)
  }

  datatype Conf = Conf(xlate: bool, mapTo: int, refc: int)

  /** One entry for each VLAN, the first for VLAN 1. */
  type Confs = c: seq<Conf> | |c| == NVLANS witness seq(NVLANS, _ => Conf(false, ALL_VLANS, 0))

  /** A port's rules; `before` is the counter's bits in what lies just before the first entry. */
  datatype Port = Port(conf: Confs, before: int, defXlate: bool, defMapTo: int)

  type Ports = seq<Port>

  /** The counter of a VLAN. */
  function Ref(p: Port, v: int): int
    requires VlanValid(v)
  {
    p.conf[v - 1].refc
  }

  // ---------------------------------------------------------------------------
  // What the counters count
  // ---------------------------------------------------------------------------

  /** How many VLANs are translated to `v`. */
  function Count(c: seq<Conf>, v: int): nat {
    if c == [] then 0 else Count(c[..|c| - 1], v) + One(c[|c| - 1].mapTo == v)
  }

  /** How many rules of the port have `v` as their target, the default rule included. */
  function Uses(p: Port, v: int): nat {
    Count(p.conf, v) + One(p.defXlate && p.defMapTo == v)
  }

  /** What a port does with each VLAN, and with one it has no rule for. */
  datatype Rules = Rules(specific: seq<Option<int>>, fallback: Option<int>)

  function Rule(c: Conf): Option<int> {
    if c.xlate then Some(c.mapTo) else None
  }

  /** The VLAN a rule names, or none. */
  function Target(o: Option<int>): int {
    if o.Some? then o.value else ALL_VLANS
  }

  function RulesOf(p: Port): (r: Rules)
    ensures |r.specific| == NVLANS
  {
    Rules(seq(|p.conf|, f requires 0 <= f < |p.conf| => Rule(p.conf[f])), if p.defXlate then Some(p.defMapTo) else None)
  }

  /** The port's fields agree, and every counter is the number of rules. */
  ghost predicate PortOk(p: Port) {
    && 0 <= p.before < REFC_LIMIT
    && (forall f | 0 <= f < NVLANS :: VlanOrAll(p.conf[f].mapTo) && (!p.conf[f].xlate ==> p.conf[f].mapTo == ALL_VLANS))
    && VlanOrAll(p.defMapTo) && (!p.defXlate ==> p.defMapTo == ALL_VLANS)
    && forall v | VlanValid(v) :: Ref(p, v) == Uses(p, v)
  }

  /** Every rule for one VLAN names its target. */
  ghost predicate Tidy(p: Port) {
    forall f | 0 <= f < NVLANS :: p.conf[f].xlate ==> p.conf[f].mapTo != ALL_VLANS
  }

  /** The sum of a VLAN's counters over all ports. */
  function Total(ps: Ports, v: int): int
    requires VlanValid(v)
  {
    if ps == [] then 0 else Total(ps[..|ps| - 1], v) + Ref(ps[|ps| - 1], v)
  }

  /** The VLANs translated to `v`. */
  ghost function Sources(c: seq<Conf>, v: int): set<int> {
    set f | 0 <= f < |c| && c[f].mapTo == v
  }

  lemma {:induction false} CountIs(c: seq<Conf>, v: int)
    ensures Count(c, v) == |Sources(c, v)|
  {
    if c == [] {
      assert Sources(c, v) == {};
    } else {
      var n := |c| - 1;
      CountIs(c[..n], v);
      var rest := Sources(c[..n], v);
      assert Sources(c, v) == if c[n].mapTo == v then rest + {n} else rest;
    }
  }

  /** A counter in the port's fields: the VLANs translated to it, and the default rule. */
  lemma {:induction false} RefIs(p: Port, v: int)
    requires PortOk(p) && VlanValid(v)
    ensures p.conf[v - 1].refc ==
            |set f | 0 <= f < NVLANS && p.conf[f].mapTo == v| + (if p.defXlate && p.defMapTo == v then 1 else 0)
  {
    hide Count;
    assert Ref(p, v) == Uses(p, v);
    CountIs(p.conf, v);
    assert Sources(p.conf, v) == set f | 0 <= f < NVLANS && p.conf[f].mapTo == v;
  }

  lemma {:induction false} CountMax(c: seq<Conf>, v: int)
    ensures Count(c, v) <= |c|
  {
    if c != [] { CountMax(c[..|c| - 1], v); }
  }

  /** A counter never exceeds its bit field. */
  lemma {:induction false} RefcFits(p: Port, v: int)
    requires PortOk(p) && VlanValid(v)
    ensures 0 <= Ref(p, v) < REFC_LIMIT
  {
    assert Ref(p, v) == Uses(p, v);
    CountMax(p.conf, v);
  }

  lemma {:induction false} CountSet(c: seq<Conf>, f: nat, x: Conf, v: int)
    requires f < |c|
    ensures Count(c[f := x], v) == Count(c, v) - One(c[f].mapTo == v) + One(x.mapTo == v)
  {
    var n := |c| - 1;
    if f < n {
      CountSet(c[..n], f, x, v);
      assert c[f := x][..n] == c[..n][f := x];
    } else {
      assert c[f := x][..n] == c[..n];
    }
  }

  lemma {:induction false} TotalSet(ps: Ports, i: nat, p: Port, v: int)
    requires VlanValid(v) && i < |ps|
    ensures Total(ps[i := p], v) == Total(ps, v) - Ref(ps[i], v) + Ref(p, v)
  {
    var n := |ps| - 1;
    if i < n {
      TotalSet(ps[..n], i, p, v);
      assert ps[i := p][..n] == ps[..n][i := p];
    } else {
      assert ps[i := p][..n] == ps[..n];
    }
  }

  // ---------------------------------------------------------------------------
  // One port's changes, on values
  // ---------------------------------------------------------------------------

  /** A counter moved by `d`, within its bit field. */
  function Bump(p: Port, v: int, d: int): Port
    requires VlanValid(v)
  {
    p.(conf := p.conf[v - 1 := p.conf[v - 1].(refc := (p.conf[v - 1].refc + d) % REFC_LIMIT)])
  }

  /** The counter's bits before the first entry, moved by `d`. */
  function Spill(p: Port, d: int): Port {
    p.(before := (p.before + d) % REFC_LIMIT)
  }

  function MapTo(p: Port, f: int, o: Option<int>): Port
    requires VlanValid(f)
  {
    p.(conf := p.conf[f - 1 := p.conf[f - 1].(xlate := o.Some?, mapTo := Target(o))])
  }

  function Fallback(p: Port, o: Option<int>): Port {
    p.(defXlate := o.Some?, defMapTo := Target(o))
  }

  /** The counters after one rule has moved from VLAN `a` to VLAN `b`. */
  function Moved(p: Port, a: int, b: int): Port
    requires VlanOrAll(a) && VlanOrAll(b)
  {
    var q := if VlanValid(a) then Bump(p, a, -1) else p;
    if VlanValid(b) then Bump(q, b, 1) else q
  }

  /** The counters moved keep all other fields, and where a rule leaves `a` for `b` no bit is lost. */
  lemma {:induction false} MovedRefc(p: Port, a: int, b: int)
    requires VlanOrAll(a) && VlanOrAll(b) && (a == b ==> a == ALL_VLANS)
    requires VlanValid(a) ==> 1 <= Ref(p, a) <= 4095
    requires VlanValid(b) ==> 0 <= Ref(p, b) <= 4094
    ensures var q := Moved(p, a, b);
            && q.before == p.before && q.defXlate == p.defXlate && q.defMapTo == p.defMapTo
            && (forall f | 0 <= f < NVLANS :: q.conf[f].xlate == p.conf[f].xlate && q.conf[f].mapTo == p.conf[f].mapTo)
            && (forall v | VlanValid(v) :: Ref(q, v) == Ref(p, v) - One(v == a) + One(v == b))
  {
  }

  lemma {:induction false} SameUses(p: Port, q: Port, v: int)
    requires forall f | 0 <= f < |p.conf| :: q.conf[f].mapTo == p.conf[f].mapTo
    requires q.defXlate == p.defXlate && q.defMapTo == p.defMapTo
    ensures Uses(p, v) == Uses(q, v)
  {
    CountSame(p.conf, q.conf, v);
  }

  lemma {:induction false} CountSame(c: seq<Conf>, d: seq<Conf>, v: int)
    requires |c| == |d| && forall f | 0 <= f < |c| :: d[f].mapTo == c[f].mapTo
    ensures Count(c, v) == Count(d, v)
  {
    if c != [] { CountSame(c[..|c| - 1], d[..|c| - 1], v); }
  }

  /** The rules of `r` are those of `p` but for one, which used `a` and now uses `b`. */
  ghost predicate Shifted(p: Port, r: Port, a: int, b: int) {
    && 0 <= r.before < REFC_LIMIT
    && (forall f | 0 <= f < NVLANS :: VlanOrAll(r.conf[f].mapTo) && (!r.conf[f].xlate ==> r.conf[f].mapTo == ALL_VLANS))
    && VlanOrAll(r.defMapTo) && (!r.defXlate ==> r.defMapTo == ALL_VLANS)
    && (forall v | VlanValid(v) :: Uses(r, v) == Uses(p, v) - One(v == a) + One(v == b))
    && (forall v | VlanValid(v) :: Ref(r, v) == Ref(p, v))
  }

  lemma {:induction false} MapToShifts(p: Port, f: int, o: Option<int>, d: int)
    requires PortOk(p) && VlanValid(f) && VlanOrAll(Target(o))
    ensures Shifted(p, Spill(MapTo(p, f, o), d), p.conf[f - 1].mapTo, Target(o))
    ensures RulesOf(Spill(MapTo(p, f, o), d)) == RulesOf(p).(specific := RulesOf(p).specific[f - 1 := o])
  {
    var r := Spill(MapTo(p, f, o), d);
    forall v | VlanValid(v)
      ensures Uses(r, v) == Uses(p, v) - One(v == p.conf[f - 1].mapTo) + One(v == Target(o))
    {
      CountSet(p.conf, f - 1, r.conf[f - 1], v);
    }
  }

  lemma {:induction false} FallbackShifts(p: Port, o: Option<int>)
    requires PortOk(p) && VlanOrAll(Target(o))
    ensures Shifted(p, Fallback(p, o), p.defMapTo, Target(o))
    ensures RulesOf(Fallback(p, o)) == RulesOf(p).(fallback := o)
  {
  }

  /** Moving the counters along with the rule makes them right again; none over- or underflows. */
  lemma {:induction false} ShiftCounted(p: Port, r: Port, a: int, b: int)
    requires PortOk(p) && Shifted(p, r, a, b) && VlanOrAll(a) && VlanOrAll(b) && (a == b ==> a == ALL_VLANS)
    ensures PortOk(Moved(r, a, b)) && RulesOf(Moved(r, a, b)) == RulesOf(r) && Moved(r, a, b).before == r.before
    ensures forall v | VlanValid(v) :: Ref(Moved(r, a, b), v) == Ref(p, v) - One(v == a) + One(v == b)
  {
    hide Moved, Uses;
    if VlanValid(a) { UsesFit(p, a); UsesFit(r, a); }
    if VlanValid(b) { UsesFit(p, b); UsesFit(r, b); }
    MovedRefc(r, a, b);
    var q := Moved(r, a, b);
    forall v | VlanValid(v)
      ensures Ref(q, v) == Uses(q, v)
    {
      SameUses(r, q, v);
    }
  }

  lemma {:induction false} UsesFit(p: Port, v: int)
    ensures 0 <= Uses(p, v) <= 4095
  {
    CountMax(p.conf, v);
  }

  // ---------------------------------------------------------------------------
  // All ports
  // ---------------------------------------------------------------------------

  ghost predicate Counted(ps: Ports, vt: seq<int>) {
    && (forall i | 0 <= i < |ps| :: PortOk(ps[i]))
    && |vt| == NVLANS && forall v | VlanValid(v) :: Sum(vt, v) == Total(ps, v)
  }

  function Sum(vt: seq<int>, v: int): int
    requires |vt| == NVLANS && VlanValid(v)
  {
    vt[v - 1]
  }

  function VtBump(vt: seq<int>, v: int, d: int): seq<int>
    requires |vt| == NVLANS && VlanValid(v)
  {
    vt[v - 1 := vt[v - 1] + d]
  }

  function VtMoved(vt: seq<int>, a: int, b: int): seq<int>
    requires |vt| == NVLANS && VlanOrAll(a) && VlanOrAll(b)
    ensures |VtMoved(vt, a, b)| == NVLANS
  {
    var w := if VlanValid(a) then VtBump(vt, a, -1) else vt;
    if VlanValid(b) then VtBump(w, b, 1) else w
  }

  /** The sums follow. */
  lemma {:induction false} SumsFollow(ps: Ports, vt: seq<int>, i: nat, r: Port, a: int, b: int)
    requires Counted(ps, vt) && i < |ps| && Shifted(ps[i], r, a, b) && VlanOrAll(a) && VlanOrAll(b) && (a == b ==> a == ALL_VLANS)
    ensures Counted(ps[i := Moved(r, a, b)], VtMoved(vt, a, b))
    ensures RulesOf(Moved(r, a, b)) == RulesOf(r) && Moved(r, a, b).before == r.before
    ensures forall v | VlanValid(v) :: Ref(Moved(r, a, b), v) == Ref(ps[i], v) - One(v == a) + One(v == b)
  {
    hide Moved, PortOk, Shifted;
    ShiftCounted(ps[i], r, a, b);
    forall v | VlanValid(v)
      ensures Sum(VtMoved(vt, a, b), v) == Total(ps[i := Moved(r, a, b)], v)
    {
      TotalSet(ps, i, Moved(r, a, b), v);
    }
  }

  // ---------------------------------------------------------------------------
  // Requests
  // ---------------------------------------------------------------------------

  /** The rules of a port after a request. */
  function After(r: Rules, from: int, to: int, add: bool): Rules
    requires |r.specific| == NVLANS && VlanOrAll(from)
  {
    if add then
      if from == ALL_VLANS then r.(fallback := Some(to))
      else if Target(r.specific[from - 1]) == to then r
      else r.(specific := r.specific[from - 1 := Some(to)])
    else if from != ALL_VLANS && r.specific[from - 1].Some? then
      r.(specific := r.specific[from - 1 := None])
    else
      r.(fallback := None)
  }

  /** A port's fields before and after a request, and of its other VLANs those that stay. */
  predicate Rewritten(p: Port, q: Port, from: int, to: int, add: bool) {
    && (forall f | 0 <= f < NVLANS && f + 1 != from ::
          q.conf[f].xlate == p.conf[f].xlate && q.conf[f].mapTo == p.conf[f].mapTo)
    && if add && from == 0 then
         q.defXlate && q.defMapTo == to
       else if add && VlanValid(from) then
         var c, d := p.conf[from - 1], q.conf[from - 1];
         && q.defXlate == p.defXlate && q.defMapTo == p.defMapTo
         && (if c.mapTo == to then d.xlate == c.xlate && d.mapTo == to else d.xlate && d.mapTo == to)
       else if VlanValid(from) && p.conf[from - 1].xlate then
         && q.defXlate == p.defXlate && q.defMapTo == p.defMapTo
         && !q.conf[from - 1].xlate && q.conf[from - 1].mapTo == 0
       else
         && !q.defXlate && q.defMapTo == 0
         && (VlanValid(from) ==> !q.conf[from - 1].xlate && q.conf[from - 1].mapTo == p.conf[from - 1].mapTo)
  }

  lemma {:induction false} AfterRewrites(p: Port, q: Port, from: int, to: int, add: bool)
    requires PortOk(p) && PortOk(q) && VlanOrAll(from) && RulesOf(q) == After(RulesOf(p), from, to, add)
    ensures Rewritten(p, q, from, to, add)
  {
    hide Uses;
    forall f | 0 <= f < NVLANS
      ensures Rule(q.conf[f]) == After(RulesOf(p), from, to, add).specific[f]
      ensures Rule(p.conf[f]) == RulesOf(p).specific[f]
    {
      assert RulesOf(q).specific[f] == Rule(q.conf[f]);
    }
    assert RulesOf(q).fallback == After(RulesOf(p), from, to, add).fallback;
  }

  /** A removal touches the default rule exactly when the port has one and the VLAN named, if any, has no
      rule of its own: asked to remove a rule that is not there, the code removes the default one. */
  lemma {:induction false} RemovalTouchesDefault(r: Rules, from: int, to: int)
    requires |r.specific| == NVLANS && VlanOrAll(from)
    ensures After(r, from, to, false).fallback != r.fallback <==>
            r.fallback.Some? && (from == ALL_VLANS || r.specific[from - 1].None?)
    ensures After(r, from, to, false).specific != r.specific <==>
            from != ALL_VLANS && r.specific[from - 1].Some?
  {
    if from != ALL_VLANS && r.specific[from - 1].Some? {
      assert After(r, from, to, false).specific[from - 1] != r.specific[from - 1];
    }
  }

  /** A rule for one VLAN that has a target is to be replaced by one that names none. */
  predicate NoTarget(p: Port, from: int, to: int, add: bool) {
    add && VlanValid(from) && to == ALL_VLANS && p.conf[from - 1].mapTo != ALL_VLANS
  }

  /** The requests that count at the entry before the first: those, and taking such a rule out again. */
  predicate CountsBefore(p: Port, from: int, to: int, add: bool) {
    NoTarget(p, from, to, add) ||
    (!add && VlanValid(from) && p.conf[from - 1].xlate && p.conf[from - 1].mapTo == ALL_VLANS)
  }

  /** By how much they do. */
  function Slip(p: Port, from: int, to: int, add: bool): int {
    if !CountsBefore(p, from, to, add) then 0 else if add then 1 else -1
  }

  /** On a tidy port only a request with no target does, and it is what makes a port untidy. */
  lemma {:induction false} TidyBefore(p: Port, q: Port, from: int, to: int, add: bool)
    requires PortOk(p) && Tidy(p) && VlanOrAll(from) && RulesOf(q) == After(RulesOf(p), from, to, add) && PortOk(q)
    ensures CountsBefore(p, from, to, add) <==> NoTarget(p, from, to, add)
    ensures Tidy(q) <==> !NoTarget(p, from, to, add)
  {
    forall f | 0 <= f < NVLANS
      ensures Rule(q.conf[f]) == After(RulesOf(p), from, to, add).specific[f]
      ensures Rule(p.conf[f]) == RulesOf(p).specific[f]
    {
      assert RulesOf(q).specific[f] == Rule(q.conf[f]);
    }
    if NoTarget(p, from, to, add) {
      assert q.conf[from - 1].xlate && q.conf[from - 1].mapTo == ALL_VLANS;
    }
  }

  // --- orders of writing that come to the same ------------------------------------

  lemma {:induction false} BumpMapTo(p: Port, f: int, o: Option<int>, a: int)
    requires VlanValid(f) && VlanValid(a)
    ensures MapTo(Bump(p, a, -1), f, o) == Bump(MapTo(p, f, o), a, -1)
  {
  }

  lemma {:induction false} BumpFallback(p: Port, o: Option<int>, a: int)
    requires VlanValid(a)
    ensures Fallback(Bump(p, a, -1), o) == Bump(Fallback(p, o), a, -1)
  {
  }

  lemma {:induction false} BumpSpill(p: Port, a: int, d: int)
    requires VlanValid(a)
    ensures Spill(Bump(p, a, -1), d) == Bump(Spill(p, d), a, -1)
  {
  }

  lemma {:induction false} FallbackBefore(p: Port, o: Option<int>)
    ensures Fallback(p, o).before == p.before
  {
  }

  lemma {:induction false} SpillNone(p: Port)
    requires 0 <= p.before < REFC_LIMIT
    ensures Spill(p, 0) == p
  {
  }

  lemma {:induction false} MapToBefore(p: Port, f: int, o: Option<int>, d: int)
    requires VlanValid(f)
    ensures MapTo(p, f, o).before == p.before && Spill(MapTo(p, f, o), d).before == (p.before + d) % REFC_LIMIT
  {
  }

  /** What is known of a port before a request. */
  lemma {:induction false} PortAt(ps: Ports, vt: seq<int>, i: nat, from: int)
    requires Counted(ps, vt) && i < |ps| && VlanOrAll(from)
    ensures PortOk(ps[i]) && VlanOrAll(ps[i].defMapTo) && (!ps[i].defXlate ==> ps[i].defMapTo == ALL_VLANS)
    ensures 0 <= ps[i].before < REFC_LIMIT
    ensures RulesOf(ps[i]).fallback == if ps[i].defXlate then Some(ps[i].defMapTo) else None
    ensures from != ALL_VLANS ==>
              var c := ps[i].conf[from - 1];
              VlanOrAll(c.mapTo) && (!c.xlate ==> c.mapTo == ALL_VLANS) && RulesOf(ps[i]).specific[from - 1] == Rule(c)
  {
  }

  lemma {:induction false} CountZero(c: seq<Conf>, v: int)
    requires VlanValid(v) && forall f | 0 <= f < |c| :: c[f].mapTo == ALL_VLANS
    ensures Count(c, v) == 0
  {
    if c != [] { CountZero(c[..|c| - 1], v); }
  }

  lemma {:induction false} TotalZero(ps: Ports, v: int)
    requires VlanValid(v) && forall i | 0 <= i < |ps| :: Ref(ps[i], v) == 0
    ensures Total(ps, v) == 0
  {
    if ps != [] { TotalZero(ps[..|ps| - 1], v); }
  }

  class Translator {
    const ports: array<Port>
    const vt: array<int>
    const tunnel: bool

    /** What lies just before the first sum. */
    var vtBefore: int

    /** Every counter is the number of its port's rules, every sum the sum of the counters. */
    ghost predicate Sound()
      reads ports, vt
    {
      vt.Length == NVLANS && Counted(ports[..], vt[..])
    }

    ghost predicate Valid()
      reads ports, vt
    {
      Sound() && forall i | 0 <= i < ports.Length :: Tidy(ports[i])
    }

    constructor (n: nat, tun: bool, cell: int, sum: int)
      requires 0 <= cell < REFC_LIMIT
      ensures Valid() && fresh(ports) && fresh(vt) && ports.Length == n && tunnel == tun && vtBefore == sum
      ensures forall i | 0 <= i < n ::
                RulesOf(ports[i]) == Rules(seq(NVLANS, _ => None), None) && ports[i].before == cell
    {
      var p := Port(seq(NVLANS, _ => Conf(false, ALL_VLANS, 0)), cell, false, ALL_VLANS);
      ports := new Port[n](_ => p);
      vt := new int[NVLANS](_ => 0);
      tunnel := tun;
      vtBefore := sum;
      new;
      forall v | VlanValid(v)
        ensures Ref(p, v) == Uses(p, v)
        ensures Sum(vt[..], v) == Total(ports[..], v)
      {
        CountZero(p.conf, v);
        TotalZero(ports[..], v);
      }
    }

    /** Counts at the entry of index `v` - 1, which for no VLAN is the one before the first. */
    method CountAt(i: nat, v: int, d: int)
      requires i < ports.Length && vt.Length == NVLANS && VlanOrAll(v)
      modifies ports, vt, this`vtBefore
      ensures v == ALL_VLANS ==>
                && ports[..] == old(ports[..])[i := Spill(old(ports[i]), d)]
                && vt[..] == old(vt[..]) && vtBefore == old(vtBefore) + d
      ensures v != ALL_VLANS ==>
                && ports[..] == old(ports[..])[i := Bump(old(ports[i]), v, d)]
                && vt[..] == VtBump(old(vt[..]), v, d) && vtBefore == old(vtBefore)
    {
      var p := ports[i];
      if v == ALL_VLANS {
        ports[i] := p.(before := (p.before + d) % REFC_LIMIT);
        vtBefore := vtBefore + d;
      } else {
        ports[i] := p.(conf := p.conf[v - 1 := p.conf[v - 1].(refc := (p.conf[v - 1].refc + d) % REFC_LIMIT)]);
        vt[v - 1] := vt[v - 1] + d;
      }
    }

    method SetMap(i: nat, f: int, o: Option<int>)
      requires i < ports.Length && VlanValid(f)
      modifies ports
      ensures ports[..] == old(ports[..])[i := MapTo(old(ports[i]), f, o)]
    {
      var p := ports[i];
      ports[i] := p.(conf := p.conf[f - 1 := p.conf[f - 1].(xlate := o.Some?, mapTo := Target(o))]);
    }

    method SetFallback(i: nat, o: Option<int>)
      requires i < ports.Length
      modifies ports
      ensures ports[..] == old(ports[..])[i := Fallback(old(ports[i]), o)]
    {
      ports[i] := ports[i].(defXlate := o.Some?, defMapTo := Target(o));
    }

    /** Adds or removes a rule.  The counters stay right whatever is asked.  A valid state stays valid, and
        nothing is counted before the first entry, if and only if no rule with a target is replaced by one
        without. */
    method Translate(pid: nat, from: int, to: int, add: bool) returns (st: Status, upd: seq<int>)
      requires Sound()
      modifies ports, vt, this`vtBefore
      ensures Sound()
      ensures st == if pid >= ports.Length || !VlanOrAll(from) || !VlanOrAll(to)
                       || (from == ALL_VLANS && to != ALL_VLANS && !tunnel) then BadValue else OK
      ensures st == BadValue ==>
                ports[..] == old(ports[..]) && vt[..] == old(vt[..]) && vtBefore == old(vtBefore)
      ensures st == OK ==>
                && ports[..] == old(ports[..])[pid := ports[pid]]
                && RulesOf(ports[pid]) == After(RulesOf(old(ports[pid])), from, to, add)
                && Rewritten(old(ports[pid]), ports[pid], from, to, add)
                && ports[pid].before == (old(ports[pid]).before + Slip(old(ports[pid]), from, to, add)) % REFC_LIMIT
                && vtBefore == old(vtBefore) + Slip(old(ports[pid]), from, to, add)
      ensures old(Valid()) ==>
                (Valid() <==> pid >= ports.Length || !NoTarget(old(ports[pid]), from, to, add))
      ensures old(Valid()) ==>
                (vtBefore == old(vtBefore) && (forall i | 0 <= i < ports.Length :: ports[i].before == old(ports[i]).before)
                 <==> pid >= ports.Length || !NoTarget(old(ports[pid]), from, to, add))
      ensures st == OK ==> forall v | VlanValid(v) && Ref(ports[pid], v) != Ref(old(ports[pid]), v) :: v in upd
    {
      hide Counted, PortOk, MapTo, Fallback, Shifted, RulesOf, Bump, VtBump, Spill, Tidy, Rewritten, After;
      upd := [];
      if pid >= ports.Length {
        return BadValue, upd;
      }
      if from != ALL_VLANS && !VlanValid(from) {
        return BadValue, upd;
      }
      if to != ALL_VLANS && !VlanValid(to) {
        return BadValue, upd;
      }
      if from == ALL_VLANS && to != ALL_VLANS && !tunnel {
        return BadValue, upd;
      }
      ghost var ps, w, p := ports[..], vt[..], ports[pid];
      PortAt(ps, w, pid, from);
      upd := Apply(pid, from, to, add);
      st := OK;
      PortAt(ports[..], vt[..], pid, from);
      AfterRewrites(p, ports[pid], from, to, add);
      if old(Valid()) {
        assert Tidy(p);
        TidyBefore(p, ports[pid], from, to, add);
        forall i | 0 <= i < ports.Length && i != pid
          ensures ports[i] == ps[i]
        {
          assert ports[..][i] == ps[i];
        }
      }
    }

    /** The counters are right, only port `pid` has changed, and has the rules `r`; the entries before the
        first have moved by `slip`, and every VLAN whose counter has moved is in `upd`. */
    ghost predicate Became(ps: Ports, was: int, pid: nat, r: Rules, slip: int, upd: seq<int>)
      reads this, ports, vt
    {
      && Sound() && pid < |ps| == ports.Length
      && ports[..] == ps[pid := ports[pid]]
      && RulesOf(ports[pid]) == r
      && ports[pid].before == (ps[pid].before + slip) % REFC_LIMIT && vtBefore == was + slip
      && forall v | VlanValid(v) && Ref(ports[pid], v) != Ref(ps[pid], v) :: v in upd
    }

    /** A request that has passed the checks. */
    method Apply(pid: nat, from: int, to: int, add: bool) returns (upd: seq<int>)
      requires Sound() && pid < ports.Length && VlanOrAll(from) && VlanOrAll(to)
      modifies ports, vt, this`vtBefore
      ensures Became(old(ports[..]), old(vtBefore), pid, After(RulesOf(old(ports[pid])), from, to, add),
                     Slip(old(ports[pid]), from, to, add), upd)
    {
      hide Counted, PortOk, RulesOf;
      upd := [];
      ghost var ps, w, p := ports[..], vt[..], ports[pid];
      PortAt(ps, w, pid, from);
      assert ps[pid := ports[pid]] == ps;
      if add {
        if from != ALL_VLANS {
          if ports[pid].conf[from - 1].mapTo != to {
            upd := AddRule(pid, from, to);
          }
        } else if !(ports[pid].defXlate && ports[pid].defMapTo == to) {
          upd := AddFallback(pid, to);
        }
      } else if from != ALL_VLANS && ports[pid].conf[from - 1].xlate {
        upd := RemoveRule(pid, from);
      } else if ports[pid].defXlate {
        upd := RemoveFallback(pid);
      }
    }

    method AddRule(pid: nat, from: int, to: int) returns (upd: seq<int>)
      requires Sound() && pid < ports.Length && VlanValid(from) && VlanOrAll(to)
      requires ports[pid].conf[from - 1].mapTo != to
      modifies ports, vt, this`vtBefore
      ensures var r := RulesOf(old(ports[pid]));
              Became(old(ports[..]), old(vtBefore), pid, r.(specific := r.specific[from - 1 := Some(to)]),
                     if to == ALL_VLANS then 1 else 0, upd)
    {
      hide Counted, PortOk, MapTo, Shifted, RulesOf, Bump, VtBump, Spill;
      upd := [];
      ghost var ps, w, p := ports[..], vt[..], ports[pid];
      ghost var d := if to == ALL_VLANS then 1 else 0;
      var was := ports[pid].conf[from - 1].mapTo;
      PortAt(ps, w, pid, from);
      MapToShifts(p, from, Some(to), d);
      MapToBefore(p, from, Some(to), d);
      SpillNone(MapTo(p, from, Some(to)));
      SumsFollow(ps, w, pid, Spill(MapTo(p, from, Some(to)), d), was, to);
      if VlanValid(was) {
        BumpMapTo(p, from, Some(to), was);
        BumpSpill(MapTo(p, from, Some(to)), was, d);
        CountAt(pid, was, -1);
        upd := upd + [was];
      }
      SetMap(pid, from, Some(to));
      CountAt(pid, to, 1);
      upd := upd + [to];
      assert ports[..] == ps[pid := ports[pid]];
    }

    method AddFallback(pid: nat, to: int) returns (upd: seq<int>)
      requires Sound() && pid < ports.Length && VlanOrAll(to)
      requires ports[pid].defXlate ==> ports[pid].defMapTo != to
      modifies ports, vt, this`vtBefore
      ensures Became(old(ports[..]), old(vtBefore), pid, RulesOf(old(ports[pid])).(fallback := Some(to)), 0, upd)
    {
      hide Counted, PortOk, Fallback, Shifted, RulesOf, Bump, VtBump;
      upd := [];
      ghost var ps, w, p := ports[..], vt[..], ports[pid];
      var was := ports[pid].defMapTo;
      PortAt(ps, w, pid, ALL_VLANS);
      FallbackShifts(p, Some(to));
      FallbackBefore(p, Some(to));
      SumsFollow(ps, w, pid, Fallback(p, Some(to)), was, to);
      if ports[pid].defXlate && VlanValid(was) {
        BumpFallback(p, Some(to), was);
        CountAt(pid, was, -1);
        upd := upd + [was];
      }
      SetFallback(pid, Some(to));
      if VlanValid(to) {
        CountAt(pid, to, 1);
        upd := upd + [to];
      }
      assert ports[..] == ps[pid := ports[pid]];
    }

    method RemoveRule(pid: nat, from: int) returns (upd: seq<int>)
      requires Sound() && pid < ports.Length && VlanValid(from) && ports[pid].conf[from - 1].xlate
      modifies ports, vt, this`vtBefore
      ensures var r := RulesOf(old(ports[pid]));
              Became(old(ports[..]), old(vtBefore), pid, r.(specific := r.specific[from - 1 := None]),
                     if old(ports[pid]).conf[from - 1].mapTo == ALL_VLANS then -1 else 0, upd)
    {
      hide Counted, PortOk, MapTo, Shifted, RulesOf, Bump, VtBump, Spill;
      ghost var ps, w, p := ports[..], vt[..], ports[pid];
      var was := ports[pid].conf[from - 1].mapTo;
      ghost var d := if was == ALL_VLANS then -1 else 0;
      PortAt(ps, w, pid, from);
      MapToShifts(p, from, None, d);
      MapToBefore(p, from, None, d);
      SpillNone(MapTo(p, from, None));
      SumsFollow(ps, w, pid, Spill(MapTo(p, from, None), d), was, ALL_VLANS);
      SetMap(pid, from, None);
      CountAt(pid, was, -1);
      upd := [was];
      assert ports[..] == ps[pid := ports[pid]];
    }

    method RemoveFallback(pid: nat) returns (upd: seq<int>)
      requires Sound() && pid < ports.Length && ports[pid].defXlate
      modifies ports, vt, this`vtBefore
      ensures Became(old(ports[..]), old(vtBefore), pid, RulesOf(old(ports[pid])).(fallback := None), 0, upd)
    {
      hide Counted, PortOk, Fallback, Shifted, RulesOf, Bump, VtBump;
      upd := [];
      ghost var ps, w, p := ports[..], vt[..], ports[pid];
      var was := ports[pid].defMapTo;
      PortAt(ps, w, pid, ALL_VLANS);
      FallbackShifts(p, None);
      FallbackBefore(p, None);
      SumsFollow(ps, w, pid, Fallback(p, None), was, ALL_VLANS);
      if was != ALL_VLANS {
        BumpFallback(p, None, was);
        CountAt(pid, was, -1);
        upd := upd + [was];
      }
      SetFallback(pid, None);
      assert ports[..] == ps[pid := ports[pid]];
    }
  }

  /** VLAN 1 is mapped to VLAN 2, and then to none: one too many is counted before the first entry. */
  method NoTargetFails() returns (t: Translator)
    ensures t.Sound() && !t.Valid() && t.vtBefore == 1 && t.ports.Length == 1 && t.ports[0].before == 1
  {
    hide Counted, Tidy, PortOk, RulesOf, Bump;
    t := new Translator(1, false, 0, 0);
    RuleAt(t.ports[0], 0);
    var st, upd := t.Translate(0, 1, 2, true);
    RuleAt(t.ports[0], 0);
    assert t.ports[0].conf[0].mapTo == 2 && t.ports[0].before == 0;
    st, upd := t.Translate(0, 1, ALL_VLANS, true);
  }

  lemma {:induction false} RuleAt(p: Port, f: nat)
    requires f < NVLANS
    ensures RulesOf(p).specific[f] == Rule(p.conf[f])
  {
  }
}
