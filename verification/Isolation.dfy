/** Protected ports and communities: the isolation bitmap of each port, kept bit by bit as ports are
    protected and moved between communities, and its copy in the hardware. */
module Isolation {
  import opened Common

  datatype Status = OK | BadValue | BadState

  /** The isolation part of a port. */
  datatype Port = Port(lport: nat, stack: bool, prot: bool, comm: int, bmp: set<nat>, changed: bool)

  type Ports = seq<Port>

  // ---------------------------------------------------------------------------
  // What the bitmaps mean
  // ---------------------------------------------------------------------------

  /** Two ports may talk unless both are protected and share no community. */
  predicate Reach(a: Port, b: Port) {
    !(a.prot && b.prot) || (a.comm != 0 && a.comm == b.comm)
  }

  ghost predicate Distinct(ps: Ports) {
    forall a, b | 0 <= a < b < |ps| :: ps[a].lport != ps[b].lport
  }

  predicate Bit(ps: Ports, a: int, b: int)
    requires 0 <= a < |ps| && 0 <= b < |ps|
  {
    ps[b].lport in ps[a].bmp
  }

  /** `x` is no other port's number. */
  ghost predicate Foreign(ps: Ports, a: int, x: nat) {
    forall b | 0 <= b < |ps| && b != a :: ps[b].lport != x
  }

  /** The bitmap of every port that is not a stack port lists the other ports it may talk to, and
      besides them what it listed at start. */
  ghost predicate Right(ps: Ports, all: set<nat>) {
    && (forall a, b | 0 <= a < |ps| && 0 <= b < |ps| && a != b && !ps[a].stack :: Bit(ps, a, b) <==> Reach(ps[a], ps[b]))
    && (forall a, x | 0 <= a < |ps| && !ps[a].stack && Foreign(ps, a, x) :: x in ps[a].bmp <==> x in all)
  }

  ghost predicate StackFree(ps: Ports) {
    forall a | 0 <= a < |ps| && ps[a].stack :: !ps[a].prot
  }

  /** Being able to talk is mutual, in the bitmaps as well. */
  lemma {:induction false} Symmetric(ps: Ports, all: set<nat>, a: nat, b: nat)
    requires Right(ps, all) && a < |ps| && b < |ps| && a != b && !ps[a].stack && !ps[b].stack
    ensures Bit(ps, a, b) <==> Bit(ps, b, a)
  {
    assert Reach(ps[a], ps[b]) <==> Reach(ps[b], ps[a]);
  }

  /** A port that is not protected may talk to all; so may two of one community. */
  lemma {:induction false} Isolated(ps: Ports, all: set<nat>, a: nat, b: nat)
    requires Right(ps, all) && a < |ps| && b < |ps| && a != b && !ps[a].stack
    ensures !Bit(ps, a, b) <==> ps[a].prot && ps[b].prot && (ps[a].comm == 0 || ps[a].comm != ps[b].comm)
  {
    assert Bit(ps, a, b) <==> Reach(ps[a], ps[b]);
  }

  /** In the fields of the ports alone: a port that is not a stack port lists another unless both are
      protected and are not in one community. */
  ghost predicate Parted(ps: Ports) {
    forall a, b | 0 <= a < |ps| && 0 <= b < |ps| && a != b && !ps[a].stack ::
      ps[b].lport in ps[a].bmp <==> !(ps[a].prot && ps[b].prot && (ps[a].comm == 0 || ps[a].comm != ps[b].comm))
  }

  lemma {:induction false} RightParts(ps: Ports, all: set<nat>)
    requires Right(ps, all)
    ensures Parted(ps)
  {
    forall a, b | 0 <= a < |ps| && 0 <= b < |ps| && a != b && !ps[a].stack
      ensures ps[b].lport in ps[a].bmp <==> !(ps[a].prot && ps[b].prot && (ps[a].comm == 0 || ps[a].comm != ps[b].comm))
    {
      Isolated(ps, all, a, b);
    }
  }

  /** What a change leaves of each port. */
  lemma {:induction false} AlteredAt(ps: Ports, ps': Ports, t: nat, prot: bool, comm: int, a: nat)
    requires Altered(ps, ps', t, prot, comm) && a < |ps|
    ensures |ps'| == |ps| && t < |ps|
    ensures ps'[a] == ps[a].(prot := if a == t then prot else ps[a].prot, comm := if a == t then comm else ps[a].comm,
                             bmp := ps'[a].bmp, changed := ps'[a].changed)
  {
  }

  // ---------------------------------------------------------------------------
  // One change, port by port
  // ---------------------------------------------------------------------------

  /** The bits of two ports for each other, set or cleared. */
  function Link(ps: Ports, t: nat, o: nat, on: bool): (r: Ports)
    requires t < |ps| && o < |ps| && t != o
    ensures |r| == |ps|
  {
    var p, q := ps[t], ps[o];
    ps[t := p.(bmp := if on then p.bmp + {q.lport} else p.bmp - {q.lport}, changed := true)]
      [o := q.(bmp := if on then q.bmp + {p.lport} else q.bmp - {p.lport}, changed := true)]
  }

  /** Port `t` is about to become `t'`, and its bits with the first `n` ports are there already. */
  ghost predicate Half(ps: Ports, all: set<nat>, t: nat, t': Port, n: int) {
    && Distinct(ps) && t < |ps| && !ps[t].stack
    && (forall a, b | 0 <= a < |ps| && 0 <= b < |ps| && a != b && !ps[a].stack ::
          Bit(ps, a, b) <==> Wanted(ps, t, t', n, a, b))
    && (forall a, x | 0 <= a < |ps| && !ps[a].stack && Foreign(ps, a, x) :: x in ps[a].bmp <==> x in all)
  }

  predicate Wanted(ps: Ports, t: nat, t': Port, n: int, a: int, b: int)
    requires 0 <= a < |ps| && 0 <= b < |ps|
  {
    if a == t && b < n then Reach(t', ps[b])
    else if b == t && a < n then Reach(ps[a], t')
    else Reach(ps[a], ps[b])
  }

  /** The same ports, but for their bitmaps. */
  ghost predicate SameConfig(ps: Ports, ps': Ports) {
    |ps'| == |ps| && forall a | 0 <= a < |ps| :: ps'[a] == ps[a].(bmp := ps'[a].bmp, changed := ps'[a].changed)
  }

  lemma {:induction false} LinkStep(ps: Ports, all: set<nat>, t: nat, t': Port, o: nat)
    requires Half(ps, all, t, t', o) && o < |ps| && o != t
    ensures Half(Link(ps, t, o, Reach(t', ps[o])), all, t, t', o + 1)
    ensures SameConfig(ps, Link(ps, t, o, Reach(t', ps[o])))
  {
    var r := Link(ps, t, o, Reach(t', ps[o]));
    forall a, b | 0 <= a < |r| && 0 <= b < |r| && a != b && !r[a].stack
      ensures Bit(r, a, b) <==> Wanted(r, t, t', o + 1, a, b)
    {
      LinkBit(ps, t, o, Reach(t', ps[o]), a, b);
      assert Bit(ps, a, b) <==> Wanted(ps, t, t', o, a, b);
    }
    forall a, x | 0 <= a < |r| && !r[a].stack && Foreign(r, a, x)
      ensures x in r[a].bmp <==> x in all
    {
      assert forall b | 0 <= b < |ps| :: ps[b].lport == r[b].lport;
      assert Foreign(ps, a, x);
    }
  }

  lemma {:induction false} LinkBit(ps: Ports, t: nat, o: nat, on: bool, a: nat, b: nat)
    requires Distinct(ps) && t < |ps| && o < |ps| && t != o && a < |ps| && b < |ps| && a != b
    ensures Bit(Link(ps, t, o, on), a, b) <==>
            if (a == t && b == o) || (a == o && b == t) then on else Bit(ps, a, b)
  {
  }

  /** A port that the change does not concern. */
  lemma {:induction false} SkipStep(ps: Ports, all: set<nat>, t: nat, t': Port, o: nat)
    requires Half(ps, all, t, t', o) && o < |ps|
    requires o != t ==> (Reach(t', ps[o]) <==> Reach(ps[t], ps[o]))
    ensures Half(ps, all, t, t', o + 1)
  {
    forall a, b | 0 <= a < |ps| && 0 <= b < |ps| && a != b && !ps[a].stack
      ensures Bit(ps, a, b) <==> Wanted(ps, t, t', o + 1, a, b)
    {
      assert Bit(ps, a, b) <==> Wanted(ps, t, t', o, a, b);
    }
  }

  lemma {:induction false} HalfStart(ps: Ports, all: set<nat>, t: nat, t': Port)
    requires Right(ps, all) && Distinct(ps) && t < |ps| && !ps[t].stack
    ensures Half(ps, all, t, t', 0)
  {
    forall a, b | 0 <= a < |ps| && 0 <= b < |ps| && a != b && !ps[a].stack
      ensures Bit(ps, a, b) <==> Wanted(ps, t, t', 0, a, b)
    {
      assert Bit(ps, a, b) <==> Reach(ps[a], ps[b]);
    }
  }

  /** With the last bit in place the change of the port itself makes all bitmaps right again. */
  lemma {:induction false} HalfEnd(ps: Ports, all: set<nat>, t: nat, t': Port)
    requires Half(ps, all, t, t', |ps|)
    ensures var r := ps[t := ps[t].(prot := t'.prot, comm := t'.comm)]; Right(r, all) && Distinct(r)
  {
    var r := ps[t := ps[t].(prot := t'.prot, comm := t'.comm)];
    forall a, b | 0 <= a < |r| && 0 <= b < |r| && a != b && !r[a].stack
      ensures Bit(r, a, b) <==> Reach(r[a], r[b])
    {
      assert Bit(ps, a, b) <==> Wanted(ps, t, t', |ps|, a, b);
    }
    forall a, x | 0 <= a < |r| && !r[a].stack && Foreign(r, a, x)
      ensures x in r[a].bmp <==> x in all
    {
      assert forall b | 0 <= b < |ps| :: ps[b].lport == r[b].lport;
      assert Foreign(ps, a, x);
    }
  }

  /** `ps'` is `ps` with port `t` protected and in a community as given, bitmaps aside. */
  ghost predicate Altered(ps: Ports, ps': Ports, t: nat, prot: bool, comm: int) {
    t < |ps| && SameConfig(ps[t := ps[t].(prot := prot, comm := comm)], ps')
  }

  /** A bitmap that differs is marked. */
  ghost predicate Marked(ps: Ports, ps': Ports) {
    |ps'| == |ps| && forall a | 0 <= a < |ps| && !ps'[a].changed :: ps'[a].bmp == ps[a].bmp
  }

  /** The bitmap of a stack port among the first `n` has gained port `t`; nothing else happens to it. */
  ghost predicate StackSees(ps: Ports, ps': Ports, t: nat, n: int) {
    && |ps'| == |ps| && t < |ps|
    && forall a | 0 <= a < |ps| && ps[a].stack :: ps'[a].bmp == if a < n then ps[a].bmp + {ps[t].lport} else ps[a].bmp
  }

  /** Nothing happens to stack ports. */
  ghost predicate StackSame(ps: Ports, ps': Ports) {
    |ps'| == |ps| && forall a | 0 <= a < |ps| && ps[a].stack :: ps'[a] == ps[a]
  }

  lemma {:induction false} LinkMarks(ps: Ports, qs: Ports, t: nat, o: nat, on: bool)
    requires SameConfig(ps, qs) && Marked(ps, qs) && t < |ps| && o < |ps| && t != o && !ps[t].stack
    ensures SameConfig(ps, Link(qs, t, o, on)) && Marked(ps, Link(qs, t, o, on))
    ensures StackSees(ps, qs, t, o) && (ps[o].stack ==> on) ==> StackSees(ps, Link(qs, t, o, on), t, o + 1)
    ensures StackSame(ps, qs) && !ps[o].stack ==> StackSame(ps, Link(qs, t, o, on))
  {
  }

  /** What protecting or releasing `t` means for another port. */
  lemma {:induction false} WantProt(ps: Ports, qs: Ports, t: nat, o: nat, prot: bool)
    requires SameConfig(ps, qs) && StackFree(ps) && t < |ps| && o < |ps| && t != o
    ensures Reach(ps[t].(prot := prot), qs[o]) <==>
            !prot || !qs[o].prot || (qs[t].comm != 0 && qs[o].comm == qs[t].comm)
    ensures ps[o].stack ==> Reach(ps[t].(prot := prot), qs[o])
  {
  }

  /** One community, and not the one that is none. */
  predicate Shared(c: int, d: int) {
    c != 0 && c == d
  }

  /** What moving `t` to another community means for another port. */
  lemma {:induction false} CommCases(ps: Ports, qs: Ports, t: nat, o: nat, comm: int)
    requires SameConfig(ps, qs) && StackFree(ps) && t < |ps| && o < |ps| && comm != ps[t].comm
    ensures var t' := ps[t].(comm := comm);
            && (qs[o].prot ==> !ps[o].stack)
            && (!qs[o].prot ==> (Reach(t', qs[o]) <==> Reach(qs[t], qs[o])))
            && (qs[t].prot && qs[o].prot ==>
                  && (Reach(t', qs[o]) <==> Shared(comm, qs[o].comm))
                  && (Reach(qs[t], qs[o]) <==> Shared(qs[t].comm, qs[o].comm)))
  {
  }

  /** A port that is not protected changes its community alone. */
  lemma {:induction false} CommIdle(ps: Ports, all: set<nat>, t: nat, comm: int)
    requires Right(ps, all) && Distinct(ps) && t < |ps| && !ps[t].prot
    ensures var r := ps[t := ps[t].(comm := comm)]; Right(r, all) && Distinct(r)
  {
    var r := ps[t := ps[t].(comm := comm)];
    forall a, b | 0 <= a < |r| && 0 <= b < |r| && a != b && !r[a].stack
      ensures Bit(r, a, b) <==> Reach(r[a], r[b])
    {
      assert Bit(ps, a, b) <==> Reach(ps[a], ps[b]);
    }
    forall a, x | 0 <= a < |r| && !r[a].stack && Foreign(r, a, x)
      ensures x in r[a].bmp <==> x in all
    {
      assert forall b | 0 <= b < |ps| :: ps[b].lport == r[b].lport;
      assert Foreign(ps, a, x);
    }
  }

  /** Marks do not matter to the bitmaps' meaning. */
  lemma {:induction false} Unmarked(ps: Ports, qs: Ports, rs: Ports, all: set<nat>, t: nat, prot: bool, comm: int)
    requires Distinct(ps) && StackFree(ps) && Altered(ps, qs, t, prot, comm) && !ps[t].stack && Right(qs, all)
    requires |rs| == |qs| && forall a | 0 <= a < |rs| :: rs[a] == qs[a].(changed := rs[a].changed)
    ensures Right(rs, all) && Distinct(rs) && StackFree(rs) && Altered(ps, rs, t, prot, comm)
  {
    forall a, b | 0 <= a < |rs| && 0 <= b < |rs| && a != b && !rs[a].stack
      ensures Bit(rs, a, b) <==> Reach(rs[a], rs[b])
    {
      assert Bit(qs, a, b) <==> Reach(qs[a], qs[b]);
    }
    forall a, x | 0 <= a < |rs| && !rs[a].stack && Foreign(rs, a, x)
      ensures x in rs[a].bmp <==> x in all
    {
      assert forall b | 0 <= b < |rs| :: rs[b].lport == qs[b].lport;
      assert Foreign(qs, a, x);
    }
  }

  /** The numbers of some ports. */
  ghost function Numbers(ps: Ports, ts: set<int>): set<nat> {
    set b | b in ts && 0 <= b < |ps| :: ps[b].lport
  }

  /** The bitmap of a stack port is the numbers of the ports `ts`, none of them a stack port. */
  ghost predicate StackIs(ps: Ports, ts: set<int>) {
    && (forall b | b in ts :: 0 <= b < |ps| && !ps[b].stack)
    && forall a | 0 <= a < |ps| && ps[a].stack :: ps[a].bmp == Numbers(ps, ts)
  }

  /** So a stack port lists another port exactly when that is one of them, and all others exactly when all
      are. */
  lemma {:induction false} StackLists(ps: Ports, ts: set<int>, a: nat)
    requires Distinct(ps) && StackIs(ps, ts) && a < |ps| && ps[a].stack
    ensures forall b | 0 <= b < |ps| :: Bit(ps, a, b) <==> b in ts
    ensures (forall b | 0 <= b < |ps| && b != a :: Bit(ps, a, b)) <==>
            (forall b | 0 <= b < |ps| && b != a :: b in ts)
  {
    forall b | 0 <= b < |ps|
      ensures Bit(ps, a, b) <==> b in ts
    {
      if Bit(ps, a, b) {
        var c :| c in ts && 0 <= c < |ps| && ps[c].lport == ps[b].lport;
        assert b == c;
      }
    }
  }

  /** One port more among them. */
  lemma {:induction false} StackGains(ps: Ports, rs: Ports, ts: set<int>, t: nat)
    requires StackIs(ps, ts) && StackSees(ps, rs, t, |ps|) && !ps[t].stack
    requires forall a | 0 <= a < |ps| :: rs[a].lport == ps[a].lport && rs[a].stack == ps[a].stack
    ensures StackIs(rs, ts + {t})
  {
    forall x
      ensures x in Numbers(rs, ts + {t}) <==> x in Numbers(ps, ts) + {ps[t].lport}
    {
      if x in Numbers(ps, ts) {
        var b :| b in ts && 0 <= b < |ps| && ps[b].lport == x;
        assert rs[b].lport == x;
      }
      if x in Numbers(rs, ts + {t}) {
        var b :| b in ts + {t} && 0 <= b < |rs| && rs[b].lport == x;
        assert ps[b].lport == x;
      }
      assert rs[t].lport == ps[t].lport;
    }
    assert Numbers(rs, ts + {t}) == Numbers(ps, ts) + {ps[t].lport};
  }

  lemma {:induction false} StackStays(ps: Ports, rs: Ports, ts: set<int>)
    requires StackIs(ps, ts) && StackSame(ps, rs)
    requires forall a | 0 <= a < |ps| :: rs[a].lport == ps[a].lport && rs[a].stack == ps[a].stack
    ensures StackIs(rs, ts)
  {
    forall x
      ensures x in Numbers(rs, ts) <==> x in Numbers(ps, ts)
    {
      if x in Numbers(ps, ts) {
        var b :| b in ts && 0 <= b < |ps| && ps[b].lport == x;
        assert rs[b].lport == x;
      }
      if x in Numbers(rs, ts) {
        var b :| b in ts && 0 <= b < |rs| && rs[b].lport == x;
        assert ps[b].lport == x;
      }
    }
    assert Numbers(rs, ts) == Numbers(ps, ts);
  }

  lemma {:induction false} AlteredSame(ps: Ports, rs: Ports, t: nat, prot: bool, comm: int)
    requires Altered(ps, rs, t, prot, comm)
    ensures |rs| == |ps|
    ensures forall a | 0 <= a < |ps| :: rs[a].lport == ps[a].lport && rs[a].stack == ps[a].stack
  {
  }

  lemma {:induction false} SameAltered(ps: Ports, t: nat)
    requires t < |ps|
    ensures Altered(ps, ps, t, ps[t].prot, ps[t].comm)
  {
    assert ps[t := ps[t].(prot := ps[t].prot, comm := ps[t].comm)] == ps;
  }

  /** A change of protection reaches the bitmap of every stack port, and the first one marks it. */
  lemma {:induction false} StackWritten(ps: Ports, qs: Ports, rs: Ports, ts: set<int>, t: nat, prot: bool, comm: int)
    requires StackIs(ps, ts) && StackSees(ps, qs, t, |ps|) && !ps[t].stack
    requires Altered(ps, qs, t, prot, comm) && Marked(ps, qs)
    requires |rs| == |qs| && forall a | 0 <= a < |rs| :: rs[a] == qs[a].(changed := rs[a].changed)
    ensures StackIs(rs, ts + {t})
    ensures forall a | 0 <= a < |ps| :: rs[a].stack == ps[a].stack
    ensures forall a | 0 <= a < |ps| && ps[a].stack && ts == {} :: qs[a].changed
    ensures forall a | 0 <= a < |ps| && !qs[a].changed :: rs[a].bmp == ps[a].bmp
  {
    AlteredSame(ps, qs, t, prot, comm);
    StackGains(ps, rs, ts, t);
    forall a | 0 <= a < |ps| && ps[a].stack && ts == {}
      ensures qs[a].changed
    {
      assert ps[t].lport !in Numbers(ps, ts) && ps[t].lport in qs[a].bmp;
    }
  }

  // ---------------------------------------------------------------------------
  // The ports
  // ---------------------------------------------------------------------------

  class Switch {
    const ports: array<Port>

    /** The isolation table; an entry never written is not there. */
    const hw: array<Option<set<nat>>>

    /** The ports of the device, whether in use or not. */
    const all: set<nat>

    /** The ports whose protection has ever changed. */
    ghost var touched: set<int>

    ghost predicate Valid()
      reads this, ports, hw
    {
      && hw.Length == ports.Length
      && Distinct(ports[..]) && StackFree(ports[..]) && Right(ports[..], all) && StackIs(ports[..], touched)
      && forall a | 0 <= a < ports.Length :: Mirrored(a)
    }

    /** The hardware has the port's bitmap; a stack port's is not written until some protection changes. */
    ghost predicate Mirrored(a: int)
      requires 0 <= a < ports.Length == hw.Length
      reads this, ports, hw
    {
      !ports[a].changed && hw[a] == if ports[a].stack && touched == {} then None else Some(ports[a].bmp)
    }

    constructor (lports: seq<nat>, stack: seq<bool>, device: set<nat>)
      requires |stack| == |lports| && forall a, b | 0 <= a < b < |lports| :: lports[a] != lports[b]
      requires forall a | 0 <= a < |lports| :: lports[a] in device
      ensures Valid() && fresh(ports) && fresh(hw) && all == device && ports.Length == |lports| && touched == {}
      ensures forall a | 0 <= a < |lports| ::
                ports[a] == Port(lports[a], stack[a], false, 0, if stack[a] then {} else device, false)
    {
      ports := new Port[|lports|](a requires 0 <= a < |lports| == |stack| =>
        Port(lports[a], stack[a], false, 0, if stack[a] then {} else device, false));
      hw := new Option<set<nat>>[|lports|](a requires 0 <= a < |stack| =>
        if stack[a] then None else Some(device));
      all := device;
      touched := {};
    }

    method SetIsoBmp(a: nat)
      requires a < ports.Length == hw.Length
      modifies ports, hw
      ensures ports[..] == old(ports[..])[a := old(ports[a]).(changed := false)]
      ensures hw[..] == if old(ports[a]).changed then old(hw[..])[a := Some(old(ports[a]).bmp)] else old(hw[..])
    {
      if ports[a].changed {
        hw[a] := Some(ports[a].bmp);
        ports[a] := ports[a].(changed := false);
      }
    }

    method UpdateIso()
      requires ports.Length == hw.Length
      modifies ports, hw
      ensures forall a | 0 <= a < ports.Length :: ports[a] == old(ports[a]).(changed := false)
      ensures forall a | 0 <= a < ports.Length ::
                hw[a] == if old(ports[a]).changed then Some(ports[a].bmp) else old(hw[a])
    {
      var i := 0;
      while i < ports.Length
        invariant 0 <= i <= ports.Length
        invariant forall a | 0 <= a < ports.Length ::
                    ports[a] == if a < i then old(ports[a]).(changed := false) else old(ports[a])
        invariant forall a | 0 <= a < ports.Length ::
                    hw[a] == if a < i && old(ports[a]).changed then Some(old(ports[a]).bmp) else old(hw[a])
      {
        SetIsoBmp(i);
        i := i + 1;
      }
    }

    method SetBits(t: nat, o: nat)
      requires t < ports.Length && o < ports.Length && t != o
      modifies ports
      ensures ports[..] == Link(old(ports[..]), t, o, true)
    {
      ports[t] := ports[t].(bmp := ports[t].bmp + {ports[o].lport}, changed := true);
      ports[o] := ports[o].(bmp := ports[o].bmp + {ports[t].lport}, changed := true);
    }

    method ClearBits(t: nat, o: nat)
      requires t < ports.Length && o < ports.Length && t != o
      modifies ports
      ensures ports[..] == Link(old(ports[..]), t, o, false)
    {
      ports[t] := ports[t].(bmp := ports[t].bmp - {ports[o].lport}, changed := true);
      ports[o] := ports[o].(bmp := ports[o].bmp - {ports[t].lport}, changed := true);
    }

    method SetProt(t: nat, prot: bool) returns (changed: bool)
      requires Valid() && t < ports.Length && !ports[t].stack
      modifies ports
      ensures changed <==> prot != old(ports[t]).prot
      ensures !changed ==> ports[..] == old(ports[..])
      ensures changed ==> Right(ports[..], all) && Altered(old(ports[..]), ports[..], t, prot, old(ports[t]).comm)
      ensures changed ==> Marked(old(ports[..]), ports[..])
      ensures changed ==> StackSees(old(ports[..]), ports[..], t, ports.Length)
    {
      hide Half, Link, Right, Reach, Distinct, StackFree;
      ghost var ps := ports[..];
      ghost var t' := ps[t].(prot := prot);
      if ports[t].prot == prot {
        return false;
      }
      HalfStart(ps, all, t, t');
      var o := 0;
      while o < ports.Length
        invariant 0 <= o <= ports.Length
        invariant Half(ports[..], all, t, t', o)
        invariant SameConfig(ps, ports[..]) && Marked(ps, ports[..]) && StackSees(ps, ports[..], t, o)
      {
        ghost var qs := ports[..];
        if o == t {
          SkipStep(qs, all, t, t', o);
        } else {
          LinkStep(qs, all, t, t', o);
          LinkMarks(ps, qs, t, o, Reach(t', qs[o]));
          WantProt(ps, qs, t, o, prot);
          if prot {
            if ports[o].prot {
              if ports[t].comm != 0 && ports[o].comm == ports[t].comm {
                SetBits(t, o);
              } else {
                ClearBits(t, o);
              }
            } else {
              SetBits(t, o);
            }
          } else {
            SetBits(t, o);
          }
        }
        o := o + 1;
      }
      HalfEnd(ports[..], all, t, t');
      ports[t] := ports[t].(prot := prot);
      changed := true;
    }

    method SetComm(t: nat, comm: int) returns (changed: bool)
      requires Valid() && t < ports.Length && !ports[t].stack
      modifies ports
      ensures changed <==> comm != old(ports[t]).comm && old(ports[t]).prot
      ensures Right(ports[..], all) && Altered(old(ports[..]), ports[..], t, old(ports[t]).prot, comm)
      ensures Marked(old(ports[..]), ports[..])
      ensures !changed ==> forall a | 0 <= a < ports.Length :: !ports[a].changed
      ensures StackSame(old(ports[..]), ports[..])
    {
      hide Half, Link, Right, Reach, Distinct, StackFree;
      ghost var ps := ports[..];
      ghost var t' := ps[t].(comm := comm);
      forall a | 0 <= a < ports.Length
        ensures !ps[a].changed
      {
        assert Mirrored(a);
      }
      if ports[t].comm == comm {
        assert ports[..] == ps;
        return false;
      }
      HalfStart(ps, all, t, t');
      var o := 0;
      if ports[t].prot {
        while o < ports.Length
          invariant 0 <= o <= ports.Length
          invariant Half(ports[..], all, t, t', o)
          invariant SameConfig(ps, ports[..]) && Marked(ps, ports[..]) && StackSame(ps, ports[..])
        {
          ghost var qs := ports[..];
          CommCases(ps, qs, t, o, comm);
          if ports[o].prot && o != t {
            LinkStep(qs, all, t, t', o);
            LinkMarks(ps, qs, t, o, Reach(t', qs[o]));
            if !Shared(qs[t].comm, qs[o].comm) && !Shared(comm, qs[o].comm) { SkipStep(qs, all, t, t', o); }
            if ports[t].comm != 0 && ports[t].comm == ports[o].comm {
              ClearBits(t, o);
            }
            if comm != 0 && comm == ports[o].comm {
              SetBits(t, o);
            }
          } else {
            SkipStep(qs, all, t, t', o);
          }
          o := o + 1;
        }
        HalfEnd(ports[..], all, t, t');
      } else {
        CommIdle(ps, all, t, comm);
      }
      changed := ports[t].prot;
      ports[t] := ports[t].(comm := comm);
    }

    // -------------------------------------------------------------------------
    // What the control interface calls
    // -------------------------------------------------------------------------

    method SetProtected(p: nat, prot: bool) returns (st: Status)
      requires Valid()
      modifies ports, hw, this`touched
      ensures Valid()
      ensures st == if p >= ports.Length then BadValue else if old(ports[p]).stack then BadState else OK
      ensures st != OK ==> ports[..] == old(ports[..]) && hw[..] == old(hw[..])
      ensures st == OK ==> forall a | 0 <= a < ports.Length ::
                ports[a] == old(ports[a]).(prot := if a == p then prot else old(ports[a]).prot,
                                           bmp := ports[a].bmp, changed := false)
      ensures st == OK ==> Parted(ports[..]) && forall a | 0 <= a < ports.Length && !ports[a].stack ::
                hw[a] == Some(ports[a].bmp)
      ensures touched == old(touched) + if st == OK && prot != old(ports[p]).prot then {p} else {}
    {
      hide Right, Distinct, StackIs, StackSees, SameConfig, Altered, Parted;
      if p >= ports.Length {
        return BadValue;
      }
      if ports[p].stack {
        return BadState;
      }
      ghost var ps := ports[..];
      var changed := SetProt(p, prot);
      ghost var qs := ports[..];
      if changed {
        UpdateIso();
        touched := touched + {p};
        Unmarked(ps, qs, ports[..], all, p, prot, ps[p].comm);
        StackWritten(ps, qs, ports[..], old(touched), p, prot, ps[p].comm);
      } else {
        SameAltered(ps, p);
      }
      forall a | 0 <= a < ports.Length
        ensures Mirrored(a)
      {
        assert old(Mirrored(a));
      }
      RightParts(ports[..], all);
      forall a | 0 <= a < ports.Length
        ensures ports[a] == ps[a].(prot := if a == p then prot else ps[a].prot, bmp := ports[a].bmp, changed := false)
        ensures !ports[a].stack ==> hw[a] == Some(ports[a].bmp)
      {
        AlteredAt(ps, ports[..], p, prot, ps[p].comm, a);
        assert Mirrored(a);
      }
      st := OK;
    }

    method SetCommunity(p: nat, comm: int) returns (st: Status)
      requires Valid()
      modifies ports, hw
      ensures Valid()
      ensures st == if p >= ports.Length then BadValue else if old(ports[p]).stack then BadState else OK
      ensures st != OK ==> ports[..] == old(ports[..]) && hw[..] == old(hw[..])
      ensures st == OK ==> forall a | 0 <= a < ports.Length ::
                ports[a] == old(ports[a]).(comm := if a == p then comm else old(ports[a]).comm,
                                           bmp := ports[a].bmp, changed := false)
      ensures st == OK ==> Parted(ports[..]) && forall a | 0 <= a < ports.Length && !ports[a].stack ::
                hw[a] == Some(ports[a].bmp)
      ensures st == OK ==> StackSame(old(ports[..]), ports[..])
    {
      hide Right, Distinct, StackIs, SameConfig, Altered, Parted;
      if p >= ports.Length {
        return BadValue;
      }
      if ports[p].stack {
        return BadState;
      }
      ghost var ps := ports[..];
      forall a | 0 <= a < ports.Length
        ensures !ps[a].changed
      {
        assert Mirrored(a);
      }
      var changed := SetComm(p, comm);
      ghost var qs := ports[..];
      if changed {
        UpdateIso();
      }
      Unmarked(ps, qs, ports[..], all, p, ps[p].prot, comm);
      AlteredSame(ps, ports[..], p, ps[p].prot, comm);
      AlteredSame(ps, qs, p, ps[p].prot, comm);
      StackStays(ps, ports[..], touched);
      forall a | 0 <= a < ports.Length
        ensures Mirrored(a)
      {
        assert old(Mirrored(a));
      }
      RightParts(ports[..], all);
      forall a | 0 <= a < ports.Length
        ensures ports[a] == ps[a].(comm := if a == p then comm else ps[a].comm, bmp := ports[a].bmp, changed := false)
        ensures !ports[a].stack ==> hw[a] == Some(ports[a].bmp)
      {
        AlteredAt(ps, ports[..], p, ps[p].prot, comm, a);
        assert Mirrored(a);
      }
      st := OK;
    }
  }

  /** Three ports, the last a stack port: protecting the first writes a stack bitmap that lacks the second. */
  method StackPortFails() returns (s: Switch)
    ensures s.Valid() && s.ports.Length == 3 && s.ports[2].stack
    ensures s.hw.Length == 3 && s.hw[2] == Some(s.ports[2].bmp)
    ensures Bit(s.ports[..], 2, 0) && !Bit(s.ports[..], 2, 1)
  {
    hide Right;
    s := new Switch([10, 11, 12], [false, false, true], {10, 11, 12});
    var _ := s.SetProtected(0, true);
    StackLists(s.ports[..], s.touched, 2);
    assert s.Mirrored(2);
  }
}
