/** The protocol that gives a stack of units one master: the state each unit keeps, and the network of
    units whose announcements may be delayed, lost, repeated or reordered. */
module Fdbman {
  import opened Common

  datatype State = Master | PreMember | Member

  /** What a unit knows: the master and serial it follows, the ones it was last told of, and the
      bitmap of units. */
  datatype View = View(state: State, serial: nat, newserial: nat, master: int, newmaster: int, devs: set<int>)

  /** A master's announcement. */
  datatype Ready = Ready(sender: int, serial: nat, devs: set<int>)

  // ---------------------------------------------------------------------------
  // One unit
  // ---------------------------------------------------------------------------

  /** A unit starts as its own master, before any serial. */
  function Start(self: int, devs: set<int>): View {
    View(Master, 0, 0, self, self, devs)
  }

  /** The controller's word is old news. */
  predicate Stale(v: View, serial: nat, devs: set<int>) {
    serial < v.serial || (serial <= v.newserial && v.devs == devs)
  }

  /** The view after the controller has named a master. */
  function Named(self: int, v: View, m: int, serial: nat, devs: set<int>): View {
    if Stale(v, serial, devs) then v
    else if m == self then View(Master, serial, serial, self, self, devs)
    else v.(state := if v.state == Master then PreMember else v.state,
            newmaster := m, newserial := serial, devs := devs)
  }

  /** What the unit announces then. */
  function Announced(self: int, v: View, m: int, serial: nat, devs: set<int>): Option<Ready> {
    if !Stale(v, serial, devs) && m == self then Some(Ready(self, serial, devs)) else None
  }

  /** The view after an announcement. */
  function Heard(self: int, v: View, r: Ready): View {
    if self !in r.devs || r.serial < v.serial then v
    else if r.serial < v.newserial then v.(master := r.sender, serial := r.serial, devs := r.devs)
    else View(Member, r.serial, r.serial, r.sender, r.sender, r.devs)
  }

  /** What holds of every unit at all times. */
  ghost predicate Sane(self: int, v: View) {
    && v.serial <= v.newserial
    && (v.state == Master <==> v.newmaster == self)
    && (v.state == Master ==> v.serial == v.newserial && v.master == self)
    && (v.state == Member ==> v.master != self)
  }

  lemma {:induction false} NamedSane(self: int, v: View, m: int, serial: nat, devs: set<int>)
    requires Sane(self, v)
    ensures Sane(self, Named(self, v, m, serial, devs))
    ensures Named(self, v, m, serial, devs).serial >= v.serial
  {
  }

  lemma {:induction false} HeardSane(self: int, v: View, r: Ready)
    requires Sane(self, v) && r.sender != self
    ensures Sane(self, Heard(self, v, r))
    ensures Heard(self, v, r).serial >= v.serial
  {
  }

  /** The serial a unit expects next goes down exactly when the controller names one that is neither above
      it nor below the one the unit follows, with another bitmap. */
  lemma {:induction false} ExpectedSerialDrops(self: int, v: View, m: int, serial: nat, devs: set<int>)
    requires Sane(self, v)
    ensures Named(self, v, m, serial, devs).newserial < v.newserial <==>
            v.serial <= serial < v.newserial && v.devs != devs
  {
  }

  /** An announcement never lowers it. */
  lemma {:induction false} HeardExpected(self: int, v: View, r: Ready)
    requires Sane(self, v)
    ensures Heard(self, v, r).newserial >= v.newserial
  {
  }

  // --- commands other than announcements --------------------------------------

  datatype Command =
    | Update          // a member's new address
    | Op              // a member's flush or address operation
    | MasterUpdate    // the master's new address
    | MasterOp        // the master's flush or address operation
    | MasterNextHop   // the master's next-hop addresses, for the units named
    | MasterAddress   // the master's user-defined addresses
    | NextHopOp       // a member's next-hop request
    | Routing         // routes and their clearing, for the units named
    | LinkState       // link states and requests for them, for the units named
    | StpState        // a spanning-tree state, for the units named

  predicate FromMaster(c: Command) {
    c.MasterUpdate? || c.MasterOp? || c.MasterNextHop? || c.MasterAddress?
  }

  /** Whether a unit acts on a command; `devs` are the units it names.  Routes are taken from anyone. */
  predicate Obeys(self: int, v: View, c: Command, sender: int, serial: nat, devs: set<int>) {
    && sender != self
    && serial >= v.serial
    && match c
       case Update => v.state != Member
       case Op => v.state != Member
       case MasterUpdate =>
         sender == v.master && (v.state == Member || (v.state == PreMember && sender == v.newmaster))
       case MasterOp => sender == v.master && v.state == Member
       case MasterNextHop => sender == v.master && self in devs
       case MasterAddress => sender == v.master
       case NextHopOp => true
       case Routing => self in devs
       case LinkState => self in devs
       case StpState => v.state == Member && self in devs
  }

  /** A master obeys nobody's master commands. */
  lemma {:induction false} MasterObeysNone(self: int, v: View, c: Command, sender: int, serial: nat,
                                         devs: set<int>)
    requires Sane(self, v) && v.state == Master && FromMaster(c)
    ensures !Obeys(self, v, c, sender, serial, devs)
  {
  }

  class Unit {
    const self: int
    var state: State
    var serial: nat
    var newserial: nat
    var master: int
    var newmaster: int
    var devs: set<int>

    function Look(): View
      reads this
    {
      View(state, serial, newserial, master, newmaster, devs)
    }

    ghost predicate Valid()
      reads this
    {
      Sane(self, Look())
    }

    constructor (id: int)
      ensures Valid() && self == id && Look() == Start(id, {})
    {
      self := id;
      state, serial, newserial, devs := Master, 0, 0, {};
      newmaster, master := id, id;
    }

    /** The controller names a master. */
    method SetMaster(m: int, s: nat, dbmp: set<int>) returns (out: Option<Ready>)
      requires Valid()
      modifies this
      ensures Valid() && serial >= old(serial)
      ensures Look() == Named(self, old(Look()), m, s, dbmp)
      ensures out == Announced(self, old(Look()), m, s, dbmp)
      ensures m == self && s >= old(serial) && (s > old(newserial) || old(devs) != dbmp) ==>
                && out == Some(Ready(self, s, dbmp))
                && state == Master && serial == newserial == s && master == newmaster == self && devs == dbmp
      ensures m != self && s >= old(serial) && (s > old(newserial) || old(devs) != dbmp) ==>
                && out == None
                && newmaster == m && newserial == s && devs == dbmp
                && master == old(master) && serial == old(serial)
                && state == if old(state) == Master then PreMember else old(state)
      ensures !(s >= old(serial) && (s > old(newserial) || old(devs) != dbmp)) ==>
                && out == None
                && state == old(state) && serial == old(serial) && newserial == old(newserial)
                && master == old(master) && newmaster == old(newmaster) && devs == old(devs)
    {
      out := None;
      NamedSane(self, Look(), m, s, dbmp);
      if s < serial {
        return;
      }
      if s <= newserial && devs == dbmp {
        return;
      }
      match state {
        case Master =>
          if self != m {
            newmaster := m;
            newserial := s;
            state := PreMember;
          } else {
            serial, newserial := s, s;
            master, newmaster := m, m;
            out := Some(Ready(self, s, dbmp));
          }
        case PreMember =>
          newmaster := m;
          newserial := s;
          if self == m {
            master := m;
            serial := s;
            out := Some(Ready(self, s, dbmp));
            state := Master;
          }
        case Member =>
          newmaster := m;
          newserial := s;
          if self == m {
            master := m;
            serial := s;
            out := Some(Ready(self, s, dbmp));
            state := Master;
          }
      }
      devs := dbmp;
    }

    /** An announcement comes in. */
    method HandleReady(r: Ready)
      requires Valid()
      modifies this
      ensures Valid() && serial >= old(serial)
      ensures Look() == if r.sender == self then old(Look()) else Heard(self, old(Look()), r)
      ensures r.sender != self && self in r.devs && r.serial >= old(newserial) ==>
                && state == Member && serial == newserial == r.serial && master == newmaster == r.sender && devs == r.devs
      ensures r.sender != self && self in r.devs && old(serial) <= r.serial < old(newserial) ==>
                && serial == r.serial && master == r.sender && devs == r.devs
                && state == old(state) && newserial == old(newserial) && newmaster == old(newmaster)
      ensures r.sender == self || self !in r.devs || r.serial < old(serial) ==>
                && state == old(state) && serial == old(serial) && newserial == old(newserial)
                && master == old(master) && newmaster == old(newmaster) && devs == old(devs)
    {
      if r.sender == self {
        return;
      }
      HeardSane(self, Look(), r);
      if self !in r.devs {
        return;
      }
      if r.serial < serial {
        return;
      }
      if r.serial < newserial {
        master := r.sender;
        serial := r.serial;
        devs := r.devs;
        return;
      }
      match state {
        case Master =>
          newmaster, master := r.sender, r.sender;
          newserial, serial := r.serial, r.serial;
          devs := r.devs;
          state := Member;
        case PreMember =>
          newmaster, master := r.sender, r.sender;
          newserial, serial := r.serial, r.serial;
          devs := r.devs;
          state := Member;
        case Member =>
          newmaster, master := r.sender, r.sender;
          newserial, serial := r.serial, r.serial;
          devs := r.devs;
      }
    }

    /** Whether to act on a command. */
    method HandleCommand(c: Command, sender: int, s: nat, bmp: set<int>) returns (act: bool)
      ensures act <==> Obeys(self, Look(), c, sender, s, bmp)
      ensures sender == self || s < serial ==> !act
      ensures sender != self && s >= serial ==>
                && (c.Update? || c.Op? ==> (act <==> state == Master || state == PreMember))
                && (c.MasterUpdate? ==>
                      (act <==> sender == master && (state == Member || (state == PreMember && sender == newmaster))))
                && (c.MasterOp? ==> (act <==> sender == master && state == Member))
                && (c.MasterNextHop? ==> (act <==> sender == master && self in bmp))
                && (c.MasterAddress? ==> (act <==> sender == master))
                && (c.NextHopOp? ==> act)
                && (c.Routing? || c.LinkState? ==> (act <==> self in bmp))
                && (c.StpState? ==> (act <==> state == Member && self in bmp))
    {
      if sender == self {
        return false;
      }
      if s < serial {
        return false;
      }
      match c {
        case Update => act := state == Master || state == PreMember;
        case Op => act := state == Master || state == PreMember;
        case MasterUpdate =>
          if sender != master {
            return false;
          }
          match state {
            case Master => act := false;
            case PreMember => act := sender == newmaster;
            case Member => act := true;
          }
        case MasterOp =>
          if sender != master {
            return false;
          }
          act := state == Member;
        case MasterNextHop =>
          if sender != master {
            return false;
          }
          act := self in bmp;
        case MasterAddress => act := sender == master;
        case NextHopOp => act := true;
        case Routing => act := self in bmp;
        case LinkState => act := self in bmp;
        case StpState =>
          match state {
            case Master => act := false;
            case PreMember => act := false;
            case Member => act := self in bmp;
          }
      }
    }
  }

  // ---------------------------------------------------------------------------
  // The network
  // ---------------------------------------------------------------------------

  /** The units, every announcement ever made (one stays deliverable for good, so it may be late, be
      lost or come twice, and in any order), and the master the controller has named for a serial. */
  datatype Net = Net(units: seq<View>, sent: set<Ready>, issued: map<nat, int>)

  datatype Step =
    | Name(unit: nat, master: int, serial: nat, devs: set<int>)
    | Deliver(unit: nat, ready: Ready)
    | Idle

  ghost predicate InitNet(n: Net) {
    && n.sent == {} && n.issued == map[]
    && forall i | 0 <= i < |n.units| :: n.units[i] == Start(i, {})
  }

  /** The controller names no two masters for one serial, and serials start at one. */
  predicate Allowed(n: Net, s: Step) {
    match s
    case Name(i, m, serial, _) => i < |n.units| && serial >= 1 && (serial in n.issued ==> n.issued[serial] == m)
    case Deliver(i, r) => i < |n.units| && r in n.sent && r.sender != i
    case Idle => true
  }

  function After(n: Net, s: Step): Net
    requires Allowed(n, s)
  {
    match s
    case Name(i, m, serial, devs) =>
      var out := Announced(i, n.units[i], m, serial, devs);
      Net(n.units[i := Named(i, n.units[i], m, serial, devs)],
          if out.Some? then n.sent + {out.value} else n.sent,
          n.issued[serial := m])
    case Deliver(i, r) => n.(units := n.units[i := Heard(i, n.units[i], r)])
    case Idle => n
  }

  ghost predicate IsRun(run: seq<Net>) {
    && |run| > 0 && InitNet(run[0])
    && forall k | 0 <= k < |run| - 1 :: Linked(run, k)
  }

  ghost predicate Linked(run: seq<Net>, k: int)
    requires 0 <= k < |run| - 1
  {
    exists s :: Allowed(run[k], s) && run[k + 1] == After(run[k], s)
  }

  /** The controller has named `m` for `serial`, or the serial is the one of the start. */
  predicate Vouched(issued: map<nat, int>, serial: nat, m: int) {
    serial == 0 || (serial in issued && issued[serial] == m)
  }

  /** A unit's view is sane, and both serials it holds are the controller's. */
  ghost predicate UnitInv(n: Net, i: int)
    requires 0 <= i < |n.units|
  {
    var v := n.units[i];
    && Sane(i, v)
    && Vouched(n.issued, v.serial, v.master)
    && Vouched(n.issued, v.newserial, v.newmaster)
    && (v.serial == 0 ==> v.master == i)
  }

  ghost predicate NetInv(n: Net) {
    && (forall i | 0 <= i < |n.units| :: UnitInv(n, i))
    && (forall r | r in n.sent :: r.serial >= 1 && Vouched(n.issued, r.serial, r.sender))
  }

  lemma {:induction false} InitKeeps(n: Net)
    requires InitNet(n)
    ensures NetInv(n)
  {
    forall i | 0 <= i < |n.units|
      ensures UnitInv(n, i)
    {
      assert n.units[i] == Start(i, {});
    }
  }

  /** Every step keeps the network's invariant, and no unit's serial goes back. */
  lemma {:induction false} StepKeeps(n: Net, s: Step)
    requires NetInv(n) && Allowed(n, s)
    ensures NetInv(After(n, s)) && |After(n, s).units| == |n.units|
    ensures forall i | 0 <= i < |n.units| :: After(n, s).units[i].serial >= n.units[i].serial
  {
    var n' := After(n, s);
    forall i | 0 <= i < |n.units|
      ensures UnitInv(n', i) && n'.units[i].serial >= n.units[i].serial
    {
      assert UnitInv(n, i);
      match s
      case Name(_, m, serial, devs) => NamedSane(i, n.units[i], m, serial, devs);
      case Deliver(_, r) => if r.sender != i { HeardSane(i, n.units[i], r); }
      case Idle =>
    }
  }

  /** The same units, none following a smaller serial in `n'`. */
  ghost predicate NoLater(n: Net, n': Net) {
    |n.units| == |n'.units| && forall i | 0 <= i < |n.units| :: n.units[i].serial <= n'.units[i].serial
  }

  /** The invariant holds at every moment of every run, and serials only rise. */
  lemma {:induction false} RunKeeps(run: seq<Net>, k: nat)
    requires IsRun(run) && k < |run|
    ensures NetInv(run[k])
    ensures forall j | 0 <= j <= k :: NoLater(run[j], run[k])
  {
    hide NetInv, InitNet, After, Allowed;
    if k == 0 {
      InitKeeps(run[0]);
    } else {
      RunKeeps(run, k - 1);
      assert Linked(run, k - 1);
      var s :| Allowed(run[k - 1], s) && run[k] == After(run[k - 1], s);
      StepKeeps(run[k - 1], s);
      forall j | 0 <= j <= k
        ensures NoLater(run[j], run[k])
      {
        if j < k { assert NoLater(run[j], run[k - 1]); }
      }
    }
  }

  /** Single master per epoch: units that follow the same nonzero serial follow the same master, at
      most one of them is in the master state, and it is the one the controller named. */
  lemma {:induction false} SingleMaster(run: seq<Net>, k: nat, i: nat, j: nat)
    requires IsRun(run) && k < |run| && i < |run[k].units| && j < |run[k].units|
    requires run[k].units[i].serial == run[k].units[j].serial != 0
    ensures var v, w := run[k].units[i], run[k].units[j];
            && v.serial in run[k].issued && v.master == w.master == run[k].issued[v.serial]
            && (v.state == Master ==> v.master == i)
            && (v.state == Master && w.state == Master ==> i == j)
  {
    RunKeeps(run, k);
    assert UnitInv(run[k], i) && UnitInv(run[k], j);
  }

  /** All units of one epoch take master commands from one and the same other unit. */
  lemma {:induction false} SingleCommander(run: seq<Net>, k: nat, i: nat, j: nat,
                                           c: Command, s: int, x: nat, f: set<int>, d: Command, t: int, y: nat, g: set<int>)
    requires IsRun(run) && k < |run| && i < |run[k].units| && j < |run[k].units|
    requires run[k].units[i].serial == run[k].units[j].serial != 0
    requires FromMaster(c) && FromMaster(d)
    requires Obeys(i, run[k].units[i], c, s, x, f) && Obeys(j, run[k].units[j], d, t, y, g)
    ensures s == t && s != i && s != j
    ensures run[k].units[i].state != Master && run[k].units[j].state != Master
  {
    SingleMaster(run, k, i, j);
    RunKeeps(run, k);
    assert UnitInv(run[k], i) && UnitInv(run[k], j);
  }

  /** Two units that follow the same serial follow the same master exactly when that serial is not the one
      of the start: then each is still its own. */
  lemma {:induction false} SameMasterIff(run: seq<Net>, k: nat, i: nat, j: nat)
    requires IsRun(run) && k < |run| && i < |run[k].units| && j < |run[k].units| && i != j
    requires run[k].units[i].serial == run[k].units[j].serial
    ensures run[k].units[i].master == run[k].units[j].master <==> run[k].units[i].serial != 0
    ensures run[k].units[i].serial == 0 ==> run[k].units[i].master == i && run[k].units[j].master == j
  {
    RunKeeps(run, k);
    assert UnitInv(run[k], i) && UnitInv(run[k], j);
  }

  /** Two units at the start: both in the master state, at the same serial. */
  lemma {:induction false} TwoMastersAtZero()
    ensures exists run: seq<Net>, i, j ::
              && IsRun(run) && 0 <= i < j < |run[0].units|
              && run[0].units[i].serial == run[0].units[j].serial == 0
              && run[0].units[i].state == run[0].units[j].state == Master
  {
    var n := Net([Start(0, {}), Start(1, {})], {}, map[]);
    assert InitNet(n);
    var run := [n];
    assert IsRun(run) && run[0].units[0].state == Master && run[0].units[1].state == Master;
  }

  /** A run in which a unit's expected serial drops: it is told of serial 2, and then of serial 1 with another
      bitmap. */
  lemma {:induction false} ExpectedSerialDropsInRun() returns (run: seq<Net>)
    ensures IsRun(run) && |run| == 3 && |run[1].units| == |run[2].units| == 2
    ensures run[2].units[0].newserial < run[1].units[0].newserial
  {
    var n := Net([Start(0, {}), Start(1, {})], {}, map[]);
    var s, t := Name(0, 1, 2, {0, 1}), Name(0, 1, 1, {0});
    var n1 := After(n, s);
    assert 0 in {0, 1} && 0 !in {};
    assert n1.units[0] == View(PreMember, 0, 2, 0, 1, {0, 1});
    var n2 := After(n1, t);
    assert 1 in {0, 1} && 1 !in {0};
    assert n2.units[0].newserial == 1;
    run := [n, n1, n2];
    assert InitNet(n);
    assert Linked(run, 0) by { assert Allowed(run[0], s) && run[1] == After(run[0], s); }
    assert Linked(run, 1) by { assert Allowed(run[1], t) && run[2] == After(run[1], t); }
  }

  /** When the controller names a unit for a serial above all others, that unit announces itself, and one
      delivery makes any other unit of the bitmap a member of its epoch. */
  lemma {:induction false} Progress(run: seq<Net>, k: nat, i: nat, serial: nat, devs: set<int>, j: nat)
    requires IsRun(run) && k < |run| && i < |run[k].units| && j < |run[k].units| && i != j && j in devs
    requires serial >= 1 && forall s | s in run[k].issued :: s < serial
    ensures var name, ready := Name(i, i, serial, devs), Ready(i, serial, devs);
            && Allowed(run[k], name)
            && var n := After(run[k], name);
               && n.units[i] == View(Master, serial, serial, i, i, devs)
               && Allowed(n, Deliver(j, ready))
               && After(n, Deliver(j, ready)).units[j] == View(Member, serial, serial, i, i, devs)
               && After(n, Deliver(j, ready)).units[i] == n.units[i]
  {
    RunKeeps(run, k);
    assert UnitInv(run[k], i) && UnitInv(run[k], j);
  }

  /** A unit that hears the announcement of the highest serial named so far becomes a member of that
      epoch whatever it believed, and nothing said in an earlier epoch moves it again. */
  lemma {:induction false} Converges(run: seq<Net>, k: nat, i: nat, r: Ready)
    requires IsRun(run) && k < |run| && i < |run[k].units|
    requires r in run[k].sent && r.sender != i && i in r.devs
    requires forall s | s in run[k].issued :: s <= r.serial
    ensures r.serial in run[k].issued
    ensures var v := Heard(i, run[k].units[i], r);
            v == View(Member, r.serial, r.serial, run[k].issued[r.serial], r.sender, r.devs)
    ensures forall q | q in run[k].sent && q.sender != i && q.serial < r.serial ::
              var v := Heard(i, run[k].units[i], r); Heard(i, v, q) == v
    ensures forall m, s: nat, devs :: s < r.serial ==>
              var v := Heard(i, run[k].units[i], r); Named(i, v, m, s, devs) == v
  {
    RunKeeps(run, k);
    assert UnitInv(run[k], i);
  }
}
