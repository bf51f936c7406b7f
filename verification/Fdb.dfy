/** The stack-wide MAC table: a hash table with a probe window of four slots that drives the
    port-security counters, all updated in place. */
module Fdb {
  import opened Common
  import opened FdbSpec

  datatype Status = OK | BadValue | BadState | DoesNotExist | AlreadyExists | NotReady

  const ANTIFLAP_INTERVAL := 100
  const FLAP_TIMEOUT := 10000
  const MAX_FLAPS := 5

  /** The sender id of a removal that is not an aging report. */
  const NOT_AGING := 16

  /** Key comparison, case by entry type. */
  predicate MeKeyEq(a: Key, b: Key)
    ensures MeKeyEq(a, b) <==> a == b
  {
    match (a, b)
    case (MacKey(v, m), MacKey(w, n)) => v == w && m == n
    case (McastKey(s, v, p, q), McastKey(t, w, x, y)) => s == t && v == w && p == x && q == y
    case _ => false
  }

  /** The flap counter forgets after a while. */
  function Calmed(v: Slot, ts: int): Slot {
    if v.flaps != 0 && v.ts + FLAP_TIMEOUT < ts then v.(flaps := 0) else v
  }

  /** A dynamic entry that changes too soon counts as a flap, in 16 bits. */
  function Bumped(v: Slot, e: MacEntry, ts: int): Slot {
    if e.prio == FEP_DYN && v.ts + ANTIFLAP_INTERVAL >= ts then v.(flaps := (v.flaps + 1) % 0x10000) else v
  }

  predicate Flapping(v: Slot, e: MacEntry, ts: int) {
    e.prio <= FEP_DYN && Bumped(Calmed(v, ts), e, ts).flaps >= MAX_FLAPS
  }

  /** The entry is already there, on the same port. */
  predicate SamePort(a: MacEntry, b: MacEntry) {
    a.dst.ty.PortIface? && b.dst.ty.PortIface? && a.dst.dev == b.dst.dev && a.dst.port == b.dst.port
  }

  /** The outcome of an insert before port security is asked. */
  function TableVerdict(s: Slots, e: MacEntry, ts: int, c: Choice): Status
    requires !c.NoRoom? ==> 0 <= c.idx < |s|
  {
    if c.NoRoom? then DoesNotExist
    else if !c.SameKey? || !s[c.idx].valid then OK
    else if s[c.idx].me.prio > e.prio then AlreadyExists
    else if Flapping(s[c.idx], e, ts) then NotReady
    else OK
  }

  /** The table after the probe: the flap counter of an entry with the same key is brought up to date. */
  function Probed(s: Slots, e: MacEntry, ts: int, c: Choice): (r: Slots)
    requires !c.NoRoom? ==> 0 <= c.idx < |s|
    ensures |r| == |s|
  {
    if !c.SameKey? || !s[c.idx].valid then s
    else if s[c.idx].me.prio <= e.prio then s[c.idx := Bumped(Calmed(s[c.idx], ts), e, ts)]
    else s[c.idx := Calmed(s[c.idx], ts)]
  }

  /** Whether port security lets an entry owned by `n` replace one owned by `o`.  When only the
      old one has an owner, the answer is whatever the uninitialised status `junk` says. */
  predicate PsecAllows(ports: Ports, o: Option<nat>, n: Option<nat>, junk: bool)
    requires OwnerIn(n, |ports|)
  {
    o == n || (if n.Some? then !Refuses(ports[n.value]) else junk)
  }

  /** The ports after that decision. */
  function PsecPorts(ports: Ports, o: Option<nat>, n: Option<nat>, fake: bool): (r: Ports)
    requires OwnerIn(o, |ports|) && OwnerIn(n, |ports|)
    ensures |r| == |ports|
  {
    if o == n || fake || (n.Some? && Refuses(ports[n.value])) then ports
    else PortsLeave(PortsEnter(ports, n), o)
  }

  // ---------------------------------------------------------------------------
  // What an insert does, on values
  // ---------------------------------------------------------------------------

  /** The owner of what the chosen slot holds. */
  function OldOwner(s: Slots, pm: PortMap, c: Choice): Option<nat>
    requires !c.NoRoom? ==> 0 <= c.idx < |s|
  {
    if c.NoRoom? then None else SlotOwner(pm, s[c.idx])
  }

  /** The outcome of an insert. */
  ghost function InsertVerdict(s: Slots, pm: PortMap, ports: Ports, e: MacEntry, ts: int, c: Choice, junk: bool): Status
    requires !c.NoRoom? ==> 0 <= c.idx < |s|
    requires PortMapFits(pm, |ports|)
  {
    var st := TableVerdict(s, e, ts, c);
    if st == OK && !PsecAllows(ports, OldOwner(s, pm, c), Owner(pm, e), junk) then BadState else st
  }

  /** The ports after an insert. */
  ghost function InsertPorts(s: Slots, pm: PortMap, ports: Ports, e: MacEntry, ts: int, c: Choice, fake: bool): (r: Ports)
    requires !c.NoRoom? ==> 0 <= c.idx < |s|
    requires PortMapFits(pm, |ports|)
    ensures |r| == |ports|
  {
    if TableVerdict(s, e, ts, c) == OK then PsecPorts(ports, OldOwner(s, pm, c), Owner(pm, e), fake) else ports
  }

  /** The chosen slot has an owner and the new entry has none: the path on which the status of the
      port-security check is never assigned. */
  ghost predicate OwnerLost(s: Slots, pm: PortMap, e: MacEntry, ts: int, c: Choice)
    requires !c.NoRoom? ==> 0 <= c.idx < |s|
  {
    TableVerdict(s, e, ts, c) == OK && OldOwner(s, pm, c).Some? && Owner(pm, e).None?
  }

  lemma {:induction false} ProbedEntries(s: Slots, h: Hash, e: MacEntry, ts: int, c: Choice)
    requires Chosen(s, h, e, c)
    ensures !c.NoRoom? ==> 0 <= c.idx < |s|
    ensures SameEntries(s, Probed(s, e, ts, c))
    ensures forall i | 0 <= i < |s| :: Probed(s, e, ts, c)[i].aging == s[i].aging
  {
  }

  lemma {:induction false} StoredIs(s: Slots, e: MacEntry, secure: bool, devs: set<int>, ts: int, i: int)
    requires 0 <= i < |s|
    ensures Stored(s, e, secure, devs, ts, i).valid && Stored(s, e, secure, devs, ts, i).me == e
  {
  }

  /** The slot that an accepted insert writes; a slot that was free starts with no flaps. */
  function Stored(s: Slots, e: MacEntry, secure: bool, devs: set<int>, ts: int, i: int): Slot
    requires 0 <= i < |s|
  {
    Slot(true, secure, devs, ts, if s[i].valid then s[i].flaps else 0, e)
  }

  /** The probe leaves everything but flap counters alone, so all that depends on the rest stays. */
  lemma {:induction false} FlapsKeep(s: Slots, s1: Slots, h: Hash, pm: PortMap, ports: Ports, e: MacEntry, c: Choice)
    requires TableInv(s, h) && SameEntries(s, s1) && Chosen(s, h, e, c)
    ensures TableInv(s1, h) && Chosen(s1, h, e, c) && Contents(s1) == Contents(s)
    ensures Conserved(s1, pm, ports) <==> Conserved(s, pm, ports)
    ensures !c.NoRoom? ==> 0 <= c.idx < |s|
    ensures !c.NoRoom? ==> Victim(s1, c.idx) == Victim(s, c.idx)
    ensures OldOwner(s1, pm, c) == OldOwner(s, pm, c)
  {
    Untouched(s, s1, h, pm, ports);
  }

  lemma {:induction false} PsecLearning(ports: Ports, o: Option<nat>, n: Option<nat>, fake: bool)
    requires LearningRight(ports) && OwnerIn(o, |ports|) && OwnerIn(n, |ports|)
    ensures LearningRight(PsecPorts(ports, o, n, fake))
  {
    hide LearningRight, PortsEnter, PortsLeave;
    if !(o == n || fake || (n.Some? && Refuses(ports[n.value]))) {
      EnterLearning(ports, n);
      LeaveLearning(PortsEnter(ports, n), o);
    }
  }

  /** No port with security on has gained an address beyond its limit. */
  ghost predicate NoneOverfull(ports: Ports, ports': Ports) {
    |ports'| == |ports| && forall p | 0 <= p < |ports| ::
      ports'[p].enabled && ports'[p].naddrs > ports[p].naddrs ==> ports'[p].naddrs <= ports'[p].max
  }

  lemma {:induction false} OverfullSame(ports: Ports)
    ensures NoneOverfull(ports, ports)
  {
  }

  /** No port with security on ends above its limit through an insert. */
  lemma {:induction false} PsecLimit(ports: Ports, o: Option<nat>, n: Option<nat>, fake: bool)
    requires LearningRight(ports) && OwnerIn(o, |ports|) && OwnerIn(n, |ports|)
    ensures NoneOverfull(ports, PsecPorts(ports, o, n, fake))
  {
  }

  /** An accepted insert, as a step of the map. */
  lemma {:induction false} InsertStored(s: Slots, s1: Slots, h: Hash, e: MacEntry, c: Choice, v: Slot)
    requires TableInv(s, h) && SameEntries(s, s1) && Chosen(s, h, e, c) && !c.NoRoom?
    requires v.me == e && v.valid && e.prio > FEP_UNUSED
    ensures 0 <= c.idx < |s| == |s1|
    ensures TableInv(s1[c.idx := v], h)
    ensures Contents(s1[c.idx := v]) == (Contents(s) - Victim(s, c.idx))[e.key := e]
  {
    hide TableInv, Contents;
    SameEntriesKeep(s, s1, h);
    StoreKeeps(s1, h, e, c, v);
    StoreContents(s1, h, e, c, v);
  }

  /** An accepted insert keeps the counters exact, on the unassigned path if the status says so. */
  lemma {:induction false} InsertConserves(s: Slots, s1: Slots, pm: PortMap, ports: Ports, i: nat, v: Slot)
    requires SameEntries(s, s1) && PortMapFits(pm, |ports|) && Conserved(s, pm, ports) && i < |s| && v.valid
    requires Owner(pm, v.me).Some? ==> SlotOwner(pm, s[i]) == Owner(pm, v.me) || !Refuses(ports[Owner(pm, v.me).value])
    ensures OwnerIn(SlotOwner(pm, s[i]), |ports|)
    ensures Conserved(s1[i := v], pm, PsecPorts(ports, SlotOwner(pm, s[i]), Owner(pm, v.me), false))
  {
    forall p: nat
      ensures Count(s1, pm, p) == Count(s, pm, p)
    {
      CountSame(s, s1, pm, p);
    }
    ReplaceConserves(s1, pm, ports, i, v);
  }

  /** When the old owner loses its address but the entry stays, its counter is one too low. */
  lemma {:induction false} OwnerLostBreaks(s: Slots, s1: Slots, pm: PortMap, ports: Ports, i: nat, n: Option<nat>)
    requires SameEntries(s, s1) && PortMapFits(pm, |ports|) && Conserved(s, pm, ports) && i < |s|
    requires SlotOwner(pm, s[i]).Some? && n.None?
    ensures OwnerIn(SlotOwner(pm, s[i]), |ports|)
    ensures !Conserved(s1, pm, PsecPorts(ports, SlotOwner(pm, s[i]), n, false))
  {
    var p := SlotOwner(pm, s[i]).value;
    CountSame(s, s1, pm, p);
    CountPositive(s, pm, p, i);
    assert PsecPorts(ports, SlotOwner(pm, s[i]), n, false)[p].naddrs == ports[p].naddrs - 1;
  }

  /** An entry that stays on its port keeps its owner, so asking `fake` changes nothing. */
  lemma {:induction false} SamePortSameOwner(s: Slots, pm: PortMap, ports: Ports, e: MacEntry, c: Choice, fake: bool)
    requires c.SameKey? && 0 <= c.idx < |s| && s[c.idx].valid && s[c.idx].me.key == e.key
    requires SamePort(e, s[c.idx].me) && PortMapFits(pm, |ports|)
    ensures var o, n := SlotOwner(pm, s[c.idx]), Owner(pm, e);
            o == n && PsecPorts(ports, o, n, fake) == ports
  {
  }

  /** What the port-security decision comes to, case by case. */
  lemma {:induction false} PsecCases(ports: Ports, o: Option<nat>, n: Option<nat>, fake: bool, junk: bool)
    requires OwnerIn(o, |ports|) && OwnerIn(n, |ports|)
    ensures PsecAllows(ports, o, n, junk) && n.Some? ==> o == n || !Refuses(ports[n.value])
    ensures n.None? && o.Some? ==> (PsecAllows(ports, o, n, junk) <==> junk)
    ensures n.None? && o.None? ==> PsecAllows(ports, o, n, junk)
    ensures n.Some? && !PsecAllows(ports, o, n, junk) ==> PsecPorts(ports, o, n, fake) == ports
    ensures PsecPorts(ports, o, n, true) == ports
  {
  }

  // ---------------------------------------------------------------------------
  // What a removal does, on values
  // ---------------------------------------------------------------------------

  /** A slot made invalid; its content stays behind. */
  function Cleared(v: Slot): Slot {
    v.(valid := false, secure := false, flaps := 0, ts := 0)
  }

  /** Taking an entry out takes its key out of the map and one address off its port. */
  lemma {:induction false} Cleaned(s: Slots, h: Hash, pm: PortMap, ports: Ports, i: nat, v: Slot)
    requires TableInv(s, h) && PortMapFits(pm, |ports|) && LearningRight(ports)
    requires i < |s| && s[i].valid && !v.valid && v.me == s[i].me
    ensures TableInv(s[i := v], h) && Contents(s[i := v]) == Contents(s) - {s[i].me.key}
    ensures LearningRight(PortsLeave(ports, Owner(pm, s[i].me)))
    ensures Conserved(s, pm, ports) ==> Conserved(s[i := v], pm, PortsLeave(ports, Owner(pm, s[i].me)))
  {
    hide TableInv, Contents, LearningRight, Conserved, PortsLeave;
    ClearKeeps(s, h, i, v);
    ClearContents(s, h, i, v);
    LeaveLearning(ports, Owner(pm, s[i].me));
    if Conserved(s, pm, ports) { LeaveConserves(s, pm, ports, i, v); }
  }

  /** A change that keeps every entry keeps the map and the counters. */
  lemma {:induction false} Untouched(s: Slots, s': Slots, h: Hash, pm: PortMap, ports: Ports)
    requires TableInv(s, h) && SameEntries(s, s')
    ensures TableInv(s', h) && Contents(s') == Contents(s)
    ensures Conserved(s', pm, ports) <==> Conserved(s, pm, ports)
  {
    SameEntriesKeep(s, s', h);
    forall p: nat
      ensures Count(s', pm, p) == Count(s, pm, p)
    {
      CountSame(s, s', pm, p);
    }
  }

  lemma {:induction false} NotInWindow(s: Slots, h: Hash, k: Key)
    requires TableInv(s, h) && forall j | h(k) <= j < h(k) + WINDOW :: !Entry(s, k, j)
    ensures k !in Contents(s)
  {
    hide Contents;
    WindowSearch(s, h, k);
  }

  lemma {:induction false} HashInside(s: Slots, h: Hash, k: Key)
    requires TableInv(s, h)
    ensures h(k) + WINDOW <= |s|
    ensures forall i | 0 <= i < |s| && s[i].valid :: s[i].me.prio > FEP_UNUSED
  {
  }

  lemma {:induction false} EntryThere(s: Slots, h: Hash, k: Key, i: int)
    requires TableInv(s, h) && Entry(s, k, i)
    ensures k in Contents(s)
  {
    hide TableInv;
    ContentsAt(s, h, k, i);
  }

  lemma {:induction false} AgedEntries(s: Slots, s': Slots, i: nat)
    requires i < |s| == |s'| && s' == s[i := s[i].(aging := s'[i].aging)]
    ensures SameEntries(s, s')
  {
  }

  // ---------------------------------------------------------------------------
  // The same in the fields of slots, ports and entries alone
  // ---------------------------------------------------------------------------

  /** Slot `i` is the valid entry of the key in its window. */
  ghost predicate HeldAt(s: Slots, h: Hash, e: MacEntry, i: int) {
    InWindow(h, e.key, i) && Entry(s, e.key, i)
  }

  /** The flaps that an insert leaves on the entry of its key: forgotten after ten seconds, and one more when a
      dynamic entry that is let through comes within a tenth of a second, in 16 bits. */
  function FlapsLeft(v: Slot, e: MacEntry, ts: int): nat {
    var kept := if v.ts + 10000 < ts then 0 else v.flaps;
    if v.me.prio <= e.prio && e.prio == FEP_DYN && v.ts + 100 >= ts then (kept + 1) % 65536 else kept
  }

  /** What an insert answers. */
  ghost predicate Answered(s: Slots, h: Hash, pm: PortMap, ports: Ports, e: MacEntry, ts: int, junk: bool,
                           c: Choice, st: Status)
    requires PortMapFits(pm, |ports|)
  {
    && (forall i | HeldAt(s, h, e, i) ::
          && c == SameKey(i)
          && (st == AlreadyExists <==> s[i].me.prio > e.prio)
          && (st == NotReady <==> s[i].me.prio <= e.prio <= FEP_DYN && FlapsLeft(s[i], e, ts) >= 5))
    && ((forall i :: !HeldAt(s, h, e, i)) ==> st != AlreadyExists && st != NotReady)
    && (st == DoesNotExist <==>
        forall j | InWindow(h, e.key, j) ::
          0 <= j < |s| && s[j].valid && s[j].me.key != e.key && s[j].me.prio >= e.prio)
    && (st != AlreadyExists && st != NotReady && st != DoesNotExist ==>
          && !c.NoRoom? && 0 <= c.idx < |s|
          && var o, n := if s[c.idx].valid then Owner(pm, s[c.idx].me) else None, Owner(pm, e);
             st == if o != n && (if n.Some? then ports[n.value].enabled && ports[n.value].naddrs >= ports[n.value].max
                                 else !junk)
                   then BadState else OK)
  }

  /** What a refusal or a dry run leaves: the entry of the key with its flaps brought up to date. */
  ghost predicate LeftBy(s: Slots, s': Slots, h: Hash, e: MacEntry, ts: int) {
    && |s'| == |s|
    && forall i | 0 <= i < |s| :: s'[i] == if HeldAt(s, h, e, i) then s[i].(flaps := FlapsLeft(s[i], e, ts)) else s[i]
  }

  /** What an accepted insert leaves: its own slot anew, all others as they were. */
  ghost predicate TakenBy(s: Slots, s': Slots, e: MacEntry, secure: bool, devs: set<int>, ts: int, i: int) {
    && |s'| == |s| && 0 <= i < |s|
    && (forall j | 0 <= j < |s| && j != i :: s'[j] == s[j])
    && s'[i].valid && s'[i].secure == secure && s'[i].aging == devs && s'[i].ts == ts && s'[i].me == e
    && s'[i].flaps == if !s[i].valid then 0 else if s[i].me.key == e.key then FlapsLeft(s[i], e, ts) else s[i].flaps
  }

  /** A valid entry of the key is the choice, also for the zero key. */
  lemma {:induction false} HeldChosen(s: Slots, h: Hash, e: MacEntry, c: Choice, i: int)
    requires TableInv(s, h) && Chosen(s, h, e, c) && HeldAt(s, h, e, i)
    ensures c == SameKey(i)
  {
    assert Placed(s, h, i);
  }

  lemma {:induction false} InsertAnswers(s: Slots, h: Hash, pm: PortMap, ports: Ports, e: MacEntry, ts: int, junk: bool,
                                         c: Choice)
    requires TableInv(s, h) && Chosen(s, h, e, c) && PortMapFits(pm, |ports|)
    ensures !c.NoRoom? ==> 0 <= c.idx < |s|
    ensures Answered(s, h, pm, ports, e, ts, junk, c, InsertVerdict(s, pm, ports, e, ts, c, junk))
  {
    hide TableInv;
    HashInside(s, h, e.key);
    NoRoomIff(s, h, e, ts, c);
    forall i | HeldAt(s, h, e, i)
      ensures c == SameKey(i)
    {
      HeldChosen(s, h, e, c, i);
    }
    if c.SameKey? && s[c.idx].valid { assert HeldAt(s, h, e, c.idx); }
  }

  lemma {:induction false} InsertLeaves(s: Slots, h: Hash, e: MacEntry, secure: bool, devs: set<int>, ts: int, c: Choice)
    requires TableInv(s, h) && Chosen(s, h, e, c)
    ensures !c.NoRoom? ==> 0 <= c.idx < |s|
    ensures var s1 := Probed(s, e, ts, c);
            && LeftBy(s, s1, h, e, ts)
            && (TableVerdict(s, e, ts, c) == OK ==>
                  TakenBy(s, s1[c.idx := Stored(s1, e, secure, devs, ts, c.idx)], e, secure, devs, ts, c.idx))
  {
    hide TableInv;
    HashInside(s, h, e.key);
    forall i | HeldAt(s, h, e, i)
      ensures c == SameKey(i)
    {
      HeldChosen(s, h, e, c, i);
    }
    if c.SameKey? && s[c.idx].valid { assert HeldAt(s, h, e, c.idx); }
  }

  /** What an insert does to the ports: an accepted one moves one address from the old owner to the new. */
  ghost predicate Moves(ports: Ports, ports': Ports, o: Option<nat>, n: Option<nat>) {
    && |ports'| == |ports|
    && forall p | 0 <= p < |ports| ::
         && ports'[p] == ports[p].(naddrs := ports'[p].naddrs, learn := ports'[p].learn)
         && ports'[p].naddrs ==
            if o == n then ports[p].naddrs
            else if n == Some(p) then ports[p].naddrs + 1
            else if o == Some(p) && ports[p].naddrs > 0 then ports[p].naddrs - 1
            else ports[p].naddrs
  }

  lemma {:induction false} InsertMoves(ports: Ports, o: Option<nat>, n: Option<nat>, fake: bool)
    requires LearningRight(ports) && OwnerIn(o, |ports|) && OwnerIn(n, |ports|)
    ensures fake || (n.Some? && ports[n.value].enabled && ports[n.value].naddrs >= ports[n.value].max) ==>
              PsecPorts(ports, o, n, fake) == ports
    ensures !fake && (o == n || (n.Some? && ports[n.value].enabled ==> ports[n.value].naddrs < ports[n.value].max)) ==>
              Moves(ports, PsecPorts(ports, o, n, fake), o, n)
  {
  }

  lemma {:induction false} LeaveMoves(ports: Ports, o: Option<nat>)
    requires OwnerIn(o, |ports|) && LearningRight(ports)
    ensures Moves(ports, PortsLeave(ports, o), o, None)
  {
  }

  // ---------------------------------------------------------------------------
  // What a flush does, on values
  // ---------------------------------------------------------------------------

  /** Where a flushed entry points; `Behind` compares device and port whatever the entry's type. */
  datatype Target = Anywhere | Behind(dev: int, port: int) | OnPort(dev: int, port: int) | OnTrunk(trunk: int)

  datatype PortSel = AllPorts | NoSuchPort | AtPort(dev: int, port: int)
  datatype VifSel = AllVifs | NoSuchVif | VifPort(dev: int, port: int) | VifTrunk(trunk: int)

  predicate Hits(t: Target, d: Iface) {
    match t
    case Anywhere => true
    case Behind(x, p) => d.dev == x && d.port == p
    case OnPort(x, p) => d.ty.PortIface? && d.dev == x && d.port == p
    case OnTrunk(x) => d.ty.TrunkIface? && d.trunk == x
  }

  /** What to flush: one VLAN or all, a target, and whether static entries go as well. */
  datatype Filter = Filter(vid: Option<int>, target: Target, statics: bool)

  predicate Selected(f: Filter, vlanOf: Key -> int, me: MacEntry) {
    && (f.vid.Some? ==> vlanOf(me.key) == f.vid.value)
    && Hits(f.target, me.dst)
    && (f.statics || !me.isStatic)
  }

  predicate Flushes(f: Filter, vlanOf: Key -> int, v: Slot) {
    v.valid && Selected(f, vlanOf, v.me)
  }

  /** The slots after the first `n` have been looked at. */
  ghost predicate FlushedUpTo(s: Slots, s': Slots, f: Filter, vlanOf: Key -> int, n: int) {
    && |s'| == |s|
    && (forall j | 0 <= j < |s| && j < n :: s'[j] == if Flushes(f, vlanOf, s[j]) then Cleared(s[j]) else s[j])
    && (forall j | 0 <= j < |s| && j >= n :: s'[j] == s[j])
  }

  /** The ports after the first `n` slots have been looked at: each one flushed leaves its owner. */
  function PortsFlushed(s: Slots, pm: PortMap, f: Filter, vlanOf: Key -> int, n: nat, ports: Ports): (r: Ports)
    requires n <= |s| && PortMapFits(pm, |ports|)
    ensures |r| == |ports|
  {
    if n == 0 then ports
    else
      var r := PortsFlushed(s, pm, f, vlanOf, n - 1, ports);
      if Flushes(f, vlanOf, s[n - 1]) then PortsLeave(r, Owner(pm, s[n - 1].me)) else r
  }

  /** What the map keeps. */
  function Kept(m: map<Key, MacEntry>, f: Filter, vlanOf: Key -> int): map<Key, MacEntry> {
    map k | k in m && !Selected(f, vlanOf, m[k]) :: m[k]
  }

  lemma {:induction false} ContentsKeys(s: Slots)
    ensures forall k | k in Contents(s) :: Contents(s)[k].key == k
  {
  }

  /** A flush is a filter on the map. */
  lemma {:induction false} FlushIsFilter(s: Slots, s': Slots, h: Hash, f: Filter, vlanOf: Key -> int)
    requires TableInv(s, h) && TableInv(s', h) && FlushedUpTo(s, s', f, vlanOf, |s|)
    ensures Contents(s') == Kept(Contents(s), f, vlanOf)
  {
    forall k
      ensures k in Contents(s') <==> k in Contents(s) && !Selected(f, vlanOf, Contents(s)[k])
      ensures k in Contents(s') ==> Contents(s')[k] == Contents(s)[k]
    {
      FlushAt(s, s', h, f, vlanOf, k);
    }
  }

  lemma {:induction false} FlushAt(s: Slots, s': Slots, h: Hash, f: Filter, vlanOf: Key -> int, k: Key)
    requires TableInv(s, h) && TableInv(s', h) && FlushedUpTo(s, s', f, vlanOf, |s|)
    ensures k in Contents(s') <==> k in Contents(s) && !Selected(f, vlanOf, Contents(s)[k])
    ensures k in Contents(s') ==> Contents(s')[k] == Contents(s)[k]
  {
    hide TableInv, Contents;
    ContentsHas(s, k);
    ContentsHas(s', k);
    if i :| Entry(s, k, i) {
      ContentsAt(s, h, k, i);
      if Entry(s', k, i) { ContentsAt(s', h, k, i); }
    }
    if i :| Entry(s', k, i) {
      assert Entry(s, k, i);
      ContentsAt(s, h, k, i);
      ContentsAt(s', h, k, i);
    }
  }

  // ---------------------------------------------------------------------------
  // Port-security settings
  // ---------------------------------------------------------------------------

  /** A port after a flush. */
  function Settled(p: Port): Port {
    var q := if p.naddrs < 0 then p.(naddrs := 0) else p;
    if q.enabled && q.naddrs < q.max && q.mode == MaxAddrs then q.(learn := true) else q
  }

  ghost predicate AllSettled(ports: Ports, ports': Ports) {
    |ports'| == |ports| && forall p | 0 <= p < |ports| :: ports'[p] == Settled(ports[p])
  }

  /** Of a port only the counter and the flag have changed. */
  ghost predicate Recounted(ports: Ports, ports': Ports) {
    && |ports'| == |ports|
    && forall p | 0 <= p < |ports| :: ports'[p] == ports[p].(naddrs := ports'[p].naddrs, learn := ports'[p].learn)
  }

  /** Of a table some valid slots have been made invalid, and lost all but their content. */
  ghost predicate Emptied(s: Slots, s': Slots) {
    && |s'| == |s|
    && forall j | 0 <= j < |s| && s'[j] != s[j] ::
         s[j].valid && s'[j] == s[j].(valid := false, secure := false, flaps := 0, ts := 0)
  }

  lemma {:induction false} FlushedFields(s: Slots, pm: PortMap, f: Filter, vlanOf: Key -> int, n: nat, ports: Ports)
    requires n <= |s| && PortMapFits(pm, |ports|)
    ensures Recounted(ports, PortsFlushed(s, pm, f, vlanOf, n, ports))
  {
    hide Flushes;
    if n > 0 { FlushedFields(s, pm, f, vlanOf, n - 1, ports); }
  }

  lemma {:induction false} SettledFields(ports: Ports, ports1: Ports, ports2: Ports)
    requires Recounted(ports, ports1) && AllSettled(ports1, ports2)
    ensures Recounted(ports, ports2)
  {
  }

  lemma {:induction false} ClearedFields(s: Slots, s': Slots, f: Filter, vlanOf: Key -> int)
    requires FlushedUpTo(s, s', f, vlanOf, |s|)
    ensures Emptied(s, s')
  {
    hide Selected;
  }

  /** Where flags and counters are right, the look at the ports after a flush changes no port but
      the flags of stack ports. */
  lemma {:induction false} SettledRight(s: Slots, pm: PortMap, ports: Ports, ports': Ports)
    requires LearningRight(ports) && AllSettled(ports, ports')
    ensures LearningRight(ports')
    ensures Conserved(s, pm, ports') <==> Conserved(s, pm, ports)
    ensures forall p | 0 <= p < |ports| && !ports[p].stack :: ports'[p] == ports[p]
  {
    assert forall p | 0 <= p < |ports| :: ports'[p].naddrs == ports[p].naddrs;
  }

  // ---------------------------------------------------------------------------
  // Runs
  // ---------------------------------------------------------------------------

  /** One request to the table. */
  datatype Request =
    | InsertRequest(e: MacEntry, secure: bool, fake: bool, ts: int, junk: bool)
    | RemoveRequest(k: Key, sid: int)
    | FlushRequest(vid: Option<int>, port: PortSel, statics: bool)
    | FlushVifRequest(vid: Option<int>, vif: VifSel, statics: bool)
    | ModeRequest(p: nat, mode: PsecMode)
    | LimitRequest(p: nat, max: int)
    | EnableRequest(p: nat, enable: bool, act: int, interval: int)
    | StackRequest(master: int, devs: set<int>)

  /** Every caller of an insert sets a priority. */
  predicate Proper(r: Request) {
    r.InsertRequest? ==> r.e.prio > FEP_UNUSED
  }

  /** A real insert whose status, should it be read unassigned, reads as a refusal. */
  predicate Unlucky(r: Request) {
    r.InsertRequest? && !r.fake && !r.junk
  }

  /** And it is read unassigned: the entry it would replace has a port, and the new one has none. */
  ghost predicate LosesOwner(s: Slots, h: Hash, pm: PortMap, r: Request) {
    Unlucky(r) && exists c :: Chosen(s, h, r.e, c) && OwnerLost(s, pm, r.e, r.ts, c)
  }

  /** There is one choice of slot to decide it. */
  lemma {:induction false} LosesChosen(s: Slots, h: Hash, pm: PortMap, r: Request, c: Choice)
    requires r.InsertRequest? && Chosen(s, h, r.e, c)
    ensures !c.NoRoom? ==> 0 <= c.idx < |s|
    ensures LosesOwner(s, h, pm, r) <==> Unlucky(r) && OwnerLost(s, pm, r.e, r.ts, c)
  {
    forall d | Chosen(s, h, r.e, d)
      ensures d == c
    {
      ChosenUnique(s, h, r.e, c, d);
    }
  }

  const NOWHERE := Iface(PortIface, 0, 0, 0, 0)
  const EMPTY_SLOT := Slot(false, false, {}, 0, 0, MacEntry(ZERO_KEY, NOWHERE, FEP_UNUSED, false))

  /** A port at start: security off, room for one address, learning on. */
  predicate Fresh(p: Port) {
    !p.enabled && p.mode == Locked && p.max == 1 && p.naddrs == 0 && (!p.stack ==> p.learn)
  }

  /** An accepted insert overwrites a valid entry of its own key only when that one's priority is not
      higher, and another key's only when it is lower, and then no window slot was free. */
  lemma {:induction false} EvictionSafe(s: Slots, h: Hash, e: MacEntry, ts: int, c: Choice)
    requires TableInv(s, h) && Chosen(s, h, e, c) && !c.NoRoom? && 0 <= c.idx < |s|
    requires TableVerdict(s, e, ts, c) == OK && s[c.idx].valid
    ensures s[c.idx].me.key == e.key ==> s[c.idx].me.prio <= e.prio
    ensures s[c.idx].me.key != e.key ==>
              && s[c.idx].me.prio < e.prio && e.key !in Contents(s)
              && forall j | h(e.key) <= j < h(e.key) + WINDOW :: s[j].valid && s[c.idx].me.prio <= s[j].me.prio
  {
    WindowSearch(s, h, e.key);
  }

  /** An insert finds no room exactly when the window is full of other keys of no lower priority. */
  lemma {:induction false} NoRoomIff(s: Slots, h: Hash, e: MacEntry, ts: int, c: Choice)
    requires TableInv(s, h) && Chosen(s, h, e, c)
    requires !c.NoRoom? ==> 0 <= c.idx < |s|
    ensures TableVerdict(s, e, ts, c) == DoesNotExist <==>
            forall j | h(e.key) <= j < h(e.key) + WINDOW ::
              s[j].valid && s[j].me.key != e.key && s[j].me.prio >= e.prio
  {
    assert !c.NoRoom? ==> h(e.key) <= c.idx < h(e.key) + WINDOW;
  }

  /** An insert of a known key goes to the key's entry. */
  lemma {:induction false} KnownKey(s: Slots, h: Hash, e: MacEntry, c: Choice)
    requires TableInv(s, h) && Chosen(s, h, e, c) && e.key in Contents(s) && e.key != ZERO_KEY
    ensures c.SameKey? && 0 <= c.idx < |s| && s[c.idx].valid && s[c.idx].me == Contents(s)[e.key]
  {
    WindowSearch(s, h, e.key);
    var i :| Entry(s, e.key, i) && InWindow(h, e.key, i);
    ContentsAt(s, h, e.key, i);
  }

  /** In an empty table there is room. */
  lemma {:induction false} RoomInEmpty(s: Slots, h: Hash, e: MacEntry, ts: int, c: Choice)
    requires TableInv(s, h) && Chosen(s, h, e, c) && Contents(s) == map[]
    ensures !c.NoRoom? && 0 <= c.idx < |s| && !s[c.idx].valid && TableVerdict(s, e, ts, c) == OK
  {
    forall i | 0 <= i < |s|
      ensures !s[i].valid
    {
      if s[i].valid { ContentsAt(s, h, s[i].me.key, i); }
    }
    assert !s[h(e.key)].valid;
  }

  class FdbTable {
    const slots: array<Slot>
    const ports: array<Port>
    const hash: Hash
    const portMap: PortMap

    /** The VLAN of a key as a flush reads it, through the layout of a MAC key. */
    const vlanOf: Key -> int

    /** The limits that a port may be given. */
    const minAddrs: int
    const maxAddrs: int

    /** The first and the last of the actions that a full port may take. */
    const firstAct: int
    const lastAct: int

    /** This unit, its master, and the bitmap of stack units. */
    const self: int
    var master: int
    var devs: set<int>

    /** For each slot the bitmap recorded at its last accepted insert, and the units whose aging
        reports have reached the entry since. */
    ghost var needed: seq<set<int>>
    ghost var reported: seq<set<int>>

    /** Whether some request has lost an owner. */
    ghost var lost: bool

    ghost predicate Shape()
      reads this`needed, this`reported
    {
      && |needed| == |reported| == slots.Length
      && PortMapFits(portMap, ports.Length)
      && (forall v, m :: vlanOf(MacKey(v, m)) == v)
      && minAddrs >= 1
    }

    ghost predicate Aging()
      requires Shape()
      reads this`needed, this`reported, slots
    {
      forall i | 0 <= i < slots.Length && slots[i].valid :: slots[i].aging == needed[i] - reported[i]
    }

    ghost predicate Valid()
      reads this`needed, this`reported, slots, ports
    {
      Shape() && TableInv(slots[..], hash) && LearningRight(ports[..]) && Aging()
    }

    /** Every port's counter is the number of its entries. */
    ghost predicate Exact()
      reads slots, ports
    {
      Conserved(slots[..], portMap, ports[..])
    }

    constructor (n: nat, h: Hash, ps: seq<Port>, pm: PortMap, vlans: Key -> int, lo: int, hi: int,
                 acts: (int, int), id: int)
      requires HashFits(h, n) && PortMapFits(pm, |ps|)
      requires forall p | 0 <= p < |ps| :: Fresh(ps[p])
      requires (forall v, m :: vlans(MacKey(v, m)) == v) && lo >= 1
      ensures fresh(slots) && fresh(ports) && Valid() && Exact() && !lost
      ensures slots.Length == n && ports[..] == ps && hash == h && portMap == pm && vlanOf == vlans
      ensures minAddrs == lo && maxAddrs == hi && (firstAct, lastAct) == acts && self == id
      ensures Contents(slots[..]) == map[]
    {
      slots := new Slot[n](_ => EMPTY_SLOT);
      ports := new Port[|ps|](i requires 0 <= i < |ps| => ps[i]);
      hash, portMap, vlanOf, minAddrs, maxAddrs, self := h, pm, vlans, lo, hi, id;
      firstAct, lastAct := acts.0, acts.1;
      master := id;
      devs := {};
      lost := false;
      needed := seq(n, _ => {});
      reported := seq(n, _ => {});
      new;
      assert ports[..] == ps;
      forall p: nat
        ensures Count(slots[..], pm, p) == 0
      {
        CountNone(slots[..], pm, p);
      }
    }

    // -------------------------------------------------------------------------
    // Inserting
    // -------------------------------------------------------------------------

    /** The probe has come to a slot with the key of the new entry. */
    method Meet(x: nat, e: MacEntry, ts: int) returns (st: Status, meExists: bool)
      requires x < slots.Length
      modifies slots
      ensures st == TableVerdict(old(slots[..]), e, ts, SameKey(x))
      ensures meExists <==> old(slots[x]).valid && SamePort(e, old(slots[x]).me)
      ensures slots[..] == Probed(old(slots[..]), e, ts, SameKey(x))
    {
      if !slots[x].valid {
        return OK, false;
      }
      meExists := SamePort(e, slots[x].me);
      slots[x] := Calmed(slots[x], ts);
      if slots[x].me.prio > e.prio {
        return AlreadyExists, meExists;
      }
      slots[x] := Bumped(slots[x], e, ts);
      st := if e.prio <= FEP_DYN && slots[x].flaps >= MAX_FLAPS then NotReady else OK;
    }

    /** The probe loop of an insert. */
    method Choose(e: MacEntry, ts: int) returns (st: Status, idx: int, meExists: bool, ghost c: Choice)
      requires Valid() && e.prio > FEP_UNUSED
      modifies slots
      ensures Chosen(old(slots[..]), hash, e, c)
      ensures st == TableVerdict(old(slots[..]), e, ts, c)
      ensures st == OK ==> idx == c.idx
      ensures meExists <==> c.SameKey? && slots[c.idx].valid && SamePort(e, slots[c.idx].me)
      ensures slots[..] == Probed(old(slots[..]), e, ts, c) && Aging()
    {
      hide TableInv, LearningRight;
      ghost var s := slots[..];
      var base := hash(e.key);
      HashInside(s, hash, e.key);
      idx := -1;
      var bestPri := e.prio;
      meExists := false;
      c := NoRoom;
      var i := 0;
      while i < 4
        invariant 0 <= i <= 4
        invariant slots[..] == s && !meExists
        invariant forall j | base <= j < base + i :: s[j].me.key != e.key
        invariant idx == -1 ==> bestPri == e.prio && c == NoRoom
        invariant idx != -1 ==> base <= idx < base + i
        invariant idx == -1 ==> forall j | base <= j < base + i :: s[j].valid && s[j].me.prio >= e.prio
        invariant idx != -1 && bestPri == FEP_UNUSED ==>
                    !s[idx].valid && c == FreeSlot(idx) && forall j | base <= j < idx :: s[j].valid
        invariant idx != -1 && bestPri != FEP_UNUSED ==>
                    && c == Evict(idx) && bestPri == s[idx].me.prio < e.prio
                    && (forall j | base <= j < base + i :: s[j].valid && bestPri <= s[j].me.prio)
                    && (forall j | base <= j < idx :: bestPri < s[j].me.prio)
      {
        var x := base + i;
        if MeKeyEq(e.key, slots[x].me.key) {
          st, meExists := Meet(x, e, ts);
          return st, x, meExists, SameKey(x);
        }
        if bestPri != FEP_UNUSED {
          if !slots[x].valid {
            bestPri := FEP_UNUSED;
            idx := x;
            c := FreeSlot(x);
          } else if bestPri > slots[x].me.prio {
            bestPri := slots[x].me.prio;
            idx := x;
            c := Evict(x);
          }
        }
        i := i + 1;
      }
      st := if idx == -1 then DoesNotExist else OK;
    }

    // -------------------------------------------------------------------------
    // Port security
    // -------------------------------------------------------------------------

    method DisableLearning(p: nat)
      requires p < ports.Length
      modifies ports
      ensures ports[..] == old(ports[..])[p := old(ports[p]).(learn := false)]
    {
      ports[p] := ports[p].(learn := false);
    }

    method EnableLearning(p: nat)
      requires p < ports.Length
      modifies ports
      ensures ports[..] == old(ports[..])[p := old(ports[p]).(learn := true)]
    {
      ports[p] := ports[p].(learn := true);
    }

    method LimitReached(p: nat)
      requires p < ports.Length
      modifies ports
      ensures ports[..] == old(ports[..])[p :=
                if old(ports[p]).enabled then old(ports[p]).(learn := false) else old(ports[p])]
    {
      if ports[p].enabled {
        DisableLearning(p);
      }
    }

    method LimitLeft(p: nat)
      requires p < ports.Length
      modifies ports
      ensures ports[..] == old(ports[..])[p :=
                if old(ports[p]).enabled && old(ports[p]).mode == MaxAddrs then old(ports[p]).(learn := true)
                else old(ports[p])]
    {
      if ports[p].enabled && ports[p].mode == MaxAddrs {
        EnableLearning(p);
      }
    }

    method AddrLeave(p: nat)
      requires p < ports.Length
      modifies ports
      ensures ports[..] == old(ports[..])[p := Leave(old(ports[p]))]
    {
      var n := ports[p].naddrs;
      ports[p] := ports[p].(naddrs := n - 1);
      if n == ports[p].max {
        LimitLeft(p);
      }
      if ports[p].naddrs < 0 {
        ports[p] := ports[p].(naddrs := 0);
      }
    }

    method AddrDel(me: MacEntry)
      requires OwnerIn(Owner(portMap, me), ports.Length)
      modifies ports
      ensures ports[..] == PortsLeave(old(ports[..]), Owner(portMap, me))
    {
      if me.key.MacKey? && me.dst.ty.PortIface? {
        var op := portMap(me.dst.dev, me.dst.port);
        if op.Some? {
          AddrLeave(op.value);
        }
      }
    }

    /** Whether `n` may take the place of `o`, and if so, and not `fake`, the counters for it. */
    method AddrCheck(o: Slot, n: MacEntry, fake: bool, junk: bool) returns (ok: bool)
      requires OwnerIn(SlotOwner(portMap, o), ports.Length) && OwnerIn(Owner(portMap, n), ports.Length)
      modifies ports
      ensures ok == PsecAllows(old(ports[..]), SlotOwner(portMap, o), Owner(portMap, n), junk)
      ensures ports[..] == PsecPorts(old(ports[..]), SlotOwner(portMap, o), Owner(portMap, n), fake)
    {
      var op, np := None, None;
      if o.valid && o.me.key.MacKey? && o.me.dst.ty.PortIface? {
        op := portMap(o.me.dst.dev, o.me.dst.port);
      }
      if n.key.MacKey? && n.dst.ty.PortIface? {
        np := portMap(n.dst.dev, n.dst.port);
      }
      if np == op {
        return true;
      }
      ok := junk;
      if np.Some? {
        var p := np.value;
        ok := true;
        if !ports[p].enabled {
          if !fake {
            ports[p] := ports[p].(naddrs := ports[p].naddrs + 1);
          }
        } else {
          if ports[p].naddrs >= ports[p].max {
            return false;
          }
          if !fake {
            ports[p] := ports[p].(naddrs := ports[p].naddrs + 1);
            if ports[p].naddrs == ports[p].max {
              LimitReached(p);
            }
          }
        }
      }
      if !fake && op.Some? {
        AddrLeave(op.value);
      }
    }

    // -------------------------------------------------------------------------
    // Accepting, removing, looking up
    // -------------------------------------------------------------------------

    /** Inserts an entry; `fake` only asks whether it would be accepted. */
    method Insert(e: MacEntry, secure: bool, fake: bool, ts: int, junk: bool) returns (st: Status, ghost c: Choice)
      requires Valid() && e.prio > FEP_UNUSED
      modifies this`needed, this`reported, slots, ports
      ensures Valid()
      ensures Chosen(old(slots[..]), hash, e, c)
      ensures st == InsertVerdict(old(slots[..]), portMap, old(ports[..]), e, ts, c, junk)
      ensures ports[..] == InsertPorts(old(slots[..]), portMap, old(ports[..]), e, ts, c, fake)
      ensures var s1 := Probed(old(slots[..]), e, ts, c);
              if st == OK && !fake
              then && slots[..] == s1[c.idx := Stored(s1, e, secure, devs, ts, c.idx)]
                   && needed == old(needed)[c.idx := devs] && reported == old(reported)[c.idx := {}]
                   && Contents(slots[..]) ==
                        (Contents(old(slots[..])) - Victim(old(slots[..]), c.idx))[e.key := e]
              else && slots[..] == s1
                   && needed == old(needed) && reported == old(reported)
                   && Contents(slots[..]) == Contents(old(slots[..]))
      ensures old(Exact()) ==>
                (Exact() <==> fake || junk || !OwnerLost(old(slots[..]), portMap, e, ts, c))
      ensures NoneOverfull(old(ports[..]), ports[..])
      ensures Answered(old(slots[..]), hash, portMap, old(ports[..]), e, ts, junk, c, st)
      ensures if st == OK && !fake then TakenBy(old(slots[..]), slots[..], e, secure, devs, ts, c.idx)
              else LeftBy(old(slots[..]), slots[..], hash, e, ts)
      ensures if fake || (st != OK && st != BadState) || (st == BadState && Owner(portMap, e).Some?)
              then ports[..] == old(ports[..])
              else Moves(old(ports[..]), ports[..], SlotOwner(portMap, old(slots[..])[c.idx]), Owner(portMap, e))
    {
      hide Answered, LeftBy, TakenBy, Moves;
      hide TableInv, Chosen, SameEntries, LearningRight, Conserved, Contents, PsecPorts, PsecAllows, Victim, Count;
      hide Probed, Calmed, Bumped, Flapping, NoneOverfull, Aging, Stored;
      ghost var s, ps := slots[..], ports[..];
      var idx: int;
      var meExists: bool;
      st, idx, meExists, c := Choose(e, ts);
      ghost var s1 := slots[..];
      ProbedEntries(s, hash, e, ts, c);
      FlapsKeep(s, s1, hash, portMap, ps, e, c);
      InsertAnswers(s, hash, portMap, ps, e, ts, junk, c);
      InsertLeaves(s, hash, e, secure, devs, ts, c);
      OverfullSame(ps);
      if st != OK {
        return;
      }
      ghost var o, n := SlotOwner(portMap, s[idx]), Owner(portMap, e);
      PsecLearning(ps, o, n, fake);
      var ok := AddrCheck(slots[idx], e, fake || meExists, junk);
      PsecCases(ps, o, n, fake, junk);
      if meExists { SamePortSameOwner(s, portMap, ps, e, c, fake); }
      PsecLimit(ps, o, n, fake);
      InsertMoves(ps, o, n, fake);
      if !ok {
        if old(Exact()) && !fake && n.None? { OwnerLostBreaks(s, s1, portMap, ps, idx, n); }
        return BadState, c;
      }
      if fake {
        return OK, c;
      }
      StoredIs(s1, e, secure, devs, ts, idx);
      InsertStored(s, s1, hash, e, c, Stored(s1, e, secure, devs, ts, idx));
      if old(Exact()) { InsertConserves(s, s1, portMap, ps, idx, Stored(s1, e, secure, devs, ts, idx)); }
      Store(idx, e, secure, ts);
    }

    /** Writes the accepted entry; from now on every unit of the bitmap has to report it aged. */
    method Store(idx: nat, e: MacEntry, secure: bool, ts: int)
      requires Shape() && Aging() && idx < slots.Length
      modifies this`needed, this`reported, slots
      ensures Shape() && Aging()
      ensures slots[..] == old(slots[..])[idx := Stored(old(slots[..]), e, secure, devs, ts, idx)]
      ensures needed == old(needed)[idx := devs] && reported == old(reported)[idx := {}]
    {
      slots[idx] := slots[idx].(me := e);
      if !slots[idx].valid {
        slots[idx] := slots[idx].(flaps := 0);
      }
      slots[idx] := slots[idx].(valid := true, secure := secure, aging := devs, ts := ts);
      needed := needed[idx := devs];
      reported := reported[idx := {}];
    }

    /** Removes a key; the master keeps a trunk entry until every unit has reported it aged. */
    method Remove(k: Key, sid: int) returns (st: Status, ghost i: int)
      requires Valid()
      modifies this`reported, slots, ports
      ensures Valid()
      ensures old(Exact()) ==> Exact()
      ensures st == DoesNotExist || st == OK || st == NotReady
      ensures st == DoesNotExist <==> k !in Contents(old(slots[..]))
      ensures st == DoesNotExist ==>
                slots[..] == old(slots[..]) && ports[..] == old(ports[..]) && reported == old(reported)
      ensures st != DoesNotExist ==>
                && Entry(old(slots[..]), k, i)
                && if master == self && old(slots[i]).me.dst.ty.TrunkIface? && sid != 16
                   then && st == (if needed[i] <= old(reported)[i] + {sid} then OK else NotReady)
                        && reported == old(reported)[i := old(reported)[i] + {sid}]
                   else st == OK && reported == old(reported)
      ensures st == NotReady ==>
                slots[..] == old(slots[..])[i := old(slots[i]).(aging := old(slots[i]).aging - {sid})]
      ensures st == OK ==>
                && slots[..] == old(slots[..])[i := slots[i]]
                && !slots[i].valid && !slots[i].secure && slots[i].flaps == 0 && slots[i].ts == 0
                && slots[i].me == old(slots[i]).me
      ensures st == OK ==>
                && Contents(slots[..]) == Contents(old(slots[..])) - {k}
                && ports[..] == PortsLeave(old(ports[..]), Owner(portMap, old(slots[..])[i].me))
                && Moves(old(ports[..]), ports[..], Owner(portMap, old(slots[..])[i].me), None)
      ensures st == NotReady ==>
                Contents(slots[..]) == Contents(old(slots[..])) && ports[..] == old(ports[..])
    {
      hide TableInv, LearningRight, Conserved, Contents, PortsLeave, SameEntries, Moves;
      ghost var s, ps := slots[..], ports[..];
      var base := hash(k);
      HashInside(s, hash, k);
      i := -1;
      var j := 0;
      while j < 4
        invariant 0 <= j <= 4
        invariant forall x | base <= x < base + j :: !Entry(s, k, x)
        invariant slots[..] == s && ports[..] == ps && reported == old(reported)
      {
        var idx := base + j;
        if slots[idx].valid && MeKeyEq(k, slots[idx].me.key) {
          i := idx;
          EntryThere(s, hash, k, idx);
          if master == self && slots[idx].me.dst.ty.TrunkIface? && sid != NOT_AGING {
            slots[idx] := slots[idx].(aging := slots[idx].aging - {sid});
            reported := reported[idx := reported[idx] + {sid}];
            assert slots[..] == s[idx := slots[idx]];
            AgedEntries(s, slots[..], idx);
            Untouched(s, slots[..], hash, portMap, ps);
            if slots[idx].aging != {} {
              return NotReady, i;
            }
          }
          ghost var s1 := slots[..];
          Cleaned(s1, hash, portMap, ps, idx, Cleared(s1[idx]));
          LeaveMoves(ps, Owner(portMap, s1[idx].me));
          AddrDel(slots[idx].me);
          slots[idx] := Cleared(slots[idx]);
          assert slots[..] == s1[idx := Cleared(s1[idx])];
          return OK, i;
        }
        j := j + 1;
      }
      NotInWindow(s, hash, k);
      st := DoesNotExist;
    }

    /** Looks a key up. */
    method Query(k: Key) returns (st: Status, fe: Option<Slot>)
      requires Valid()
      ensures st == OK <==> k in Contents(slots[..])
      ensures st == OK ==> fe.Some? && fe.value.me == Contents(slots[..])[k]
      ensures st == OK ==> exists i :: Entry(slots[..], k, i) && fe == Some(slots[i])
      ensures st != OK ==> st == DoesNotExist && fe == None
    {
      hide TableInv, Contents;
      var base := hash(k);
      HashInside(slots[..], hash, k);
      var j := 0;
      while j < 4
        invariant 0 <= j <= 4
        invariant forall x | base <= x < base + j :: !Entry(slots[..], k, x)
      {
        var idx := base + j;
        if slots[idx].valid && MeKeyEq(k, slots[idx].me.key) {
          ContentsAt(slots[..], hash, k, idx);
          return OK, Some(slots[idx]);
        }
        j := j + 1;
      }
      NotInWindow(slots[..], hash, k);
      return DoesNotExist, None;
    }

    // -------------------------------------------------------------------------
    // Flushing
    // -------------------------------------------------------------------------

    method FlushEntry(i: nat)
      requires Valid() && i < slots.Length && slots[i].valid
      modifies slots, ports
      ensures Valid() && (old(Exact()) ==> Exact())
      ensures slots[..] == old(slots[..])[i := Cleared(old(slots[i]))]
      ensures ports[..] == PortsLeave(old(ports[..]), Owner(portMap, old(slots[i]).me))
    {
      hide TableInv, LearningRight, Conserved, Contents, PortsLeave;
      ghost var s := slots[..];
      Cleaned(s, hash, portMap, ports[..], i, Cleared(s[i]));
      AddrDel(slots[i].me);
      slots[i] := Cleared(slots[i]);
      assert slots[..] == s[i := Cleared(s[i])];
    }

    /** Looks at every port again after a flush. */
    method PsecAfterFlush()
      modifies ports
      ensures AllSettled(old(ports[..]), ports[..])
    {
      ghost var was := ports[..];
      var p := 0;
      while p < ports.Length
        invariant 0 <= p <= ports.Length
        invariant forall q | 0 <= q < ports.Length :: ports[q] == if q < p then Settled(was[q]) else was[q]
      {
        if ports[p].naddrs < 0 {
          ports[p] := ports[p].(naddrs := 0);
        }
        if ports[p].enabled {
          if ports[p].naddrs < ports[p].max {
            LimitLeft(p);
          }
        }
        p := p + 1;
      }
    }

    /** Flushes what a filter selects. */
    method FlushSelected(f: Filter)
      requires Valid()
      modifies slots, ports
      ensures Valid() && (old(Exact()) ==> Exact())
      ensures FlushedUpTo(old(slots[..]), slots[..], f, vlanOf, slots.Length)
      ensures Contents(slots[..]) == Kept(Contents(old(slots[..])), f, vlanOf)
      ensures AllSettled(PortsFlushed(old(slots[..]), portMap, f, vlanOf, slots.Length, old(ports[..])), ports[..])
      ensures Emptied(old(slots[..]), slots[..]) && Recounted(old(ports[..]), ports[..])
    {
      hide TableInv, LearningRight, Conserved, Contents, PortsLeave, Selected, AllSettled, Kept, Emptied, Recounted;
      ghost var s, ps := slots[..], ports[..];
      var i := 0;
      while i < slots.Length
        invariant 0 <= i <= slots.Length
        invariant Valid() && (old(Exact()) ==> Exact())
        invariant FlushedUpTo(s, slots[..], f, vlanOf, i)
        invariant ports[..] == PortsFlushed(s, portMap, f, vlanOf, i, ps)
      {
        if slots[i].valid && Selected(f, vlanOf, slots[i].me) {
          FlushEntry(i);
        }
        i := i + 1;
      }
      FlushIsFilter(s, slots[..], hash, f, vlanOf);
      ClearedFields(s, slots[..], f, vlanOf);
      FlushedFields(s, portMap, f, vlanOf, |s|, ps);
      ps := ports[..];
      PsecAfterFlush();
      SettledFields(old(ports[..]), ps, ports[..]);
      SettledRight(slots[..], portMap, ps, ports[..]);
    }

    /** Flushes a VLAN and a port. */
    method Flush(vid: Option<int>, port: PortSel, statics: bool) returns (st: Status)
      requires Valid()
      modifies slots, ports
      ensures Valid() && (old(Exact()) ==> Exact())
      ensures st == if (vid.Some? && !VlanValid(vid.value)) || port.NoSuchPort? then BadValue else OK
      ensures st != OK ==> slots[..] == old(slots[..]) && ports[..] == old(ports[..])
      ensures st == OK ==> Emptied(old(slots[..]), slots[..]) && Recounted(old(ports[..]), ports[..])
      ensures st == OK ==>
                var m := Contents(old(slots[..]));
                Contents(slots[..]) == map k | k in m &&
                  !(&& (vid.Some? ==> vlanOf(k) == vid.value)
                    && (port.AtPort? ==> m[k].dst.dev == port.dev && m[k].dst.port == port.port)
                    && (statics || !m[k].isStatic)) :: m[k]
    {
      hide TableInv, LearningRight, Conserved, Contents, FlushedUpTo, AllSettled, PortsFlushed, Emptied, Recounted;
      if vid.Some? && !VlanValid(vid.value) {
        return BadValue;
      }
      var t := Anywhere;
      match port {
        case AllPorts =>
        case NoSuchPort => return BadValue;
        case AtPort(d, p) => t := Behind(d, p);
      }
      ContentsKeys(slots[..]);
      FlushSelected(Filter(vid, t, statics));
      return OK;
    }

    /** Flushes a VLAN and a virtual interface. */
    method FlushVif(vid: Option<int>, vif: VifSel, statics: bool) returns (st: Status)
      requires Valid()
      modifies slots, ports
      ensures Valid() && (old(Exact()) ==> Exact())
      ensures st == if (vid.Some? && !VlanValid(vid.value)) || vif.NoSuchVif? then BadValue else OK
      ensures st != OK ==> slots[..] == old(slots[..]) && ports[..] == old(ports[..])
      ensures st == OK ==> Emptied(old(slots[..]), slots[..]) && Recounted(old(ports[..]), ports[..])
      ensures st == OK ==>
                var m := Contents(old(slots[..]));
                Contents(slots[..]) == map k | k in m &&
                  !(&& (vid.Some? ==> vlanOf(k) == vid.value)
                    && (vif.VifPort? ==> m[k].dst.ty.PortIface? && m[k].dst.dev == vif.dev && m[k].dst.port == vif.port)
                    && (vif.VifTrunk? ==> m[k].dst.ty.TrunkIface? && m[k].dst.trunk == vif.trunk)
                    && (statics || !m[k].isStatic)) :: m[k]
    {
      hide TableInv, LearningRight, Conserved, Contents, FlushedUpTo, AllSettled, PortsFlushed, Emptied, Recounted;
      if vid.Some? && !VlanValid(vid.value) {
        return BadValue;
      }
      var t := Anywhere;
      match vif {
        case AllVifs =>
        case NoSuchVif => return BadValue;
        case VifPort(d, p) => t := OnPort(d, p);
        case VifTrunk(x) => t := OnTrunk(x);
      }
      ContentsKeys(slots[..]);
      FlushSelected(Filter(vid, t, statics));
      return OK;
    }

    // -------------------------------------------------------------------------
    // Port-security settings
    // -------------------------------------------------------------------------

    method SetMode(p: nat, mode: PsecMode) returns (st: Status)
      requires Valid()
      modifies ports
      ensures Valid() && (old(Exact()) ==> Exact())
      ensures st == if p >= ports.Length then BadValue else if old(ports[p]).enabled then BadState else OK
      ensures ports[..] == if st == OK then old(ports[..])[p := old(ports[p]).(mode := mode)] else old(ports[..])
    {
      if p >= ports.Length {
        return BadValue;
      }
      if ports[p].enabled {
        return BadState;
      }
      ports[p] := ports[p].(mode := mode);
      return OK;
    }

    method SetMaxAddrs(p: nat, max: int) returns (st: Status)
      requires Valid()
      modifies ports
      ensures Valid() && (old(Exact()) ==> Exact())
      ensures st == if p >= ports.Length || !(minAddrs <= max <= maxAddrs) then BadValue
                    else if old(ports[p]).enabled then BadState else OK
      ensures ports[..] == if st == OK then old(ports[..])[p := old(ports[p]).(max := max)] else old(ports[..])
    {
      if p >= ports.Length {
        return BadValue;
      }
      if !(minAddrs <= max <= maxAddrs) {
        return BadValue;
      }
      if ports[p].enabled {
        return BadState;
      }
      ports[p] := ports[p].(max := max);
      return OK;
    }

    /** The hardware side of switching security on or off. */
    method ApplyEnable(p: nat)
      requires p < ports.Length
      modifies ports
      ensures ports[..] == old(ports[..])[p := old(ports[p]).(learn := MayLearn(old(ports[p])))]
    {
      if ports[p].enabled {
        match ports[p].mode {
          case Locked =>
            DisableLearning(p);
          case MaxAddrs =>
            if ports[p].naddrs >= ports[p].max {
              DisableLearning(p);
            } else {
              EnableLearning(p);
            }
        }
      } else {
        EnableLearning(p);
      }
    }

    /** Switches security; an interval of zero stands for the default one. */
    method Enable(p: nat, enable: bool, act: int, interval: int) returns (st: Status)
      requires Valid()
      modifies ports
      ensures Valid() && (old(Exact()) ==> Exact())
      ensures st == if p >= ports.Length || !(firstAct <= act <= lastAct) || !(0 <= interval <= 1000000)
                    then BadValue else OK
      ensures st != OK ==> ports[..] == old(ports[..])
      ensures st == OK ==>
                && ports[..] == old(ports[..])[p := ports[p]]
                && ports[p] == old(ports[p]).(enabled := enable, learn := ports[p].learn)
                && ports[p].learn == if old(ports[p]).enabled == enable then old(ports[p]).learn
                                     else !enable || (ports[p].mode == MaxAddrs && ports[p].naddrs < ports[p].max)
    {
      if p >= ports.Length {
        return BadValue;
      }
      if !(firstAct <= act <= lastAct) {
        return BadValue;
      }
      var trap := if interval == 0 then 30 else interval;
      if !(1 <= trap <= 1000000) {
        return BadValue;
      }
      var change := ports[p].enabled != enable;
      ports[p] := ports[p].(enabled := enable);
      if change {
        ApplyEnable(p);
      }
      return OK;
    }

    // -------------------------------------------------------------------------
    // Runs
    // -------------------------------------------------------------------------

    /** Handles one request.  Exact counters stay exact if and only if it loses no owner. */
    method Handle(r: Request) returns (st: Status)
      requires Valid() && Proper(r)
      modifies this, slots, ports
      ensures Valid()
      ensures old(Exact()) ==> (Exact() <==> !LosesOwner(old(slots[..]), hash, portMap, r))
      ensures lost <==> old(lost) || LosesOwner(old(slots[..]), hash, portMap, r)
    {
      hide Valid, Exact, Chosen, OwnerLost;
      ghost var c, i;
      ghost var s := slots[..];
      match r {
        case InsertRequest(e, secure, fake, ts, junk) =>
          st, c := Insert(e, secure, fake, ts, junk);
          LosesChosen(s, hash, portMap, r, c);
        case RemoveRequest(k, sid) => st, i := Remove(k, sid);
        case FlushRequest(vid, port, statics) => st := Flush(vid, port, statics);
        case FlushVifRequest(vid, vif, statics) => st := FlushVif(vid, vif, statics);
        case ModeRequest(p, mode) => st := SetMode(p, mode);
        case LimitRequest(p, max) => st := SetMaxAddrs(p, max);
        case EnableRequest(p, enable, act, interval) => st := Enable(p, enable, act, interval);
        case StackRequest(m, ds) => SetStack(m, ds); st := OK;
      }
      lost := lost || LosesOwner(s, hash, portMap, r);
    }

    /** Takes over the stack's master and its bitmap of units. */
    method SetStack(m: int, ds: set<int>)
      requires Valid()
      modifies this`master, this`devs
      ensures Valid() && (old(Exact()) ==> Exact())
      ensures master == m && devs == ds
    {
      master, devs := m, ds;
    }

    /** Over any run of requests the table stays a map and learning flags stay right, and counters that
        were exact stay exact unless some request loses an owner. */
    method Run(rs: seq<Request>)
      requires Valid() && forall r | r in rs :: Proper(r)
      modifies this, slots, ports
      ensures Valid()
      ensures old(lost) ==> lost
      ensures old(Exact()) && !lost ==> Exact()
      ensures !old(lost) && (forall r | r in rs :: !Unlucky(r)) ==> !lost
    {
      hide Chosen, OwnerLost, TableInv, LearningRight, Conserved;
      for i := 0 to |rs|
        invariant Valid()
        invariant old(lost) ==> lost
        invariant old(Exact()) && !lost ==> Exact()
        invariant !old(lost) && (forall r | r in rs[..i] :: !Unlucky(r)) ==> !lost
      {
        assert rs[..i + 1] == rs[..i] + [rs[i]];
        var _ := Handle(rs[i]);
      }
      assert rs[..|rs|] == rs;
    }
  }

  /** The unassigned status, read as a refusal: an address moves from a port to a trunk, the port is
      counted down, and the entry stays. */
  method LostOwnerFails() returns (t: FdbTable)
    ensures t.Valid() && !t.Exact()
  {
    hide TableInv, Chosen, LearningRight, Conserved, Contents, Probed, PsecPorts;
    var port := Port(false, false, Locked, 1, 0, true);
    t := new FdbTable(4, _ => 0, [port], (d, p) => if d == 0 && p == 0 then Some(0) else None, (k: Key) => k.vid, 1, 10, (0, 2), 0);
    var k := MacKey(1, 1);
    var here := MacEntry(k, Iface(PortIface, 0, 0, 0, 0), FEP_STATIC, true);
    var there := MacEntry(k, Iface(TrunkIface, 0, 0, 1, 0), FEP_STATIC, true);
    ghost var s := t.slots[..];
    var st, c := t.Insert(here, false, false, 0, true);
    RoomInEmpty(s, t.hash, here, 0, c);
    s := t.slots[..];
    assert k in Contents(s) && Contents(s)[k] == here;
    st, c := t.Insert(there, false, false, 0, false);
    KnownKey(s, t.hash, there, c);
  }
}
