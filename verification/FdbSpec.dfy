/** The stack-wide MAC table and the port-security state it drives, on values: what the table
    means as a map, what an entry counts for, and how each step changes both. */
module FdbSpec {
  import opened Common

  // ---------------------------------------------------------------------------
  // The table
  // ---------------------------------------------------------------------------

  /** The fields of a table key that key comparison looks at. */
  datatype Key =
    | MacKey(vid: int, mac: int)
    | McastKey(v6: bool, vid: int, sip: int, dip: int)

  /** What a slot that was never written holds. */
  const ZERO_KEY := MacKey(0, 0)

  datatype IfaceType = PortIface | TrunkIface | VidxIface | VidIface

  /** A destination; every field is present whatever the type. */
  datatype Iface = Iface(ty: IfaceType, dev: int, port: int, trunk: int, other: int)

  // Priorities
  const FEP_UNUSED := 0
  const FEP_FOREIGN := 1
  const FEP_DYN := 2
  const FEP_STATIC := 3
  const FEP_OWN := 4

  datatype MacEntry = MacEntry(key: Key, dst: Iface, prio: int, isStatic: bool)

  datatype Slot = Slot(valid: bool, secure: bool, aging: set<int>, ts: int, flaps: nat, me: MacEntry)

  type Slots = seq<Slot>
  type Hash = Key -> nat

  const WINDOW := 4

  ghost predicate InWindow(h: Hash, k: Key, i: int) {
    h(k) <= i < h(k) + WINDOW
  }

  ghost predicate HashFits(h: Hash, n: nat) {
    forall k :: h(k) + WINDOW <= n
  }

  /** A nonzero key's content, valid or stale, sits in at most one slot, in its window.  The zero
      key fills every unused slot; a valid entry for it is the first such slot of its window. */
  ghost predicate TableInv(s: Slots, h: Hash) {
    && HashFits(h, |s|)
    && (forall i | 0 <= i < |s| :: Placed(s, h, i))
    && (forall i, j | 0 <= i < j < |s| && s[i].me.key == s[j].me.key :: s[i].me.key == ZERO_KEY)
    && (forall i | 0 <= i < |s| && s[i].valid :: s[i].me.prio > FEP_UNUSED)
  }

  ghost predicate Placed(s: Slots, h: Hash, i: int)
    requires 0 <= i < |s|
  {
    if s[i].me.key != ZERO_KEY then InWindow(h, s[i].me.key, i)
    else s[i].valid ==>
           && InWindow(h, ZERO_KEY, i)
           && forall j | h(ZERO_KEY) <= j < i :: 0 <= j < |s| ==> s[j].me.key != ZERO_KEY
  }

  /** Position `i` is the valid entry of key `k`. */
  predicate Entry(s: Slots, k: Key, i: int) {
    0 <= i < |s| && s[i].valid && s[i].me.key == k
  }

  lemma {:induction false} EntryUnique(s: Slots, h: Hash, k: Key, i: int, j: int)
    requires TableInv(s, h) && Entry(s, k, i) && Entry(s, k, j)
    ensures i == j
    ensures InWindow(h, k, i)
  {
    assert Placed(s, h, i) && Placed(s, h, j);
  }

  /** The keys with a valid entry. */
  ghost function Keys(s: Slots): set<Key> {
    set i | 0 <= i < |s| && s[i].valid :: s[i].me.key
  }

  ghost function Position(s: Slots, k: Key): (i: int)
    requires k in Keys(s)
    ensures Entry(s, k, i)
  {
    var i :| 0 <= i < |s| && s[i].valid && s[i].me.key == k;
    i
  }

  /** The map that the table stands for. */
  ghost function Contents(s: Slots): map<Key, MacEntry> {
    map k | k in Keys(s) :: s[Position(s, k)].me
  }

  lemma {:induction false} ContentsAt(s: Slots, h: Hash, k: Key, i: int)
    requires TableInv(s, h) && Entry(s, k, i)
    ensures k in Contents(s) && Contents(s)[k] == s[i].me
  {
    assert k in Keys(s);
    EntryUnique(s, h, k, i, Position(s, k));
  }

  lemma {:induction false} ContentsHas(s: Slots, k: Key)
    ensures k in Contents(s) <==> exists i :: Entry(s, k, i)
  {
    if i :| Entry(s, k, i) {
      assert k in Keys(s);
    }
    if k in Contents(s) {
      assert Entry(s, k, Position(s, k));
    }
  }

  // ---------------------------------------------------------------------------
  // Choosing a slot
  // ---------------------------------------------------------------------------

  /** Where an insert of `e` may go. */
  datatype Choice =
    | SameKey(idx: int)      // the slot that holds the key, valid or stale
    | FreeSlot(idx: int)     // the first invalid slot of the window
    | Evict(idx: int)        // the first slot of the least priority, below the new one's
    | NoRoom

  /** What the documentation of the table promises about the slot for a new entry. */
  ghost predicate Chosen(s: Slots, h: Hash, e: MacEntry, c: Choice) {
    var lo := h(e.key);
    lo + WINDOW <= |s| &&
    match c
    case SameKey(i) =>
      && lo <= i < lo + WINDOW && s[i].me.key == e.key
      && forall j | lo <= j < i :: s[j].me.key != e.key
    case FreeSlot(i) =>
      && lo <= i < lo + WINDOW && !s[i].valid
      && (forall j | lo <= j < lo + WINDOW :: s[j].me.key != e.key)
      && (forall j | lo <= j < i :: s[j].valid)
    case Evict(i) =>
      && lo <= i < lo + WINDOW && s[i].me.prio < e.prio
      && (forall j | lo <= j < lo + WINDOW :: s[j].valid && s[j].me.key != e.key)
      && (forall j | lo <= j < lo + WINDOW :: s[i].me.prio <= s[j].me.prio)
      && (forall j | lo <= j < i :: s[i].me.prio < s[j].me.prio)
    case NoRoom =>
      && forall j | lo <= j < lo + WINDOW :: s[j].valid && s[j].me.key != e.key && s[j].me.prio >= e.prio
  }

  /** There is exactly one right choice. */
  lemma {:induction false} ChosenUnique(s: Slots, h: Hash, e: MacEntry, c: Choice, d: Choice)
    requires Chosen(s, h, e, c) && Chosen(s, h, e, d)
    ensures c == d
  {
    var lo := h(e.key);
    assert c.NoRoom? || lo <= c.idx < lo + WINDOW;
    assert d.NoRoom? || lo <= d.idx < lo + WINDOW;
  }

  // ---------------------------------------------------------------------------
  // Table steps
  // ---------------------------------------------------------------------------

  /** The same entries, valid or stale, in the same slots. */
  ghost predicate SameEntries(s: Slots, s': Slots) {
    |s'| == |s| && forall i | 0 <= i < |s| :: s'[i].valid == s[i].valid && s'[i].me == s[i].me
  }

  /** Flap counters, times and aging bitmaps mean nothing to the map. */
  lemma {:induction false} SameEntriesKeep(s: Slots, s': Slots, h: Hash)
    requires TableInv(s, h) && SameEntries(s, s')
    ensures TableInv(s', h) && Contents(s') == Contents(s)
  {
    forall i | 0 <= i < |s|
      ensures Placed(s', h, i)
    {
      assert Placed(s, h, i);
    }
    assert TableInv(s', h);
    assert Keys(s') == Keys(s);
    forall k | k in Keys(s)
      ensures Contents(s')[k] == Contents(s)[k]
    {
      var i := Position(s, k);
      assert Entry(s', k, i);
      ContentsAt(s', h, k, i);
      ContentsAt(s, h, k, i);
    }
  }

  lemma {:induction false} StorePlaced(s: Slots, h: Hash, e: MacEntry, c: Choice, v: Slot, j: int)
    requires TableInv(s, h) && Chosen(s, h, e, c) && !c.NoRoom?
    requires v.me == e && v.valid && 0 <= j < |s|
    ensures Placed(s[c.idx := v], h, j)
  {
    assert Placed(s, h, j);
    assert j == c.idx ==> InWindow(h, e.key, j);
    assert e.key == s[c.idx].me.key ==> c.SameKey?;
  }

  /** Storing an entry in its chosen slot keeps every key's content in one slot of its window. */
  lemma {:induction false} StoreKeeps(s: Slots, h: Hash, e: MacEntry, c: Choice, v: Slot)
    requires TableInv(s, h) && Chosen(s, h, e, c) && !c.NoRoom?
    requires v.me == e && v.valid && e.prio > FEP_UNUSED
    ensures TableInv(s[c.idx := v], h)
  {
    var i, s' := c.idx, s[c.idx := v];
    forall j | 0 <= j < |s'|
      ensures Placed(s', h, j)
    {
      StorePlaced(s, h, e, c, v, j);
    }
    forall j | 0 <= j < |s| && j != i && s[j].me.key == e.key
      ensures e.key == ZERO_KEY
    {
      assert Placed(s, h, j);
    }
  }

  /** The key that a store into slot `i` takes out of the map, if any. */
  ghost function Victim(s: Slots, i: int): set<Key>
    requires 0 <= i < |s|
  {
    if s[i].valid then {s[i].me.key} else {}
  }

  /** An accepted insert is a map update minus at most one evicted entry. */
  lemma {:induction false} StoreContents(s: Slots, h: Hash, e: MacEntry, c: Choice, v: Slot)
    requires TableInv(s, h) && Chosen(s, h, e, c) && !c.NoRoom?
    requires v.me == e && v.valid && e.prio > FEP_UNUSED
    ensures Contents(s[c.idx := v]) == (Contents(s) - Victim(s, c.idx))[e.key := e]
  {
    var i, s' := c.idx, s[c.idx := v];
    StoreKeeps(s, h, e, c, v);
    assert Entry(s', e.key, i);
    ContentsAt(s', h, e.key, i);
    forall k | k != e.key
      ensures k in Contents(s') <==> k in Contents(s) && k !in Victim(s, i)
      ensures k in Contents(s') ==> Contents(s')[k] == Contents(s)[k]
    {
      StoreOther(s, s', h, k, i);
    }
  }

  /** What slot `i` does not concern stays in the map. */
  lemma {:induction false} StoreOther(s: Slots, s': Slots, h: Hash, k: Key, i: int)
    requires TableInv(s, h) && TableInv(s', h) && 0 <= i < |s| == |s'|
    requires forall j | 0 <= j < |s| && j != i :: s'[j] == s[j]
    requires !Entry(s', k, i)
    ensures k in Contents(s') <==> k in Contents(s) && k !in Victim(s, i)
    ensures k in Contents(s') ==> Contents(s')[k] == Contents(s)[k]
  {
    ContentsHas(s, k);
    ContentsHas(s', k);
    if j :| Entry(s', k, j) {
      assert Entry(s, k, j);
      if Entry(s, k, i) { EntryUnique(s, h, k, i, j); }
      ContentsAt(s, h, k, j);
      ContentsAt(s', h, k, j);
    }
    if j :| Entry(s, k, j) {
      if j != i { assert Entry(s', k, j); }
      ContentsAt(s, h, k, j);
    }
  }

  /** Invalidating a slot keeps its stale content, so the table stays well formed. */
  lemma {:induction false} ClearKeeps(s: Slots, h: Hash, i: int, v: Slot)
    requires TableInv(s, h) && 0 <= i < |s|
    requires v.me == s[i].me && !v.valid
    ensures TableInv(s[i := v], h)
  {
    var s' := s[i := v];
    forall j | 0 <= j < |s'|
      ensures Placed(s', h, j)
    {
      assert Placed(s, h, j);
    }
  }

  /** Invalidating an entry takes exactly its key out of the map. */
  lemma {:induction false} ClearContents(s: Slots, h: Hash, i: int, v: Slot)
    requires TableInv(s, h) && 0 <= i < |s| && s[i].valid
    requires v.me == s[i].me && !v.valid
    ensures Contents(s[i := v]) == Contents(s) - {s[i].me.key}
  {
    var s' := s[i := v];
    ClearKeeps(s, h, i, v);
    forall k | k in Contents(s) || k in Contents(s')
      ensures k in Contents(s') <==> k in Contents(s) && k != s[i].me.key
      ensures k in Contents(s') ==> Contents(s')[k] == Contents(s)[k]
    {
      StoreOther(s, s', h, k, i);
    }
  }

  /** Only the window has to be searched. */
  lemma {:induction false} WindowSearch(s: Slots, h: Hash, k: Key)
    requires TableInv(s, h)
    ensures k in Contents(s) <==>
            exists i :: h(k) <= i < h(k) + WINDOW && Entry(s, k, i)
  {
    ContentsHas(s, k);
    if i :| Entry(s, k, i) {
      EntryUnique(s, h, k, i, i);
    }
  }

  // ---------------------------------------------------------------------------
  // Port security
  // ---------------------------------------------------------------------------

  datatype PsecMode = MaxAddrs | Locked

  /** The port-security part of a port; `learn` is its hardware flag that sends new addresses
      to the CPU. */
  datatype Port = Port(stack: bool, enabled: bool, mode: PsecMode, max: int, naddrs: int, learn: bool)

  type Ports = seq<Port>

  /** The local port behind a device and port number, if there is one. */
  type PortMap = (int, int) -> Option<nat>

  ghost predicate PortMapFits(pm: PortMap, n: nat) {
    forall d, p :: pm(d, p).Some? ==> pm(d, p).value < n
  }

  /** The local port whose address an entry is. */
  function Owner(pm: PortMap, me: MacEntry): Option<nat> {
    if me.key.MacKey? && me.dst.ty.PortIface? then pm(me.dst.dev, me.dst.port) else None
  }

  /** The local port a slot counts for. */
  function SlotOwner(pm: PortMap, v: Slot): Option<nat> {
    if v.valid then Owner(pm, v.me) else None
  }

  /** How many valid entries have port `p` as their destination. */
  function Count(s: Slots, pm: PortMap, p: nat): nat {
    if s == [] then 0 else Count(s[..|s| - 1], pm, p) + One(SlotOwner(pm, s[|s| - 1]) == Some(p))
  }

  lemma {:induction false} CountUpdate(s: Slots, pm: PortMap, p: nat, i: nat, v: Slot)
    requires i < |s|
    ensures Count(s[i := v], pm, p) ==
            Count(s, pm, p) - One(SlotOwner(pm, s[i]) == Some(p)) + One(SlotOwner(pm, v) == Some(p))
  {
    var n := |s| - 1;
    if i == n {
      assert s[i := v][..n] == s[..n];
    } else {
      CountUpdate(s[..n], pm, p, i, v);
      assert s[i := v][..n] == s[..n][i := v];
    }
  }

  lemma {:induction false} CountPositive(s: Slots, pm: PortMap, p: nat, i: nat)
    requires i < |s| && SlotOwner(pm, s[i]) == Some(p)
    ensures Count(s, pm, p) > 0
  {
    if i < |s| - 1 { CountPositive(s[..|s| - 1], pm, p, i); }
  }

  lemma {:induction false} CountSame(s: Slots, s': Slots, pm: PortMap, p: nat)
    requires |s| == |s'| && forall i | 0 <= i < |s| :: SlotOwner(pm, s'[i]) == SlotOwner(pm, s[i])
    ensures Count(s', pm, p) == Count(s, pm, p)
  {
    if s != [] {
      var n := |s| - 1;
      forall i | 0 <= i < n
        ensures SlotOwner(pm, s'[..n][i]) == SlotOwner(pm, s[..n][i])
      {
        assert SlotOwner(pm, s'[i]) == SlotOwner(pm, s[i]);
      }
      CountSame(s[..n], s'[..n], pm, p);
    }
  }

  /** The slots that count for a port: valid entries of addresses behind it. */
  ghost function Counted(s: Slots, pm: PortMap, p: nat): set<int> {
    set i | 0 <= i < |s| && s[i].valid && s[i].me.key.MacKey? && s[i].me.dst.ty.PortIface?
            && pm(s[i].me.dst.dev, s[i].me.dst.port) == Some(p)
  }

  lemma {:induction false} CountIs(s: Slots, pm: PortMap, p: nat)
    ensures Count(s, pm, p) == |Counted(s, pm, p)|
  {
    if s == [] {
      assert Counted(s, pm, p) == {};
    } else {
      var n := |s| - 1;
      CountIs(s[..n], pm, p);
      var rest := Counted(s[..n], pm, p);
      assert Counted(s, pm, p) == if SlotOwner(pm, s[n]) == Some(p) then rest + {n} else rest;
    }
  }

  lemma {:induction false} CountNone(s: Slots, pm: PortMap, p: nat)
    requires forall i | 0 <= i < |s| :: !s[i].valid
    ensures Count(s, pm, p) == 0
  {
    if s != [] { CountNone(s[..|s| - 1], pm, p); }
  }

  /** Every port's counter equals the number of its entries. */
  ghost predicate Conserved(s: Slots, pm: PortMap, ports: Ports) {
    forall p | 0 <= p < |ports| :: ports[p].naddrs == Count(s, pm, p)
  }

  /** New addresses go to the CPU exactly when the port may still learn one. */
  predicate MayLearn(p: Port) {
    !p.enabled || (p.mode == MaxAddrs && p.naddrs < p.max)
  }

  /** The learning flag of every port that is not a stack port is right; counters are not
      negative and limits allow at least one address. */
  ghost predicate LearningRight(ports: Ports) {
    forall p | 0 <= p < |ports| ::
      && ports[p].naddrs >= 0 && ports[p].max >= 1
      && (!ports[p].stack ==> (ports[p].learn <==> MayLearn(ports[p])))
  }

  // --- what an insert and a delete do to the ports ---------------------------

  /** One address less on a port. */
  function Leave(p: Port): Port {
    var q := p.(naddrs := p.naddrs - 1);
    var r := if p.naddrs == p.max && q.enabled && q.mode == MaxAddrs then q.(learn := true) else q;
    if r.naddrs < 0 then r.(naddrs := 0) else r
  }

  /** One address more on a port. */
  function Enter(p: Port): Port {
    var q := p.(naddrs := p.naddrs + 1);
    if q.enabled && q.naddrs == q.max then q.(learn := false) else q
  }

  /** A port with security on that is full takes no address. */
  predicate Refuses(p: Port) {
    p.enabled && p.naddrs >= p.max
  }

  /** The ports after the owner of an entry has lost it. */
  function PortsLeave(ports: Ports, o: Option<nat>): (r: Ports)
    requires o.Some? ==> o.value < |ports|
    ensures |r| == |ports|
  {
    if o.None? then ports else ports[o.value := Leave(ports[o.value])]
  }

  function PortsEnter(ports: Ports, o: Option<nat>): (r: Ports)
    requires o.Some? ==> o.value < |ports|
    ensures |r| == |ports|
  {
    if o.None? then ports else ports[o.value := Enter(ports[o.value])]
  }

  ghost predicate OwnerIn(o: Option<nat>, n: nat) {
    o.Some? ==> o.value < n
  }

  /** An entry going away keeps the counters exact, and the clamp at zero is never needed. */
  lemma {:induction false} LeaveConserves(s: Slots, pm: PortMap, ports: Ports, i: nat, v: Slot)
    requires Conserved(s, pm, ports) && PortMapFits(pm, |ports|)
    requires i < |s| && !v.valid
    ensures var o := SlotOwner(pm, s[i]);
            && OwnerIn(o, |ports|) && Conserved(s[i := v], pm, PortsLeave(ports, o))
            && (o.Some? ==> ports[o.value].naddrs > 0)
  {
    var o := SlotOwner(pm, s[i]);
    var ports' := PortsLeave(ports, o);
    if o.Some? { CountPositive(s, pm, o.value, i); }
    forall p | 0 <= p < |ports|
      ensures ports'[p].naddrs == Count(s[i := v], pm, p)
    {
      CountUpdate(s, pm, p, i, v);
    }
  }

  /** An entry replacing what a slot held keeps the counters exact. */
  lemma {:induction false} ReplaceConserves(s: Slots, pm: PortMap, ports: Ports, i: nat, v: Slot)
    requires Conserved(s, pm, ports) && PortMapFits(pm, |ports|)
    requires i < |s| && v.valid
    ensures var o, n := SlotOwner(pm, s[i]), Owner(pm, v.me);
            && OwnerIn(o, |ports|) && OwnerIn(n, |ports|)
            && Conserved(s[i := v], pm, if o == n then ports else PortsLeave(PortsEnter(ports, n), o))
  {
    var o, n := SlotOwner(pm, s[i]), Owner(pm, v.me);
    var ports' := if o == n then ports else PortsLeave(PortsEnter(ports, n), o);
    if o.Some? { CountPositive(s, pm, o.value, i); }
    forall p | 0 <= p < |ports|
      ensures ports'[p].naddrs == Count(s[i := v], pm, p)
    {
      CountUpdate(s, pm, p, i, v);
    }
  }

  /** The learning flag follows the counter. */
  lemma {:induction false} LeaveLearning(ports: Ports, o: Option<nat>)
    requires LearningRight(ports) && OwnerIn(o, |ports|)
    ensures LearningRight(PortsLeave(ports, o))
  {
  }

  lemma {:induction false} EnterLearning(ports: Ports, n: Option<nat>)
    requires LearningRight(ports) && OwnerIn(n, |ports|)
    requires n.Some? ==> !Refuses(ports[n.value])
    ensures LearningRight(PortsEnter(ports, n))
  {
  }
}
