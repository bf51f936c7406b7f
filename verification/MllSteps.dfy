/** Whole steps of the multicast linked list on values: pool, chains and both tables together. */
module MllSteps {
  import opened MllChain
  import opened MllSurgery
  import opened MllPool

  /** Pool and chain contents; what every operation keeps whatever its inputs. */
  ghost predicate Soft(sp: int, st: seq<int>, chains: Chains, pt: Pairs, hw: HwPairs) {
    && 0 <= sp < |st| == |pt| == |hw|
    && Partition(sp, st, chains, {})
    && Headed(chains)
    && AllStored(pt, chains)
  }

  ghost predicate Sound(sp: int, st: seq<int>, chains: Chains, pt: Pairs, hw: HwPairs) {
    Soft(sp, st, chains, pt, hw) && AllBackward(pt, chains) && AllMirrored(pt, hw, chains)
  }

  /** The chains after the one of `h` has become `d`. */
  ghost function Replace(chains: Chains, h: int, d: Chain): Chains
    requires d.pairs != []
  {
    (chains - {h})[d.pairs[0] := d]
  }

  /** Pool and contents are right, and only chain `d` decides about links and hardware. */
  ghost predicate Outcome(sp: int, st: seq<int>, chains: Chains, pt: Pairs, hw: HwPairs, d: Chain) {
    && Soft(sp, st, chains, pt, hw) && Stored(pt, d)
    && (AllBackward(pt, chains) <==> Backward(pt, d.pairs))
    && (AllMirrored(pt, hw, chains) <==> Mirrors(hw, d))
  }

  lemma {:induction false} Others(sp: int, st: seq<int>, chains: Chains, pt: Pairs, hw: HwPairs, h: int)
    requires Sound(sp, st, chains, pt, hw) && h in chains
    ensures var others := chains - {h};
            && Partition(sp, st, others, Elements(chains[h].pairs)) && Headed(others)
            && InUse(others) * Elements(chains[h].pairs) == {}
            && AllStored(pt, others) && AllBackward(pt, others) && AllMirrored(pt, hw, others)
    ensures ChainOk(pt, hw, chains[h])
  {
    Detach(sp, st, chains, h);
    forall g | g in chains - {h}
      ensures (chains - {h})[g] == chains[g]
    {
    }
  }

  /** `d` takes the place of the chain of `h`, once the pool has been brought in line. */
  lemma {:induction false} Readopt(sp: int, st: seq<int>, sp': int, st': seq<int>, chains: Chains, pt: Pairs, pt': Pairs,
                hw: HwPairs, hw': HwPairs, h: int, touched: set<int>, d: Chain)
    requires Sound(sp, st, chains, pt, hw) && h in chains
    requires 0 <= sp' < |st'| == |st|
    requires Partition(sp', st', chains - {h}, Elements(d.pairs)) && Stored(pt', d)
    requires InUse(chains - {h}) * touched == {}
    requires SameBut(pt, pt', touched) && SameBut(hw, hw', touched)
    ensures Outcome(sp', st', Replace(chains, h, d), pt', hw', d)
  {
    Others(sp, st, chains, pt, hw, h);
    Adopt(sp', st', chains - {h}, pt, pt', hw, hw', touched, d);
  }

  /** The chain of `h` has been rebuilt from the same pairs. */
  lemma {:induction false} Rebuilt(sp: int, st: seq<int>, chains: Chains, pt: Pairs, pt': Pairs, hw: HwPairs, hw': HwPairs,
                h: int, d: Chain)
    requires Sound(sp, st, chains, pt, hw) && h in chains
    requires Elements(d.pairs) == Elements(chains[h].pairs) && Stored(pt', d)
    requires SameBut(pt, pt', Elements(chains[h].pairs)) && SameBut(hw, hw', Elements(chains[h].pairs))
    ensures Outcome(sp, st, Replace(chains, h, d), pt', hw', d)
  {
    Others(sp, st, chains, pt, hw, h);
    Readopt(sp, st, sp, st, chains, pt, pt', hw, hw', h, Elements(chains[h].pairs), d);
  }

  /** The chain of `h` has been rebuilt without pair `x`, which went back to the stack. */
  lemma {:induction false} Shortened(sp: int, st: seq<int>, chains: Chains, pt: Pairs, pt': Pairs, hw: HwPairs, hw': HwPairs,
                  h: int, d: Chain, x: int, st': seq<int>)
    requires 0 < sp <= |st| ==> st' == st[sp - 1 := x]
    requires Sound(sp, st, chains, pt, hw) && h in chains
    requires x in chains[h].pairs
    requires Elements(d.pairs) == Elements(chains[h].pairs) - {x} && Stored(pt', d)
    requires SameBut(pt, pt', Elements(chains[h].pairs)) && SameBut(hw, hw', Elements(chains[h].pairs))
    ensures sp > 0
    ensures Outcome(sp - 1, st', Replace(chains, h, d), pt', hw', d)
  {
    hide Partition, AllStored, AllBackward, AllMirrored, Stored, SameBut, Elements, InUse, Headed;
    ReturnOne(sp, st, chains, h, x, Elements(d.pairs), st');
    Readopt(sp, st, sp - 1, st', chains, pt, pt', hw, hw', h, Elements(chains[h].pairs), d);
  }

  lemma {:induction false} ReturnOne(sp: nat, st: seq<int>, chains: Chains, h: int, x: int, rest: set<int>, st': seq<int>)
    requires 0 < sp <= |st| ==> st' == st[sp - 1 := x]
    requires Partition(sp, st, chains, {}) && h in chains && x in chains[h].pairs
    requires rest == Elements(chains[h].pairs) - {x}
    ensures InUse(chains - {h}) * Elements(chains[h].pairs) == {}
    ensures sp > 0 && |st'| == |st| && Partition(sp - 1, st', chains - {h}, rest)
  {
    Detach(sp, st, chains, h);
    Return(sp, st, chains - {h}, Elements(chains[h].pairs), x);
  }

  lemma {:induction false} TakeOne(sp: nat, st: seq<int>, others: Chains, loose: set<int>)
    requires Partition(sp, st, others, {}) && sp < |st| && loose == {st[sp]}
    ensures Partition(sp + 1, st, others, loose) && InUse(others) * loose == {}
  {
    Take(sp, st, others, {});
    assert {} + {st[sp]} == loose;
  }

  /** The chain of `h` has lost its only pair. */
  lemma {:induction false} Vanished(sp: int, st: seq<int>, chains: Chains, pt: Pairs, pt': Pairs, hw: HwPairs, h: int)
    requires Sound(sp, st, chains, pt, hw) && h in chains
    requires chains[h].pairs == [h]
    requires SameBut(pt, pt', {h})
    ensures sp > 0
    ensures Sound(sp - 1, st[sp - 1 := h], chains - {h}, pt', hw)
  {
    var c := Elements(chains[h].pairs);
    assert c == {h};
    Others(sp, st, chains, pt, hw, h);
    Return(sp, st, chains - {h}, c, h);
    assert c - {h} == {};
    AllFrame(pt, pt', hw, hw, chains - {h}, c);
  }

  /** The chain of `h` has been rebuilt with a pair from the stack added. */
  lemma {:induction false} Lengthened(sp: int, st: seq<int>, chains: Chains, pt: Pairs, pt': Pairs, hw: HwPairs, hw': HwPairs,
                   h: int, d: Chain)
    requires Sound(sp, st, chains, pt, hw) && h in chains && sp + 1 < |st|
    requires Elements(d.pairs) == Elements(chains[h].pairs) + {st[sp]} && Stored(pt', d)
    requires SameBut(pt, pt', Elements(d.pairs)) && SameBut(hw, hw', Elements(d.pairs))
    ensures Outcome(sp + 1, st, Replace(chains, h, d), pt', hw', d)
  {
    Others(sp, st, chains, pt, hw, h);
    Take(sp, st, chains - {h}, Elements(chains[h].pairs));
    DisjointUnion(InUse(chains - {h}), Elements(chains[h].pairs), st[sp]);
    Readopt(sp, st, sp + 1, st, chains, pt, pt', hw, hw', h, Elements(d.pairs), d);
  }

  lemma {:induction false} DisjointUnion(a: set<int>, b: set<int>, x: int)
    requires a * b == {} && x !in a
    ensures a * (b + {x}) == {}
  {
  }

  /** A pair from the stack has become a chain of its own. */
  lemma {:induction false} Started(sp: int, st: seq<int>, chains: Chains, pt: Pairs, pt': Pairs, hw: HwPairs, hw': HwPairs, d: Chain)
    requires Sound(sp, st, chains, pt, hw) && sp + 1 < |st|
    requires d.pairs == [st[sp]] && ChainOk(pt', hw', d)
    requires Elements(d.pairs) == {st[sp]}
    requires SameBut(pt, pt', Elements(d.pairs)) && SameBut(hw, hw', Elements(d.pairs))
    ensures st[sp] !in chains
    ensures Sound(sp + 1, st, chains[st[sp] := d], pt', hw')
  {
    TakeOne(sp, st, chains, Elements(d.pairs));
    Adopt(sp + 1, st, chains, pt, pt', hw, hw', Elements(d.pairs), d);
  }

  // ---------------------------------------------------------------------------
  // Appending
  // ---------------------------------------------------------------------------

  /** The chain with a node appended; `x` is the pair taken if the tail is full. */
  function Appended(ch: Chain, n: Node, x: int): Chain
    requires ch.cells != []
  {
    Chain(if ch.cells[|ch.cells| - 1].Single() then ch.pairs else ch.pairs + [x], Extended(ch.cells, n))
  }

  /** The cells with one node more. */
  function Extended(cells: seq<Cell>, n: Node): seq<Cell>
    requires cells != []
  {
    var t := |cells| - 1;
    if cells[t].Single() then cells[..t] + [Cell(cells[t].first, n)] else cells + [Cell(n, NO_NODE)]
  }

  /** Appending appends. */
  lemma {:induction false} AppendedNodes(ch: Chain, n: Node, x: int)
    requires Packed(ch.cells) && n.vid != 0
    ensures Appended(ch, n, x).Nodes() == ch.Nodes() + [n]
    ensures Packed(Appended(ch, n, x).cells)
  {
    var t := |ch.cells| - 1;
    var last := ch.cells[t];
    if last.Single() {
      assert ch.cells == ch.cells[..t] + [last];
      FlattenAppend(ch.cells[..t], [last]);
      FlattenAppend(ch.cells[..t], [Cell(last.first, n)]);
      FlattenOne(last);
      FlattenOne(Cell(last.first, n));
    } else {
      FlattenAppend(ch.cells, [Cell(n, NO_NODE)]);
      FlattenOne(Cell(n, NO_NODE));
    }
  }

  lemma {:induction false} SameButOne<T>(a: seq<T>, x: int, e: T, touched: set<int>)
    requires 0 <= x < |a| && x in touched
    ensures SameBut(a, a[x := e], touched)
  {
  }

  lemma {:induction false} SameButTrans<T>(a: seq<T>, b: seq<T>, c: seq<T>, touched: set<int>)
    requires SameBut(a, b, touched) && SameBut(b, c, touched)
    ensures SameBut(a, c, touched)
  {
  }

  lemma {:induction false} SameButTwo<T>(a: seq<T>, x: int, e: T, y: int, f: T, touched: set<int>)
    requires 0 <= x < |a| && x in touched && 0 <= y < |a| && y in touched
    ensures SameBut(a, a[x := e][y := f], touched)
  {
  }

  lemma {:induction false} ElementsAppend(c: seq<int>, x: int)
    ensures Elements(c + [x]) == Elements(c) + {x}
  {
  }

  lemma {:induction false} TailIsMember(size: nat, c: seq<int>)
    requires Members(size, c)
    ensures 0 <= c[|c| - 1] < size && c[|c| - 1] in Elements(c)
  {
  }

  lemma {:induction false} AppendedFull(sp: int, st: seq<int>, chains: Chains, pt: Pairs, pt': Pairs,
                                        hw: HwPairs, hw': HwPairs, h: int, n: Node)
    requires Sound(sp, st, chains, pt, hw) && h in chains && n.vid != 0
    requires chains[h].cells[|chains[h].cells| - 1].Single()
    requires var ch := chains[h]; var k := |ch.pairs| - 1; var t := ch.pairs[k];
             && pt' == pt[t := pt[t].(cell := Cell(ch.cells[k].first, n))]
             && hw' == hw[t := HwPair(hw[t].first.(last := false), HwNode(n, true), hw[t].next)]
    ensures Sound(sp, st, Replace(chains, h, Appended(chains[h], n, st[sp])), pt', hw')
  {
    var ch, d := chains[h], Appended(chains[h], n, st[sp]);
    var t := ch.pairs[|ch.pairs| - 1];
    Others(sp, st, chains, pt, hw, h);
    hide Partition, AllStored, AllBackward, AllMirrored, SameBut, Elements, InUse, Headed, Members, Forward, Backward, Mirrors;
    FillTail(pt, hw, ch, n);
    TailIsMember(|pt|, ch.pairs);
    SameButOne(pt, t, pt'[t], Elements(ch.pairs));
    SameButOne(hw, t, hw'[t], Elements(ch.pairs));
    Rebuilt(sp, st, chains, pt, pt', hw, hw', h, d);
  }

  lemma {:induction false} AppendedStart(sp: int, st: seq<int>, chains: Chains, pt: Pairs, hw: HwPairs, h: int)
    requires Sound(sp, st, chains, pt, hw) && h in chains
    ensures 0 <= st[sp] < |st| && st[sp] !in chains[h].pairs
  {
    Take(sp, st, chains, {});
    InUseHas(chains, h);
  }

  /** Both tables after a new pair has been linked behind the tail. */
  ghost predicate GrownTables(pt: Pairs, pt': Pairs, hw: HwPairs, hw': HwPairs, c: seq<int>, x: int, n: Node)
    requires |hw| == |pt| && Members(|pt|, c) && 0 <= x < |pt|
  {
    var t, e := c[|c| - 1], HwNode(n, true);
    && pt' == pt[x := Pair(t, -1, Cell(n, NO_NODE))][t := pt[t].(succ := x)]
    && hw' == hw[x := HwPair(e, e, 0)][t := hw[t].(second := hw[t].second.(last := false), next := x)]
  }

  lemma {:induction false} AppendedPair(sp: int, st: seq<int>, chains: Chains, pt: Pairs, pt': Pairs,
                                        hw: HwPairs, hw': HwPairs, h: int, n: Node)
    requires Sound(sp, st, chains, pt, hw) && h in chains && n.vid != 0 && sp + 1 < |st|
    requires 0 <= st[sp] < |st| && st[sp] !in chains[h].pairs
    requires !chains[h].cells[|chains[h].cells| - 1].Single()
    requires GrownTables(pt, pt', hw, hw', chains[h].pairs, st[sp], n)
    ensures Sound(sp + 1, st, Replace(chains, h, Appended(chains[h], n, st[sp])), pt', hw')
  {
    var ch, d, x := chains[h], Appended(chains[h], n, st[sp]), st[sp];
    var t := ch.pairs[|ch.pairs| - 1];
    ElementsAppend(ch.pairs, x);
    Others(sp, st, chains, pt, hw, h);
    TailIsMember(|pt|, ch.pairs);
    hide Partition, Stored, AllStored, AllBackward, AllMirrored, SameBut, Elements, InUse, Headed, Members, Forward, Backward, Mirrors;
    GrowTail(pt, hw, ch, n, x);
    SameButTwo(pt, x, Pair(t, -1, Cell(n, NO_NODE)), t, pt'[t], Elements(d.pairs));
    SameButTwo(hw, x, HwPair(HwNode(n, true), HwNode(n, true), 0), t, hw'[t], Elements(d.pairs));
    Lengthened(sp, st, chains, pt, pt', hw, hw', h, d);
  }

  /** With the pool exhausted, the code as written links its tail to pair -1: the software chain
      stays as it was, and the hardware chain has lost its end. */
  lemma {:induction false} AppendedLost(sp: int, st: seq<int>, chains: Chains, pt: Pairs, pt': Pairs,
                                        hw: HwPairs, hw': HwPairs, h: int)
    requires Sound(sp, st, chains, pt, hw) && h in chains
    requires !chains[h].cells[|chains[h].cells| - 1].Single()
    requires var c := chains[h].pairs; var t := c[|c| - 1];
             && pt' == pt[t := pt[t].(succ := -1)]
             && hw' == hw[t := hw[t].(second := hw[t].second.(last := false), next := -1)]
    ensures pt' == pt
    ensures Soft(sp, st, chains, pt', hw') && AllBackward(pt', chains) && !AllMirrored(pt', hw', chains)
  {
    var c := chains[h].pairs;
    var t := c[|c| - 1];
    assert pt[t].succ == Next(c, |c| - 1);
    assert pt' == pt;
    assert !Mirror(hw'[t], chains[h], |c| - 1);
  }

  lemma {:induction false} InitialState(st: seq<int>, pt: Pairs, hw: HwPairs)
    requires 0 < |st| == |pt| == |hw| && forall k | 0 <= k < |st| :: st[k] == k
    ensures Sound(0, st, map[], pt, hw)
  {
    InitialPartition(st);
  }

  lemma {:induction false} SoundParts(sp: int, st: seq<int>, chains: Chains, pt: Pairs, hw: HwPairs)
    requires Sound(sp, st, chains, pt, hw)
    ensures Soft(sp, st, chains, pt, hw) && AllStored(pt, chains)
    ensures AllBackward(pt, chains) && AllMirrored(pt, hw, chains)
    ensures 0 <= sp < |st| == |pt| == |hw|
  {
  }

  // --- nodes of VLAN 0 --------------------------------------------------------------

  ghost predicate NeverSound(sp: int, st: seq<int>, pt: Pairs, hw: HwPairs) {
    forall cs: Chains :: !Sound(sp, st, cs, pt, hw)
  }

  /** A pair that is out cannot be part of any chain if its first node has VLAN 0, or if its second is empty in
      software while the hardware goes on to it. */
  lemma {:induction false} RuinedBy(sp: int, st: seq<int>, pt: Pairs, hw: HwPairs, x: int)
    requires 0 <= sp <= |st| && x !in FreeSet(sp, st) && 0 <= x < |st| == |pt| == |hw|
    requires pt[x].cell.first.vid == 0 || (pt[x].cell.Single() && !hw[x].first.last)
    ensures NeverSound(sp, st, pt, hw)
  {
    forall cs: Chains
      ensures !Sound(sp, st, cs, pt, hw)
    {
      if Sound(sp, st, cs, pt, hw) { SoundPair(sp, st, cs, pt, hw, x); }
    }
  }

  lemma {:induction false} SoundPair(sp: int, st: seq<int>, cs: Chains, pt: Pairs, hw: HwPairs, x: int)
    requires Sound(sp, st, cs, pt, hw) && 0 <= x < |st| && x !in FreeSet(sp, st)
    ensures pt[x].cell.first.vid != 0 && hw[x].first.last == pt[x].cell.Single()
  {
    hide ChainOk, AllStored, AllBackward, AllMirrored, Headed;
    assert x in Below(|st|);
    assert x in InUse(cs);
    var h :| h in cs && x in cs[h].pairs;
    var k :| 0 <= k < |cs[h].pairs| && cs[h].pairs[k] == x;
    TailFacts(sp, st, cs, pt, hw, h);
    PairFacts(pt, hw, cs[h], k);
  }

  lemma {:induction false} PairFacts(pt: Pairs, hw: HwPairs, ch: Chain, k: nat)
    requires ChainOk(pt, hw, ch) && k < |ch.pairs|
    ensures 0 <= ch.pairs[k] < |pt| == |hw|
    ensures pt[ch.pairs[k]].cell.first.vid != 0 && hw[ch.pairs[k]].first.last == pt[ch.pairs[k]].cell.Single()
  {
    assert Mirror(hw[ch.pairs[k]], ch, k);
  }

  /** The pair next handed out is free no more. */
  lemma {:induction false} TakenOut(sp: int, st: seq<int>, chains: Chains, pt: Pairs, hw: HwPairs)
    requires Sound(sp, st, chains, pt, hw) && sp < |st|
    ensures st[sp] !in FreeSet(sp + 1, st)
  {
    hide AllStored, AllBackward, AllMirrored, Headed;
    var free := FreeSet(sp + 1, st);
    forall x | x in free
      ensures x != st[sp]
    {
      var i :| 0 <= i < |st[sp + 1..]| && st[sp + 1..][i] == x;
      assert st[sp + 1 + i] == x;
    }
  }

  lemma {:induction false} TailInUse(sp: int, st: seq<int>, chains: Chains, pt: Pairs, hw: HwPairs, h: int)
    requires Sound(sp, st, chains, pt, hw) && h in chains && chains[h].pairs != []
    ensures 0 <= sp <= |st| && chains[h].pairs[|chains[h].pairs| - 1] !in FreeSet(sp, st)
  {
    hide AllStored, AllBackward, AllMirrored, Headed, FreeSet, InUse, Elements, Distinct, Separate;
    InUseHas(chains, h);
    UsedNotFree(FreeSet(sp, st), InUse(chains), |st|, chains[h].pairs[|chains[h].pairs| - 1]);
  }

  lemma {:induction false} UsedNotFree(free: set<int>, used: set<int>, n: nat, x: int)
    requires Split(free, used, {}, n) && x in used
    ensures x !in free
  {
    assert x in free ==> x in free * used;
  }

  /** Deleting from the empty half of a tail writes what is there. */
  lemma {:induction false} HoleStays(pt: Pairs, pt': Pairs, hw: HwPairs, hw': HwPairs, ch: Chain)
    requires ChainOk(pt, hw, ch) && ch.cells != [] && ch.cells[|ch.cells| - 1].Single()
    requires var x := ch.pairs[|ch.pairs| - 1]; var keep := ch.cells[|ch.cells| - 1].first;
             && pt' == pt[x := pt[x].(cell := Cell(keep, NO_NODE))] && hw' == hw[x := hw[x].(first := HwNode(keep, true))]
    ensures pt' == pt && hw' == hw
  {
    var n := |ch.pairs| - 1;
    assert Mirror(hw[ch.pairs[n]], ch, n);
  }

  /** The null node, and a tail with an empty half. */
  predicate IsHole(ch: Chain, n: Node) {
    n == NO_NODE && ch.cells != [] && ch.cells[|ch.cells| - 1].Single()
  }

  lemma {:induction false} TailFacts(sp: int, st: seq<int>, chains: Chains, pt: Pairs, hw: HwPairs, h: int)
    requires Sound(sp, st, chains, pt, hw) && h in chains
    ensures ChainOk(pt, hw, chains[h]) && Stored(pt, chains[h])
    ensures chains[h].pairs != [] && chains[h].pairs[0] == h
    ensures 0 <= sp < |st| == |pt| == |hw|
    ensures |chains[h].cells| == |chains[h].pairs|
    ensures var n := |chains[h].pairs| - 1; var t := chains[h].pairs[n];
            0 <= t < |pt| && pt[t].cell == chains[h].cells[n]
  {
  }

  lemma {:induction false} FreshStart(sp: int, st: seq<int>, chains: Chains, pt: Pairs, hw: HwPairs)
    requires Sound(sp, st, chains, pt, hw)
    ensures 0 <= sp < |st| == |pt| == |hw| && 0 <= st[sp] < |st|
  {
    Take(sp, st, chains, {});
  }

  lemma {:induction false} FreshChain(sp: int, st: seq<int>, chains: Chains, pt: Pairs, pt': Pairs,
                                      hw: HwPairs, hw': HwPairs, pred: int, n: Node)
    requires Sound(sp, st, chains, pt, hw) && sp + 1 < |st| && pred < 0 && n.vid != 0
    requires 0 <= st[sp] < |st|
    requires pt' == pt[st[sp] := Pair(pred, -1, Cell(n, NO_NODE))]
    requires hw' == hw[st[sp] := HwPair(HwNode(n, true), HwNode(n, true), 0)]
    ensures st[sp] !in chains
    ensures Sound(sp + 1, st, chains[st[sp] := Chain([st[sp]], [Cell(n, NO_NODE)])], pt', hw')
  {
    hide Partition, AllStored, AllBackward, AllMirrored, SameBut, Elements, InUse, Headed, ChainOk, Soft;
    SoundParts(sp, st, chains, pt, hw);
    var x := st[sp];
    var d := Chain([x], [Cell(n, NO_NODE)]);
    OneElement(x);
    SinglePair(pt', hw', x, pred, n);
    SameButOne(pt, x, pt'[x], Elements(d.pairs));
    SameButOne(hw, x, hw'[x], Elements(d.pairs));
    Started(sp, st, chains, pt, pt', hw, hw', d);
  }

  lemma {:induction false} SinglePair(pt: Pairs, hw: HwPairs, x: int, pred: int, n: Node)
    requires 0 <= x < |pt| == |hw| && pred < 0 && n.vid != 0
    requires pt[x] == Pair(pred, -1, Cell(n, NO_NODE)) && hw[x] == HwPair(HwNode(n, true), HwNode(n, true), 0)
    ensures ChainOk(pt, hw, Chain([x], [Cell(n, NO_NODE)]))
  {
    var d := Chain([x], [Cell(n, NO_NODE)]);
    assert BackLink(pt, d.pairs, 0) && Mirror(hw[x], d, 0);
  }

  lemma {:induction false} OneElement(x: int)
    ensures Elements([x]) == {x}
  {
  }

  // ---------------------------------------------------------------------------
  // Deleting
  // ---------------------------------------------------------------------------

  /** What is needed of pair `k`, not the tail, to take it out of its chain. */
  lemma {:induction false} InnerLinks(pt: Pairs, ch: Chain, k: nat)
    requires Linked(pt, ch) && k + 1 < |ch.pairs|
    ensures pt[ch.pairs[k]].succ == ch.pairs[k + 1]
    ensures if k == 0 then pt[ch.pairs[k]].pred < 0 else pt[ch.pairs[k]].pred == ch.pairs[k - 1]
    ensures Between(pt, ch.pairs[k])
    ensures ch.pairs[k] != ch.pairs[k + 1] && ch.pairs[k] != ch.pairs[|ch.pairs| - 1]
    ensures k > 0 ==> ch.pairs[k - 1] != ch.pairs[k] && ch.pairs[k - 1] != ch.pairs[k + 1]
    ensures k > 0 ==> ch.pairs[k - 1] != ch.pairs[|ch.pairs| - 1]
    ensures 0 <= ch.pairs[|ch.pairs| - 1] < |pt|
  {
    assert BackLink(pt, ch.pairs, k);
    assert pt[ch.pairs[k]].succ == Next(ch.pairs, k);
  }

  /** `pt'` is `pt` with the pair at `k` rotated to the tail, keeping `keep`. */
  ghost predicate IsRotate(pt: Pairs, pt': Pairs, c: seq<int>, k: nat, keep: Node) {
    k < |c| && Between(pt, c[k]) && 0 <= c[|c| - 1] < |pt| && pt' == Rotate(pt, c[k], c[|c| - 1], keep)
  }

  ghost predicate IsAbsorb(pt: Pairs, pt': Pairs, c: seq<int>, k: nat, keep: Node, back: bool) {
    k < |c| && Between(pt, c[k]) && 0 <= c[|c| - 1] < |pt| && pt' == Absorb(pt, c[k], c[|c| - 1], keep, back)
  }

  ghost predicate IsRotateHw(hw: HwPairs, hw': HwPairs, c: seq<int>, k: nat, keep: Node) {
    && k + 1 < |c| && Pred(c, k) < |hw| && 0 <= c[k] < |hw| && 0 <= c[|c| - 1] < |hw|
    && hw' == RotateHw(hw, Pred(c, k), c[k], c[k + 1], c[|c| - 1], keep)
  }

  ghost predicate IsAbsorbHw(hw: HwPairs, hw': HwPairs, c: seq<int>, k: nat, keep: Node) {
    && k + 1 < |c| && Pred(c, k) < |hw| && 0 <= c[|c| - 1] < |hw|
    && hw' == AbsorbHw(hw, Pred(c, k), c[k + 1], c[|c| - 1], keep)
  }

  lemma {:induction false} UnlinkSame(pt: Pairs, idx: int, back: bool, touched: set<int>)
    requires Between(pt, idx) && pt[idx].succ in touched && (pt[idx].pred < 0 || pt[idx].pred in touched)
    ensures SameBut(pt, Unlink(pt, idx, back), touched)
  {
  }

  lemma {:induction false} ElementsHas(c: seq<int>)
    ensures forall k | 0 <= k < |c| :: c[k] in Elements(c)
  {
  }

  lemma {:induction false} RotateSame(pt: Pairs, pt': Pairs, ch: Chain, k: nat, keep: Node)
    requires Linked(pt, ch) && k + 1 < |ch.pairs| && IsRotate(pt, pt', ch.pairs, k, keep)
    ensures SameBut(pt, pt', Elements(ch.pairs))
  {
    InnerLinks(pt, ch, k);
    ElementsHas(ch.pairs);
    hide Linked, Elements;
    UnlinkSame(pt, ch.pairs[k], true, Elements(ch.pairs));
  }

  lemma {:induction false} AbsorbSame(pt: Pairs, pt': Pairs, ch: Chain, k: nat, keep: Node, back: bool)
    requires Linked(pt, ch) && k + 1 < |ch.pairs| && IsAbsorb(pt, pt', ch.pairs, k, keep, back)
    ensures SameBut(pt, pt', Elements(ch.pairs))
  {
    InnerLinks(pt, ch, k);
    ElementsHas(ch.pairs);
    hide Linked, Elements;
    UnlinkSame(pt, ch.pairs[k], back, Elements(ch.pairs));
  }

  lemma {:induction false} HwSame(hw: HwPairs, hw': HwPairs, c: seq<int>, k: nat, keep: Node)
    requires IsRotateHw(hw, hw', c, k, keep) || IsAbsorbHw(hw, hw', c, k, keep)
    ensures SameBut(hw, hw', Elements(c))
  {
    ElementsHas(c);
    hide Elements;
  }

  /** The node that stays is a real one. */
  lemma {:induction false} KeepIsNode(ch: Chain, k: nat, deleteFirst: bool)
    requires Packed(ch.cells) && k < |ch.cells| && !ch.cells[k].Single()
    ensures ch.cells[k].Other(deleteFirst).vid != 0
  {
  }

  /** A chain `d` of the same pairs as `ch`, well formed in the rotated table. */
  lemma {:induction false} RotatedChain(pt: Pairs, pt': Pairs, ch: Chain, k: nat, deleteFirst: bool)
    requires Linked(pt, ch) && Rotates(ch, k)
    requires IsRotate(pt, pt', ch.pairs, k, ch.cells[k].Other(deleteFirst))
    ensures Linked(pt', Deleted(ch, k, deleteFirst))
    ensures Elements(Deleted(ch, k, deleteFirst).pairs) == Elements(ch.pairs)
  {
    var d, keep := Deleted(ch, k, deleteFirst), ch.cells[k].Other(deleteFirst);
    KeepIsNode(ch, k, deleteFirst);
    RotatedShape(ch, k, deleteFirst);
    RotatedMembers(|pt|, ch, k, keep, d);
    hide Deleted, Rotated, Rotates, Linked, Rotate;
    RotateLinked(pt, ch, k, keep, d);
  }

  /** Cases 4, 7, 10 and 12 on the software side, whatever happened in hardware. */
  lemma {:induction false} DeletedRotating(sp: int, st: seq<int>, chains: Chains, pt: Pairs, pt': Pairs,
                                           hw: HwPairs, hw': HwPairs, h: int, k: nat, deleteFirst: bool)
    requires Sound(sp, st, chains, pt, hw) && h in chains && Rotates(chains[h], k)
    requires IsRotate(pt, pt', chains[h].pairs, k, chains[h].cells[k].Other(deleteFirst))
    requires SameBut(hw, hw', Elements(chains[h].pairs))
    ensures Deleted(chains[h], k, deleteFirst).pairs != []
    ensures var d := Deleted(chains[h], k, deleteFirst);
            Outcome(sp, st, Replace(chains, h, d), pt', hw', d) && Backward(pt', d.pairs)
  {
    var ch, d := chains[h], Deleted(chains[h], k, deleteFirst);
    Others(sp, st, chains, pt, hw, h);
    RotatedChain(pt, pt', ch, k, deleteFirst);
    RotateSame(pt, pt', ch, k, ch.cells[k].Other(deleteFirst));
    hide Partition, AllStored, AllBackward, AllMirrored, SameBut, Elements, InUse, Headed, IsRotate, Deleted;
    Rebuilt(sp, st, chains, pt, pt', hw, hw', h, d);
  }

  lemma {:induction false} RotatedHardware(hw: HwPairs, hw': HwPairs, ch: Chain, k: nat, deleteFirst: bool)
    requires Members(|hw|, ch.pairs) && Rotates(ch, k) && Mirrors(hw, ch)
    requires IsRotateHw(hw, hw', ch.pairs, k, ch.cells[k].Other(deleteFirst))
    ensures var d := Deleted(ch, k, deleteFirst);
            Members(|hw'|, d.pairs) && |d.pairs| == |d.cells| && Mirrors(hw', d)
  {
    RotatedShape(ch, k, deleteFirst);
    RotateMirrors(hw, ch, k, ch.cells[k].Other(deleteFirst), Deleted(ch, k, deleteFirst));
  }

  lemma {:induction false} AbsorbedHardware(hw: HwPairs, hw': HwPairs, ch: Chain, k: nat, deleteFirst: bool)
    requires Members(|hw|, ch.pairs) && Absorbs(ch, k) && Mirrors(hw, ch)
    requires IsAbsorbHw(hw, hw', ch.pairs, k, ch.cells[k].Other(deleteFirst))
    ensures var d := Deleted(ch, k, deleteFirst);
            Members(|hw'|, d.pairs) && |d.pairs| == |d.cells| && Mirrors(hw', d)
  {
    KeepIsNode(ch, k, deleteFirst);
    AbsorbedShape(ch, k, deleteFirst);
    AbsorbMirrors(hw, ch, k, ch.cells[k].Other(deleteFirst), Deleted(ch, k, deleteFirst));
  }

  /** Cases 4, 7 and 12, and case 10 without its extra write. */
  lemma {:induction false} DeletedRotate(sp: int, st: seq<int>, chains: Chains, pt: Pairs, pt': Pairs,
                                         hw: HwPairs, hw': HwPairs, h: int, k: nat, deleteFirst: bool)
    requires Sound(sp, st, chains, pt, hw) && h in chains && Rotates(chains[h], k)
    requires IsRotate(pt, pt', chains[h].pairs, k, chains[h].cells[k].Other(deleteFirst))
    requires IsRotateHw(hw, hw', chains[h].pairs, k, chains[h].cells[k].Other(deleteFirst))
    ensures Deleted(chains[h], k, deleteFirst).pairs != []
    ensures Sound(sp, st, Replace(chains, h, Deleted(chains[h], k, deleteFirst)), pt', hw')
  {
    var ch, keep := chains[h], chains[h].cells[k].Other(deleteFirst);
    Others(sp, st, chains, pt, hw, h);
    hide Partition, AllStored, AllBackward, AllMirrored, SameBut, Elements, InUse, Headed;
    hide IsRotate, IsRotateHw, Deleted, Rotates;
    HwSame(hw, hw', ch.pairs, k, keep);
    RotatedHardware(hw, hw', ch, k, deleteFirst);
    DeletedRotating(sp, st, chains, pt, pt', hw, hw', h, k, deleteFirst);
  }

  /** A chain `d` of the pairs of `ch` but one, well formed in the table after absorbing it. */
  lemma {:induction false} AbsorbedChain(pt: Pairs, pt': Pairs, ch: Chain, k: nat, deleteFirst: bool, back: bool)
    requires Linked(pt, ch) && Absorbs(ch, k)
    requires IsAbsorb(pt, pt', ch.pairs, k, ch.cells[k].Other(deleteFirst), back)
    ensures var d := Deleted(ch, k, deleteFirst);
            && Stored(pt', d) && (Backward(pt', d.pairs) <==> back)
            && Elements(d.pairs) == Elements(ch.pairs) - {ch.pairs[k]}
  {
    var d, keep := Deleted(ch, k, deleteFirst), ch.cells[k].Other(deleteFirst);
    KeepIsNode(ch, k, deleteFirst);
    AbsorbedShape(ch, k, deleteFirst);
    AbsorbedMembers(|pt|, ch, k, keep, d);
    hide Deleted, Absorbed, Linked, Absorb;
    AbsorbStored(pt, ch, k, keep, back, d);
    BackwardIff(pt', d.pairs, k);
  }

  lemma {:induction false} BackwardIff(pt: Pairs, c: seq<int>, k: nat)
    requires Members(|pt|, c) && k < |c| && BackwardBut(pt, c, k)
    ensures Backward(pt, c) <==> BackLink(pt, c, k)
  {
  }

  /** Cases 5, 8, 11 and 13; `back` says whether the successor's back link is written. */
  lemma {:induction false} DeletedAbsorb(sp: int, st: seq<int>, st': seq<int>, chains: Chains, pt: Pairs, pt': Pairs,
                                         hw: HwPairs, hw': HwPairs, h: int, k: nat, deleteFirst: bool, back: bool)
    requires Sound(sp, st, chains, pt, hw) && h in chains && Absorbs(chains[h], k)
    requires IsAbsorb(pt, pt', chains[h].pairs, k, chains[h].cells[k].Other(deleteFirst), back)
    requires IsAbsorbHw(hw, hw', chains[h].pairs, k, chains[h].cells[k].Other(deleteFirst))
    requires 0 < sp <= |st| ==> st' == st[sp - 1 := chains[h].pairs[k]]
    ensures sp > 0 && Deleted(chains[h], k, deleteFirst).pairs != []
    ensures var chains' := Replace(chains, h, Deleted(chains[h], k, deleteFirst));
            && Soft(sp - 1, st', chains', pt', hw') && AllMirrored(pt', hw', chains')
            && (AllBackward(pt', chains') <==> back)
  {
    var ch, d, keep := chains[h], Deleted(chains[h], k, deleteFirst), chains[h].cells[k].Other(deleteFirst);
    Others(sp, st, chains, pt, hw, h);
    ElementsHas(ch.pairs);
    hide Partition, AllStored, AllBackward, AllMirrored, SameBut, Elements, InUse, Headed;
    hide IsAbsorb, IsAbsorbHw, Deleted;
    HwSame(hw, hw', ch.pairs, k, keep);
    AbsorbedHardware(hw, hw', ch, k, deleteFirst);
    AbsorbSame(pt, pt', ch, k, keep, back);
    AbsorbedChain(pt, pt', ch, k, deleteFirst, back);
    Shortened(sp, st, chains, pt, pt', hw, hw', h, d, ch.pairs[k], st');
  }

  /** Case 10 as written: one hardware write too many.  With two pairs it is overwritten; with
      more the hardware goes from the new head straight to the old one, so it loses every pair
      in between. */
  lemma {:induction false} DeletedHeadAsWritten(sp: int, st: seq<int>, chains: Chains, pt: Pairs, pt': Pairs,
                                                hw: HwPairs, bad: HwPairs, hw': HwPairs, h: int)
    requires Sound(sp, st, chains, pt, hw) && h in chains && Rotates(chains[h], 0)
    requires IsRotate(pt, pt', chains[h].pairs, 0, chains[h].cells[0].first)
    requires var c := chains[h].pairs; 0 <= c[1] < |hw| && bad == hw[c[1] := hw[c[1]].(next := c[0])]
    requires IsRotateHw(bad, hw', chains[h].pairs, 0, chains[h].cells[0].first)
    ensures Deleted(chains[h], 0, false).pairs != []
    ensures var chains' := Replace(chains, h, Deleted(chains[h], 0, false));
            && Soft(sp, st, chains', pt', hw') && AllBackward(pt', chains')
            && (AllMirrored(pt', hw', chains') <==> |chains[h].pairs| == 2)
    ensures |chains[h].pairs| > 2 ==>
              WalkHardware(hw', chains[h].pairs[1], |hw|) == chains[h].cells[1].Nodes() + [chains[h].cells[0].first]
  {
    var ch := chains[h];
    Others(sp, st, chains, pt, hw, h);
    ElementsHas(ch.pairs);
    AsWrittenHardware(hw, bad, hw', ch);
    hide Partition, AllStored, AllBackward, AllMirrored, SameBut, Elements, InUse, Headed;
    hide IsRotate, IsRotateHw, Deleted;
    HwSame(bad, hw', ch.pairs, 0, ch.cells[0].first);
    SameButOne(hw, ch.pairs[1], bad[ch.pairs[1]], Elements(ch.pairs));
    SameButTrans(hw, bad, hw', Elements(ch.pairs));
    DeletedRotating(sp, st, chains, pt, pt', hw, hw', h, 0, false);
  }

  lemma {:induction false} AsWrittenHardware(hw: HwPairs, bad: HwPairs, hw': HwPairs, ch: Chain)
    requires Members(|hw|, ch.pairs) && Rotates(ch, 0) && Mirrors(hw, ch)
    requires var c := ch.pairs; bad == hw[c[1] := hw[c[1]].(next := c[0])]
    requires IsRotateHw(bad, hw', ch.pairs, 0, ch.cells[0].first)
    ensures var d := Deleted(ch, 0, false);
            && Members(|hw'|, d.pairs) && |d.pairs| == |d.cells|
            && (Mirrors(hw', d) <==> |ch.pairs| == 2)
    ensures |ch.pairs| > 2 ==>
              WalkHardware(hw', ch.pairs[1], |hw|) == ch.cells[1].Nodes() + [ch.cells[0].first]
  {
    var c, keep, d := ch.pairs, ch.cells[0].first, Deleted(ch, 0, false);
    RotateHwAsWritten(hw, ch, keep);
    RotatedShape(ch, 0, false);
    RotatedMembers(|hw|, ch, 0, keep, d);
    if |c| == 2 {
      RotateMirrors(hw, ch, 0, keep, d);
    } else {
      RotateHwAt(bad, c, 0, keep, 1);
      assert d.pairs[0] == c[1] && d.pairs[1] == c[2];
      assert !Mirror(hw'[c[1]], d, 0);
    }
  }

  /** Cases 3, 6 and 9. */
  lemma {:induction false} DeletedShrinking(sp: int, st: seq<int>, chains: Chains, pt: Pairs, pt': Pairs,
                                            hw: HwPairs, hw': HwPairs, h: int, deleteFirst: bool)
    requires Sound(sp, st, chains, pt, hw) && h in chains
    requires !chains[h].cells[|chains[h].cells| - 1].Single()
    requires var n := |chains[h].pairs| - 1;
             var idx, keep := chains[h].pairs[n], chains[h].cells[n].Other(deleteFirst);
             && pt' == pt[idx := pt[idx].(cell := Cell(keep, NO_NODE))]
             && hw' == hw[idx := hw[idx].(first := HwNode(keep, true))]
    ensures Deleted(chains[h], |chains[h].pairs| - 1, deleteFirst).pairs != []
    ensures Sound(sp, st, Replace(chains, h, Deleted(chains[h], |chains[h].pairs| - 1, deleteFirst)), pt', hw')
  {
    var ch, n := chains[h], |chains[h].pairs| - 1;
    var d, idx := Deleted(ch, n, deleteFirst), ch.pairs[n];
    Others(sp, st, chains, pt, hw, h);
    TailIsMember(|pt|, ch.pairs);
    ShrinkTail(pt, hw, ch, deleteFirst);
    assert d.pairs == ch.pairs;
    hide Partition, AllStored, AllBackward, AllMirrored, SameBut, Elements, InUse, Headed, Members, Forward, Backward, Mirrors, Deleted;
    SameButOne(pt, idx, pt'[idx], Elements(ch.pairs));
    SameButOne(hw, idx, hw'[idx], Elements(ch.pairs));
    Rebuilt(sp, st, chains, pt, pt', hw, hw', h, d);
  }

  lemma {:induction false} InitElements(size: nat, c: seq<int>)
    requires Members(size, c) && |c| > 1
    ensures Elements(c[..|c| - 1]) == Elements(c) - {c[|c| - 1]}
    ensures c[|c| - 1] in c
    ensures c[|c| - 2] in Elements(c) && c[|c| - 1] in Elements(c) && 0 <= c[|c| - 2] < size && 0 <= c[|c| - 1] < size
  {
    var d := c[..|c| - 1];
    assert c == d + [c[|c| - 1]];
    assert c[|c| - 2] in c;
  }

  /** Case 2. */
  lemma {:induction false} DeletedDropping(sp: int, st: seq<int>, st': seq<int>, chains: Chains, pt: Pairs, pt': Pairs,
                                           hw: HwPairs, hw': HwPairs, h: int)
    requires Sound(sp, st, chains, pt, hw) && h in chains
    requires chains[h].cells[|chains[h].cells| - 1].Single() && |chains[h].pairs| > 1
    requires var n := |chains[h].pairs| - 1; var idx, w := chains[h].pairs[n], chains[h].pairs[n - 1];
             && pt' == pt[idx := NULL_PAIR][w := pt[w].(succ := -1)]
             && hw' == hw[w := hw[w].(second := hw[w].second.(last := true))]
             && (0 < sp <= |st| ==> st' == st[sp - 1 := idx])
    ensures sp > 0 && Deleted(chains[h], |chains[h].pairs| - 1, true).pairs != []
    ensures Sound(sp - 1, st', Replace(chains, h, Deleted(chains[h], |chains[h].pairs| - 1, true)), pt', hw')
  {
    var ch, n := chains[h], |chains[h].pairs| - 1;
    var d, idx, w := Deleted(ch, n, true), ch.pairs[n], ch.pairs[n - 1];
    Others(sp, st, chains, pt, hw, h);
    InitElements(|pt|, ch.pairs);
    DropTail(pt, hw, ch);
    assert d.pairs == ch.pairs[..n];
    hide Partition, AllStored, AllBackward, AllMirrored, SameBut, Elements, InUse, Headed, Members, Forward, Backward, Mirrors, Deleted;
    SameButTwo(pt, idx, NULL_PAIR, w, pt'[w], Elements(ch.pairs));
    SameButOne(hw, w, hw'[w], Elements(ch.pairs));
    Shortened(sp, st, chains, pt, pt', hw, hw', h, d, idx, st');
  }

  // ---------------------------------------------------------------------------
  // What a delete relies on
  // ---------------------------------------------------------------------------

  /** The entries a delete from pair `k` reads. */
  lemma {:induction false} CellFacts(pt: Pairs, hw: HwPairs, ch: Chain, k: nat)
    requires ChainOk(pt, hw, ch) && k < |ch.pairs|
    ensures |ch.cells| == |ch.pairs| && Packed(ch.cells)
    ensures 0 <= ch.pairs[k] < |pt| == |hw|
    ensures pt[ch.pairs[k]].cell == ch.cells[k]
    ensures hw[ch.pairs[k]].first.node == ch.cells[k].first
    ensures !ch.cells[k].Single() ==> hw[ch.pairs[k]].second.node == ch.cells[k].second
    ensures pt[ch.pairs[k]].succ < 0 <==> k + 1 == |ch.pairs|
    ensures pt[ch.pairs[k]].pred < 0 <==> k == 0
    ensures k > 0 ==> pt[ch.pairs[k]].pred == ch.pairs[k - 1] && 0 <= ch.pairs[k - 1] < |pt|
    ensures k > 0 ==> ch.pairs[k - 1] != ch.pairs[k]
  {
    assert Mirror(hw[ch.pairs[k]], ch, k) && BackLink(pt, ch.pairs, k);
    assert pt[ch.pairs[k]].succ == Next(ch.pairs, k);
  }

  lemma {:induction false} InnerFacts(pt: Pairs, hw: HwPairs, ch: Chain, k: nat)
    requires ChainOk(pt, hw, ch) && k + 1 < |ch.pairs|
    ensures |ch.cells| == |ch.pairs| && !ch.cells[k].Single()
    ensures pt[ch.pairs[k]].succ == ch.pairs[k + 1]
    ensures if k == 0 then pt[ch.pairs[k]].pred < 0 else pt[ch.pairs[k]].pred == ch.pairs[k - 1]
    ensures Between(pt, ch.pairs[k])
    ensures ch.pairs[k] != ch.pairs[k + 1] && ch.pairs[k] != ch.pairs[|ch.pairs| - 1]
    ensures k > 0 ==> ch.pairs[k - 1] != ch.pairs[k] && ch.pairs[k - 1] != ch.pairs[k + 1]
    ensures k > 0 ==> ch.pairs[k - 1] != ch.pairs[|ch.pairs| - 1]
    ensures 0 <= ch.pairs[|ch.pairs| - 1] < |pt|
    ensures pt[ch.pairs[|ch.pairs| - 1]].cell == ch.cells[|ch.cells| - 1]
  {
    InnerLinks(pt, ch, k);
  }

  /** A live chain has taken pairs from the stack. */
  lemma {:induction false} PoolInUse(sp: int, st: seq<int>, chains: Chains, pt: Pairs, hw: HwPairs, h: int)
    requires Sound(sp, st, chains, pt, hw) && h in chains
    ensures 0 < sp < |st| == |pt| == |hw|
  {
    Conservation(sp, st, chains, {});
    InUseHas(chains, h);
    assert h in Elements(chains[h].pairs) && h in InUse(chains) + {};
  }

  /** The delete that the code as written gets wrong in software: the first node of a pair
      between others, with room in the tail (case 8). */
  ghost predicate MissesBackLink(ch: Chain, k: nat, deleteFirst: bool)
    requires k < |ch.pairs| == |ch.cells|
  {
    0 < k && k + 1 < |ch.pairs| && deleteFirst && ch.cells[|ch.cells| - 1].Single()
  }

  /** The delete that the code as written gets wrong in hardware: the second node of the head of
      three or more pairs, with a full tail (case 10). */
  ghost predicate MisdirectsHead(ch: Chain, k: nat, deleteFirst: bool)
    requires k < |ch.pairs| == |ch.cells|
  {
    k == 0 && |ch.pairs| > 2 && !deleteFirst && !ch.cells[|ch.cells| - 1].Single()
  }

  /** A delete empties the pairs exactly if it empties the cells, and then there was one node. */
  lemma {:induction false} DeletedSize(ch: Chain, k: nat, deleteFirst: bool)
    requires Packed(ch.cells) && k < |ch.pairs| == |ch.cells|
    ensures |Deleted(ch, k, deleteFirst).pairs| == |Deleted(ch, k, deleteFirst).cells|
    ensures Deleted(ch, k, deleteFirst).pairs == [] <==> |ch.pairs| == 1 && ch.cells[0].Single()
  {
  }

  /** The pairs of a chain are indices, so none is -1. */
  lemma {:induction false} FindFacts(pt: Pairs, ch: Chain, n: Node)
    requires Stored(pt, ch)
    ensures |ch.pairs| == |ch.cells| && -1 !in ch.pairs
  {
  }

  /** A chain that is left after a delete is packed, and starts at the old head unless that was taken out. */
  lemma {:induction false} DeletedPacked(pt: Pairs, hw: HwPairs, ch: Chain, k: nat, deleteFirst: bool)
    requires ChainOk(pt, hw, ch) && k < |ch.pairs| == |ch.cells| && (!deleteFirst ==> !ch.cells[k].Single())
    ensures var d := Deleted(ch, k, deleteFirst);
            && |d.pairs| == |d.cells|
            && (d.cells != [] ==> Packed(d.cells))
            && (d.pairs != [] ==> d.pairs[0] == if k == 0 && |ch.pairs| > 1 then ch.pairs[1] else ch.pairs[0])
  {
    hide Packed, DeleteFrom;
    ChainPacked(pt, hw, ch);
    DeleteFromPacked(ch.cells, k, deleteFirst);
    DeletedSize(ch, k, deleteFirst);
  }

  lemma {:induction false} ChainPacked(pt: Pairs, hw: HwPairs, ch: Chain)
    requires ChainOk(pt, hw, ch)
    ensures Packed(ch.cells)
  {
  }

  /** Deleting the first occurrence of a node takes exactly that one out. */
  lemma {:induction false} DeletedNodes(pt: Pairs, hw: HwPairs, ch: Chain, n: Node, k: nat)
    requires ChainOk(pt, hw, ch) && FirstWith(ch.cells, n, k)
    ensures multiset(Deleted(ch, k, ch.cells[k].first == n).Nodes()) == multiset(ch.Nodes()) - multiset{n}
  {
    DeleteFromMultiset(ch.cells, k, ch.cells[k].first == n);
  }
}
