/** The pair pool: the stack of free pair indices and the live chains share out the table. */
module MllPool {
  import opened MllChain

  /** Live chains by the index of their head pair. */
  type Chains = map<int, Chain>

  /** The free indices: the part of the stack from its pointer on. */
  ghost function FreeSet(sp: nat, st: seq<int>): set<int>
    requires sp <= |st|
  {
    Elements(st[sp..])
  }

  /** The pairs of all live chains. */
  ghost function InUse(chains: Chains): set<int> {
    set h, x | h in chains && x in chains[h].pairs :: x
  }

  ghost predicate Distinct(sp: nat, st: seq<int>) {
    forall i, j | sp <= i < j < |st| :: st[i] != st[j]
  }

  /** No pair is in two chains. */
  ghost predicate Separate(chains: Chains) {
    forall g, h, x | g in chains && h in chains && x in chains[g].pairs && x in chains[h].pairs :: g == h
  }

  /** Every index below the table size is either free, or in exactly one live chain, or
      loose (taken out of a chain by an operation in progress). */
  ghost predicate Partition(sp: nat, st: seq<int>, chains: Chains, loose: set<int>) {
    && sp <= |st|
    && Distinct(sp, st)
    && Separate(chains)
    && Split(FreeSet(sp, st), InUse(chains), loose, |st|)
  }

  /** Three sets share out the indices below `n`. */
  ghost predicate Split(free: set<int>, used: set<int>, loose: set<int>, n: nat) {
    && free * used == {} && free * loose == {} && used * loose == {}
    && free + used + loose == Below(n)
  }

  /** Each chain is found under its head. */
  ghost predicate Headed(chains: Chains) {
    forall h | h in chains :: chains[h].pairs != [] && chains[h].pairs[0] == h
  }

  ghost predicate AllStored(pt: Pairs, chains: Chains) {
    forall h | h in chains :: Stored(pt, chains[h])
  }

  ghost predicate AllBackward(pt: Pairs, chains: Chains)
    requires AllStored(pt, chains)
  {
    forall h | h in chains :: Backward(pt, chains[h].pairs)
  }

  ghost predicate AllMirrored(pt: Pairs, hw: HwPairs, chains: Chains)
    requires AllStored(pt, chains)
  {
    |hw| == |pt| && forall h | h in chains :: Mirrors(hw, chains[h])
  }

  // ---------------------------------------------------------------------------
  // Conservation
  // ---------------------------------------------------------------------------

  lemma {:induction false} SplitCount(free: set<int>, used: set<int>, loose: set<int>, n: nat)
    requires Split(free, used, loose, n)
    ensures |free| + |used + loose| == n
  {
    var out := used + loose;
    assert free * out == {};
    assert free + out == Below(n);
    assert |free + out| == |free| + |out|;
  }

  /** Exactly `sp` indices are out: those of live chains and the loose ones. */
  lemma {:induction false} Conservation(sp: nat, st: seq<int>, chains: Chains, loose: set<int>)
    requires Partition(sp, st, chains, loose)
    ensures |InUse(chains) + loose| == sp
  {
    Injected(st[sp..]);
    SplitCount(FreeSet(sp, st), InUse(chains), loose, |st|);
  }

  // ---------------------------------------------------------------------------
  // Steps
  // ---------------------------------------------------------------------------

  lemma {:induction false} InUseWithout(chains: Chains, h: int)
    requires Separate(chains) && h in chains
    ensures InUse(chains - {h}) == InUse(chains) - Elements(chains[h].pairs)
  {
    forall x | x in InUse(chains) && x !in chains[h].pairs
      ensures x in InUse(chains - {h})
    {
      var g :| g in chains && x in chains[g].pairs;
      assert g in chains - {h} && (chains - {h})[g] == chains[g];
    }
    forall x | x in InUse(chains - {h})
      ensures x in InUse(chains) && x !in chains[h].pairs
    {
      var g :| g in chains - {h} && x in (chains - {h})[g].pairs;
      assert g in chains && x in chains[g].pairs;
    }
  }

  lemma {:induction false} InUseWith(chains: Chains, h: int, d: Chain)
    requires h !in chains
    ensures InUse(chains[h := d]) == InUse(chains) + Elements(d.pairs)
  {
    var chains' := chains[h := d];
    forall x | x in InUse(chains) + Elements(d.pairs)
      ensures x in InUse(chains')
    {
      if x in d.pairs {
        assert h in chains' && x in chains'[h].pairs;
      } else {
        var g :| g in chains && x in chains[g].pairs;
        assert g in chains' && x in chains'[g].pairs;
      }
    }
    forall x | x in InUse(chains')
      ensures x in InUse(chains) + Elements(d.pairs)
    {
      var g :| g in chains' && x in chains'[g].pairs;
      if g != h { assert g in chains && x in chains[g].pairs; }
    }
  }

  /** The pool as it starts out. */
  lemma {:induction false} InitialPartition(st: seq<int>)
    requires forall k | 0 <= k < |st| :: st[k] == k
    ensures Partition(0, st, map[], {})
  {
    assert st[0..] == st;
    forall x | x in Below(|st|)
      ensures x in FreeSet(0, st)
    {
      assert st[x] == x;
    }
    assert FreeSet(0, st) == Below(|st|);
    assert InUse(map[]) == {};
  }

  /** Take a chain's pairs out of the partition. */
  lemma {:induction false} Detach(sp: nat, st: seq<int>, chains: Chains, h: int)
    requires Partition(sp, st, chains, {}) && h in chains
    ensures Partition(sp, st, chains - {h}, Elements(chains[h].pairs))
  {
    var c := Elements(chains[h].pairs);
    InUseWithout(chains, h);
    InUseHas(chains, h);
    SplitMove(FreeSet(sp, st), InUse(chains), {}, |st|, c);
    assert {} + c == c;
    assert Separate(chains - {h});
  }

  lemma {:induction false} InUseHas(chains: Chains, h: int)
    requires h in chains
    ensures Elements(chains[h].pairs) <= InUse(chains)
  {
    forall x | x in Elements(chains[h].pairs)
      ensures x in InUse(chains)
    {
      assert h in chains && x in chains[h].pairs;
    }
  }

  lemma {:induction false} SplitMove(free: set<int>, used: set<int>, loose: set<int>, n: nat, c: set<int>)
    requires Split(free, used, loose, n) && c <= used
    ensures Split(free, used - c, loose + c, n)
  {
  }

  /** Make the loose pairs a chain. */
  lemma {:induction false} Attach(sp: nat, st: seq<int>, chains: Chains, d: Chain)
    requires Partition(sp, st, chains, Elements(d.pairs)) && d.pairs != [] && Headed(chains)
    ensures d.pairs[0] !in chains
    ensures Partition(sp, st, chains[d.pairs[0] := d], {}) && Headed(chains[d.pairs[0] := d])
  {
    var h := d.pairs[0];
    NewHead(chains, d);
    InUseWith(chains, h, d);
    SeparateWith(chains, h, d);
    SplitJoin(FreeSet(sp, st), InUse(chains), Elements(d.pairs), |st|);
  }

  lemma {:induction false} NewHead(chains: Chains, d: Chain)
    requires InUse(chains) * Elements(d.pairs) == {} && d.pairs != [] && Headed(chains)
    ensures d.pairs[0] !in chains
    ensures Headed(chains[d.pairs[0] := d])
  {
    var h := d.pairs[0];
    assert h in Elements(d.pairs);
    assert h !in InUse(chains) * Elements(d.pairs);
    HeadsInUse(chains);
  }

  lemma {:induction false} HeadsInUse(chains: Chains)
    requires Headed(chains)
    ensures forall h | h in chains :: h in InUse(chains)
  {
    forall h | h in chains
      ensures h in InUse(chains)
    {
      assert h in chains[h].pairs;
    }
  }

  lemma {:induction false} SplitJoin(free: set<int>, used: set<int>, loose: set<int>, n: nat)
    requires Split(free, used, loose, n)
    ensures Split(free, used + loose, {}, n)
  {
  }

  lemma {:induction false} SeparateWith(chains: Chains, h: int, d: Chain)
    requires Separate(chains) && h !in chains && InUse(chains) * Elements(d.pairs) == {}
    ensures Separate(chains[h := d])
  {
    forall g, x | g in chains && x in chains[g].pairs
      ensures x !in d.pairs
    {
      assert x in InUse(chains);
      assert x !in InUse(chains) * Elements(d.pairs);
    }
  }

  /** Return a loose pair to the stack. */
  lemma {:induction false} Return(sp: nat, st: seq<int>, chains: Chains, loose: set<int>, x: int)
    requires Partition(sp, st, chains, loose) && x in loose
    ensures sp > 0
    ensures Partition(sp - 1, st[sp - 1 := x], chains, loose - {x})
  {
    Conservation(sp, st, chains, loose);
    assert x in InUse(chains) + loose;
    var st' := st[sp - 1 := x];
    PushFree(sp, st, x);
    SplitReturn(FreeSet(sp, st), InUse(chains), loose, |st|, x);
  }

  lemma {:induction false} SplitReturn(free: set<int>, used: set<int>, loose: set<int>, n: nat, x: int)
    requires Split(free, used, loose, n) && x in loose
    ensures Split(free + {x}, used, loose - {x}, n)
  {
  }

  lemma {:induction false} PushFree(sp: nat, st: seq<int>, x: int)
    requires 0 < sp <= |st| && Distinct(sp, st)
    ensures FreeSet(sp - 1, st[sp - 1 := x]) == FreeSet(sp, st) + {x}
    ensures x !in FreeSet(sp, st) ==> Distinct(sp - 1, st[sp - 1 := x])
  {
    var st' := st[sp - 1 := x];
    assert st'[sp - 1..] == [x] + st[sp..];
    forall j | sp <= j < |st|
      ensures st'[j] in FreeSet(sp, st)
    {
      assert st'[j] == st[sp..][j - sp];
    }
  }

  /** Take the top of the stack. */
  lemma {:induction false} Take(sp: nat, st: seq<int>, chains: Chains, loose: set<int>)
    requires Partition(sp, st, chains, loose) && sp < |st|
    ensures 0 <= st[sp] < |st| && st[sp] !in loose && st[sp] !in InUse(chains)
    ensures Partition(sp + 1, st, chains, loose + {st[sp]})
  {
    PopFree(sp, st);
    SplitTake(FreeSet(sp + 1, st), InUse(chains), loose, |st|, st[sp]);
  }

  lemma {:induction false} PopFree(sp: nat, st: seq<int>)
    requires sp < |st| && Distinct(sp, st)
    ensures FreeSet(sp, st) == FreeSet(sp + 1, st) + {st[sp]} && st[sp] !in FreeSet(sp + 1, st)
  {
    var x := st[sp];
    assert st[sp..] == [x] + st[sp + 1..];
  }

  lemma {:induction false} SplitTake(free: set<int>, used: set<int>, loose: set<int>, n: nat, x: int)
    requires Split(free + {x}, used, loose, n) && x !in free
    ensures Split(free, used, loose + {x}, n)
    ensures 0 <= x < n && x !in used && x !in loose
  {
    assert x in Below(n);
    assert x !in (free + {x}) * used;
    assert x !in (free + {x}) * loose;
  }

  // ---------------------------------------------------------------------------
  // Frames: chains do not notice changes outside their own pairs
  // ---------------------------------------------------------------------------

  ghost predicate SameBut<T>(a: seq<T>, b: seq<T>, touched: set<int>) {
    |a| == |b| && forall x | 0 <= x < |a| && x !in touched :: a[x] == b[x]
  }

  lemma {:induction false} StoredFrame(pt: Pairs, pt': Pairs, ch: Chain, touched: set<int>)
    requires Stored(pt, ch) && SameBut(pt, pt', touched)
    requires forall x | x in ch.pairs :: x !in touched
    ensures Stored(pt', ch)
    ensures Backward(pt', ch.pairs) <==> Backward(pt, ch.pairs)
  {
    forall k | 0 <= k < |ch.pairs|
      ensures pt'[ch.pairs[k]] == pt[ch.pairs[k]]
      ensures BackLink(pt', ch.pairs, k) <==> BackLink(pt, ch.pairs, k)
    {
      assert ch.pairs[k] in ch.pairs;
      if k > 0 { assert ch.pairs[k - 1] in ch.pairs; }
    }
  }

  lemma {:induction false} MirrorsFrame(hw: HwPairs, hw': HwPairs, ch: Chain, touched: set<int>)
    requires Members(|hw|, ch.pairs) && |ch.pairs| == |ch.cells| && Mirrors(hw, ch)
    requires SameBut(hw, hw', touched)
    requires forall x | x in ch.pairs :: x !in touched
    ensures Mirrors(hw', ch)
  {
    forall k | 0 <= k < |ch.pairs|
      ensures Mirror(hw'[ch.pairs[k]], ch, k)
    {
      assert ch.pairs[k] in ch.pairs && Mirror(hw[ch.pairs[k]], ch, k);
    }
  }

  lemma {:induction false} AllFrame(pt: Pairs, pt': Pairs, hw: HwPairs, hw': HwPairs, chains: Chains, touched: set<int>)
    requires AllStored(pt, chains) && AllBackward(pt, chains) && AllMirrored(pt, hw, chains)
    requires SameBut(pt, pt', touched) && SameBut(hw, hw', touched)
    requires InUse(chains) * touched == {}
    ensures AllStored(pt', chains) && AllBackward(pt', chains) && AllMirrored(pt', hw', chains)
  {
    forall h | h in chains
      ensures Stored(pt', chains[h]) && Backward(pt', chains[h].pairs) && Mirrors(hw', chains[h])
    {
      forall x | x in chains[h].pairs
        ensures x !in touched
      {
        assert x in InUse(chains);
        assert x !in InUse(chains) * touched;
      }
      StoredFrame(pt, pt', chains[h], touched);
      MirrorsFrame(hw, hw', chains[h], touched);
    }
  }

  /** The loose pairs form a new chain of the new tables; all that decides whether every chain
      is well linked and mirrored is whether this one is. */
  lemma {:induction false} Adopt(sp: nat, st: seq<int>, others: Chains, pt: Pairs, pt': Pairs, hw: HwPairs, hw': HwPairs,
              touched: set<int>, d: Chain)
    requires Partition(sp, st, others, Elements(d.pairs)) && Headed(others)
    requires AllStored(pt, others) && AllBackward(pt, others) && AllMirrored(pt, hw, others)
    requires SameBut(pt, pt', touched) && SameBut(hw, hw', touched)
    requires InUse(others) * touched == {}
    requires Stored(pt', d)
    ensures d.pairs[0] !in others
    ensures var chains := others[d.pairs[0] := d];
            && Partition(sp, st, chains, {}) && Headed(chains) && AllStored(pt', chains)
            && (AllBackward(pt', chains) <==> Backward(pt', d.pairs))
            && (AllMirrored(pt', hw', chains) <==> Mirrors(hw', d))
  {
    AllFrame(pt, pt', hw, hw', others, touched);
    Attach(sp, st, others, d);
    AddChain(pt', hw', others, d);
  }

  lemma {:induction false} AddChain(pt: Pairs, hw: HwPairs, others: Chains, d: Chain)
    requires AllStored(pt, others) && AllBackward(pt, others) && AllMirrored(pt, hw, others)
    requires Stored(pt, d) && d.pairs[0] !in others
    ensures var chains := others[d.pairs[0] := d];
            && AllStored(pt, chains)
            && (AllBackward(pt, chains) <==> Backward(pt, d.pairs))
            && (AllMirrored(pt, hw, chains) <==> Mirrors(hw, d))
  {
    var chains := others[d.pairs[0] := d];
    assert chains[d.pairs[0]] == d;
    forall h | h in chains && h != d.pairs[0]
      ensures Stored(pt, chains[h]) && Backward(pt, chains[h].pairs) && Mirrors(hw, chains[h])
    {
      assert h in others && chains[h] == others[h];
    }
  }
}
