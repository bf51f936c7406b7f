/** Runs of adds and deletes, as the owner of the chains makes them: it knows each chain by the head that the
    last call returned. */
module MllOwner {
  import opened MllChain
  import opened MllSurgery
  import opened MllPool
  import opened MllSteps
  import opened Mll

  datatype Request = AddRequest(pred: int, n: Node) | DelRequest(head: int, n: Node)

  /** What became of a request: the head returned, and whether a node came or went. */
  datatype Outcome = Outcome(r: Request, head: int, took: bool)

  // ---------------------------------------------------------------------------
  // What chains should hold
  // ---------------------------------------------------------------------------

  /** The nodes each head should have. */
  type Ledger = map<int, multiset<Node>>

  /** The ledger after one request. */
  function Posted(l: Ledger, o: Outcome): Ledger {
    if !o.took then l
    else match o.r
      case AddRequest(pred, n) =>
        if pred < 0 then l[o.head := multiset{n}]
        else if pred in l then l[pred := l[pred] + multiset{n}] else l
      case DelRequest(head, n) =>
        if head !in l then l
        else if o.head == CHAIN_GONE then l - {head}
        else (l - {head})[o.head := l[head] - multiset{n}]
  }

  /** What a run has accepted: for each head the nodes added less those deleted. */
  function Balance(log: seq<Outcome>): Ledger {
    if log == [] then map[] else Posted(Balance(log[..|log| - 1]), log[|log| - 1])
  }

  /** Every chain holds what the ledger says. */
  ghost predicate Balanced(chains: Chains, l: Ledger) {
    l.Keys == chains.Keys && forall h | h in chains :: l[h] == multiset(chains[h].Nodes())
  }

  lemma {:induction false} BalancedNew(chains: Chains, l: Ledger, h: int, n: Node)
    requires Balanced(chains, l)
    ensures Balanced(chains[h := Chain([h], [Cell(n, NO_NODE)])], l[h := multiset{n}])
  {
    var ch := Chain([h], [Cell(n, NO_NODE)]);
    OneNode(h, n);
  }

  lemma {:induction false} OneNode(h: int, n: Node)
    ensures Chain([h], [Cell(n, NO_NODE)]).Nodes() == [n]
  {
    FlattenOne(Cell(n, NO_NODE));
  }

  lemma {:induction false} BalancedMore(chains: Chains, l: Ledger, h: int, n: Node, x: int)
    requires Balanced(chains, l) && h in chains && Packed(chains[h].cells) && n.vid != 0
    requires chains[h].pairs != [] && chains[h].pairs[0] == h
    ensures var d := Appended(chains[h], n, x);
            d.pairs != [] && d.pairs[0] == h && Balanced(Replace(chains, h, d), l[h := l[h] + multiset{n}])
  {
    hide Chain.Nodes;
    AppendedNodes(chains[h], n, x);
    AppendedHead(chains[h], n, x);
  }

  lemma {:induction false} AppendedHead(ch: Chain, n: Node, x: int)
    requires ch.cells != [] && ch.pairs != []
    ensures Appended(ch, n, x).pairs != [] && Appended(ch, n, x).pairs[0] == ch.pairs[0]
  {
  }

  lemma {:induction false} BalancedLess(chains: Chains, l: Ledger, h: int, n: Node, d: Chain)
    requires Balanced(chains, l) && h in chains && d.pairs != []
    requires multiset(d.Nodes()) == multiset(chains[h].Nodes()) - multiset{n}
    ensures Balanced(Replace(chains, h, d), (l - {h})[d.pairs[0] := l[h] - multiset{n}])
  {
    hide Chain.Nodes;
  }

  lemma {:induction false} HeadsWith(chains: Chains, h: int, d: Chain)
    ensures chains[h := d].Keys == chains.Keys + {h} && (chains - {h}).Keys == chains.Keys - {h}
    ensures d.pairs != [] ==> Replace(chains, h, d).Keys == chains.Keys - {h} + {d.pairs[0]}
  {
  }

  // ---------------------------------------------------------------------------
  // Requests that the code as written gets wrong
  // ---------------------------------------------------------------------------

  ghost predicate HasRoom(sp: int, size: int, chains: Chains, pred: int) {
    if pred < 0 then sp < size - 1 else pred in chains && (Roomy(chains[pred].cells) || sp < size - 1)
  }

  /** A node of VLAN 0 would be taken in, which no table survives. */
  ghost predicate TakesNull(sp: int, size: int, chains: Chains, r: Request) {
    r.AddRequest? && r.n.vid == 0 && HasRoom(sp, size, chains, r.pred)
  }

  lemma {:induction false} NoNullNode(pt: Pairs, hw: HwPairs, ch: Chain, n: Node)
    requires ChainOk(pt, hw, ch) && n.vid == 0
    ensures n !in ch.Nodes()
  {
    FlattenHas(ch.cells, n);
  }

  /** An append with the pool exhausted, a delete that is case 8, or one that is case 10 on more than two
      pairs. */
  ghost predicate Harms(sp: int, size: int, chains: Chains, r: Request) {
    match r
    case AddRequest(pred, n) =>
      pred >= 0 && pred in chains && !Roomy(chains[pred].cells) && sp >= size - 1
    case DelRequest(head, n) =>
      head in chains && exists k :: HarmsAt(chains[head], n, k)
  }

  ghost predicate HarmsAt(ch: Chain, n: Node, k: nat) {
    && FirstWith(ch.cells, n, k) && |ch.pairs| == |ch.cells|
    && (MissesBackLink(ch, k, ch.cells[k].first == n) || MisdirectsHead(ch, k, ch.cells[k].first == n))
  }

  lemma {:induction false} FirstWithUnique(cells: seq<Cell>, n: Node, j: nat, k: nat)
    requires FirstWith(cells, n, j) && FirstWith(cells, n, k)
    ensures j == k
  {
  }

  /** Whether a request is one of those, by looking at the table. */
  method Harmful(t: MllTable, r: Request, heads: set<int>) returns (bad: bool)
    requires t.Valid() && heads == t.chains.Keys
    ensures bad <==> Harms(t.sp, t.st.Length, t.chains, r)
  {
    hide Sound, Soft, ChainOk, AllBackward, AllMirrored, AllStored, Partition, Headed, Stored;
    match r {
      case AddRequest(pred, n) =>
        if pred < 0 || pred !in heads {
          return false;
        }
        TailFacts(t.sp, t.st[..], t.chains, t.pt[..], t.hw[..], pred);
        var last := t.FindLastPair(pred, t.chains[pred], 0);
        bad := t.pt[last].cell.second.vid != 0 && t.sp >= t.st.Length - 1;
      case DelRequest(head, n) =>
        if head !in heads {
          return false;
        }
        if n.vid == 0 {
          TailFacts(t.sp, t.st[..], t.chains, t.pt[..], t.hw[..], head);
          NoNullNode(t.pt[..], t.hw[..], t.chains[head], n);
          NothingHarms(t.chains[head], n);
          return false;
        }
        bad := HarmfulDelete(t, head, n);
    }
  }

  /** Whether a request would take in a node of VLAN 0. */
  method Null(t: MllTable, r: Request, heads: set<int>) returns (bad: bool)
    requires t.Valid() && heads == t.chains.Keys
    ensures bad <==> TakesNull(t.sp, t.st.Length, t.chains, r)
  {
    hide Sound, Soft, ChainOk, AllBackward, AllMirrored, AllStored, Partition, Headed, Stored;
    if r.DelRequest? || r.n.vid != 0 {
      return false;
    }
    if r.pred < 0 {
      return t.sp < t.st.Length - 1;
    }
    if r.pred !in heads {
      return false;
    }
    TailFacts(t.sp, t.st[..], t.chains, t.pt[..], t.hw[..], r.pred);
    HeadFacts(t.sp, t.st[..], t.chains, t.pt[..], t.hw[..], r.pred);
    var last := t.FindLastPair(r.pred, t.chains[r.pred], 0);
    bad := t.pt[last].cell.second.vid == 0 || t.sp < t.st.Length - 1;
  }

  method HarmfulDelete(t: MllTable, head: int, n: Node) returns (bad: bool)
    requires t.Valid() && head in t.chains && n.vid != 0
    ensures bad <==> exists k :: HarmsAt(t.chains[head], n, k)
  {
    hide Sound, Soft, ChainOk, AllBackward, AllMirrored, AllStored, Partition, Headed, Stored, Chain.Nodes;
    ghost var ch := t.chains[head];
    TailFacts(t.sp, t.st[..], t.chains, t.pt[..], t.hw[..], head);
    FindFacts(t.pt[..], ch, n);
    var idx, k := t.FindPair(head, n, ch);
    if idx == -1 {
      NothingHarms(ch, n);
      return false;
    }
    CellFacts(t.pt[..], t.hw[..], ch, k);
    CellFacts(t.pt[..], t.hw[..], ch, |ch.pairs| - 1);
    HarmsOnce(ch, n, k);
    var last := t.FindLastPair(idx, ch, k);
    var complete := t.pt[last].cell.second.vid != 0;
    if t.pt[idx].succ < 0 {
      return false;
    }
    InnerFacts(t.pt[..], t.hw[..], ch, k);
    if t.pt[idx].cell.first == n {
      bad := t.pt[idx].pred >= 0 && !complete;
    } else {
      CellFacts(t.pt[..], t.hw[..], ch, k + 1);
      bad := t.pt[idx].pred < 0 && complete && t.pt[t.pt[idx].succ].succ >= 0;
    }
  }

  lemma {:induction false} NothingHarms(ch: Chain, n: Node)
    requires n !in ch.Nodes()
    ensures forall k :: !HarmsAt(ch, n, k)
  {
    FlattenHas(ch.cells, n);
  }

  lemma {:induction false} HarmsOnce(ch: Chain, n: Node, k: nat)
    requires FirstWith(ch.cells, n, k)
    ensures (exists j :: HarmsAt(ch, n, j)) <==> HarmsAt(ch, n, k)
  {
    forall j | HarmsAt(ch, n, j)
      ensures j == k
    {
      FirstWithUnique(ch.cells, n, j, k);
    }
  }

  // ---------------------------------------------------------------------------
  // Runs
  // ---------------------------------------------------------------------------

  lemma {:induction false} LedgerKeys(chains: Chains, l: Ledger)
    requires Balanced(chains, l)
    ensures forall h | h in chains :: h in l && l[h] == multiset(chains[h].Nodes())
    ensures forall h :: h in l <==> h in chains
  {
  }

  lemma {:induction false} HeadFacts(sp: int, st: seq<int>, chains: Chains, pt: Pairs, hw: HwPairs, h: int)
    requires Sound(sp, st, chains, pt, hw) && h in chains
    ensures chains[h].pairs != [] && chains[h].pairs[0] == h && Packed(chains[h].cells) && chains[h].cells != []
  {
  }

  method ServeAdd(t: MllTable, pred: int, n: Node, was: set<int>, ghost l: Ledger)
    returns (heads: set<int>, h: int, ghost took: bool)
    requires t.Valid() && was == t.chains.Keys && Balanced(t.chains, l)
    requires t.repaired || !Harms(t.sp, t.st.Length, t.chains, AddRequest(pred, n))
    requires !TakesNull(t.sp, t.st.Length, t.chains, AddRequest(pred, n))
    modifies t, t.st, t.pt, t.hw
    ensures t.Valid() && heads == t.chains.Keys
    ensures took <==> HasRoom(old(t.sp), t.st.Length, old(t.chains), pred)
    ensures Balanced(t.chains, Posted(l, Outcome(AddRequest(pred, n), h, took)))
  {
    hide Sound, Soft, ChainOk, AllBackward, AllMirrored, AllStored, Partition, Stored, Headed, Appended, Balanced;
    hide Chain.Nodes, Packed;
    heads, h, took := was, -1, false;
    if pred >= 0 && pred !in heads {
      return;
    }
    SoundAgain(t.sp, t.st[..], t.chains, t.pt[..], t.hw[..]);
    LedgerKeys(t.chains, l);
    ghost var start, x := t.chains, t.st[t.sp];
    took := HasRoom(t.sp, t.st.Length, t.chains, pred);
    if pred in t.chains {
      HeadFacts(t.sp, t.st[..], t.chains, t.pt[..], t.hw[..], pred);
      GrownHead(t.sp, t.st[..], t.chains, t.pt[..], t.hw[..], pred, n, x);
      if n.vid != 0 { BalancedMore(start, l, pred, n, x); }
    }
    h := t.AddNode(pred, n);
    SoundAgain(t.sp, t.st[..], t.chains, t.pt[..], t.hw[..]);
    if pred < 0 && h != -1 {
      HeadsWith(start, h, Chain([h], [Cell(n, NO_NODE)]));
      BalancedNew(start, l, h, n);
      heads := heads + {h};
    }
  }

  method ServeDelete(t: MllTable, head: int, n: Node, was: set<int>, ghost l: Ledger)
    returns (heads: set<int>, h: int, ghost took: bool)
    requires t.Valid() && was == t.chains.Keys && Balanced(t.chains, l)
    requires t.repaired || !Harms(t.sp, t.st.Length, t.chains, DelRequest(head, n))
    modifies t, t.st, t.pt, t.hw
    ensures t.Valid() && heads == t.chains.Keys
    ensures took <==> head in l && n in l[head]
    ensures Balanced(t.chains, Posted(l, Outcome(DelRequest(head, n), h, took)))
  {
    hide Sound, Soft, ChainOk, AllBackward, AllMirrored, AllStored, Partition, Stored, Headed, Appended, Balanced;
    hide Chain.Nodes, Packed, Replace, Deleted, MissesBackLink, MisdirectsHead;
    heads, h, took := was, NOT_FOUND, false;
    LedgerKeys(t.chains, l);
    if head !in heads {
      return;
    }
    ghost var start, ch := t.chains, t.chains[head];
    TailFacts(t.sp, t.st[..], t.chains, t.pt[..], t.hw[..], head);
    if n.vid == 0 { NoNullNode(t.pt[..], t.hw[..], ch, n); }
    ghost var k;
    h, k := t.DelNode(head, n);
    took := n in ch.Nodes();
    if took {
      HarmsOnce(ch, n, k);
      ghost var d := Deleted(ch, k, ch.cells[k].first == n);
      HeadsWith(start, head, d);
      if d.pairs != [] { BalancedLess(start, l, head, n, d); } else { BalancedGone(start, l, head); }
    }
    SoundAgain(t.sp, t.st[..], t.chains, t.pt[..], t.hw[..]);
    if h == CHAIN_GONE {
      heads := heads - {head};
    } else if h != NOT_FOUND {
      heads := heads - {head} + {h};
    }
  }

  lemma {:induction false} BalancedGone(chains: Chains, l: Ledger, h: int)
    requires Balanced(chains, l)
    ensures Balanced(chains - {h}, l - {h})
  {
  }

  /** Any run of adds and deletes, up to the first request that the code as written gets wrong or that would
      take in a node of VLAN 0: every chain stays packed, linked both ways and mirrored, no pair is lost, and
      each chain holds exactly what was accepted for its head.  In the repaired code only the latter stops it. */
  method Run(t: MllTable, rs: seq<Request>) returns (heads: set<int>, done: nat, ghost log: seq<Outcome>)
    requires t.Valid() && t.chains == map[]
    modifies t, t.st, t.pt, t.hw
    ensures t.Valid() && heads == t.chains.Keys && Balanced(t.chains, Balance(log))
    ensures |log| == done <= |rs| && forall i | 0 <= i < done :: log[i].r == rs[i]
    ensures forall i | 0 <= i < done && rs[i].DelRequest? :: log[i].took <==> Held(Balance(log[..i]), rs[i])
    ensures done < |rs| ==>
              || TakesNull(t.sp, t.st.Length, t.chains, rs[done])
              || (!t.repaired && Harms(t.sp, t.st.Length, t.chains, rs[done]))
  {
    hide Sound, Harms, TakesNull, Balanced, Posted;
    heads, done, log := {}, 0, [];
    BalancedNone();
    while done < |rs|
      invariant t.Valid() && heads == t.chains.Keys && Balanced(t.chains, Balance(log))
      invariant |log| == done <= |rs| && forall i | 0 <= i < done :: log[i].r == rs[i]
      invariant forall i | 0 <= i < done && rs[i].DelRequest? :: log[i].took <==> Held(Balance(log[..i]), rs[i])
    {
      var none := Null(t, rs[done], heads);
      if none {
        return;
      }
      if !t.repaired {
        var bad := Harmful(t, rs[done], heads);
        if bad {
          return;
        }
      }
      var h: int;
      ghost var took, was := false, log;
      match rs[done] {
        case AddRequest(pred, n) => heads, h, took := ServeAdd(t, pred, n, heads, Balance(log));
        case DelRequest(head, n) => heads, h, took := ServeDelete(t, head, n, heads, Balance(log));
      }
      log := log + [Outcome(rs[done], h, took)];
      assert log[..done] == was;
      forall i | 0 <= i < done
        ensures log[..i] == was[..i]
      {
      }
      done := done + 1;
    }
  }

  /** The ledger has the node that a delete names. */
  predicate Held(l: Ledger, r: Request)
    requires r.DelRequest?
  {
    r.head in l && r.n in l[r.head]
  }

  lemma {:induction false} BalancedNone()
    ensures Balanced(map[], Balance([]))
  {
  }
}
