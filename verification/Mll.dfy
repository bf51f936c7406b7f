/** The multicast linked list manager: a stack of free pair indices, the software pair table
    and the hardware pair table, all updated in place. */
module Mll {
  import opened MllChain
  import opened MllSurgery
  import opened MllPool
  import opened MllSteps

  /** What to do with a hardware `last` flag. */
  datatype Flag = Keep | Set | Reset

  /** What to do with the tail of the chain when a pair is modified. */
  datatype TailCommand =
    | NoTail
    | FirstToTail(last: int)
    | SecondToTail(last: int)
    | LinkTail(last: int)

  /** The results of a delete that are not a head index. */
  const CHAIN_GONE := -2
  const NOT_FOUND := -3

  function Flagged(n: HwNode, f: Flag): HwNode {
    match f
    case Keep => n
    case Set => n.(last := true)
    case Reset => n.(last := false)
  }

  /** The pair that a modification computes before writing anything. */
  function Modified(p: HwPair, flag1: Flag, flag2: Flag, copySecond: bool, next: int): HwPair {
    HwPair(Flagged(if copySecond then p.second else p.first, flag1),
           Flagged(p.second, flag2),
           if next == -1 then p.next else next)
  }

  /** The hardware table after a modification of pair `idx`; a tail command names another pair. */
  function ModifyChain(hw: HwPairs, idx: int, flag1: Flag, flag2: Flag, copySecond: bool, next: int,
                       tail: TailCommand): HwPairs
    requires 0 <= idx < |hw|
    requires !tail.NoTail? ==> 0 <= tail.last < |hw|
  {
    var p := Modified(hw[idx], flag1, flag2, copySecond, next);
    match tail
    case NoTail => hw[idx := p]
    case FirstToTail(l) =>
      hw[l := hw[l].(first := hw[l].first.(last := false), second := p.first.(last := true))]
    case SecondToTail(l) =>
      hw[l := hw[l].(first := hw[l].first.(last := false), second := p.second.(last := true))]
    case LinkTail(l) =>
      hw[idx := p][l := hw[l].(next := idx, second := hw[l].second.(last := false))]
  }

  lemma {:induction false} ChainSize(pt: Pairs, hw: HwPairs, ch: Chain)
    requires ChainOk(pt, hw, ch)
    ensures |ch.pairs| == (|ch.Nodes()| + 1) / 2
  {
    PackedSize(ch.cells);
  }

  lemma {:induction false} PairsOut(sp: int, st: seq<int>, chains: Chains, pt: Pairs, hw: HwPairs)
    requires Sound(sp, st, chains, pt, hw)
    ensures |InUse(chains)| == sp
  {
    hide Partition, InUse;
    Conservation(sp, st, chains, {});
    assert InUse(chains) + {} == InUse(chains);
  }

  /** What a sound table gives for every live chain: the software table, walked forwards or backwards,
      and the hardware table hold the same nodes, in exactly as many pairs as they need; and over all
      chains as many pairs are out as the stack pointer says. */
  lemma {:induction false} Healthy(sp: int, st: seq<int>, chains: Chains, pt: Pairs, hw: HwPairs, h: int)
    requires Sound(sp, st, chains, pt, hw) && h in chains
    ensures |InUse(chains)| == sp
    ensures var ch := chains[h];
            && ch.pairs != [] && ch.pairs[0] == h && |ch.pairs| == (|ch.Nodes()| + 1) / 2
            && WalkTable(pt, h, |pt|) == WalkHardware(hw, h, |hw|) == ch.Nodes()
            && WalkBack(pt, ch.pairs[|ch.pairs| - 1], |pt|) == ch.pairs
  {
    hide Sound, ChainOk, Partition, InUse, WalkTable, WalkHardware, WalkBack, Chain.Nodes;
    TailFacts(sp, st, chains, pt, hw, h);
    WalksAgree(pt, hw, chains[h]);
    ChainSize(pt, hw, chains[h]);
    PairsOut(sp, st, chains, pt, hw);
  }

  lemma {:induction false} SoundAgain(sp: int, st: seq<int>, chains: Chains, pt: Pairs, hw: HwPairs)
    requires Sound(sp, st, chains, pt, hw) ||
             (Soft(sp, st, chains, pt, hw) && AllBackward(pt, chains) && AllMirrored(pt, hw, chains))
    ensures Sound(sp, st, chains, pt, hw) && 0 <= sp < |st|
    ensures forall h | h in chains :: h >= 0
  {
    forall h | h in chains
      ensures h >= 0
    {
      TailFacts(sp, st, chains, pt, hw, h);
      assert ChainOk(pt, hw, chains[h]);
    }
  }

  /** A chain that grows keeps its head. */
  lemma {:induction false} GrownHead(sp: int, st: seq<int>, chains: Chains, pt: Pairs, hw: HwPairs, h: int, n: Node, x: int)
    requires Sound(sp, st, chains, pt, hw) && h in chains
    ensures var d := Appended(chains[h], n, x);
            d.pairs != [] && d.pairs[0] == h && Replace(chains, h, d).Keys == chains.Keys
  {
    TailFacts(sp, st, chains, pt, hw, h);
  }

  class MllTable {
    /** False: the code as written.  True: with the back link of case 8 written as in case 13,
        the extra write of case 10 left out, and a failed pair allocation not linked. */
    const repaired: bool

    var sp: nat
    const st: array<int>
    const pt: array<Pair>
    const hw: array<HwPair>

    /** The live chains by head. */
    ghost var chains: Chains

    /** Pool and chain contents; what every operation keeps whatever its inputs. */
    ghost predicate SoftValid()
      reads this, st, pt, hw
    {
      Soft(sp, st[..], chains, pt[..], hw[..])
    }

    ghost predicate LinksValid()
      requires SoftValid()
      reads this, st, pt, hw
    {
      AllBackward(pt[..], chains)
    }

    ghost predicate HardwareValid()
      requires SoftValid()
      reads this, st, pt, hw
    {
      AllMirrored(pt[..], hw[..], chains)
    }

    ghost predicate Valid()
      reads this, st, pt, hw
    {
      Sound(sp, st[..], chains, pt[..], hw[..])
    }

    /** No chains at all make this table sound. */
    ghost predicate Ruined()
      reads this, st, pt, hw
    {
      NeverSound(sp, st[..], pt[..], hw[..])
    }

    constructor (size: nat, repaired: bool)
      requires size > 0
      ensures Valid() && chains == map[] && sp == 0 && this.repaired == repaired
      ensures st.Length == pt.Length == size && fresh(st) && fresh(pt) && fresh(hw)
    {
      hide Sound, Soft, Partition;
      this.repaired := repaired;
      sp := 0;
      chains := map[];
      var st' := new int[size];
      for i := 0 to size
        invariant forall k | 0 <= k < i :: st'[k] == k
      {
        st'[i] := i;
      }
      var pt' := new Pair[size];
      for i := 0 to size
        invariant forall k | 0 <= k < size :: st'[k] == k
        invariant forall k | 0 <= k < i :: pt'[k] == NULL_PAIR
      {
        pt'[i] := NULL_PAIR;
      }
      st, pt, hw := st', pt', new HwPair[size];
      new;
      InitialState(st[..], pt[..], hw[..]);
    }

    // -------------------------------------------------------------------------
    // The stack of free indices
    // -------------------------------------------------------------------------

    method Get() returns (ix: int)
      requires sp < st.Length
      modifies `sp
      ensures old(sp) >= st.Length - 1 ==> ix == -1 && sp == old(sp)
      ensures old(sp) < st.Length - 1 ==> ix == st[old(sp)] && sp == old(sp) + 1
    {
      if sp >= st.Length - 1 {
        return -1;
      }
      ix := st[sp];
      sp := sp + 1;
    }

    method Put(ix: int) returns (rc: int)
      requires sp <= st.Length
      modifies `sp, st
      ensures old(sp) == 0 ==> rc == -1 && sp == 0 && st[..] == old(st[..])
      ensures old(sp) > 0 ==> rc == 0 && sp == old(sp) - 1 && st[..] == old(st[..])[sp := ix]
    {
      if sp == 0 {
        return -1;
      }
      sp := sp - 1;
      st[sp] := ix;
      rc := 0;
    }

    // -------------------------------------------------------------------------
    // Adding
    // -------------------------------------------------------------------------

    /** A new pair holding one node, not yet linked from anywhere; -1 if the pool is exhausted,
        which it is with one pair still unused. */
    method CreatePair(pred: int, n: Node) returns (idx: int)
      requires 0 <= sp < st.Length == pt.Length == hw.Length
      requires 0 <= st[sp] < pt.Length
      modifies `sp, pt, hw
      ensures old(sp) >= st.Length - 1 ==>
                idx == -1 && sp == old(sp) && pt[..] == old(pt[..]) && hw[..] == old(hw[..])
      ensures old(sp) < st.Length - 1 ==>
                && idx == st[old(sp)] && sp == old(sp) + 1
                && pt[..] == old(pt[..])[idx := Pair(pred, -1, Cell(n, NO_NODE))]
                && hw[..] == old(hw[..])[idx := HwPair(HwNode(n, true), HwNode(n, true), 0)]
    {
      idx := Get();
      if idx == -1 {
        return;
      }
      var h := HwNode(n, true);
      hw[idx] := HwPair(h, h, 0);
      pt[idx] := Pair(pred, -1, Cell(n, NO_NODE));
    }

    /** Links pair `succ` behind pair `pred`. */
    method SetNextPair(pred: int, succ: int)
      requires 0 <= pred < pt.Length == hw.Length
      modifies pt, hw
      ensures pt[..] == old(pt[..])[pred := old(pt[pred]).(succ := succ)]
      ensures hw[..] == old(hw[..])[pred := old(hw[pred]).(second := old(hw[pred]).second.(last := false), next := succ)]
    {
      var p := hw[pred];
      p := p.(second := p.second.(last := false));
      p := p.(next := succ);
      pt[pred] := pt[pred].(succ := succ);
      hw[pred] := p;
    }

    method InsertSecondNode(pair: int, n: Node)
      requires 0 <= pair < pt.Length == hw.Length
      modifies pt, hw
      ensures pt[..] == old(pt[..])[pair := old(pt[pair]).(cell := Cell(old(pt[pair]).cell.first, n))]
      ensures hw[..] == old(hw[..])[pair := HwPair(old(hw[pair]).first.(last := false), HwNode(n, true), old(hw[pair]).next)]
    {
      var p := hw[pair];
      p := p.(second := p.first);
      p := p.(first := p.first.(last := false));
      p := p.(second := HwNode(n, true));
      hw[pair] := p;
      pt[pair] := pt[pair].(cell := pt[pair].cell.(second := n));
    }

    method FindLastPair(head: int, ghost ch: Chain, ghost k: nat) returns (cur: int)
      requires Stored(pt[..], ch) && k < |ch.pairs| && ch.pairs[k] == head
      ensures cur == ch.pairs[|ch.pairs| - 1]
    {
      cur := head;
      ghost var j := k;
      while true
        invariant k <= j < |ch.pairs| && cur == ch.pairs[j]
        decreases |ch.pairs| - j
      {
        assert pt[..][ch.pairs[j]].succ == Next(ch.pairs, j);
        if pt[cur].succ == -1 {
          return;
        }
        cur := pt[cur].succ;
        j := j + 1;
      }
    }

    /** The tail `last` of the chain of `head` is full: a new pair goes behind it.  When the pool is
        exhausted the node is lost, and the code as written cuts the hardware chain loose from
        its end.  A node of VLAN 0, the mark of an empty second node, ruins the table. */
    method AppendPair(head: int, last: int, n: Node)
      requires Valid() && head in chains
      requires last == chains[head].pairs[|chains[head].pairs| - 1]
      requires !chains[head].cells[|chains[head].cells| - 1].Single()
      modifies this, pt, hw
      ensures old(sp) < st.Length - 1 && n.vid != 0 ==>
                Valid() && chains == Replace(old(chains), head, Appended(old(chains)[head], n, st[old(sp)]))
      ensures old(sp) < st.Length - 1 && n.vid == 0 ==> Ruined() && chains == old(chains)
      ensures old(sp) >= st.Length - 1 ==>
                && chains == old(chains) && sp == old(sp) && st[..] == old(st[..])
                && SoftValid() && LinksValid() && (HardwareValid() <==> repaired)
    {
      hide Sound, Soft, AllStored, ChainOk, AllBackward, AllMirrored;
      ghost var pt0, hw0 := pt[..], hw[..];
      TailFacts(sp, st[..], chains, pt0, hw0, head);
      AppendedStart(sp, st[..], chains, pt0, hw0, head);
      var x := CreatePair(last, n);
      if x != -1 || !repaired {
        SetNextPair(last, x);
      }
      if x != -1 && n.vid == 0 {
        TakenOut(old(sp), st[..], chains, pt0, hw0);
        RuinedBy(sp, st[..], pt[..], hw[..], x);
      } else if x != -1 {
        AppendedPair(old(sp), st[..], chains, pt0, pt[..], hw0, hw[..], head, n);
        chains := Replace(chains, head, Appended(chains[head], n, x));
      } else if !repaired {
        AppendedLost(sp, st[..], chains, pt0, pt[..], hw0, hw[..], head);
      } else {
        SoundParts(sp, st[..], chains, pt0, hw0);
      }
    }

    /** The tail `last` of the chain of `head` has room for the node. */
    method AppendCell(head: int, last: int, n: Node)
      requires Valid() && head in chains
      requires last == chains[head].pairs[|chains[head].pairs| - 1]
      requires chains[head].cells[|chains[head].cells| - 1].Single()
      modifies this, pt, hw
      ensures sp == old(sp)
      ensures n.vid != 0 ==>
                Valid() && chains == Replace(old(chains), head, Appended(old(chains)[head], n, st[sp]))
      ensures n.vid == 0 ==> Ruined() && chains == old(chains)
    {
      hide Sound, ChainOk, NeverSound;
      ghost var pt0, hw0 := pt[..], hw[..];
      TailFacts(sp, st[..], chains, pt0, hw0, head);
      InsertSecondNode(last, n);
      if n.vid == 0 {
        TailInUse(sp, st[..], chains, pt0, hw0, head);
        RuinedBy(sp, st[..], pt[..], hw[..], last);
        return;
      }
      AppendedFull(sp, st[..], chains, pt0, pt[..], hw0, hw[..], head, n);
      chains := Replace(chains, head, Appended(chains[head], n, st[sp]));
    }

    method AppendNode(head: int, n: Node)
      requires Valid() && head in chains
      modifies this, pt, hw
      ensures Stored(old(pt[..]), old(chains)[head])
      ensures var ch := old(chains)[head];
              if ch.cells[|ch.cells| - 1].Single() || old(sp) < st.Length - 1 then
                if n.vid == 0 then Ruined() && chains == old(chains)
                else Valid() && chains == Replace(old(chains), head, Appended(ch, n, st[old(sp)]))
              else
                && chains == old(chains) && sp == old(sp) && st[..] == old(st[..])
                && SoftValid() && LinksValid() && (HardwareValid() <==> repaired)
    {
      hide Sound, Soft, AllStored, ChainOk, AllBackward, AllMirrored;
      TailFacts(sp, st[..], chains, pt[..], hw[..], head);
      var last := FindLastPair(head, chains[head], 0);
      if pt[last].cell.second.vid == 0 {
        AppendCell(head, last, n);
      } else {
        AppendPair(head, last, n);
      }
    }

    /** Adds a node to the chain of `pred`, or starts a chain if `pred` is negative.  Where there is room the
        table stays sound if and only if the node's VLAN is not zero. */
    method AddNode(pred: int, n: Node) returns (r: int)
      requires Valid() && (pred < 0 || pred in chains)
      modifies this, pt, hw
      ensures pred < 0 && old(sp) >= st.Length - 1 ==> r == -1 && Valid() && chains == old(chains)
      ensures pred < 0 && old(sp) < st.Length - 1 && n.vid == 0 ==> Ruined() && chains == old(chains)
      ensures pred < 0 && old(sp) < st.Length - 1 && n.vid != 0 ==>
                Valid() && r !in old(chains) && chains == old(chains)[r := Chain([r], [Cell(n, NO_NODE)])]
      ensures pred >= 0 ==>
                && Stored(old(pt[..]), old(chains)[pred]) && r == pred
                && var ch := old(chains)[pred];
                   if ch.cells[|ch.cells| - 1].Single() || old(sp) < st.Length - 1 then
                     if n.vid == 0 then Ruined() && chains == old(chains)
                     else Valid() && chains == Replace(old(chains), pred, Appended(ch, n, st[old(sp)]))
                   else
                     && chains == old(chains) && sp == old(sp) && st[..] == old(st[..])
                     && SoftValid() && LinksValid() && (HardwareValid() <==> repaired)
    {
      hide Sound, Soft, AllStored, ChainOk, AllBackward, AllMirrored, Stored, NeverSound;
      if pred < 0 {
        ghost var pt0, hw0 := pt[..], hw[..];
        FreshStart(sp, st[..], chains, pt0, hw0);
        r := CreatePair(pred, n);
        if r != -1 && n.vid == 0 {
          TakenOut(old(sp), st[..], chains, pt0, hw0);
          RuinedBy(sp, st[..], pt[..], hw[..], r);
        } else if r != -1 {
          FreshChain(old(sp), st[..], chains, pt0, pt[..], hw0, hw[..], pred, n);
          chains := chains[r := Chain([r], [Cell(n, NO_NODE)])];
        }
      } else {
        AppendNode(pred, n);
        r := pred;
      }
    }

    // -------------------------------------------------------------------------
    // Deleting
    // -------------------------------------------------------------------------

    /** The first pair of the chain of `head` that holds the node, or -1.  The null node is found in the empty
        half of a tail. */
    method FindPair(head: int, n: Node, ghost ch: Chain) returns (cur: int, ghost k: nat)
      requires Stored(pt[..], ch) && ch.pairs[0] == head
      ensures n.vid != 0 && n !in ch.Nodes() ==> cur == -1
      ensures n.vid != 0 && n in ch.Nodes() ==> FirstWith(ch.cells, n, k) && cur == ch.pairs[k]
      ensures n.vid == 0 && !IsHole(ch, n) ==> cur == -1
      ensures n.vid == 0 && IsHole(ch, n) ==> k == |ch.pairs| - 1 && cur == ch.pairs[k]
    {
      hide Flatten;
      FlattenHas(ch.cells, n);
      cur := head;
      k := 0;
      while pt[cur].cell.first != n && pt[cur].cell.second != n
        invariant k < |ch.pairs| && cur == ch.pairs[k]
        invariant n.vid != 0 ==> forall i | 0 <= i < k :: n !in ch.cells[i].Nodes()
        decreases |ch.pairs| - k
      {
        assert pt[..][cur].cell == ch.cells[k] && pt[..][cur].succ == Next(ch.pairs, k);
        if pt[cur].succ == -1 {
          return -1, k;
        }
        cur := pt[cur].succ;
        k := k + 1;
      }
      assert pt[..][cur].cell == ch.cells[k];
      assert n.vid != 0 ==> n in ch.cells[k].Nodes();
    }

    method PairModifyChain(idx: int, flag1: Flag, flag2: Flag, copySecond: bool, next: int, tail: TailCommand)
      requires 0 <= idx < hw.Length
      requires !tail.NoTail? ==> 0 <= tail.last < hw.Length && tail.last != idx
      modifies hw
      ensures hw[..] == ModifyChain(old(hw[..]), idx, flag1, flag2, copySecond, next, tail)
    {
      var p := hw[idx];
      if copySecond {
        p := p.(first := p.second);
      }
      p := p.(first := Flagged(p.first, flag1));
      p := p.(second := Flagged(p.second, flag2));
      if next != -1 {
        p := p.(next := next);
      }
      match tail {
        case NoTail =>
          hw[idx] := p;
        case FirstToTail(last) =>
          var l := hw[last];
          hw[last] := l.(first := l.first.(last := false), second := p.first.(last := true));
        case SecondToTail(last) =>
          var l := hw[last];
          hw[last] := l.(first := l.first.(last := false), second := p.second.(last := true));
        case LinkTail(last) =>
          var l := hw[last];
          hw[idx] := p;
          hw[last] := l.(next := idx, second := l.second.(last := false));
      }
    }

    /** Case 2. */
    method DropIncompleteTail(idx: int, ghost ch: Chain)
      requires ChainOk(pt[..], hw[..], ch) && |ch.pairs| > 1 && idx == ch.pairs[|ch.pairs| - 1]
      requires 0 < sp <= st.Length
      modifies `sp, st, pt, hw
      ensures sp == old(sp) - 1 && st[..] == old(st[..])[sp := idx]
      ensures var w := ch.pairs[|ch.pairs| - 2];
              && 0 <= idx < pt.Length && 0 <= w < pt.Length && w < hw.Length
              && pt[..] == old(pt[..])[idx := NULL_PAIR][w := old(pt[w]).(succ := -1)]
              && hw[..] == old(hw[..])[w := old(hw[w]).(second := old(hw[w]).second.(last := true))]
    {
      hide ChainOk;
      CellFacts(pt[..], hw[..], ch, |ch.pairs| - 1);
      var w := pt[idx].pred;
      PairModifyChain(w, Keep, Set, false, -1, NoTail);
      pt[idx] := NULL_PAIR;
      var _ := Put(idx);
      pt[w] := pt[w].(succ := -1);
    }

    /** Cases 3, 6 and 9: the tail keeps its other node. */
    method ShrinkCompleteTail(idx: int, deleteFirst: bool, ghost ch: Chain)
      requires ChainOk(pt[..], hw[..], ch) && ch.pairs != [] && idx == ch.pairs[|ch.pairs| - 1]
      requires deleteFirst ==> !ch.cells[|ch.cells| - 1].Single()
      modifies pt, hw
      ensures var keep := ch.cells[|ch.cells| - 1].Other(deleteFirst);
              && 0 <= idx < pt.Length && idx < hw.Length
              && pt[..] == old(pt[..])[idx := old(pt[idx]).(cell := Cell(keep, NO_NODE))]
              && hw[..] == old(hw[..])[idx := old(hw[idx]).(first := HwNode(keep, true))]
    {
      hide ChainOk;
      CellFacts(pt[..], hw[..], ch, |ch.pairs| - 1);
      if deleteFirst {
        PairModifyChain(idx, Set, Keep, true, -1, NoTail);
        pt[idx] := pt[idx].(cell := pt[idx].cell.(first := pt[idx].cell.second));
        pt[idx] := pt[idx].(cell := pt[idx].cell.(second := NO_NODE));
      } else {
        PairModifyChain(idx, Set, Keep, false, -1, NoTail);
        pt[idx] := pt[idx].(cell := pt[idx].cell.(second := NO_NODE));
      }
    }

    /** Case 4. */
    method RotateHeadFirst(idx: int, last: int, ghost ch: Chain) returns (newHead: int)
      requires ChainOk(pt[..], hw[..], ch) && Rotates(ch, 0)
      requires idx == ch.pairs[0] && last == ch.pairs[|ch.pairs| - 1]
      modifies pt, hw
      ensures newHead == ch.pairs[1]
      ensures IsRotate(old(pt[..]), pt[..], ch.pairs, 0, ch.cells[0].second)
      ensures IsRotateHw(old(hw[..]), hw[..], ch.pairs, 0, ch.cells[0].second)
    {
      hide ChainOk;
      CellFacts(pt[..], hw[..], ch, 0);
      InnerFacts(pt[..], hw[..], ch, 0);
      PairModifyChain(idx, Set, Keep, true, -1, LinkTail(last));
      pt[idx] := pt[idx].(cell := Cell(pt[idx].cell.second, NO_NODE));
      var succ := pt[idx].succ;
      pt[succ] := pt[succ].(pred := pt[idx].pred);
      newHead := pt[idx].succ;
      pt[idx] := pt[idx].(succ := -1);
      pt[last] := pt[last].(succ := idx);
      pt[idx] := pt[idx].(pred := last);
    }

    /** Case 7. */
    method RotateFirst(idx: int, last: int, ghost ch: Chain, ghost k: nat)
      requires ChainOk(pt[..], hw[..], ch) && Rotates(ch, k) && 0 < k
      requires idx == ch.pairs[k] && last == ch.pairs[|ch.pairs| - 1]
      modifies pt, hw
      ensures IsRotate(old(pt[..]), pt[..], ch.pairs, k, ch.cells[k].second)
      ensures IsRotateHw(old(hw[..]), hw[..], ch.pairs, k, ch.cells[k].second)
    {
      hide ChainOk;
      CellFacts(pt[..], hw[..], ch, k);
      InnerFacts(pt[..], hw[..], ch, k);
      var w := pt[idx].pred;
      var succ := pt[idx].succ;
      PairModifyChain(w, Keep, Keep, false, succ, NoTail);
      pt[w] := pt[w].(succ := succ);
      pt[succ] := pt[succ].(pred := w);
      PairModifyChain(idx, Set, Keep, true, -1, NoTail);
      pt[idx] := pt[idx].(cell := Cell(pt[idx].cell.second, NO_NODE));
      pt[idx] := pt[idx].(succ := -1);
      PairModifyChain(last, Keep, Reset, false, idx, NoTail);
      pt[last] := pt[last].(succ := idx);
      pt[idx] := pt[idx].(pred := last);
    }

    /** Case 10.  The code as written redirects the new head in hardware first. */
    method RotateHeadSecond(idx: int, last: int, ghost ch: Chain) returns (newHead: int)
      requires ChainOk(pt[..], hw[..], ch) && Rotates(ch, 0)
      requires idx == ch.pairs[0] && last == ch.pairs[|ch.pairs| - 1]
      modifies pt, hw
      ensures newHead == ch.pairs[1] && 0 <= newHead < hw.Length
      ensures IsRotate(old(pt[..]), pt[..], ch.pairs, 0, ch.cells[0].first)
      ensures var hw0 := if repaired then old(hw[..]) else old(hw[..])[newHead := old(hw[newHead]).(next := idx)];
              IsRotateHw(hw0, hw[..], ch.pairs, 0, ch.cells[0].first)
    {
      hide ChainOk;
      CellFacts(pt[..], hw[..], ch, 0);
      InnerFacts(pt[..], hw[..], ch, 0);
      newHead := pt[idx].succ;
      pt[newHead] := pt[newHead].(pred := pt[idx].pred);
      if !repaired {
        PairModifyChain(newHead, Keep, Keep, false, idx, NoTail);
      }
      PairModifyChain(idx, Set, Keep, false, -1, NoTail);
      PairModifyChain(last, Keep, Reset, false, idx, NoTail);
      pt[last] := pt[last].(succ := idx);
      pt[idx] := pt[idx].(pred := last);
      pt[idx] := pt[idx].(cell := Cell(pt[idx].cell.first, NO_NODE));
      pt[idx] := pt[idx].(succ := -1);
    }

    /** Case 12. */
    method RotateSecond(idx: int, last: int, ghost ch: Chain, ghost k: nat)
      requires ChainOk(pt[..], hw[..], ch) && Rotates(ch, k) && 0 < k
      requires idx == ch.pairs[k] && last == ch.pairs[|ch.pairs| - 1]
      modifies pt, hw
      ensures IsRotate(old(pt[..]), pt[..], ch.pairs, k, ch.cells[k].first)
      ensures IsRotateHw(old(hw[..]), hw[..], ch.pairs, k, ch.cells[k].first)
    {
      hide ChainOk;
      CellFacts(pt[..], hw[..], ch, k);
      InnerFacts(pt[..], hw[..], ch, k);
      var w := pt[idx].pred;
      var succ := pt[idx].succ;
      PairModifyChain(w, Keep, Keep, false, succ, NoTail);
      pt[w] := pt[w].(succ := succ);
      pt[succ] := pt[succ].(pred := w);
      PairModifyChain(idx, Set, Keep, false, -1, NoTail);
      pt[idx] := pt[idx].(cell := Cell(pt[idx].cell.first, NO_NODE));
      pt[idx] := pt[idx].(succ := -1);
      PairModifyChain(last, Keep, Reset, false, idx, NoTail);
      pt[last] := pt[last].(succ := idx);
      pt[idx] := pt[idx].(pred := last);
    }

    /** Cases 5 and 11. */
    method AbsorbHead(idx: int, last: int, deleteFirst: bool, ghost ch: Chain) returns (newHead: int)
      requires ChainOk(pt[..], hw[..], ch) && Absorbs(ch, 0) && 0 < sp <= st.Length
      requires idx == ch.pairs[0] && last == ch.pairs[|ch.pairs| - 1]
      modifies `sp, st, pt, hw
      ensures newHead == ch.pairs[1]
      ensures sp == old(sp) - 1 && st[..] == old(st[..])[sp := idx]
      ensures IsAbsorb(old(pt[..]), pt[..], ch.pairs, 0, ch.cells[0].Other(deleteFirst), true)
      ensures IsAbsorbHw(old(hw[..]), hw[..], ch.pairs, 0, ch.cells[0].Other(deleteFirst))
    {
      hide ChainOk;
      CellFacts(pt[..], hw[..], ch, 0);
      InnerFacts(pt[..], hw[..], ch, 0);
      if deleteFirst {
        PairModifyChain(idx, Keep, Set, false, -1, SecondToTail(last));
        pt[last] := pt[last].(cell := pt[last].cell.(second := pt[idx].cell.second));
      } else {
        PairModifyChain(idx, Set, Keep, false, -1, FirstToTail(last));
        pt[last] := pt[last].(cell := pt[last].cell.(second := pt[idx].cell.first));
      }
      var succ := pt[idx].succ;
      pt[succ] := pt[succ].(pred := pt[idx].pred);
      newHead := pt[idx].succ;
      pt[idx] := NULL_PAIR;
      var _ := Put(idx);
    }

    /** Cases 8 and 13.  The code as written omits the successor's back link in case 8. */
    method AbsorbInner(idx: int, last: int, deleteFirst: bool, ghost ch: Chain, ghost k: nat)
      requires ChainOk(pt[..], hw[..], ch) && Absorbs(ch, k) && 0 < k && 0 < sp <= st.Length
      requires idx == ch.pairs[k] && last == ch.pairs[|ch.pairs| - 1]
      modifies `sp, st, pt, hw
      ensures sp == old(sp) - 1 && st[..] == old(st[..])[sp := idx]
      ensures IsAbsorb(old(pt[..]), pt[..], ch.pairs, k, ch.cells[k].Other(deleteFirst), repaired || !deleteFirst)
      ensures IsAbsorbHw(old(hw[..]), hw[..], ch.pairs, k, ch.cells[k].Other(deleteFirst))
    {
      hide ChainOk;
      CellFacts(pt[..], hw[..], ch, k);
      InnerFacts(pt[..], hw[..], ch, k);
      var w := pt[idx].pred;
      var succ := pt[idx].succ;
      PairModifyChain(w, Keep, Keep, false, succ, NoTail);
      pt[w] := pt[w].(succ := succ);
      if repaired || !deleteFirst {
        pt[succ] := pt[succ].(pred := w);
      }
      if deleteFirst {
        PairModifyChain(idx, Keep, Set, false, -1, SecondToTail(last));
        pt[last] := pt[last].(cell := pt[last].cell.(second := pt[idx].cell.second));
      } else {
        PairModifyChain(idx, Keep, Keep, false, -1, FirstToTail(last));
        pt[last] := pt[last].(cell := pt[last].cell.(second := pt[idx].cell.first));
      }
      pt[idx] := NULL_PAIR;
      var _ := Put(idx);
    }

    /** Nothing has changed. */
    ghost predicate Same(p: int, s: seq<int>, cs: Chains, q: Pairs, h: HwPairs)
      reads this, st, pt, hw
    {
      sp == p && st[..] == s && chains == cs && pt[..] == q && hw[..] == h
    }

    /** Deletes the first or the second node of the tail pair `idx` of the chain of `head`; the second of a
        half-empty tail is not there. */
    method DeleteFromTail(idx: int, deleteFirst: bool, head: int) returns (r: int)
      requires Valid() && head in chains
      requires var ch := chains[head]; var n := |ch.pairs| - 1;
               |ch.cells| == n + 1 && n >= 0 && idx == ch.pairs[n]
      modifies this, st, pt, hw
      ensures Valid()
      ensures var ch := old(chains)[head];
              if !deleteFirst && ch.cells[|ch.cells| - 1].Single() then
                r == head && Same(old(sp), old(st[..]), old(chains), old(pt[..]), old(hw[..]))
              else if |ch.pairs| == 1 && ch.cells[0].Single() then
                r == -2 && chains == old(chains) - {head}
              else
                var d := Deleted(ch, |ch.pairs| - 1, deleteFirst);
                r == head && d.pairs != [] && d.pairs[0] == head && chains == Replace(old(chains), head, d)
    {
      hide Sound, ChainOk;
      ghost var sp0, st0, pt0, hw0, ch := sp, st[..], pt[..], hw[..], chains[head];
      ghost var n := |ch.pairs| - 1;
      PoolInUse(sp0, st0, chains, pt0, hw0, head);
      TailFacts(sp0, st0, chains, pt0, hw0, head);
      CellFacts(pt0, hw0, ch, n);
      r := head;
      if deleteFirst && pt[idx].cell.second.vid == 0 {
        if pt[idx].pred < 0 {
          pt[idx] := NULL_PAIR;
          var _ := Put(idx);
          Vanished(sp0, st0, chains, pt0, pt[..], hw0, head);
          chains := chains - {head};
          return CHAIN_GONE;
        }
        DropIncompleteTail(idx, ch);
        DeletedDropping(sp0, st0, st[..], chains, pt0, pt[..], hw0, hw[..], head);
        chains := Replace(chains, head, Deleted(ch, n, deleteFirst));
      } else {
        ShrinkCompleteTail(idx, deleteFirst, ch);
        if ch.cells[n].Single() {
          HoleStays(pt0, pt[..], hw0, hw[..], ch);
        } else {
          DeletedShrinking(sp0, st0, chains, pt0, pt[..], hw0, hw[..], head, deleteFirst);
          chains := Replace(chains, head, Deleted(ch, n, deleteFirst));
        }
      }
    }

    /** Deletes a node of pair `idx`, not the tail, when the tail is full. */
    method DeleteRotating(idx: int, last: int, deleteFirst: bool, head: int, ghost k: nat) returns (r: int)
      requires Valid() && head in chains && Rotates(chains[head], k)
      requires idx == chains[head].pairs[k] && last == chains[head].pairs[|chains[head].pairs| - 1]
      modifies this, pt, hw
      ensures SoftValid() && LinksValid()
      ensures var ch := old(chains)[head]; var d := Deleted(ch, k, deleteFirst);
              && d.pairs != [] && r == d.pairs[0] && chains == Replace(old(chains), head, d)
              && (HardwareValid() <==> repaired || !MisdirectsHead(ch, k, deleteFirst))
              && (!repaired && MisdirectsHead(ch, k, deleteFirst) ==>
                    WalkHardware(hw[..], r, hw.Length) == ch.cells[1].Nodes() + [ch.cells[0].first])
    {
      hide Sound, Soft, ChainOk, AllBackward, AllMirrored, AllStored, Partition, IsRotate, IsRotateHw;
      ghost var sp0, st0, pt0, hw0, ch := sp, st[..], pt[..], hw[..], chains[head];
      ghost var d := Deleted(ch, k, deleteFirst);
      TailFacts(sp0, st0, chains, pt0, hw0, head);
      CellFacts(pt0, hw0, ch, k);
      r := head;
      if deleteFirst {
        if pt[idx].pred < 0 {
          r := RotateHeadFirst(idx, last, ch);
        } else {
          RotateFirst(idx, last, ch, k);
        }
        DeletedRotate(sp0, st0, chains, pt0, pt[..], hw0, hw[..], head, k, true);
        SoundParts(sp, st[..], Replace(chains, head, d), pt[..], hw[..]);
      } else if pt[idx].pred < 0 {
        r := RotateHeadSecond(idx, last, ch);
        if repaired {
          DeletedRotate(sp0, st0, chains, pt0, pt[..], hw0, hw[..], head, 0, false);
          SoundParts(sp, st[..], Replace(chains, head, d), pt[..], hw[..]);
        } else {
          DeletedHeadAsWritten(sp0, st0, chains, pt0, pt[..], hw0, hw0[r := hw0[r].(next := idx)], hw[..], head);
        }
      } else {
        RotateSecond(idx, last, ch, k);
        DeletedRotate(sp0, st0, chains, pt0, pt[..], hw0, hw[..], head, k, false);
        SoundParts(sp, st[..], Replace(chains, head, d), pt[..], hw[..]);
      }
      chains := Replace(chains, head, d);
    }

    /** Deletes a node of pair `idx`, not the tail, when the tail has room. */
    method DeleteAbsorbing(idx: int, last: int, deleteFirst: bool, head: int, ghost k: nat) returns (r: int)
      requires Valid() && head in chains && Absorbs(chains[head], k)
      requires idx == chains[head].pairs[k] && last == chains[head].pairs[|chains[head].pairs| - 1]
      modifies this, st, pt, hw
      ensures SoftValid() && HardwareValid()
      ensures var ch := old(chains)[head]; var d := Deleted(ch, k, deleteFirst);
              && d.pairs != [] && r == d.pairs[0] && chains == Replace(old(chains), head, d)
              && (LinksValid() <==> repaired || !MissesBackLink(ch, k, deleteFirst))
    {
      hide Sound, Soft, ChainOk, AllBackward, AllMirrored, AllStored, Partition, IsAbsorb, IsAbsorbHw;
      ghost var sp0, st0, pt0, hw0, ch := sp, st[..], pt[..], hw[..], chains[head];
      ghost var d := Deleted(ch, k, deleteFirst);
      PoolInUse(sp0, st0, chains, pt0, hw0, head);
      TailFacts(sp0, st0, chains, pt0, hw0, head);
      CellFacts(pt0, hw0, ch, k);
      r := head;
      if pt[idx].pred < 0 {
        r := AbsorbHead(idx, last, deleteFirst, ch);
        DeletedAbsorb(sp0, st0, st[..], chains, pt0, pt[..], hw0, hw[..], head, k, deleteFirst, true);
      } else {
        AbsorbInner(idx, last, deleteFirst, ch, k);
        DeletedAbsorb(sp0, st0, st[..], chains, pt0, pt[..], hw0, hw[..], head, k, deleteFirst, repaired || !deleteFirst);
      }
      chains := Replace(chains, head, d);
    }

    /** Deletes one node from pair `idx`, by the thirteen cases; the null node is not there to delete. */
    method DoDelNode(idx: int, n: Node, head: int, ghost k: nat) returns (r: int)
      requires Valid() && head in chains
      requires k < |chains[head].cells| == |chains[head].pairs| && idx == chains[head].pairs[k]
      requires n.vid != 0 ==> FirstWith(chains[head].cells, n, k)
      requires n.vid == 0 ==> IsHole(chains[head], n) && k == |chains[head].pairs| - 1
      modifies this, st, pt, hw
      ensures SoftValid()
      ensures n.vid == 0 ==>
                r == head && Valid() && Same(old(sp), old(st[..]), old(chains), old(pt[..]), old(hw[..]))
      ensures n.vid != 0 ==>
              var ch := old(chains)[head]; var deleteFirst := ch.cells[k].first == n;
              var d := Deleted(ch, k, deleteFirst);
              if d.pairs == [] then
                r == -2 && Valid() && chains == old(chains) - {head}
              else
                && r == d.pairs[0] && chains == Replace(old(chains), head, d)
                && (LinksValid() <==> repaired || !MissesBackLink(ch, k, deleteFirst))
                && (HardwareValid() <==> repaired || !MisdirectsHead(ch, k, deleteFirst))
    {
      hide Sound, Soft, ChainOk, AllBackward, AllMirrored, AllStored, Partition, Stored;
      ghost var ch := chains[head];
      TailFacts(sp, st[..], chains, pt[..], hw[..], head);
      CellFacts(pt[..], hw[..], ch, k);
      CellFacts(pt[..], hw[..], ch, |ch.pairs| - 1);
      DeletedSize(ch, k, ch.cells[k].first == n);
      var firstNode := pt[idx].cell.first == n;
      var tail := pt[idx].succ < 0;
      var last := FindLastPair(idx, ch, k);
      var completeTail := pt[last].cell.second.vid != 0;
      if tail {
        r := DeleteFromTail(idx, firstNode, head);
        SoundParts(sp, st[..], chains, pt[..], hw[..]);
      } else if completeTail {
        r := DeleteRotating(idx, last, firstNode, head, k);
      } else {
        r := DeleteAbsorbing(idx, last, firstNode, head, k);
      }
    }

    /** Deletes one occurrence of a node from the chain of `head`.  Every other chain stays as it
        was, and this one loses exactly that occurrence; its links and its hardware copy stay
        right unless the code as written meets case 8 or case 10. */
    method DelNode(head: int, n: Node) returns (r: int, ghost k: nat)
      requires Valid() && head in chains
      modifies this, st, pt, hw
      ensures SoftValid()
      ensures n !in old(chains)[head].Nodes() || n.vid == 0 ==>
                && r == (if n.vid == 0 && IsHole(old(chains)[head], n) then head else -3)
                && Valid() && Same(old(sp), old(st[..]), old(chains), old(pt[..]), old(hw[..]))
      ensures n in old(chains)[head].Nodes() && n.vid != 0 ==>
                var ch := old(chains)[head];
                && |ch.pairs| == |ch.cells| && FirstWith(ch.cells, n, k)
                && var deleteFirst := ch.cells[k].first == n;
                   var d := Deleted(ch, k, deleteFirst);
                   && multiset(d.Nodes()) == multiset(ch.Nodes()) - multiset{n}
                   && (d.pairs == [] ==> r == -2 && Valid() && chains == old(chains) - {head})
                   && (d.pairs != [] ==>
                         && r == d.pairs[0] && chains == Replace(old(chains), head, d)
                         && (LinksValid() <==> repaired || !MissesBackLink(ch, k, deleteFirst))
                         && (HardwareValid() <==> repaired || !MisdirectsHead(ch, k, deleteFirst)))
    {
      hide Sound, Soft, ChainOk, AllBackward, AllMirrored, AllStored, Partition, Stored;
      ghost var ch := chains[head];
      TailFacts(sp, st[..], chains, pt[..], hw[..], head);
      SoundParts(sp, st[..], chains, pt[..], hw[..]);
      var idx;
      idx, k := FindPair(head, n, ch);
      FindFacts(pt[..], ch, n);
      if idx == -1 {
        r := NOT_FOUND;
      } else {
        if n.vid != 0 { DeletedNodes(pt[..], hw[..], ch, n, k); }
        r := DoDelNode(idx, n, head, k);
      }
    }
  }

  // ---------------------------------------------------------------------------
  // Where the code as written fails
  // ---------------------------------------------------------------------------

  /** With one chain only, as many pairs are out as it has. */
  lemma {:induction false} OnlyChain(sp: int, st: seq<int>, chains: Chains, pt: Pairs, hw: HwPairs, h: int)
    requires Sound(sp, st, chains, pt, hw) && chains.Keys == {h}
    ensures sp == |chains[h].cells| && 0 <= sp < |st| && h >= 0 && chains[h].cells != []
  {
    hide Sound, ChainOk, Partition;
    SoundAgain(sp, st, chains, pt, hw);
    TailFacts(sp, st, chains, pt, hw, h);
    PairsOut(sp, st, chains, pt, hw);
    var ch := chains[h];
    assert InUse(chains) == Elements(ch.pairs);
    PairsDiffer(pt, hw, ch);
    Injected(ch.pairs);
  }

  lemma {:induction false} PairsDiffer(pt: Pairs, hw: HwPairs, ch: Chain)
    requires ChainOk(pt, hw, ch)
    ensures forall i, j | 0 <= i < j < |ch.pairs| :: ch.pairs[i] != ch.pairs[j]
  {
  }

  predicate Roomy(cells: seq<Cell>) {
    cells != [] && cells[|cells| - 1].Single()
  }

  /** One node more on the only chain. */
  method Extend(t: MllTable, h: int, n: Node)
    requires t.Valid() && t.chains.Keys == {h} && n.vid != 0
    requires Roomy(t.chains[h].cells) || t.sp + 1 < t.st.Length
    modifies t, t.st, t.pt, t.hw
    ensures t.Valid() && t.chains.Keys == {h}
    ensures old(t.chains)[h].cells != [] && t.chains[h].cells == Extended(old(t.chains)[h].cells, n)
  {
    hide Sound, Soft, ChainOk, AllBackward, AllMirrored, AllStored, Partition, Stored, Headed;
    OnlyChain(t.sp, t.st[..], t.chains, t.pt[..], t.hw[..], h);
    GrownHead(t.sp, t.st[..], t.chains, t.pt[..], t.hw[..], h, n, t.st[t.sp]);
    var _ := t.AddNode(h, n);
  }

  /** A table of eight pairs with one chain of the given nodes. */
  method Chained(ns: seq<Node>) returns (t: MllTable, h: int)
    requires 1 <= |ns| <= 7 && forall i | 0 <= i < |ns| :: ns[i].vid != 0
    ensures fresh(t) && fresh(t.st) && fresh(t.pt) && fresh(t.hw)
    ensures t.Valid() && !t.repaired && t.chains.Keys == {h} && t.chains[h].cells == CellsOf(ns)
  {
    hide Sound;
    t := new MllTable(8, false);
    h := t.AddNode(-1, ns[0]);
    var i := 1;
    while i < |ns|
      invariant 1 <= i <= |ns|
      invariant fresh(t) && fresh(t.st) && fresh(t.pt) && fresh(t.hw) && t.st.Length == 8 && !t.repaired
      invariant t.Valid() && t.chains.Keys == {h} && t.chains[h].cells == CellsOf(ns[..i])
    {
      OnlyChain(t.sp, t.st[..], t.chains, t.pt[..], t.hw[..], h);
      CellsOfSize(ns[..i]);
      Extend(t, h, ns[i]);
      assert ns[..i + 1][..i] == ns[..i];
      i := i + 1;
    }
    assert ns[..i] == ns;
  }

  function CellsOf(ns: seq<Node>): (cs: seq<Cell>)
    requires ns != []
    ensures cs != []
  {
    if |ns| == 1 then [Cell(ns[0], NO_NODE)] else Extended(CellsOf(ns[..|ns| - 1]), ns[|ns| - 1])
  }

  lemma {:induction false} CellsOfSize(ns: seq<Node>)
    requires ns != []
    ensures |CellsOf(ns)| <= |ns|
  {
    if |ns| > 1 { CellsOfSize(ns[..|ns| - 1]); }
  }

  lemma {:induction false} CellsOfMore(ns: seq<Node>, n: Node)
    requires ns != []
    ensures CellsOf(ns + [n]) == Extended(CellsOf(ns), n)
  {
    assert (ns + [n])[..|ns|] == ns;
  }

  /** Case 10 as written: three full pairs, and the head's second node goes. */
  method CaseTenFails() returns (t: MllTable)
    ensures !t.repaired && t.SoftValid() && t.LinksValid() && !t.HardwareValid()
  {
    hide Sound, Soft, ChainOk, AllBackward, AllMirrored, AllStored, Partition, Stored, Headed, CellsOf;
    var a, b := Node(1, 1), Node(2, 2);
    SixCells(a, b);
    var h: int;
    t, h := Chained([a, b, a, a, a, a]);
    InTheChain(t.chains[h], b, 0);
    var _, k := t.DelNode(h, b);
  }

  /** Case 8 as written: two full pairs and a half-empty tail, and the second pair's first node goes. */
  method CaseEightFails() returns (t: MllTable)
    ensures !t.repaired && t.SoftValid() && !t.LinksValid() && t.HardwareValid()
  {
    hide Sound, Soft, ChainOk, AllBackward, AllMirrored, AllStored, Partition, Stored, Headed, CellsOf;
    var a, b := Node(1, 1), Node(2, 2);
    FiveCells(a, b);
    var h: int;
    t, h := Chained([a, a, b, a, a]);
    InTheChain(t.chains[h], b, 1);
    var _, k := t.DelNode(h, b);
  }

  /** An append with the pool exhausted, as written: a table of two pairs, of which one is never handed
      out, and a third node. */
  method FullPoolFails() returns (t: MllTable)
    ensures !t.repaired && t.SoftValid() && t.LinksValid() && !t.HardwareValid()
  {
    hide Sound, Soft, ChainOk, AllBackward, AllMirrored, AllStored, Partition, Stored, Headed;
    var a := Node(1, 1);
    t := new MllTable(2, false);
    var h := t.AddNode(-1, a);
    Extend(t, h, a);
    OnlyChain(t.sp, t.st[..], t.chains, t.pt[..], t.hw[..], h);
    var _ := t.AddNode(h, a);
  }

  /** A first node of VLAN 0. */
  method NullNodeFails() returns (t: MllTable)
    ensures t.Ruined()
  {
    hide Sound, Soft, ChainOk, AllBackward, AllMirrored, AllStored, Partition, Stored, Headed, NeverSound;
    t := new MllTable(8, true);
    var _ := t.AddNode(-1, Node(0, 5));
  }

  lemma {:induction false} InTheChain(ch: Chain, n: Node, k: nat)
    requires k < |ch.cells| && n in ch.cells[k].Nodes()
    ensures n in ch.Nodes()
  {
    FlattenHas(ch.cells, n);
  }

  lemma {:induction false} SixCells(a: Node, b: Node)
    requires a.vid != 0 && b.vid != 0
    ensures CellsOf([a, b, a, a, a, a]) == [Cell(a, b), Cell(a, a), Cell(a, a)]
  {
    hide CellsOf;
    OneCell(a);
    CellsOfMore([a], b);
    CellsOfMore([a, b], a);
    CellsOfMore([a, b, a], a);
    CellsOfMore([a, b, a, a], a);
    CellsOfMore([a, b, a, a, a], a);
    assert [a] + [b] == [a, b] && [a, b] + [a] == [a, b, a] && [a, b, a] + [a] == [a, b, a, a];
    assert [a, b, a, a] + [a] == [a, b, a, a, a] && [a, b, a, a, a] + [a] == [a, b, a, a, a, a];
  }

  lemma {:induction false} FiveCells(a: Node, b: Node)
    requires a.vid != 0 && b.vid != 0
    ensures CellsOf([a, a, b, a, a]) == [Cell(a, a), Cell(b, a), Cell(a, NO_NODE)]
  {
    hide CellsOf;
    OneCell(a);
    CellsOfMore([a], a);
    CellsOfMore([a, a], b);
    CellsOfMore([a, a, b], a);
    CellsOfMore([a, a, b, a], a);
    assert [a] + [a] == [a, a] && [a, a] + [b] == [a, a, b];
    assert [a, a, b] + [a] == [a, a, b, a] && [a, a, b, a] + [a] == [a, a, b, a, a];
  }

  lemma {:induction false} OneCell(a: Node)
    ensures CellsOf([a]) == [Cell(a, NO_NODE)]
  {
  }
}
