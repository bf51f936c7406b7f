/** What the steps of a delete and of an append do to the two pair tables, on values.
    The class in Mll.dfy performs these steps in place. */
module MllSurgery {
  import opened MllChain

  /** Position `k` of a well-formed chain is not the tail, and the tail is full. */
  ghost predicate Rotates(ch: Chain, k: nat) {
    && k + 1 < |ch.pairs| == |ch.cells|
    && Packed(ch.cells) && !ch.cells[|ch.cells| - 1].Single()
  }

  /** Position `k` of a well-formed chain is not the tail, and the tail has room. */
  ghost predicate Absorbs(ch: Chain, k: nat) {
    && k + 1 < |ch.pairs| == |ch.cells|
    && Packed(ch.cells) && ch.cells[|ch.cells| - 1].Single()
  }

  /** Where position `j` of the chain after dropping position `k` was before. */
  function Before(k: nat, j: nat): nat {
    if j < k then j else j + 1
  }

  /** `d` is the chain `ch` with position `k` moved to the end, holding `keep` only. */
  ghost predicate Rotated(ch: Chain, k: nat, keep: Node, d: Chain)
    requires k < |ch.pairs| == |ch.cells|
  {
    && |d.pairs| == |d.cells| == |ch.pairs|
    && forall j | 0 <= j < |d.pairs| ::
         var i := if j + 1 == |d.pairs| then k else Before(k, j);
         && d.pairs[j] == ch.pairs[i]
         && d.cells[j] == if i == k then Cell(keep, NO_NODE) else ch.cells[i]
  }

  /** `d` is the chain `ch` without position `k`, and `keep` has filled the tail. */
  ghost predicate Absorbed(ch: Chain, k: nat, keep: Node, d: Chain)
    requires k < |ch.pairs| == |ch.cells|
  {
    && |d.pairs| == |d.cells| == |ch.pairs| - 1
    && forall j | 0 <= j < |d.pairs| ::
         var i := Before(k, j);
         && d.pairs[j] == ch.pairs[i]
         && d.cells[j] == if i + 1 == |ch.cells| then Cell(ch.cells[i].first, keep) else ch.cells[i]
  }

  /** The chain that a delete from pair `k` makes of `ch`. */
  function Deleted(ch: Chain, k: nat, deleteFirst: bool): Chain
    requires k < |ch.pairs| == |ch.cells|
  {
    var n := |ch.pairs| - 1;
    Chain(if k == n then (if ch.cells[k].Single() then ch.pairs[..n] else ch.pairs)
          else if ch.cells[n].Single() then Without(ch.pairs, k)
          else Without(ch.pairs, k) + [ch.pairs[k]],
          DeleteFrom(ch.cells, k, deleteFirst))
  }

  lemma {:induction false} WithoutAt<T>(s: seq<T>, k: nat, j: nat)
    requires k < |s| && j + 1 < |s|
    ensures Without(s, k)[j] == s[Before(k, j)]
  {
  }

  lemma {:induction false} RotatedShape(ch: Chain, k: nat, deleteFirst: bool)
    requires Rotates(ch, k)
    ensures Rotated(ch, k, ch.cells[k].Other(deleteFirst), Deleted(ch, k, deleteFirst))
  {
    var d, keep, n := Deleted(ch, k, deleteFirst), ch.cells[k].Other(deleteFirst), |ch.pairs| - 1;
    assert d.pairs == Without(ch.pairs, k) + [ch.pairs[k]];
    assert d.cells == Without(ch.cells, k) + [Cell(keep, NO_NODE)];
    forall j | 0 <= j < |d.pairs|
      ensures d.pairs[j] == ch.pairs[if j == n then k else Before(k, j)]
      ensures d.cells[j] == if j == n then Cell(keep, NO_NODE) else ch.cells[Before(k, j)]
    {
      if j < n {
        WithoutAt(ch.pairs, k, j);
        WithoutAt(ch.cells, k, j);
      }
    }
  }

  lemma {:induction false} AbsorbedShape(ch: Chain, k: nat, deleteFirst: bool)
    requires Absorbs(ch, k)
    ensures Absorbed(ch, k, ch.cells[k].Other(deleteFirst), Deleted(ch, k, deleteFirst))
  {
    var d, keep, n := Deleted(ch, k, deleteFirst), ch.cells[k].Other(deleteFirst), |ch.pairs| - 1;
    var init := ch.cells[..n];
    assert d.pairs == Without(ch.pairs, k);
    assert d.cells == Without(init, k) + [Cell(ch.cells[n].first, keep)];
    forall j | 0 <= j < |d.pairs|
      ensures d.pairs[j] == ch.pairs[Before(k, j)]
      ensures d.cells[j] == if j + 1 == n then Cell(ch.cells[n].first, keep) else ch.cells[Before(k, j)]
    {
      WithoutAt(ch.pairs, k, j);
      if j + 1 < n { WithoutAt(init, k, j); }
    }
  }

  lemma {:induction false} RotatedDistinct(size: nat, ch: Chain, k: nat, keep: Node, d: Chain)
    requires Members(size, ch.pairs) && Rotates(ch, k) && Rotated(ch, k, keep, d)
    ensures Members(size, d.pairs)
  {
    hide Packed;
  }

  lemma {:induction false} RotatedMembers(size: nat, ch: Chain, k: nat, keep: Node, d: Chain)
    requires Members(size, ch.pairs) && Rotates(ch, k) && Rotated(ch, k, keep, d)
    ensures Members(size, d.pairs)
    ensures forall x :: x in d.pairs <==> x in ch.pairs
  {
    hide Packed;
    RotatedDistinct(size, ch, k, keep, d);
    forall x | x in ch.pairs
      ensures x in d.pairs
    {
      var i :| 0 <= i < |ch.pairs| && ch.pairs[i] == x;
      assert d.pairs[if i < k then i else if i == k then |d.pairs| - 1 else i - 1] == x;
    }
  }

  lemma {:induction false} AbsorbedMembers(size: nat, ch: Chain, k: nat, keep: Node, d: Chain)
    requires Members(size, ch.pairs) && Absorbs(ch, k) && Absorbed(ch, k, keep, d)
    ensures Members(size, d.pairs)
    ensures forall x :: x in d.pairs <==> x in ch.pairs && x != ch.pairs[k]
  {
    forall x | x in ch.pairs && x != ch.pairs[k]
      ensures x in d.pairs
    {
      var i :| 0 <= i < |ch.pairs| && ch.pairs[i] == x;
      assert d.pairs[if i < k then i else i - 1] == x;
    }
  }

  // ---------------------------------------------------------------------------
  // Chain surgery on the software table
  // ---------------------------------------------------------------------------

  /** The neighbours of pair `idx` are in the table; the head has no predecessor. */
  ghost predicate Between(pt: Pairs, idx: int) {
    0 <= idx < |pt| && 0 <= pt[idx].succ < |pt| && pt[idx].pred < |pt|
  }

  /** Unlink pair `idx` from its neighbours.  `back` says whether the successor's back
      link is written too. */
  function Unlink(pt: Pairs, idx: int, back: bool): (r: Pairs)
    requires Between(pt, idx)
    ensures |r| == |pt|
  {
    var w, s := pt[idx].pred, pt[idx].succ;
    var a := if w < 0 then pt else pt[w := pt[w].(succ := s)];
    if back then a[s := a[s].(pred := w)] else a
  }

  /** Cases 4, 7, 10 and 12: pair `idx` keeps one node and becomes the new tail. */
  function Rotate(pt: Pairs, idx: int, last: int, keep: Node): (r: Pairs)
    requires Between(pt, idx) && 0 <= last < |pt|
    ensures |r| == |pt|
  {
    var a := Unlink(pt, idx, true);
    a[last := a[last].(succ := idx)][idx := Pair(last, -1, Cell(keep, NO_NODE))]
  }

  /** Cases 5, 8, 11 and 13: the kept node fills the tail and pair `idx` is cleared. */
  function Absorb(pt: Pairs, idx: int, last: int, keep: Node, back: bool): (r: Pairs)
    requires Between(pt, idx) && 0 <= last < |pt|
    ensures |r| == |pt|
  {
    var a := Unlink(pt, idx, back);
    a[last := a[last].(cell := Cell(a[last].cell.first, keep))][idx := NULL_PAIR]
  }

  /** The entry of pair `i` once pair `k`, not the tail, has been unlinked. */
  ghost function Unlinked(pt: Pairs, c: seq<int>, k: nat, back: bool, i: nat): Pair
    requires Members(|pt|, c) && k + 1 < |c| && i < |c|
  {
    var e := pt[c[i]];
    e.(pred := if i == k + 1 && back then pt[c[k]].pred else e.pred,
       succ := if i + 1 == k then c[k + 1] else e.succ)
  }

  lemma {:induction false} UnlinkAt(pt: Pairs, ch: Chain, k: nat, back: bool, i: nat)
    requires Linked(pt, ch)
    requires k + 1 < |ch.pairs| && i < |ch.pairs|
    ensures Between(pt, ch.pairs[k])
    ensures Unlink(pt, ch.pairs[k], back)[ch.pairs[i]] == Unlinked(pt, ch.pairs, k, back, i)
  {
    assert BackLink(pt, ch.pairs, k);
    assert pt[ch.pairs[k]].succ == Next(ch.pairs, k);
  }

  /** Links of the remaining pairs after the surgery, whatever becomes of pair `k`. */
  lemma {:induction false} UnlinkedLinks(pt: Pairs, ch: Chain, k: nat, back: bool, j: nat)
    requires Linked(pt, ch)
    requires k + 1 < |ch.pairs| && j + 1 < |ch.pairs|
    ensures var c := ch.pairs; var b := Before(k, j); var e := Unlinked(pt, c, k, back, b);
            && e.succ == (if j + 2 < |c| then c[Before(k, j + 1)] else -1)
            && (j != k || back ==> if j == 0 then e.pred < 0 else e.pred == c[Before(k, j - 1)])
            && (j == k && !back ==> e.pred == c[k])
            && e.cell == ch.cells[b]
  {
    var b := Before(k, j);
    assert BackLink(pt, ch.pairs, k) && BackLink(pt, ch.pairs, b);
    assert pt[ch.pairs[b]].succ == Next(ch.pairs, b);
  }

  /** Cases 4, 7, 10 and 12 leave a well-formed doubly linked chain. */
  lemma {:induction false} RotateLinked(pt: Pairs, ch: Chain, k: nat, keep: Node, d: Chain)
    requires Linked(pt, ch) && Rotates(ch, k) && Rotated(ch, k, keep, d) && keep.vid != 0
    requires Between(pt, ch.pairs[k])
    ensures Linked(Rotate(pt, ch.pairs[k], ch.pairs[|ch.pairs| - 1], keep), d)
  {
    var c := ch.pairs;
    RotatedMembers(|pt|, ch, k, keep, d);
    RotateAll(pt, ch, k, keep);
    hide Linked, Members, Rotate, Rotated, RotatedTable;
    RotatedOk(pt, Rotate(pt, c[k], c[|c| - 1], keep), ch, k, keep, d);
  }

  lemma {:induction false} RotateAll(pt: Pairs, ch: Chain, k: nat, keep: Node)
    requires Linked(pt, ch) && k + 1 < |ch.pairs| && Between(pt, ch.pairs[k])
    ensures RotatedTable(pt, Rotate(pt, ch.pairs[k], ch.pairs[|ch.pairs| - 1], keep), ch, k, keep)
  {
    forall i | 0 <= i < |ch.pairs| && i != k
      ensures Rotate(pt, ch.pairs[k], ch.pairs[|ch.pairs| - 1], keep)[ch.pairs[i]] ==
              WithSucc(Unlinked(pt, ch.pairs, k, true, i), ch.pairs[k], i + 1 == |ch.pairs|)
    {
      UnlinkAt(pt, ch, k, true, i);
    }
  }

  /** The tables `pt` and `pt'` before and after pair `k` of `ch` became its tail. */
  ghost predicate RotatedTable(pt: Pairs, pt': Pairs, ch: Chain, k: nat, keep: Node)
    requires Linked(pt, ch) && k + 1 < |ch.pairs|
  {
    && |pt'| == |pt|
    && pt'[ch.pairs[k]] == Pair(ch.pairs[|ch.pairs| - 1], -1, Cell(keep, NO_NODE))
    && forall i | 0 <= i < |ch.pairs| && i != k ::
         pt'[ch.pairs[i]] == WithSucc(Unlinked(pt, ch.pairs, k, true, i), ch.pairs[k], i + 1 == |ch.pairs|)
  }

  /** The entry with its successor replaced, if it is the tail's. */
  function WithSucc(e: Pair, succ: int, tail: bool): Pair {
    if tail then e.(succ := succ) else e
  }

  lemma {:induction false} RotatedOk(pt: Pairs, pt': Pairs, ch: Chain, k: nat, keep: Node, d: Chain)
    requires Linked(pt, ch) && Rotates(ch, k) && Rotated(ch, k, keep, d) && keep.vid != 0
    requires RotatedTable(pt, pt', ch, k, keep) && Members(|pt|, d.pairs)
    ensures Linked(pt', d)
  {
    forall j | 0 <= j < |d.pairs|
      ensures pt'[d.pairs[j]].succ == Next(d.pairs, j)
      ensures BackLink(pt', d.pairs, j)
      ensures pt'[d.pairs[j]].cell == d.cells[j]
    {
      RotatedLinkAt(pt, pt', ch, k, keep, d, j);
    }
  }

  lemma {:induction false} RotatedLinkAt(pt: Pairs, pt': Pairs, ch: Chain, k: nat, keep: Node, d: Chain, j: nat)
    requires Linked(pt, ch) && Rotates(ch, k) && Rotated(ch, k, keep, d) && j < |d.pairs|
    requires RotatedTable(pt, pt', ch, k, keep) && Members(|pt|, d.pairs)
    ensures pt'[d.pairs[j]].succ == Next(d.pairs, j)
    ensures BackLink(pt', d.pairs, j)
    ensures pt'[d.pairs[j]].cell == d.cells[j]
  {
    if j + 1 < |d.pairs| {
      UnlinkedLinks(pt, ch, k, true, j);
      assert d.pairs[j] == ch.pairs[Before(k, j)];
    } else {
      assert d.pairs[j] == ch.pairs[k];
    }
  }

  /** Cases 5, 8, 11 and 13 leave a well-formed chain; its successor's back link is right
      exactly if it was written. */
  lemma {:induction false} AbsorbStored(pt: Pairs, ch: Chain, k: nat, keep: Node, back: bool, d: Chain)
    requires Linked(pt, ch) && Absorbs(ch, k) && Absorbed(ch, k, keep, d) && keep.vid != 0
    requires Between(pt, ch.pairs[k])
    ensures var pt' := Absorb(pt, ch.pairs[k], ch.pairs[|ch.pairs| - 1], keep, back);
            && Stored(pt', d) && BackwardBut(pt', d.pairs, k)
            && (BackLink(pt', d.pairs, k) <==> back)
  {
    var c := ch.pairs;
    AbsorbedMembers(|pt|, ch, k, keep, d);
    AbsorbAll(pt, ch, k, keep, back);
    hide Linked, Stored, Members, Absorb, Absorbed, BackLink, BackwardBut, Unlinked, Packed;
    AbsorbedOk(pt, Absorb(pt, c[k], c[|c| - 1], keep, back), ch, k, keep, back, d);
  }

  lemma {:induction false} AbsorbAll(pt: Pairs, ch: Chain, k: nat, keep: Node, back: bool)
    requires Linked(pt, ch) && k + 1 < |ch.pairs| && Between(pt, ch.pairs[k])
    ensures AbsorbedTable(pt, Absorb(pt, ch.pairs[k], ch.pairs[|ch.pairs| - 1], keep, back), ch, k, keep, back)
  {
    forall i | 0 <= i < |ch.pairs| && i != k
      ensures Absorb(pt, ch.pairs[k], ch.pairs[|ch.pairs| - 1], keep, back)[ch.pairs[i]] ==
              WithSecond(Unlinked(pt, ch.pairs, k, back, i), keep, i + 1 == |ch.pairs|)
    {
      UnlinkAt(pt, ch, k, back, i);
    }
  }

  /** The entry with its second node replaced, if it is the tail's. */
  function WithSecond(e: Pair, keep: Node, tail: bool): Pair {
    if tail then e.(cell := Cell(e.cell.first, keep)) else e
  }

  /** The tables `pt` and `pt'` before and after pair `k` of `ch` was absorbed. */
  ghost predicate AbsorbedTable(pt: Pairs, pt': Pairs, ch: Chain, k: nat, keep: Node, back: bool)
    requires Linked(pt, ch) && k + 1 < |ch.pairs|
  {
    && |pt'| == |pt|
    && forall i | 0 <= i < |ch.pairs| && i != k ::
         pt'[ch.pairs[i]] == WithSecond(Unlinked(pt, ch.pairs, k, back, i), keep, i + 1 == |ch.pairs|)
  }

  lemma {:induction false} AbsorbedOk(pt: Pairs, pt': Pairs, ch: Chain, k: nat, keep: Node, back: bool, d: Chain)
    requires Linked(pt, ch) && Absorbs(ch, k) && Absorbed(ch, k, keep, d) && keep.vid != 0
    requires AbsorbedTable(pt, pt', ch, k, keep, back) && Members(|pt|, d.pairs)
    ensures Stored(pt', d) && BackwardBut(pt', d.pairs, k)
    ensures BackLink(pt', d.pairs, k) <==> back
  {
    forall j | 0 <= j < |d.pairs|
      ensures pt'[d.pairs[j]].succ == Next(d.pairs, j)
      ensures if j == k then BackLink(pt', d.pairs, k) <==> back else BackLink(pt', d.pairs, j)
      ensures pt'[d.pairs[j]].cell == d.cells[j]
    {
      AbsorbedLinkAt(pt, pt', ch, k, keep, back, d, j);
    }
  }

  lemma {:induction false} AbsorbedLinkAt(pt: Pairs, pt': Pairs, ch: Chain, k: nat, keep: Node, back: bool, d: Chain, j: nat)
    requires Linked(pt, ch) && Absorbs(ch, k) && Absorbed(ch, k, keep, d) && j < |d.pairs|
    requires AbsorbedTable(pt, pt', ch, k, keep, back) && Members(|pt|, d.pairs)
    ensures pt'[d.pairs[j]].succ == Next(d.pairs, j)
    ensures if j == k then BackLink(pt', d.pairs, k) <==> back else BackLink(pt', d.pairs, j)
    ensures pt'[d.pairs[j]].cell == d.cells[j]
  {
    UnlinkedLinks(pt, ch, k, back, j);
    assert d.pairs[j] == ch.pairs[Before(k, j)];
  }

  // ---------------------------------------------------------------------------
  // Chain surgery on the hardware table
  // ---------------------------------------------------------------------------

  /** Redirect the hardware predecessor of an unlinked pair, if it has one. */
  function Redirect(hw: HwPairs, w: int, succ: int): (r: HwPairs)
    requires w < |hw|
    ensures |r| == |hw|
  {
    if w < 0 then hw else hw[w := hw[w].(next := succ)]
  }

  /** Cases 4, 7, 10 and 12 in hardware. */
  function RotateHw(hw: HwPairs, w: int, idx: int, succ: int, last: int, keep: Node): (r: HwPairs)
    requires w < |hw| && 0 <= idx < |hw| && 0 <= last < |hw|
    ensures |r| == |hw|
  {
    var a := Redirect(hw, w, succ);
    var b := a[last := a[last].(next := idx, second := a[last].second.(last := false))];
    b[idx := b[idx].(first := HwNode(keep, true))]
  }

  /** Cases 5, 8, 11 and 13 in hardware. */
  function AbsorbHw(hw: HwPairs, w: int, succ: int, last: int, keep: Node): (r: HwPairs)
    requires w < |hw| && 0 <= last < |hw|
    ensures |r| == |hw|
  {
    var a := Redirect(hw, w, succ);
    a[last := HwPair(a[last].first.(last := false), HwNode(keep, true), a[last].next)]
  }

  /** The predecessor of position `k`, negative at the head. */
  function Pred(c: seq<int>, k: nat): int
    requires k < |c|
  {
    if k == 0 then -1 else c[k - 1]
  }

  /** The entry `e` of pair `i` after `RotateHw` on pair `k`. */
  ghost function RotatedHw(e: HwPair, c: seq<int>, k: nat, keep: Node, i: nat): HwPair
    requires k + 1 < |c| && i < |c|
  {
    if i == k then e.(first := HwNode(keep, true))
    else if i + 1 == |c| then e.(next := c[k], second := e.second.(last := false))
    else if i + 1 == k then e.(next := c[k + 1])
    else e
  }

  lemma {:induction false} RotateHwAt(hw: HwPairs, c: seq<int>, k: nat, keep: Node, i: nat)
    requires Members(|hw|, c) && k + 1 < |c| && i < |c|
    ensures RotateHw(hw, Pred(c, k), c[k], c[k + 1], c[|c| - 1], keep)[c[i]] == RotatedHw(hw[c[i]], c, k, keep, i)
  {
  }

  lemma {:induction false} RotateMirrors(hw: HwPairs, ch: Chain, k: nat, keep: Node, d: Chain)
    requires Members(|hw|, ch.pairs) && Rotates(ch, k) && Rotated(ch, k, keep, d)
    requires Mirrors(hw, ch)
    ensures Members(|hw|, d.pairs)
    ensures var c := ch.pairs;
            Mirrors(RotateHw(hw, Pred(c, k), c[k], c[k + 1], c[|c| - 1], keep), d)
  {
    hide RotateHw, RotatedHw, Mirrors, Rotated;
    var c := ch.pairs;
    var hw' := RotateHw(hw, Pred(c, k), c[k], c[k + 1], c[|c| - 1], keep);
    forall i | 0 <= i < |c|
      ensures hw'[c[i]] == RotatedHw(hw[c[i]], c, k, keep, i)
    {
      RotateHwAt(hw, c, k, keep, i);
    }
    RotatedMirrors(hw, hw', ch, k, keep, d);
  }

  lemma {:induction false} RotatedMirrors(hw: HwPairs, hw': HwPairs, ch: Chain, k: nat, keep: Node, d: Chain)
    requires Members(|hw|, ch.pairs) && Rotates(ch, k) && Rotated(ch, k, keep, d)
    requires Mirrors(hw, ch)
    requires |hw'| == |hw|
    requires forall i | 0 <= i < |ch.pairs| ::
               hw'[ch.pairs[i]] == RotatedHw(hw[ch.pairs[i]], ch.pairs, k, keep, i)
    ensures Members(|hw|, d.pairs) && Mirrors(hw', d)
  {
    RotatedMembers(|hw|, ch, k, keep, d);
    forall j | 0 <= j < |d.pairs|
      ensures Mirror(hw'[d.pairs[j]], d, j)
    {
      var i := if j + 1 == |ch.pairs| then k else Before(k, j);
      var x := ch.pairs[i];
      assert Mirror(hw[x], ch, i) && hw'[x] == RotatedHw(hw[x], ch.pairs, k, keep, i);
      RotatedMirror(hw[x], ch, k, keep, d, j);
      assert d.pairs[j] == x;
    }
  }

  lemma {:induction false} RotatedMirror(e: HwPair, ch: Chain, k: nat, keep: Node, d: Chain, j: nat)
    requires Rotates(ch, k) && Rotated(ch, k, keep, d)
    requires j < |d.pairs|
    requires var i := if j + 1 == |ch.pairs| then k else Before(k, j); Mirror(e, ch, i)
    ensures var i := if j + 1 == |ch.pairs| then k else Before(k, j);
            Mirror(RotatedHw(e, ch.pairs, k, keep, i), d, j)
  {
    var i := if j + 1 == |ch.pairs| then k else Before(k, j);
    assert d.cells[j] == if i == k then Cell(keep, NO_NODE) else ch.cells[i];
    if j + 1 < |d.pairs| {
      assert d.pairs[j + 1] == ch.pairs[if j + 2 == |ch.pairs| then k else Before(k, j + 1)];
    }
  }

  /** The entry `e` of pair `i` after `AbsorbHw` of pair `k`. */
  ghost function AbsorbedHw(e: HwPair, c: seq<int>, k: nat, keep: Node, i: nat): HwPair
    requires k + 1 < |c| && i < |c|
  {
    if i + 1 == |c| then HwPair(e.first.(last := false), HwNode(keep, true), e.next)
    else if i + 1 == k then e.(next := c[k + 1])
    else e
  }

  lemma {:induction false} AbsorbHwAt(hw: HwPairs, c: seq<int>, k: nat, keep: Node, i: nat)
    requires Members(|hw|, c) && k + 1 < |c| && i < |c|
    ensures AbsorbHw(hw, Pred(c, k), c[k + 1], c[|c| - 1], keep)[c[i]] == AbsorbedHw(hw[c[i]], c, k, keep, i)
  {
  }

  lemma {:induction false} AbsorbMirrors(hw: HwPairs, ch: Chain, k: nat, keep: Node, d: Chain)
    requires Members(|hw|, ch.pairs) && Absorbs(ch, k) && Absorbed(ch, k, keep, d) && keep.vid != 0
    requires Mirrors(hw, ch)
    ensures Members(|hw|, d.pairs)
    ensures var c := ch.pairs;
            Mirrors(AbsorbHw(hw, Pred(c, k), c[k + 1], c[|c| - 1], keep), d)
  {
    var c := ch.pairs;
    var hw' := AbsorbHw(hw, Pred(c, k), c[k + 1], c[|c| - 1], keep);
    forall i | 0 <= i < |c|
      ensures hw'[c[i]] == AbsorbedHw(hw[c[i]], c, k, keep, i)
    {
      AbsorbHwAt(hw, c, k, keep, i);
    }
    AbsorbedMirrors(hw, hw', ch, k, keep, d);
  }

  lemma {:induction false} AbsorbedMirrors(hw: HwPairs, hw': HwPairs, ch: Chain, k: nat, keep: Node, d: Chain)
    requires Members(|hw|, ch.pairs) && Absorbs(ch, k) && Absorbed(ch, k, keep, d) && keep.vid != 0
    requires Mirrors(hw, ch)
    requires |hw'| == |hw|
    requires forall i | 0 <= i < |ch.pairs| ::
               hw'[ch.pairs[i]] == AbsorbedHw(hw[ch.pairs[i]], ch.pairs, k, keep, i)
    ensures Members(|hw|, d.pairs) && Mirrors(hw', d)
  {
    AbsorbedMembers(|hw|, ch, k, keep, d);
    forall j | 0 <= j < |d.pairs|
      ensures Mirror(hw'[d.pairs[j]], d, j)
    {
      var i := Before(k, j);
      var x := ch.pairs[i];
      assert Mirror(hw[x], ch, i) && hw'[x] == AbsorbedHw(hw[x], ch.pairs, k, keep, i);
      AbsorbedMirror(hw[x], ch, k, keep, d, j);
      assert d.pairs[j] == x;
    }
  }

  lemma {:induction false} AbsorbedMirror(e: HwPair, ch: Chain, k: nat, keep: Node, d: Chain, j: nat)
    requires Absorbs(ch, k) && Absorbed(ch, k, keep, d) && keep.vid != 0
    requires j < |d.pairs|
    requires Mirror(e, ch, Before(k, j))
    ensures Mirror(AbsorbedHw(e, ch.pairs, k, keep, Before(k, j)), d, j)
  {
    assert d.pairs[j] == ch.pairs[Before(k, j)];
    if j + 1 < |d.pairs| { assert d.pairs[j + 1] == ch.pairs[Before(k, j + 1)]; }
  }

  /** Case 10 as written also points the new head at the old one.  With three or more pairs
      the hardware then skips every pair between the new head and the old one. */
  lemma {:induction false} RotateHwAsWritten(hw: HwPairs, ch: Chain, keep: Node)
    requires Members(|hw|, ch.pairs) && Rotates(ch, 0) && Mirrors(hw, ch)
    ensures var c := ch.pairs;
            var hw' := RotateHw(hw[c[1] := hw[c[1]].(next := c[0])], -1, c[0], c[1], c[|c| - 1], keep);
            && (|c| == 2 ==> hw' == RotateHw(hw, -1, c[0], c[1], c[|c| - 1], keep))
            && (|c| > 2 ==> WalkHardware(hw', c[1], |hw|) == ch.cells[1].Nodes() + [keep])
  {
    var c := ch.pairs;
    if |c| > 2 {
      var bad := hw[c[1] := hw[c[1]].(next := c[0])];
      var hw' := RotateHw(bad, -1, c[0], c[1], c[|c| - 1], keep);
      ChainFits(|hw|, c);
      assert Mirror(hw[c[1]], ch, 1);
      RotateHwAt(bad, c, 0, keep, 0);
      RotateHwAt(bad, c, 0, keep, 1);
      assert WalkHardware(hw', c[0], |hw| - 1) == [keep];
    }
  }

  // ---------------------------------------------------------------------------
  // The tail
  // ---------------------------------------------------------------------------

  /** The chain with another cell at its tail. */
  ghost function WithTail(ch: Chain, cell: Cell): Chain
    requires ch.cells != []
  {
    Chain(ch.pairs, ch.cells[..|ch.cells| - 1] + [cell])
  }

  lemma {:induction false} TailLinked(pt: Pairs, ch: Chain, cell: Cell)
    requires Linked(pt, ch) && cell.first.vid != 0 && (cell.Single() ==> cell.second == NO_NODE)
    ensures var t := ch.pairs[|ch.pairs| - 1]; Linked(pt[t := pt[t].(cell := cell)], WithTail(ch, cell))
  {
    var t := ch.pairs[|ch.pairs| - 1];
    var pt' := pt[t := pt[t].(cell := cell)];
    forall k | 0 <= k < |ch.pairs|
      ensures BackLink(pt', ch.pairs, k)
    {
      assert BackLink(pt, ch.pairs, k);
    }
  }

  lemma {:induction false} TailMirrors(hw: HwPairs, ch: Chain, cell: Cell, h: HwPair)
    requires Members(|hw|, ch.pairs) && |ch.pairs| == |ch.cells| && Mirrors(hw, ch)
    requires h.first == HwNode(cell.first, cell.Single())
    requires !cell.Single() ==> h.second == HwNode(cell.second, true)
    ensures Mirrors(hw[ch.pairs[|ch.pairs| - 1] := h], WithTail(ch, cell))
  {
    var n := |ch.pairs| - 1;
    var d := WithTail(ch, cell);
    forall k | 0 <= k <= n
      ensures Mirror(hw[ch.pairs[n] := h][d.pairs[k]], d, k)
    {
      assert Mirror(hw[ch.pairs[k]], ch, k);
    }
  }

  /** Both tables with the entry of the tail changed, its links kept. */
  lemma {:induction false} TailUpdate(pt: Pairs, hw: HwPairs, ch: Chain, cell: Cell, h: HwPair)
    requires ChainOk(pt, hw, ch)
    requires cell.first.vid != 0 && (cell.Single() ==> cell.second == NO_NODE)
    requires h.first == HwNode(cell.first, cell.Single())
    requires !cell.Single() ==> h.second == HwNode(cell.second, true)
    ensures var n := |ch.pairs| - 1; var t := ch.pairs[n];
            ChainOk(pt[t := pt[t].(cell := cell)], hw[t := h], Chain(ch.pairs, ch.cells[..n] + [cell]))
  {
    hide Mirrors, Forward, Packed;
    TailLinked(pt, ch, cell);
    TailMirrors(hw, ch, cell, h);
  }

  /** Cases 3, 6 and 9: a full tail keeps one of its nodes. */
  lemma {:induction false} ShrinkTail(pt: Pairs, hw: HwPairs, ch: Chain, deleteFirst: bool)
    requires ChainOk(pt, hw, ch) && !ch.cells[|ch.cells| - 1].Single()
    ensures var n := |ch.pairs| - 1; var idx, keep := ch.pairs[n], ch.cells[n].Other(deleteFirst);
            ChainOk(pt[idx := pt[idx].(cell := Cell(keep, NO_NODE))],
                    hw[idx := hw[idx].(first := HwNode(keep, true))],
                    Deleted(ch, n, deleteFirst))
  {
    var n := |ch.pairs| - 1;
    var keep := ch.cells[n].Other(deleteFirst);
    TailUpdate(pt, hw, ch, Cell(keep, NO_NODE), hw[ch.pairs[n]].(first := HwNode(keep, true)));
  }

  /** Appending to a tail with room. */
  lemma {:induction false} FillTail(pt: Pairs, hw: HwPairs, ch: Chain, n: Node)
    requires ChainOk(pt, hw, ch) && ch.cells[|ch.cells| - 1].Single() && n.vid != 0
    ensures var k := |ch.pairs| - 1; var t := ch.pairs[k]; var cell := Cell(ch.cells[k].first, n);
            ChainOk(pt[t := pt[t].(cell := cell)],
                    hw[t := HwPair(hw[t].first.(last := false), HwNode(n, true), hw[t].next)],
                    Chain(ch.pairs, ch.cells[..k] + [cell]))
  {
    var k := |ch.pairs| - 1;
    var h := hw[ch.pairs[k]];
    assert Mirror(h, ch, k);
    TailUpdate(pt, hw, ch, Cell(ch.cells[k].first, n), HwPair(h.first.(last := false), HwNode(n, true), h.next));
  }

  /** Case 2: a half-empty tail behind another pair is cut off. */
  lemma {:induction false} DropTail(pt: Pairs, hw: HwPairs, ch: Chain)
    requires ChainOk(pt, hw, ch) && ch.cells[|ch.cells| - 1].Single() && |ch.pairs| > 1
    ensures var n := |ch.pairs| - 1; var idx, w := ch.pairs[n], ch.pairs[n - 1];
            ChainOk(pt[idx := NULL_PAIR][w := pt[w].(succ := -1)],
                    hw[w := hw[w].(second := hw[w].second.(last := true))],
                    Deleted(ch, n, true))
  {
    var n := |ch.pairs| - 1;
    var idx, w, d := ch.pairs[n], ch.pairs[n - 1], Deleted(ch, n, true);
    CutLinked(pt, pt[idx := NULL_PAIR][w := pt[w].(succ := -1)], ch, d);
    CutMirrors(hw, hw[w := hw[w].(second := hw[w].second.(last := true))], ch, d);
  }

  /** `d` is `ch` without its tail. */
  ghost predicate Cut(ch: Chain, d: Chain) {
    && |ch.pairs| == |ch.cells| > 1
    && |d.pairs| == |d.cells| == |ch.pairs| - 1
    && forall k | 0 <= k < |d.pairs| :: d.pairs[k] == ch.pairs[k] && d.cells[k] == ch.cells[k]
  }

  lemma {:induction false} CutLinked(pt: Pairs, pt': Pairs, ch: Chain, d: Chain)
    requires Linked(pt, ch) && Cut(ch, d)
    requires var n := |d.pairs|; var idx, w := ch.pairs[n], ch.pairs[n - 1];
             pt' == pt[idx := NULL_PAIR][w := pt[w].(succ := -1)]
    ensures Linked(pt', d)
  {
    forall k | 0 <= k < |d.pairs|
      ensures BackLink(pt', d.pairs, k) && pt'[d.pairs[k]].cell == d.cells[k]
      ensures pt'[d.pairs[k]].succ == Next(d.pairs, k)
    {
      assert BackLink(pt, ch.pairs, k) && pt[ch.pairs[k]].succ == Next(ch.pairs, k);
    }
  }

  lemma {:induction false} CutMirrors(hw: HwPairs, hw': HwPairs, ch: Chain, d: Chain)
    requires Members(|hw|, ch.pairs) && Cut(ch, d) && Packed(ch.cells) && Mirrors(hw, ch)
    requires var w := ch.pairs[|d.pairs| - 1];
             hw' == hw[w := hw[w].(second := hw[w].second.(last := true))]
    ensures Members(|hw|, d.pairs) && Mirrors(hw', d)
  {
    forall k | 0 <= k < |d.pairs|
      ensures Mirror(hw'[d.pairs[k]], d, k)
    {
      assert Mirror(hw[ch.pairs[k]], ch, k);
    }
  }

  /** Appending a new pair behind a full tail. */
  lemma {:induction false} GrowTail(pt: Pairs, hw: HwPairs, ch: Chain, n: Node, x: int)
    requires ChainOk(pt, hw, ch) && !ch.cells[|ch.cells| - 1].Single() && n.vid != 0
    requires 0 <= x < |pt| && x !in ch.pairs
    ensures var t := ch.pairs[|ch.pairs| - 1]; var h := HwNode(n, true);
            ChainOk(pt[x := Pair(t, -1, Cell(n, NO_NODE))][t := pt[t].(succ := x)],
                    hw[x := HwPair(h, h, 0)][t := hw[t].(second := hw[t].second.(last := false), next := x)],
                    Chain(ch.pairs + [x], ch.cells + [Cell(n, NO_NODE)]))
  {
    var m, h := |ch.pairs|, HwNode(n, true);
    var t, d := ch.pairs[m - 1], Chain(ch.pairs + [x], ch.cells + [Cell(n, NO_NODE)]);
    var pt' := pt[x := Pair(t, -1, Cell(n, NO_NODE))][t := pt[t].(succ := x)];
    var hw' := hw[x := HwPair(h, h, 0)][t := hw[t].(second := hw[t].second.(last := false), next := x)];
    GrowMembers(|pt|, ch.pairs, x);
    forall k | 0 <= k < m
      ensures ch.pairs[k] != x
      ensures pt'[ch.pairs[k]] == pt[ch.pairs[k]].(succ := GrownSucc(ch.pairs, x, k))
      ensures hw'[ch.pairs[k]] ==
              var e := hw[ch.pairs[k]];
              if k + 1 == m then e.(second := e.second.(last := false), next := x) else e
    {
      assert ch.pairs[k] in ch.pairs;
      assert pt[ch.pairs[k]].succ == Next(ch.pairs, k);
    }
    GrownLinked(pt, pt', ch, n, x);
    GrownMirrors(hw, hw', ch, n, x);
  }

  /** The successor of position `k` once pair `x` has been appended. */
  ghost function GrownSucc(c: seq<int>, x: int, k: nat): int
    requires k < |c|
  {
    if k + 1 == |c| then x else c[k + 1]
  }

  lemma {:induction false} GrownLinked(pt: Pairs, pt': Pairs, ch: Chain, n: Node, x: int)
    requires Linked(pt, ch) && !ch.cells[|ch.cells| - 1].Single() && n.vid != 0
    requires |pt'| == |pt| && 0 <= x < |pt| && Members(|pt|, ch.pairs + [x])
    requires pt'[x] == Pair(ch.pairs[|ch.pairs| - 1], -1, Cell(n, NO_NODE))
    requires forall k | 0 <= k < |ch.pairs| ::
               pt'[ch.pairs[k]] == pt[ch.pairs[k]].(succ := GrownSucc(ch.pairs, x, k))
    ensures Linked(pt', Chain(ch.pairs + [x], ch.cells + [Cell(n, NO_NODE)]))
  {
    var m, d := |ch.pairs|, Chain(ch.pairs + [x], ch.cells + [Cell(n, NO_NODE)]);
    forall k | 0 <= k <= m
      ensures pt'[d.pairs[k]].succ == Next(d.pairs, k)
      ensures pt'[d.pairs[k]].cell == d.cells[k]
      ensures BackLink(pt', d.pairs, k)
    {
      if k < m {
        assert pt'[ch.pairs[k]] == pt[ch.pairs[k]].(succ := GrownSucc(ch.pairs, x, k));
        assert BackLink(pt, ch.pairs, k) && pt[ch.pairs[k]].cell == ch.cells[k];
        assert d.pairs[k] == ch.pairs[k] && d.cells[k] == ch.cells[k];
      }
    }
  }

  lemma {:induction false} GrownMirrors(hw: HwPairs, hw': HwPairs, ch: Chain, n: Node, x: int)
    requires Members(|hw|, ch.pairs) && |ch.pairs| == |ch.cells| && Mirrors(hw, ch)
    requires !ch.cells[|ch.cells| - 1].Single() && n.vid != 0
    requires |hw'| == |hw| && 0 <= x < |hw| && Members(|hw|, ch.pairs + [x])
    requires hw'[x].first == HwNode(n, true)
    requires forall k | 0 <= k < |ch.pairs| ::
               hw'[ch.pairs[k]] ==
               var e := hw[ch.pairs[k]];
               if k + 1 == |ch.pairs| then e.(second := e.second.(last := false), next := x) else e
    ensures Mirrors(hw', Chain(ch.pairs + [x], ch.cells + [Cell(n, NO_NODE)]))
  {
    var m, d := |ch.pairs|, Chain(ch.pairs + [x], ch.cells + [Cell(n, NO_NODE)]);
    forall k | 0 <= k <= m
      ensures Mirror(hw'[d.pairs[k]], d, k)
    {
      if k < m { assert Mirror(hw[ch.pairs[k]], ch, k); }
    }
  }

  lemma {:induction false} GrowMembers(size: nat, c: seq<int>, x: int)
    requires Members(size, c) && 0 <= x < size && x !in c
    ensures Members(size, c + [x])
  {
  }
}
