/** The multicast linked list on values: what a chain of two-node pairs looks like in
    the software pair table and in the hardware pair table, what walking either table
    yields, and what a delete does to the nodes of a chain. */
module MllChain {

  /** One multicast replication target.  A vid of 0 marks an empty second node. */
  datatype Node = Node(vid: int, mcg: int)

  const NO_NODE := Node(0, 0)

  /** The two nodes of a pair. */
  datatype Cell = Cell(first: Node, second: Node) {
    predicate Single() { second.vid == 0 }

    function Nodes(): seq<Node> {
      if Single() then [first] else [first, second]
    }

    /** The node that stays when the first, or else the second, is deleted. */
    function Other(deleteFirst: bool): Node {
      if deleteFirst then second else first
    }
  }

  /** An entry of the software pair table. */
  datatype Pair = Pair(pred: int, succ: int, cell: Cell)

  const NULL_PAIR := Pair(-1, -1, Cell(NO_NODE, NO_NODE))

  /** An entry of the hardware pair table. */
  datatype HwNode = HwNode(node: Node, last: bool)
  datatype HwPair = HwPair(first: HwNode, second: HwNode, next: int)

  type Pairs = seq<Pair>
  type HwPairs = seq<HwPair>

  /** The pairs of a chain from head to tail, and what each of them holds. */
  datatype Chain = Chain(pairs: seq<int>, cells: seq<Cell>) {
    function Nodes(): seq<Node> { Flatten(cells) }
  }

  function Flatten(cells: seq<Cell>): seq<Node> {
    if cells == [] then [] else cells[0].Nodes() + Flatten(cells[1..])
  }

  // ---------------------------------------------------------------------------
  // Well-formed chains
  // ---------------------------------------------------------------------------

  /** Every pair but the tail is full. */
  ghost predicate Packed(cells: seq<Cell>) {
    && cells != []
    && forall k | 0 <= k < |cells| ::
         && cells[k].first.vid != 0
         && (cells[k].Single() ==> k + 1 == |cells| && cells[k].second == NO_NODE)
  }

  ghost predicate Members(size: nat, c: seq<int>) {
    && c != []
    && (forall k | 0 <= k < |c| :: 0 <= c[k] < size)
    && (forall i, j | 0 <= i < j < |c| :: c[i] != c[j])
  }

  /** The pair after position `k`, -1 at the tail. */
  function Next(c: seq<int>, k: nat): int
    requires k < |c|
  {
    if k + 1 < |c| then c[k + 1] else -1
  }

  ghost predicate Forward(pt: Pairs, c: seq<int>)
    requires Members(|pt|, c)
  {
    forall k {:trigger Next(c, k)} | 0 <= k < |c| :: pt[c[k]].succ == Next(c, k)
  }

  ghost predicate BackLink(pt: Pairs, c: seq<int>, k: nat)
    requires Members(|pt|, c) && k < |c|
  {
    if k == 0 then pt[c[0]].pred < 0 else pt[c[k]].pred == c[k - 1]
  }

  ghost predicate Backward(pt: Pairs, c: seq<int>)
    requires Members(|pt|, c)
  {
    forall k | 0 <= k < |c| :: BackLink(pt, c, k)
  }

  /** Every back link is right except possibly the one of position `gap`. */
  ghost predicate BackwardBut(pt: Pairs, c: seq<int>, gap: nat)
    requires Members(|pt|, c)
  {
    forall k | 0 <= k < |c| && k != gap :: BackLink(pt, c, k)
  }

  /** The hardware pair that position `k` of a chain needs. */
  ghost predicate Mirror(p: HwPair, ch: Chain, k: nat)
    requires k < |ch.pairs| == |ch.cells|
  {
    var cell := ch.cells[k];
    && p.first == HwNode(cell.first, cell.Single())
    && (!cell.Single() ==> p.second == HwNode(cell.second, k + 1 == |ch.pairs|))
    && (k + 1 < |ch.pairs| ==> p.next == ch.pairs[k + 1])
  }

  ghost predicate Mirrors(hw: HwPairs, ch: Chain)
    requires Members(|hw|, ch.pairs) && |ch.pairs| == |ch.cells|
  {
    forall k | 0 <= k < |ch.pairs| :: Mirror(hw[ch.pairs[k]], ch, k)
  }

  /** The chain in software, apart from back links. */
  ghost predicate Stored(pt: Pairs, ch: Chain) {
    && Members(|pt|, ch.pairs)
    && |ch.pairs| == |ch.cells|
    && Packed(ch.cells)
    && Forward(pt, ch.pairs)
    && forall k | 0 <= k < |ch.pairs| :: pt[ch.pairs[k]].cell == ch.cells[k]
  }

  /** A well-formed, acyclic, doubly linked chain in software. */
  ghost predicate Linked(pt: Pairs, ch: Chain) {
    Stored(pt, ch) && Backward(pt, ch.pairs)
  }

  /** A chain that is well formed in software and mirrored in hardware. */
  ghost predicate ChainOk(pt: Pairs, hw: HwPairs, ch: Chain) {
    |hw| == |pt| && Linked(pt, ch) && Mirrors(hw, ch)
  }

  // ---------------------------------------------------------------------------
  // Walking the tables
  // ---------------------------------------------------------------------------

  /** The nodes met from pair `i` on by following `succ`; `budget` bounds the pairs visited. */
  function WalkTable(pt: Pairs, i: int, budget: nat): seq<Node>
    decreases budget
  {
    if budget == 0 || !(0 <= i < |pt|) then []
    else pt[i].cell.Nodes() + WalkTable(pt, pt[i].succ, budget - 1)
  }

  /** The nodes the hardware replicates to from pair `i` on: `last` ends the walk. */
  function WalkHardware(hw: HwPairs, i: int, budget: nat): seq<Node>
    decreases budget
  {
    if budget == 0 || !(0 <= i < |hw|) then []
    else if hw[i].first.last then [hw[i].first.node]
    else if hw[i].second.last then [hw[i].first.node, hw[i].second.node]
    else [hw[i].first.node, hw[i].second.node] + WalkHardware(hw, hw[i].next, budget - 1)
  }

  /** The pairs met from the head to pair `i`, found by following `pred`. */
  function WalkBack(pt: Pairs, i: int, budget: nat): seq<int>
    decreases budget
  {
    if budget == 0 || !(0 <= i < |pt|) then []
    else WalkBack(pt, pt[i].pred, budget - 1) + [i]
  }

  lemma {:induction false} WalkTableFrom(pt: Pairs, ch: Chain, k: nat, budget: nat)
    requires Stored(pt, ch)
    requires k < |ch.pairs| <= k + budget
    ensures WalkTable(pt, ch.pairs[k], budget) == Flatten(ch.cells[k..])
    decreases budget
  {
    assert pt[ch.pairs[k]].succ == Next(ch.pairs, k);
    assert ch.cells[k..][1..] == ch.cells[k + 1..];
    if k + 1 < |ch.pairs| {
      WalkTableFrom(pt, ch, k + 1, budget - 1);
    } else {
      assert WalkTable(pt, -1, budget - 1) == [];
    }
  }

  lemma {:induction false} WalkHardwareFrom(hw: HwPairs, ch: Chain, k: nat, budget: nat)
    requires Members(|hw|, ch.pairs) && |ch.pairs| == |ch.cells| && Packed(ch.cells)
    requires Mirrors(hw, ch)
    requires k < |ch.pairs| <= k + budget
    ensures WalkHardware(hw, ch.pairs[k], budget) == Flatten(ch.cells[k..])
    decreases budget
  {
    assert Mirror(hw[ch.pairs[k]], ch, k);
    assert ch.cells[k..][1..] == ch.cells[k + 1..];
    if k + 1 < |ch.pairs| {
      WalkHardwareFrom(hw, ch, k + 1, budget - 1);
    }
  }

  lemma {:induction false} WalkBackFrom(pt: Pairs, c: seq<int>, k: nat, budget: nat)
    requires Members(|pt|, c) && Backward(pt, c)
    requires k < |c| && k < budget
    ensures WalkBack(pt, c[k], budget) == c[..k + 1]
  {
    assert BackLink(pt, c, k);
    if k == 0 {
      assert WalkBack(pt, pt[c[0]].pred, budget - 1) == [];
    } else {
      WalkBackFrom(pt, c, k - 1, budget - 1);
    }
  }

  /** The indices below `n`. */
  ghost function Below(n: nat): (r: set<int>)
    ensures forall x :: x in r <==> 0 <= x < n
    ensures |r| == n
  {
    if n == 0 then {} else Below(n - 1) + {n - 1}
  }

  ghost function Elements(c: seq<int>): (r: set<int>)
    ensures forall x :: x in r <==> x in c
  {
    set x | x in c
  }

  lemma {:induction false} Injected(c: seq<int>)
    requires forall i, j | 0 <= i < j < |c| :: c[i] != c[j]
    ensures |Elements(c)| == |c|
  {
    if c != [] {
      var d := c[..|c| - 1];
      Injected(d);
      assert Elements(c) == Elements(d) + {c[|c| - 1]};
    }
  }

  lemma {:induction false} Subset<T>(a: set<T>, b: set<T>)
    requires a <= b
    ensures |a| <= |b|
  {
    if a != {} {
      var x :| x in a;
      Subset(a - {x}, b - {x});
    }
  }

  lemma {:induction false} ChainFits(size: nat, c: seq<int>)
    requires Members(size, c)
    ensures |c| <= size
  {
    Injected(c);
    Subset(Elements(c), Below(size));
  }

  /** Software and hardware agree: both walks of a well-formed chain from its head yield
      exactly its nodes, and the walk back from its tail yields its pairs. */
  lemma {:induction false} WalksAgree(pt: Pairs, hw: HwPairs, ch: Chain)
    requires ChainOk(pt, hw, ch)
    ensures WalkTable(pt, ch.pairs[0], |pt|) == ch.Nodes()
    ensures WalkHardware(hw, ch.pairs[0], |hw|) == ch.Nodes()
    ensures WalkBack(pt, ch.pairs[|ch.pairs| - 1], |pt|) == ch.pairs
  {
    var c := ch.pairs;
    ChainFits(|pt|, c);
    WalkTableFrom(pt, ch, 0, |pt|);
    WalkHardwareFrom(hw, ch, 0, |hw|);
    WalkBackFrom(pt, c, |c| - 1, |pt|);
    assert ch.cells[0..] == ch.cells;
    assert c[..|c|] == c;
  }

  /** A chain of n nodes occupies exactly ceil(n/2) pairs. */
  lemma {:induction false} PackedSize(cells: seq<Cell>)
    requires Packed(cells)
    ensures |cells| == (|Flatten(cells)| + 1) / 2
    ensures cells[|cells| - 1].Single() <==> |Flatten(cells)| % 2 == 1
  {
    if |cells| > 1 { PackedSize(cells[1..]); }
  }

  // ---------------------------------------------------------------------------
  // Deleting from the cells
  // ---------------------------------------------------------------------------

  function Without<T>(s: seq<T>, k: nat): seq<T>
    requires k < |s|
  {
    s[..k] + s[k + 1..]
  }

  /** The cells after a delete from cell `k`.  The tail just loses the node.  From any other
      cell the node that stays moves to the end, into the tail if that has room. */
  function DeleteFrom(cells: seq<Cell>, k: nat, deleteFirst: bool): seq<Cell>
    requires k < |cells|
  {
    var n := |cells| - 1;
    var keep := cells[k].Other(deleteFirst);
    if k == n then
      if cells[k].Single() then cells[..n] else cells[..n] + [Cell(keep, NO_NODE)]
    else if cells[n].Single() then
      Without(cells[..n], k) + [Cell(cells[n].first, keep)]
    else
      Without(cells, k) + [Cell(keep, NO_NODE)]
  }

  lemma {:induction false} FlattenAppend(a: seq<Cell>, b: seq<Cell>)
    ensures Flatten(a + b) == Flatten(a) + Flatten(b)
  {
    if a == [] {
      assert a + b == b;
    } else {
      assert (a + b)[1..] == a[1..] + b;
      FlattenAppend(a[1..], b);
    }
  }

  lemma {:induction false} FlattenOne(cell: Cell)
    ensures Flatten([cell]) == cell.Nodes()
  {
    assert Flatten([]) == [];
  }

  lemma {:induction false} SplitFlatten(cells: seq<Cell>, k: nat)
    requires k < |cells|
    ensures Flatten(cells) == Flatten(cells[..k]) + cells[k].Nodes() + Flatten(cells[k + 1..])
    ensures Flatten(Without(cells, k)) == Flatten(cells[..k]) + Flatten(cells[k + 1..])
  {
    assert cells == (cells[..k] + [cells[k]]) + cells[k + 1..];
    FlattenAppend(cells[..k] + [cells[k]], cells[k + 1..]);
    FlattenAppend(cells[..k], [cells[k]]);
    FlattenAppend(cells[..k], cells[k + 1..]);
    FlattenOne(cells[k]);
  }

  lemma {:induction false} MiddleOut<T>(a: seq<T>, m: seq<T>, b: seq<T>)
    ensures multiset(a + b) + multiset(m) == multiset(a + m + b)
  {
  }

  /** Taking cell `k` out takes exactly its nodes out. */
  lemma {:induction false} WithoutMultiset(cells: seq<Cell>, k: nat)
    requires k < |cells|
    ensures multiset(Flatten(Without(cells, k))) + multiset(cells[k].Nodes()) == multiset(Flatten(cells))
  {
    SplitFlatten(cells, k);
    MiddleOut(Flatten(cells[..k]), cells[k].Nodes(), Flatten(cells[k + 1..]));
  }

  lemma {:induction false} AppendMultiset(cells: seq<Cell>, cell: Cell)
    ensures multiset(Flatten(cells + [cell])) == multiset(Flatten(cells)) + multiset(cell.Nodes())
  {
    FlattenAppend(cells, [cell]);
    FlattenOne(cell);
  }

  lemma {:induction false} CellMultiset(cell: Cell)
    ensures multiset(cell.Nodes()) ==
            if cell.Single() then multiset{cell.first} else multiset{cell.first} + multiset{cell.second}
  {
  }

  lemma {:induction false} AbsorbMultiset(init: seq<Cell>, tail: Cell, k: nat, deleteFirst: bool)
    requires k < |init| && tail.Single() && !init[k].Single()
    ensures var gone, keep := init[k].Other(!deleteFirst), init[k].Other(deleteFirst);
            keep.vid != 0 ==>
            multiset(Flatten(init + [tail])) ==
            multiset(Flatten(Without(init, k) + [Cell(tail.first, keep)])) + multiset{gone}
  {
    var keep := init[k].Other(deleteFirst);
    AppendMultiset(init, tail);
    WithoutMultiset(init, k);
    AppendMultiset(Without(init, k), Cell(tail.first, keep));
    CellMultiset(tail);
    CellMultiset(Cell(tail.first, keep));
    CellMultiset(init[k]);
  }

  lemma {:induction false} RotateMultiset(cells: seq<Cell>, k: nat, deleteFirst: bool)
    requires k < |cells| && !cells[k].Single()
    ensures var gone, keep := cells[k].Other(!deleteFirst), cells[k].Other(deleteFirst);
            multiset(Flatten(cells)) ==
            multiset(Flatten(Without(cells, k) + [Cell(keep, NO_NODE)])) + multiset{gone}
  {
    var keep := cells[k].Other(deleteFirst);
    WithoutMultiset(cells, k);
    AppendMultiset(Without(cells, k), Cell(keep, NO_NODE));
    CellMultiset(Cell(keep, NO_NODE));
    CellMultiset(cells[k]);
  }

  /** A delete removes exactly one occurrence of the node. */
  lemma {:induction false} DeleteFromMultiset(cells: seq<Cell>, k: nat, deleteFirst: bool)
    requires Packed(cells) && k < |cells|
    requires !deleteFirst ==> !cells[k].Single()
    ensures multiset(Flatten(cells)) ==
            multiset(Flatten(DeleteFrom(cells, k, deleteFirst))) + multiset{cells[k].Other(!deleteFirst)}
  {
    var n := |cells| - 1;
    var cells' := DeleteFrom(cells, k, deleteFirst);
    var keep := Cell(cells[k].Other(deleteFirst), NO_NODE);
    if k == n {
      assert Without(cells, k) == cells[..n];
    }
    if cells[k].Single() {
      assert cells' == Without(cells, k);
      WithoutMultiset(cells, k);
      CellMultiset(cells[k]);
    } else if k < n && cells[n].Single() {
      assert cells == cells[..n] + [cells[n]];
      AbsorbMultiset(cells[..n], cells[n], k, deleteFirst);
    } else {
      assert cells' == Without(cells, k) + [keep];
      RotateMultiset(cells, k, deleteFirst);
    }
  }

  /** A delete keeps every pair but the tail full. */
  lemma {:induction false} DeleteFromPacked(cells: seq<Cell>, k: nat, deleteFirst: bool)
    requires Packed(cells) && k < |cells|
    requires !deleteFirst ==> !cells[k].Single()
    ensures DeleteFrom(cells, k, deleteFirst) == [] || Packed(DeleteFrom(cells, k, deleteFirst))
  {
  }

  /** Position of the first cell holding `n`. */
  ghost predicate FirstWith(cells: seq<Cell>, n: Node, k: nat) {
    && k < |cells|
    && n in cells[k].Nodes()
    && forall i | 0 <= i < k :: n !in cells[i].Nodes()
  }

  lemma {:induction false} FlattenHas(cells: seq<Cell>, n: Node)
    ensures n in Flatten(cells) <==> exists k | 0 <= k < |cells| :: n in cells[k].Nodes()
  {
    if cells != [] {
      FlattenHas(cells[1..], n);
      if n in Flatten(cells) && n !in cells[0].Nodes() {
        var k :| 0 <= k < |cells[1..]| && n in cells[1..][k].Nodes();
        assert n in cells[k + 1].Nodes();
      }
      if k :| 0 <= k < |cells| && n in cells[k].Nodes() {
        if k > 0 { assert n in cells[1..][k - 1].Nodes(); }
      }
    }
  }
}
