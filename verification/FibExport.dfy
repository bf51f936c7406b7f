/** All routes in one flat buffer: a count, then for each route a header and its next hops.  The
    FDB manager walks the buffer and writes a tag over the cell before each record it sends. */
module FibExport {
  import opened FibSpec
  import Fib

  /** A piece of the buffer; `Tagged` is one whose tail a tag was written over. */
  datatype Cell =
    | Blank
    | Count(n: nat)
    | Head(dst: Addr, len: nat, count: nat)
    | Hop(gw: Addr, vid: int)
    | Tagged(was: Cell)

  /** The routes of the first `n` lengths, shortest first, each length in the order it was filled. */
  function Listed(ts: Tables, n: nat): seq<Entry>
    requires n <= |ts|
  {
    if n == 0 then [] else Listed(ts, n - 1) + ts[n - 1]
  }

  function HopCells(t: Entry): (s: seq<Cell>)
    requires |t.gws| == |t.vids|
    ensures |s| == |t.gws|
  {
    seq(|t.gws|, j requires 0 <= j < |t.gws| => Hop(t.gws[j], t.vids[j]))
  }

  /** What is sent for a route. */
  function Record(t: Entry): seq<Cell>
    requires |t.gws| == |t.vids|
  {
    [Head(t.pfx, t.len, |t.gws|)] + HopCells(t)
  }

  ghost predicate Even(l: seq<Entry>) {
    forall k | 0 <= k < |l| :: |l[k].gws| == |l[k].vids|
  }

  /** The records one after the other. */
  function Flat(l: seq<Entry>): (s: seq<Cell>)
    requires Even(l)
  {
    if l == [] then [] else Flat(l[..|l| - 1]) + Record(l[|l| - 1])
  }

  function HopCount(l: seq<Entry>): nat {
    if l == [] then 0 else HopCount(l[..|l| - 1]) + |l[|l| - 1].gws|
  }

  lemma {:induction false} FlatSize(l: seq<Entry>)
    requires Even(l)
    ensures |Flat(l)| == |l| + HopCount(l)
  {
    if l != [] { FlatSize(l[..|l| - 1]); }
  }

  lemma {:induction false} FlatNext(l: seq<Entry>, k: nat)
    requires Even(l) && k < |l|
    ensures Flat(l[..k + 1]) == Flat(l[..k]) + Record(l[k])
    ensures HopCount(l[..k + 1]) == HopCount(l[..k]) + |l[k].gws|
  {
    assert l[..k + 1][..k] == l[..k];
  }

  lemma {:induction false} FlatPrefix(l: seq<Entry>, k: nat)
    requires Even(l) && k <= |l|
    ensures Flat(l[..k]) <= Flat(l)
    decreases |l| - k
  {
    if k < |l| {
      FlatPrefix(l, k + 1);
      FlatNext(l, k);
    } else {
      assert l[..k] == l;
    }
  }

  /** Every record sits right after the records before it. */
  lemma {:induction false} FlatAt(l: seq<Entry>, k: nat)
    requires Even(l) && k < |l|
    ensures var p := |Flat(l[..k])|;
            && p + 1 + |l[k].gws| == |Flat(l[..k + 1])| <= |Flat(l)|
            && Flat(l)[p..p + 1 + |l[k].gws|] == Record(l[k])
  {
    FlatNext(l, k);
    FlatPrefix(l, k + 1);
    FlatPrefix(l, k);
  }

  lemma {:induction false} TableEven(t: Table, len: nat)
    requires len <= 32 && TableOk(t, len)
    ensures Even(t)
  {
    hide Cut, Distinct, Connected, HostOf;
    forall k | 0 <= k < |t|
      ensures |t[k].gws| == |t[k].vids|
    {
      assert EntryOk(t[k], len);
    }
  }

  lemma {:induction false} ListedEven(ts: Tables, n: nat)
    requires TablesOk(ts) && n <= 33
    ensures Even(Listed(ts, n))
  {
    hide TableOk;
    if n > 0 {
      ListedEven(ts, n - 1);
      TableEven(ts[n - 1], n - 1);
    }
  }

  lemma {:induction false} ListedPrefix(ts: Tables, i: nat, n: nat)
    requires i <= n <= |ts|
    ensures Listed(ts, i) <= Listed(ts, n)
    ensures i < n ==> Listed(ts, i) + ts[i] <= Listed(ts, n)
    decreases n - i
  {
    if i < n { ListedPrefix(ts, i + 1, n); }
  }

  predicate Holds(ts: Tables, len: nat, t: Entry) {
    len < |ts| && t in ts[len]
  }

  /** The list holds exactly the routes shorter than `n`. */
  lemma {:induction false} ListedAll(ts: Tables, n: nat, t: Entry)
    requires n <= |ts|
    ensures t in Listed(ts, n) <==> exists len :: 0 <= len < n && Holds(ts, len, t)
  {
    if n > 0 {
      ListedAll(ts, n - 1, t);
      assert Holds(ts, n - 1, t) <==> t in ts[n - 1];
    }
  }

  // ---------------------------------------------------------------------------
  // Building
  // ---------------------------------------------------------------------------

  /** The position in the list that the loops over tables and entries have come to. */
  lemma {:induction false} ListedStep(ts: Tables, i: nat, j: nat)
    requires |ts| == 33 && i < 32 && j < |ts[i]|
    ensures var l, k := Listed(ts, 32), |Listed(ts, i)| + j; k < |l| && l[k] == ts[i][j]
  {
    ListedPrefix(ts, i, 32);
  }

  /** A stretch of the buffer overwritten. */
  function Over(s: seq<Cell>, p: nat, r: seq<Cell>): seq<Cell>
    requires p + |r| <= |s|
  {
    s[..p] + r + s[p + |r|..]
  }

  method WriteRecord(buf: array<Cell>, p: nat, t: Entry)
    requires |t.gws| == |t.vids| && p + 1 + |t.gws| <= buf.Length
    modifies buf
    ensures buf[..] == Over(old(buf[..]), p, Record(t))
  {
    var q := p + 1;
    buf[p] := Head(t.pfx, t.len, 0);
    var j := 0;
    while j < |t.gws|
      invariant 0 <= j <= |t.gws|
      invariant buf[p] == Head(t.pfx, t.len, 0)
      invariant forall x | q <= x < q + j :: buf[x].Hop? && buf[x].gw == t.gws[x - q]
      invariant forall x | 0 <= x < buf.Length && !(p <= x < q + |t.gws|) :: buf[x] == old(buf[x])
    {
      buf[q + j] := Hop(t.gws[j], if buf[q + j].Hop? then buf[q + j].vid else 0);
      j := j + 1;
    }
    j := 0;
    while j < |t.vids|
      invariant 0 <= j <= |t.vids|
      invariant buf[p] == Head(t.pfx, t.len, 0)
      invariant forall x | q <= x < q + |t.gws| :: buf[x].Hop? && buf[x].gw == t.gws[x - q]
      invariant forall x | q <= x < q + j :: buf[x].vid == t.vids[x - q]
      invariant forall x | 0 <= x < buf.Length && !(p <= x < q + |t.gws|) :: buf[x] == old(buf[x])
    {
      buf[q + j] := buf[q + j].(vid := t.vids[j]);
      j := j + 1;
    }
    buf[p] := buf[p].(count := j);
  }

  /** The count and the first `k` records fill the buffer up to `p`. */
  ghost predicate Filled(s: seq<Cell>, l: seq<Entry>, k: nat, p: nat) {
    && Even(l) && k <= |l| && |s| == 1 + |Flat(l)|
    && p == 1 + |Flat(l[..k])| <= |s| && s[..p] == [Count(|l|)] + Flat(l[..k])
  }

  lemma {:induction false} FilledStart(s: seq<Cell>, l: seq<Entry>)
    requires Even(l) && |s| == 1 + |Flat(l)| && s[0] == Count(|l|)
    ensures Filled(s, l, 0, 1)
  {
    assert l[..0] == [];
  }

  lemma {:induction false} FilledStep(s: seq<Cell>, l: seq<Entry>, k: nat, p: nat)
    requires Filled(s, l, k, p) && k < |l|
    ensures |l[k].gws| == |l[k].vids| && p + |Record(l[k])| <= |s|
    ensures Filled(Over(s, p, Record(l[k])), l, k + 1, p + |Record(l[k])|)
  {
    hide Flat, Record;
    FlatNext(l, k);
    FlatPrefix(l, k + 1);
    assert Over(s, p, Record(l[k]))[..p + |Record(l[k])|] == s[..p] + Record(l[k]);
  }

  lemma {:induction false} FilledEnd(s: seq<Cell>, l: seq<Entry>, p: nat)
    requires Filled(s, l, |l|, p)
    ensures s == [Count(|l|)] + Flat(l)
  {
    assert l[..|l|] == l && s[..|s|] == s;
  }

  /** Counts the routes and their next hops. */
  method CountRoutes(f: Fib.Fib) returns (routes: nat, hops: nat)
    requires f.Valid()
    ensures routes == |Listed(f.e[..], 32)| && hops == HopCount(Listed(f.e[..], 32))
  {
    hide Listed, TablesOk, HopCount;
    ghost var ts := f.e[..];
    ghost var l := Listed(ts, 32);
    ListedEven(ts, 32);
    ListedStart(ts, l);
    routes, hops := 0, 0;
    var i := 0;
    while i < 32
      invariant 0 <= i <= 32
      invariant routes == |Listed(ts, i)| <= |l| && hops == HopCount(l[..routes])
    {
      ListedNext(ts, i);
      var j := 0;
      while j < |f.e[i]|
        invariant 0 <= j <= |ts[i]|
        invariant routes == |Listed(ts, i)| + j <= |l| && hops == HopCount(l[..routes])
      {
        ListedStep(ts, i, j);
        FlatNext(l, routes);
        routes := routes + 1;
        hops := hops + |f.e[i][j].gws|;
        j := j + 1;
      }
      i := i + 1;
    }
    assert l[..routes] == l;
  }

  lemma {:induction false} ListedStart(ts: Tables, l: seq<Entry>)
    ensures Listed(ts, 0) == [] && HopCount(l[..0]) == 0
  {
  }

  lemma {:induction false} ListedNext(ts: Tables, i: nat)
    requires i < 32 && |ts| == 33
    ensures |Listed(ts, i + 1)| == |Listed(ts, i)| + |ts[i]| <= |Listed(ts, 32)|
  {
    ListedPrefix(ts, i, 32);
  }

  /** Builds the buffer: it is filled to the last cell, and nothing is written beyond. */
  method GetRoutes(f: Fib.Fib) returns (buf: array<Cell>)
    requires f.Valid()
    ensures fresh(buf)
    ensures var l := Listed(f.e[..], 32); Even(l) && buf[..] == [Count(|l|)] + Flat(l)
  {
    hide Listed, TablesOk, HopCount, Flat, Filled, Record, Over;
    ghost var ts := f.e[..];
    ghost var l := Listed(ts, 32);
    ListedEven(ts, 32);
    FlatSize(l);
    var routes, hops := CountRoutes(f);
    buf := new Cell[1 + routes + hops](_ => Blank);
    buf[0] := Count(routes);
    var p: nat := 1;
    ghost var k: nat := 0;
    FilledStart(buf[..], l);
    ListedStart(ts, l);
    var i := 0;
    while i < 32
      invariant 0 <= i <= 32 && k == |Listed(ts, i)| <= |l|
      invariant fresh(buf) && f.e[..] == ts && Filled(buf[..], l, k, p)
    {
      ListedNext(ts, i);
      var j := 0;
      while j < |f.e[i]|
        invariant 0 <= j <= |ts[i]| && k == |Listed(ts, i)| + j <= |l|
        invariant fresh(buf) && f.e[..] == ts && Filled(buf[..], l, k, p)
      {
        ListedStep(ts, i, j);
        FilledStep(buf[..], l, k, p);
        RecordSize(l[k]);
        WriteRecord(buf, p, f.e[i][j]);
        p := p + 1 + |f.e[i][j].gws|;
        k := k + 1;
        j := j + 1;
      }
      i := i + 1;
    }
    FilledEnd(buf[..], l, p);
  }

  lemma {:induction false} RecordSize(t: Entry)
    requires |t.gws| == |t.vids|
    ensures |Record(t)| == 1 + |t.gws|
  {
  }

  // ---------------------------------------------------------------------------
  // Walking
  // ---------------------------------------------------------------------------

  function Records(l: seq<Entry>): (s: seq<seq<Cell>>)
    requires Even(l)
    ensures |s| == |l| && forall k | 0 <= k < |l| :: s[k] == Record(l[k])
  {
    seq(|l|, k requires 0 <= k < |l| && |l[k].gws| == |l[k].vids| => Record(l[k]))
  }

  /** The walk has come to record `i`, at `rt`, and no cell from there on is damaged. */
  ghost predicate Ahead(s: seq<Cell>, l: seq<Entry>, i: nat, rt: nat) {
    && Even(l) && i <= |l| && |s| == 1 + |Flat(l)| && rt == 1 + |Flat(l[..i])| <= |s|
    && s[rt..] == Flat(l)[rt - 1..]
  }

  lemma {:induction false} AheadStart(s: seq<Cell>, l: seq<Entry>)
    requires Even(l) && s == [Count(|l|)] + Flat(l)
    ensures Ahead(s, l, 0, 1)
  {
    assert l[..0] == [];
  }

  /** The record ahead is whole; the tag, on the cell before it, damages no other. */
  lemma {:induction false} AheadStep(s: seq<Cell>, l: seq<Entry>, i: nat, rt: nat, s': seq<Cell>)
    requires Ahead(s, l, i, rt) && i < |l|
    requires |s'| == |s| && forall x | rt <= x < |s| :: s'[x] == s[x]
    ensures |l[i].gws| == |l[i].vids| && rt + |Record(l[i])| <= |s|
    ensures s[rt..rt + |Record(l[i])|] == s'[rt..rt + |Record(l[i])|] == Record(l[i])
    ensures Ahead(s', l, i + 1, rt + |Record(l[i])|)
  {
    hide Flat;
    FlatAt(l, i);
    FlatNext(l, i);
    var p, q := rt - 1, rt - 1 + |Record(l[i])|;
    assert s[rt..q + 1] == Flat(l)[p..][..q - p] == Flat(l)[p..q];
    assert s'[q + 1..] == s[rt..][q - p..] == Flat(l)[p..][q - p..] == Flat(l)[q..];
  }

  lemma {:induction false} RecordHead(s: seq<Cell>, rt: nat, t: Entry)
    requires |t.gws| == |t.vids| && rt + |Record(t)| <= |s| && s[rt..rt + |Record(t)|] == Record(t)
    ensures |Record(t)| == 1 + |t.gws| && s[rt] == Head(t.pfx, t.len, |t.gws|)
  {
    assert s[rt] == s[rt..rt + |Record(t)|][0];
  }

  /** The cell right before one of the first `n` records. */
  ghost predicate TagAt(l: seq<Entry>, n: nat, x: int)
    requires Even(l) && n <= |l|
  {
    exists k | 0 <= k < n :: |Flat(l[..k])| == x
  }

  lemma {:induction false} TagNext(l: seq<Entry>, i: nat, x: int)
    requires Even(l) && i < |l|
    ensures TagAt(l, i + 1, x) <==> TagAt(l, i, x) || x == |Flat(l[..i])|
  {
    hide Flat;
  }

  lemma {:induction false} RecordCells(t: Entry)
    requires |t.gws| == |t.vids|
    ensures |Record(t)| == 1 + |t.gws| && Record(t)[0] == Head(t.pfx, t.len, |t.gws|)
    ensures forall j | 1 <= j < |Record(t)| :: Record(t)[j] == Hop(t.gws[j - 1], t.vids[j - 1])
  {
  }

  /** Sends every record, with a tag written over the cell before it: exactly the routes that were
      put in, in their order, each with its own next hops. */
  method SyncRouting(buf: array<Cell>, ghost l: seq<Entry>) returns (sent: seq<seq<Cell>>)
    requires Even(l) && buf[..] == [Count(|l|)] + Flat(l)
    modifies buf
    ensures sent == Records(l)
    ensures |sent| == |l|
    ensures forall k | 0 <= k < |l| ::
              |sent[k]| == 1 + |l[k].gws| && sent[k][0] == Head(l[k].pfx, l[k].len, |l[k].gws|)
    ensures forall k, j | 0 <= k < |l| && 1 <= j < |sent[k]| :: sent[k][j] == Hop(l[k].gws[j - 1], l[k].vids[j - 1])
    ensures forall x | 0 <= x < buf.Length ::
              buf[x] == if TagAt(l, |l|, x) then Tagged(old(buf[x])) else old(buf[x])
  {
    hide Flat, Record, Ahead, TagAt;
    var nr := buf[0].n;
    var rt: nat := 1;
    var i := 0;
    sent := [];
    AheadStart(buf[..], l);
    TagNone(l);
    while i < nr
      invariant 0 <= i <= nr == |l|
      invariant Ahead(buf[..], l, i, rt)
      invariant |sent| == i && forall k | 0 <= k < i :: sent[k] == Record(l[k])
      invariant forall x | TagAt(l, i, x) :: x < rt - 1
      invariant forall x | 0 <= x < buf.Length ::
                  buf[x] == if TagAt(l, i, x) then Tagged(old(buf[x])) else old(buf[x])
    {
      ghost var s := buf[..];
      AheadStep(s, l, i, rt, s);
      buf[rt - 1] := Tagged(buf[rt - 1]);
      AheadStep(s, l, i, rt, buf[..]);
      RecordHead(buf[..], rt, l[i]);
      Behind(s, l, i, rt);
      ghost var n := i + 1;
      forall x
        ensures TagAt(l, n, x) <==> TagAt(l, i, x) || x == rt - 1
      {
        TagNext(l, i, x);
      }
      var end := rt + 1 + buf[rt].count;
      sent := sent + [buf[rt..end]];
      rt := end;
      i := i + 1;
    }
    forall k | 0 <= k < |l|
      ensures |sent[k]| == 1 + |l[k].gws| && sent[k][0] == Head(l[k].pfx, l[k].len, |l[k].gws|)
      ensures forall j | 1 <= j < |sent[k]| :: sent[k][j] == Hop(l[k].gws[j - 1], l[k].vids[j - 1])
    {
      RecordCells(l[k]);
    }
  }

  lemma {:induction false} TagNone(l: seq<Entry>)
    requires Even(l)
    ensures forall x :: !TagAt(l, 0, x)
  {
  }

  lemma {:induction false} Behind(s: seq<Cell>, l: seq<Entry>, i: nat, rt: nat)
    requires Ahead(s, l, i, rt)
    ensures rt - 1 == |Flat(l[..i])|
  {
  }
}
