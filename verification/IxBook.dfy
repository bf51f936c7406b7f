/** The index book of the user access lists: three contiguous zones in one range of the hardware's
    rule table, and the bindings from rules to indices, all renumbered in place. */
module IxBook {
  import opened Common
  import opened IxBookSpec

  datatype Status = OK | BadValue
  datatype BookStatus = BookOK | BadArg | NoIndexes

  const DEFAULT_START := 2000

  // --- one step of a shift, on values ------------------------------------------

  lemma {:induction false} UpStep(bs: Bindings, i: int, top: int)
    requires i < top
    ensures Edited(ShiftedUp(bs, i + 1, top), i, i + 1) == ShiftedUp(bs, i, top)
  {
  }

  lemma {:induction false} DownStep(bs: Bindings, lo: int, i: int)
    requires lo <= i
    ensures Edited(ShiftedDown(bs, lo, i), i + 1, i) == ShiftedDown(bs, lo, i + 1)
  {
  }

  class Book {
    const start: int
    const end: int
    var aclEnd: int
    var qosEnd: int
    var pbrEnd: int

    /** The bindings, in the order in which they were made. */
    var bindings: Bindings

    /** The rule table; a dry run leaves it alone. */
    const tcam: array<Option<Key>>
    const fake: bool

    /** The keys whose rule reached the table. */
    ghost var written: set<Key>

    ghost predicate Shape()
      reads this
    {
      && 0 < start <= aclEnd <= qosEnd <= pbrEnd <= end <= tcam.Length
      && end < 0x10000
    }

    /** The zones are as wide as their keys are many. */
    ghost predicate Zoned()
      reads this
    {
      var ks := Keys(bindings);
      aclEnd == start + Below(ks, 1) && qosEnd == start + Below(ks, 2) && pbrEnd == start + |ks|
    }

    ghost predicate Proper()
      reads this
    {
      ProperKeys(Keys(bindings))
    }

    ghost predicate Valid()
      reads this, tcam
    {
      && Shape() && Zoned() && Proper()
      && Indexed(bindings, start)
      && (!fake ==> Mirrored(bindings, start, end, tcam[..], written))
    }

    constructor (first: int, size: nat, table: array<Option<Key>>, dry: bool)
      requires 0 <= first && (if first == 0 then DEFAULT_START else first) + size < 0x10000
      requires (if first == 0 then DEFAULT_START else first) + size <= table.Length
      requires !dry ==>
                 var s := if first == 0 then DEFAULT_START else first;
                 forall i | s <= i < s + size :: table[i] == None
      ensures Valid() && bindings == [] && tcam == table && fake == dry
      ensures start == (if first == 0 then DEFAULT_START else first) && end == start + size
    {
      var s := first;
      if s == 0 {
        s := DEFAULT_START;
      }
      start := s;
      end := s + size;
      aclEnd, qosEnd, pbrEnd := s, s, s;
      bindings := [];
      tcam, fake := table, dry;
      written := {};
    }

    /** Each action type has its own stretch of the range, and the three stretches fill it; the table
        holds a rule that was written at its index. */
    lemma {:induction false} Stretches(p: nat)
      requires Valid() && p < |bindings|
      ensures bindings[p].key.act.Acl? <==> start <= bindings[p].ix < aclEnd
      ensures bindings[p].key.act.Policy? <==> aclEnd <= bindings[p].ix < qosEnd
      ensures bindings[p].key.act.PolicyRoute? <==> qosEnd <= bindings[p].ix < pbrEnd
      ensures !fake ==> tcam[bindings[p].ix] == if bindings[p].key in written then Some(bindings[p].key) else None
    {
      hide Indexed, Below;
      IndexZone(bindings, start, p);
      assert bindings[p].key == Keys(bindings)[p];
    }

    // -------------------------------------------------------------------------
    // Moving rules
    // -------------------------------------------------------------------------

    method EditIx(o: int, n: int)
      modifies this`bindings
      ensures bindings == Edited(old(bindings), o, n)
    {
      ghost var bs := bindings;
      var j := 0;
      while j < |bindings|
        invariant 0 <= j <= |bindings| == |bs|
        invariant forall p | 0 <= p < j :: bindings[p] == if bs[p].ix == o then bs[p].(ix := n) else bs[p]
        invariant forall p | j <= p < |bs| :: bindings[p] == bs[p]
      {
        if bindings[j].ix == o {
          bindings := bindings[j := bindings[j].(ix := n)];
        }
        j := j + 1;
      }
    }

    method MoveRule(o: int, n: int)
      requires 0 <= o < tcam.Length && 0 <= n < tcam.Length && o != n
      modifies this`bindings, tcam
      ensures bindings == Edited(old(bindings), o, n)
      ensures tcam[..] == if fake then old(tcam[..]) else old(tcam[..])[n := old(tcam[..])[o]][o := None]
    {
      if !fake {
        tcam[n] := tcam[o];
        tcam[o] := None;
      }
      EditIx(o, n);
    }

    /** Makes room at `lo`. */
    method MoveUp(lo: int)
      requires 0 <= lo <= pbrEnd < tcam.Length
      modifies this`bindings, tcam
      ensures bindings == ShiftedUp(old(bindings), lo, pbrEnd)
      ensures tcam[..] == if fake then old(tcam[..]) else SlotsUp(old(tcam[..]), lo, pbrEnd)
    {
      ghost var bs, t, top := bindings, tcam[..], pbrEnd;
      var i := pbrEnd - 1;
      assert ShiftedUp(bs, top, top) == bs && SlotsUp(t, top, top) == t;
      while i >= lo
        invariant lo - 1 <= i < top
        invariant bindings == ShiftedUp(bs, i + 1, top)
        invariant tcam[..] == if fake then t else SlotsUp(t, i + 1, top)
      {
        MoveRule(i, i + 1);
        UpStep(bs, i, top);
        assert !fake ==> tcam[..] == SlotsUp(t, i, top);
        i := i - 1;
      }
    }

    /** Closes the gap at `lo`.  Until the caller drops its binding, two bindings share that index. */
    method MoveDown(lo: int)
      requires 0 <= lo < pbrEnd <= tcam.Length
      modifies this`bindings, tcam
      ensures bindings == ShiftedDown(old(bindings), lo, pbrEnd - 1)
      ensures tcam[..] == if fake then old(tcam[..]) else SlotsDown(old(tcam[..]), lo, pbrEnd - 1)
    {
      ghost var bs, t := bindings, tcam[..];
      var last := pbrEnd - 1;
      var i := lo;
      assert ShiftedDown(bs, lo, lo) == bs && SlotsDown(t, lo, lo) == t;
      while i < last
        invariant lo <= i <= last
        invariant bindings == ShiftedDown(bs, lo, i)
        invariant tcam[..] == if fake then t else SlotsDown(t, lo, i)
      {
        MoveRule(i + 1, i);
        DownStep(bs, lo, i);
        assert !fake ==> tcam[..] == SlotsDown(t, lo, i + 1);
        i := i + 1;
      }
    }

    // -------------------------------------------------------------------------
    // Taking and returning indices
    // -------------------------------------------------------------------------

    method AclTake() returns (st: BookStatus, ix: int)
      requires Shape()
      modifies this`aclEnd, this`qosEnd, this`pbrEnd, this`bindings, tcam
      ensures Taken(st, ix, 0, old(aclEnd), old(qosEnd), old(pbrEnd), old(bindings), old(tcam[..]))
    {
      ix := 0;
      if pbrEnd == end {
        return NoIndexes, ix;
      }
      MoveUp(aclEnd);
      ix := aclEnd;
      aclEnd, qosEnd, pbrEnd := aclEnd + 1, qosEnd + 1, pbrEnd + 1;
      st := BookOK;
    }

    method QosTake() returns (st: BookStatus, ix: int)
      requires Shape()
      modifies this`aclEnd, this`qosEnd, this`pbrEnd, this`bindings, tcam
      ensures Taken(st, ix, 1, old(aclEnd), old(qosEnd), old(pbrEnd), old(bindings), old(tcam[..]))
    {
      ix := 0;
      if pbrEnd == end {
        return NoIndexes, ix;
      }
      MoveUp(qosEnd);
      ix := qosEnd;
      qosEnd, pbrEnd := qosEnd + 1, pbrEnd + 1;
      st := BookOK;
    }

    method PbrTake() returns (st: BookStatus, ix: int)
      requires Shape()
      modifies this`aclEnd, this`qosEnd, this`pbrEnd, this`bindings, tcam
      ensures Taken(st, ix, 2, old(aclEnd), old(qosEnd), old(pbrEnd), old(bindings), old(tcam[..]))
    {
      ix := 0;
      if pbrEnd == end {
        return NoIndexes, ix;
      }
      ix := pbrEnd;
      pbrEnd := pbrEnd + 1;
      assert ShiftedUp(bindings, ix, ix) == bindings && SlotsUp(tcam[..], ix, ix) == tcam[..];
      st := BookOK;
    }

    /** An index of zone `z` was handed out, unless none is left. */
    ghost predicate Taken(st: BookStatus, ix: int, z: nat, a: int, q: int, p: int, bs: Bindings, t: seq<Option<Key>>)
      requires 0 <= a <= q <= p <= |t|
      reads this, tcam
    {
      if p == end then
        st == NoIndexes && aclEnd == a && qosEnd == q && pbrEnd == p && bindings == bs && tcam[..] == t
      else
        && p < |t|
        && st == BookOK && ix == (if z == 0 then a else if z == 1 then q else p)
        && aclEnd == (if z == 0 then a + 1 else a) && qosEnd == (if z <= 1 then q + 1 else q) && pbrEnd == p + 1
        && bindings == ShiftedUp(bs, ix, p)
        && tcam[..] == if fake then t else SlotsUp(t, ix, p)
    }

    method Take(act: ActType) returns (st: BookStatus, ix: int)
      requires Shape()
      modifies this`aclEnd, this`qosEnd, this`pbrEnd, this`bindings, tcam
      ensures if act.Other?
              then && st == BadArg && bindings == old(bindings) && tcam[..] == old(tcam[..])
                   && aclEnd == old(aclEnd) && qosEnd == old(qosEnd) && pbrEnd == old(pbrEnd)
              else Taken(st, ix, Zone(act), old(aclEnd), old(qosEnd), old(pbrEnd), old(bindings), old(tcam[..]))
    {
      match act {
        case Acl => st, ix := AclTake();
        case Policy => st, ix := QosTake();
        case PolicyRoute => st, ix := PbrTake();
        case Other => st, ix := BadArg, 0;
      }
    }

    /** An index was given back: its zone and those above it end one lower. */
    method Return(ix: int) returns (st: BookStatus)
      requires Shape()
      modifies this`aclEnd, this`qosEnd, this`pbrEnd, this`bindings, tcam
      ensures st == if start <= ix < old(pbrEnd) then BookOK else BadArg
      ensures st == BadArg ==>
                && bindings == old(bindings) && tcam[..] == old(tcam[..])
                && aclEnd == old(aclEnd) && qosEnd == old(qosEnd) && pbrEnd == old(pbrEnd)
      ensures st == BookOK ==>
                && aclEnd == (if ix < old(aclEnd) then old(aclEnd) - 1 else old(aclEnd))
                && qosEnd == (if ix < old(qosEnd) then old(qosEnd) - 1 else old(qosEnd))
                && pbrEnd == old(pbrEnd) - 1
                && bindings == ShiftedDown(old(bindings), ix, pbrEnd)
                && tcam[..] == if fake then old(tcam[..]) else SlotsDown(old(tcam[..]), ix, pbrEnd)
    {
      if ix < aclEnd {
        if ix < start || ix >= aclEnd {
          return BadArg;
        }
        MoveDown(ix);
        aclEnd, qosEnd, pbrEnd := aclEnd - 1, qosEnd - 1, pbrEnd - 1;
        return BookOK;
      } else if ix < qosEnd {
        MoveDown(ix);
        qosEnd, pbrEnd := qosEnd - 1, pbrEnd - 1;
        return BookOK;
      } else if ix < pbrEnd {
        MoveDown(ix);
        pbrEnd := pbrEnd - 1;
        return BookOK;
      } else {
        return BadArg;
      }
    }

    // -------------------------------------------------------------------------
    // Rules
    // -------------------------------------------------------------------------

    method FindRuleIx(k: Key) returns (st: Status, ix: int)
      requires Valid()
      ensures st == OK <==> k in Keys(bindings)
      ensures st == OK ==> Binding(k, ix) in bindings
    {
      var j := 0;
      while j < |bindings|
        invariant 0 <= j <= |bindings|
        invariant forall p | 0 <= p < j :: bindings[p].key != k
      {
        if bindings[j].key == k {
          assert Keys(bindings)[j] == k && bindings[j] == Binding(k, bindings[j].ix);
          return OK, bindings[j].ix;
        }
        j := j + 1;
      }
      return BadValue, 0;
    }

    /** Binds a rule and writes it, unless something between the two fails (`complete` is false). */
    method AddRule(k: Key, complete: bool) returns (st: Status, ix: int)
      requires Valid()
      modifies this`aclEnd, this`qosEnd, this`pbrEnd, this`bindings, this`written, tcam
      ensures Valid()
      ensures st == if k in Keys(old(bindings)) || k.act.Other? || old(pbrEnd) == end then BadValue else OK
      ensures st == BadValue ==>
                bindings == old(bindings) && tcam[..] == old(tcam[..]) && written == old(written)
      ensures st == OK ==>
                && Keys(bindings) == Keys(old(bindings)) + [k]
                && bindings == Bound(old(bindings), start, k)
                && written == if complete && !fake then old(written) + {k} else old(written) - {k}
      ensures st == OK ==>
                && (k.act.Acl? ==> ix == old(aclEnd) && aclEnd == ix + 1 && qosEnd == old(qosEnd) + 1)
                && (k.act.Policy? ==> ix == old(qosEnd) && aclEnd == old(aclEnd) && qosEnd == ix + 1)
                && (k.act.PolicyRoute? ==> ix == old(pbrEnd) && aclEnd == old(aclEnd) && qosEnd == old(qosEnd))
                && pbrEnd == old(pbrEnd) + 1
                && OneUp(old(bindings), bindings, k, ix)
      ensures st == BadValue ==> aclEnd == old(aclEnd) && qosEnd == old(qosEnd) && pbrEnd == old(pbrEnd)
      ensures fake ==> tcam[..] == old(tcam[..])
      ensures forall i | 0 <= i < tcam.Length && !(start <= i < end) :: tcam[i] == old(tcam[i])
    {
      hide Indexed, Mirrored, Keys, Below, ShiftedUp, ProperKeys, Bound, SlotsUp, Distinct, OneUp;
      ghost var bs, t := bindings, tcam[..];
      var found, _ := FindRuleIx(k);
      if found == OK {
        return BadValue, 0;
      }
      var rc: BookStatus;
      rc, ix := Take(k.act);
      if rc != BookOK {
        return BadValue, 0;
      }
      BoundIndexed(bs, start, k);
      if !fake { BoundMirrored(bs, start, end, t, written, k); }
      BoundSteps(bs, start, k, ix, bindings);
      if !fake { SlotsUpOutside(t, ix, start + |bs|); }
      bindings := bindings + [Binding(k, ix)];
      BelowPush(Keys(bs), k, 1);
      BelowPush(Keys(bs), k, 2);
      ProperPush(Keys(bs), k);
      BoundPlain(bs, start, k, ix);
      written := written - {k};
      if complete && !fake {
        WrittenMirrored(bindings, start, end, tcam[..], written);
        tcam[ix] := Some(k);
        written := written + {k};
      }
      st := OK;
    }

    /** Lets the `r`-th binding go, and its rule. */
    method RemoveAt(r: nat)
      requires Valid() && r < |bindings|
      modifies this`aclEnd, this`qosEnd, this`pbrEnd, this`bindings, this`written, tcam
      ensures Valid()
      ensures Keys(bindings) == Without(Keys(old(bindings)), r)
      ensures bindings == Freed(old(bindings), start, r)
      ensures written == old(written) - {old(bindings)[r].key}
      ensures fake ==> tcam[..] == old(tcam[..])
      ensures forall i | 0 <= i < tcam.Length && !(start <= i < end) :: tcam[i] == old(tcam[i])
    {
      hide Indexed, Mirrored, Keys, Below, ShiftedDown, ProperKeys, Freed, Without, SlotsDown;
      ghost var bs, t := bindings, tcam[..];
      var ix := bindings[r].ix;
      IndexZone(bs, start, r);
      FreedIndexed(bs, start, r);
      if !fake { FreedMirrored(bs, start, end, t, written, r); }
      if !fake {
        tcam[ix] := None;
      }
      var _ := Return(ix);
      FreedSteps(bs, start, r, bindings);
      SlotsDownOutside(t[ix := None], ix, pbrEnd);
      bindings := bindings[..r] + bindings[r + 1..];
      written := written - {bs[r].key};
      BelowWithout(Keys(bs), r, 1);
      BelowWithout(Keys(bs), r, 2);
      ProperWithout(Keys(bs), r);
    }

    /** Drops every rule of an interface, destination and action type. */
    method Reset(s: Scope)
      requires Valid()
      modifies this`aclEnd, this`qosEnd, this`pbrEnd, this`bindings, this`written, tcam
      ensures Valid()
      ensures Keys(bindings) == Survivors(Keys(old(bindings)), s)
      ensures forall k :: k in Keys(bindings) <==>
                k in Keys(old(bindings)) && !(k.iface == s.iface && k.dest == s.dest && k.act == s.act)
      ensures forall k: Key | !(k.iface == s.iface && k.dest == s.dest && k.act == s.act) :: k in written <==> k in old(written)
      ensures fake ==> tcam[..] == old(tcam[..])
      ensures forall i | 0 <= i < tcam.Length && !(start <= i < end) :: tcam[i] == old(tcam[i])
    {
      hide Valid, Without, Survivors, Halfway, Keys;
      ghost var ks := Keys(bindings);
      ghost var m := 0;
      var j := 0;
      HalfwayStart(ks, s);
      while j < |bindings|
        invariant 0 <= j <= |bindings| && 0 <= m
        invariant Valid() && Halfway(ks, s, m, j, Keys(bindings))
        invariant forall k :: !Matches(s, k) ==> (k in written <==> k in old(written))
        invariant fake ==> tcam[..] == old(tcam[..])
        invariant forall i | 0 <= i < tcam.Length && !(start <= i < end) :: tcam[i] == old(tcam[i])
        decreases |bindings| - j
      {
        HalfwayStep(ks, s, m, j, Keys(bindings));
        var k := bindings[j].key;
        if k.iface == s.iface && k.dest == s.dest && k.act == s.act {
          RemoveAt(j);
        } else {
          j := j + 1;
        }
        m := m + 1;
      }
      HalfwayEnd(ks, s, m, Keys(bindings));
      forall k
        ensures k in Survivors(ks, s) <==> k in ks && !(k.iface == s.iface && k.dest == s.dest && k.act == s.act)
      {
        SurvivorsIn(ks, s, k);
      }
    }

    /** Over any run of adds and resets the book stays valid, and what it binds depends on the requests
        alone: a dry run on a copy accepts exactly what the real run will. */
    method Run(rs: seq<Request>)
      requires Valid()
      modifies this`aclEnd, this`qosEnd, this`pbrEnd, this`bindings, this`written, tcam
      ensures Valid()
      ensures Keys(bindings) == Played(Keys(old(bindings)), end - start, rs)
      ensures fake ==> tcam[..] == old(tcam[..])
      ensures forall i | 0 <= i < tcam.Length && !(start <= i < end) :: tcam[i] == old(tcam[i])
    {
      hide Indexed, Mirrored, Keys, ProperKeys, Bound, Survivors;
      ghost var ks := Keys(bindings);
      assert rs[..0] == [];
      for n := 0 to |rs|
        invariant Valid()
        invariant Keys(bindings) == Played(ks, end - start, rs[..n])
        invariant fake ==> tcam[..] == old(tcam[..])
        invariant forall i | 0 <= i < tcam.Length && !(start <= i < end) :: tcam[i] == old(tcam[i])
      {
        assert rs[..n + 1][..n] == rs[..n] && rs[..n + 1][n] == rs[n];
        match rs[n] {
          case Add(k, complete) => var _, _ := AddRule(k, complete);
          case ResetRules(s) => Reset(s);
        }
      }
      assert rs[..|rs|] == rs;
    }
  }
}
