/** The order in which a diff reports its changes (unittests/snapshot_tests.cpp, lines 84-146). */
module VariantDiffOrder {
  import opened Collections
  import opened VariantDiff

  /** Where the key is first, or the number of entries if it is nowhere. */
  function Position(es: seq<Entry>, k: string): (i: nat)
    ensures i <= |es| && (i < |es| ==> es[i].key == k)
  {
    if es == [] || es[0].key == k then 0 else 1 + Position(es[1..], k)
  }

  /** Members of the left object come first, in its order, then those that only the right one has, in
      that one's order. Elements come by index. */
  function Rank(l: Variant, r: Variant, step: Step): nat {
    match (l, r, step)
    case (Object(le), Object(re), Key(k)) => if HasKey(le, k) then Position(le, k) else |le| + Position(re, k)
    case (Array(_), Array(_), Index(i)) => i
    case _ => 0
  }

  /** The step leads to a member of both values. */
  predicate Leads(l: Variant, r: Variant, step: Step) {
    match (l, r, step)
    case (Object(le), Object(re), Key(k)) => HasKey(le, k) && HasKey(re, k)
    case (Array(la), Array(ra), Index(i)) => i < |la| && i < |ra|
    case _ => false
  }

  function Member(v: Variant, step: Step): Variant {
    match (v, step)
    case (Object(es), Key(k)) => if HasKey(es, k) then Get(es, k) else Null
    case (Array(xs), Index(i)) => if i < |xs| then xs[i] else Null
    case _ => Null
  }

  /** Path `p` is reported before path `q`: at the first difference its step has the lower rank. */
  predicate Earlier(l: Variant, r: Variant, p: Path, q: Path)
    decreases |p|
  {
    && p != [] && q != []
    && (Rank(l, r, p[0]) < Rank(l, r, q[0])
        || (p[0] == q[0] && Leads(l, r, p[0]) && Earlier(Member(l, p[0]), Member(r, p[0]), p[1..], q[1..])))
  }

  predicate InOrder(l: Variant, r: Variant, cs: seq<Change>) {
    forall i, j :: 0 <= i < j < |cs| ==> Earlier(l, r, cs[i].path, cs[j].path)
  }

  /** All changes start with a step of rank at least `low` and below `high`. */
  predicate Ranked(l: Variant, r: Variant, cs: seq<Change>, low: nat, high: nat) {
    forall c :: c in cs ==> c.path != [] && low <= Rank(l, r, c.path[0]) < high
  }

  lemma InOrderConcat(l: Variant, r: Variant, a: seq<Change>, b: seq<Change>, low: nat, mid: nat, high: nat)
    requires InOrder(l, r, a) && InOrder(l, r, b) && Ranked(l, r, a, low, mid) && Ranked(l, r, b, mid, high) && low <= mid <= high
    ensures InOrder(l, r, a + b) && Ranked(l, r, a + b, low, high)
  {
    forall i, j | 0 <= i < j < |a + b|
      ensures Earlier(l, r, (a + b)[i].path, (a + b)[j].path)
    {
      if i < |a| <= j {
        assert a[i] in a && b[j - |a|] in b;
      }
    }
  }

  lemma InOrderPrefix(l: Variant, r: Variant, step: Step, cs: seq<Change>)
    requires Leads(l, r, step) && InOrder(Member(l, step), Member(r, step), cs)
    ensures InOrder(l, r, Prefix(step, cs)) && Ranked(l, r, Prefix(step, cs), Rank(l, r, step), Rank(l, r, step) + 1)
  {
    var ps := Prefix(step, cs);
    forall i, j | 0 <= i < j < |ps|
      ensures Earlier(l, r, ps[i].path, ps[j].path)
    {
      assert ps[i].path[1..] == cs[i].path && ps[j].path[1..] == cs[j].path;
    }
  }

  // ---------------------------------------------------------------------------------------
  // Objects
  // ---------------------------------------------------------------------------------------

  lemma {:induction false} PositionIs(es: seq<Entry>, n: nat)
    requires UniqueKeys(es) && n < |es|
    ensures HasKey(es, es[n].key) && Position(es, es[n].key) == n && Get(es, es[n].key) == es[n].value
  {
    if n > 0 {
      PositionIs(es[1..], n - 1);
    }
  }

  lemma EntryInOrder(le: seq<Entry>, re: seq<Entry>, n: nat)
    requires UniqueKeys(le) && n < |le|
    requires HasKey(re, le[n].key) ==>
      InOrder(le[n].value, Get(re, le[n].key), Diff(le[n].value, Get(re, le[n].key)))
    ensures InOrder(Object(le), Object(re), DiffEntry(le[n], re)) && Ranked(Object(le), Object(re), DiffEntry(le[n], re), n, n + 1)
  {
    PositionIs(le, n);
    if HasKey(re, le[n].key) {
      InOrderPrefix(Object(le), Object(re), Key(le[n].key), Diff(le[n].value, Get(re, le[n].key)));
    }
  }

  lemma {:induction false} LeftInOrder(le: seq<Entry>, re: seq<Entry>, n: nat)
    requires UniqueKeys(le) && n <= |le|
    requires forall i :: 0 <= i < |le| && HasKey(re, le[i].key) ==>
      InOrder(le[i].value, Get(re, le[i].key), Diff(le[i].value, Get(re, le[i].key)))
    ensures InOrder(Object(le), Object(re), DiffLeft(le[n..], re))
    ensures Ranked(Object(le), Object(re), DiffLeft(le[n..], re), n, |le|)
    decreases |le| - n
  {
    if n < |le| {
      LeftInOrder(le, re, n + 1);
      EntryInOrder(le, re, n);
      assert le[n..][1..] == le[n + 1..];
      InOrderConcat(Object(le), Object(re), DiffEntry(le[n], re), DiffLeft(le[n + 1..], re), n, n + 1, |le|);
    }
  }

  lemma {:induction false} AddedInOrder(le: seq<Entry>, re: seq<Entry>, n: nat)
    requires UniqueKeys(re) && n <= |re|
    ensures InOrder(Object(le), Object(re), Added(le, re[n..]))
    ensures Ranked(Object(le), Object(re), Added(le, re[n..]), |le| + n, |le| + |re|)
    decreases |re| - n
  {
    if n < |re| {
      AddedInOrder(le, re, n + 1);
      PositionIs(re, n);
      assert re[n..][1..] == re[n + 1..];
      var here := if HasKey(le, re[n].key) then [] else [Change([Key(re[n].key)], Null, re[n].value)];
      InOrderConcat(Object(le), Object(re), here, Added(le, re[n + 1..]), |le| + n, |le| + n + 1, |le| + |re|);
    }
  }

  // ---------------------------------------------------------------------------------------
  // Arrays
  // ---------------------------------------------------------------------------------------

  function From(xs: seq<Variant>, at: nat): seq<Variant> {
    if at <= |xs| then xs[at..] else []
  }

  function Max(a: nat, b: nat): nat {
    if a < b then b else a
  }

  /** What is reported of one index. */
  function ElemChanges(la: seq<Variant>, ra: seq<Variant>, at: nat): seq<Change> {
    if at < |la| && at < |ra| then Prefix(Index(at), Diff(la[at], ra[at]))
    else if at < |la| then [Change([Index(at)], la[at], Null)]
    else if at < |ra| then [Change([Index(at)], Null, ra[at])]
    else []
  }

  lemma ElemsUnfold(la: seq<Variant>, ra: seq<Variant>, at: nat)
    requires at < Max(|la|, |ra|)
    ensures DiffElems(From(la, at), From(ra, at), at) ==
            ElemChanges(la, ra, at) + DiffElems(From(la, at + 1), From(ra, at + 1), at + 1)
  {
    if at < |la| {
      assert la[at..][1..] == From(la, at + 1);
    }
    if at < |ra| {
      assert ra[at..][1..] == From(ra, at + 1);
    }
  }

  lemma {:induction false} ElemsInOrder(la: seq<Variant>, ra: seq<Variant>, at: nat)
    requires at <= Max(|la|, |ra|)
    requires forall i :: 0 <= i < |la| && i < |ra| ==> InOrder(la[i], ra[i], Diff(la[i], ra[i]))
    ensures InOrder(Array(la), Array(ra), DiffElems(From(la, at), From(ra, at), at))
    ensures Ranked(Array(la), Array(ra), DiffElems(From(la, at), From(ra, at), at), at, Max(|la|, |ra|))
    decreases Max(|la|, |ra|) - at
  {
    if at < Max(|la|, |ra|) {
      ElemsInOrder(la, ra, at + 1);
      ElemsUnfold(la, ra, at);
      if at < |la| && at < |ra| {
        InOrderPrefix(Array(la), Array(ra), Index(at), Diff(la[at], ra[at]));
      }
      InOrderConcat(Array(la), Array(ra), ElemChanges(la, ra, at),
                    DiffElems(From(la, at + 1), From(ra, at + 1), at + 1), at, at + 1, Max(|la|, |ra|));
    }
  }

  /** The changes are reported in order, at every depth. */
  lemma {:induction false} ChangesAreOrdered(l: Variant, r: Variant)
    requires WellFormed(l) && WellFormed(r)
    ensures InOrder(l, r, Diff(l, r))
    decreases l
  {
    if SameType(l, r) {
      match l {
        case Object(le) =>
          var re := r.entries;
          forall i | 0 <= i < |le| && HasKey(re, le[i].key)
            ensures InOrder(le[i].value, Get(re, le[i].key), Diff(le[i].value, Get(re, le[i].key)))
          {
            assert le[i] in le && Entry(le[i].key, Get(re, le[i].key)) in re;
            ChangesAreOrdered(le[i].value, Get(re, le[i].key));
          }
          ObjectInOrder(le, re);
        case Array(la) =>
          var ra := r.elems;
          forall i | 0 <= i < |la| && i < |ra|
            ensures InOrder(la[i], ra[i], Diff(la[i], ra[i]))
          {
            assert la[i] in la && ra[i] in ra;
            ChangesAreOrdered(la[i], ra[i]);
          }
          ElemsInOrder(la, ra, 0);
          assert From(la, 0) == la && From(ra, 0) == ra;
        case _ =>
      }
    }
  }

  lemma ObjectInOrder(le: seq<Entry>, re: seq<Entry>)
    requires UniqueKeys(le) && UniqueKeys(re)
    requires forall i :: 0 <= i < |le| && HasKey(re, le[i].key) ==>
      InOrder(le[i].value, Get(re, le[i].key), Diff(le[i].value, Get(re, le[i].key)))
    ensures InOrder(Object(le), Object(re), DiffLeft(le, re) + Added(le, re))
  {
    LeftInOrder(le, re, 0);
    AddedInOrder(le, re, 0);
    assert le[0..] == le && re[0..] == re;
    InOrderConcat(Object(le), Object(re), DiffLeft(le, re), Added(le, re), 0, |le|, |le| + |re|);
  }
}
