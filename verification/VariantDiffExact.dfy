/** What the reported changes say: nothing when the values are equal, and the truth otherwise. */
module VariantDiffExact {
  import opened Collections
  import opened VariantDiff
  import VariantPatch

  function Lookup(v: Variant, path: Path): Option<Variant>
    decreases path
  {
    if path == [] then Some(v)
    else match (v, path[0])
      case (Object(es), Key(k)) => if HasKey(es, k) then Lookup(Get(es, k), path[1..]) else None
      case (Array(xs), Index(i)) => if i < |xs| then Lookup(xs[i], path[1..]) else None
      case _ => None
  }

  lemma LookupKey(es: seq<Entry>, k: string)
    ensures Lookup(Object(es), [Key(k)]) == if HasKey(es, k) then Some(Get(es, k)) else None
  {
    assert [Key(k)][1..] == [];
  }

  lemma LookupIndex(xs: seq<Variant>, i: nat)
    ensures Lookup(Array(xs), [Index(i)]) == if i < |xs| then Some(xs[i]) else None
  {
    assert [Index(i)][1..] == [];
  }

  /** Two values that the diff reports as they stand. */
  predicate Clash(a: Variant, b: Variant) {
    !SameType(a, b) || (a.Scalar? && a != b)
  }

  /** The path leads to the reported values, which clash, or leads to a value on one side only. */
  predicate Truthful(l: Variant, r: Variant, c: Change) {
    match (Lookup(l, c.path), Lookup(r, c.path))
    case (Some(a), Some(b)) => c.left == a && c.right == b && Clash(a, b)
    case (Some(a), None) => c.left == a && c.right == Null
    case (None, Some(b)) => c.left == Null && c.right == b
    case (None, None) => false
  }

  // ---------------------------------------------------------------------------------------
  // Nothing is reported exactly for equal values
  // ---------------------------------------------------------------------------------------

  lemma {:induction false} DiffLeftEmpty(le: seq<Entry>, re: seq<Entry>, k: string)
    requires UniqueKeys(le) && DiffLeft(le, re) == []
    ensures HasKey(le, k) ==> HasKey(re, k) && Diff(Get(le, k), Get(re, k)) == []
  {
    if le != [] {
      assert DiffEntry(le[0], re) == [];
      DiffLeftEmpty(le[1..], re, k);
      if HasKey(re, le[0].key) {
        assert |Prefix(Key(le[0].key), Diff(le[0].value, Get(re, le[0].key)))| == 0;
      }
    }
  }

  lemma {:induction false} AddedEmpty(le: seq<Entry>, re: seq<Entry>, k: string)
    requires Added(le, re) == []
    ensures HasKey(re, k) ==> HasKey(le, k)
  {
    if re != [] {
      AddedEmpty(le, re[1..], k);
    }
  }

  lemma {:induction false} DiffElemsEmpty(la: seq<Variant>, ra: seq<Variant>, at: nat)
    requires DiffElems(la, ra, at) == []
    ensures |la| == |ra| && forall i :: 0 <= i < |la| ==> Diff(la[i], ra[i]) == []
  {
    if la != [] && ra != [] {
      assert |Prefix(Index(at), Diff(la[0], ra[0]))| == 0;
      DiffElemsEmpty(la[1..], ra[1..], at + 1);
      forall i | 0 <= i < |la| ensures Diff(la[i], ra[i]) == [] {
        assert i > 0 ==> la[i] == la[1..][i - 1] && ra[i] == ra[1..][i - 1];
      }
    }
  }

  lemma {:induction false} SilentMeansEqual(l: Variant, r: Variant)
    requires WellFormed(l) && WellFormed(r) && Diff(l, r) == []
    ensures Equiv(l, r)
    decreases l
  {
    match l {
      case Object(le) =>
        var re := r.entries;
        forall k ensures EquivAt(le, re, k) {
          DiffLeftEmpty(le, re, k);
          AddedEmpty(le, re, k);
          if HasKey(le, k) {
            assert Entry(k, Get(le, k)) in le && Entry(k, Get(re, k)) in re;
            SilentMeansEqual(Get(le, k), Get(re, k));
          }
        }
      case Array(la) =>
        DiffElemsEmpty(la, r.elems, 0);
        forall i | 0 <= i < |la| ensures Equiv(la[i], r.elems[i]) {
          SilentMeansEqual(la[i], r.elems[i]);
        }
      case _ =>
    }
  }

  /** Every key of `part` has in `whole` the value it has in `part`. */
  predicate Within(part: seq<Entry>, whole: seq<Entry>) {
    part == [] ||
    (HasKey(whole, part[0].key) && Get(whole, part[0].key) == part[0].value && Within(part[1..], whole))
  }

  lemma {:induction false} WithinCons(part: seq<Entry>, whole: seq<Entry>)
    requires whole != [] && Within(part, whole[1..]) && !HasKey(part, whole[0].key)
    ensures Within(part, whole)
  {
    if part != [] {
      WithinCons(part[1..], whole);
    }
  }

  lemma {:induction false} WithinItself(es: seq<Entry>)
    requires UniqueKeys(es)
    ensures Within(es, es)
  {
    if es != [] {
      WithinItself(es[1..]);
      WithinCons(es[1..], es);
    }
  }

  lemma {:induction false} EqualLeftSilent(whole: seq<Entry>, part: seq<Entry>, re: seq<Entry>)
    requires Within(part, whole)
    requires forall k :: HasKey(whole, k) ==> HasKey(re, k) && Diff(Get(whole, k), Get(re, k)) == []
    ensures DiffLeft(part, re) == []
  {
    if part != [] {
      EqualLeftSilent(whole, part[1..], re);
      assert DiffEntry(part[0], re) == [];
    }
  }

  lemma {:induction false} EqualAddedSilent(le: seq<Entry>, re: seq<Entry>)
    requires forall k :: HasKey(re, k) ==> HasKey(le, k)
    ensures Added(le, re) == []
  {
    if re != [] {
      assert HasKey(re, re[0].key);
      forall k | HasKey(re[1..], k) ensures HasKey(le, k) {
        assert HasKey(re, k);
      }
      EqualAddedSilent(le, re[1..]);
    }
  }

  lemma {:induction false} EqualElemsSilent(la: seq<Variant>, ra: seq<Variant>, at: nat)
    requires |la| == |ra| && forall i :: 0 <= i < |la| ==> Diff(la[i], ra[i]) == []
    ensures DiffElems(la, ra, at) == []
  {
    if la != [] {
      assert forall i :: 0 <= i < |la[1..]| ==> la[1..][i] == la[i + 1] && ra[1..][i] == ra[i + 1];
      EqualElemsSilent(la[1..], ra[1..], at + 1);
      assert Prefix(Index(at), Diff(la[0], ra[0])) == [];
    }
  }

  lemma {:induction false} EqualMeansSilent(l: Variant, r: Variant)
    requires WellFormed(l) && WellFormed(r) && Equiv(l, r)
    ensures Diff(l, r) == []
    decreases l
  {
    match l {
      case Object(le) =>
        var re := r.entries;
        forall k
          ensures HasKey(le, k) ==> HasKey(re, k) && Diff(Get(le, k), Get(re, k)) == []
          ensures HasKey(re, k) ==> HasKey(le, k)
        {
          assert EquivAt(le, re, k);
          if HasKey(le, k) {
            assert Entry(k, Get(le, k)) in le && Entry(k, Get(re, k)) in re;
            EqualMeansSilent(Get(le, k), Get(re, k));
          }
        }
        WithinItself(le);
        EqualLeftSilent(le, le, re);
        EqualAddedSilent(le, re);
      case Array(la) =>
        forall i | 0 <= i < |la| ensures Diff(la[i], r.elems[i]) == [] {
          EqualMeansSilent(la[i], r.elems[i]);
        }
        EqualElemsSilent(la, r.elems, 0);
      case _ =>
    }
  }

  /** Nothing is reported exactly when the values are equal up to key order. */
  lemma SilentExactly(l: Variant, r: Variant)
    requires WellFormed(l) && WellFormed(r)
    ensures Diff(l, r) == [] <==> Equiv(l, r)
  {
    if Diff(l, r) == [] {
      SilentMeansEqual(l, r);
    }
    if Equiv(l, r) {
      EqualMeansSilent(l, r);
    }
  }

  // ---------------------------------------------------------------------------------------
  // Every change is true of the two values
  // ---------------------------------------------------------------------------------------

  ghost predicate AllTruthful(l: Variant, r: Variant, cs: seq<Change>) {
    forall c :: c in cs ==> Truthful(l, r, c)
  }

  lemma TruthfulUnderKey(le: seq<Entry>, re: seq<Entry>, k: string, cs: seq<Change>)
    requires HasKey(le, k) && HasKey(re, k) && AllTruthful(Get(le, k), Get(re, k), cs)
    ensures AllTruthful(Object(le), Object(re), Prefix(Key(k), cs))
  {
    forall c | c in Prefix(Key(k), cs) ensures Truthful(Object(le), Object(re), c) {
      var i :| 0 <= i < |cs| && Prefix(Key(k), cs)[i] == c;
      assert Truthful(Get(le, k), Get(re, k), cs[i]);
      assert c.path[1..] == cs[i].path;
    }
  }

  lemma TruthfulUnderIndex(la: seq<Variant>, ra: seq<Variant>, at: nat, cs: seq<Change>)
    requires at < |la| && at < |ra| && AllTruthful(la[at], ra[at], cs)
    ensures AllTruthful(Array(la), Array(ra), Prefix(Index(at), cs))
  {
    forall c | c in Prefix(Index(at), cs) ensures Truthful(Array(la), Array(ra), c) {
      var i :| 0 <= i < |cs| && Prefix(Index(at), cs)[i] == c;
      assert Truthful(la[at], ra[at], cs[i]);
      assert c.path[1..] == cs[i].path;
    }
  }

  lemma {:induction false} LeftTruthful(whole: seq<Entry>, part: seq<Entry>, re: seq<Entry>)
    requires Within(part, whole)
    requires forall k :: HasKey(whole, k) && HasKey(re, k) ==>
      AllTruthful(Get(whole, k), Get(re, k), Diff(Get(whole, k), Get(re, k)))
    ensures AllTruthful(Object(whole), Object(re), DiffLeft(part, re))
  {
    if part != [] {
      LeftTruthful(whole, part[1..], re);
      var k := part[0].key;
      if HasKey(re, k) {
        TruthfulUnderKey(whole, re, k, Diff(Get(whole, k), Get(re, k)));
      } else {
        LookupKey(whole, k);
        LookupKey(re, k);
      }
    }
  }

  lemma {:induction false} AddedTruthful(le: seq<Entry>, whole: seq<Entry>, part: seq<Entry>)
    requires Within(part, whole)
    ensures AllTruthful(Object(le), Object(whole), Added(le, part))
  {
    if part != [] {
      AddedTruthful(le, whole, part[1..]);
      LookupKey(le, part[0].key);
      LookupKey(whole, part[0].key);
    }
  }

  lemma {:induction false} ElemsTruthful(la: seq<Variant>, ra: seq<Variant>, at: nat)
    requires forall i :: 0 <= i < |la| && i < |ra| ==> AllTruthful(la[i], ra[i], Diff(la[i], ra[i]))
    requires at <= |la| || at <= |ra|
    ensures AllTruthful(Array(la), Array(ra),
              DiffElems(if at <= |la| then la[at..] else [], if at <= |ra| then ra[at..] else [], at))
    decreases |la| + |ra| - at
  {
    var lr, rr := if at <= |la| then la[at..] else [], if at <= |ra| then ra[at..] else [];
    if at < |la| || at < |ra| {
      ElemsTruthful(la, ra, at + 1);
      assert at < |la| ==> la[at..][1..] == la[at + 1..];
      assert at < |ra| ==> ra[at..][1..] == ra[at + 1..];
      if at < |la| && at < |ra| {
        TruthfulUnderIndex(la, ra, at, Diff(la[at], ra[at]));
      } else {
        LookupIndex(la, at);
        LookupIndex(ra, at);
      }
    }
  }

  /** Every reported path leads to the reported values, which clash or have no counterpart. */
  lemma {:induction false} ChangesAreTruthful(l: Variant, r: Variant)
    requires WellFormed(l) && WellFormed(r)
    ensures AllTruthful(l, r, Diff(l, r))
    decreases l
  {
    if SameType(l, r) {
      match l {
        case Object(le) =>
          forall k | HasKey(le, k) && HasKey(r.entries, k)
            ensures AllTruthful(Get(le, k), Get(r.entries, k), Diff(Get(le, k), Get(r.entries, k)))
          {
            assert Entry(k, Get(le, k)) in le && Entry(k, Get(r.entries, k)) in r.entries;
            ChangesAreTruthful(Get(le, k), Get(r.entries, k));
          }
          WithinItself(le);
          WithinItself(r.entries);
          LeftTruthful(le, le, r.entries);
          AddedTruthful(le, r.entries, r.entries);
        case Array(la) =>
          forall i | 0 <= i < |la| && i < |r.elems| ensures AllTruthful(la[i], r.elems[i], Diff(la[i], r.elems[i])) {
            ChangesAreTruthful(la[i], r.elems[i]);
          }
          ElemsTruthful(la, r.elems, 0);
          assert la[0..] == la && r.elems[0..] == r.elems;
        case _ =>
      }
    }
  }

  // ---------------------------------------------------------------------------------------
  // No change lies inside another
  // ---------------------------------------------------------------------------------------

  predicate PrefixFree(cs: seq<Change>) {
    forall i, j :: 0 <= i < |cs| && 0 <= j < |cs| && i != j ==> !(cs[i].path <= cs[j].path)
  }

  /** No path of one list starts with the step that starts a path of the other. */
  predicate Apart(a: seq<Change>, b: seq<Change>) {
    forall i, j :: 0 <= i < |a| && 0 <= j < |b| ==>
      |a[i].path| > 0 && |b[j].path| > 0 && a[i].path[0] != b[j].path[0]
  }

  lemma PrefixFreeConcat(a: seq<Change>, b: seq<Change>)
    requires PrefixFree(a) && PrefixFree(b) && Apart(a, b)
    ensures PrefixFree(a + b)
  {
  }

  lemma PrefixFreeUnder(step: Step, cs: seq<Change>)
    requires PrefixFree(cs)
    ensures PrefixFree(Prefix(step, cs))
  {
    var ps := Prefix(step, cs);
    forall i, j | 0 <= i < |ps| && 0 <= j < |ps| && i != j ensures !(ps[i].path <= ps[j].path) {
      assert ps[i].path[1..] == cs[i].path && ps[j].path[1..] == cs[j].path;
    }
  }

  lemma {:induction false} LeftPrefixFree(le: seq<Entry>, re: seq<Entry>)
    requires UniqueKeys(le)
    requires forall e :: e in le && HasKey(re, e.key) ==> PrefixFree(Diff(e.value, Get(re, e.key)))
    ensures PrefixFree(DiffLeft(le, re))
  {
    if le != [] {
      LeftPrefixFree(le[1..], re);
      if HasKey(re, le[0].key) {
        PrefixFreeUnder(Key(le[0].key), Diff(le[0].value, Get(re, le[0].key)));
      }
      VariantPatch.DiffLeftPaths(le[1..], re);
      forall j | 0 <= j < |DiffLeft(le[1..], re)|
        ensures var p := DiffLeft(le[1..], re)[j].path; |p| > 0 && p[0] != Key(le[0].key)
      {
        assert DiffLeft(le[1..], re)[j] in DiffLeft(le[1..], re);
      }
      PrefixFreeConcat(DiffEntry(le[0], re), DiffLeft(le[1..], re));
    }
  }

  lemma {:induction false} AddedPrefixFree(le: seq<Entry>, re: seq<Entry>)
    requires UniqueKeys(re)
    ensures PrefixFree(Added(le, re))
  {
    if re != [] {
      AddedPrefixFree(le, re[1..]);
      VariantPatch.AddedPaths(le, re[1..]);
      var here := if HasKey(le, re[0].key) then [] else [Change([Key(re[0].key)], Null, re[0].value)];
      forall j | 0 <= j < |Added(le, re[1..])|
        ensures var p := Added(le, re[1..])[j].path; |p| > 0 && p[0] != Key(re[0].key)
      {
        assert Added(le, re[1..])[j] in Added(le, re[1..]);
      }
      PrefixFreeConcat(here, Added(le, re[1..]));
    }
  }

  lemma ElemsApart(a: seq<Change>, at: nat, la: seq<Variant>, ra: seq<Variant>)
    requires forall i :: 0 <= i < |a| ==> |a[i].path| > 0 && a[i].path[0] == Index(at)
    ensures Apart(a, DiffElems(la, ra, at + 1))
  {
    VariantPatch.DiffElemsPaths(la, ra, at + 1);
    var b := DiffElems(la, ra, at + 1);
    forall j | 0 <= j < |b| ensures |b[j].path| > 0 && b[j].path[0] != Index(at) {
      assert b[j] in b;
    }
  }

  lemma {:induction false} ElemsPrefixFree(la: seq<Variant>, ra: seq<Variant>, at: nat)
    requires forall i :: 0 <= i < |la| && i < |ra| ==> PrefixFree(Diff(la[i], ra[i]))
    ensures PrefixFree(DiffElems(la, ra, at))
    decreases |la| + |ra|
  {
    if la != [] || ra != [] {
      var lt, rt := if la == [] then [] else la[1..], if ra == [] then [] else ra[1..];
      forall i | 0 <= i < |lt| && i < |rt| ensures PrefixFree(Diff(lt[i], rt[i])) {
        assert lt[i] == la[i + 1] && rt[i] == ra[i + 1];
      }
      ElemsPrefixFree(lt, rt, at + 1);
      var here := if la == [] then [Change([Index(at)], Null, ra[0])]
                  else if ra == [] then [Change([Index(at)], la[0], Null)]
                  else Prefix(Index(at), Diff(la[0], ra[0]));
      if la != [] && ra != [] {
        PrefixFreeUnder(Index(at), Diff(la[0], ra[0]));
      }
      ElemsApart(here, at, lt, rt);
      PrefixFreeConcat(here, DiffElems(lt, rt, at + 1));
    }
  }

  /** No reported path is a prefix of another, so the changes are independent. */
  lemma {:induction false} ChangesArePrefixFree(l: Variant, r: Variant)
    requires WellFormed(l) && WellFormed(r)
    ensures PrefixFree(Diff(l, r))
    decreases l
  {
    if SameType(l, r) {
      match l {
        case Object(le) =>
          var re := r.entries;
          forall e | e in le && HasKey(re, e.key) ensures PrefixFree(Diff(e.value, Get(re, e.key))) {
            assert Entry(e.key, Get(re, e.key)) in re;
            ChangesArePrefixFree(e.value, Get(re, e.key));
          }
          LeftPrefixFree(le, re);
          AddedPrefixFree(le, re);
          VariantPatch.DiffLeftPaths(le, re);
          VariantPatch.AddedPaths(le, re);
          assert Apart(DiffLeft(le, re), Added(le, re));
          PrefixFreeConcat(DiffLeft(le, re), Added(le, re));
        case Array(la) =>
          forall i | 0 <= i < |la| && i < |r.elems| ensures PrefixFree(Diff(la[i], r.elems[i])) {
            ChangesArePrefixFree(la[i], r.elems[i]);
          }
          ElemsPrefixFree(la, r.elems, 0);
        case _ =>
      }
    }
  }
}
