/** The structural diff of variants, variant_diff_helper (unittests/snapshot_tests.cpp, lines 84-146). */
module VariantDiff {
  import opened Collections

  datatype Kind = Int64 | Uint64 | Double | Bool | Text | Blob

  datatype Entry = Entry(key: string, value: Variant)

  datatype Variant =
    | Null
    | Scalar(kind: Kind, repr: string)
    | Array(elems: seq<Variant>)
    | Object(entries: seq<Entry>)

  datatype Step = Key(key: string) | Index(index: nat)

  type Path = seq<Step>

  /** One call of the output callback. */
  datatype Change = Change(path: Path, left: Variant, right: Variant)

  predicate SameType(l: Variant, r: Variant) {
    match (l, r)
    case (Null, Null) => true
    case (Scalar(k, _), Scalar(k', _)) => k == k'
    case (Array(_), Array(_)) => true
    case (Object(_), Object(_)) => true
    case _ => false
  }

  predicate HasKey(es: seq<Entry>, k: string) {
    es != [] && (es[0].key == k || HasKey(es[1..], k))
  }

  /** The value of the first entry with the key. */
  function Get(es: seq<Entry>, k: string): (v: Variant)
    requires HasKey(es, k)
    ensures Entry(k, v) in es
  {
    if es[0].key == k then es[0].value else Get(es[1..], k)
  }

  /** Object keys are unique, at every depth. */
  ghost predicate WellFormed(v: Variant) {
    match v
    case Object(es) => UniqueKeys(es) && forall e :: e in es ==> WellFormed(e.value)
    case Array(xs) => forall x :: x in xs ==> WellFormed(x)
    case _ => true
  }

  predicate UniqueKeys(es: seq<Entry>) {
    es == [] || (!HasKey(es[1..], es[0].key) && UniqueKeys(es[1..]))
  }

  function Prefix(step: Step, cs: seq<Change>): (ps: seq<Change>)
    ensures |ps| == |cs|
    ensures forall i :: 0 <= i < |cs| ==> ps[i] == cs[i].(path := [step] + cs[i].path)
  {
    seq(|cs|, i requires 0 <= i < |cs| => cs[i].(path := [step] + cs[i].path))
  }

  // ---------------------------------------------------------------------------------------
  // The diff
  // ---------------------------------------------------------------------------------------

  function Diff(l: Variant, r: Variant): seq<Change>
    decreases l
  {
    if !SameType(l, r) then [Change([], l, r)]
    else match l
      case Object(es) => DiffLeft(es, r.entries) + Added(es, r.entries)
      case Array(xs) => DiffElems(xs, r.elems, 0)
      case _ => if l == r then [] else [Change([], l, r)]
  }

  /** The loop over the left entries. */
  function DiffLeft(le: seq<Entry>, re: seq<Entry>): seq<Change>
    decreases le
  {
    if le == [] then [] else DiffEntry(le[0], re) + DiffLeft(le[1..], re)
  }

  function DiffEntry(e: Entry, re: seq<Entry>): seq<Change>
    decreases e, 0
  {
    if HasKey(re, e.key) then Prefix(Key(e.key), Diff(e.value, Get(re, e.key)))
    else [Change([Key(e.key)], e.value, Null)]
  }

  /** The loop over the right entries whose key the left does not have. */
  function Added(le: seq<Entry>, re: seq<Entry>): seq<Change> {
    if re == [] then []
    else (if HasKey(le, re[0].key) then [] else [Change([Key(re[0].key)], Null, re[0].value)]) + Added(le, re[1..])
  }

  /** The three loops over indices, from position `at` on. */
  function DiffElems(la: seq<Variant>, ra: seq<Variant>, at: nat): seq<Change>
    decreases la, ra
  {
    if la == [] && ra == [] then []
    else if la == [] then [Change([Index(at)], Null, ra[0])] + DiffElems([], ra[1..], at + 1)
    else if ra == [] then [Change([Index(at)], la[0], Null)] + DiffElems(la[1..], [], at + 1)
    else Prefix(Index(at), Diff(la[0], ra[0])) + DiffElems(la[1..], ra[1..], at + 1)
  }

  // ---------------------------------------------------------------------------------------
  // Equality up to the order of object keys
  // ---------------------------------------------------------------------------------------

  ghost predicate Equiv(a: Variant, b: Variant)
    decreases a
  {
    match (a, b)
    case (Object(ea), Object(eb)) =>
      forall k :: EquivAt(ea, eb, k)
    case (Array(xa), Array(xb)) =>
      |xa| == |xb| && forall i :: 0 <= i < |xa| ==> Equiv(xa[i], xb[i])
    case _ => a == b
  }

  /** The key is on both sides, with equal values, or on neither. */
  ghost predicate EquivAt(ea: seq<Entry>, eb: seq<Entry>, k: string)
    decreases ea
  {
    (HasKey(ea, k) <==> HasKey(eb, k)) && (HasKey(ea, k) && HasKey(eb, k) ==> Equiv(Get(ea, k), Get(eb, k)))
  }

  // ---------------------------------------------------------------------------------------
  // The code itself: recursion over members, loops over entries and indices
  // ---------------------------------------------------------------------------------------

  function Keys(es: seq<Entry>): set<string> {
    if es == [] then {} else Keys(es[..|es| - 1]) + {es[|es| - 1].key}
  }

  lemma {:induction false} HasKeySnoc(es: seq<Entry>, k: string)
    requires es != []
    ensures HasKey(es, k) <==> HasKey(es[..|es| - 1], k) || es[|es| - 1].key == k
  {
    if |es| > 1 {
      HasKeySnoc(es[1..], k);
      assert es[1..][..|es| - 2] == es[..|es| - 1][1..];
    }
  }

  lemma {:induction false} HasKeyInKeys(es: seq<Entry>, k: string)
    ensures HasKey(es, k) <==> k in Keys(es)
  {
    if es != [] {
      HasKeyInKeys(es[..|es| - 1], k);
      HasKeySnoc(es, k);
    }
  }

  method VariantDiffHelper(l: Variant, r: Variant) returns (out: seq<Change>)
    ensures out == Diff(l, r)
    decreases l
  {
    if !SameType(l, r) {
      out := [Change([], l, r)];
    } else if l.Object? {
      out := DiffObjects(l.entries, r.entries);
    } else if l.Array? {
      out := DiffArrays(l.elems, r.elems);
    } else if l != r {
      out := [Change([], l, r)];
    } else {
      out := [];
    }
  }

  method DiffObjects(le: seq<Entry>, re: seq<Entry>) returns (out: seq<Change>)
    ensures out == DiffLeft(le, re) + Added(le, re)
    decreases le, 1
  {
    var keys;
    out, keys := DiffLeftEntries(le, re);
    var more := DiffNewEntries(keys, le, re);
    out := out + more;
  }

  lemma LeftStep(le: seq<Entry>, re: seq<Entry>, i: nat)
    requires i < |le|
    ensures DiffLeft(le[i..], re) == DiffEntry(le[i], re) + DiffLeft(le[i + 1..], re)
  {
    assert le[i..][1..] == le[i + 1..];
  }

  lemma KeysStep(es: seq<Entry>, i: nat)
    requires i < |es|
    ensures Keys(es[..i + 1]) == Keys(es[..i]) + {es[i].key}
  {
    assert es[..i + 1][..i] == es[..i];
  }

  /** The loop over the left entries, collecting their keys. */
  method DiffLeftEntries(le: seq<Entry>, re: seq<Entry>) returns (out: seq<Change>, keys: set<string>)
    ensures out == DiffLeft(le, re) && keys == Keys(le)
    decreases le, 0
  {
    out, keys := [], {};
    ghost var all := DiffLeft(le, re);
    assert le[0..] == le;
    for i := 0 to |le|
      invariant all == out + DiffLeft(le[i..], re)
      invariant keys == Keys(le[..i])
    {
      var here := DiffOneEntry(le[i], re);
      LeftStep(le, re, i);
      KeysStep(le, i);
      Regroup(out, here, DiffLeft(le[i + 1..], re), DiffLeft(le[i..], re));
      out := out + here;
      keys := keys + {le[i].key};
    }
    assert le[..|le|] == le;
  }

  method DiffOneEntry(e: Entry, re: seq<Entry>) returns (out: seq<Change>)
    ensures out == DiffEntry(e, re)
    decreases e
  {
    if !HasKey(re, e.key) {
      out := [Change([Key(e.key)], e.value, Null)];
    } else {
      var inner := VariantDiffHelper(e.value, Get(re, e.key));
      out := Prefix(Key(e.key), inner);
    }
  }

  /** The loop over the right entries whose key was not seen on the left. */
  method DiffNewEntries(keys: set<string>, ghost le: seq<Entry>, re: seq<Entry>) returns (out: seq<Change>)
    requires keys == Keys(le)
    ensures out == Added(le, re)
  {
    out := [];
    for j := 0 to |re|
      invariant Added(le, re) == out + Added(le, re[j..])
    {
      HasKeyInKeys(le, re[j].key);
      assert re[j..][1..] == re[j + 1..];
      if re[j].key !in keys {
        out := out + [Change([Key(re[j].key)], Null, re[j].value)];
      }
    }
  }

  lemma ElemsStep(la: seq<Variant>, ra: seq<Variant>, i: nat, j: nat, at: nat)
    requires i <= |la| && j <= |ra|
    ensures i < |la| && j < |ra| ==>
      DiffElems(la[i..], ra[j..], at) == Prefix(Index(at), Diff(la[i], ra[j])) + DiffElems(la[i + 1..], ra[j + 1..], at + 1)
    ensures i < |la| && j == |ra| ==>
      DiffElems(la[i..], ra[j..], at) == [Change([Index(at)], la[i], Null)] + DiffElems(la[i + 1..], ra[j..], at + 1)
    ensures i == |la| && j < |ra| ==>
      DiffElems(la[i..], ra[j..], at) == [Change([Index(at)], Null, ra[j])] + DiffElems(la[i..], ra[j + 1..], at + 1)
    ensures i == |la| && j == |ra| ==> DiffElems(la[i..], ra[j..], at) == []
  {
    if i < |la| {
      assert la[i..][1..] == la[i + 1..];
    }
    if j < |ra| {
      assert ra[j..][1..] == ra[j + 1..];
    }
  }

  /** The elements at the indices that both have. */
  method DiffCommon(la: seq<Variant>, ra: seq<Variant>, common: nat) returns (out: seq<Change>)
    requires common <= |la| && common <= |ra|
    ensures DiffElems(la, ra, 0) == out + DiffElems(la[common..], ra[common..], common)
    decreases la, 0
  {
    out := [];
    ghost var all := DiffElems(la, ra, 0);
    assert la[0..] == la && ra[0..] == ra;
    for idx := 0 to common
      invariant all == out + DiffElems(la[idx..], ra[idx..], idx)
    {
      var inner := VariantDiffHelper(la[idx], ra[idx]);
      var here := Prefix(Index(idx), inner);
      ElemsStep(la, ra, idx, idx, idx);
      Regroup(out, here, DiffElems(la[idx + 1..], ra[idx + 1..], idx + 1), DiffElems(la[idx..], ra[idx..], idx));
      out := out + here;
    }
  }

  /** The elements beyond the right end. */
  method DiffRemoved(la: seq<Variant>, ra: seq<Variant>) returns (out: seq<Change>)
    requires |ra| <= |la|
    ensures out == DiffElems(la[|ra|..], [], |ra|)
  {
    out := [];
    var common := |ra|;
    assert ra[common..] == [];
    ghost var all := DiffElems(la[common..], ra[common..], common);
    for idx := common to |la|
      invariant all == out + DiffElems(la[idx..], ra[common..], idx)
    {
      var here := [Change([Index(idx)], la[idx], Null)];
      ElemsStep(la, ra, idx, common, idx);
      Regroup(out, here, DiffElems(la[idx + 1..], ra[common..], idx + 1), DiffElems(la[idx..], ra[common..], idx));
      out := out + here;
    }
    ElemsStep(la, ra, |la|, common, |la|);
  }

  /** The elements beyond the left end. */
  method DiffAppended(la: seq<Variant>, ra: seq<Variant>) returns (out: seq<Change>)
    requires |la| <= |ra|
    ensures out == DiffElems([], ra[|la|..], |la|)
  {
    out := [];
    var common := |la|;
    assert la[common..] == [];
    ghost var all := DiffElems(la[common..], ra[common..], common);
    for idx := common to |ra|
      invariant all == out + DiffElems(la[common..], ra[idx..], idx)
    {
      var here := [Change([Index(idx)], Null, ra[idx])];
      ElemsStep(la, ra, common, idx, idx);
      Regroup(out, here, DiffElems(la[common..], ra[idx + 1..], idx + 1), DiffElems(la[common..], ra[idx..], idx));
      out := out + here;
    }
    ElemsStep(la, ra, common, |ra|, |ra|);
  }

  method DiffArrays(la: seq<Variant>, ra: seq<Variant>) returns (out: seq<Change>)
    ensures out == DiffElems(la, ra, 0)
    decreases la, 1
  {
    var more;
    if |la| <= |ra| {
      out := DiffCommon(la, ra, |la|);
      more := DiffAppended(la, ra);
      assert la[|la|..] == [];
    } else {
      out := DiffCommon(la, ra, |ra|);
      more := DiffRemoved(la, ra);
      assert ra[|ra|..] == [];
    }
    out := out + more;
  }
}
