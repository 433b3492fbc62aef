/** Optional values, and lists and sets of any elements. */
module Collections {

  datatype Option<T> = None | Some(value: T)

  predicate NoDup<T(==)>(s: seq<T>) {
    forall i, j :: 0 <= i < j < |s| ==> s[i] != s[j]
  }

  function Elems<T>(s: seq<T>): set<T> {
    set x | x in s
  }

  /** A part of a set has at most as many elements. */
  lemma SubsetSize<T>(a: set<T>, b: set<T>)
    requires a <= b
    ensures |a| <= |b|
  {
    assert b == a + (b - a);
  }

  lemma Regroup<T>(before: seq<T>, here: seq<T>, rest: seq<T>, all: seq<T>)
    requires all == here + rest
    ensures before + all == (before + here) + rest
  {
  }

  lemma ElemsNext<T>(s: seq<T>, i: nat)
    requires i < |s|
    ensures Elems(s[..i + 1]) == Elems(s[..i]) + {s[i]}
  {
    assert s[..i + 1] == s[..i] + [s[i]];
  }

  /** A list has at most as many different elements as entries, and as many if none is repeated. */
  lemma {:induction false} ElemsSize<T>(s: seq<T>)
    ensures |Elems(s)| <= |s| && (NoDup(s) ==> |Elems(s)| == |s|)
  {
    if s != [] {
      var n := |s| - 1;
      ElemsSize(s[..n]);
      ElemsNext(s, n);
      assert s[..n + 1] == s;
      if NoDup(s) {
        assert s[n] !in s[..n];
      }
    }
  }
}
