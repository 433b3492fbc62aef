/** Swaps that are declared although the order does not call for them (tools/validate_reflection.py, lines 645-665). */
module NeedlessSwaps {
  import opened Collections
  import opened FieldLists
  import opened ReflectionMatcher

  /** Field `x` is declared swapped, and the lists correspond without that as well. */
  ghost predicate Needless(F: seq<Field>, R: seq<Field>, S: seq<Field>, I: seq<Field>, x: Field) {
    x in S && Corresponds(F, R, Remove(S, x), I)
  }

  lemma {:induction false} WithoutTwice(s: seq<Field>, d: set<Field>, e: set<Field>)
    ensures Without(Without(s, d), e) == Without(s, d + e)
  {
    if s != [] {
      var n := |s| - 1;
      WithoutTwice(s[..n], d, e);
      WithoutConcat(Without(s[..n], d), if s[n] in d then [] else [s[n]], e);
      if s[n] !in d {
        assert Without([s[n]], e) == if s[n] in e then [] else [s[n]];
      }
    }
  }

  /** Declaring one more swap keeps the correspondence if and only if the field is reflected. */
  lemma OneMoreSwap(F: seq<Field>, R: seq<Field>, S: seq<Field>, I: seq<Field>, x: Field)
    requires NoDup(S) && Needless(F, R, S, I, x)
    ensures Corresponds(F, R, S, I) <==> x in R
  {
    var T := Remove(S, x);
    RemoveFromNoDup(S, x);
    assert Elems(S) == Elems(T) + {x};
    WithoutTwice(R, Elems(T), {x});
    WithoutTwice(F, Elems(I) + Elems(T), {x});
    assert Elems(I) + Elems(S) == Elems(I) + Elems(T) + {x};
    assert Placed(F, R, T, I, x);
    if x in R {
      forall y
        ensures Placed(F, R, S, I, y)
      {
        assert Placed(F, R, T, I, y);
      }
    } else {
      assert !Placed(F, R, S, I, x);
    }
  }

  /** A needless swap is accepted if and only if its field is reflected and no swap is redundant. */
  lemma NeedlessAcceptedExactly(F: seq<Field>, R: seq<Field>, S: seq<Field>, I: seq<Field>, x: Field)
    requires WellFormedRecord(R, S, I) && Needless(F, R, S, I, x)
    ensures Verify(F, R, S, I).Accept? <==> x in R && NoRedundantSwap(F, R, S)
  {
    OneMoreSwap(F, R, S, I, x);
    AcceptsExactly(F, R, S, I);
  }

  /** The reflected fields are those of the class that are not ignored, in the same order. */
  predicate Unchanged(F: seq<Field>, R: seq<Field>, I: seq<Field>) {
    NoDup(F) && R == Without(F, Elems(I))
  }

  lemma UnchangedCorresponds(F: seq<Field>, R: seq<Field>, S: seq<Field>, I: seq<Field>)
    requires Unchanged(F, R, I)
    ensures Corresponds(F, R, S, I) <==> (forall x :: x in I ==> x in F) && (forall x :: x in S ==> x in R)
  {
    WithoutMembers(F, Elems(I));
    WithoutTwice(F, Elems(I), Elems(S));
    if Corresponds(F, R, S, I) {
      forall x
        ensures (x in I ==> x in F) && (x in S ==> x in R)
      {
        assert Placed(F, R, S, I, x);
      }
    }
  }

  /** Where the class field number `i` is in the reflection, and what is around it. */
  lemma Position(F: seq<Field>, R: seq<Field>, I: seq<Field>, i: nat) returns (j: nat)
    requires Unchanged(F, R, I) && i < |F| && F[i] !in I
    ensures j < |R| && R[j] == F[i] && R[..j] == Without(F[..i], Elems(I))
    ensures i == 0 ==> j == 0
    ensures i > 0 && F[i - 1] !in I ==> j > 0 && R[j - 1] == F[i - 1]
  {
    WithoutAround(F, i, Elems(I));
    j := |Without(F[..i], Elems(I))|;
    if i > 0 {
      WithoutSnoc(F, i - 1, Elems(I));
    }
  }

  /** Class field number `i` is declared swapped, and stands first or behind a plain field. */
  predicate BehindPlain(F: seq<Field>, S: seq<Field>, I: seq<Field>, i: nat) {
    i < |F| && F[i] in S && (i == 0 || (F[i - 1] !in S && F[i - 1] !in I))
  }

  lemma BehindPlainIsRedundant(F: seq<Field>, R: seq<Field>, S: seq<Field>, I: seq<Field>, i: nat)
    requires Unchanged(F, R, I) && BehindPlain(F, S, I, i) && F[i] !in I
    ensures !NoRedundantSwap(F, R, S)
  {
    var j := Position(F, R, I, i);
    assert RedundantSwap(F, R, S, i, i, j);
  }

  lemma RedundantIsBehindPlain(F: seq<Field>, R: seq<Field>, S: seq<Field>, I: seq<Field>, k: nat, i: nat, j: nat)
    requires Unchanged(F, R, I) && NoDup(R) && (forall x :: x in S ==> x in R) && RedundantSwap(F, R, S, k, i, j)
    ensures BehindPlain(F, S, I, i)
  {
    WithoutMembers(F, Elems(I));
    WithoutMembers(F[..i], Elems(I));
    var j' := Position(F, R, I, i);
    assert j == j';
  }

  /**
   * If the order is unchanged, the checker accepts exactly when the ignored fields are in the class,
   * the swapped ones are reflected, and each of these stands right behind a swapped or ignored one.
   */
  lemma UnchangedOrderExactly(F: seq<Field>, R: seq<Field>, S: seq<Field>, I: seq<Field>)
    requires WellFormedRecord(R, S, I) && Unchanged(F, R, I)
    ensures Verify(F, R, S, I).Accept? <==>
      && (forall x :: x in I ==> x in F)
      && (forall x :: x in S ==> x in R)
      && (forall i :: 0 <= i < |F| ==> !BehindPlain(F, S, I, i))
  {
    AcceptsExactly(F, R, S, I);
    UnchangedCorresponds(F, R, S, I);
    if Corresponds(F, R, S, I) {
      WithoutMembers(F, Elems(I));
      if i :| 0 <= i < |F| && BehindPlain(F, S, I, i) {
        assert F[i] in R;
        BehindPlainIsRedundant(F, R, S, I, i);
      }
      if k: nat, i: nat, j: nat :| RedundantSwap(F, R, S, k, i, j) {
        RedundantIsBehindPlain(F, R, S, I, k, i, j);
      }
    }
  }

  /** All of these swaps are needless. */
  lemma UnchangedIsNeedless(F: seq<Field>, R: seq<Field>, S: seq<Field>, I: seq<Field>, x: Field)
    requires Unchanged(F, R, I) && NoDup(S) && x in S && Corresponds(F, R, S, I)
    ensures Needless(F, R, S, I, x)
  {
    RemoveFromNoDup(S, x);
    UnchangedCorresponds(F, R, S, I);
    UnchangedCorresponds(F, R, Remove(S, x), I);
  }

  /** So with nothing ignored every one of them is rejected: the first cannot stand behind another. */
  lemma SwapsOfUnchangedOrderRejected(F: seq<Field>, S: seq<Field>)
    requires NoDup(F) && NoDup(S) && S != []
    ensures Verify(F, F, S, []).Reject?
  {
    var none: seq<Field> := [];
    assert Elems(none) == {};
    WithoutForeign(F, {});
    UnchangedOrderExactly(F, F, S, []);
    if S[0] in F {
      var i := FirstOf(F, S);
      assert BehindPlain(F, S, [], i);
    }
  }

  lemma FirstOf(F: seq<Field>, S: seq<Field>) returns (i: nat)
    requires exists x :: x in S && x in F
    ensures i < |F| && F[i] in S && forall m :: 0 <= m < i ==> F[m] !in S
  {
    i := 0;
    while F[i] !in S
      invariant i < |F| && forall m :: 0 <= m < i ==> F[m] !in S
      decreases |F| - i
    {
      if i + 1 == |F| {
        assert forall m :: 0 <= m < |F| ==> F[m] !in S;
        assert false;
      }
      i := i + 1;
    }
  }

  /** A needless swap right behind an ignored field is accepted. */
  lemma NeedlessSwapBesideIgnored(i: Field, x: Field)
    requires i != x
    ensures Verify([i, x], [x], [x], [i]).Accept? && Needless([i, x], [x], [x], [i], x)
  {
    var F, R, S, I := [i, x], [x], [x], [i];
    assert F[..1] == [i] && Without([i], Elems(I)) == [];
    assert Without(F, Elems(I)) == R;
    assert F[0] == i && F[1] == x && i in F;
    UnchangedOrderExactly(F, R, S, I);
    AcceptsExactly(F, R, S, I);
    UnchangedIsNeedless(F, R, S, I, x);
  }

  lemma NoneRedundant(x: Field, a: Field, y: Field)
    requires x != a && a != y && x != y
    ensures NoRedundantSwap([x, a, y], [y, x, a], [x, y])
  {
    var F, R, S := [x, a, y], [y, x, a], [x, y];
    assert F[1] == a && a !in S;
  }

  lemma OneDeclared(x: Field, a: Field, y: Field)
    requires x != a && a != y && x != y
    ensures Verify([x, a, y], [y, x, a], [y], []).Accept?
  {
    var F, R := [x, a, y], [y, x, a];
    assert F[0] == x && F[1] == a && F[2] == y;
    assert F == [] + [x, a] + [y] + [] && R == [] + [y] + [x, a] + [];
    MovedFieldAccepted([], y, [x, a], []);
  }

  /** And with nothing ignored, if another field did move. */
  lemma NeedlessSwapBesideMoved(x: Field, a: Field, y: Field)
    requires x != a && a != y && x != y
    ensures
      var F, R := [x, a, y], [y, x, a];
      Verify(F, R, [x, y], []).Accept? && Verify(F, R, [y], []).Accept? && Needless(F, R, [x, y], [], x)
  {
    var F, R := [x, a, y], [y, x, a];
    OneDeclared(x, a, y);
    AcceptsExactly(F, R, [y], []);
    assert Remove([x, y], x) == [y];
    NoneRedundant(x, a, y);
    NeedlessAcceptedExactly(F, R, [x, y], [], x);
  }
}
