/** Python-style lists of field names, as tools/validate_reflection.py uses them. */
module FieldLists {
  import opened Collections

  type Field = string

  /** `list.remove`: drops the first occurrence. */
  function Remove(s: seq<Field>, x: Field): seq<Field> {
    if s == [] then [] else if s[0] == x then s[1..] else [s[0]] + Remove(s[1..], x)
  }

  /** The elements of `s` outside `drop`, in order. */
  function Without(s: seq<Field>, drop: set<Field>): seq<Field> {
    if s == [] then []
    else Without(s[..|s| - 1], drop) + (if s[|s| - 1] in drop then [] else [s[|s| - 1]])
  }

  /** On a duplicate-free list `remove` deletes exactly the one element. */
  lemma {:induction false} RemoveFromNoDup(s: seq<Field>, x: Field)
    requires NoDup(s)
    ensures NoDup(Remove(s, x))
    ensures forall y :: y in Remove(s, x) <==> y in s && y != x
  {
    if s != [] {
      RemoveFromNoDup(s[1..], x);
      assert s == [s[0]] + s[1..];
      assert s[0] !in s[1..];
    }
  }

  lemma NoDupAppend(s: seq<Field>, x: Field)
    requires NoDup(s) && x !in s
    ensures NoDup(s + [x])
    ensures forall y :: y in s + [x] <==> y in s || y == x
  {
  }

  /** In a duplicate-free list the tail from `n` and the prefix before `n` share nothing. */
  lemma NoDupSplit(s: seq<Field>, n: nat, i: nat)
    requires NoDup(s) && n <= i < |s|
    ensures s[i] !in s[..n]
  {
  }

  lemma NoDupParts(s: seq<Field>, n: nat, x: Field)
    requires NoDup(s) && n <= |s|
    ensures !(x in s[..n] && x in s[n..])
    ensures x in s <==> x in s[..n] || x in s[n..]
  {
    assert s == s[..n] + s[n..];
  }

  lemma WithoutSnoc(s: seq<Field>, n: nat, drop: set<Field>)
    requires n < |s|
    ensures Without(s[..n + 1], drop) == Without(s[..n], drop) + (if s[n] in drop then [] else [s[n]])
  {
    assert s[..n + 1][..n] == s[..n];
  }

  lemma {:induction false} WithoutConcat(s: seq<Field>, t: seq<Field>, drop: set<Field>)
    ensures Without(s + t, drop) == Without(s, drop) + Without(t, drop)
  {
    if t == [] {
      assert s + t == s;
    } else {
      var n := |t| - 1;
      assert (s + t)[..|s + t| - 1] == s + t[..n];
      WithoutConcat(s, t[..n], drop);
    }
  }

  lemma WithoutAround(s: seq<Field>, n: nat, drop: set<Field>)
    requires n <= |s|
    ensures n == |s| ==> s[..n] == s
    ensures n < |s| ==>
      Without(s, drop) == Without(s[..n], drop) + (if s[n] in drop then [] else [s[n]]) + Without(s[n + 1..], drop)
  {
    if n < |s| {
      assert s == s[..n + 1] + s[n + 1..];
      WithoutConcat(s[..n + 1], s[n + 1..], drop);
      WithoutSnoc(s, n, drop);
    }
  }

  lemma {:induction false} WithoutMembers(s: seq<Field>, drop: set<Field>)
    ensures forall x :: x in Without(s, drop) <==> x in s && x !in drop
  {
    if s != [] {
      WithoutMembers(s[..|s| - 1], drop);
      assert s == s[..|s| - 1] + [s[|s| - 1]];
    }
  }

  lemma {:induction false} WithoutNoDup(s: seq<Field>, drop: set<Field>)
    requires NoDup(s)
    ensures NoDup(Without(s, drop))
  {
    if s != [] {
      var n := |s| - 1;
      WithoutNoDup(s[..n], drop);
      WithoutMembers(s[..n], drop);
      NoDupSplit(s, n, n);
    }
  }

  /** Filtering a list by fields it does not contain changes nothing. */
  lemma {:induction false} WithoutForeign(s: seq<Field>, drop: set<Field>)
    requires forall x :: x in s ==> x !in drop
    ensures Without(s, drop) == s
  {
    if s != [] {
      WithoutForeign(s[..|s| - 1], drop);
      assert s[|s| - 1] in s;
    }
  }
}
