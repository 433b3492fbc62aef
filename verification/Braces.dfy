/** Brace counting: the reference against which the scope reader is measured. */
module Braces {

  /** `str.find(c, from)`. */
  function Find(content: string, c: char, from: nat): (i: int)
    ensures i == -1 || (from <= i < |content| && content[i] == c)
    decreases |content| - from
  {
    if from >= |content| then -1 else if content[from] == c then from else Find(content, c, from + 1)
  }

  lemma {:induction false} FindIsFirst(content: string, c: char, from: nat)
    ensures var i := Find(content, c, from);
      forall k :: from <= k < (if i == -1 then |content| else i) ==> content[k] != c
    decreases |content| - from
  {
    if from < |content| && content[from] != c {
      FindIsFirst(content, c, from + 1);
    }
  }

  function Delta(c: char): int {
    if c == '{' then 1 else if c == '}' then -1 else 0
  }

  /** Opening minus closing braces in content[i..k]. */
  function Depth(content: string, i: nat, k: nat): int
    requires k <= |content|
  {
    if k <= i then 0 else Depth(content, i, k - 1) + Delta(content[k - 1])
  }

  /** content[i..j] closes every brace it opens and no other. */
  ghost predicate Balanced(content: string, i: nat, j: nat) {
    i <= j <= |content| && Depth(content, i, j) == 0 && forall k :: i <= k <= j ==> Depth(content, i, k) >= 0
  }

  /** The brace at `s` is closed by the one at `e`. */
  ghost predicate Pair(content: string, s: nat, e: nat) {
    s < e < |content| && content[s] == '{' && content[e] == '}' && Balanced(content, s + 1, e)
  }

  /** The first closing brace from `i` on that `d` open braces do not account for, or the length. */
  function Unmatched(content: string, i: nat, d: nat): (e: nat)
    requires i <= |content|
    ensures i <= e <= |content|
    decreases |content| - i
  {
    if i == |content| then i
    else if content[i] == '{' then Unmatched(content, i + 1, d + 1)
    else if content[i] == '}' then (if d == 0 then i else Unmatched(content, i + 1, d - 1))
    else Unmatched(content, i + 1, d)
  }

  lemma {:induction false} DepthSplit(content: string, i: nat, j: nat, k: nat)
    requires i <= j <= k <= |content|
    ensures Depth(content, i, k) == Depth(content, i, j) + Depth(content, j, k)
  {
    if j < k {
      DepthSplit(content, i, j, k - 1);
    }
  }

  lemma DepthCons(content: string, i: nat, k: nat)
    requires i < k <= |content|
    ensures Depth(content, i, k) == Delta(content[i]) + Depth(content, i + 1, k)
  {
    DepthSplit(content, i, i + 1, k);
    assert Depth(content, i, i + 1) == Depth(content, i, i) + Delta(content[i]);
  }

  /** The scan stops where the counter first falls below zero. */
  lemma {:induction false} UnmatchedCounts(content: string, i: nat, d: nat, k: nat)
    requires i <= |content| && i <= k <= Unmatched(content, i, d)
    ensures d + Depth(content, i, k) >= 0
    ensures k == Unmatched(content, i, d) < |content| ==> content[k] == '}' && d + Depth(content, i, k) == 0
    decreases |content| - i
  {
    if i < |content| && i < k {
      DepthCons(content, i, k);
      UnmatchedCounts(content, i + 1, d + Delta(content[i]), k);
    }
  }

  lemma UnmatchedBalances(content: string, i: nat)
    requires i <= |content| && Unmatched(content, i, 0) < |content|
    ensures var e := Unmatched(content, i, 0); content[e] == '}' && Balanced(content, i, e)
  {
    var e := Unmatched(content, i, 0);
    forall k | i <= k <= e ensures Depth(content, i, k) >= 0 {
      UnmatchedCounts(content, i, 0, k);
    }
    UnmatchedCounts(content, i, 0, e);
  }

  /** Scanning past one unmatched brace uses up one open brace. */
  lemma {:induction false} UnmatchedNested(content: string, i: nat, a: nat, b: nat)
    requires i <= |content|
    ensures var e := Unmatched(content, i, a);
      Unmatched(content, i, a + 1 + b) == if e == |content| then e else Unmatched(content, e + 1, b)
    decreases |content| - i
  {
    if i < |content| {
      if content[i] == '}' {
        if a > 0 {
          UnmatchedNested(content, i + 1, a - 1, b);
        }
      } else {
        UnmatchedNested(content, i + 1, a + Delta(content[i]), b);
      }
    }
  }

  /** Text without braces does not affect the scan. */
  lemma {:induction false} UnmatchedSkip(content: string, i: nat, j: nat, d: nat)
    requires i <= j <= |content| && forall k :: i <= k < j ==> Delta(content[k]) == 0
    ensures Unmatched(content, i, d) == Unmatched(content, j, d)
    decreases j - i
  {
    if i < j {
      UnmatchedSkip(content, i + 1, j, d);
    }
  }

  /** The scan, told from the first opening and the first closing brace. */
  lemma UnmatchedByFirst(content: string, i: nat)
    requires i <= |content|
    ensures var p, q := Find(content, '{', i), Find(content, '}', i);
      Unmatched(content, i, 0) ==
        if p != -1 && (q == -1 || p < q) then
          (var e := Unmatched(content, p + 1, 0); if e == |content| then e else Unmatched(content, e + 1, 0))
        else if q != -1 then q else |content|
  {
    var p, q := Find(content, '{', i), Find(content, '}', i);
    FindIsFirst(content, '{', i);
    FindIsFirst(content, '}', i);
    var first := if p != -1 && (q == -1 || p < q) then p else if q != -1 then q else |content|;
    UnmatchedSkip(content, i, first, 0);
    if first == p {
      UnmatchedNested(content, p + 1, 0, 0);
    }
  }

  // ---------------------------------------------------------------------------------------
  // The forest of brace pairs
  // ---------------------------------------------------------------------------------------

  datatype Tree = Tree(start: nat, end: nat, children: seq<Tree>)

  /** The pairs that open in content[i..j], outermost first, found by counting. */
  function Forest(content: string, i: nat, j: nat): seq<Tree>
    requires i <= j <= |content|
    decreases j - i
  {
    var p := Find(content, '{', i);
    if p == -1 || p >= j then []
    else
      var e := Unmatched(content, p + 1, 0);
      if e >= j then [] else [Tree(p, e, Forest(content, p + 1, e))] + Forest(content, e + 1, j)
  }

  /** Trees of matched pairs, in order and disjoint inside [i, j), and so are their children. */
  ghost predicate WellNested(content: string, forest: seq<Tree>, i: nat, j: nat)
    decreases forest
  {
    forest == [] ||
    (var t := forest[0];
     && i <= t.start && t.end < j && Pair(content, t.start, t.end)
     && WellNested(content, t.children, t.start + 1, t.end)
     && WellNested(content, forest[1..], t.end + 1, j))
  }

  /** Some tree of the forest, or one below it, starts at `q`. */
  predicate StartsAt(forest: seq<Tree>, q: nat)
    decreases forest
  {
    forest != [] && (forest[0].start == q || StartsAt(forest[0].children, q) || StartsAt(forest[1..], q))
  }

  lemma {:induction false} ForestIsWellNested(content: string, i: nat, j: nat)
    requires i <= j <= |content|
    ensures WellNested(content, Forest(content, i, j), i, j)
    decreases j - i
  {
    var p := Find(content, '{', i);
    if p != -1 && p < j {
      var e := Unmatched(content, p + 1, 0);
      if e < j {
        UnmatchedBalances(content, p + 1);
        ForestIsWellNested(content, p + 1, e);
        ForestIsWellNested(content, e + 1, j);
      }
    }
  }

  /** In a balanced region the first pair splits it into two balanced regions. */
  lemma BalancedSplit(content: string, i: nat, j: nat)
    requires Balanced(content, i, j)
    ensures var p := Find(content, '{', i);
      if p == -1 || p >= j then true
      else var e := Unmatched(content, p + 1, 0);
        e < j && Balanced(content, p + 1, e) && Balanced(content, e + 1, j)
  {
    var p := Find(content, '{', i);
    if p != -1 && p < j {
      FindIsFirst(content, '{', i);
      NoOpenNoClose(content, i, j, p);
      var e := Unmatched(content, p + 1, 0);
      DepthSplit(content, i, p, j);
      DepthCons(content, p, j);
      if e >= j {
        UnmatchedCounts(content, p + 1, 0, j);
        assert false;
      }
      UnmatchedBalances(content, p + 1);
      var after := e + 1;
      forall k | after <= k <= j ensures Depth(content, after, k) >= 0 {
        DepthAfterPair(content, i, p, e, k);
      }
      DepthAfterPair(content, i, p, e, j);
    }
  }

  lemma DepthAfterPair(content: string, i: nat, p: nat, e: nat, k: nat)
    requires i <= p && Pair(content, p, e) && Depth(content, i, p) == 0 && e < k <= |content|
    ensures Depth(content, i, k) == Depth(content, e + 1, k)
  {
    DepthSplit(content, i, p, k);
    DepthCons(content, p, k);
    DepthSplit(content, p + 1, e, k);
    DepthCons(content, e, k);
  }

  lemma {:induction false} NoOpenNoClose(content: string, i: nat, j: nat, p: nat)
    requires Balanced(content, i, j) && i <= p <= j && forall k :: i <= k < p ==> content[k] != '{'
    ensures Depth(content, i, p) == 0
  {
    if i < p {
      NoOpenNoClose(content, i, j, p - 1);
      assert Depth(content, i, p) >= 0;
    }
  }

  lemma StartsCons(t: Tree, rest: seq<Tree>, q: nat)
    ensures StartsAt([t] + rest, q) <==> t.start == q || StartsAt(t.children, q) || StartsAt(rest, q)
  {
    assert ([t] + rest)[1..] == rest;
  }

  /** Counting finds the partner of every opening brace of the region inside it. */
  predicate Covered(content: string, i: nat, j: nat)
    requires i <= j <= |content|
    decreases j - i
  {
    var p := Find(content, '{', i);
    if p == -1 || p >= j then true
    else
      var e := Unmatched(content, p + 1, 0);
      e < j && content[e] != '{' && Covered(content, p + 1, e) && Covered(content, e + 1, j)
  }

  lemma {:induction false} BalancedIsCovered(content: string, i: nat, j: nat)
    requires Balanced(content, i, j)
    ensures Covered(content, i, j)
    decreases j - i
  {
    BalancedSplit(content, i, j);
    var p := Find(content, '{', i);
    if p != -1 && p < j {
      UnmatchedBalances(content, p + 1);
      BalancedIsCovered(content, p + 1, Unmatched(content, p + 1, 0));
      BalancedIsCovered(content, Unmatched(content, p + 1, 0) + 1, j);
    }
  }

  predicate OpensIn(content: string, i: nat, j: nat, q: nat)
    requires j <= |content|
  {
    i <= q < j && content[q] == '{'
  }

  lemma OpensSplit(content: string, i: nat, j: nat, e: nat, q: nat)
    requires i <= j <= |content| && Find(content, '{', i) != -1 && Find(content, '{', i) < e < j && content[e] != '{'
    ensures var p := Find(content, '{', i);
      OpensIn(content, i, j, q) <==> q == p || OpensIn(content, p + 1, e, q) || OpensIn(content, e + 1, j, q)
  {
    FindIsFirst(content, '{', i);
  }

  lemma {:induction false} CoveredStarts(content: string, i: nat, j: nat, q: nat)
    requires i <= j <= |content| && Covered(content, i, j)
    ensures StartsAt(Forest(content, i, j), q) <==> OpensIn(content, i, j, q)
    decreases j - i
  {
    var p := Find(content, '{', i);
    FindIsFirst(content, '{', i);
    if p != -1 && p < j {
      var e := Unmatched(content, p + 1, 0);
      CoveredStarts(content, p + 1, e, q);
      CoveredStarts(content, e + 1, j, q);
      OpensSplit(content, i, j, e, q);
      StartsCons(Tree(p, e, Forest(content, p + 1, e)), Forest(content, e + 1, j), q);
    }
  }

  /** In a balanced region the forest holds every opening brace. */
  lemma ForestIsComplete(content: string, i: nat, j: nat, q: nat)
    requires Balanced(content, i, j)
    ensures StartsAt(Forest(content, i, j), q) <==> OpensIn(content, i, j, q)
  {
    BalancedIsCovered(content, i, j);
    CoveredStarts(content, i, j, q);
  }
}
