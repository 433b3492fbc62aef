/** Merkle roots (libraries/chain/merkle.cpp): pairs are combined level by level, the last one doubled when odd. */
module Merkle {

  /** The complete pairs of a level, combined; a last odd element is left out. */
  function Pairs<D>(h: (D, D) -> D, xs: seq<D>): (ys: seq<D>)
    ensures |ys| == |xs| / 2
    ensures forall i :: 0 <= i < |ys| ==> ys[i] == h(xs[2 * i], xs[2 * i + 1])
  {
    seq(|xs| / 2, i requires 0 <= i < |xs| / 2 => h(xs[2 * i], xs[2 * i + 1]))
  }

  /** The next level up, with the last element doubled when their number is odd. */
  function Level<D>(h: (D, D) -> D, xs: seq<D>): seq<D>
    requires xs != []
  {
    Pairs(h, if |xs| % 2 == 1 then xs + [xs[|xs| - 1]] else xs)
  }

  function Root<D>(h: (D, D) -> D, xs: seq<D>): D
    requires xs != []
    decreases |xs|
  {
    if |xs| == 1 then xs[0] else Root(h, Level(h, xs))
  }

  /** The digest of any number of ids, `zero` for none. */
  function MerkleRoot<D>(h: (D, D) -> D, zero: D, ids: seq<D>): D {
    if ids == [] then zero else Root(h, ids)
  }

  /** The code: each level overwrites the front of the list, which is then cut in half. */
  method ComputeMerkle<D>(h: (D, D) -> D, zero: D, leaves: seq<D>) returns (root: D)
    ensures root == MerkleRoot(h, zero, leaves)
  {
    if |leaves| == 0 {
      return zero;
    }
    var ids := leaves;
    while |ids| > 1
      invariant ids != [] && Root(h, ids) == Root(h, leaves)
      decreases |ids|
    {
      ghost var level := Level(h, ids);
      if |ids| % 2 == 1 {
        ids := ids + [ids[|ids| - 1]];
      }
      ghost var whole := ids;
      for i := 0 to |ids| / 2
        invariant |ids| == |whole|
        invariant forall j :: 0 <= j < i ==> ids[j] == h(whole[2 * j], whole[2 * j + 1])
        invariant forall j :: 2 * i <= j < |ids| ==> ids[j] == whole[j]
      {
        ids := ids[i := h(ids[2 * i], ids[2 * i + 1])];
      }
      ids := ids[..|ids| / 2];
      assert ids == level;
    }
    root := ids[0];
  }

  // ---------------------------------------------------------------------------------------
  // Levels whose last element is not complete yet
  // ---------------------------------------------------------------------------------------

  lemma LevelOfEvenAndLast<D>(h: (D, D) -> D, xs: seq<D>, top: D)
    requires |xs| % 2 == 0 && xs != []
    ensures Level(h, xs + [top]) == Pairs(h, xs) + [h(top, top)]
  {
  }

  lemma LevelOfOddAndLast<D>(h: (D, D) -> D, xs: seq<D>, top: D)
    requires |xs| % 2 == 1
    ensures Level(h, xs + [top]) == Pairs(h, xs) + [h(xs[|xs| - 1], top)]
  {
  }

  lemma PairsOfEvenAndLast<D>(h: (D, D) -> D, xs: seq<D>, top: D)
    requires |xs| % 2 == 0
    ensures Pairs(h, xs + [top]) == Pairs(h, xs)
  {
  }

  lemma PairsOfOddAndLast<D>(h: (D, D) -> D, xs: seq<D>, top: D)
    requires |xs| % 2 == 1
    ensures Pairs(h, xs + [top]) == Pairs(h, xs) + [h(xs[|xs| - 1], top)]
  {
  }

  // ---------------------------------------------------------------------------------------
  // Lists of different lengths with the same root
  // ---------------------------------------------------------------------------------------

  /** Every list of more than one digest has the root of a shorter one, the level above it. */
  lemma RootUnfolds<D>(h: (D, D) -> D, xs: seq<D>, level: seq<D>)
    requires |xs| > 1 && level == Level(h, xs)
    ensures 0 < |level| < |xs| && Root(h, xs) == Root(h, level)
  {
  }

  lemma LevelRepeats<D>(h: (D, D) -> D, xs: seq<D>, ys: seq<D>)
    requires |xs| % 2 == 1 && ys == xs + [xs[|xs| - 1]]
    ensures |ys| % 2 == 0 && Level(h, xs) == Level(h, ys)
  {
  }

  /** No leaf has the root `zero`, one leaf is its own, two are hashed in order, and an odd one is doubled. */
  lemma FewLeaves<D>(h: (D, D) -> D, zero: D, a: D, b: D, c: D)
    ensures MerkleRoot(h, zero, []) == zero && MerkleRoot(h, zero, [a]) == a
    ensures MerkleRoot(h, zero, [a, b]) == h(a, b)
    ensures MerkleRoot(h, zero, [a, b, c]) == h(h(a, b), h(c, c))
  {
    RootUnfolds(h, [a, b], [h(a, b)]);
    RootUnfolds(h, [a, b, c], [h(a, b), h(c, c)]);
    RootUnfolds(h, [h(a, b), h(c, c)], [h(h(a, b), h(c, c))]);
  }

  /** And an odd number of leaves has the root of the same leaves with the last one repeated. */
  lemma RepeatedLeaf<D>(h: (D, D) -> D, xs: seq<D>)
    requires |xs| > 1 && |xs| % 2 == 1
    ensures Root(h, xs) == Root(h, xs + [xs[|xs| - 1]])
  {
    var ys := xs + [xs[|xs| - 1]];
    LevelRepeats(h, xs, ys);
    RootUnfolds(h, xs, Level(h, xs));
    RootUnfolds(h, ys, Level(h, xs));
  }
}
