/** The append-only merkle tree (libraries/chain/include/eosio/chain/incremental_merkle.hpp). */
module IncrementalMerkle {
  import opened Collections
  import opened Merkle

  // ---------------------------------------------------------------------------------------
  // The depth of the tree, by bit tricks
  // ---------------------------------------------------------------------------------------

  function Smear(value: bv64): bv64 {
    var a := value | (value >> 1);
    var b := a | (a >> 2);
    var c := b | (b >> 4);
    var d := c | (c >> 8);
    var e := d | (d >> 16);
    e | (e >> 32)
  }

  function NextPowerOf2(value: bv64): bv64 {
    Smear(value - 1) + 1
  }

  function ClzPower2(value: bv64): int {
    64 - (if value != 0 then 1 else 0)
       - (if value & 0x00000000FFFFFFFF != 0 then 32 else 0)
       - (if value & 0x0000FFFF0000FFFF != 0 then 16 else 0)
       - (if value & 0x00FF00FF00FF00FF != 0 then 8 else 0)
       - (if value & 0x0F0F0F0F0F0F0F0F != 0 then 4 else 0)
       - (if value & 0x3333333333333333 != 0 then 2 else 0)
       - (if value & 0x5555555555555555 != 0 then 1 else 0)
  }

  function CalculateMaxDepth(nodeCount: bv64): int {
    if nodeCount == 0 then 0 else ClzPower2(NextPowerOf2(nodeCount)) + 1
  }

  function SignificantBits(v: bv64): nat
    decreases v
  {
    if v == 0 then 0 else 1 + SignificantBits(v >> 1)
  }

  lemma SmearStep(v: bv64)
    requires v != 0
    ensures Smear(v) == (Smear(v >> 1) << 1) | 1
    ensures Smear(v >> 1) & 0x8000000000000000 == 0
  {
  }

  lemma SmearOnes(v: bv64)
    ensures Smear(v) & (Smear(v) + 1) == 0
  {
  }

  lemma ClzStep(p: bv64)
    requires p != 0 && p & (p - 1) == 0
    ensures ClzPower2(p << 1) == ClzPower2(p) + 1
  {
  }

  lemma DoubledOnes(s: bv64)
    requires s & 0x8000000000000000 == 0
    ensures ((s << 1) | 1) + 1 == (s + 1) << 1 && s + 1 != 0
  {
  }

  /**
   * For a power of two `clz_power_2` counts the zeros below its one, not those above it, and the
   * depth it is used for is the bit length of the number of nodes already there.
   */
  lemma {:induction false} SmearDepth(v: bv64, s: bv64)
    requires s == Smear(v)
    ensures ClzPower2(s + 1) == SignificantBits(v)
    decreases v
  {
    if v == 0 {
      assert ClzPower2(1) == 0;
    } else {
      var v', s' := v >> 1, Smear(v >> 1);
      SmearDepth(v', s');
      SmearStep(v);
      SmearOnes(v');
      DoubledPower(s', s);
      BitLengthUnfold(v, v');
    }
  }

  lemma BitLengthUnfold(v: bv64, half: bv64)
    requires v != 0 && half == v >> 1
    ensures SignificantBits(v) == 1 + SignificantBits(half)
  {
  }

  lemma DoubledPower(s: bv64, s': bv64)
    requires s & (s + 1) == 0 && s & 0x8000000000000000 == 0 && s' == (s << 1) | 1
    ensures ClzPower2(s' + 1) == ClzPower2(s + 1) + 1
  {
    DoubledOnes(s);
    OnesIsPower(s);
    ClzStep(s + 1);
  }

  lemma OnesIsPower(s: bv64)
    requires s & (s + 1) == 0
    ensures (s + 1) & ((s + 1) - 1) == 0
  {
  }

  lemma DepthIsBitLength(count: bv64)
    requires count != 0xFFFFFFFFFFFFFFFF
    ensures CalculateMaxDepth(count + 1) - 1 == SignificantBits(count)
  {
    SmearDepth(count, Smear(count));
    CountUp(count);
  }

  lemma CountUp(count: bv64)
    requires count != 0xFFFFFFFFFFFFFFFF
    ensures count + 1 != 0 && (count + 1) - 1 == count
  {
  }

  // ---------------------------------------------------------------------------------------
  // 64-bit counters as numbers
  // ---------------------------------------------------------------------------------------

  /** The 64-bit word holds the number `n`. */
  predicate Counts(v: bv64, n: nat)
    decreases n
  {
    (v == 0 <==> n == 0) && (v & 1 == 0 <==> n % 2 == 0) && (n > 0 ==> Counts(v >> 1, n / 2))
  }

  lemma CountsFromHalf(v: bv64, half: bv64, n: nat)
    requires half == v >> 1 && v != 0 && n > 0 && (v & 1 == 0 <==> n % 2 == 0) && Counts(half, n / 2)
    ensures Counts(v, n)
  {
  }

  lemma NextEven(v: bv64)
    requires v & 1 == 0
    ensures (v + 1) >> 1 == v >> 1 && (v + 1) & 1 != 0 && v + 1 != 0
  {
  }

  lemma NextOdd(v: bv64)
    requires v & 1 != 0 && v != 0xFFFFFFFFFFFFFFFF
    ensures (v + 1) >> 1 == (v >> 1) + 1 && (v + 1) & 1 == 0 && v + 1 != 0
  {
  }

  lemma CountsNextEven(v: bv64, n: nat)
    requires v & 1 == 0 && n % 2 == 0 && Counts(v >> 1, n / 2)
    ensures Counts(v + 1, n + 1)
  {
    NextEven(v);
    assert (n + 1) / 2 == n / 2;
    CountsFromHalf(v + 1, v >> 1, n + 1);
  }

  lemma CountsHalf(v: bv64, n: nat)
    requires Counts(v, n)
    ensures (v & 1 == 0 <==> n % 2 == 0) && Counts(v >> 1, n / 2)
  {
    if n == 0 {
      ZeroHalf();
    }
  }

  lemma ZeroHalf()
    ensures (0 as bv64) >> 1 == 0
  {
  }

  lemma CountsNextOdd(v: bv64, n: nat)
    requires v & 1 != 0 && n % 2 == 1 && v != 0xFFFFFFFFFFFFFFFF && Counts((v >> 1) + 1, n / 2 + 1)
    ensures Counts(v + 1, n + 1)
  {
    NextOdd(v);
    CountsFromHalf(v + 1, (v >> 1) + 1, n + 1);
  }

  lemma HalfIsSmall(v: bv64)
    ensures v >> 1 != 0xFFFFFFFFFFFFFFFF
  {
  }

  /** Incrementing the word increments the number, short of overflow. */
  lemma {:induction false} CountsNext(v: bv64, n: nat)
    requires Counts(v, n) && v != 0xFFFFFFFFFFFFFFFF
    ensures Counts(v + 1, n + 1)
    decreases n
  {
    CountsHalf(v, n);
    if n % 2 == 0 {
      CountsNextEven(v, n);
    } else {
      HalfIsSmall(v);
      CountsNext(v >> 1, n / 2);
      CountsNextOdd(v, n);
    }
  }

  // ---------------------------------------------------------------------------------------
  // What an append does, on levels of nodes
  // ---------------------------------------------------------------------------------------

  /** The complete subtrees without a partner, smallest first. */
  function Unpaired<D>(h: (D, D) -> D, xs: seq<D>): seq<D>
    decreases |xs|
  {
    if xs == [] then []
    else (if |xs| % 2 == 1 then [xs[|xs| - 1]] else []) + Unpaired(h, Pairs(h, xs))
  }

  /** The number of elements is a power of two: every level pairs up. */
  predicate Whole(n: nat) {
    n == 1 || (n > 1 && n % 2 == 0 && Whole(n / 2))
  }

  /** The node list kept for some leaves: the unpaired subtrees, and the root unless it is one of them. */
  function Active<D>(h: (D, D) -> D, ids: seq<D>): seq<D> {
    if ids == [] then []
    else if Whole(|ids|) then Unpaired(h, ids)
    else Unpaired(h, ids) + [Root(h, ids)]
  }

  /** The node above `top`, which has the complete nodes `xs` to its left. */
  function Above<D>(h: (D, D) -> D, xs: seq<D>, top: D): D
    requires xs != []
  {
    h(if |xs| % 2 == 0 then top else xs[|xs| - 1], top)
  }

  /** The root reached by collapsing `top` with the complete nodes to its left. */
  function Apex<D>(h: (D, D) -> D, xs: seq<D>, top: D): D
    decreases |xs|
  {
    if xs == [] then top else Apex(h, Pairs(h, xs), Above(h, xs, top))
  }

  /** The complete nodes met on the way that are not completed into a larger one. */
  function Kept<D>(h: (D, D) -> D, xs: seq<D>, top: D, partial: bool): seq<D>
    decreases |xs|
  {
    if xs == [] then []
    else if |xs| % 2 == 0 then (if partial then [] else [top]) + Kept(h, Pairs(h, xs), Above(h, xs, top), true)
    else (if partial then [xs[|xs| - 1]] else []) + Kept(h, Pairs(h, xs), Above(h, xs, top), partial)
  }

  /** The collapse arrives at the root of the leaves. */
  lemma {:induction false} ApexIsRoot<D>(h: (D, D) -> D, xs: seq<D>, top: D)
    ensures Apex(h, xs, top) == Root(h, xs + [top])
    decreases |xs|
  {
    if xs != [] {
      if |xs| % 2 == 0 {
        LevelOfEvenAndLast(h, xs, top);
      } else {
        LevelOfOddAndLast(h, xs, top);
      }
      ApexIsRoot(h, Pairs(h, xs), Above(h, xs, top));
    }
  }

  /** Beside a partial node exactly the unpaired complete subtrees are kept. */
  lemma {:induction false} KeptBesidePartial<D>(h: (D, D) -> D, xs: seq<D>, top: D)
    ensures Kept(h, xs, top, true) == Unpaired(h, xs)
    decreases |xs|
  {
    if xs != [] {
      KeptBesidePartial(h, Pairs(h, xs), Above(h, xs, top));
    }
  }

  lemma UnpairedOfEvenAndLast<D>(h: (D, D) -> D, xs: seq<D>, top: D)
    requires |xs| % 2 == 0
    ensures Unpaired(h, xs + [top]) == [top] + Unpaired(h, Pairs(h, xs))
  {
    PairsOfEvenAndLast(h, xs, top);
  }

  lemma UnpairedOfOddAndLast<D>(h: (D, D) -> D, xs: seq<D>, top: D)
    requires |xs| % 2 == 1
    ensures Unpaired(h, xs + [top]) == Unpaired(h, Pairs(h, xs) + [Above(h, xs, top)])
  {
    PairsOfOddAndLast(h, xs, top);
  }

  /** Beside a complete node nothing is kept when it completes the whole tree, else the unpaired subtrees are. */
  lemma {:induction false} KeptBesideComplete<D>(h: (D, D) -> D, xs: seq<D>, top: D)
    ensures Whole(|xs| + 1) ==> Kept(h, xs, top, false) == [] && Unpaired(h, xs + [top]) == [Apex(h, xs, top)]
    ensures !Whole(|xs| + 1) ==> Kept(h, xs, top, false) == Unpaired(h, xs + [top])
    decreases |xs|
  {
    if |xs| % 2 == 0 {
      UnpairedOfEvenAndLast(h, xs, top);
      if xs == [] {
        assert Pairs(h, xs) == [];
      } else {
        KeptBesidePartial(h, Pairs(h, xs), Above(h, xs, top));
      }
    } else {
      UnpairedOfOddAndLast(h, xs, top);
      KeptBesideComplete(h, Pairs(h, xs), Above(h, xs, top));
      assert |Pairs(h, xs)| + 1 == (|xs| + 1) / 2;
    }
  }

  /** So the list after an append is the one that belongs to the longer leaves. */
  lemma AppendKeepsActive<D>(h: (D, D) -> D, ids: seq<D>, digest: D)
    ensures Kept(h, ids, digest, false) + [Apex(h, ids, digest)] == Active(h, ids + [digest])
    ensures Apex(h, ids, digest) == Root(h, ids + [digest])
  {
    KeptBesideComplete(h, ids, digest);
    ApexIsRoot(h, ids, digest);
  }

  lemma ActiveStartsWithUnpaired<D>(h: (D, D) -> D, ids: seq<D>)
    ensures Unpaired(h, ids) <= Active(h, ids)
    ensures ids != [] ==> Active(h, ids) != [] && Active(h, ids)[|Active(h, ids)| - 1] == Root(h, ids)
  {
    if ids != [] && Whole(|ids|) {
      var xs, top := ids[..|ids| - 1], ids[|ids| - 1];
      assert ids == xs + [top];
      AppendKeepsActive(h, xs, top);
    }
  }

  lemma IndexStep(index: bv64, n: nat)
    requires Counts(index, n)
    ensures SignificantBits(index) > 0 <==> n > 0
    ensures n > 0 ==> (index & 1 == 0 <==> n % 2 == 0)
    ensures n > 0 ==> Counts(index >> 1, n / 2) && SignificantBits(index >> 1) == SignificantBits(index) - 1
  {
  }

  /** What is read next and what is left to read. */
  lemma UnpairedStep<D>(h: (D, D) -> D, xs: seq<D>, rest: seq<D>)
    requires xs != [] && Unpaired(h, xs) <= rest
    ensures |xs| % 2 == 0 ==> Unpaired(h, Pairs(h, xs)) <= rest
    ensures |xs| % 2 == 1 ==> rest != [] && rest[0] == xs[|xs| - 1] && Unpaired(h, Pairs(h, xs)) <= rest[1..]
  {
    if |xs| % 2 == 1 {
      assert Unpaired(h, xs)[0] == xs[|xs| - 1];
      assert Unpaired(h, xs)[1..] == Unpaired(h, Pairs(h, xs));
    }
  }

  /** One level of the collapse: what it keeps, and what remains to be kept. */
  lemma KeptStep<D>(h: (D, D) -> D, xs: seq<D>, top: D, partial: bool, kept: seq<D>)
    requires xs != []
    ensures |xs| % 2 == 0 ==>
      kept + Kept(h, xs, top, partial) ==
        (if partial then kept else kept + [top]) + Kept(h, Pairs(h, xs), Above(h, xs, top), true)
    ensures |xs| % 2 == 1 ==>
      kept + Kept(h, xs, top, partial) ==
        (if partial then kept + [xs[|xs| - 1]] else kept) + Kept(h, Pairs(h, xs), Above(h, xs, top), partial)
  {
    var all := Kept(h, xs, top, partial);
    if |xs| % 2 == 0 {
      var rest := Kept(h, Pairs(h, xs), Above(h, xs, top), true);
      if !partial {
        Regroup(kept, [top], rest, all);
      } else {
        assert all == [] + rest == rest;
      }
    } else {
      var rest := Kept(h, Pairs(h, xs), Above(h, xs, top), partial);
      if partial {
        Regroup(kept, [xs[|xs| - 1]], rest, all);
      } else {
        assert all == [] + rest == rest;
      }
    }
  }

  /** The loop of `append` over the levels of the tree. */
  method CollapseNodes<D>(h: (D, D) -> D, nodes: seq<D>, count: bv64, digest: D, ghost ids: seq<D>)
    returns (kept: seq<D>, top: D)
    requires Counts(count, |ids|) && Unpaired(h, ids) <= nodes && count != 0xFFFFFFFFFFFFFFFF
    ensures kept == Kept(h, ids, digest, false) && top == Apex(h, ids, digest)
  {
    DepthIsBitLength(count);
    var depth := CalculateMaxDepth(count + 1) - 1;
    var index, partial, next := count, false, 0;
    kept, top := [], digest;
    ghost var xs := ids;
    IndexStep(index, |xs|);
    while depth > 0
      invariant depth == SignificantBits(index) && Counts(index, |xs|) && (depth > 0 <==> xs != [])
      invariant next <= |nodes| && Unpaired(h, xs) <= nodes[next..]
      invariant Kept(h, ids, digest, false) == kept + Kept(h, xs, top, partial)
      invariant Apex(h, ids, digest) == Apex(h, xs, top)
    {
      IndexStep(index, |xs|);
      UnpairedStep(h, xs, nodes[next..]);
      KeptStep(h, xs, top, partial, kept);
      if index & 1 == 0 {
        if !partial {
          kept := kept + [top];
        }
        top := h(top, top);
        partial := true;
      } else {
        var left := nodes[next];
        assert nodes[next..][1..] == nodes[next + 1..];
        next := next + 1;
        if partial {
          kept := kept + [left];
        }
        top := h(left, top);
      }
      xs := Pairs(h, xs);
      depth := depth - 1;
      index := index >> 1;
      IndexStep(index, |xs|);
    }
  }

  /** The number of leaves, and the nodes kept for them. */
  ghost predicate Keeps<D>(h: (D, D) -> D, nodes: seq<D>, count: bv64, ids: seq<D>) {
    Counts(count, |ids|) && nodes == Active(h, ids)
  }

  /** From the nodes for some leaves to those for one more, with the root last. */
  method AppendNode<D>(h: (D, D) -> D, nodes: seq<D>, count: bv64, digest: D, ghost ids: seq<D>, ghost longer: seq<D>) returns (updated: seq<D>)
    requires Keeps(h, nodes, count, ids) && count != 0xFFFFFFFFFFFFFFFF && longer == ids + [digest]
    ensures Keeps(h, updated, count + 1, longer)
    ensures updated != [] && updated[|updated| - 1] == Root(h, longer)
  {
    AppendKeepsActive(h, ids, digest);
    ActiveStartsWithUnpaired(h, ids);
    var top;
    updated, top := CollapseNodes(h, nodes, count, digest, ids);
    updated := updated + [top];
    CountsNext(count, |ids|);
  }

  class Tree<D> {
    const hash: (D, D) -> D
    const zero: D
    var nodeCount: bv64
    var activeNodes: seq<D>
    ghost var leaves: seq<D>

    ghost predicate Valid()
      reads this
    {
      Keeps(hash, activeNodes, nodeCount, leaves)
    }

    constructor (hash: (D, D) -> D, zero: D)
      ensures Valid() && leaves == [] && this.hash == hash && this.zero == zero
    {
      this.hash, this.zero := hash, zero;
      nodeCount, activeNodes, leaves := 0, [], [];
    }

    /** Appends one leaf, reading only the kept nodes, and returns the root of all leaves. */
    method Append(digest: D) returns (root: D)
      requires Valid() && nodeCount != 0xFFFFFFFFFFFFFFFF
      modifies this
      ensures Valid() && leaves == old(leaves) + [digest]
      ensures root == Root(hash, leaves)
    {
      ghost var longer := leaves + [digest];
      var updated := AppendNode(hash, activeNodes, nodeCount, digest, leaves, longer);
      activeNodes := updated;
      nodeCount := nodeCount + 1;
      leaves := longer;
      root := activeNodes[|activeNodes| - 1];
    }

    /** The root kept is the one computed from all the leaves at once. */
    method GetRoot() returns (root: D)
      requires Valid()
      ensures root == MerkleRoot(hash, zero, leaves)
    {
      ActiveStartsWithUnpaired(hash, leaves);
      if nodeCount != 0 {
        root := activeNodes[|activeNodes| - 1];
      } else {
        root := zero;
      }
    }
  }
}
