/**
 * Round-robin production (unittests/producer_schedule_tests.cpp, lines 20-45) and the loops that
 * produce blocks until something is seen (unittests/fork_test_utilities.cpp, lines 11-54).
 */
module Schedule {
  import opened Collections

  type Name = string

  /** The schedule position that produces a slot. */
  function IndexAt(n: nat, reps: nat, slot: nat): (i: nat)
    requires n > 0 && reps > 0
    ensures i < n
  {
    var round := n * reps;
    var i := (slot % round) / reps;
    DivisionBound(slot % round, n, reps);
    i
  }

  function ExpectedProducer(schedule: seq<Name>, reps: nat, slot: nat): Name
    requires schedule != [] && reps > 0
  {
    schedule[IndexAt(|schedule|, reps, slot)]
  }

  lemma DivisionBound(x: nat, n: nat, reps: nat)
    requires reps > 0 && x < n * reps
    ensures x / reps < n
  {
    var d := x / reps;
    assert d * reps <= x;
    assert d >= n ==> d * reps >= n * reps;
  }

  // ---------------------------------------------------------------------------------------
  // Fairness: every window of one round holds every position equally often
  // ---------------------------------------------------------------------------------------

  /** How many of the `len` slots from `s` on fall to position `i`. */
  function Turns(n: nat, reps: nat, i: nat, s: nat, len: nat): nat
    requires n > 0 && reps > 0
    decreases len
  {
    if len == 0 then 0
    else Turns(n, reps, i, s, len - 1) + if IndexAt(n, reps, s + len - 1) == i then 1 else 0
  }

  lemma {:induction false} TurnsCons(n: nat, reps: nat, i: nat, s: nat, len: nat)
    requires n > 0 && reps > 0 && len > 0
    ensures Turns(n, reps, i, s, len) ==
            (if IndexAt(n, reps, s) == i then 1 else 0) + Turns(n, reps, i, s + 1, len - 1)
    decreases len
  {
    if len > 1 {
      TurnsCons(n, reps, i, s, len - 1);
    }
  }

  // Products are kept out of the other proofs: these lemmas say all that is needed of them.

  lemma Product(a: nat, b: nat)
    ensures a * b >= 0 && (a + 1) * b == a * b + b
  {
  }

  lemma ProductGrows(a: nat, b: nat, c: nat)
    requires a <= b
    ensures a * c <= b * c
  {
  }

  lemma ModUnique(x: int, m: int, q: int, r: int)
    requires m > 0 && x == q * m + r && 0 <= r < m
    ensures x / m == q && x % m == r
  {
    var d := x / m - q;
    assert x == (x / m) * m + x % m;
    assert d * m == r - x % m;
    assert d > 0 ==> d * m >= m;
    assert d < 0 ==> d * m <= -m;
  }

  lemma IndexPeriodic(n: nat, reps: nat, slot: nat)
    requires n > 0 && reps > 0
    ensures IndexAt(n, reps, slot + n * reps) == IndexAt(n, reps, slot)
  {
    var m := n * reps;
    ModUnique(slot + m, m, slot / m + 1, slot % m);
  }

  /** In the first round, position `q` has exactly the slots of its own run, which begins at `start`. */
  lemma IndexInRun(n: nat, reps: nat, q: nat, start: nat, r: nat)
    requires n > 0 && q < n && r < reps && start == q * reps
    ensures start + r < n * reps && IndexAt(n, reps, start + r) == q
  {
    Product(q, reps);
    ProductGrows(q + 1, n, reps);
    ModUnique(start + r, n * reps, 0, start + r);
    ModUnique(start + r, reps, q, r);
  }

  /** Producers take turns in the order of the schedule, for `reps` slots each. */
  lemma IndexIsTurn(n: nat, reps: nat, slot: nat)
    requires n > 0 && reps > 0
    ensures IndexAt(n, reps, slot) == slot / reps % n
  {
    var turn, r := slot / reps, slot % reps;
    var round, q := turn / n, turn % n;
    assert slot == turn * reps + r;
    assert turn == round * n + q;
    TurnSlot(n, reps, round, q, r, slot);
  }

  lemma TurnSlot(n: nat, reps: nat, round: nat, q: nat, r: nat, slot: nat)
    requires q < n && r < reps && slot == (round * n + q) * reps + r
    ensures IndexAt(n, reps, slot) == q
  {
    var start := q * reps;
    IndexInRun(n, reps, q, start, r);
    assert (round * n + q) * reps == round * (n * reps) + start;
    ModUnique(slot, n * reps, round, start + r);
    ModUnique(start + r, n * reps, 0, start + r);
  }

  lemma {:induction false} TurnsInRun(n: nat, reps: nat, i: nat, q: nat, start: nat, r: nat)
    requires n > 0 && q < n && r <= reps && reps > 0 && start == q * reps
    ensures Turns(n, reps, i, 0, start + r) == Turns(n, reps, i, 0, start) + if i == q then r else 0
    decreases r
  {
    if r > 0 {
      TurnsInRun(n, reps, i, q, start, r - 1);
      IndexInRun(n, reps, q, start, r - 1);
      TurnsLast(n, reps, i, start + r);
    }
  }

  lemma TurnsLast(n: nat, reps: nat, i: nat, len: nat)
    requires n > 0 && reps > 0 && len > 0
    ensures Turns(n, reps, i, 0, len) == Turns(n, reps, i, 0, len - 1) + if IndexAt(n, reps, len - 1) == i then 1 else 0
  {
  }

  lemma {:induction false} TurnsInFirstRound(n: nat, reps: nat, i: nat, q: nat, end: nat)
    requires n > 0 && q <= n && reps > 0 && end == q * reps
    ensures Turns(n, reps, i, 0, end) == if i < q then reps else 0
    decreases q
  {
    if q > 0 {
      var start := RunBefore(q, reps, end);
      TurnsInFirstRound(n, reps, i, q - 1, start);
      TurnsInRun(n, reps, i, q - 1, start, reps);
    }
  }

  lemma RunBefore(q: nat, reps: nat, end: nat) returns (start: nat)
    requires q > 0 && end == q * reps
    ensures start == (q - 1) * reps && end == start + reps
  {
    Product(q - 1, reps);
    start := (q - 1) * reps;
  }

  /** In any window of one round, aligned or not, each position has exactly `reps` slots. */
  lemma {:induction false} Fairness(n: nat, reps: nat, i: nat, s: nat)
    requires n > 0 && reps > 0 && i < n
    ensures Turns(n, reps, i, s, n * reps) == reps
    decreases s
  {
    var round := n * reps;
    ProductGrows(1, n, reps);
    if s == 0 {
      TurnsInFirstRound(n, reps, i, n, round);
    } else {
      Fairness(n, reps, i, s - 1);
      TurnsCons(n, reps, i, s - 1, round);
      IndexPeriodic(n, reps, s - 1);
    }
  }

  // ---------------------------------------------------------------------------------------
  // How long it takes to see every producer
  // ---------------------------------------------------------------------------------------

  /** The producers of the `k` slots from `s` on. */
  function Heads(schedule: seq<Name>, reps: nat, s: nat, k: nat): set<Name>
    requires schedule != [] && reps > 0
    decreases k
  {
    if k == 0 then {} else Heads(schedule, reps, s, k - 1) + {ExpectedProducer(schedule, reps, s + k - 1)}
  }

  lemma {:induction false} HeadsContain(schedule: seq<Name>, reps: nat, s: nat, k: nat, j: nat)
    requires schedule != [] && reps > 0 && s <= j < s + k
    ensures ExpectedProducer(schedule, reps, j) in Heads(schedule, reps, s, k)
    decreases k
  {
    if j < s + k - 1 {
      HeadsContain(schedule, reps, s, k - 1, j);
    }
  }

  lemma {:induction false} HeadsGrow(schedule: seq<Name>, reps: nat, s: nat, k: nat, k': nat)
    requires schedule != [] && reps > 0 && k <= k'
    ensures Heads(schedule, reps, s, k) <= Heads(schedule, reps, s, k')
    decreases k'
  {
    if k < k' {
      HeadsGrow(schedule, reps, s, k, k' - 1);
    }
  }

  /** The slot that is `r` slots into run `q` of round `a`. */
  lemma RunSlot(n: nat, reps: nat, a: nat, q: nat, round: nat, start: nat, r: nat)
    requires n > 0 && q < n && r < reps && round == a * (n * reps) && start == q * reps
    ensures IndexAt(n, reps, round + start + r) == q
  {
    IndexInRun(n, reps, q, start, r);
    ModUnique(round + (start + r), n * reps, a, start + r);
    ModUnique(start + r, reps, q, r);
  }

  /** Every slot is a place in a run in a round. */
  lemma SlotPlace(n: nat, reps: nat, s: nat) returns (a: nat, q: nat, r: nat)
    requires n > 0 && reps > 0
    ensures s == a * (n * reps) + q * reps + r && q < n && r < reps && IndexAt(n, reps, s) == q
  {
    var m := n * reps;
    a, q, r := s / m, (s % m) / reps, (s % m) % reps;
    DivisionBound(s % m, n, reps);
  }

  /** From a place in run `q` to the start of a later run of the same round. */
  lemma LaterRun(n: nat, reps: nat, q: nat, r: nat, i: nat)
    requires q < i < n && r < reps
    ensures q * reps + r <= i * reps <= (n - 1) * reps
  {
    Product(q, reps);
    ProductGrows(q + 1, i, reps);
    ProductGrows(i, n - 1, reps);
  }

  /** From a place in run `q` to the start of an earlier run of the next round. */
  lemma EarlierRun(n: nat, reps: nat, q: nat, r: nat, i: nat)
    requires i < q < n && r < reps
    ensures q * reps + r <= n * reps + i * reps <= q * reps + (n - 1) * reps
  {
    Product(i, reps);
    Product(q, reps);
    Product(n - 1, reps);
    ProductGrows(i + 1, q, reps);
    ProductGrows(q + 1, n, reps);
  }

  lemma TurnLater(n: nat, reps: nat, i: nat, s: nat, a: nat, q: nat, r: nat) returns (j: nat)
    requires s == a * (n * reps) + q * reps + r && q < i < n && r < reps
    ensures s <= j <= s + (n - 1) * reps && IndexAt(n, reps, j) == i
  {
    var round, start := a * (n * reps), i * reps;
    Product(q, reps);
    RunSlot(n, reps, a, i, round, start, 0);
    LaterRun(n, reps, q, r, i);
    j := round + start;
  }

  lemma TurnEarlier(n: nat, reps: nat, i: nat, s: nat, a: nat, q: nat, r: nat) returns (j: nat)
    requires s == a * (n * reps) + q * reps + r && i < q < n && r < reps
    ensures s <= j <= s + (n - 1) * reps && IndexAt(n, reps, j) == i
  {
    var round, start := (a + 1) * (n * reps), i * reps;
    Product(a, n * reps);
    RunSlot(n, reps, a + 1, i, round, start, 0);
    EarlierRun(n, reps, q, r, i);
    j := round + start;
  }

  /** Within (n-1) runs from any slot on, every position comes up. */
  lemma NextTurn(n: nat, reps: nat, i: nat, s: nat) returns (j: nat)
    requires n > 0 && reps > 0 && i < n
    ensures s <= j <= s + (n - 1) * reps && IndexAt(n, reps, j) == i
  {
    var a, q, r := SlotPlace(n, reps, s);
    if q == i {
      j := s;
      Product(n - 1, reps);
    } else if q < i {
      j := TurnLater(n, reps, i, s, a, q, r);
    } else {
      j := TurnEarlier(n, reps, i, s, a, q, r);
    }
  }

  lemma AllSeen(schedule: seq<Name>, reps: nat, s: nat, k: nat)
    requires schedule != [] && reps > 0 && k > (|schedule| - 1) * reps
    ensures forall p :: p in schedule ==> p in Heads(schedule, reps, s, k)
  {
    forall p | p in schedule ensures p in Heads(schedule, reps, s, k) {
      var i :| 0 <= i < |schedule| && schedule[i] == p;
      var j := NextTurn(|schedule|, reps, i, s);
      HeadsContain(schedule, reps, s, k, j);
    }
  }

  /** The slots before the last run are not the last position's. */
  lemma NotYetLast(n: nat, reps: nat, slot: nat)
    requires n > 1 && reps > 0 && slot < (n - 1) * reps
    ensures IndexAt(n, reps, slot) < n - 1
  {
    Product(n - 1, reps);
    ModUnique(slot, n * reps, 0, slot);
    DivisionBound(slot, n - 1, reps);
  }

  lemma {:induction false} LastUnseen(schedule: seq<Name>, reps: nat, k: nat)
    requires NoDup(schedule) && |schedule| > 1 && reps > 0 && k <= (|schedule| - 1) * reps
    ensures schedule[|schedule| - 1] !in Heads(schedule, reps, 0, k)
    decreases k
  {
    if k > 0 {
      LastUnseen(schedule, reps, k - 1);
      NotYetLast(|schedule|, reps, k - 1);
    }
  }

  /** The tester's chain: its head slot moves by one with every block. */
  class Chain {
    const schedule: seq<Name>
    const reps: nat
    var slot: nat

    ghost predicate Valid() {
      schedule != [] && reps > 0
    }

    constructor (schedule: seq<Name>, reps: nat, slot: nat)
      requires schedule != [] && reps > 0
      ensures Valid() && this.schedule == schedule && this.reps == reps && this.slot == slot
    {
      this.schedule, this.reps, this.slot := schedule, reps, slot;
    }

    function HeadProducer(): Name
      requires Valid()
      reads this
    {
      ExpectedProducer(schedule, reps, slot)
    }

    method ProduceBlock()
      modifies this
      ensures slot == old(slot) + 1
    {
      slot := slot + 1;
    }

    /**
     * Produces until a block of every expected producer has been the head: it stops at the first
     * such block, and gives up only when the limit does not reach one.
     */
    method ProduceUntilBlocksFrom(expected: set<Name>, limit: nat) returns (seen: bool)
      requires Valid()
      modifies this
      ensures old(slot) <= slot <= old(slot) + limit
      ensures seen <==> expected <= Heads(schedule, reps, old(slot), limit + 1)
      ensures seen ==> expected <= Heads(schedule, reps, old(slot), slot - old(slot) + 1)
      ensures forall k :: 0 < k <= slot - old(slot) ==> !(expected <= Heads(schedule, reps, old(slot), k))
      ensures limit >= (|schedule| - 1) * reps && (forall p :: p in expected ==> p in schedule) ==> seen
    {
      if limit >= (|schedule| - 1) * reps {
        AllSeen(schedule, reps, slot, limit + 1);
      }
      var remaining := expected;
      var produced := 0;
      while produced < limit
        invariant produced <= limit && slot == old(slot) + produced
        invariant remaining == expected - Heads(schedule, reps, old(slot), produced)
        invariant forall k :: 0 < k <= produced ==> !(expected <= Heads(schedule, reps, old(slot), k))
      {
        remaining := remaining - {HeadProducer()};
        HeadsGrow(schedule, reps, old(slot), produced + 1, limit + 1);
        if remaining == {} {
          return true;
        }
        ProduceBlock();
        produced := produced + 1;
      }
      remaining := remaining - {HeadProducer()};
      seen := remaining == {};
    }
  }

  /** One block less is not always enough: from the start of a round the last producer is missed. */
  lemma BoundIsTight(schedule: seq<Name>, reps: nat)
    requires NoDup(schedule) && |schedule| > 1 && reps > 0
    ensures 0 < (|schedule| - 1) * reps
    ensures var limit := (|schedule| - 1) * reps - 1;
      !((set p | p in schedule) <= Heads(schedule, reps, 0, limit + 1))
  {
    var k := (|schedule| - 1) * reps;
    LastUnseen(schedule, reps, k);
    assert schedule[|schedule| - 1] in (set p | p in schedule);
  }

  /** The block number at which the next round starts: the least multiple of the round above the head. */
  method NextRoundFirstBlock(head: nat, schedule: seq<Name>, reps: nat) returns (res: nat)
    requires schedule != [] && reps > 0
    ensures head < res <= head + |schedule| * reps && res % (|schedule| * reps) == 0
    ensures forall b :: head < b < res ==> b % (|schedule| * reps) != 0
    ensures ExpectedProducer(schedule, reps, res) == schedule[0]
  {
    var round := |schedule| * reps;
    assert round > 0;
    ghost var target := (head / round + 1) * round;
    assert head < target <= head + round;
    ModUnique(target, round, head / round + 1, 0);
    res := head + 1;
    while res % round != 0
      invariant head < res <= target
      invariant forall b :: head < b < res ==> b % round != 0
      decreases target - res
    {
      res := res + 1;
    }
    assert 0 / reps == 0;
  }

  // ---------------------------------------------------------------------------------------
  // Copying blocks from one node to another
  // ---------------------------------------------------------------------------------------

  /** A node's chain of blocks; block number k is blocks[k - 1]. */
  class Node<Block> {
    var blocks: seq<Block>

    constructor (blocks: seq<Block>)
      ensures this.blocks == blocks
    {
      this.blocks := blocks;
    }

    method PushBlock(b: Block)
      modifies this
      ensures blocks == old(blocks) + [b]
    {
      blocks := blocks + [b];
    }
  }

  function Min(a: nat, b: nat): nat { if a < b then a else b }

  /** Copies the missing blocks, each once and in order, up to the limit. */
  method PushBlocks<Block>(from: Node<Block>, to: Node<Block>, limit: nat)
    modifies to
    ensures from.blocks == old(from.blocks)
    ensures var goal := Min(|from.blocks|, limit);
      to.blocks == if |old(to.blocks)| < goal then old(to.blocks) + from.blocks[|old(to.blocks)|..goal] else old(to.blocks)
    ensures old(to.blocks) <= from.blocks ==> to.blocks <= from.blocks
  {
    while |to.blocks| < Min(|from.blocks|, limit)
      invariant from.blocks == old(from.blocks)
      invariant |old(to.blocks)| <= |to.blocks|
      invariant to.blocks == old(to.blocks) ||
        (|to.blocks| <= Min(|from.blocks|, limit)
         && to.blocks == old(to.blocks) + from.blocks[|old(to.blocks)|..|to.blocks|])
      decreases Min(|from.blocks|, limit) - |to.blocks|
    {
      ghost var a, k := |old(to.blocks)|, |to.blocks|;
      assert from.blocks[a..k] + [from.blocks[k]] == from.blocks[a..k + 1];
      assert to.blocks == old(to.blocks) + from.blocks[a..k];
      to.PushBlock(from.blocks[|to.blocks|]);
    }
  }
}
