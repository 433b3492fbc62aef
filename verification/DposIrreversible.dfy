/** The last irreversible block: calc_dpos_last_irreversible (libraries/chain/block_header_state.cpp, lines 24-36). */
module DposIrreversible {
  import opened Collections
  import opened Schedule
  import opened Dpos
  import opened DposSafety

  function AtMost(m: map<Name, nat>, x: int): set<Name> {
    set p | p in m && m[p] <= x
  }

  function AtLeast(m: map<Name, nat>, x: int): set<Name> {
    set p | p in m && m[p] >= x
  }

  /** `x` is element `index` of the values in sorted order. */
  predicate IsNth(m: map<Name, nat>, index: nat, x: nat) {
    |AtMost(m, x)| > index && |AtMost(m, x - 1)| <= index
  }

  /** `x` is the element a third of the way up. */
  predicate ThirdUp(m: map<Name, nat>, x: nat)
    requires |m| > 0
  {
    IsNth(m, (|m| - 1) / 3, x)
  }

  lemma {:induction false} NthFromIsNth(m: map<Name, nat>, index: nat, x: nat, bound: nat)
    requires |AtMost(m, bound)| > index && x <= bound && |AtMost(m, x - 1)| <= index
    ensures IsNth(m, index, NthFrom(m, index, x, bound))
    decreases bound - x
  {
    assert CountAtMost(m, x) == |AtMost(m, x)|;
    if x < bound && CountAtMost(m, x) <= index {
      NthFromIsNth(m, index, x + 1, bound);
    }
  }

  /** The computed block number is the one a third of the way up the sorted list, and no other is. */
  lemma LastIrreversibleIsNth(m: map<Name, nat>)
    requires |m| > 0
    ensures IsNth(m, (|m| - 1) / 3, LastIrreversible(m))
    ensures forall y: nat :: ThirdUp(m, y) <==> y == LastIrreversible(m)
  {
    var index, bound := (|m| - 1) / 3, MaxValue(m, m.Keys);
    assert AtMost(m, bound) == m.Keys;
    assert |m.Keys| == |m|;
    assert AtMost(m, -1) == {};
    NthFromIsNth(m, index, 0, bound);
    forall y: nat | ThirdUp(m, y)
      ensures y == LastIrreversible(m)
    {
      NthUnique(m, index, LastIrreversible(m), y);
    }
  }

  lemma NthUnique(m: map<Name, nat>, index: nat, x: nat, y: nat)
    requires IsNth(m, index, x) && IsNth(m, index, y)
    ensures x == y
  {
    if x < y {
      SubsetSize(AtMost(m, x), AtMost(m, y - 1));
    } else if y < x {
      SubsetSize(AtMost(m, y), AtMost(m, x - 1));
    }
  }

  /** It is one of the entries. */
  lemma LastIrreversibleIsEntry(m: map<Name, nat>)
    requires |m| > 0
    ensures exists p :: p in m && m[p] == LastIrreversible(m)
  {
    var x: int := LastIrreversible(m);
    LastIrreversibleIsNth(m);
    var more := AtMost(m, x) - AtMost(m, x - 1);
    assert AtMost(m, x) == AtMost(m, x - 1) + more;
    assert more != {};
    var p :| p in more;
  }

  /** More than two thirds of the producers imply at least the irreversible block. */
  lemma TwoThirdsImplyIt(m: map<Name, nat>)
    requires |m| > 0
    ensures 3 * |AtLeast(m, LastIrreversible(m))| > 2 * |m|
  {
    var x: int := LastIrreversible(m);
    LastIrreversibleIsNth(m);
    assert m.Keys == AtMost(m, x - 1) + AtLeast(m, x);
    assert AtMost(m, x - 1) !! AtLeast(m, x);
    assert |m.Keys| == |m|;
  }

  /** Raising entries never lowers the irreversible block. */
  lemma NthMonotone(m: map<Name, nat>, m': map<Name, nat>)
    requires |m| > 0 && m.Keys == m'.Keys && forall p :: p in m ==> m[p] <= m'[p]
    ensures LastIrreversible(m) <= LastIrreversible(m')
  {
    assert |m| == |m.Keys| == |m'.Keys| == |m'|;
    LastIrreversibleIsNth(m);
    LastIrreversibleIsNth(m');
    var x, x' := LastIrreversible(m), LastIrreversible(m');
    if x' < x {
      SubsetSize(AtMost(m', x'), AtMost(m, x'));
      SubsetSize(AtMost(m, x'), AtMost(m, x - 1));
    }
  }

  // ---------------------------------------------------------------------------------------
  // Along a run
  // ---------------------------------------------------------------------------------------

  /** Nothing implied or irreversible is ahead of what is proposed, and every active producer has an entry. */
  ghost predicate Bounded(st: State) {
    && st.irreversible <= st.proposed
    && (forall p :: p in st.lastImplied ==> st.lastImplied[p] <= st.proposed)
    && (st.blockNum > 1 ==> forall p :: p in st.active ==> p in st.lastImplied)
  }

  lemma LastIrreversibleBound(m: map<Name, nat>, bound: nat)
    requires forall p :: p in m ==> m[p] <= bound
    ensures LastIrreversible(m) <= bound
  {
    if |m| > 0 {
      LastIrreversibleIsNth(m);
      assert |m.Keys| == |m|;
      assert LastIrreversible(m) > bound ==> AtMost(m, LastIrreversible(m) - 1) == m.Keys;
    }
  }

  lemma StepBounded(st: State, h: Header)
    requires Plausible(st) && Step(st, h).Ok? && Bounded(st)
    requires st.proposed <= Step(st, h).value.proposed
    requires st.blockNum == 1 ==> st.pending != [] && st.pendingSince == 0
    ensures Bounded(Step(st, h).value)
  {
    var producer := NewBlock(st, h).producer;
    LastIrreversibleBound(Implied(st, producer), st.proposed);
  }

  /** Over every run, the irreversible block is at most the proposed one, and that at most the head. */
  lemma {:induction false} IrreversibleNeverAhead(g: Name, hs: seq<Header>, ts: seq<Trace>, n: nat)
    requires Run(g, hs, ts) && n <= |hs|
    ensures Bounded(ts[n].st)
    ensures ts[n].st.irreversible <= ts[n].st.proposed <= ts[n].st.blockNum
  {
    ProposedHasVotes(g, hs, ts, n);
    if n > 0 {
      IrreversibleNeverAhead(g, hs, ts, n - 1);
      RunShape(g, hs, ts, n - 1);
      assert NextAt(hs, ts, n - 1);
      StepBounded(ts[n - 1].st, hs[n - 1]);
    }
  }

  /** Block number `b` is none, or has its votes. */
  predicate Voted(hist: seq<Block>, b: nat) {
    b == 0 || HasVotes(hist, b)
  }

  /** What is irreversible and what anybody implies has its votes. */
  ghost predicate AllVoted(t: Trace) {
    Voted(t.hist, t.st.irreversible) && forall p :: p in t.st.lastImplied ==> Voted(t.hist, t.st.lastImplied[p])
  }

  lemma VotedStays(hist: seq<Block>, blk: Block, b: nat)
    requires Voted(hist, b)
    ensures Voted(hist + [blk], b)
  {
    if b != 0 {
      VotesStay(hist, blk, b);
    }
  }

  /** The next irreversible block is an entry or the proposed block. */
  lemma NextIsVoted(t: Trace, producer: Name)
    requires AllVoted(t) && Voted(t.hist, t.st.proposed)
    ensures Voted(t.hist, LastIrreversible(Implied(t.st, producer)))
  {
    var m := Implied(t.st, producer);
    if |m| > 0 {
      LastIrreversibleIsEntry(m);
    }
  }

  lemma StepVoted(t: Trace, h: Header)
    requires Plausible(t.st) && Step(t.st, h).Ok? && AllVoted(t) && Voted(t.hist, t.st.proposed)
    ensures AllVoted(Trace(Step(t.st, h).value, t.hist + [NewBlock(t.st, h)]))
  {
    var blk, st' := NewBlock(t.st, h), Step(t.st, h).value;
    NextIsVoted(t, blk.producer);
    VotedStays(t.hist, blk, st'.irreversible);
    forall p | p in st'.lastImplied
      ensures Voted(t.hist + [blk], st'.lastImplied[p])
    {
      VotedStays(t.hist, blk, st'.lastImplied[p]);
    }
  }

  /** Over every run, an irreversible block has been confirmed by as many blocks as its quorum asks for. */
  lemma {:induction false} IrreversibleHasVotes(g: Name, hs: seq<Header>, ts: seq<Trace>, n: nat)
    requires Run(g, hs, ts) && n <= |hs|
    ensures AllVoted(ts[n])
  {
    if n > 0 {
      IrreversibleHasVotes(g, hs, ts, n - 1);
      ProposedHasVotes(g, hs, ts, n - 1);
      assert NextAt(hs, ts, n - 1);
      StepVoted(ts[n - 1], hs[n - 1]);
    }
  }

  /** Two branches of a common history that keep its active schedule can each make a block of their
      own irreversible, nobody confirming it twice, only if more than a third of the producers confirmed both. */
  lemma ForksTakeAThird(g: Name, hs: seq<Header>, ts: seq<Trace>, hs': seq<Header>, ts': seq<Trace>, m: nat)
    requires Run(g, hs, ts) && Run(g, hs', ts') && m <= |hs| && m <= |hs'| && hs[..m] == hs'[..m]
    requires KeepsActive(ts, m) && KeepsActive(ts', m)
    requires SingleAt(ts[|hs|].hist, ts[|hs|].st.irreversible) && SingleAt(ts'[|hs'|].hist, ts'[|hs'|].st.irreversible)
    requires ts[|hs|].st.irreversible > ts[m].st.blockNum && ts'[|hs'|].st.irreversible > ts[m].st.blockNum
    ensures
      var t, t' := ts[|hs|], ts'[|hs'|];
      3 * |Confirmers(t.hist, t.st.irreversible) * Confirmers(t'.hist, t'.st.irreversible)| > |ts[m].st.active|
  {
    IrreversibleHasVotes(g, hs, ts, |hs|);
    IrreversibleHasVotes(g, hs', ts', |hs'|);
    BranchesTakeAThird(g, hs, ts, hs', ts', m, ts[|hs|].st.irreversible, ts'[|hs'|].st.irreversible);
  }

  // ---------------------------------------------------------------------------------------
  // The guard against confirming twice, along a run
  // ---------------------------------------------------------------------------------------

  /** Nobody's last block is above the head. */
  predicate ProducedBelow(st: State) {
    forall q :: q in st.lastProduced ==> st.lastProduced[q] <= st.blockNum
  }

  lemma StepProducedBelow(st: State, h: Header)
    requires Plausible(st) && Step(st, h).Ok? && ProducedBelow(st) && Step(st, h).value.irreversible <= st.blockNum
    ensures ProducedBelow(Step(st, h).value)
  {
  }

  lemma {:induction false} NothingAboveHead(g: Name, hs: seq<Header>, ts: seq<Trace>, n: nat)
    requires Run(g, hs, ts) && n <= |hs|
    ensures ProducedBelow(ts[n].st)
  {
    if n > 0 {
      NothingAboveHead(g, hs, ts, n - 1);
      IrreversibleNeverAhead(g, hs, ts, n - 1);
      assert NextAt(hs, ts, n - 1);
      LastIrreversibleBound(Implied(ts[n - 1].st, NewBlock(ts[n - 1].st, hs[n - 1]).producer), ts[n - 1].st.proposed);
      StepProducedBelow(ts[n - 1].st, hs[n - 1]);
    }
  }

  /** After every run, a header for a later slot is refused for confirming twice exactly when it is in
      range and reaches back to its producer's last block. */
  lemma RunRefusesExactly(g: Name, hs: seq<Header>, ts: seq<Trace>, n: nat, h: Header)
    requires Run(g, hs, ts) && n <= |hs| < UINT32 - 0x1_0002 && h.slot > ts[n].st.slot && h.confirmed < 0x1_0000
    ensures
      var st := ts[n].st;
      Plausible(st) && (Step(st, h) == Err(DoubleConfirm) <==>
        var p := NewBlock(st, h).producer;
        p in st.lastProduced && h.confirmed <= n + 2 && st.lastProduced[p] >= n + 2 - h.confirmed)
  {
    RunShape(g, hs, ts, n);
    NothingAboveHead(g, hs, ts, n);
    RefusesExactly(ts[n].st, h);
  }

  // ---------------------------------------------------------------------------------------
  // When the irreversible block moves back
  // ---------------------------------------------------------------------------------------

  /** The irreversible block is not above what the table of implied blocks gives. */
  ghost predicate Settled(st: State) {
    st.irreversible <= LastIrreversible(st.lastImplied)
  }

  /** From a settled state the irreversible block never moves back, and it stays settled unless a schedule is promoted. */
  lemma SettledStep(st: State, h: Header)
    requires Plausible(st) && Step(st, h).Ok? && Bounded(st) && Settled(st) && st.blockNum > 1
    ensures st.irreversible <= Step(st, h).value.irreversible
    ensures !Promotes(st, Step(st, h).value.irreversible) ==> Settled(Step(st, h).value)
  {
    var producer, st' := NewBlock(st, h).producer, Step(st, h).value;
    ExpectedIsScheduled(st.active, REPETITIONS, h.slot);
    assert producer in st.lastImplied;
    assert st.lastImplied.Keys != {};
    assert |st.lastImplied| == |st.lastImplied.Keys| > 0;
    var m := Implied(st, producer);
    NthMonotone(st.lastImplied, m);
    assert m == st.lastImplied[producer := st.proposed];
  }

  /** The irreversible block is at least `x` exactly when fewer than a third of the entries are below `x`. */
  lemma ReachesExactly(m: map<Name, nat>, x: nat)
    requires |m| > 0
    ensures x <= LastIrreversible(m) <==> |AtMost(m, x - 1)| <= (|m| - 1) / 3
    ensures x <= LastIrreversible(m) <==> 3 * |AtMost(m, x - 1)| < |m|
  {
    var y: int := LastIrreversible(m);
    LastIrreversibleIsNth(m);
    if x <= y {
      SubsetSize(AtMost(m, x - 1), AtMost(m, y - 1));
    } else {
      SubsetSize(AtMost(m, y), AtMost(m, x - 1));
    }
  }

  /** The producers whose entry is below `x` once the next block's producer is raised to the proposed block. */
  function Lagging(st: State, producer: Name, x: nat): set<Name> {
    set q | q in st.lastImplied && (if q == producer then st.proposed else st.lastImplied[q]) < x
  }

  /** A block moves the irreversible block back if and only if a third or more of the producers lag behind it. */
  lemma MovesBackExactly(st: State, h: Header)
    requires Plausible(st) && Step(st, h).Ok?
    ensures Step(st, h).value.irreversible < st.irreversible <==>
      st.irreversible > 0 && 3 * |Lagging(st, NewBlock(st, h).producer, st.irreversible)| >= |st.lastImplied|
  {
    var m := Implied(st, NewBlock(st, h).producer);
    assert m.Keys == st.lastImplied.Keys;
    assert |m| == |m.Keys| == |st.lastImplied.Keys| == |st.lastImplied|;
    assert AtMost(m, st.irreversible - 1) == Lagging(st, NewBlock(st, h).producer, st.irreversible);
    if |m| > 0 {
      ReachesExactly(m, st.irreversible);
    }
  }

  // ---------------------------------------------------------------------------------------
  // Promotions
  // ---------------------------------------------------------------------------------------

  /** The members of the new schedule whose entry in the rebuilt table is below `lib`. */
  function Behind(known: map<Name, nat>, schedule: seq<Name>, producer: Name, own: nat, lib: nat): set<Name> {
    set q | q in schedule && (if q == producer then own < lib else q in known && known[q] < lib)
  }

  lemma RebuiltReaches(known: map<Name, nat>, schedule: seq<Name>, producer: Name, own: nat, lib: nat)
    requires schedule != []
    ensures lib <= LastIrreversible(Rebuild(known, schedule, producer, own, lib)) <==>
            3 * |Behind(known, schedule, producer, own, lib)| < |Elems(schedule)|
  {
    var m := Rebuild(known, schedule, producer, own, lib);
    assert m.Keys == Elems(schedule);
    assert schedule[0] in m.Keys;
    assert |m| == |m.Keys|;
    assert AtMost(m, lib - 1) == Behind(known, schedule, producer, own, lib);
    ReachesExactly(m, lib);
  }

  /** The block that the next one by `producer` makes irreversible. */
  ghost function NextIrreversible(st: State, producer: Name): nat {
    LastIrreversible(Implied(st, producer))
  }

  /** If the next block promotes the pending schedule, fewer than a third of its members are behind. */
  ghost predicate PromotesReady(st: State, producer: Name) {
    var lib := NextIrreversible(st, producer);
    Promotes(st, lib) ==> 3 * |Behind(st.lastImplied, st.pending, producer, st.proposed, lib)| < |Elems(st.pending)|
  }

  /** A promotion leaves the state settled exactly when fewer than a third of the new members are behind. */
  lemma PromotionSettlesExactly(st: State, h: Header)
    requires Plausible(st) && Step(st, h).Ok? && Promotes(st, NextIrreversible(st, NewBlock(st, h).producer))
    ensures Settled(Step(st, h).value) <==> PromotesReady(st, NewBlock(st, h).producer)
  {
    var p := NewBlock(st, h).producer;
    RebuiltReaches(st.lastImplied, st.pending, p, st.proposed, NextIrreversible(st, p));
  }

  ghost predicate ReadyAt(hs: seq<Header>, ts: seq<Trace>, k: nat)
    requires k < |hs| && |ts| == |hs| + 1
  {
    ts[k].st.active != [] ==> PromotesReady(ts[k].st, NewBlock(ts[k].st, hs[k]).producer)
  }

  /** One block after a settled state, also after genesis. */
  lemma ReadyStep(st: State, h: Header)
    requires Plausible(st) && Step(st, h).Ok? && Bounded(st) && Settled(st)
    requires PromotesReady(st, NewBlock(st, h).producer)
    requires st.blockNum <= 1 ==> st.irreversible == 0 && st.lastImplied == map[]
    ensures st.irreversible <= Step(st, h).value.irreversible && Settled(Step(st, h).value)
  {
    if st.blockNum > 1 {
      SettledStep(st, h);
    } else {
      assert Implied(st, NewBlock(st, h).producer) == map[];
    }
    if Promotes(st, NextIrreversible(st, NewBlock(st, h).producer)) {
      PromotionSettlesExactly(st, h);
    }
  }

  lemma ReadyNext(hs: seq<Header>, ts: seq<Trace>, n: nat)
    requires n < |hs| && |ts| == |hs| + 1 && NextAt(hs, ts, n) && ReadyAt(hs, ts, n)
    requires Bounded(ts[n].st) && Settled(ts[n].st)
    requires ts[n].st.blockNum <= 1 ==> ts[n].st.irreversible == 0 && ts[n].st.lastImplied == map[]
    ensures Settled(ts[n + 1].st) && ts[n].st.irreversible <= ts[n + 1].st.irreversible
  {
    ReadyStep(ts[n].st, hs[n]);
  }

  lemma {:induction false} StaysSettled(g: Name, hs: seq<Header>, ts: seq<Trace>, n: nat)
    requires Run(g, hs, ts) && n <= |hs|
    requires forall k :: 0 <= k < n ==> ReadyAt(hs, ts, k)
    ensures Settled(ts[n].st) && (n > 0 ==> ts[n - 1].st.irreversible <= ts[n].st.irreversible)
  {
    if n > 0 {
      StaysSettled(g, hs, ts, n - 1);
      IrreversibleNeverAhead(g, hs, ts, n - 1);
      RunShape(g, hs, ts, n - 1);
      assert NextAt(hs, ts, n - 1) && ReadyAt(hs, ts, n - 1);
      ReadyNext(hs, ts, n - 1);
    }
  }

  /** Over every run whose promotions are ready, the irreversible block never moves back. */
  lemma {:induction false} NeverMovesBack(g: Name, hs: seq<Header>, ts: seq<Trace>, k: nat, n: nat)
    requires Run(g, hs, ts) && k <= n <= |hs|
    requires forall i :: 0 <= i < n ==> ReadyAt(hs, ts, i)
    ensures ts[k].st.irreversible <= ts[n].st.irreversible
  {
    if k < n {
      StaysSettled(g, hs, ts, n);
      NeverMovesBack(g, hs, ts, k, n - 1);
    }
  }
}
