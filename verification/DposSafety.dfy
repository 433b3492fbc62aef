/** What every run of the header state machine keeps: single confirmation, quorums, and fork safety. */
module DposSafety {
  import opened Collections
  import opened Schedule
  import opened Dpos

  /** A produced block as the other producers see it: who, how far back it confirms, and its own quorum. */
  datatype Block = Block(producer: Name, confirmed: nat, quorum: nat)

  /** The state after some blocks; block number k + 2 is hist[k], block 1 being the genesis block. */
  datatype Trace = Trace(st: State, hist: seq<Block>)

  ghost function NewBlock(st: State, h: Header): Block
    requires st.active != []
  {
    Block(ExpectedProducer(st.active, REPETITIONS, h.slot), h.confirmed, Required(|st.active|))
  }

  /** The header is accepted and takes `t` to `t'`. */
  ghost predicate Next(t: Trace, h: Header, t': Trace) {
    && Plausible(t.st) && Step(t.st, h).Ok?
    && t' == Trace(Step(t.st, h).value, t.hist + [NewBlock(t.st, h)])
  }

  ghost predicate NextAt(hs: seq<Header>, ts: seq<Trace>, k: nat)
    requires k < |hs| && |ts| == |hs| + 1
  {
    Next(ts[k], hs[k], ts[k + 1])
  }

  /** A run from genesis: every header is accepted, and `ts` lists the states before and after each. */
  ghost predicate Run(g: Name, hs: seq<Header>, ts: seq<Trace>) {
    && |ts| == |hs| + 1
    && ts[0] == Trace(Genesis(g), [])
    && forall k :: 0 <= k < |hs| ==> NextAt(hs, ts, k)
  }

  lemma {:induction false} RunShape(g: Name, hs: seq<Header>, ts: seq<Trace>, n: nat)
    requires Run(g, hs, ts) && n <= |hs|
    ensures Plausible(ts[n].st) && |ts[n].hist| == n && ts[n].st.blockNum == n + 1
  {
    if n > 0 {
      RunShape(g, hs, ts, n - 1);
      assert NextAt(hs, ts, n - 1);
    }
  }

  /** The headers determine the run. */
  lemma {:induction false} RunsAgree(g: Name, hs: seq<Header>, ts: seq<Trace>, hs': seq<Header>, ts': seq<Trace>, n: nat)
    requires Run(g, hs, ts) && Run(g, hs', ts') && n <= |hs| && n <= |hs'|
    requires forall k :: 0 <= k < n ==> hs[k] == hs'[k]
    ensures ts[n] == ts'[n]
  {
    if n > 0 {
      RunsAgree(g, hs, ts, hs', ts', n - 1);
      assert NextAt(hs, ts, n - 1) && NextAt(hs', ts', n - 1);
    }
  }

  /** Block number `k + 2` confirms block number `b`. */
  predicate Covers(hist: seq<Block>, k: nat, b: int)
    requires k < |hist|
  {
    k + 2 - hist[k].confirmed <= b <= k + 2
  }

  /** Block number `k + 2` does not claim to confirm more blocks than there are, or it is its producer's first. */
  predicate HonestAt(hist: seq<Block>, k: nat)
    requires k < |hist|
  {
    hist[k].confirmed <= k + 2 || forall j :: 0 <= j < k ==> hist[j].producer != hist[k].producer
  }

  predicate Honest(hist: seq<Block>) {
    forall k :: 0 <= k < |hist| ==> HonestAt(hist, k)
  }

  lemma HonestBefore(hist: seq<Block>, blk: Block)
    ensures Honest(hist + [blk]) <==> Honest(hist) && HonestAt(hist + [blk], |hist|)
  {
    forall k | 0 <= k < |hist|
      ensures HonestAt(hist + [blk], k) <==> HonestAt(hist, k)
    {
      assert forall j :: 0 <= j <= k ==> (hist + [blk])[j] == hist[j];
    }
  }

  /** The blocks that confirm block number `b`. */
  function Votes(hist: seq<Block>, b: int): set<nat> {
    set k: nat | k < |hist| && Covers(hist, k, b)
  }

  /** The producers with a block that confirms block number `b`. */
  function Confirmers(hist: seq<Block>, b: int): set<Name> {
    set k | 0 <= k < |hist| && Covers(hist, k, b) :: hist[k].producer
  }

  // ---------------------------------------------------------------------------------------
  // Nobody confirms a block twice
  // ---------------------------------------------------------------------------------------

  /** The tables still know about the block, or its producer is out and cannot return with a lower mark. */
  predicate Remembered(t: Trace, k: nat)
    requires k < |t.hist|
  {
    var p, n := t.hist[k].producer, k + 2;
    if p in t.st.lastProduced then t.st.lastProduced[p] >= n
    else p !in t.st.active && (t.st.pending != [] ==> n <= t.st.pendingSince)
  }

  ghost predicate AllRemembered(t: Trace) {
    forall k :: 0 <= k < |t.hist| ==> Remembered(t, k)
  }

  lemma ExpectedIsScheduled(schedule: seq<Name>, reps: nat, slot: nat)
    requires schedule != [] && reps > 0
    ensures ExpectedProducer(schedule, reps, slot) in schedule
  {
  }

  lemma RememberedStep(t: Trace, h: Header)
    requires Plausible(t.st) && t.st.blockNum == |t.hist| + 1 && AllRemembered(t)
    requires Step(t.st, h).Ok?
    ensures AllRemembered(Trace(Step(t.st, h).value, t.hist + [NewBlock(t.st, h)]))
  {
    var t' := Trace(Step(t.st, h).value, t.hist + [NewBlock(t.st, h)]);
    ExpectedIsScheduled(t.st.active, REPETITIONS, h.slot);
    forall k | 0 <= k < |t'.hist| ensures Remembered(t', k) {
      if k < |t.hist| {
        assert t'.hist[k] == t.hist[k];
        assert Remembered(t, k);
      }
    }
  }

  /** Short of wrap-around, the guard compares the numbers themselves. */
  lemma GuardPassed(last: nat, n: nat, confirmed: nat)
    requires confirmed <= n < UINT32 && last < Subtract32(n, confirmed)
    ensures last < n - confirmed
  {
  }

  lemma ConfirmsNewerBy(t: Trace, h: Header, p: Name, k: nat)
    requires Plausible(t.st) && StepBy(t.st, h, p).Ok? && p in t.st.active && h.confirmed <= t.st.blockNum + 1 < UINT32
    requires k < |t.hist| && t.hist[k].producer == p && Remembered(t, k)
    ensures k + 2 < t.st.blockNum + 1 - h.confirmed
  {
    GuardPassed(t.st.lastProduced[p], t.st.blockNum + 1, h.confirmed);
  }

  /** A producer's new block starts confirming after that producer's earlier blocks. */
  lemma ConfirmsOnlyNewer(t: Trace, h: Header, k: nat)
    requires Plausible(t.st) && t.st.blockNum == |t.hist| + 1 && AllRemembered(t)
    requires Step(t.st, h).Ok? && h.confirmed <= t.st.blockNum + 1 < UINT32
    requires k < |t.hist| && t.hist[k].producer == NewBlock(t.st, h).producer
    ensures k + 2 < t.st.blockNum + 1 - h.confirmed
  {
    ExpectedIsScheduled(t.st.active, REPETITIONS, h.slot);
    assert Remembered(t, k);
    ConfirmsNewerBy(t, h, NewBlock(t.st, h).producer, k);
  }

  /** Some block number is confirmed by both blocks. */
  ghost predicate Meet(hist: seq<Block>, i: nat, j: nat)
    requires i < |hist| && j < |hist|
  {
    exists b :: Covers(hist, i, b) && Covers(hist, j, b)
  }

  /** No producer confirms a block with two blocks. */
  ghost predicate SingleConfirm(hist: seq<Block>) {
    forall i, j :: 0 <= i < j < |hist| && hist[i].producer == hist[j].producer ==> !Meet(hist, i, j)
  }

  /** No producer confirms block number `b` with two blocks. */
  predicate SingleAt(hist: seq<Block>, b: int) {
    forall i, j :: 0 <= i < j < |hist| && hist[i].producer == hist[j].producer ==> !(Covers(hist, i, b) && Covers(hist, j, b))
  }

  /** What an accepted header confirms meets an earlier range of its producer exactly when it claims
      to confirm more blocks than there are. */
  lemma MeetsExactly(t: Trace, h: Header, k: nat)
    requires Plausible(t.st) && t.st.blockNum == |t.hist| + 1 < UINT32 - 1 && AllRemembered(t) && Step(t.st, h).Ok?
    requires k < |t.hist| && t.hist[k].producer == NewBlock(t.st, h).producer
    ensures Meet(t.hist + [NewBlock(t.st, h)], k, |t.hist|) <==> h.confirmed > t.st.blockNum + 1
  {
    var hist := t.hist + [NewBlock(t.st, h)];
    assert hist[k] == t.hist[k];
    if h.confirmed <= t.st.blockNum + 1 {
      ConfirmsOnlyNewer(t, h, k);
    } else {
      assert Covers(hist, k, k + 2) && Covers(hist, |t.hist|, k + 2);
    }
  }

  lemma SingleConfirmBefore(hist: seq<Block>, blk: Block)
    ensures SingleConfirm(hist + [blk]) <==>
      SingleConfirm(hist) && forall k :: 0 <= k < |hist| && hist[k].producer == blk.producer ==> !Meet(hist + [blk], k, |hist|)
  {
    var longer := hist + [blk];
    assert forall k :: 0 <= k < |hist| ==> longer[k] == hist[k];
    forall i, j | 0 <= i < j < |hist|
      ensures Meet(longer, i, j) <==> Meet(hist, i, j)
    {
      assert forall b :: Covers(longer, i, b) == Covers(hist, i, b) && Covers(longer, j, b) == Covers(hist, j, b);
    }
    if SingleConfirm(longer) {
      forall i, j | 0 <= i < j < |hist| && hist[i].producer == hist[j].producer
        ensures !Meet(hist, i, j)
      {
        assert !Meet(longer, i, j);
      }
    }
  }

  /** What one more block changes. */
  lemma ConfirmsTwiceStep(t: Trace, h: Header)
    requires Plausible(t.st) && t.st.blockNum == |t.hist| + 1 < UINT32 - 1 && AllRemembered(t) && Step(t.st, h).Ok?
    requires SingleConfirm(t.hist) <==> Honest(t.hist)
    ensures var hist := t.hist + [NewBlock(t.st, h)]; SingleConfirm(hist) <==> Honest(hist)
  {
    var blk := NewBlock(t.st, h);
    var hist := t.hist + [blk];
    SingleConfirmBefore(t.hist, blk);
    HonestBefore(t.hist, blk);
    forall k | 0 <= k < |t.hist| && t.hist[k].producer == blk.producer
      ensures Meet(hist, k, |t.hist|) <==> h.confirmed > t.st.blockNum + 1
    {
      MeetsExactly(t, h, k);
    }
    assert forall k :: 0 <= k < |t.hist| ==> hist[k] == t.hist[k];
  }

  /** Over every run: nobody confirms a block twice if and only if nobody but a newcomer claims to
      confirm more blocks than there are. */
  lemma {:induction false} NobodyConfirmsTwice(g: Name, hs: seq<Header>, ts: seq<Trace>, n: nat)
    requires Run(g, hs, ts) && n <= |hs| && n + 2 < UINT32
    ensures AllRemembered(ts[n])
    ensures SingleConfirm(ts[n].hist) <==> Honest(ts[n].hist)
  {
    if n > 0 {
      NobodyConfirmsTwice(g, hs, ts, n - 1);
      RunShape(g, hs, ts, n - 1);
      assert NextAt(hs, ts, n - 1);
      RememberedStep(ts[n - 1], hs[n - 1]);
      ConfirmsTwiceStep(ts[n - 1], hs[n - 1]);
    }
  }

  // ---------------------------------------------------------------------------------------
  // The counters count confirming blocks
  // ---------------------------------------------------------------------------------------

  /** The block number that counter `i` of `size` belongs to when the head is `n`. */
  function NumberOf(n: int, size: nat, i: nat): int {
    n - (size - 1 - i)
  }

  /** Counter value plus confirming blocks make the block's quorum. */
  predicate Counted(hist: seq<Block>, b: int, count: nat) {
    count >= 1 && 2 <= b < |hist| + 2 && count + |Votes(hist, b)| == hist[b - 2].quorum
  }

  predicate AllCounted(hist: seq<Block>, cc: seq<nat>) {
    forall i :: 0 <= i < |cc| ==> Counted(hist, NumberOf(|hist| + 1, |cc|, i), cc[i])
  }

  predicate Positive(cc: seq<nat>) {
    forall j :: 0 <= j < |cc| ==> cc[j] >= 1
  }

  /** What the confirmation loop does to counter `j`: how many are dropped, and what the rest become. */
  lemma {:induction false} ConfirmEffect(cc: seq<nat>, i: nat, k: nat, j: nat)
    requires i <= |cc| && Positive(cc) && j < |cc|
    ensures var (r, z) := Confirm(cc, i, k);
      var d := if z.Some? then z.value + 1 else 0;
      && |r| == |cc| - d
      && (z.Some? ==> i - k <= z.value < i && cc[z.value] == 1)
      && (j >= d ==> r[j - d] >= 1 && r[j - d] == if i - k <= j < i then cc[j] - 1 else cc[j])
    decreases i
  {
    if i > 0 && k > 0 && Decrement8(cc[i - 1]) != 0 {
      ConfirmEffect(cc[i - 1 := Decrement8(cc[i - 1])], i - 1, k - 1, j);
    }
  }

  /** Counter `i` of the rest `r`, behind `d` dropped ones: one less if it is among the newest `k`. */
  predicate TookAt(cc: seq<nat>, k: nat, r: seq<nat>, d: nat, i: nat)
    requires i < |r| && i + d < |cc|
  {
    r[i] >= 1 && cc[i + d] == r[i] + if |cc| - k <= i + d then 1 else 0
  }

  /** `r` is `cc` without its first `d` counters and with the newest `k` decremented; the last dropped one was due. */
  predicate Took(cc: seq<nat>, k: nat, r: seq<nat>, d: nat) {
    && d <= |cc| && |r| == |cc| - d
    && (d > 0 ==> |cc| - k <= d - 1 && cc[d - 1] == 1)
    && forall i :: 0 <= i < |r| ==> TookAt(cc, k, r, d, i)
  }

  function Dropped(z: Option<nat>): nat {
    if z.Some? then z.value + 1 else 0
  }

  lemma ConfirmTakes(cc: seq<nat>, k: nat)
    requires Positive(cc) && cc != []
    ensures Took(cc, k, Confirm(cc, |cc|, k).0, Dropped(Confirm(cc, |cc|, k).1))
  {
    var r, d := Confirm(cc, |cc|, k).0, Dropped(Confirm(cc, |cc|, k).1);
    ConfirmEffect(cc, |cc|, k, |cc| - 1);
    forall i | 0 <= i < |r|
      ensures TookAt(cc, k, r, d, i)
    {
      ConfirmEffect(cc, |cc|, k, i + d);
    }
  }

  /** The new block is one more vote for each block it covers. */
  lemma VotesNext(hist: seq<Block>, blk: Block, b: int)
    ensures Votes(hist + [blk], b) ==
            Votes(hist, b) + if |hist| + 2 - blk.confirmed <= b <= |hist| + 2 then {|hist|} else {}
  {
    forall k: nat | k < |hist|
      ensures Covers(hist + [blk], k, b) == Covers(hist, k, b)
    {
      assert (hist + [blk])[k] == hist[k];
    }
  }

  lemma NoVotesAhead(hist: seq<Block>, b: int)
    requires b >= |hist| + 2
    ensures Votes(hist, b) == {}
  {
  }

  /** Before the new block's confirmations: every counter, the new one included, stands for its quorum. */
  lemma GrownCounts(hist: seq<Block>, cc: seq<nat>, blk: Block, i: nat)
    requires AllCounted(hist, cc) && blk.quorum >= 1 && i < |Grow(cc, blk.quorum)|
    ensures var grown := Grow(cc, blk.quorum);
      Pending(hist, blk, NumberOf(|hist| + 2, |grown|, i), grown[i])
  {
    var grown := Grow(cc, blk.quorum);
    var shift := if |cc| < MAX_TRACKED then 0 else 1;
    if i == |grown| - 1 {
      NoVotesAhead(hist, |hist| + 2);
    } else {
      assert grown[i] == cc[i + shift];
      assert Counted(hist, NumberOf(|hist| + 1, |cc|, i + shift), cc[i + shift]);
    }
  }

  /** Before the new block's confirmations are counted, the counter stands for what is missing. */
  predicate Pending(hist: seq<Block>, blk: Block, b: int, count: nat) {
    count >= 1 && 2 <= b <= |hist| + 2 && count + |Votes(hist, b)| == (hist + [blk])[b - 2].quorum
  }

  /** The loop takes one off exactly the counters whose block gains a vote. */
  lemma CountedAfter(hist: seq<Block>, blk: Block, b: int, count: nat, left: nat)
    requires Pending(hist, blk, b, count)
    requires left == count - if |hist| + 2 - blk.confirmed <= b then 1 else 0
    ensures left >= 1 ==> Counted(hist + [blk], b, left)
    ensures left == 0 ==> HasVotes(hist + [blk], b)
  {
    VotesNext(hist, blk, b);
  }

  ghost predicate AllPending(hist: seq<Block>, blk: Block, grown: seq<nat>) {
    forall i :: 0 <= i < |grown| ==> Pending(hist, blk, NumberOf(|hist| + 2, |grown|, i), grown[i])
  }

  lemma ConfirmCounts(hist: seq<Block>, grown: seq<nat>, blk: Block, r: seq<nat>, d: nat)
    requires AllPending(hist, blk, grown)
    requires Took(grown, blk.confirmed + 1, r, d)
    ensures AllCounted(hist + [blk], r)
    ensures d > 0 ==> HasVotes(hist + [blk], NumberOf(|hist| + 2, |grown|, d - 1))
  {
    forall i | 0 <= i < |r| ensures Counted(hist + [blk], NumberOf(|hist + [blk]| + 1, |r|, i), r[i]) {
      var b := NumberOf(|hist| + 2, |grown|, i + d);
      assert TookAt(grown, blk.confirmed + 1, r, d, i);
      assert Pending(hist, blk, b, grown[i + d]);
      CountedAfter(hist, blk, b, grown[i + d], r[i]);
    }
    if d > 0 {
      var b := NumberOf(|hist| + 2, |grown|, d - 1);
      assert Pending(hist, blk, b, grown[d - 1]);
      CountedAfter(hist, blk, b, grown[d - 1], 0);
    }
  }

  /** As many blocks confirm the block as its quorum asks for. */
  predicate HasVotes(hist: seq<Block>, b: int) {
    2 <= b < |hist| + 2 && |Votes(hist, b)| >= hist[b - 2].quorum
  }

  lemma VotesStay(hist: seq<Block>, blk: Block, b: int)
    requires HasVotes(hist, b)
    ensures HasVotes(hist + [blk], b)
  {
    VotesNext(hist, blk, b);
    SubsetSize(Votes(hist, b), Votes(hist + [blk], b));
  }

  /** The counters are exact, and the proposed block lies below every counted one and has its votes. */
  ghost predicate QuorumInv(t: Trace) {
    && AllCounted(t.hist, t.st.confirmCount)
    && t.st.proposed + |t.st.confirmCount| <= t.st.blockNum
    && (t.st.proposed != 0 ==> HasVotes(t.hist, t.st.proposed))
  }

  /** The part of a step that deals with confirmations. */
  lemma StepConfirms(st: State, h: Header)
    requires Plausible(st) && Step(st, h).Ok?
    ensures var grown, st' := Grow(st.confirmCount, Required(|st.active|)), Step(st, h).value;
      var d := Dropped(Confirm(grown, |grown|, h.confirmed + 1).1);
      && st'.blockNum == st.blockNum + 1
      && st'.confirmCount == Confirm(grown, |grown|, h.confirmed + 1).0
      && st'.proposed == if d > 0 then NumberOf(st.blockNum + 1, |grown|, d - 1) else st.proposed
  {
  }

  lemma GrownPending(hist: seq<Block>, cc: seq<nat>, blk: Block)
    requires AllCounted(hist, cc) && blk.quorum >= 1
    ensures AllPending(hist, blk, Grow(cc, blk.quorum)) && Positive(Grow(cc, blk.quorum))
  {
    var grown := Grow(cc, blk.quorum);
    forall i | 0 <= i < |grown| ensures Pending(hist, blk, NumberOf(|hist| + 2, |grown|, i), grown[i]) {
      GrownCounts(hist, cc, blk, i);
    }
  }

  /** The counters after the block, and the block they make due if there is one. */
  lemma CountersAfter(hist: seq<Block>, cc: seq<nat>, blk: Block)
    requires AllCounted(hist, cc) && blk.quorum >= 1
    ensures var grown := Grow(cc, blk.quorum);
      var r := Confirm(grown, |grown|, blk.confirmed + 1).0;
      var d := Dropped(Confirm(grown, |grown|, blk.confirmed + 1).1);
      && AllCounted(hist + [blk], r) && |r| == |grown| - d && |grown| <= |cc| + 1
      && (d > 0 ==> HasVotes(hist + [blk], NumberOf(|hist| + 2, |grown|, d - 1)))
  {
    var grown := Grow(cc, blk.quorum);
    GrownPending(hist, cc, blk);
    ConfirmTakes(grown, blk.confirmed + 1);
    var r := Confirm(grown, |grown|, blk.confirmed + 1).0;
    var d := Dropped(Confirm(grown, |grown|, blk.confirmed + 1).1);
    ConfirmCounts(hist, grown, blk, r, d);
  }

  lemma QuorumStep(t: Trace, h: Header)
    requires Plausible(t.st) && t.st.blockNum == |t.hist| + 1 && QuorumInv(t)
    requires Step(t.st, h).Ok?
    ensures QuorumInv(Trace(Step(t.st, h).value, t.hist + [NewBlock(t.st, h)]))
    ensures t.st.proposed <= Step(t.st, h).value.proposed
  {
    StepConfirms(t.st, h);
    CountersAfter(t.hist, t.st.confirmCount, NewBlock(t.st, h));
    if t.st.proposed != 0 {
      VotesStay(t.hist, NewBlock(t.st, h), t.st.proposed);
    }
  }

  /**
   * Over every run, a block proposed as irreversible has been confirmed by as many blocks as two
   * thirds of its schedule plus one, and the proposed block never moves back.
   */
  lemma {:induction false} ProposedHasVotes(g: Name, hs: seq<Header>, ts: seq<Trace>, n: nat)
    requires Run(g, hs, ts) && n <= |hs|
    ensures QuorumInv(ts[n])
    ensures n > 0 ==> ts[n - 1].st.proposed <= ts[n].st.proposed
  {
    if n > 0 {
      ProposedHasVotes(g, hs, ts, n - 1);
      RunShape(g, hs, ts, n - 1);
      assert NextAt(hs, ts, n - 1);
      QuorumStep(ts[n - 1], hs[n - 1]);
    }
  }

  // ---------------------------------------------------------------------------------------
  // No other block has its votes
  // ---------------------------------------------------------------------------------------

  /** More than two thirds, and no more than needed. */
  lemma RequiredExactly(n: nat, k: nat)
    ensures k >= Required(n) <==> 3 * k > 2 * n
  {
  }

  /** The counters are for all blocks above the proposed one, the genesis block excepted, or for the last 1024. */
  predicate Tracks(st: State) {
    var above := st.blockNum - if st.proposed == 0 then 1 else st.proposed;
    |st.confirmCount| == if above < 1024 then above else 1024
  }

  lemma TracksStep(t: Trace, h: Header)
    requires Plausible(t.st) && t.st.blockNum == |t.hist| + 1 && QuorumInv(t) && Tracks(t.st)
    requires Step(t.st, h).Ok?
    ensures Tracks(Step(t.st, h).value)
  {
    StepConfirms(t.st, h);
    CountersAfter(t.hist, t.st.confirmCount, NewBlock(t.st, h));
  }

  lemma {:induction false} TracksAll(g: Name, hs: seq<Header>, ts: seq<Trace>, n: nat)
    requires Run(g, hs, ts) && n <= |hs|
    ensures Tracks(ts[n].st)
  {
    if n > 0 {
      TracksAll(g, hs, ts, n - 1);
      ProposedHasVotes(g, hs, ts, n - 1);
      RunShape(g, hs, ts, n - 1);
      assert NextAt(hs, ts, n - 1);
      TracksStep(ts[n - 1], hs[n - 1]);
    }
  }

  /** Over every run, no block above the proposed one has its votes, among the last 1024. */
  lemma ProposedIsHighest(g: Name, hs: seq<Header>, ts: seq<Trace>, n: nat, b: nat)
    requires Run(g, hs, ts) && n <= |hs| && b > ts[n].st.proposed && b + 1024 > ts[n].st.blockNum
    ensures !HasVotes(ts[n].hist, b)
  {
    var t := ts[n];
    RunShape(g, hs, ts, n);
    TracksAll(g, hs, ts, n);
    ProposedHasVotes(g, hs, ts, n);
    if 2 <= b <= t.st.blockNum {
      var size := |t.st.confirmCount|;
      var i := size - 1 - (t.st.blockNum - b);
      assert Counted(t.hist, NumberOf(|t.hist| + 1, size, i), t.st.confirmCount[i]);
    }
  }

  // ---------------------------------------------------------------------------------------
  // Votes and producers
  // ---------------------------------------------------------------------------------------

  lemma ConfirmersSnoc(hist: seq<Block>, blk: Block, b: int)
    ensures Confirmers(hist + [blk], b) ==
            Confirmers(hist, b) + if |hist| + 2 - blk.confirmed <= b <= |hist| + 2 then {blk.producer} else {}
  {
    var hist' := hist + [blk];
    forall p | p in Confirmers(hist, b) ensures p in Confirmers(hist', b) {
      var k :| 0 <= k < |hist| && Covers(hist, k, b) && hist[k].producer == p;
      assert hist'[k] == hist[k] && Covers(hist', k, b);
    }
    forall p | p in Confirmers(hist', b)
      ensures p in Confirmers(hist, b) || (p == blk.producer && Covers(hist', |hist|, b))
    {
      var k :| 0 <= k < |hist'| && Covers(hist', k, b) && hist'[k].producer == p;
      if k < |hist| {
        assert Covers(hist, k, b);
      }
    }
    if Covers(hist', |hist|, b) {
      assert hist'[|hist|].producer in Confirmers(hist', b);
    }
  }

  lemma SingleAtBefore(hist: seq<Block>, blk: Block, b: int)
    ensures SingleAt(hist + [blk], b) <==>
      SingleAt(hist, b) && (|hist| + 2 - blk.confirmed <= b <= |hist| + 2 ==> blk.producer !in Confirmers(hist, b))
  {
    var longer := hist + [blk];
    forall k | 0 <= k < |hist|
      ensures longer[k] == hist[k] && Covers(longer, k, b) == Covers(hist, k, b)
    {
    }
    if Covers(longer, |hist|, b) && blk.producer in Confirmers(hist, b) {
      var k :| 0 <= k < |hist| && Covers(hist, k, b) && hist[k].producer == blk.producer;
      assert Covers(longer, k, b) && longer[k].producer == longer[|hist|].producer;
    }
  }

  /** As many producers as blocks confirm a block if and only if none of them confirms it twice. */
  lemma {:induction false} VotesAreProducers(hist: seq<Block>, b: int)
    ensures |Confirmers(hist, b)| <= |Votes(hist, b)|
    ensures |Confirmers(hist, b)| == |Votes(hist, b)| <==> SingleAt(hist, b)
  {
    if hist != [] {
      var init, blk := hist[..|hist| - 1], hist[|hist| - 1];
      assert hist == init + [blk];
      VotesAreProducers(init, b);
      VotesNext(init, blk, b);
      ConfirmersSnoc(init, blk, b);
      SingleAtBefore(init, blk, b);
    }
  }

  /** As many different producers confirm the block as its quorum asks for. */
  predicate HasQuorum(hist: seq<Block>, b: int) {
    2 <= b < |hist| + 2 && |Confirmers(hist, b)| >= hist[b - 2].quorum
  }

  /** Over every run, a proposed block that nobody confirmed twice has a quorum of different producers. */
  lemma ProposedHasQuorum(g: Name, hs: seq<Header>, ts: seq<Trace>, n: nat)
    requires Run(g, hs, ts) && n <= |hs| && ts[n].st.proposed != 0 && SingleAt(ts[n].hist, ts[n].st.proposed)
    ensures HasQuorum(ts[n].hist, ts[n].st.proposed)
  {
    ProposedHasVotes(g, hs, ts, n);
    VotesAreProducers(ts[n].hist, ts[n].st.proposed);
  }

  /** And nobody has confirmed any block twice when nobody claims too much. */
  lemma HonestHasQuorum(g: Name, hs: seq<Header>, ts: seq<Trace>, n: nat)
    requires Run(g, hs, ts) && n <= |hs| && n + 2 < UINT32 && Honest(ts[n].hist) && ts[n].st.proposed != 0
    ensures HasQuorum(ts[n].hist, ts[n].st.proposed)
  {
    NobodyConfirmsTwice(g, hs, ts, n);
    SingleEverywhere(ts[n].hist, ts[n].st.proposed);
    ProposedHasQuorum(g, hs, ts, n);
  }

  lemma SingleEverywhere(hist: seq<Block>, b: int)
    requires SingleConfirm(hist)
    ensures SingleAt(hist, b)
  {
    forall i, j | 0 <= i < j < |hist| && hist[i].producer == hist[j].producer
      ensures !(Covers(hist, i, b) && Covers(hist, j, b))
    {
      assert !Meet(hist, i, j);
    }
  }

  // ---------------------------------------------------------------------------------------
  // Two branches with conflicting proposals share more than a third of the producers
  // ---------------------------------------------------------------------------------------

  /** From block number `from` on, every block comes from the schedule and asks for its quorum. */
  predicate Follows(hist: seq<Block>, active: seq<Name>, from: nat) {
    forall k :: from <= k < |hist| ==> hist[k].producer in active && hist[k].quorum == Required(|active|)
  }

  /** From state number `from` on, no other schedule becomes active before the last block. */
  predicate KeepsActive(ts: seq<Trace>, from: nat)
    requires from < |ts|
  {
    forall n :: from <= n < |ts| - 1 ==> ts[n].st.active == ts[from].st.active
  }

  lemma {:induction false} RunFollows(g: Name, hs: seq<Header>, ts: seq<Trace>, from: nat, n: nat)
    requires Run(g, hs, ts) && from <= n <= |hs| && KeepsActive(ts, from)
    ensures Follows(ts[n].hist, ts[from].st.active, from)
  {
    RunShape(g, hs, ts, n);
    if n > from {
      RunFollows(g, hs, ts, from, n - 1);
      RunShape(g, hs, ts, n - 1);
      assert NextAt(hs, ts, n - 1);
      ExpectedIsScheduled(ts[n - 1].st.active, REPETITIONS, hs[n - 1].slot);
    }
  }

  /** Without a pending or a new schedule, the active one stays. */
  lemma {:induction false} QuietKeepsActive(g: Name, hs: seq<Header>, ts: seq<Trace>, from: nat, n: nat)
    requires Run(g, hs, ts) && from <= n <= |hs| && ts[from].st.pending == []
    requires forall k :: from <= k < n ==> hs[k].schedule.None?
    ensures ts[n].st.active == ts[from].st.active && ts[n].st.pending == []
  {
    if n > from {
      QuietKeepsActive(g, hs, ts, from, n - 1);
      assert NextAt(hs, ts, n - 1);
    }
  }

  /** Two quorums out of `n` producers have more than a third of them in common. */
  lemma QuorumsIntersect(a: set<Name>, b: set<Name>, all: set<Name>, n: nat)
    requires a <= all && b <= all && |all| <= n
    requires |a| >= Required(n) && |b| >= Required(n)
    ensures 3 * |a * b| > n
  {
    assert |a + b| == |a| + |b| - |a * b|;
    SubsetSize(a + b, all);
  }

  lemma ConfirmersFollow(hist: seq<Block>, active: seq<Name>, from: nat, b: int)
    requires Follows(hist, active, from) && b >= from + 2
    ensures Confirmers(hist, b) <= Elems(active)
  {
  }

  /** A block of a branch that has its votes, nobody confirming twice, has a quorum of the schedule that the branch keeps. */
  lemma BranchQuorum(g: Name, hs: seq<Header>, ts: seq<Trace>, from: nat, b: nat)
    requires Run(g, hs, ts) && from <= |hs| && KeepsActive(ts, from)
    requires b > ts[from].st.blockNum && HasVotes(ts[|hs|].hist, b) && SingleAt(ts[|hs|].hist, b)
    ensures
      var hist, active := ts[|hs|].hist, ts[from].st.active;
      Confirmers(hist, b) <= Elems(active) && |Confirmers(hist, b)| >= Required(|active|)
  {
    var hist := ts[|hs|].hist;
    RunShape(g, hs, ts, from);
    RunFollows(g, hs, ts, from, |hs|);
    VotesAreProducers(hist, b);
    ConfirmersFollow(hist, ts[from].st.active, from, b);
  }

  /**
   * Two branches that leave a common history and keep its active schedule, whatever others are
   * announced, can each have a block of their own with its votes, and nobody confirming it twice on
   * its branch, only if more than a third of the producers confirmed both blocks.
   */
  lemma BranchesTakeAThird(g: Name, hs: seq<Header>, ts: seq<Trace>, hs': seq<Header>, ts': seq<Trace>, m: nat, b: nat, b': nat)
    requires Run(g, hs, ts) && Run(g, hs', ts') && m <= |hs| && m <= |hs'| && hs[..m] == hs'[..m]
    requires KeepsActive(ts, m) && KeepsActive(ts', m) && b > ts[m].st.blockNum && b' > ts[m].st.blockNum
    requires HasVotes(ts[|hs|].hist, b) && SingleAt(ts[|hs|].hist, b)
    requires HasVotes(ts'[|hs'|].hist, b') && SingleAt(ts'[|hs'|].hist, b')
    ensures 3 * |Confirmers(ts[|hs|].hist, b) * Confirmers(ts'[|hs'|].hist, b')| > |ts[m].st.active|
  {
    var active := ts[m].st.active;
    assert forall k :: 0 <= k < m ==> hs[..m][k] == hs[k] && hs'[..m][k] == hs'[k];
    RunsAgree(g, hs, ts, hs', ts', m);
    BranchQuorum(g, hs, ts, m, b);
    BranchQuorum(g, hs', ts', m, b');
    ElemsSize(active);
    QuorumsIntersect(Confirmers(ts[|hs|].hist, b), Confirmers(ts'[|hs'|].hist, b'), Elems(active), |active|);
  }

  /** In particular they can each propose a block of their own only then. */
  lemma ConflictTakesAThird(g: Name, hs: seq<Header>, ts: seq<Trace>, hs': seq<Header>, ts': seq<Trace>, m: nat)
    requires Run(g, hs, ts) && Run(g, hs', ts') && m <= |hs| && m <= |hs'| && hs[..m] == hs'[..m]
    requires KeepsActive(ts, m) && KeepsActive(ts', m)
    requires SingleAt(ts[|hs|].hist, ts[|hs|].st.proposed) && SingleAt(ts'[|hs'|].hist, ts'[|hs'|].st.proposed)
    requires ts[|hs|].st.proposed > ts[m].st.blockNum && ts'[|hs'|].st.proposed > ts[m].st.blockNum
    ensures
      var t, t' := ts[|hs|], ts'[|hs'|];
      3 * |Confirmers(t.hist, t.st.proposed) * Confirmers(t'.hist, t'.st.proposed)| > |ts[m].st.active|
  {
    ProposedHasVotes(g, hs, ts, |hs|);
    ProposedHasVotes(g, hs', ts', |hs'|);
    BranchesTakeAThird(g, hs, ts, hs', ts', m, ts[|hs|].st.proposed, ts'[|hs'|].st.proposed);
  }

  // ---------------------------------------------------------------------------------------
  // The guard against confirming twice
  // ---------------------------------------------------------------------------------------

  /**
   * The 32-bit guard refuses exactly the ranges that reach back to the producer's last block when
   * the range does not reach back past block zero, and lets every other one pass.
   */
  lemma GuardExactly(last: nat, n: nat, confirmed: nat)
    requires last < n && confirmed < 0x1_0000 && n < UINT32 - 0x1_0000
    ensures last >= Subtract32(n, confirmed) <==> confirmed <= n && last >= n - confirmed
  {
  }

  /** So with 16 bits for the number of confirmed blocks, a header for a later slot is refused for
      confirming twice exactly when it is in range and reaches back to its producer's last block. */
  lemma RefusesExactly(st: State, h: Header)
    requires Plausible(st) && h.slot > st.slot && h.confirmed < 0x1_0000 && st.blockNum < UINT32 - 0x1_0001
    requires forall q :: q in st.lastProduced ==> st.lastProduced[q] <= st.blockNum
    ensures
      var p, n := NewBlock(st, h).producer, st.blockNum + 1;
      Step(st, h) == Err(DoubleConfirm) <==>
        p in st.lastProduced && h.confirmed <= n && st.lastProduced[p] >= n - h.confirmed
  {
    var p := NewBlock(st, h).producer;
    if p in st.lastProduced {
      GuardExactly(st.lastProduced[p], st.blockNum + 1, h.confirmed);
    }
  }

  /** The only producer's first block, right after genesis. */
  lemma FirstBlock(g: Name, slot: nat)
    requires slot > 0
    ensures var r := Step(Genesis(g), Header(slot, 0, None));
      r.Ok? && r.value.active == [g] && r.value.pending == [] && r.value.slot == slot && r.value.blockNum == 2
      && g in r.value.lastProduced && r.value.lastProduced[g] == 2
    ensures NewBlock(Genesis(g), Header(slot, 0, None)) == Block(g, 0, 1)
  {
    assert ExpectedProducer([g], REPETITIONS, slot) == g;
  }

  /** A run of two headers in which a producer confirms a block twice. */
  lemma OutOfRangeConfirmsTwice(g: Name) returns (hs: seq<Header>, ts: seq<Trace>)
    ensures Run(g, hs, ts) && |hs| == 2 && !Honest(ts[2].hist) && !SingleConfirm(ts[2].hist)
  {
    var h1, h2 := Header(1, 0, None), Header(2, 5, None);
    hs := [h1, h2];
    FirstBlock(g, 1);
    var t0 := Trace(Genesis(g), []);
    var t1 := Trace(Step(t0.st, h1).value, [Block(g, 0, 1)]);
    assert ExpectedProducer(t1.st.active, REPETITIONS, 2) == g;
    assert Step(t1.st, h2).Ok?;
    var t2 := Trace(Step(t1.st, h2).value, t1.hist + [NewBlock(t1.st, h2)]);
    ts := [t0, t1, t2];
    assert t0.hist + [Block(g, 0, 1)] == [Block(g, 0, 1)];
    assert NextAt(hs, ts, 0) && NextAt(hs, ts, 1);
    assert t2.hist[0].producer == t2.hist[1].producer && !HonestAt(t2.hist, 1);
    NobodyConfirmsTwice(g, hs, ts, 2);
  }
}
