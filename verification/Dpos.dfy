/** Block confirmation and irreversibility: block_header_state::next (libraries/chain/block_header_state.cpp). */
module Dpos {
  import opened Collections
  import opened Schedule

  const REPETITIONS: nat := 12
  const MAX_TRACKED: nat := 1024
  const UINT32: int := 0x1_0000_0000

  datatype Error = NotInFuture | DoubleConfirm | ScheduleNotAllowed

  datatype Result<T> = Ok(value: T) | Err(error: Error)

  /** What a block header contributes; the producer follows from the slot. */
  datatype Header = Header(slot: nat, confirmed: nat, schedule: Option<seq<Name>>)

  datatype State = State(
    blockNum: nat,
    slot: nat,
    proposed: nat,
    irreversible: nat,
    active: seq<Name>,
    pending: seq<Name>,
    pendingSince: nat,
    lastProduced: map<Name, nat>,
    lastImplied: map<Name, nat>,
    confirmCount: seq<nat>)

  /** The chain's initial state: one producer, also pending, and nothing confirmed. */
  function Genesis(producer: Name): State {
    State(1, 0, 0, 0, [producer], [producer], 0, map[], map[], [])
  }

  /** Confirmations a block needs from a schedule of `n` producers. */
  function Required(n: nat): nat {
    n * 2 / 3 + 1
  }

  function Subtract32(a: int, b: int): int {
    (a - b) % UINT32
  }

  /** Decrements an 8-bit counter. */
  function Decrement8(c: nat): nat {
    if c == 0 then 255 else c - 1
  }

  /**
   * The confirmation loop: decrements the newest `k` of the first `i` counters until one reaches zero.
   * That one's index is reported, and it is dropped with all older ones.
   */
  function Confirm(cc: seq<nat>, i: nat, k: nat): (r: (seq<nat>, Option<nat>))
    requires i <= |cc|
    ensures |r.0| <= |cc| && (r.1.Some? ==> r.1.value < i)
    decreases i
  {
    if i == 0 || k == 0 then (cc, None)
    else
      var c := Decrement8(cc[i - 1]);
      if c == 0 then (cc[i..], Some(i - 1)) else Confirm(cc[i - 1 := c], i - 1, k - 1)
  }

  function Grow(cc: seq<nat>, quorum: nat): seq<nat> {
    (if |cc| < MAX_TRACKED then cc else cc[1..]) + [quorum]
  }

  function CountAtMost(m: map<Name, nat>, x: nat): nat {
    |set p | p in m && m[p] <= x|
  }

  /** The least value that more than `index` entries do not exceed: element `index` in sorted order. */
  function NthFrom(m: map<Name, nat>, index: nat, x: nat, bound: nat): nat
    decreases bound - x
  {
    if x >= bound || CountAtMost(m, x) > index then x else NthFrom(m, index, x + 1, bound)
  }

  ghost function MaxValue(m: map<Name, nat>, keys: set<Name>): (b: nat)
    requires keys <= m.Keys
    ensures forall p :: p in keys ==> m[p] <= b
  {
    if keys == {} then 0
    else
      MaxExists(m, keys);
      var p :| p in keys && forall q :: q in keys ==> m[q] <= m[p];
      m[p]
  }

  lemma {:induction false} MaxExists(m: map<Name, nat>, keys: set<Name>)
    requires keys <= m.Keys && keys != {}
    ensures exists p :: p in keys && forall q :: q in keys ==> m[q] <= m[p]
    decreases |keys|
  {
    var p :| p in keys;
    var rest := keys - {p};
    if rest == {} {
      assert keys == {p};
    } else {
      MaxExists(m, rest);
      var r :| r in rest && forall q :: q in rest ==> m[q] <= m[r];
      var top := if m[r] <= m[p] then p else r;
      assert forall q :: q in keys ==> m[q] <= m[top];
    }
  }

  ghost function LastIrreversible(m: map<Name, nat>): nat {
    if |m| == 0 then 0 else NthFrom(m, (|m| - 1) / 3, 0, MaxValue(m, m.Keys))
  }

  /** The implied block numbers with the next block's producer raised to the proposed one. */
  function Implied(st: State, producer: Name): map<Name, nat> {
    map p | p in st.lastImplied :: if p == producer then st.proposed else st.lastImplied[p]
  }

  /** One table rebuilt for a new schedule: kept where known, else set to the irreversible block. */
  function Rebuild(known: map<Name, nat>, schedule: seq<Name>, producer: Name, own: nat, initial: nat): map<Name, nat> {
    map p | p in schedule :: if p == producer then own else if p in known then known[p] else initial
  }

  predicate Promotes(st: State, lib: nat) {
    st.pending != [] && lib >= st.pendingSince
  }

  /** Someone produces, and no more blocks are tracked than exist. */
  predicate Plausible(st: State) {
    st.active != [] && |st.confirmCount| <= st.blockNum
  }

  /** The proposed block: the one whose counter reached zero, or the old one. */
  function Proposed(st: State, size: nat, zero: Option<nat>): int {
    if zero.Some? then st.blockNum + 1 - (size - 1 - zero.value) else st.proposed
  }

  /** The state after an accepted block, from the parts computed before (lines 116-168 and the schedules). */
  function After(st: State, h: Header, producer: Name, lib: nat, counts: seq<nat>, proposed: nat): State {
    var n, promoted := st.blockNum + 1, Promotes(st, lib);
    State(
      n, h.slot, proposed, lib,
      if promoted then st.pending else st.active,
      if h.schedule.Some? then h.schedule.value else if promoted then [] else st.pending,
      if h.schedule.Some? then n else st.pendingSince,
      (if promoted then Rebuild(st.lastProduced, st.pending, producer, n, lib) else st.lastProduced)[producer := n],
      if promoted then Rebuild(st.lastImplied, st.pending, producer, st.proposed, lib)
      else st.lastImplied[producer := st.proposed],
      counts)
  }

  /** The state after an accepted block of the given producer. */
  ghost function Accepted(st: State, h: Header, producer: Name): (st': State)
    requires Plausible(st)
    ensures Plausible(st')
  {
    var grown := Grow(st.confirmCount, Required(|st.active|));
    var confirmed := Confirm(grown, |grown|, h.confirmed + 1);
    After(st, h, producer, LastIrreversible(Implied(st, producer)), confirmed.0, Proposed(st, |grown|, confirmed.1))
  }

  /** The step for a block of the given producer. */
  ghost function StepBy(st: State, h: Header, producer: Name): (r: Result<State>)
    requires Plausible(st)
    ensures r.Ok? ==> Plausible(r.value)
  {
    if h.slot <= st.slot then Err(NotInFuture)
    else if producer in st.lastProduced && st.lastProduced[producer] >= Subtract32(st.blockNum + 1, h.confirmed) then Err(DoubleConfirm)
    else if h.schedule.Some? && (Promotes(st, LastIrreversible(Implied(st, producer))) || st.pending != []) then Err(ScheduleNotAllowed)
    else Ok(Accepted(st, h, producer))
  }

  /** A header is for the producer that the active schedule has for its slot. */
  ghost function Step(st: State, h: Header): (r: Result<State>)
    requires Plausible(st)
    ensures r.Ok? ==> Plausible(r.value)
  {
    StepBy(st, h, ExpectedProducer(st.active, REPETITIONS, h.slot))
  }

  /** The code of lines 72-114: grow the counters, then confirm from the newest back. */
  method ConfirmBlocks(counts: seq<nat>, producers: nat, n: nat, confirmed: nat, proposed: nat)
    returns (left: seq<nat>, newProposed: int)
    ensures var grown := Grow(counts, Required(producers));
      var (cc, zero) := Confirm(grown, |grown|, confirmed + 1);
      left == cc && newProposed == if zero.Some? then n - (|grown| - 1 - zero.value) else proposed
  {
    left := Grow(counts, Required(producers));
    newProposed := proposed;
    ghost var grown := left;
    var i, k := |left| - 1, confirmed + 1;
    while i >= 0 && k > 0
      invariant -1 <= i < |left| == |grown| && k >= 0 && newProposed == proposed
      invariant Confirm(left, i + 1, k) == Confirm(grown, |grown|, confirmed + 1)
      decreases i
    {
      left := left[i := Decrement8(left[i])];
      if left[i] == 0 {
        newProposed := n - (|left| - 1 - i);
        left := left[i + 1..];
        return;
      }
      i, k := i - 1, k - 1;
    }
  }
}
