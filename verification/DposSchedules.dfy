/** The life of a producer schedule: announced, pending, active (libraries/chain/block_header_state.cpp, lines 118-168 and 249-275). */
module DposSchedules {
  import opened Collections
  import opened Schedule
  import opened Dpos
  import opened DposSafety

  // ---------------------------------------------------------------------------------------
  // One block
  // ---------------------------------------------------------------------------------------

  lemma RefusalsBy(st: State, h: Header, p: Name)
    requires Plausible(st)
    ensures
      var twice := p in st.lastProduced && st.lastProduced[p] >= Subtract32(st.blockNum + 1, h.confirmed);
      && (StepBy(st, h, p) == Err(NotInFuture) <==> h.slot <= st.slot)
      && (StepBy(st, h, p) == Err(DoubleConfirm) <==> h.slot > st.slot && twice)
      && (StepBy(st, h, p) == Err(ScheduleNotAllowed) <==> h.slot > st.slot && !twice && h.schedule.Some? && st.pending != [])
  {
  }

  /** Which headers are refused, and why: the slot is not later, the producer confirms twice, or a
      schedule is announced while another is pending. */
  lemma RefusalsExactly(st: State, h: Header)
    requires Plausible(st)
    ensures
      var p := NewBlock(st, h).producer;
      var twice := p in st.lastProduced && st.lastProduced[p] >= Subtract32(st.blockNum + 1, h.confirmed);
      && (Step(st, h) == Err(NotInFuture) <==> h.slot <= st.slot)
      && (Step(st, h) == Err(DoubleConfirm) <==> h.slot > st.slot && twice)
      && (Step(st, h) == Err(ScheduleNotAllowed) <==> h.slot > st.slot && !twice && h.schedule.Some? && st.pending != [])
  {
    RefusalsBy(st, h, NewBlock(st, h).producer);
  }

  /** What an accepted block does to the schedules. A pending one waits until the block that announced
      it is irreversible, and then becomes active; only without one a new one may be announced. */
  lemma ScheduleStep(st: State, h: Header)
    requires Plausible(st) && Step(st, h).Ok?
    ensures var st' := Step(st, h).value;
      && st'.slot == h.slot > st.slot
      && (h.schedule.Some? ==>
        st.pending == [] && st'.active == st.active && st'.pending == h.schedule.value && st'.pendingSince == st.blockNum + 1)
      && (st.pending != [] && st'.irreversible >= st.pendingSince ==> st'.active == st.pending && st'.pending == [])
      && (st.pending != [] && st'.irreversible < st.pendingSince ==>
        st'.active == st.active && st'.pending == st.pending && st'.pendingSince == st.pendingSince)
      && (st.pending == [] && h.schedule.None? ==> st'.active == st.active && st'.pending == [])
  {
  }

  /** The table of last blocks, for a block of `p` that makes `lib` irreversible. */
  ghost predicate ProducedAfter(st: State, p: Name, lib: nat, produced: map<Name, nat>) {
    var promoted := st.pending != [] && lib >= st.pendingSince;
    && produced.Keys == (if promoted then Elems(st.pending) else st.lastProduced.Keys) + {p}
    && forall q :: q in produced ==>
      produced[q] == if q == p then st.blockNum + 1 else if q in st.lastProduced then st.lastProduced[q] else lib
  }

  /** The table of implied blocks. Who is not in a promoted schedule leaves it. */
  ghost predicate ImpliedAfter(st: State, p: Name, lib: nat, implied: map<Name, nat>) {
    var promoted := st.pending != [] && lib >= st.pendingSince;
    && implied.Keys == (if promoted then Elems(st.pending) else st.lastImplied.Keys + {p})
    && forall q :: q in implied ==>
      implied[q] == if q == p then st.proposed else if q in st.lastImplied then st.lastImplied[q] else lib
  }

  lemma TablesAfter(st: State, h: Header, p: Name, lib: nat, counts: seq<nat>, proposed: nat)
    ensures
      var st' := After(st, h, p, lib, counts, proposed);
      ProducedAfter(st, p, lib, st'.lastProduced) && ImpliedAfter(st, p, lib, st'.lastImplied)
  {
    var st' := After(st, h, p, lib, counts, proposed);
    if Promotes(st, lib) {
      assert Rebuild(st.lastImplied, st.pending, p, st.proposed, lib).Keys == Elems(st.pending);
      assert Rebuild(st.lastProduced, st.pending, p, st.blockNum + 1, lib).Keys == Elems(st.pending);
    }
  }

  /** What an accepted block does to both, producer by producer. */
  lemma TablesStep(st: State, h: Header)
    requires Plausible(st) && Step(st, h).Ok?
    ensures
      var p, st' := NewBlock(st, h).producer, Step(st, h).value;
      ProducedAfter(st, p, st'.irreversible, st'.lastProduced) && ImpliedAfter(st, p, st'.irreversible, st'.lastImplied)
  {
    var p, st' := NewBlock(st, h).producer, Step(st, h).value;
    TablesAfter(st, h, p, st'.irreversible, st'.confirmCount, st'.proposed);
  }

  // ---------------------------------------------------------------------------------------
  // Every run
  // ---------------------------------------------------------------------------------------

  lemma {:induction false} SlotsIncrease(g: Name, hs: seq<Header>, ts: seq<Trace>, k: nat, n: nat)
    requires Run(g, hs, ts) && k < n <= |hs|
    ensures ts[k].st.slot < ts[n].st.slot == hs[n - 1].slot
  {
    assert NextAt(hs, ts, n - 1);
    ScheduleStep(ts[n - 1].st, hs[n - 1]);
    if k < n - 1 {
      SlotsIncrease(g, hs, ts, k, n - 1);
    }
  }

  /** The schedule is the one of genesis, or that of a header before `n`, in block number `since`. */
  predicate Announced(g: Name, hs: seq<Header>, n: nat, schedule: seq<Name>, since: nat)
    requires n <= |hs|
  {
    || (schedule == [g] && since == 0)
    || (2 <= since < n + 2 && hs[since - 2].schedule == Some(schedule))
  }

  /** Over every run, what is pending was announced in the block from which it is pending. */
  lemma {:induction false} PendingWasAnnounced(g: Name, hs: seq<Header>, ts: seq<Trace>, n: nat)
    requires Run(g, hs, ts) && n <= |hs|
    ensures ts[n].st.pending != [] ==> Announced(g, hs, n, ts[n].st.pending, ts[n].st.pendingSince)
  {
    if n > 0 {
      PendingWasAnnounced(g, hs, ts, n - 1);
      RunShape(g, hs, ts, n - 1);
      assert NextAt(hs, ts, n - 1);
      ScheduleStep(ts[n - 1].st, hs[n - 1]);
    }
  }

  /** The active schedule was announced in a block that was irreversible in state number `j`. */
  ghost predicate TookEffect(g: Name, hs: seq<Header>, ts: seq<Trace>, schedule: seq<Name>, since: nat, j: nat)
    requires j <= |hs| && |ts| == |hs| + 1
  {
    Announced(g, hs, j, schedule, since) && ts[j].st.irreversible >= since
  }

  /** Over every run, whoever is active was announced in a block that had become irreversible. */
  lemma {:induction false} ActiveWasAnnounced(g: Name, hs: seq<Header>, ts: seq<Trace>, n: nat) returns (since: nat, j: nat)
    requires Run(g, hs, ts) && n <= |hs|
    ensures j <= n && TookEffect(g, hs, ts, ts[n].st.active, since, j)
  {
    if n == 0 {
      since, j := 0, 0;
    } else {
      since, j := ActiveWasAnnounced(g, hs, ts, n - 1);
      PendingWasAnnounced(g, hs, ts, n - 1);
      assert NextAt(hs, ts, n - 1);
      ScheduleStep(ts[n - 1].st, hs[n - 1]);
      if ts[n].st.active != ts[n - 1].st.active {
        since, j := ts[n - 1].st.pendingSince, n;
      }
    }
  }

  /** From its announcement on, a schedule is pending, or some state has it active. */
  lemma {:induction false} PendingUntilActive(g: Name, hs: seq<Header>, ts: seq<Trace>, i: nat, n: nat) returns (m: nat)
    requires Run(g, hs, ts) && i < n <= |hs| && hs[i].schedule.Some? && hs[i].schedule.value != []
    ensures if m != 0 then i + 1 < m <= n && ts[m].st.active == hs[i].schedule.value
      else ts[n].st.pending == hs[i].schedule.value && ts[n].st.pendingSince == i + 2
  {
    RunShape(g, hs, ts, n - 1);
    assert NextAt(hs, ts, n - 1);
    ScheduleStep(ts[n - 1].st, hs[n - 1]);
    if n == i + 1 {
      m := 0;
    } else {
      m := PendingUntilActive(g, hs, ts, i, n - 1);
      if m == 0 && ts[n].st.irreversible >= i + 2 {
        m := n;
      }
    }
  }

  /** Over every run, a schedule that was announced has become active before another one is announced. */
  lemma NoneIsReplaced(g: Name, hs: seq<Header>, ts: seq<Trace>, i: nat, j: nat) returns (m: nat)
    requires Run(g, hs, ts) && i < j < |hs| && hs[i].schedule.Some? && hs[i].schedule.value != [] && hs[j].schedule.Some?
    ensures i + 1 < m <= j && ts[m].st.active == hs[i].schedule.value
  {
    m := PendingUntilActive(g, hs, ts, i, j);
    assert NextAt(hs, ts, j);
    ScheduleStep(ts[j].st, hs[j]);
  }

  /** The second header is refused: the first block of a chain promotes the schedule of genesis. */
  lemma AnnouncedTooEarly(g: Name, schedule: seq<Name>)
    ensures Step(Genesis(g), Header(1, 0, Some(schedule))) == Err(ScheduleNotAllowed)
  {
  }
}
