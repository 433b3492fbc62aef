/** Runs from genesis: the irreversible block moves back, branches conflict across a promotion, and a quorum is one producer. */
module DposExample {
  import opened Collections
  import opened Schedule
  import opened Dpos
  import opened DposSafety
  import opened DposIrreversible

  // ---------------------------------------------------------------------------------------
  // States whose tables list the active producers
  // ---------------------------------------------------------------------------------------

  /** The table has the numbers `w` for the producers, in their order. */
  ghost predicate Lists(m: map<Name, nat>, names: seq<Name>, w: seq<nat>) {
    && |w| == |names| && m.Keys == Elems(names)
    && forall i :: 0 <= i < |names| ==> names[i] in m && m[names[i]] == w[i]
  }

  function CountBelow(w: seq<nat>, x: nat): nat {
    if w == [] then 0 else CountBelow(w[..|w| - 1], x) + (if w[|w| - 1] < x then 1 else 0)
  }

  /** The producers with a number below `x`. */
  function NamesBelow(names: seq<Name>, w: seq<nat>, x: nat): (s: set<Name>)
    requires |w| == |names|
    ensures s <= Elems(names)
  {
    if names == [] then {}
    else
      var n := |names| - 1;
      NamesBelow(names[..n], w[..n], x) + (if w[n] < x then {names[n]} else {})
  }

  lemma {:induction false} CountsNames(names: seq<Name>, w: seq<nat>, x: nat)
    requires NoDup(names) && |w| == |names|
    ensures |NamesBelow(names, w, x)| == CountBelow(w, x)
  {
    if names != [] {
      var n := |names| - 1;
      CountsNames(names[..n], w[..n], x);
      assert names[n] !in Elems(names[..n]);
    }
  }

  lemma {:induction false} IsBelow(names: seq<Name>, w: seq<nat>, x: nat, i: nat)
    requires NoDup(names) && |w| == |names| && i < |names|
    ensures names[i] in NamesBelow(names, w, x) <==> w[i] < x
  {
    var n := |names| - 1;
    if i < n {
      IsBelow(names[..n], w[..n], x, i);
    } else {
      assert names[n] !in Elems(names[..n]);
    }
  }

  lemma ListedBelow(m: map<Name, nat>, names: seq<Name>, w: seq<nat>, x: nat)
    requires NoDup(names) && Lists(m, names, w)
    ensures |AtMost(m, x - 1)| == CountBelow(w, x) && |m| == |names|
  {
    CountsNames(names, w, x);
    ElemsSize(names);
    assert |m| == |m.Keys|;
    forall q | q in m
      ensures q in NamesBelow(names, w, x) <==> m[q] < x
    {
      var i :| 0 <= i < |names| && names[i] == q;
      IsBelow(names, w, x, i);
    }
    assert AtMost(m, x - 1) == NamesBelow(names, w, x);
  }

  /** The irreversible block that a list of numbers gives. */
  lemma ListedLast(m: map<Name, nat>, names: seq<Name>, w: seq<nat>, x: nat)
    requires NoDup(names) && names != [] && Lists(m, names, w)
    requires 3 * CountBelow(w, x) < |w| <= 3 * CountBelow(w, x + 1)
    ensures LastIrreversible(m) == x
  {
    ListedBelow(m, names, w, x);
    ListedBelow(m, names, w, x + 1);
    ReachesExactly(m, x);
    ReachesExactly(m, x + 1);
  }

  /** The numbers of a state, for the producers that are active. */
  datatype Numbers = Numbers(n: nat, slot: nat, proposed: nat, lib: nat, produced: seq<nat>, implied: seq<nat>, counts: seq<nat>)

  ghost predicate At(st: State, names: seq<Name>, pending: seq<Name>, since: nat, v: Numbers) {
    && st.blockNum == v.n && st.slot == v.slot && st.proposed == v.proposed && st.irreversible == v.lib
    && st.active == names && st.pending == pending && st.pendingSince == since && st.confirmCount == v.counts
    && names != [] && NoDup(names) && |v.counts| <= v.n < UINT32 - 1
    && Lists(st.lastProduced, names, v.produced) && Lists(st.lastImplied, names, v.implied)
  }

  predicate Confirms(grown: seq<nat>, k: nat, v: Numbers, v': Numbers) {
    var r := Confirm(grown, |grown|, k);
    v'.counts == r.0 && v'.proposed == if r.1.Some? then v.n + 1 - (|grown| - 1 - r.1.value) else v.proposed
  }

  /** The next block, by producer number `i`, with the confirmations and irreversible block it brings. */
  predicate Brings(v: Numbers, size: nat, h: Header, i: nat, v': Numbers) {
    && i < size == |v.produced| == |v.implied| && h.slot > v.slot && IndexAt(size, REPETITIONS, h.slot) == i
    && v.produced[i] < Subtract32(v.n + 1, h.confirmed)
    && v'.n == v.n + 1 < UINT32 - 1 && v'.slot == h.slot && |v'.counts| <= v'.n
    && Confirms(Grow(v.counts, Required(size)), h.confirmed + 1, v, v')
    && 3 * CountBelow(v.implied[i := v.proposed], v'.lib) < size <= 3 * CountBelow(v.implied[i := v.proposed], v'.lib + 1)
  }

  /** The tables change for that producer alone. */
  predicate BringsPlain(v: Numbers, size: nat, h: Header, i: nat, v': Numbers) {
    Brings(v, size, h, i, v') && v'.produced == v.produced[i := v'.n] && v'.implied == v.implied[i := v.proposed]
  }

  lemma NextLib(st: State, names: seq<Name>, pending: seq<Name>, since: nat, v: Numbers, h: Header, i: nat, v': Numbers)
    requires At(st, names, pending, since, v) && Brings(v, |names|, h, i, v')
    ensures LastIrreversible(Implied(st, names[i])) == v'.lib
  {
    var m, w := Implied(st, names[i]), v.implied[i := v.proposed];
    assert Lists(m, names, w);
    ListedLast(m, names, w, v'.lib);
  }

  /** What is left of a step once its tests are passed. */
  lemma StepIs(st: State, h: Header, p: Name)
    requires Plausible(st) && h.slot > st.slot
    requires p in st.lastProduced ==> st.lastProduced[p] < Subtract32(st.blockNum + 1, h.confirmed)
    requires h.schedule.Some? ==> st.pending == []
    ensures StepBy(st, h, p) == Ok(Accepted(st, h, p))
  {
  }

  /** A step is what the numbers say. */
  lemma StepBrings(st: State, names: seq<Name>, pending: seq<Name>, since: nat, v: Numbers, h: Header, i: nat, v': Numbers)
    requires At(st, names, pending, since, v) && Brings(v, |names|, h, i, v')
    requires h.schedule.Some? ==> pending == []
    ensures StepBy(st, h, names[i]) == Ok(After(st, h, names[i], v'.lib, v'.counts, v'.proposed))
  {
    NextLib(st, names, pending, since, v, h, i, v');
    StepIs(st, h, names[i]);
  }

  /** A block that promotes nothing. */
  lemma PlainStep(st: State, names: seq<Name>, pending: seq<Name>, since: nat, v: Numbers, h: Header, i: nat, v': Numbers)
    requires At(st, names, pending, since, v) && BringsPlain(v, |names|, h, i, v')
    requires h.schedule.Some? ==> pending == []
    requires pending == [] || v'.lib < since
    ensures StepBy(st, h, names[i]).Ok?
    ensures
      At(StepBy(st, h, names[i]).value, names, if h.schedule.Some? then h.schedule.value else pending,
         if h.schedule.Some? then v'.n else since, v')
  {
    StepBrings(st, names, pending, since, v, h, i, v');
    var st' := After(st, h, names[i], v'.lib, v'.counts, v'.proposed);
    assert Lists(st'.lastProduced, names, v'.produced);
    assert Lists(st'.lastImplied, names, v'.implied);
  }

  /** The number of `q`, or `other` if it has none. */
  function Entry(names: seq<Name>, w: seq<nat>, q: Name, other: nat): nat
    requires |names| == |w|
  {
    if names == [] then other
    else if names[0] == q then w[0]
    else Entry(names[1..], w[1..], q, other)
  }

  lemma {:induction false} EntryIs(names: seq<Name>, w: seq<nat>, q: Name, other: nat)
    requires |names| == |w|
    ensures q !in names ==> Entry(names, w, q, other) == other
    ensures q in names ==> exists i :: 0 <= i < |names| && names[i] == q && Entry(names, w, q, other) == w[i]
  {
    if names != [] && names[0] != q {
      EntryIs(names[1..], w[1..], q, other);
      if q in names {
        var i :| 0 <= i < |names[1..]| && names[1..][i] == q && Entry(names[1..], w[1..], q, other) == w[1..][i];
        assert names[i + 1] == q && w[i + 1] == w[1..][i];
      }
    }
  }

  /** The table of a new schedule, in numbers. */
  lemma RebuildLists(m: map<Name, nat>, names: seq<Name>, w: seq<nat>, pending: seq<Name>, p: Name, own: nat, lib: nat, w': seq<nat>)
    requires Lists(m, names, w) && |w'| == |pending|
    requires forall j :: 0 <= j < |pending| ==> w'[j] == if pending[j] == p then own else Entry(names, w, pending[j], lib)
    ensures Lists(Rebuild(m, pending, p, own, lib), pending, w')
  {
    forall j | 0 <= j < |pending| && pending[j] != p
      ensures w'[j] == if pending[j] in m then m[pending[j]] else lib
    {
      EntryIs(names, w, pending[j], lib);
    }
  }

  /** The numbers of a promoted schedule: kept where known, else the irreversible block. */
  predicate Promoted(v: Numbers, names: seq<Name>, pending: seq<Name>, p: Name, v': Numbers) {
    && |names| == |v.produced| == |v.implied| && |v'.produced| == |v'.implied| == |pending|
    && forall j :: 0 <= j < |pending| ==>
      && v'.produced[j] == (if pending[j] == p then v'.n else Entry(names, v.produced, pending[j], v'.lib))
      && v'.implied[j] == (if pending[j] == p then v.proposed else Entry(names, v.implied, pending[j], v'.lib))
  }

  predicate BringsPromoting(v: Numbers, names: seq<Name>, pending: seq<Name>, since: nat, h: Header, i: nat, v': Numbers) {
    && Brings(v, |names|, h, i, v') && h.schedule.None? && pending != [] && NoDup(pending) && v'.lib >= since
    && names[i] in pending && Promoted(v, names, pending, names[i], v')
  }

  lemma PromotedTables(st: State, names: seq<Name>, pending: seq<Name>, v: Numbers, p: Name, v': Numbers)
    requires Lists(st.lastProduced, names, v.produced) && Lists(st.lastImplied, names, v.implied)
    requires Promoted(v, names, pending, p, v') && p in pending
    ensures Lists(Rebuild(st.lastProduced, pending, p, v'.n, v'.lib)[p := v'.n], pending, v'.produced)
    ensures Lists(Rebuild(st.lastImplied, pending, p, v.proposed, v'.lib), pending, v'.implied)
  {
    RebuildLists(st.lastProduced, names, v.produced, pending, p, v'.n, v'.lib, v'.produced);
    RebuildLists(st.lastImplied, names, v.implied, pending, p, v.proposed, v'.lib, v'.implied);
    var table := Rebuild(st.lastProduced, pending, p, v'.n, v'.lib);
    assert table[p := v'.n] == table;
  }

  /** A block that promotes the pending schedule. */
  lemma PromotingStep(st: State, names: seq<Name>, pending: seq<Name>, since: nat, v: Numbers, h: Header, i: nat, v': Numbers)
    requires At(st, names, pending, since, v) && BringsPromoting(v, names, pending, since, h, i, v')
    ensures StepBy(st, h, names[i]).Ok?
    ensures At(StepBy(st, h, names[i]).value, pending, [], since, v')
  {
    StepBrings(st, names, pending, since, v, h, i, v');
    PromotedTables(st, names, pending, v, names[i], v');
  }

  // ---------------------------------------------------------------------------------------
  // Runs, block by block
  // ---------------------------------------------------------------------------------------

  /** A block of the producer whose turn it is takes the trace on. */
  lemma Take(t: Trace, h: Header, i: nat) returns (t': Trace)
    requires Plausible(t.st) && IndexAt(|t.st.active|, REPETITIONS, h.slot) == i && StepBy(t.st, h, t.st.active[i]).Ok?
    ensures Next(t, h, t') && t'.st == StepBy(t.st, h, t.st.active[i]).value
    ensures t'.hist == t.hist + [Block(t.st.active[i], h.confirmed, Required(|t.st.active|))]
  {
    t' := Trace(Step(t.st, h).value, t.hist + [NewBlock(t.st, h)]);
  }

  lemma GoOn(g: Name, hs: seq<Header>, ts: seq<Trace>, h: Header, t': Trace)
    requires Run(g, hs, ts) && Next(ts[|hs|], h, t')
    ensures Run(g, hs + [h], ts + [t'])
  {
    var hs', ts' := hs + [h], ts + [t'];
    forall k | 0 <= k < |hs'|
      ensures NextAt(hs', ts', k)
    {
      assert k < |hs| ==> NextAt(hs, ts, k);
    }
  }

  /** A run and where it has arrived: after the blocks `hist`, at these schedules and numbers. */
  datatype Leg = Leg(
    g: Name, hs: seq<Header>, ts: seq<Trace>, hist: seq<Block>, names: seq<Name>, pending: seq<Name>, since: nat, v: Numbers)

  ghost predicate Reached(l: Leg) {
    Run(l.g, l.hs, l.ts) && l.ts[|l.hs|].hist == l.hist && At(l.ts[|l.hs|].st, l.names, l.pending, l.since, l.v)
  }

  function NextBlock(l: Leg, h: Header, i: nat): Block
    requires i < |l.names|
  {
    Block(l.names[i], h.confirmed, Required(|l.names|))
  }

  /** A block that promotes nothing. */
  lemma GoPlain(l: Leg, h: Header, i: nat, v': Numbers) returns (l': Leg)
    requires Reached(l) && BringsPlain(l.v, |l.names|, h, i, v')
    requires (h.schedule.Some? ==> l.pending == []) && (l.pending == [] || v'.lib < l.since)
    ensures Reached(l') && l.ts <= l'.ts
    ensures l' == Leg(
      l.g, l.hs + [h], l'.ts, l.hist + [NextBlock(l, h, i)], l.names,
      if h.schedule.Some? then h.schedule.value else l.pending, if h.schedule.Some? then v'.n else l.since, v')
  {
    PlainStep(l.ts[|l.hs|].st, l.names, l.pending, l.since, l.v, h, i, v');
    var t' := Take(l.ts[|l.hs|], h, i);
    GoOn(l.g, l.hs, l.ts, h, t');
    l' := Leg(
      l.g, l.hs + [h], l.ts + [t'], l.hist + [NextBlock(l, h, i)], l.names,
      if h.schedule.Some? then h.schedule.value else l.pending, if h.schedule.Some? then v'.n else l.since, v');
  }

  /** A block that promotes the pending schedule. */
  lemma GoPromoting(l: Leg, h: Header, i: nat, v': Numbers) returns (l': Leg)
    requires Reached(l) && BringsPromoting(l.v, l.names, l.pending, l.since, h, i, v')
    ensures Reached(l') && l.ts <= l'.ts
    ensures l' == Leg(l.g, l.hs + [h], l'.ts, l.hist + [NextBlock(l, h, i)], l.pending, [], l.since, v')
  {
    PromotingStep(l.ts[|l.hs|].st, l.names, l.pending, l.since, l.v, h, i, v');
    var t' := Take(l.ts[|l.hs|], h, i);
    GoOn(l.g, l.hs, l.ts, h, t');
    l' := Leg(l.g, l.hs + [h], l.ts + [t'], l.hist + [NextBlock(l, h, i)], l.pending, [], l.since, v');
  }

  /** A last block, of which only the proposed and the irreversible block matter. */
  lemma GoLast(l: Leg, h: Header, i: nat, v': Numbers) returns (t': Trace)
    requires Reached(l) && Brings(l.v, |l.names|, h, i, v') && h.schedule.None?
    ensures Run(l.g, l.hs + [h], l.ts + [t']) && t'.hist == l.hist + [NextBlock(l, h, i)]
    ensures t'.st.proposed == v'.proposed && t'.st.irreversible == v'.lib
  {
    StepBrings(l.ts[|l.hs|].st, l.names, l.pending, l.since, l.v, h, i, v');
    t' := Take(l.ts[|l.hs|], h, i);
    GoOn(l.g, l.hs, l.ts, h, t');
  }

  /** A block of producer number `i` without a schedule, and the numbers after it. */
  datatype Move = Move(h: Header, i: nat, v: Numbers)

  predicate MoveAt(v: Numbers, size: nat, since: nat, ms: seq<Move>, k: nat)
    requires k < |ms|
  {
    BringsPlain(if k == 0 then v else ms[k - 1].v, size, ms[k].h, ms[k].i, ms[k].v) && ms[k].h.schedule.None? && ms[k].v.lib < since
  }

  predicate Moves(v: Numbers, size: nat, since: nat, ms: seq<Move>) {
    forall k :: 0 <= k < |ms| ==> MoveAt(v, size, since, ms, k)
  }

  function Headers(ms: seq<Move>): seq<Header> {
    seq(|ms|, k requires 0 <= k < |ms| => ms[k].h)
  }

  function Blocks(names: seq<Name>, ms: seq<Move>): seq<Block>
    requires forall k :: 0 <= k < |ms| ==> ms[k].i < |names|
  {
    seq(|ms|, k requires 0 <= k < |ms| => Block(names[ms[k].i], ms[k].h.confirmed, Required(|names|)))
  }

  /** The run goes from `l` to `l'` by the first `n` of these blocks. */
  ghost predicate Along(l: Leg, ms: seq<Move>, n: nat, l': Leg)
    requires n <= |ms| && forall k :: 0 <= k < |ms| ==> ms[k].i < |l.names|
  {
    && l'.g == l.g && l'.names == l.names && l'.pending == l.pending && l'.since == l.since && l.ts <= l'.ts
    && l'.hs == l.hs + Headers(ms[..n]) && l'.hist == l.hist + Blocks(l.names, ms[..n])
    && l'.v == if n == 0 then l.v else ms[n - 1].v
  }

  lemma AlongNext(l: Leg, ms: seq<Move>, n: nat, l': Leg, l'': Leg)
    requires n < |ms| && (forall k :: 0 <= k < |ms| ==> ms[k].i < |l.names|) && ms[n].h.schedule.None?
    requires Along(l, ms, n, l') && l'.ts <= l''.ts
    requires l'' == Leg(
      l'.g, l'.hs + [ms[n].h], l''.ts, l'.hist + [NextBlock(l', ms[n].h, ms[n].i)], l'.names, l'.pending, l'.since, ms[n].v)
    ensures Along(l, ms, n + 1, l'')
  {
    assert Headers(ms[..n + 1]) == Headers(ms[..n]) + [ms[n].h];
    assert Blocks(l.names, ms[..n + 1]) == Blocks(l.names, ms[..n]) + [NextBlock(l, ms[n].h, ms[n].i)];
  }

  /** One such block after another. */
  lemma {:induction false} GoMoves(l: Leg, ms: seq<Move>, n: nat) returns (l': Leg)
    requires Reached(l) && Moves(l.v, |l.names|, l.since, ms) && n <= |ms|
    requires forall k :: 0 <= k < |ms| ==> ms[k].i < |l.names|
    ensures Reached(l') && Along(l, ms, n, l')
  {
    if n == 0 {
      l' := l;
      assert Headers(ms[..0]) == [] && Blocks(l.names, ms[..0]) == [];
    } else {
      var before := GoMoves(l, ms, n - 1);
      var m := ms[n - 1];
      assert MoveAt(l.v, |l.names|, l.since, ms, n - 1);
      l' := GoPlain(before, m.h, m.i, m.v);
      AlongNext(l, ms, n - 1, before, l');
    }
  }

  // ---------------------------------------------------------------------------------------
  // The first blocks: `a` produces alone, then four producers
  // ---------------------------------------------------------------------------------------

  const V1 := Numbers(2, 1, 2, 0, [2], [0], [])
  const V2 := Numbers(3, 2, 3, 2, [3], [2], [])
  const V3 := Numbers(4, 3, 4, 3, [4, 3, 3, 3], [3, 3, 3, 3], [])
  const V4 := Numbers(5, 4, 4, 3, [5, 3, 3, 3], [4, 3, 3, 3], [2])

  /** Confirming the newest block alone. */
  lemma ConfirmOnce(cc: seq<nat>, i: nat)
    requires 0 < i <= |cc|
    ensures
      var c, r := Decrement8(cc[i - 1]), Confirm(cc, i, 1);
      if c == 0 then r.0 == cc[i..] && r.1 == Some(i - 1) else r.0 == cc[i - 1 := c] && r.1 == None
  {
    var cc' := cc[i - 1 := Decrement8(cc[i - 1])];
    assert Confirm(cc', i - 1, 0) == (cc', None);
  }

  function OneBelow(y: nat, x: nat): nat {
    if y < x then 1 else 0
  }

  lemma CountTwo(a: nat, b: nat, x: nat)
    ensures CountBelow([a, b], x) == OneBelow(a, x) + OneBelow(b, x)
  {
    assert [a, b][..1] == [a];
    assert CountBelow([a], x) == OneBelow(a, x);
  }

  lemma CountFour(a: nat, b: nat, c: nat, d: nat, x: nat)
    ensures CountBelow([a, b, c, d], x) == OneBelow(a, x) + OneBelow(b, x) + OneBelow(c, x) + OneBelow(d, x)
  {
    CountTwo(a, b, x);
    assert [a, b, c][..2] == [a, b];
    assert [a, b, c, d][..3] == [a, b, c];
  }

  /** The first block makes the only producer's schedule active once more. */
  lemma Brings1(a: Name)
    ensures
      var st, h := Genesis(a), Header(1, 0, None);
      Plausible(st) && StepBy(st, h, a).Ok? && At(StepBy(st, h, a).value, [a], [], 0, V1)
  {
    var st := Genesis(a);
    assert Implied(st, a) == map[];
    ConfirmOnce([1], 1);
    assert [1][1..] == [] && Grow([], 1) == [1];
    assert Elems([a]) == {a};
  }

  lemma Brings2(names: seq<Name>)
    ensures BringsPlain(V1, 1, Header(2, 0, Some(names)), 0, V2)
  {
    ConfirmOnce([1], 1);
    assert [1][1..] == [];
    assert [0][0 := 2] == [2];
  }

  lemma Brings3()
    ensures Brings(V2, 1, Header(3, 0, None), 0, V3)
  {
    ConfirmOnce([1], 1);
    assert [1][1..] == [];
    assert [2][0 := 3] == [3];
  }

  lemma Brings4(schedule: Option<seq<Name>>)
    ensures BringsPlain(V3, 4, Header(4, 0, schedule), 0, V4)
  {
    ConfirmOnce([3], 1);
    assert [3][0 := 2] == [2];
    assert [3, 3, 3, 3][0 := 4] == [4, 3, 3, 3];
    CountFour(4, 3, 3, 3, 3);
    CountFour(4, 3, 3, 3, 4);
  }

  lemma FirstOne(a: Name) returns (l: Leg)
    ensures Reached(l) && l == Leg(a, [Header(1, 0, None)], l.ts, [Block(a, 0, 1)], [a], [], 0, V1)
  {
    var t0, h := Trace(Genesis(a), []), Header(1, 0, None);
    Brings1(a);
    assert Run(a, [], [t0]);
    var t1 := Take(t0, h, 0);
    GoOn(a, [], [t0], h, t1);
    l := Leg(a, [] + [h], [t0] + [t1], [Block(a, 0, 1)], [a], [], 0, V1);
  }

  lemma Promotes3(a: Name, four: seq<Name>)
    requires |four| == 4 && NoDup(four) && four[0] == a
    ensures BringsPromoting(V2, [a], four, 3, Header(3, 0, None), 0, V3)
  {
    Brings3();
    NewcomersListed(a, four);
  }

  lemma NewcomersListed(a: Name, four: seq<Name>)
    requires |four| == 4 && NoDup(four) && four[0] == a
    ensures Promoted(V2, [a], four, a, V3)
  {
    forall j | 0 < j < 4
      ensures Entry([a], V2.produced, four[j], 3) == 3 && Entry([a], V2.implied, four[j], 3) == 3
    {
      EntryIs([a], V2.produced, four[j], 3);
      EntryIs([a], V2.implied, four[j], 3);
    }
  }

  /** The blocks of the first producer alone. */
  function Alone(a: Name): seq<Block> {
    [Block(a, 0, 1), Block(a, 0, 1), Block(a, 0, 1)]
  }

  /** The first producer alone, who announces the other three. */
  lemma FirstThree(four: seq<Name>) returns (l: Leg)
    requires |four| == 4 && NoDup(four)
    ensures Reached(l) && |l.hs| == 3 && l == Leg(four[0], l.hs, l.ts, Alone(four[0]), four, [], 3, V3)
  {
    var a := four[0];
    l := FirstOne(a);
    Brings2(four);
    l := GoPlain(l, Header(2, 0, Some(four)), 0, V2);
    Promotes3(a, four);
    l := GoPromoting(l, Header(3, 0, None), 0, V3);
    assert l.hist == Alone(a);
  }

  lemma GoFourth(l: Leg, h: Header, v': Numbers) returns (l': Leg)
    requires |l.names| == 4 && l.pending == [] && Reached(l) && BringsPlain(l.v, 4, h, 0, v')
    ensures Reached(l')
    ensures l' == Leg(
      l.g, l.hs + [h], l'.ts, l.hist + [Block(l.names[0], h.confirmed, 3)], l.names,
      if h.schedule.Some? then h.schedule.value else [], if h.schedule.Some? then v'.n else l.since, v')
  {
    l' := GoPlain(l, h, 0, v');
  }

  /** The first block of the four, with or without a schedule. */
  lemma FirstFour(four: seq<Name>, schedule: Option<seq<Name>>) returns (l: Leg)
    requires |four| == 4 && NoDup(four)
    ensures Reached(l) && |l.hs| == 4
    ensures l == Leg(
      four[0], l.hs, l.ts, Alone(four[0]) + [Block(four[0], 0, 3)], four,
      if schedule.Some? then schedule.value else [], if schedule.Some? then 5 else 3, V4)
  {
    l := FirstThree(four);
    Brings4(schedule);
    l := GoFourth(l, Header(4, 0, schedule), V4);
  }

  // ---------------------------------------------------------------------------------------
  // A new schedule is announced, and half of the four imply it
  // ---------------------------------------------------------------------------------------

  const V5 := Numbers(6, 12, 4, 3, [5, 6, 3, 3], [4, 4, 3, 3], [1, 2])
  const V6 := Numbers(7, 24, 5, 4, [5, 6, 7, 3], [4, 4, 4, 3], [1, 2])
  const V7 := Numbers(8, 25, 5, 4, [5, 6, 8, 3], [4, 4, 5, 3], [1, 2, 2])
  const V8 := Numbers(9, 36, 5, 4, [5, 6, 8, 9], [4, 4, 5, 5], [1, 2, 2, 2])

  const UP_TO_8: seq<Move> := [
    Move(Header(12, 2, None), 1, V5), Move(Header(24, 3, None), 2, V6), Move(Header(25, 0, None), 2, V7),
    Move(Header(36, 0, None), 3, V8)]

  lemma Brings5()
    ensures BringsPlain(V4, 4, Header(12, 2, None), 1, V5)
  {
    assert Confirm([2, 2], 1, 2) == ([1, 2], None) by {
      assert Confirm([1, 2], 0, 1) == ([1, 2], None);
      assert [2, 2][0 := 1] == [1, 2];
    }
    assert [2, 3][1 := 2] == [2, 2];
    assert [4, 3, 3, 3][1 := 4] == [4, 4, 3, 3];
    CountFour(4, 4, 3, 3, 3);
    CountFour(4, 4, 3, 3, 4);
  }

  lemma Brings6()
    ensures BringsPlain(V5, 4, Header(24, 3, None), 2, V6)
  {
    assert Confirm([1, 1, 2], 1, 2) == ([1, 2], Some(0));
    assert [1, 2, 2][1 := 1] == [1, 1, 2];
    assert Confirm([1, 2, 2], 2, 3) == ([1, 2], Some(0));
    assert [1, 2, 3][2 := 2] == [1, 2, 2];
    assert [4, 4, 3, 3][2 := 4] == [4, 4, 4, 3];
    CountFour(4, 4, 4, 3, 4);
    CountFour(4, 4, 4, 3, 5);
  }

  lemma Brings7()
    ensures BringsPlain(V6, 4, Header(25, 0, None), 2, V7)
  {
    assert [1, 2] + [3] == [1, 2, 3];
    ConfirmOnce([1, 2, 3], 3);
    assert [1, 2, 3][2 := 2] == [1, 2, 2];
    assert [4, 4, 4, 3][2 := 5] == [4, 4, 5, 3];
    CountFour(4, 4, 5, 3, 4);
    CountFour(4, 4, 5, 3, 5);
  }

  lemma Brings8()
    ensures BringsPlain(V7, 4, Header(36, 0, None), 3, V8)
  {
    assert [1, 2, 2] + [3] == [1, 2, 2, 3];
    ConfirmOnce([1, 2, 2, 3], 4);
    assert [1, 2, 2, 3][3 := 2] == [1, 2, 2, 2];
    assert [4, 4, 5, 3][3 := 5] == [4, 4, 5, 5];
    CountFour(4, 4, 5, 5, 4);
    CountFour(4, 4, 5, 5, 5);
  }

  lemma MovesUpTo8()
    ensures Moves(V4, 4, 5, UP_TO_8)
  {
    forall k | 0 <= k < 4
      ensures MoveAt(V4, 4, 5, UP_TO_8, k)
    {
      Brings5();
      Brings6();
      Brings7();
      Brings8();
    }
  }

  /** What the four produce before the schedule they announce is promoted. */
  function BeforePromotion(four: seq<Name>): seq<Block>
    requires |four| == 4
  {
    Alone(four[0])
    + [Block(four[0], 0, 3), Block(four[1], 2, 3), Block(four[2], 3, 3), Block(four[2], 0, 3), Block(four[3], 0, 3)]
  }

  lemma Announced(four: seq<Name>, next: seq<Name>) returns (l: Leg)
    requires |four| == 4 && NoDup(four)
    ensures Reached(l) && |l.hs| == 8 && l == Leg(four[0], l.hs, l.ts, BeforePromotion(four), four, next, 5, V8)
  {
    l := FirstFour(four, Some(next));
    MovesUpTo8();
    l := GoMoves(l, UP_TO_8, 4);
    assert UP_TO_8[..4] == UP_TO_8;
    assert l.hist == BeforePromotion(four);
  }

  // ---------------------------------------------------------------------------------------
  // The first two producers go on alone, and the second is behind
  // ---------------------------------------------------------------------------------------

  const V9 := Numbers(10, 48, 5, 5, [10, 6], [5, 4], [1, 2, 2, 2, 2])
  const V10 := Numbers(11, 49, 5, 4, [11, 6], [5, 4], [1, 2, 2, 2, 2, 1])

  /** The numbers that promoting brings, whatever the new schedule is. */
  lemma Brings9(v': Numbers)
    requires v'.n == 10 && v'.slot == 48 && v'.proposed == 5 && v'.lib == 5 && v'.counts == [1, 2, 2, 2, 2]
    ensures Brings(V8, 4, Header(48, 0, None), 0, v')
  {
    assert [1, 2, 2, 2] + [3] == [1, 2, 2, 2, 3];
    ConfirmOnce([1, 2, 2, 2, 3], 5);
    assert [1, 2, 2, 2, 3][4 := 2] == [1, 2, 2, 2, 2];
    assert [4, 4, 5, 5][0 := 5] == [5, 4, 5, 5];
    CountFour(5, 4, 5, 5, 5);
    CountFour(5, 4, 5, 5, 6);
  }

  lemma Brings10()
    ensures Brings(V9, 2, Header(49, 0, None), 0, V10)
  {
    assert [1, 2, 2, 2, 2] + [2] == [1, 2, 2, 2, 2, 2];
    ConfirmOnce([1, 2, 2, 2, 2, 2], 6);
    assert [1, 2, 2, 2, 2, 2][5 := 1] == [1, 2, 2, 2, 2, 1];
    assert [5, 4][0 := 5] == [5, 4];
    CountTwo(5, 4, 4);
    CountTwo(5, 4, 5);
  }

  lemma Promotes9(four: seq<Name>)
    requires |four| == 4 && NoDup(four)
    ensures BringsPromoting(V8, four, four[..2], 5, Header(48, 0, None), 0, V9)
  {
    Brings9(V9);
    assert four[1..][0] == four[1];
    assert four[..2][0] == four[0];
  }

  /** The first producer's block that promotes the announced schedule. */
  lemma GoNinth(l: Leg, v': Numbers) returns (l': Leg)
    requires |l.names| == 4 && Reached(l) && BringsPromoting(l.v, l.names, l.pending, l.since, Header(48, 0, None), 0, v')
    ensures Reached(l') && |l'.ts| == |l.ts| + 1 && l.ts <= l'.ts && l'.ts[|l.ts|].st.irreversible == v'.lib
    ensures l' == Leg(l.g, l.hs + [Header(48, 0, None)], l'.ts, l.hist + [Block(l.names[0], 0, 3)], l.pending, [], l.since, v')
  {
    l' := GoPromoting(l, Header(48, 0, None), 0, v');
  }

  lemma LastOfTwo(l: Leg) returns (t: Trace)
    requires |l.names| == 2 && l.v == V9 && Reached(l)
    ensures Run(l.g, l.hs + [Header(49, 0, None)], l.ts + [t]) && t.st.irreversible == 4
    ensures t.hist == l.hist + [Block(l.names[0], 0, 2)]
  {
    Brings10();
    t := GoLast(l, Header(49, 0, None), 0, V10);
  }

  lemma LastTwo(l: Leg, four: seq<Name>) returns (l9: Leg, t: Trace)
    requires |four| == 4 && NoDup(four) && Reached(l)
    requires l == Leg(four[0], l.hs, l.ts, BeforePromotion(four), four, four[..2], 5, V8)
    ensures |l9.hs| == |l.hs| + 1 && |l9.ts| == |l.ts| + 1 && l9.ts[|l.ts|].st.irreversible == 5
    ensures Run(four[0], l9.hs + [Header(49, 0, None)], l9.ts + [t]) && t.st.irreversible == 4
    ensures t.hist == BeforePromotion(four) + [Block(four[0], 0, 3)] + [Block(four[0], 0, 2)]
  {
    Promotes9(four);
    l9 := GoNinth(l, V9);
    t := LastOfTwo(l9);
  }

  /** For any four producers there is a run of ten headers, none of them out of range, whose last one
      moves the irreversible block from 5 back to 4. */
  lemma IrreversibleMovesBack(four: seq<Name>) returns (hs: seq<Header>, ts: seq<Trace>)
    requires |four| == 4 && NoDup(four)
    ensures Run(four[0], hs, ts) && |hs| == 10 && Honest(ts[10].hist)
    ensures ts[9].st.irreversible == 5 && ts[10].st.irreversible == 4
  {
    var l := Announced(four, four[..2]);
    var l9, t := LastTwo(l, four);
    hs, ts := l9.hs + [Header(49, 0, None)], l9.ts + [t];
    InRangeIsHonest(t.hist);
  }

  lemma InRangeIsHonest(hist: seq<Block>)
    requires forall k :: 0 <= k < |hist| ==> hist[k].confirmed <= k + 2
    ensures Honest(hist)
  {
  }

  // ---------------------------------------------------------------------------------------
  // Two branches, one of which promotes the new schedule first
  // ---------------------------------------------------------------------------------------

  const X9 := Numbers(10, 72, 5, 4, [5, 6, 10, 9], [4, 4, 5, 5], [1, 2, 2, 2, 2])
  const X10 := Numbers(11, 84, 5, 4, [5, 6, 10, 11], [4, 4, 5, 5], [1, 2, 2, 2, 1, 2])
  const X11 := Numbers(12, 108, 10, 5, [], [], [1, 2])
  const Y9 := Numbers(10, 48, 5, 5, [10], [5], [1, 2, 2, 2, 2])
  const Y10 := Numbers(11, 49, 11, 5, [], [], [])

  const UP_TO_10: seq<Move> := [Move(Header(72, 0, None), 2, X9), Move(Header(84, 1, None), 3, X10)]

  lemma OtherBrings9()
    ensures BringsPlain(V8, 4, Header(72, 0, None), 2, X9)
  {
    assert [1, 2, 2, 2] + [3] == [1, 2, 2, 2, 3];
    ConfirmOnce([1, 2, 2, 2, 3], 5);
    assert [1, 2, 2, 2, 3][4 := 2] == [1, 2, 2, 2, 2];
    assert [4, 4, 5, 5][2 := 5] == [4, 4, 5, 5];
    CountFour(4, 4, 5, 5, 4);
    CountFour(4, 4, 5, 5, 5);
  }

  lemma OtherBrings10()
    ensures BringsPlain(X9, 4, Header(84, 1, None), 3, X10)
  {
    assert [1, 2, 2, 2, 2] + [3] == [1, 2, 2, 2, 2, 3];
    ConfirmOnce([1, 2, 2, 2, 2, 2], 5);
    assert [1, 2, 2, 2, 2, 3][5 := 2] == [1, 2, 2, 2, 2, 2];
    assert [1, 2, 2, 2, 2, 2][4 := 1] == [1, 2, 2, 2, 1, 2];
    assert [4, 4, 5, 5][3 := 5] == [4, 4, 5, 5];
    CountFour(4, 4, 5, 5, 4);
    CountFour(4, 4, 5, 5, 5);
  }

  lemma OtherBrings11()
    ensures Brings(X10, 4, Header(108, 2, None), 1, X11)
  {
    assert [1, 2, 2, 2, 1, 2] + [3] == [1, 2, 2, 2, 1, 2, 3];
    ConfirmOnce([1, 2, 2, 2, 1, 1, 2], 5);
    assert [1, 2, 2, 2, 1, 2, 3][6 := 2] == [1, 2, 2, 2, 1, 2, 2];
    assert [1, 2, 2, 2, 1, 2, 2][5 := 1] == [1, 2, 2, 2, 1, 1, 2];
    assert [1, 2, 2, 2, 1, 1, 2][5..] == [1, 2];
    assert [4, 4, 5, 5][1 := 5] == [4, 5, 5, 5];
    CountFour(4, 5, 5, 5, 5);
    CountFour(4, 5, 5, 5, 6);
  }

  lemma AloneBrings10()
    ensures Brings(Y9, 1, Header(49, 0, None), 0, Y10)
  {
    assert [1, 2, 2, 2, 2] + [1] == [1, 2, 2, 2, 2, 1];
    ConfirmOnce([1, 2, 2, 2, 2, 1], 6);
    assert [5][0 := 5] == [5];
    assert CountBelow([5], 5) == 0 && CountBelow([5], 6) == 1;
  }

  /** The branch on which the first producer's block promotes, and goes on alone. */
  lemma PromotingBranch(l: Leg, four: seq<Name>) returns (t9: Trace, t10: Trace)
    requires |four| == 4 && NoDup(four) && Reached(l)
    requires l == Leg(four[0], l.hs, l.ts, BeforePromotion(four), four, four[..1], 5, V8)
    ensures Run(four[0], l.hs + [Header(48, 0, None)] + [Header(49, 0, None)], l.ts + [t9] + [t10])
    ensures t10.st.proposed == 11 && t10.hist == BeforePromotion(four) + [Block(four[0], 0, 3)] + [Block(four[0], 0, 1)]
  {
    Brings9(Y9);
    assert four[..1][0] == four[0];
    var l9 := GoNinth(l, Y9);
    t9 := l9.ts[|l.ts|];
    assert l9.ts == l.ts + [t9];
    AloneBrings10();
    t10 := GoLast(l9, Header(49, 0, None), 0, Y10);
  }

  lemma MovesUpTo10()
    ensures Moves(V8, 4, 5, UP_TO_10)
  {
    forall k | 0 <= k < 2
      ensures MoveAt(V8, 4, 5, UP_TO_10, k)
    {
      OtherBrings9();
      OtherBrings10();
    }
  }

  /** The branch on which the other three propose a block before they promote. */
  lemma ProposingBranch(l: Leg, four: seq<Name>) returns (l': Leg, t: Trace)
    requires |four| == 4 && NoDup(four) && Reached(l)
    requires l == Leg(four[0], l.hs, l.ts, BeforePromotion(four), four, four[..1], 5, V8)
    ensures l'.hs == l.hs + [Header(72, 0, None), Header(84, 1, None)] && l.ts <= l'.ts
    ensures Run(four[0], l'.hs + [Header(108, 2, None)], l'.ts + [t])
    ensures t.st.proposed == 10
    ensures t.hist == BeforePromotion(four) + [Block(four[2], 0, 3), Block(four[3], 1, 3)] + [Block(four[1], 2, 3)]
  {
    MovesUpTo10();
    l' := GoMoves(l, UP_TO_10, 2);
    assert UP_TO_10[..2] == UP_TO_10;
    assert Headers(UP_TO_10) == [Header(72, 0, None), Header(84, 1, None)];
    assert Blocks(four, UP_TO_10) == [Block(four[2], 0, 3), Block(four[3], 1, 3)];
    OtherBrings11();
    t := GoLast(l', Header(108, 2, None), 1, X11);
  }

  /** No producer has a block in both lists from number `from` on. */
  predicate Apart(hist: seq<Block>, hist': seq<Block>, from: nat) {
    forall i, j :: from <= i < |hist| && from <= j < |hist'| ==> hist[i].producer != hist'[j].producer
  }

  lemma ThreeAgainstOne(four: seq<Name>, hist: seq<Block>, hist': seq<Block>)
    requires |four| == 4 && NoDup(four)
    requires hist == BeforePromotion(four) + [Block(four[2], 0, 3), Block(four[3], 1, 3)] + [Block(four[1], 2, 3)]
    requires hist' == BeforePromotion(four) + [Block(four[0], 0, 3)] + [Block(four[0], 0, 1)]
    ensures Honest(hist) && Honest(hist') && Apart(hist, hist', 8)
    ensures Confirmers(hist, 10) == {four[1], four[2], four[3]} && Confirmers(hist', 11) == {four[0]}
  {
    InRangeIsHonest(hist);
    InRangeIsHonest(hist');
    assert Covers(hist, 8, 10) && Covers(hist, 9, 10) && Covers(hist, 10, 10) && Covers(hist', 9, 11);
    assert hist[8].producer == four[2] && hist[9].producer == four[3] && hist[10].producer == four[1];
    assert hist'[9].producer == four[0];
  }

  /**
   * Across a promotion two branches can propose conflicting blocks although nobody produces on both:
   * three of four producers propose block 10 on one, and on the other, where the fourth one's block
   * promotes a schedule of that producer alone, block 11 is proposed.
   */
  lemma PromotionForks(four: seq<Name>) returns (hs: seq<Header>, ts: seq<Trace>, hs': seq<Header>, ts': seq<Trace>)
    requires |four| == 4 && NoDup(four)
    ensures Run(four[0], hs, ts) && Run(four[0], hs', ts') && |hs| == 11 && |hs'| == 10 && hs[..8] == hs'[..8]
    ensures Honest(ts[11].hist) && Honest(ts'[10].hist) && Apart(ts[11].hist, ts'[10].hist, 8)
    ensures ts[8].st.blockNum == 9 && ts[11].st.proposed == 10 && ts'[10].st.proposed == 11
    ensures Confirmers(ts[11].hist, 10) == {four[1], four[2], four[3]} && Confirmers(ts'[10].hist, 11) == {four[0]}
  {
    var l := Announced(four, four[..1]);
    var l1, t1 := ProposingBranch(l, four);
    var t9, t10 := PromotingBranch(l, four);
    hs, ts := l1.hs + [Header(108, 2, None)], l1.ts + [t1];
    hs', ts' := l.hs + [Header(48, 0, None)] + [Header(49, 0, None)], l.ts + [t9] + [t10];
    ThreeAgainstOne(four, t1.hist, t10.hist);
    RunShape(four[0], hs, ts, 8);
    assert hs[..8] == l.hs && hs'[..8] == l.hs;
  }

  // ---------------------------------------------------------------------------------------
  // Out of range, one producer makes up a quorum of three
  // ---------------------------------------------------------------------------------------

  const W5 := Numbers(6, 5, 4, 3, [6, 3, 3, 3], [4, 3, 3, 3], [1, 2])
  const W6 := Numbers(7, 6, 5, 3, [7, 3, 3, 3], [4, 3, 3, 3], [1, 2])

  lemma Repeats5()
    ensures BringsPlain(V4, 4, Header(5, 9, None), 0, W5)
  {
    assert Confirm([1, 2], 0, 8) == ([1, 2], None);
    assert [2, 2][0 := 1] == [1, 2];
    assert Confirm([2, 2], 1, 9) == ([1, 2], None);
    assert [2, 3][1 := 2] == [2, 2];
    assert [4, 3, 3, 3][0 := 4] == [4, 3, 3, 3];
    CountFour(4, 3, 3, 3, 3);
    CountFour(4, 3, 3, 3, 4);
  }

  lemma Repeats6()
    ensures Brings(W5, 4, Header(6, 9, None), 0, W6)
  {
    assert Confirm([1, 1, 2], 1, 8) == ([1, 2], Some(0));
    assert [1, 2, 2][1 := 1] == [1, 1, 2];
    assert Confirm([1, 2, 2], 2, 9) == ([1, 2], Some(0));
    assert [1, 2, 3][2 := 2] == [1, 2, 2];
    assert [4, 3, 3, 3][0 := 4] == [4, 3, 3, 3];
    CountFour(4, 3, 3, 3, 3);
    CountFour(4, 3, 3, 3, 4);
  }

  lemma OneConfirms(a: Name, hist: seq<Block>)
    requires hist == Alone(a) + [Block(a, 0, 3)] + [Block(a, 9, 3)] + [Block(a, 9, 3)]
    ensures !Honest(hist) && Confirmers(hist, 5) == {a} && hist[3].quorum == 3
  {
    assert hist[0].producer == hist[5].producer;
    assert !HonestAt(hist, 5);
    assert Covers(hist, 5, 5) && hist[5].producer == a;
    assert forall k :: 0 <= k < |hist| ==> hist[k].producer == a;
  }

  lemma Repeated(l: Leg) returns (l5: Leg, t: Trace)
    requires |l.names| == 4 && l.pending == [] && l.v == V4 && Reached(l)
    ensures l5.hs == l.hs + [Header(5, 9, None)] && Run(l.g, l5.hs + [Header(6, 9, None)], l5.ts + [t]) && t.st.proposed == 5
    ensures t.hist == l.hist + [Block(l.names[0], 9, 3)] + [Block(l.names[0], 9, 3)]
  {
    Repeats5();
    l5 := GoFourth(l, Header(5, 9, None), W5);
    Repeats6();
    t := GoLast(l5, Header(6, 9, None), 0, W6);
  }

  /** Then a block is proposed that one producer alone has confirmed, instead of three. */
  lemma QuorumNeedsHonesty(four: seq<Name>) returns (hs: seq<Header>, ts: seq<Trace>)
    requires |four| == 4 && NoDup(four)
    ensures Run(four[0], hs, ts) && |hs| == 6 && !Honest(ts[6].hist)
    ensures ts[6].st.proposed == 5 && Confirmers(ts[6].hist, 5) == {four[0]} && ts[6].hist[3].quorum == 3
    ensures HasVotes(ts[6].hist, 5) && !HasQuorum(ts[6].hist, 5)
  {
    var l := FirstFour(four, None);
    var l5, t := Repeated(l);
    hs, ts := l5.hs + [Header(6, 9, None)], l5.ts + [t];
    OneConfirms(four[0], t.hist);
    ProposedHasVotes(four[0], hs, ts, 6);
  }
}
