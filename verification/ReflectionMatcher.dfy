/** The field matching loop of validate_file (tools/validate_reflection.py, lines 631-694). */
module ReflectionMatcher {
  import opened Collections
  import opened FieldLists

  /** One constructor per assertion of the loop and of the checks after it. */
  datatype Check =
    | SwapNotReflected
    | SwapInOrder
    | ForwardNotReflected
    | IgnoredIsReflected
    | IgnoreInOrder
    | FieldMismatch
    | LeftoverIgnores
    | UnknownReflected
    | LeftoverSwaps
    | BackNeverProvided
    | ForwardNotInClass

  datatype Verdict = Accept | Reject(check: Check)

  /** The loop's variables; `seen` is the source's local list `ignored`. */
  datatype State = State(
    f: nat, r: nat,
    swapped: seq<Field>, ignored: seq<Field>,
    back: seq<Field>, fwd: seq<Field>, seen: seq<Field>)

  datatype StepResult = Next(st: State) | Stop(check: Check)

  /** One iteration of the loop over class fields `F` and reflected fields `R`. */
  function Step(F: seq<Field>, R: seq<Field>, st: State): StepResult
    requires st.f < |F| && st.r <= |R|
  {
    var field := F[st.f];
    var more := st.r < |R|;
    if field in st.swapped then
      if field !in R then Stop(SwapNotReflected)
      else if more && R[st.r] == field then Stop(SwapInOrder)
      else Next(st.(swapped := Remove(st.swapped, field), back := st.back + [field], f := st.f + 1))
    else if more && R[st.r] in st.swapped then
      if R[st.r] !in R then Stop(ForwardNotReflected)
      else Next(st.(swapped := Remove(st.swapped, R[st.r]), fwd := st.fwd + [R[st.r]], r := st.r + 1))
    else if more && R[st.r] in st.seen then Stop(IgnoredIsReflected)
    else if field in st.ignored then
      if more && R[st.r] == field then Stop(IgnoreInOrder)
      else Next(st.(ignored := Remove(st.ignored, field), seen := st.seen + [field], f := st.f + 1))
    else if more && R[st.r] in st.back then
      Next(st.(back := Remove(st.back, R[st.r]), r := st.r + 1))
    else if field in st.fwd then
      Next(st.(fwd := Remove(st.fwd, field), f := st.f + 1))
    else if !more || R[st.r] != field then Stop(FieldMismatch)
    else Next(st.(f := st.f + 1, r := st.r + 1))
  }

  /** The second loop: what is left of `back` and of the reflected fields not matched in it. */
  function Drain(rest: seq<Field>, back: seq<Field>): (seq<Field>, seq<Field>) {
    if rest == [] then (back, [])
    else if rest[0] in back then Drain(rest[1..], Remove(back, rest[0]))
    else var (b, unused) := Drain(rest[1..], back); (b, [rest[0]] + unused)
  }

  function Finish(R: seq<Field>, st: State): Verdict
    requires st.r <= |R|
  {
    if st.ignored != [] then Reject(LeftoverIgnores) else
    var (back, unused) := Drain(R[st.r..], st.back);
    if unused != [] then Reject(UnknownReflected)
    else if st.swapped != [] then Reject(LeftoverSwaps)
    else if back != [] then Reject(BackNeverProvided)
    else if st.fwd != [] then Reject(ForwardNotInClass)
    else Accept
  }

  function Run(F: seq<Field>, R: seq<Field>, st: State): Verdict
    requires st.f <= |F| && st.r <= |R|
    decreases |F| - st.f + |R| - st.r
  {
    if st.f == |F| then Finish(R, st)
    else match Step(F, R, st)
      case Stop(c) => Reject(c)
      case Next(st') => Run(F, R, st')
  }

  function Initial(S: seq<Field>, I: seq<Field>): State {
    State(0, 0, S, I, [], [], [])
  }

  function Verify(F: seq<Field>, R: seq<Field>, S: seq<Field>, I: seq<Field>): Verdict {
    Run(F, R, Initial(S, I))
  }

  // ---------------------------------------------------------------------------------------
  // What acceptance should mean
  // ---------------------------------------------------------------------------------------

  /** What the record-building code guarantees of reflected, swapped and ignored fields. */
  predicate WellFormedRecord(R: seq<Field>, S: seq<Field>, I: seq<Field>) {
    NoDup(R) && NoDup(S) && NoDup(I) && forall x :: x in S && x in I ==> x !in R
  }

  /** Ignored fields are in the class only, swapped ones in both lists, and the rest in both or neither. */
  predicate Placed(F: seq<Field>, R: seq<Field>, S: seq<Field>, I: seq<Field>, x: Field) {
    && (x in I ==> x in F && x !in R)
    && (x in S ==> x in F && x in R)
    && (x in R <==> x in F && x !in I)
  }

  /** The class and the reflection list the same fields, in the same order apart from the swaps. */
  ghost predicate Corresponds(F: seq<Field>, R: seq<Field>, S: seq<Field>, I: seq<Field>) {
    && NoDup(F)
    && (forall x :: Placed(F, R, S, I, x))
    && Without(F, Elems(I) + Elems(S)) == Without(R, Elems(S))
  }

  /** Positions `k` of the class and `j` of the reflection both start right after the same unswapped field. */
  predicate SameAnchor(F: seq<Field>, R: seq<Field>, S: seq<Field>, k: nat, j: nat)
    requires k <= |F| && j <= |R|
  {
    (k == 0 && j == 0) || (k > 0 && j > 0 && F[k - 1] == R[j - 1] && F[k - 1] !in S)
  }

  /**
   * The swapped field at F[i] and R[j] opens its reflected run right after an unswapped field
   * (or at the start), and in the class only swapped fields that are reflected later separate
   * it from that same field.
   */
  predicate RedundantSwap(F: seq<Field>, R: seq<Field>, S: seq<Field>, k: nat, i: nat, j: nat) {
    && k <= i < |F| && j < |R|
    && F[i] == R[j] && F[i] in S
    && SameAnchor(F, R, S, k, j)
    && forall m :: k <= m < i ==> F[m] in S && F[m] !in R[..j + 1]
  }

  ghost predicate NoRedundantSwap(F: seq<Field>, R: seq<Field>, S: seq<Field>) {
    !exists k: nat, i: nat, j: nat :: RedundantSwap(F, R, S, k, i, j)
  }

  // ---------------------------------------------------------------------------------------
  // The loop invariant
  // ---------------------------------------------------------------------------------------

  /** Where one field name stands: what its membership in each list says about the others. */
  ghost predicate Tracked(F: seq<Field>, R: seq<Field>, S: seq<Field>, I: seq<Field>, st: State, x: Field)
    requires st.f <= |F| && st.r <= |R|
  {
    var inF, inR := x in F[..st.f], x in R[..st.r];
    var taken := x in S && x !in st.swapped;
    && (x in st.swapped ==> x in S && !inF && !inR)
    && (x in st.ignored ==> x in I && !inF)
    && (x in st.seen <==> x in I && x !in st.ignored)
    && (x in st.seen ==> inF)
    && (taken ==> x in R && (inF || inR))
    && (x in st.back <==> taken && inF && !inR)
    && (x in st.fwd <==> taken && inR && !inF)
    && (inR ==> x !in I)
  }

  ghost predicate Inv(F: seq<Field>, R: seq<Field>, S: seq<Field>, I: seq<Field>, st: State) {
    && st.f <= |F| && st.r <= |R|
    && NoDup(st.swapped) && NoDup(st.ignored) && NoDup(st.back) && NoDup(st.fwd)
    && NoDup(F[..st.f])
    && (forall x :: Tracked(F, R, S, I, st, x))
    && Without(F[..st.f], Elems(I) + Elems(S)) == Without(R[..st.r], Elems(S))
  }

  lemma InvInitial(F: seq<Field>, R: seq<Field>, S: seq<Field>, I: seq<Field>)
    requires WellFormedRecord(R, S, I)
    ensures Inv(F, R, S, I, Initial(S, I))
  {
  }

  /** Facts about the two current fields that every branch of the step needs. */
  lemma AtCursor(F: seq<Field>, R: seq<Field>, S: seq<Field>, I: seq<Field>, st: State)
    requires WellFormedRecord(R, S, I) && Inv(F, R, S, I, st) && st.f < |F|
    ensures F[..st.f + 1] == F[..st.f] + [F[st.f]]
    ensures Without(F[..st.f + 1], Elems(I) + Elems(S)) ==
            Without(F[..st.f], Elems(I) + Elems(S)) + (if F[st.f] in I || F[st.f] in S then [] else [F[st.f]])
    ensures Tracked(F, R, S, I, st, F[st.f])
    ensures st.r < |R| ==>
      && R[..st.r + 1] == R[..st.r] + [R[st.r]] && R[st.r] !in R[..st.r]
      && Without(R[..st.r + 1], Elems(S)) == Without(R[..st.r], Elems(S)) + (if R[st.r] in S then [] else [R[st.r]])
      && Tracked(F, R, S, I, st, R[st.r])
  {
    NextPlain(F, st.f, Elems(I) + Elems(S));
    if st.r < |R| {
      NextPlain(R, st.r, Elems(S));
      NoDupSplit(R, st.r, st.r);
    }
  }

  lemma NextPlain(s: seq<Field>, n: nat, drop: set<Field>)
    requires n < |s|
    ensures s[..n + 1] == s[..n] + [s[n]]
    ensures Without(s[..n + 1], drop) == Without(s[..n], drop) + (if s[n] in drop then [] else [s[n]])
  {
    WithoutSnoc(s, n, drop);
  }

  lemma StepBack(F: seq<Field>, R: seq<Field>, S: seq<Field>, I: seq<Field>, st: State)
    requires WellFormedRecord(R, S, I) && Inv(F, R, S, I, st) && st.f < |F|
    requires F[st.f] in st.swapped && Step(F, R, st).Next?
    ensures Inv(F, R, S, I, Step(F, R, st).st)
  {
    var x, st' := F[st.f], Step(F, R, st).st;
    AtCursor(F, R, S, I, st);
    RemoveFromNoDup(st.swapped, x);
    NoDupAppend(st.back, x);
    NoDupAppend(F[..st.f], x);
    forall y ensures Tracked(F, R, S, I, st', y) {
      assert Tracked(F, R, S, I, st, y);
    }
  }

  lemma StepForward(F: seq<Field>, R: seq<Field>, S: seq<Field>, I: seq<Field>, st: State)
    requires WellFormedRecord(R, S, I) && Inv(F, R, S, I, st) && st.f < |F| && st.r < |R|
    requires F[st.f] !in st.swapped && R[st.r] in st.swapped
    ensures Step(F, R, st).Next? && Inv(F, R, S, I, Step(F, R, st).st)
  {
    var x, st' := R[st.r], Step(F, R, st).st;
    AtCursor(F, R, S, I, st);
    RemoveFromNoDup(st.swapped, x);
    NoDupAppend(st.fwd, x);
    forall y ensures Tracked(F, R, S, I, st', y) {
      assert Tracked(F, R, S, I, st, y);
    }
  }

  lemma StepIgnore(F: seq<Field>, R: seq<Field>, S: seq<Field>, I: seq<Field>, st: State)
    requires WellFormedRecord(R, S, I) && Inv(F, R, S, I, st) && st.f < |F|
    requires F[st.f] !in st.swapped && (st.r < |R| ==> R[st.r] !in st.swapped)
    requires F[st.f] in st.ignored && Step(F, R, st).Next?
    ensures Inv(F, R, S, I, Step(F, R, st).st)
  {
    var x, st' := F[st.f], Step(F, R, st).st;
    AtCursor(F, R, S, I, st);
    RemoveFromNoDup(st.ignored, x);
    NoDupAppend(F[..st.f], x);
    forall y ensures Tracked(F, R, S, I, st', y) {
      assert Tracked(F, R, S, I, st, y);
    }
  }

  lemma StepMeetBack(F: seq<Field>, R: seq<Field>, S: seq<Field>, I: seq<Field>, st: State)
    requires WellFormedRecord(R, S, I) && Inv(F, R, S, I, st) && st.f < |F| && st.r < |R|
    requires F[st.f] !in st.swapped && R[st.r] !in st.swapped && F[st.f] !in st.ignored
    requires R[st.r] in st.back && Step(F, R, st).Next?
    ensures Inv(F, R, S, I, Step(F, R, st).st)
  {
    var x, st' := R[st.r], Step(F, R, st).st;
    AtCursor(F, R, S, I, st);
    RemoveFromNoDup(st.back, x);
    forall y ensures Tracked(F, R, S, I, st', y) {
      assert Tracked(F, R, S, I, st, y);
    }
  }

  lemma StepMeetForward(F: seq<Field>, R: seq<Field>, S: seq<Field>, I: seq<Field>, st: State)
    requires WellFormedRecord(R, S, I) && Inv(F, R, S, I, st) && st.f < |F|
    requires F[st.f] !in st.swapped && F[st.f] !in st.ignored && F[st.f] in st.fwd
    requires st.r < |R| ==> R[st.r] !in st.swapped && R[st.r] !in st.back
    requires Step(F, R, st).Next?
    ensures Inv(F, R, S, I, Step(F, R, st).st)
  {
    var x, st' := F[st.f], Step(F, R, st).st;
    AtCursor(F, R, S, I, st);
    RemoveFromNoDup(st.fwd, x);
    NoDupAppend(F[..st.f], x);
    forall y ensures Tracked(F, R, S, I, st', y) {
      assert Tracked(F, R, S, I, st, y);
    }
  }

  /** Two equal fields that no list claims are outside both the swaps and the ignores. */
  lemma StepMatch(F: seq<Field>, R: seq<Field>, S: seq<Field>, I: seq<Field>, st: State)
    requires WellFormedRecord(R, S, I) && Inv(F, R, S, I, st) && st.f < |F| && st.r < |R|
    requires F[st.f] == R[st.r] && R[st.r] !in st.swapped && R[st.r] !in st.seen
    requires F[st.f] !in st.ignored && R[st.r] !in st.back && F[st.f] !in st.fwd
    ensures F[st.f] !in S && F[st.f] !in I
    ensures Step(F, R, st).Next? && Inv(F, R, S, I, Step(F, R, st).st)
  {
    var x, st' := F[st.f], Step(F, R, st).st;
    AtCursor(F, R, S, I, st);
    WithoutMembers(F[..st.f], Elems(I) + Elems(S));
    WithoutMembers(R[..st.r], Elems(S));
    NoDupAppend(F[..st.f], x);
    forall y ensures Tracked(F, R, S, I, st', y) {
      assert Tracked(F, R, S, I, st, y);
    }
  }

  lemma InvStep(F: seq<Field>, R: seq<Field>, S: seq<Field>, I: seq<Field>, st: State)
    requires WellFormedRecord(R, S, I) && Inv(F, R, S, I, st) && st.f < |F|
    requires Step(F, R, st).Next?
    ensures Inv(F, R, S, I, Step(F, R, st).st)
  {
    if F[st.f] in st.swapped {
      StepBack(F, R, S, I, st);
    } else if st.r < |R| && R[st.r] in st.swapped {
      StepForward(F, R, S, I, st);
    } else if F[st.f] in st.ignored {
      StepIgnore(F, R, S, I, st);
    } else if st.r < |R| && R[st.r] in st.back {
      StepMeetBack(F, R, S, I, st);
    } else if F[st.f] in st.fwd {
      StepMeetForward(F, R, S, I, st);
    } else {
      StepMatch(F, R, S, I, st);
    }
  }

  // ---------------------------------------------------------------------------------------
  // Soundness: acceptance implies correspondence
  // ---------------------------------------------------------------------------------------

  lemma {:induction false} DrainResult(rest: seq<Field>, back: seq<Field>)
    requires NoDup(rest) && NoDup(back)
    ensures Drain(rest, back).1 == [] <==> forall x :: x in rest ==> x in back
    ensures forall x :: x in Drain(rest, back).0 <==> x in back && x !in rest
  {
    if rest != [] {
      var back' := if rest[0] in back then Remove(back, rest[0]) else back;
      RemoveFromNoDup(back, rest[0]);
      DrainResult(rest[1..], back');
      assert rest == [rest[0]] + rest[1..];
      assert rest[0] !in rest[1..];
      if rest[0] in back {
        assert (forall x :: x in rest ==> x in back) <==> (forall x :: x in rest[1..] ==> x in back');
      }
    }
  }

  /** When `Finish` accepts, every reflected field left over waits in `back`, and nothing else waits. */
  lemma FinishAccepts(R: seq<Field>, st: State)
    requires st.r <= |R| && NoDup(R) && NoDup(st.back)
    ensures Finish(R, st).Accept? <==>
      && st.ignored == [] && st.swapped == [] && st.fwd == []
      && forall x :: x in R[st.r..] <==> x in st.back
  {
    DrainResult(R[st.r..], st.back);
    NoMembers(Drain(R[st.r..], st.back).0);
  }

  lemma NoMembers(s: seq<Field>)
    ensures (forall x :: x !in s) ==> s == []
  {
    if s != [] {
      assert s[0] in s;
    }
  }

  /** When `Finish` accepts, the leftover reflected fields are all swapped ones. */
  lemma FinishOrder(F: seq<Field>, R: seq<Field>, S: seq<Field>, I: seq<Field>, st: State)
    requires WellFormedRecord(R, S, I) && Inv(F, R, S, I, st) && st.f == |F|
    requires forall x :: x in R[st.r..] <==> x in st.back
    ensures Without(F, Elems(I) + Elems(S)) == Without(R, Elems(S))
  {
    assert F[..st.f] == F;
    assert R == R[..st.r] + R[st.r..];
    WithoutConcat(R[..st.r], R[st.r..], Elems(S));
    forall x | x in R[st.r..] ensures x in Elems(S) {
      assert Tracked(F, R, S, I, st, x);
    }
    WithoutMembers(R[st.r..], Elems(S));
    NoMembers(Without(R[st.r..], Elems(S)));
  }

  lemma FinishSound(F: seq<Field>, R: seq<Field>, S: seq<Field>, I: seq<Field>, st: State)
    requires WellFormedRecord(R, S, I) && Inv(F, R, S, I, st) && st.f == |F|
    requires Finish(R, st).Accept?
    ensures Corresponds(F, R, S, I)
  {
    FinishAccepts(R, st);
    FinishOrder(F, R, S, I, st);
    assert F[..st.f] == F;
    WithoutMembers(F, Elems(I) + Elems(S));
    WithoutMembers(R, Elems(S));
    forall x ensures Placed(F, R, S, I, x) {
      assert Tracked(F, R, S, I, st, x);
      NoDupParts(R, st.r, x);
      assert x in Without(F, Elems(I) + Elems(S)) <==> x in Without(R, Elems(S));
    }
  }

  lemma {:induction false} RunSound(F: seq<Field>, R: seq<Field>, S: seq<Field>, I: seq<Field>, st: State)
    requires WellFormedRecord(R, S, I) && Inv(F, R, S, I, st)
    requires Run(F, R, st).Accept?
    ensures Corresponds(F, R, S, I)
    decreases |F| - st.f + |R| - st.r
  {
    if st.f == |F| {
      FinishSound(F, R, S, I, st);
    } else {
      InvStep(F, R, S, I, st);
      RunSound(F, R, S, I, Step(F, R, st).st);
    }
  }

  // ---------------------------------------------------------------------------------------
  // Completeness: on corresponding lists only the in-order swap check can fire
  // ---------------------------------------------------------------------------------------

  /** On corresponding lists, two fields that no list claims are equal. */
  lemma PlainFieldsAgree(F: seq<Field>, R: seq<Field>, S: seq<Field>, I: seq<Field>, st: State)
    requires WellFormedRecord(R, S, I) && Inv(F, R, S, I, st) && Corresponds(F, R, S, I) && st.f < |F|
    requires F[st.f] !in st.swapped && F[st.f] !in st.ignored && F[st.f] !in st.fwd
    requires st.r < |R| ==> R[st.r] !in st.swapped && R[st.r] !in st.back
    ensures st.r < |R| && R[st.r] == F[st.f]
  {
    var drop := Elems(I) + Elems(S);
    AtCursor(F, R, S, I, st);
    NoDupSplit(F, st.f, st.f);
    WithoutAround(F, st.f, drop);
    var n := |Without(F[..st.f], drop)|;
    assert Without(F, drop)[n] == F[st.f];
    WithoutAround(R, st.r, Elems(S));
  }

  lemma StepComplete(F: seq<Field>, R: seq<Field>, S: seq<Field>, I: seq<Field>, st: State)
    requires WellFormedRecord(R, S, I) && Inv(F, R, S, I, st) && Corresponds(F, R, S, I) && st.f < |F|
    ensures Step(F, R, st).Stop? ==>
      Step(F, R, st).check.SwapInOrder? && F[st.f] in st.swapped && st.r < |R| && R[st.r] == F[st.f]
  {
    AtCursor(F, R, S, I, st);
    assert Placed(F, R, S, I, F[st.f]);
    assert st.r < |R| ==> Placed(F, R, S, I, R[st.r]);
    if && F[st.f] !in st.swapped && F[st.f] !in st.ignored && F[st.f] !in st.fwd
       && (st.r < |R| ==> R[st.r] !in st.swapped && R[st.r] !in st.back) {
      PlainFieldsAgree(F, R, S, I, st);
    }
  }

  lemma FinishComplete(F: seq<Field>, R: seq<Field>, S: seq<Field>, I: seq<Field>, st: State)
    requires WellFormedRecord(R, S, I) && Inv(F, R, S, I, st) && Corresponds(F, R, S, I) && st.f == |F|
    ensures Finish(R, st).Accept?
  {
    assert F[..st.f] == F;
    assert R == R[..st.r] + R[st.r..];
    WithoutConcat(R[..st.r], R[st.r..], Elems(S));
    WithoutMembers(R[st.r..], Elems(S));
    forall x
      ensures x !in st.swapped && x !in st.ignored && x !in st.fwd
      ensures x in R[st.r..] <==> x in st.back
    {
      assert Tracked(F, R, S, I, st, x) && Placed(F, R, S, I, x);
      assert x !in Without(R[st.r..], Elems(S));
      NoDupParts(R, st.r, x);
    }
    NoMembers(st.swapped);
    NoMembers(st.ignored);
    NoMembers(st.fwd);
    FinishAccepts(R, st);
  }

  /** When both current fields are swapped and untouched, the cursors sit behind a common anchor. */
  ghost predicate Anchored(F: seq<Field>, R: seq<Field>, S: seq<Field>, st: State)
    requires st.f <= |F| && st.r <= |R|
  {
    st.f < |F| && st.r < |R| && F[st.f] in st.swapped && R[st.r] in st.swapped ==>
      exists k: nat :: k <= st.f && SameAnchor(F, R, S, k, st.r)
                       && forall m :: k <= m < st.f ==> F[m] in S && F[m] !in R[..st.r + 1]
  }

  lemma AnchorKept(F: seq<Field>, R: seq<Field>, S: seq<Field>, st: State)
    requires st.f < |F| && st.r <= |R| && Anchored(F, R, S, st) && F[st.f] in st.swapped && F[st.f] in S
    requires st.r < |R| ==> F[st.f] !in R[..st.r + 1]
    ensures st.r < |R| && R[st.r] in st.swapped ==>
      exists k: nat :: k <= st.f + 1 && SameAnchor(F, R, S, k, st.r)
                       && forall m :: k <= m < st.f + 1 ==> F[m] in S && F[m] !in R[..st.r + 1]
  {
    if st.r < |R| && R[st.r] in st.swapped {
      var k: nat :| k <= st.f && SameAnchor(F, R, S, k, st.r)
                    && forall m :: k <= m < st.f ==> F[m] in S && F[m] !in R[..st.r + 1];
      assert forall m :: k <= m < st.f + 1 ==> F[m] in S && F[m] !in R[..st.r + 1];
    }
  }

  lemma AnchoredStep(F: seq<Field>, R: seq<Field>, S: seq<Field>, I: seq<Field>, st: State)
    requires WellFormedRecord(R, S, I) && Inv(F, R, S, I, st) && st.f < |F|
    requires Anchored(F, R, S, st) && Step(F, R, st).Next?
    ensures var st' := Step(F, R, st).st; st'.f <= |F| && st'.r <= |R| && Anchored(F, R, S, st')
  {
    var st' := Step(F, R, st).st;
    AtCursor(F, R, S, I, st);
    if F[st.f] in st.swapped {
      RemoveFromNoDup(st.swapped, F[st.f]);
      AnchorKept(F, R, S, st);
    } else if st.r < |R| && R[st.r] in st.swapped {
      RemoveFromNoDup(st.swapped, R[st.r]);
    } else if st'.f == st.f + 1 && st'.r == st.r + 1 {
      StepMatch(F, R, S, I, st);
      assert SameAnchor(F, R, S, st'.f, st'.r);
    }
  }

  lemma {:induction false} RunComplete(F: seq<Field>, R: seq<Field>, S: seq<Field>, I: seq<Field>, st: State)
    requires WellFormedRecord(R, S, I) && Inv(F, R, S, I, st) && Corresponds(F, R, S, I)
    requires Anchored(F, R, S, st)
    ensures Run(F, R, st).Accept? || (Run(F, R, st).check.SwapInOrder? && !NoRedundantSwap(F, R, S))
    decreases |F| - st.f + |R| - st.r
  {
    if st.f == |F| {
      FinishComplete(F, R, S, I, st);
    } else {
      StepComplete(F, R, S, I, st);
      if Step(F, R, st).Next? {
        InvStep(F, R, S, I, st);
        AnchoredStep(F, R, S, I, st);
        RunComplete(F, R, S, I, Step(F, R, st).st);
      } else {
        var k: nat :| k <= st.f && SameAnchor(F, R, S, k, st.r)
                      && forall m :: k <= m < st.f ==> F[m] in S && F[m] !in R[..st.r + 1];
        assert Tracked(F, R, S, I, st, F[st.f]);
        assert RedundantSwap(F, R, S, k, st.f, st.r);
      }
    }
  }

  // ---------------------------------------------------------------------------------------
  // A redundant swap is always caught
  // ---------------------------------------------------------------------------------------

  /** The run has not yet passed the anchor of the redundant swap, or stands between it and the swap. */
  predicate Approaching(st: State, k: nat, i: nat, j: nat) {
    (st.f < k && st.r < j) || (k <= st.f <= i && st.r == j)
  }

  /** An unswapped field of both lists leaves the two cursors only by a match of the two. */
  lemma PlainFieldWaits(F: seq<Field>, R: seq<Field>, S: seq<Field>, I: seq<Field>, st: State, a: nat, b: nat)
    requires WellFormedRecord(R, S, I) && Inv(F, R, S, I, st) && Corresponds(F, R, S, I)
    requires st.f <= a < |F| && st.r <= b < |R| && F[a] == R[b] && F[a] !in S
    requires Step(F, R, st).Next?
    ensures var st' := Step(F, R, st).st; (st'.f <= a && st'.r <= b) || (st'.f == a + 1 && st'.r == b + 1)
  {
    assert R[b] in R;
    assert Tracked(F, R, S, I, st, F[a]) && Placed(F, R, S, I, F[a]);
    assert st.f == a || F[st.f] != F[a];
    assert st.r == b || R[st.r] != R[b];
  }

  /** Past the anchor every class field is an untouched swapped one, which the step takes. */
  lemma SwappedRunStep(F: seq<Field>, R: seq<Field>, S: seq<Field>, I: seq<Field>, st: State, k: nat, i: nat, j: nat)
    requires Inv(F, R, S, I, st) && NoDup(F) && NoDup(R)
    requires RedundantSwap(F, R, S, k, i, j) && k <= st.f <= i && st.r == j
    ensures F[st.f] in st.swapped
  {
    assert Tracked(F, R, S, I, st, F[st.f]);
    NoDupSplit(F, st.f, st.f);
    NoDupSplit(R, j, j);
    assert R[..j + 1] == R[..j] + [R[j]];
  }

  lemma {:induction false} RedundantSwapCaught(
    F: seq<Field>, R: seq<Field>, S: seq<Field>, I: seq<Field>, st: State, k: nat, i: nat, j: nat)
    requires WellFormedRecord(R, S, I) && Inv(F, R, S, I, st) && Corresponds(F, R, S, I)
    requires RedundantSwap(F, R, S, k, i, j) && Approaching(st, k, i, j)
    ensures Run(F, R, st) == Reject(SwapInOrder)
    decreases |F| - st.f + |R| - st.r
  {
    StepComplete(F, R, S, I, st);
    if Step(F, R, st).Next? {
      InvStep(F, R, S, I, st);
      if st.f < k && st.r < j {
        PlainFieldWaits(F, R, S, I, st, k - 1, j - 1);
      } else {
        SwappedRunStep(F, R, S, I, st, k, i, j);
      }
      RedundantSwapCaught(F, R, S, I, Step(F, R, st).st, k, i, j);
    }
  }

  // ---------------------------------------------------------------------------------------
  // Main results
  // ---------------------------------------------------------------------------------------

  /** The checker accepts exactly the corresponding lists without a redundant swap. */
  lemma AcceptsExactly(F: seq<Field>, R: seq<Field>, S: seq<Field>, I: seq<Field>)
    requires WellFormedRecord(R, S, I)
    ensures Verify(F, R, S, I).Accept? <==> Corresponds(F, R, S, I) && NoRedundantSwap(F, R, S)
  {
    var st := Initial(S, I);
    InvInitial(F, R, S, I);
    if Run(F, R, st).Accept? {
      RunSound(F, R, S, I, st);
    }
    if Corresponds(F, R, S, I) {
      assert SameAnchor(F, R, S, 0, 0);
      RunComplete(F, R, S, I, st);
      if k: nat, i: nat, j: nat :| RedundantSwap(F, R, S, k, i, j) {
        RedundantSwapCaught(F, R, S, I, st, k, i, j);
      }
    }
  }

  /** On corresponding lists no other assertion of the checker can fail. */
  lemma RejectsOnlyInOrderSwaps(F: seq<Field>, R: seq<Field>, S: seq<Field>, I: seq<Field>)
    requires WellFormedRecord(R, S, I) && Corresponds(F, R, S, I)
    ensures Verify(F, R, S, I) in {Accept, Reject(SwapInOrder)}
  {
    InvInitial(F, R, S, I);
    assert SameAnchor(F, R, S, 0, 0);
    RunComplete(F, R, S, I, Initial(S, I));
  }

  /** The assertion of line 657 tests a reflected field for being reflected: it never fails. */
  lemma {:induction false} ForwardCheckIsDead(F: seq<Field>, R: seq<Field>, st: State)
    requires st.f <= |F| && st.r <= |R|
    ensures Run(F, R, st) != Reject(ForwardNotReflected)
    decreases |F| - st.f + |R| - st.r
  {
    if st.f < |F| && Step(F, R, st).Next? {
      ForwardCheckIsDead(F, R, Step(F, R, st).st);
    }
  }

  /** Moving one field over any nonempty run of fields is accepted, in either direction, by declaring it swapped. */
  lemma MovedFieldAccepted(P: seq<Field>, x: Field, M: seq<Field>, Q: seq<Field>)
    requires NoDup(P + [x] + M + Q) && M != []
    ensures Verify(P + [x] + M + Q, P + M + [x] + Q, [x], []).Accept?
    ensures Verify(P + M + [x] + Q, P + [x] + M + Q, [x], []).Accept?
  {
    var A, B := P + [x] + M + Q, P + M + [x] + Q;
    MovedNoDup(P, x, M, Q);
    MovedPlain(P, x, M, Q);
    assert forall y :: y in A <==> y in B;
    assert Elems([]) + Elems([x]) == Elems([x]);
    assert A[|P|] == x && B[|P| + |M|] == x;
    assert A[|P| + |M|] == M[|M| - 1] == B[|P| + |M| - 1];
    assert |P| > 0 ==> A[|P| - 1] == P[|P| - 1] == B[|P| - 1];
    assert forall k: nat, i: nat, j: nat :: !RedundantSwap(A, B, [x], k, i, j);
    assert forall k: nat, i: nat, j: nat :: !RedundantSwap(B, A, [x], k, i, j);
    AcceptsExactly(A, B, [x], []);
    AcceptsExactly(B, A, [x], []);
  }

  lemma MovedNoDup(P: seq<Field>, x: Field, M: seq<Field>, Q: seq<Field>)
    requires NoDup(P + [x] + M + Q)
    ensures NoDup(P + M + [x] + Q)
  {
    var A, B := P + [x] + M + Q, P + M + [x] + Q;
    forall i, j | 0 <= i < j < |B| ensures B[i] != B[j] {
      var i' := Before(|P|, |M|, i);
      var j' := Before(|P|, |M|, j);
      assert B[i] == A[i'] && B[j] == A[j'];
    }
  }

  /** The place in P,x,M,Q of the element at `i` in P,M,x,Q. */
  function Before(p: nat, m: nat, i: nat): nat {
    if i < p || i > p + m then i else if i == p + m then p else i + 1
  }

  lemma MovedPlain(P: seq<Field>, x: Field, M: seq<Field>, Q: seq<Field>)
    ensures Without(P + [x] + M + Q, Elems([x])) == Without(P + M + [x] + Q, Elems([x]))
  {
    var drop := Elems([x]);
    WithoutConcat(P + [x] + M, Q, drop);
    WithoutConcat(P + [x], M, drop);
    WithoutConcat(P, [x], drop);
    WithoutConcat(P + M + [x], Q, drop);
    WithoutConcat(P + M, [x], drop);
    WithoutConcat(P, M, drop);
    assert Without([x], drop) == [];
  }

  /** The documented rule for two exchanged neighbours: declare one of them, not both and not neither. */
  lemma ExchangedNeighbours(P: seq<Field>, a: Field, b: Field, Q: seq<Field>)
    requires NoDup(P + [a, b] + Q)
    ensures Verify(P + [a, b] + Q, P + [b, a] + Q, [a], []).Accept?
    ensures Verify(P + [a, b] + Q, P + [b, a] + Q, [b], []).Accept?
    ensures Verify(P + [a, b] + Q, P + [b, a] + Q, [a, b], []).Reject?
    ensures Verify(P + [a, b] + Q, P + [b, a] + Q, [b, a], []).Reject?
    ensures Verify(P + [a, b] + Q, P + [b, a] + Q, [], []).Reject?
  {
    var F, R := P + [a, b] + Q, P + [b, a] + Q;
    assert F == P + [a] + [b] + Q && R == P + [b] + [a] + Q;
    MovedFieldAccepted(P, a, [b], Q);
    MovedNoDup(P, a, [b], Q);
    MovedFieldAccepted(P, b, [a], Q);
    assert F[|P|] == a && F[|P| + 1] == b && R[|P|] == b;
    assert R[..|P| + 1] == P + [b];
    assert a !in P + [b] by { NoDupSplit(F, |P|, |P|); assert F[..|P|] == P; }
    assert |P| > 0 ==> F[|P| - 1] == P[|P| - 1] == R[|P| - 1];
    assert |P| > 0 ==> F[|P| - 1] != F[|P|] && F[|P| - 1] != F[|P| + 1];
    assert RedundantSwap(F, R, [a, b], |P|, |P| + 1, |P|);
    assert RedundantSwap(F, R, [b, a], |P|, |P| + 1, |P|);
    AcceptsExactly(F, R, [a, b], []);
    AcceptsExactly(F, R, [b, a], []);
    WithoutForeign(F, {});
    WithoutForeign(R, {});
    var none: seq<Field> := [];
    assert Elems(none) + Elems(none) == {} && Elems(none) == {};
    AcceptsExactly(F, R, [], []);
  }

  /** A field declared both swapped and ignored and not reflected is always rejected. */
  lemma SwappedAndIgnoredRejected(F: seq<Field>, R: seq<Field>, S: seq<Field>, I: seq<Field>, x: Field)
    requires WellFormedRecord(R, S, I) && x in S && x in I
    ensures Verify(F, R, S, I).Reject?
  {
    AcceptsExactly(F, R, S, I);
    assert !Placed(F, R, S, I, x);
  }

  /** The loop over the reflected fields that the main loop did not reach. */
  method DrainBack(rest: seq<Field>, waiting: seq<Field>) returns (back: seq<Field>, unused: seq<Field>)
    ensures (back, unused) == Drain(rest, waiting)
  {
    back, unused := waiting, [];
    ghost var result := Drain(rest, waiting);
    for r := 0 to |rest|
      invariant result.0 == Drain(rest[r..], back).0
      invariant result.1 == unused + Drain(rest[r..], back).1
    {
      assert rest[r..][1..] == rest[r + 1..];
      if rest[r] in back {
        back := Remove(back, rest[r]);
      } else {
        unused := unused + [rest[r]];
      }
    }
    assert result.1 == unused;
  }

  /** The matching loop itself. */
  method Match(F: seq<Field>, R: seq<Field>, S: seq<Field>, I: seq<Field>) returns (verdict: Verdict)
    ensures verdict == Verify(F, R, S, I)
  {
    var swapped, ignored := S, I;
    var back, fwd, seen: seq<Field> := [], [], [];
    var f, r := 0, 0;
    while f < |F|
      invariant f <= |F| && r <= |R|
      invariant Run(F, R, State(f, r, swapped, ignored, back, fwd, seen)) == Verify(F, R, S, I)
      decreases |F| - f + |R| - r
    {
      var field := F[f];
      var more := r < |R|;
      if field in swapped {
        swapped := Remove(swapped, field);
        back := back + [field];
        if field !in R { return Reject(SwapNotReflected); }
        if more && R[r] == field { return Reject(SwapInOrder); }
        f := f + 1;
      } else if more && R[r] in swapped {
        swapped := Remove(swapped, R[r]);
        fwd := fwd + [R[r]];
        r := r + 1;
      } else if more && R[r] in seen {
        return Reject(IgnoredIsReflected);
      } else if field in ignored {
        ignored := Remove(ignored, field);
        seen := seen + [field];
        if more && R[r] == field { return Reject(IgnoreInOrder); }
        f := f + 1;
      } else if more && R[r] in back {
        back := Remove(back, R[r]);
        r := r + 1;
      } else if field in fwd {
        fwd := Remove(fwd, field);
        f := f + 1;
      } else if !more || R[r] != field {
        return Reject(FieldMismatch);
      } else {
        f, r := f + 1, r + 1;
      }
    }
    if ignored != [] { return Reject(LeftoverIgnores); }
    var left, unused := DrainBack(R[r..], back);
    if unused != [] { return Reject(UnknownReflected); }
    if swapped != [] { return Reject(LeftoverSwaps); }
    if left != [] { return Reject(BackNeverProvided); }
    if fwd != [] { return Reject(ForwardNotInClass); }
    verdict := Accept;
  }
}
