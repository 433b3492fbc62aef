/** The undoable list of permissions, permission_visitor (unittests/misc_tests.cpp, lines 344-379). */
module UndoLog {
  import opened Collections

  datatype Op<T> = Record(item: T) | Repeat(item: T) | Push | Pop | Squash

  /** The list, and the sizes it had when an undo level was opened. */
  datatype Log<T> = Log(list: seq<T>, sizes: seq<nat>)

  /** The sizes grow from the oldest level to the newest and never exceed the list. */
  ghost predicate Ordered<T>(l: Log<T>) {
    && (forall i :: 0 <= i < |l.sizes| ==> l.sizes[i] <= |l.list|)
    && (forall i, j :: 0 <= i < j < |l.sizes| ==> l.sizes[i] <= l.sizes[j])
  }

  /** One call. Closing a level that was not opened fails, and so does a size beyond the list. */
  function Step<T>(l: Log<T>, op: Op<T>): Option<Log<T>> {
    match op
    case Record(x) => Some(l.(list := l.list + [x]))
    case Repeat(_) => Some(l)
    case Push => Some(l.(sizes := l.sizes + [|l.list|]))
    case Pop =>
      if l.sizes == [] || l.sizes[|l.sizes| - 1] > |l.list| then None
      else Some(Log(l.list[..l.sizes[|l.sizes| - 1]], l.sizes[..|l.sizes| - 1]))
    case Squash =>
      if l.sizes == [] then None else Some(l.(sizes := l.sizes[..|l.sizes| - 1]))
  }

  function Run<T>(l: Log<T>, ops: seq<Op<T>>): Option<Log<T>>
    decreases |ops|
  {
    if ops == [] then Some(l)
    else match Step(l, ops[0])
      case None => None
      case Some(m) => Run(m, ops[1..])
  }

  // ---------------------------------------------------------------------------------------
  // It behaves like a list with a stack of full copies
  // ---------------------------------------------------------------------------------------

  datatype Copies<T> = Copies(list: seq<T>, saved: seq<seq<T>>)

  function CopyStep<T>(c: Copies<T>, op: Op<T>): Option<Copies<T>> {
    match op
    case Record(x) => Some(c.(list := c.list + [x]))
    case Repeat(_) => Some(c)
    case Push => Some(c.(saved := c.saved + [c.list]))
    case Pop =>
      if c.saved == [] then None else Some(Copies(c.saved[|c.saved| - 1], c.saved[..|c.saved| - 1]))
    case Squash =>
      if c.saved == [] then None else Some(c.(saved := c.saved[..|c.saved| - 1]))
  }

  function CopyRun<T>(c: Copies<T>, ops: seq<Op<T>>): Option<Copies<T>>
    decreases |ops|
  {
    if ops == [] then Some(c)
    else match CopyStep(c, ops[0])
      case None => None
      case Some(d) => CopyRun(d, ops[1..])
  }

  ghost function Saved<T>(l: Log<T>): (c: Copies<T>)
    requires Ordered(l)
  {
    Copies(l.list, seq(|l.sizes|, i requires 0 <= i < |l.sizes| => l.list[..l.sizes[i]]))
  }

  lemma StepRefines<T>(l: Log<T>, op: Op<T>)
    requires Ordered(l)
    ensures Step(l, op).None? == CopyStep(Saved(l), op).None?
    ensures Step(l, op).Some? ==> Ordered(Step(l, op).value) && CopyStep(Saved(l), op) == Some(Saved(Step(l, op).value))
  {
    if Step(l, op).Some? {
      var m := Step(l, op).value;
      assert Ordered(m);
      forall i | 0 <= i < |m.sizes| && i < |l.sizes|
        ensures m.list[..m.sizes[i]] == l.list[..l.sizes[i]]
      {
      }
      assert op.Push? ==> m.list[..|m.list|] == l.list;
      assert Saved(m).saved == CopyStep(Saved(l), op).value.saved;
    }
  }

  /** Over every run: the same failures, the same list, and the saved lists are its prefixes. */
  lemma {:induction false} RunRefines<T>(l: Log<T>, ops: seq<Op<T>>)
    requires Ordered(l)
    ensures Run(l, ops).None? == CopyRun(Saved(l), ops).None?
    ensures Run(l, ops).Some? ==> Ordered(Run(l, ops).value) && CopyRun(Saved(l), ops) == Some(Saved(Run(l, ops).value))
    decreases |ops|
  {
    if ops != [] {
      StepRefines(l, ops[0]);
      if Step(l, ops[0]).Some? {
        RunRefines(Step(l, ops[0]).value, ops[1..]);
      }
    }
  }

  // ---------------------------------------------------------------------------------------
  // Matching calls
  // ---------------------------------------------------------------------------------------

  /** The number of open levels after a call. */
  function Levels<T>(op: Op<T>, depth: nat): int {
    match op
    case Record(_) => depth
    case Repeat(_) => depth
    case Push => depth + 1
    case Pop => depth - 1
    case Squash => depth - 1
  }

  /** With `depth` levels open, the calls close those and every level they open, and no other. */
  predicate Balanced<T>(ops: seq<Op<T>>, depth: nat) {
    if ops == [] then depth == 0
    else Levels(ops[0], depth) >= 0 && Balanced(ops[1..], Levels(ops[0], depth))
  }

  /** The first `floor` items of the list were there before any of the levels was opened. */
  ghost predicate Floored<T>(l: Log<T>, floor: nat) {
    Ordered(l) && floor <= |l.list| && forall i :: 0 <= i < |l.sizes| ==> floor <= l.sizes[i]
  }

  lemma StepFloored<T>(l: Log<T>, op: Op<T>, floor: nat)
    requires Floored(l, floor) && Levels(op, |l.sizes|) >= 0
    ensures Step(l, op).Some?
    ensures
      var m := Step(l, op).value;
      Floored(m, floor) && m.list[..floor] == l.list[..floor] && |m.sizes| == Levels(op, |l.sizes|)
  {
  }

  lemma PushAbove<T>(list: seq<T>, base: seq<nat>, extra: seq<nat>)
    ensures Step(Log(list, base + extra), Push) == Some(Log(list, base + (extra + [|list|])))
  {
    assert base + extra + [|list|] == base + (extra + [|list|]);
  }

  lemma CloseAbove<T>(list: seq<T>, base: seq<nat>, extra: seq<nat>)
    requires extra != []
    ensures
      var n := |base + extra| - 1;
      (base + extra)[n] == extra[|extra| - 1] && (base + extra)[..n] == base + extra[..|extra| - 1]
  {
  }

  /** A call does above other levels what it does without them. */
  lemma StepAbove<T>(list: seq<T>, base: seq<nat>, extra: seq<nat>, op: Op<T>)
    requires Ordered(Log(list, extra)) && Levels(op, |extra|) >= 0
    ensures Step(Log(list, extra), op).Some?
    ensures var m := Step(Log(list, extra), op).value; Step(Log(list, base + extra), op) == Some(Log(m.list, base + m.sizes))
  {
    if op.Push? {
      PushAbove(list, base, extra);
    } else if op.Pop? || op.Squash? {
      CloseAbove(list, base, extra);
    }
  }

  lemma RunUnfolds<T>(l: Log<T>, ops: seq<Op<T>>, m: Log<T>)
    requires ops != [] && Step(l, ops[0]) == Some(m)
    ensures Run(l, ops) == Run(m, ops[1..])
  {
  }

  /** The levels `base` below are left alone, and so are the first `floor` items of the list. */
  lemma {:induction false} Frame<T>(list: seq<T>, base: seq<nat>, extra: seq<nat>, ops: seq<Op<T>>, floor: nat)
    requires Balanced(ops, |extra|) && Floored(Log(list, extra), floor)
    ensures
      var alone, above := Run(Log(list, extra), ops), Run(Log(list, base + extra), ops);
      && alone.Some? && above == Some(Log(alone.value.list, base))
      && floor <= |alone.value.list| && alone.value.list[..floor] == list[..floor]
    decreases |ops|
  {
    if ops == [] {
      assert base + extra == base;
    } else {
      var l := Log(list, extra);
      StepFloored(l, ops[0], floor);
      StepAbove(list, base, extra, ops[0]);
      var m := Step(l, ops[0]).value;
      RunUnfolds(l, ops, m);
      RunUnfolds(Log(list, base + extra), ops, Log(m.list, base + m.sizes));
      Frame(m.list, base, m.sizes, ops[1..], floor);
    }
  }

  lemma {:induction false} RunJoin<T>(l: Log<T>, first: seq<Op<T>>, second: seq<Op<T>>)
    ensures Run(l, first + second) == match Run(l, first) case None => None case Some(m) => Run(m, second)
    decreases |first|
  {
    if first == [] {
      assert first + second == second;
    } else {
      assert (first + second)[1..] == first[1..] + second;
      match Step(l, first[0])
      case None =>
      case Some(m) => RunJoin(m, first[1..], second);
    }
  }

  /** What balanced calls make of the list, with or without a level around them. */
  lemma Between<T>(l: Log<T>, ops: seq<Op<T>>) returns (list: seq<T>)
    requires Balanced(ops, 0)
    ensures Run(l, ops) == Some(Log(list, l.sizes)) && l.list <= list
    ensures Run(Log(l.list, l.sizes + [|l.list|]), ops) == Some(Log(list, l.sizes + [|l.list|]))
  {
    var n := |l.list|;
    Frame(l.list, l.sizes, [], ops, n);
    Frame(l.list, l.sizes + [n], [], ops, n);
    assert l.sizes + [] == l.sizes && l.sizes + [n] + [] == l.sizes + [n];
    list := Run(Log(l.list, []), ops).value.list;
    assert l.list[..n] == l.list;
  }

  /** A level around balanced calls, closed by `close`. */
  lemma Around<T>(l: Log<T>, all: seq<Op<T>>, ops: seq<Op<T>>, list: seq<T>, close: Op<T>)
    requires all == [Push] + ops + [close]
    requires Run(Log(l.list, l.sizes + [|l.list|]), ops) == Some(Log(list, l.sizes + [|l.list|]))
    ensures Run(l, all) == Step(Log(list, l.sizes + [|l.list|]), close)
  {
    var base := l.sizes + [|l.list|];
    RunClosed(Log(l.list, base), ops, close, Log(list, base));
    FirstIsPush(all, ops, close);
    RunUnfolds(l, all, Log(l.list, base));
  }

  lemma FirstIsPush<T>(all: seq<Op<T>>, ops: seq<Op<T>>, close: Op<T>)
    requires all == [Push] + ops + [close]
    ensures all != [] && all[0] == Push && all[1..] == ops + [close]
  {
  }

  lemma RunClosed<T>(l: Log<T>, ops: seq<Op<T>>, close: Op<T>, m: Log<T>)
    requires Run(l, ops) == Some(m)
    ensures Run(l, ops + [close]) == Step(m, close)
  {
    RunJoin(l, ops, [close]);
    RunOne(m, close);
  }

  /** Popping restores exactly the state at the matching push, whatever was done in between. */
  lemma PopUndoes<T>(l: Log<T>, ops: seq<Op<T>>)
    requires Balanced(ops, 0)
    ensures Run(l, [Push] + ops + [Pop]) == Some(l)
  {
    var list := Between(l, ops);
    Around(l, [Push] + ops + [Pop], ops, list, Pop);
    assert list[..|l.list|] == l.list;
    assert (l.sizes + [|l.list|])[..|l.sizes|] == l.sizes;
  }

  /** Squashing leaves what was done in between, as if the level had never been opened. */
  lemma SquashKeeps<T>(l: Log<T>, ops: seq<Op<T>>)
    requires Balanced(ops, 0)
    ensures Run(l, [Push] + ops + [Squash]) == Run(l, ops)
    ensures Run(l, ops).Some? && l.list <= Run(l, ops).value.list && Run(l, ops).value.sizes == l.sizes
  {
    var list := Between(l, ops);
    Around(l, [Push] + ops + [Squash], ops, list, Squash);
    assert (l.sizes + [|l.list|])[..|l.sizes|] == l.sizes;
  }

  lemma RunOne<T>(l: Log<T>, op: Op<T>)
    ensures Run(l, [op]) == Step(l, op)
  {
    if Step(l, op).Some? {
      assert Run(Step(l, op).value, []) == Step(l, op);
    }
  }

  // ---------------------------------------------------------------------------------------
  // The visitor
  // ---------------------------------------------------------------------------------------

  class PermissionVisitor<T> {
    var permissions: seq<T>
    var sizeStack: seq<nat>

    ghost function State(): Log<T>
      reads this
    {
      Log(permissions, sizeStack)
    }

    ghost predicate Valid()
      reads this
    {
      Ordered(State())
    }

    constructor ()
      ensures Valid() && State() == Log([], [])
    {
      permissions, sizeStack := [], [];
    }

    method Record(permission: T)
      requires Valid()
      modifies this
      ensures Valid() && Step(old(State()), Op.Record(permission)) == Some(State())
      ensures permissions == old(permissions) + [permission] && sizeStack == old(sizeStack)
    {
      permissions := permissions + [permission];
    }

    /** A permission that is repeated is not recorded: nothing is modified. */
    method Repeat(permission: T)
      requires Valid()
      ensures Step(State(), Op.Repeat(permission)) == Some(State())
    {
    }

    method PushUndo()
      requires Valid()
      modifies this
      ensures Valid() && Step(old(State()), Push) == Some(State())
      ensures permissions == old(permissions) && sizeStack == old(sizeStack) + [|old(permissions)|]
    {
      sizeStack := sizeStack + [|permissions|];
    }

    /** Fails exactly when no level is open: the size check never fails. */
    method PopUndo() returns (ok: bool)
      requires Valid()
      modifies this
      ensures Valid() && ok == (old(sizeStack) != [])
      ensures if ok then Step(old(State()), Pop) == Some(State()) else State() == old(State()) && Step(State(), Pop) == None
      ensures ok ==> Saved(State()).list == old(Saved(State()).saved[|sizeStack| - 1])
      ensures ok ==> permissions == old(permissions[..sizeStack[|sizeStack| - 1]]) && sizeStack == old(sizeStack[..|sizeStack| - 1])
    {
      if !(|sizeStack| >= 1 && sizeStack[|sizeStack| - 1] <= |permissions|) {
        return false;
      }
      permissions := permissions[..sizeStack[|sizeStack| - 1]];
      sizeStack := sizeStack[..|sizeStack| - 1];
      return true;
    }

    method SquashUndo() returns (ok: bool)
      requires Valid()
      modifies this
      ensures Valid() && ok == (old(sizeStack) != [])
      ensures if ok then Step(old(State()), Squash) == Some(State()) else State() == old(State()) && Step(State(), Squash) == None
      ensures ok ==> permissions == old(permissions) && sizeStack == old(sizeStack[..|sizeStack| - 1])
    {
      if !(|sizeStack| >= 1) {
        return false;
      }
      sizeStack := sizeStack[..|sizeStack| - 1];
      return true;
    }
  }
}
