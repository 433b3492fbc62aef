/** The recursive scope reader of tools/validate_reflection.py (lines 95-164 and 317-360). */
module ScopeReader {
  import opened Braces
  import opened Collections

  datatype Kind = Empty | ClassStruct | Namespace

  datatype Span = Span(from: nat, to: nat)

  /** A class, struct, enum or namespace header: what it opens and where its brace is. */
  datatype Header = Header(kind: Kind, brace: nat)

  /**
   * What the regular expressions find in one text: an initializer `{...};` from a position on, and
   * a header in a slice of the text. The reader is studied for every outcome they can have.
   */
  datatype Patterns = Patterns(
    initializer: nat -> Option<Span>,
    header: (Kind, nat, nat) -> Option<Header>)

  /** All that is asked of them: matches lie in the searched text and start, or end, at an opening brace. */
  ghost predicate Sound(content: string, pats: Patterns) {
    && (forall i: nat :: pats.initializer(i).Some? ==>
          var s := pats.initializer(i).value; i <= s.from && s.from + 1 < s.to <= |content| && content[s.from] == '{')
    && (forall k, i: nat, j: nat :: pats.header(k, i, j).Some? ==>
          var h := pats.header(k, i, j).value; i <= h.brace < j && h.brace < |content| && content[h.brace] == '{')
  }

  /** The initializer pattern: a brace, no semicolon or closing brace, a closing brace, spaces, a semicolon. */
  function InitializerAt(content: string, space: char -> bool, p: nat): Option<Span> {
    if p >= |content| || content[p] != '{' then None
    else
      var q := BodyEnd(content, p + 1);
      var w := if q < |content| && content[q] == '}' then SpacesEnd(content, space, q + 1) else |content|;
      if w < |content| && content[w] == ';' then Some(Span(p, w + 1)) else None
  }

  function BodyEnd(content: string, i: nat): (j: nat)
    ensures j >= i
    decreases |content| - i
  {
    if i >= |content| || content[i] in {';', '}'} then i else BodyEnd(content, i + 1)
  }

  function SpacesEnd(content: string, space: char -> bool, i: nat): (j: nat)
    ensures j >= i
    decreases |content| - i
  {
    if i >= |content| || !space(content[i]) then i else SpacesEnd(content, space, i + 1)
  }

  /** The leftmost match from `i` on. */
  function InitializerFrom(content: string, space: char -> bool, i: nat): Option<Span>
    decreases |content| - i
  {
    if i >= |content| then None
    else if InitializerAt(content, space, i).Some? then InitializerAt(content, space, i)
    else InitializerFrom(content, space, i + 1)
  }

  /** The pattern the script uses meets what is asked of patterns. */
  lemma {:induction false} InitializerIsSound(content: string, space: char -> bool, i: nat)
    ensures InitializerFrom(content, space, i).Some? ==>
      var s := InitializerFrom(content, space, i).value;
      i <= s.from && s.from + 1 < s.to <= |content| && content[s.from] == '{'
    decreases |content| - i
  {
    if i < |content| && InitializerAt(content, space, i).None? {
      InitializerIsSound(content, space, i + 1);
    }
  }

  /** The end of a Python slice `content[_:end]`. */
  function SliceEnd(content: string, end: int): nat
    requires -|content| <= end
  {
    if end < 0 then |content| + end else end
  }

  /** `content.find(c, from, stop)`. */
  function FindBefore(content: string, c: char, from: nat, stop: nat): int {
    var i := Find(content, c, from);
    if i < stop then i else -1
  }

  function PossibleEnd(content: string, pats: Patterns, current: nat): int {
    var possible := Find(content, '}', current);
    match pats.initializer(current)
    case Some(s) => if s.from < possible < s.to then Find(content, '}', s.to + 1) else possible
    case None => possible
  }

  /** A scope opens before the first closing brace; with no closing brace, before the last character. */
  predicate HasChild(content: string, i: nat) {
    var p, q := Find(content, '{', i), Find(content, '}', i);
    p != -1 && (if q == -1 then p < |content| - 1 else p < q)
  }

  /** Where that scope ends, or the length when nothing closes it. */
  function ChildEnd(content: string, i: nat): (e: nat)
    requires HasChild(content, i)
    ensures i < e <= |content|
  {
    Unmatched(content, Find(content, '{', i) + 1, 0)
  }

  function ChildTree(content: string, i: nat): Tree
    requires HasChild(content, i)
  {
    var p, e := Find(content, '{', i), ChildEnd(content, i);
    Tree(p, e, Forest(content, p + 1, e))
  }

  /** Whatever the patterns match, the next scope is looked for, and found, at the first opening brace. */
  lemma ChildIsFirstOpen(content: string, pats: Patterns, current: nat)
    requires content != [] && Sound(content, pats)
    ensures FindBefore(content, '{', current, SliceEnd(content, PossibleEnd(content, pats, current))) ==
            if HasChild(content, current) then Find(content, '{', current) else -1
  {
    FindIsFirst(content, '{', current);
    FindIsFirst(content, '}', current);
  }

  /** A header never starts a scope before the first opening brace of the slice. */
  lemma HeaderNotBeforeOpen(content: string, pats: Patterns, k: Kind, i: nat, stop: nat)
    requires Sound(content, pats) && pats.header(k, i, stop).Some?
    ensures 0 <= FindBefore(content, '{', i, stop) <= pats.header(k, i, stop).value.brace
  {
    FindIsFirst(content, '{', i);
  }

  // ---------------------------------------------------------------------------------------
  // What the reader makes of the whole text
  // ---------------------------------------------------------------------------------------

  /** Reading at top level from `i` on fails nowhere. */
  predicate Reads(content: string, i: nat)
    requires i <= |content|
    decreases |content| - i
  {
    HasChild(content, i) ==> ChildEnd(content, i) < |content| && Reads(content, ChildEnd(content, i) + 1)
  }

  /** Where reading at top level stops. */
  function TopEnd(content: string, i: nat): (j: nat)
    requires i <= |content|
    ensures i <= j <= |content|
    decreases |content| - i
  {
    if HasChild(content, i) then
      var e := ChildEnd(content, i);
      if e < |content| then TopEnd(content, e + 1) else e
    else
      var p, q := Find(content, '{', i), Find(content, '}', i);
      if q != -1 then q else if p != -1 then p else |content|
  }

  lemma {:induction false} PlainDepth(content: string, i: nat, k: nat)
    requires i <= k <= |content| && forall m :: i <= m < k ==> Delta(content[m]) == 0
    ensures Depth(content, i, k) == 0
  {
    if i < k {
      PlainDepth(content, i, k - 1);
    }
  }

  /** The depth counted from `i` is the depth counted from the first scope on, plus one. */
  lemma DepthFromChild(content: string, i: nat, k: nat)
    requires HasChild(content, i) && Find(content, '{', i) < k <= |content|
    ensures Depth(content, i, k) == 1 + Depth(content, Find(content, '{', i) + 1, k)
  {
    var p := Find(content, '{', i);
    FindIsFirst(content, '{', i);
    FindIsFirst(content, '}', i);
    PlainDepth(content, i, p);
    DepthSplit(content, i, p, k);
    DepthCons(content, p, k);
  }

  /** Nothing is left open except possibly a brace that is the last character. */
  predicate ClosesAtEnd(content: string, i: nat)
    requires i <= |content|
  {
    || Depth(content, i, |content|) == 0
    || (i < |content| && content[|content| - 1] == '{' && Depth(content, i, |content| - 1) == 0)
  }

  /** Reading at top level succeeds exactly when a stray brace stops it or everything is closed. */
  lemma {:induction false} ReadsExactly(content: string, i: nat)
    requires i <= |content|
    ensures Reads(content, i) <==> Unmatched(content, i, 0) < |content| || ClosesAtEnd(content, i)
    decreases |content| - i
  {
    UnmatchedByFirst(content, i);
    if HasChild(content, i) {
      if ChildEnd(content, i) == |content| {
        NeverClosed(content, i);
      } else {
        ReadsExactly(content, ChildEnd(content, i) + 1);
        ClosesAfterChild(content, i);
      }
    } else {
      ClosedWithoutChild(content, i);
    }
  }

  lemma NeverClosed(content: string, i: nat)
    requires i <= |content| && HasChild(content, i) && ChildEnd(content, i) == |content|
    ensures !ClosesAtEnd(content, i)
  {
    var n, p := |content|, Find(content, '{', i);
    FindIsFirst(content, '}', i);
    UnmatchedCounts(content, p + 1, 0, n);
    DepthFromChild(content, i, n);
    if p < n - 1 {
      UnmatchedCounts(content, p + 1, 0, n - 1);
      DepthFromChild(content, i, n - 1);
    }
  }

  lemma ClosedWithoutChild(content: string, i: nat)
    requires i <= |content| && !HasChild(content, i)
    ensures Find(content, '}', i) == -1 ==> ClosesAtEnd(content, i)
  {
    var n, p := |content|, Find(content, '{', i);
    if Find(content, '}', i) == -1 {
      FindIsFirst(content, '{', i);
      FindIsFirst(content, '}', i);
      PlainDepth(content, i, if p == -1 then n else p);
    }
  }

  lemma ClosesAfterChild(content: string, i: nat)
    requires i <= |content| && HasChild(content, i) && ChildEnd(content, i) < |content|
    ensures ClosesAtEnd(content, i) <==> ClosesAtEnd(content, ChildEnd(content, i) + 1)
  {
    var n, p := |content|, Find(content, '{', i);
    var e := Unmatched(content, p + 1, 0);
    UnmatchedBalances(content, p + 1);
    FindIsFirst(content, '{', i);
    FindIsFirst(content, '}', i);
    PlainDepth(content, i, p);
    DepthAfterPair(content, i, p, e, n);
    if e < n - 1 {
      DepthAfterPair(content, i, p, e, n - 1);
    }
  }

  /** Balanced text does not close a brace before it opens one. */
  lemma BalancedOpensFirst(content: string, i: nat)
    requires Balanced(content, i, |content|)
    ensures var p, q := Find(content, '{', i), Find(content, '}', i); q == -1 || (p != -1 && p < q)
  {
    var p, q := Find(content, '{', i), Find(content, '}', i);
    FindIsFirst(content, '{', i);
    FindIsFirst(content, '}', i);
    if q != -1 && (p == -1 || q < p) {
      PlainDepth(content, i, q);
      assert Depth(content, i, q + 1) < 0;
    }
  }

  lemma {:induction false} TopEndOfBalanced(content: string, i: nat)
    requires Balanced(content, i, |content|)
    ensures TopEnd(content, i) == |content|
    decreases |content| - i
  {
    BalancedSplit(content, i, |content|);
    BalancedOpensFirst(content, i);
    if Find(content, '{', i) != -1 {
      ClosingBraceFollows(content, i);
      TopEndOfBalanced(content, ChildEnd(content, i) + 1);
    }
  }

  lemma ClosingBraceFollows(content: string, i: nat)
    requires Find(content, '{', i) != -1 && Unmatched(content, Find(content, '{', i) + 1, 0) < |content|
    ensures Find(content, '}', i) != -1
  {
    UnmatchedBalances(content, Find(content, '{', i) + 1);
    FindIsFirst(content, '}', i);
  }

  /** Balanced text is read without failure, and every brace of it becomes a scope. */
  lemma BalancedTextIsRead(content: string, q: nat)
    requires content != [] && Balanced(content, 1, |content|)
    ensures Reads(content, 1) && TopEnd(content, 1) == |content|
    ensures StartsAt(Forest(content, 1, TopEnd(content, 1)), q) <==> 1 <= q < |content| && content[q] == '{'
  {
    ReadsExactly(content, 1);
    TopEndOfBalanced(content, 1);
    ForestIsComplete(content, 1, |content|, q);
  }

  // ---------------------------------------------------------------------------------------
  // The reader
  // ---------------------------------------------------------------------------------------

  /** Where a scope starting at `start` ends, and whether reading it succeeds, seen from position `i`. */
  function Stop(content: string, start: nat, i: nat): (j: nat)
    requires i <= |content|
    ensures i <= j <= |content|
  {
    if start == 0 then TopEnd(content, i) else Unmatched(content, i, 0)
  }

  predicate Succeeds(content: string, start: nat, i: nat)
    requires i <= |content|
  {
    if start == 0 then Reads(content, i) else Unmatched(content, i, 0) < |content|
  }

  /** The scopes read one after another from position `i` on, or None when one of them does not end. */
  function Scan(content: string, start: nat, i: nat): Option<seq<Tree>>
    requires i <= |content|
    decreases |content| - i
  {
    if HasChild(content, i) then
      if ChildEnd(content, i) == |content| then None
      else Join([ChildTree(content, i)], Scan(content, start, ChildEnd(content, i) + 1))
    else if start == 0 || Find(content, '}', i) != -1 then Some([]) else None
  }

  function Join(before: seq<Tree>, rest: Option<seq<Tree>>): Option<seq<Tree>> {
    match rest
    case None => None
    case Some(trees) => Some(before + trees)
  }

  lemma UnmatchedPastChild(content: string, i: nat)
    requires i <= |content|
    ensures HasChild(content, i) && ChildEnd(content, i) < |content| ==>
      Unmatched(content, i, 0) == Unmatched(content, ChildEnd(content, i) + 1, 0)
  {
    UnmatchedByFirst(content, i);
  }

  lemma JoinNothing(rest: Option<seq<Tree>>)
    ensures Join([], rest) == rest
  {
    if rest.Some? {
      assert [] + rest.value == rest.value;
    }
  }

  lemma JoinOne(before: seq<Tree>, t: Tree, rest: Option<seq<Tree>>)
    ensures Join(before, Join([t], rest)) == Join(before + [t], rest)
  {
    if rest.Some? {
      assert before + ([t] + rest.value) == before + [t] + rest.value;
    }
  }

  /** Where a child is and ends is what counting says, too. */
  lemma StopAfterChild(content: string, start: nat, i: nat)
    requires i <= |content| && HasChild(content, i) && ChildEnd(content, i) < |content|
    ensures
      var e := ChildEnd(content, i);
      && Succeeds(content, start, i) == Succeeds(content, start, e + 1)
      && Stop(content, start, i) == Stop(content, start, e + 1)
      && Forest(content, i, Stop(content, start, i)) == [ChildTree(content, i)] + Forest(content, e + 1, Stop(content, start, e + 1))
  {
    UnmatchedByFirst(content, i);
  }

  lemma NoChildNoForest(content: string, start: nat, i: nat)
    requires i <= |content| && !HasChild(content, i)
    ensures Succeeds(content, start, i) <==> start == 0 || Find(content, '}', i) != -1
    ensures Succeeds(content, start, i) ==> Forest(content, i, Stop(content, start, i)) == []
  {
    UnmatchedByFirst(content, i);
  }

  lemma OpenChildFails(content: string, start: nat, i: nat)
    requires i <= |content| && HasChild(content, i) && ChildEnd(content, i) == |content|
    ensures !Succeeds(content, start, i)
  {
    UnmatchedByFirst(content, i);
  }

  /** With no child left, the scope ends at the next closing brace, if there is one. */
  lemma NoChildEnds(content: string, i: nat)
    requires i <= |content| && !HasChild(content, i)
    ensures var q := Find(content, '}', i); Unmatched(content, i, 0) == if q == -1 then |content| else q
  {
    UnmatchedByFirst(content, i);
  }

  /** Reading one scope after another finds the forest that counting finds, when counting finds an end. */
  lemma {:induction false} ScanIsForest(content: string, start: nat, i: nat)
    requires i <= |content|
    ensures Scan(content, start, i) ==
      if Succeeds(content, start, i) then Some(Forest(content, i, Stop(content, start, i))) else None
    decreases |content| - i
  {
    if !HasChild(content, i) {
      NoChildNoForest(content, start, i);
    } else if ChildEnd(content, i) == |content| {
      OpenChildFails(content, start, i);
    } else {
      StopAfterChild(content, start, i);
      ScanIsForest(content, start, ChildEnd(content, i) + 1);
    }
  }

  datatype NextScope = NoScope | Opened(tree: Tree) | Failed

  class Scope {
    const content: string
    const kind: Kind
    const start: nat
    var current: nat
    var end: Option<int>
    var children: seq<Tree>

    constructor (kind: Kind, start: nat, content: string)
      ensures this.kind == kind && this.start == start && this.content == content
      ensures current == start + 1 && children == []
      ensures end == if start == 0 then Some(|content| - 1) else None
    {
      this.kind, this.start, this.content := kind, start, content;
      current, children := start + 1, [];
      end := if start == 0 then Some(|content| - 1) else None;
    }

    /** The position at which the subclass starts its next scope, and the kind of that scope. */
    method NextStart(pats: Patterns) returns (at: Option<Header>)
      requires content != [] && Sound(content, pats)
      ensures at.Some? <==> HasChild(content, current)
      ensures at.Some? ==> at.value.brace == Find(content, '{', current)
      ensures
        var header := pats.header(kind, current, SliceEnd(content, PossibleEnd(content, pats, current)));
        var first := kind != Empty && header.Some? && header.value.brace == Find(content, '{', current);
        at.Some? ==> at.value.kind == if first then header.value.kind else Empty
    {
      var stop := SliceEnd(content, PossibleEnd(content, pats, current));
      var generic := FindBefore(content, '{', current, stop);
      ChildIsFirstOpen(content, pats, current);
      if kind == Empty {
        return if generic == -1 then None else Some(Header(Empty, generic));
      }
      var header := pats.header(kind, current, stop);
      if header.Some? {
        HeaderNotBeforeOpen(content, pats, kind, current, stop);
      }
      if header.None? && generic == -1 {
        return None;
      }
      if header.Some? && (generic == -1 || header.value.brace <= generic) {
        return header;
      }
      return Some(Header(Empty, generic));
    }

    /** Reads the next scope and moves behind it. */
    method Next(pats: Patterns) returns (r: NextScope)
      requires start < current < |content| && Sound(content, pats)
      modifies this
      decreases |content| - current, 0
      ensures children == old(children) && end == old(end)
      ensures r.NoScope? <==> !HasChild(content, old(current))
      ensures r.NoScope? ==> current == old(current)
      ensures HasChild(content, old(current)) ==>
        if ChildEnd(content, old(current)) == |content| then r.Failed?
        else r == Opened(ChildTree(content, old(current))) && current == ChildEnd(content, old(current)) + 1
    {
      var at := NextStart(pats);
      if at.None? {
        return NoScope;
      }
      var child := new Scope(at.value.kind, at.value.brace, content);
      var ok := child.Read(pats);
      if !ok {
        return Failed;
      }
      current := child.end.value + 1;
      r := Opened(Tree(child.start, child.end.value, child.children));
    }

    /** The loop of `read`: one scope after another until none is left. */
    method ReadChildren(pats: Patterns) returns (ok: bool)
      requires start < current <= |content| && Sound(content, pats) && children == []
      modifies this
      decreases |content| - current, 1
      ensures end == old(end)
      ensures !ok ==> Scan(content, start, old(current)) == None
      ensures ok ==> old(current) <= current <= |content| && !HasChild(content, current)
      ensures ok ==> Scan(content, start, old(current)) == Join(children, Scan(content, start, current))
      ensures ok && start > 0 ==> Unmatched(content, current, 0) == Unmatched(content, old(current), 0)
    {
      JoinNothing(Scan(content, start, current));
      while current < |content| - 1
        invariant old(current) <= current <= |content| && end == old(end)
        invariant Scan(content, start, old(current)) == Join(children, Scan(content, start, current))
        invariant start > 0 ==> Unmatched(content, current, 0) == Unmatched(content, old(current), 0)
        decreases |content| - current
      {
        UnmatchedPastChild(content, current);
        var next := Next(pats);
        match next {
          case NoScope => break;
          case Failed => return false;
          case Opened(tree) =>
            JoinOne(children, tree, Scan(content, start, current));
            children := children + [tree];
        }
      }
      ok := true;
    }

    /**
     * Reads a fresh scope to its end. A nested scope ends at its partner or fails for lack of one;
     * the outermost scope takes the whole text and fails only inside a nested one.
     */
    method Read(pats: Patterns) returns (ok: bool)
      requires start < |content| && Sound(content, pats)
      requires current == start + 1 && children == []
      requires end == if start == 0 then Some(|content| - 1) else None
      modifies this
      decreases |content| - start - 1, 2
      ensures ok <==> Succeeds(content, start, start + 1)
      ensures ok ==> children == Forest(content, start + 1, Stop(content, start, start + 1))
      ensures ok ==> end == Some(if start == 0 then |content| - 1 else Stop(content, start, start + 1))
    {
      ok := ReadChildren(pats);
      if !ok {
        ScanIsForest(content, start, start + 1);
        return false;
      }
      ScanIsForest(content, start, start + 1);
      NoChildEnds(content, current);
      if end.None? {
        var e := Find(content, '}', current);
        if e == -1 {
          return false;
        }
        end := Some(e);
      }
    }
  }
}
