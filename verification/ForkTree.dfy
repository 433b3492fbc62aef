/** The tree of blocks above the root (libraries/chain/fork_database.cpp): ancestry, and what
    removing a block or advancing the root leaves of it. */
module ForkTree {

  type Id = nat

  datatype Block = Block(id: Id, previous: Id, num: nat, lib: nat, validated: bool)

  type Index = map<Id, Block>

  /** Blocks are kept under their id, above their predecessor. */
  ghost predicate NumberedAt(index: Index, id: Id)
    requires id in index
  {
    && index[id].id == id
    && (index[id].previous in index ==> index[index[id].previous].num < index[id].num)
  }

  ghost predicate Numbered(index: Index) {
    forall id :: id in index ==> NumberedAt(index, id)
  }

  ghost predicate LinkedAt(index: Index, root: Block, id: Id)
    requires id in index
  {
    && index[id].id == id
    && (if index[id].previous == root.id then index[id].num == root.num + 1
        else index[id].previous in index && index[id].num == index[index[id].previous].num + 1)
  }

  /** Every block links to the root or to another block, one number up. */
  ghost predicate Linked(index: Index, root: Block) {
    root.id !in index && forall id :: id in index ==> LinkedAt(index, root, id)
  }

  lemma LinkedIsNumbered(index: Index, root: Block)
    requires Linked(index, root)
    ensures Numbered(index)
  {
    forall id | id in index
      ensures NumberedAt(index, id)
    {
      assert LinkedAt(index, root, id);
    }
  }

  function Height(index: Index, id: Id): nat {
    if id in index then index[id].num + 1 else 0
  }

  lemma HeightFalls(index: Index, id: Id)
    requires Numbered(index) && id in index
    ensures Height(index, index[id].previous) < Height(index, id)
  {
    assert NumberedAt(index, id);
  }

  /** `id` is `a` or built on it. */
  ghost predicate Under(index: Index, id: Id, a: Id)
    requires Numbered(index)
    decreases Height(index, id)
  {
    id == a || (id in index && (HeightFalls(index, id); Under(index, index[id].previous, a)))
  }

  lemma {:induction false} UnderIsHigher(index: Index, id: Id, a: Id)
    requires Numbered(index) && Under(index, id, a) && id != a
    ensures Height(index, a) < Height(index, id)
    decreases Height(index, id)
  {
    HeightFalls(index, id);
    if index[id].previous != a {
      UnderIsHigher(index, index[id].previous, a);
    }
  }

  /** Fewer blocks, fewer links. */
  lemma {:induction false} UnderInLarger(small: Index, index: Index, id: Id, a: Id)
    requires Numbered(small) && Numbered(index) && Under(small, id, a)
    requires forall b :: b in small ==> b in index && small[b] == index[b]
    ensures Under(index, id, a)
    decreases Height(small, id)
  {
    if id != a {
      HeightFalls(small, id);
      UnderInLarger(small, index, small[id].previous, a);
    }
  }

  /** The index without `a` and everything built on it. */
  ghost function Without(index: Index, a: Id): Index
    requires Numbered(index)
  {
    map b | b in index && !Under(index, b, a) :: index[b]
  }

  ghost predicate Within(small: Index, index: Index) {
    forall b :: b in small ==> b in index && small[b] == index[b]
  }

  lemma WithinIsNumbered(small: Index, index: Index)
    requires Numbered(index) && Within(small, index)
    ensures Numbered(small)
  {
    forall id | id in small
      ensures NumberedAt(small, id)
    {
      assert NumberedAt(index, id);
    }
  }

  /** A set that holds `a` and the children of its members holds everything under `a`. */
  lemma {:induction false} ClosedHoldsAll(index: Index, a: Id, s: set<Id>, id: Id)
    requires Numbered(index) && a in s && Under(index, id, a)
    requires forall b :: b in index && index[b].previous in s ==> b in s
    ensures id in s
    decreases Height(index, id)
  {
    if id != a {
      HeightFalls(index, id);
      ClosedHoldsAll(index, a, s, index[id].previous);
    }
  }

  /** Removing a whole branch leaves a tree. */
  lemma WithoutIsLinked(index: Index, root: Block, a: Id)
    requires Linked(index, root)
    ensures Numbered(index) && Linked(Without(index, a), root)
  {
    LinkedIsNumbered(index, root);
    var rest := Without(index, a);
    forall id | id in rest
      ensures LinkedAt(rest, root, id)
    {
      assert LinkedAt(index, root, id);
      HeightFalls(index, id);
    }
  }

  // ---------------------------------------------------------------------------------------
  // Advancing the root
  // ---------------------------------------------------------------------------------------

  /** What is built on `a`, without `a` itself. */
  ghost function Above(index: Index, a: Id): Index
    requires Numbered(index)
  {
    map b | b in index && b != a && Under(index, b, a) :: index[b]
  }

  lemma AboveIsLinked(index: Index, root: Block, a: Id)
    requires Linked(index, root) && a in index
    ensures Numbered(index) && Linked(Above(index, a), index[a])
  {
    LinkedIsNumbered(index, root);
    var rest := Above(index, a);
    assert LinkedAt(index, root, a);
    assert !Under(index, root.id, a);
    forall id | id in rest
      ensures LinkedAt(rest, index[a], id)
    {
      assert LinkedAt(index, root, id);
      HeightFalls(index, id);
    }
  }

  /** With `a` taken out, what is built on it is no longer under the blocks that `a` is built on. */
  lemma {:induction false} CutOff(index: Index, rest: Index, b: Id, a: Id, p: Id)
    requires Numbered(index) && Numbered(rest) && Within(rest, index) && a !in rest
    requires Under(index, b, a) && Under(index, a, p) && p != a
    ensures !Under(rest, b, p)
    decreases Height(index, b)
  {
    UnderIsHigher(index, a, p);
    if b != a {
      UnderIsHigher(index, b, a);
      HeightFalls(index, b);
      CutOff(index, rest, index[b].previous, a, p);
    }
  }

  /** Every block that is left links to another, to `a` or to the root. */
  ghost predicate Rooted(rest: Index, a: Id, root: Id) {
    forall b :: b in rest ==> rest[b].previous in rest || rest[b].previous == a || rest[b].previous == root
  }

  /** So a block that is not built on `a` is still under the root. */
  lemma {:induction false} StillUnderRoot(index: Index, rest: Index, b: Id, a: Id, root: Id)
    requires Numbered(index) && Numbered(rest) && Within(rest, index) && Rooted(rest, a, root)
    requires b in rest && !Under(index, b, a)
    ensures Under(rest, b, root)
    decreases Height(index, b)
  {
    HeightFalls(index, b);
    HeightFalls(rest, b);
    if rest[b].previous in rest {
      StillUnderRoot(index, rest, rest[b].previous, a, root);
    }
  }

  lemma WithoutIsRooted(rest: Index, a: Id, root: Id, p: Id)
    requires Numbered(rest) && Rooted(rest, a, root)
    ensures Rooted(Without(rest, p), a, root)
  {
    forall b | b in Without(rest, p)
      ensures var q := rest[b].previous; q in Without(rest, p) || q == a || q == root
    {
      HeightFalls(rest, b);
    }
  }
}
