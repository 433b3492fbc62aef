/** The fork database (libraries/chain/fork_database.cpp). */
module ForkDatabase {

  import opened Collections
  import opened ForkChoice
  import opened ForkTree

  datatype AddResult = Added | Ignored | Unlinkable | Duplicate

  // ---------------------------------------------------------------------------------------
  // The queue of remove
  // ---------------------------------------------------------------------------------------

  /** A queued block is under `id`, and it is `id` or was queued as a child of an expanded one. */
  ghost predicate Member(index: Index, id: Id, done: set<Id>, x: Id)
    requires Numbered(index)
  {
    Under(index, x, id) && (x == id || (x in index && index[x].previous in done))
  }

  /** The blocks in `done` have been expanded, but for the children that are still pending. */
  ghost predicate Expanding(index: Index, id: Id, queue: seq<Id>, done: set<Id>, pending: set<Id>)
    requires Numbered(index)
  {
    && id in queue
    && NoDup(queue)
    && (forall x :: x in queue ==> Member(index, id, done, x))
    && (forall b :: b in index && index[b].previous in done ==> b in queue || b in pending)
    && (forall b :: b in pending ==> b in index && index[b].previous in done && b !in queue)
  }

  lemma StartsExpanding(index: Index, id: Id, queue: seq<Id>, done: set<Id>, c: Id, children: set<Id>)
    requires Numbered(index) && Expanding(index, id, queue, done, {})
    requires c in queue && c !in done
    requires children == set b | b in index && index[b].previous == c
    ensures Expanding(index, id, queue, done + {c}, children)
  {
    forall b | b in children
      ensures b !in queue
    {
      HeightFalls(index, b);
      assert Member(index, id, done, c);
      if b == id && c != id {
        UnderIsHigher(index, c, id);
      }
      assert b in queue ==> Member(index, id, done, b);
    }
    forall x | x in queue
      ensures Member(index, id, done + {c}, x)
    {
      assert Member(index, id, done, x);
    }
  }

  lemma ExpandsOne(index: Index, id: Id, queue: seq<Id>, done: set<Id>, pending: set<Id>, b: Id)
    requires Numbered(index) && Expanding(index, id, queue, done, pending) && b in pending
    requires done <= Elems(queue)
    ensures Expanding(index, id, queue + [b], done, pending - {b})
  {
    HeightFalls(index, b);
    assert Member(index, id, done, index[b].previous);
    assert Member(index, id, done, b);
    forall x | x in queue + [b]
      ensures Member(index, id, done, x)
    {
    }
  }

  /** There are never more entries than blocks and the first one. */
  lemma QueueIsShort(index: Index, id: Id, queue: seq<Id>, done: set<Id>, pending: set<Id>)
    requires Numbered(index) && Expanding(index, id, queue, done, pending)
    ensures |queue| <= |index| + 1
  {
    ElemsSize(queue);
    forall x | x in Elems(queue)
      ensures x in index.Keys + {id}
    {
      assert Member(index, id, done, x);
    }
    SubsetSize(Elems(queue), index.Keys + {id});
    assert |index.Keys| == |index|;
  }

  class Database {
    var root: Block
    var head: Block
    var index: Index

    /** A tree above the root, with a best head in it. */
    ghost predicate Valid()
      reads this
    {
      Linked(index, root) && HeadIn(index, root, head) && Best(index, head)
    }

    constructor (rootState: Block)
      ensures Valid() && root == head == rootState.(validated := true) && index == map[]
    {
      root := rootState.(validated := true);
      head := rootState.(validated := true);
      index := map[];
    }

    /** The first block in the order of the index. */
    method Candidate() returns (c: Block)
      requires Keyed(index) && index != map[]
      ensures c.id in index && c == index[c.id] && IsFirst(index, index.Keys, c.id)
      ensures forall id :: id in index ==>
        && (index[id].validated ==> c.validated)
        && (index[id].validated == c.validated ==>
          || index[id].lib < c.lib || (index[id].lib == c.lib && index[id].num < c.num)
          || (index[id].lib == c.lib && index[id].num == c.num && c.id <= id))
    {
      ghost var some := FirstExists(index, index.Keys);
      var id :| id in index && IsFirst(index, index.Keys, id);
      c := index[id];
      FirstExactly(index, id);
    }

    /** Adds a block. If it has the number after its predecessor's, as block states are built, and
        not the root's id, the tree stays a tree, and its head best. */
    method Add(n: Block, ignoreDuplicate: bool) returns (r: AddResult)
      requires Valid()
      modifies this`index, this`head
      ensures old(Extends(index, root, n)) ==> Valid()
      ensures !r.Added? ==> Valid()
      ensures r.Unlinkable? <==> n.previous != root.id && n.previous !in old(index)
      ensures r.Ignored? || r.Duplicate? <==> !r.Unlinkable? && n.id in old(index)
      ensures r.Ignored? ==> ignoreDuplicate
      ensures r.Duplicate? ==> !ignoreDuplicate
      ensures r.Added? ==> index == old(index)[n.id := n] && HeadAfterAdd(index, old(head), head)
      ensures Best(index, head)
      ensures !r.Added? ==> index == old(index) && head == old(head)
    {
      if n.previous != root.id && n.previous !in index {
        return Unlinkable;
      }
      if n.id in index {
        return if ignoreDuplicate then Ignored else Duplicate;
      }
      AddIsLinked(index, root, n);
      LinkedIsKeyed(index, root);
      index := index[n.id := n];
      assert n.id in index;
      var candidate := Candidate();
      FirstIsValidated(index, candidate.id);
      if candidate.validated {
        head := candidate;
      }
      return Added;
    }

    /** Validates a block of the index. The head stays, or becomes that block. */
    method MarkValid(h: Block) returns (ok: bool)
      requires Valid() && (h.id in index ==> index[h.id] == h)
      modifies this`index, this`head
      ensures Valid()
      ensures ok <==> h.validated || h.id in old(index)
      ensures index == if ok && !h.validated then old(index)[h.id := h.(validated := true)] else old(index)
      ensures
        var better := h.lib > old(head).lib || (h.lib == old(head).lib && h.num > old(head).num);
        head == if ok && !h.validated && better then index[h.id] else old(head)
    {
      if h.validated {
        return true;
      }
      if h.id !in index {
        return false;
      }
      MarkIsLinked(index, root, h);
      index := index[h.id := h.(validated := true)];
      assert h.id in index;
      LinkedIsKeyed(index, root);
      var candidate := Candidate();
      FirstIsValidated(index, candidate.id);
      MarkedIsBest(old(index), head, h, candidate);
      if Preferred(candidate, head) {
        head := candidate;
      }
      return true;
    }

    /** The head, or the best block that is not validated if that is preferred. No block of the
        index is preferred to it. */
    method PendingHead() returns (b: Block)
      requires Valid()
      ensures b == head || (b.id in index && b == index[b.id] && !b.validated)
      ensures b != head ==> b.lib > head.lib || (b.lib == head.lib && b.num > head.num)
      ensures forall id :: id in index ==> index[id].lib < b.lib || (index[id].lib == b.lib && index[id].num <= b.num)
    {
      var unvalidated := set id | id in index && !index[id].validated;
      b := head;
      if unvalidated != {} {
        ghost var some := FirstExists(index, unvalidated);
        var id :| id in unvalidated && IsFirst(index, unvalidated, id);
        assert LinkedAt(index, root, id);
        if Preferred(index[id], head) {
          b := index[id];
        }
        PendingIsBest(index, head, unvalidated, id);
      } else {
        forall id | id in index
          ensures !Preferred(index[id], head)
        {
          assert id !in unvalidated;
        }
      }
    }

    /** No block is validated any more, and the head is the root. */
    method RollbackHeadToRoot()
      requires Valid()
      modifies this`index, this`head
      ensures Valid() && head == root
      ensures index == map id | id in old(index) :: old(index)[id].(validated := false)
    {
      var remaining := index.Keys;
      while remaining != {}
        invariant remaining <= old(index).Keys && index.Keys == old(index).Keys
        invariant forall id :: id in index ==> index[id] == if id in remaining then old(index)[id] else old(index)[id].(validated := false)
        decreases |remaining|
      {
        var id :| id in remaining;
        index := index[id := index[id].(validated := false)];
        remaining := remaining - {id};
      }
      head := root;
      forall id | id in index
        ensures LinkedAt(index, root, id)
      {
        assert LinkedAt(old(index), root, id);
      }
    }

    /** The children of one entry, appended in the order of the index by predecessor. */
    method Expand(id: Id, queue: seq<Id>, c: Id, ghost done: set<Id>) returns (longer: seq<Id>)
      requires Numbered(index) && Expanding(index, id, queue, done, {})
      requires c in queue && c !in done && done <= Elems(queue)
      ensures Expanding(index, id, longer, done + {c}, {}) && queue <= longer
    {
      longer := queue;
      var children := set b | b in index && index[b].previous == c;
      StartsExpanding(index, id, queue, done, c, children);
      while children != {}
        invariant Expanding(index, id, longer, done + {c}, children)
        invariant queue <= longer
        decreases |children|
      {
        var b :| b in children;
        ExpandsOne(index, id, longer, done + {c}, children, b);
        longer := longer + [b];
        children := children - {b};
      }
    }
  
    /** The first loop of remove: everything under `id`, unless the head is among it. */
    method Collect(id: Id) returns (ok: bool, queue: seq<Id>)
      requires Numbered(index)
      ensures ok <==> !Under(index, head.id, id)
      ensures ok ==> forall b :: b in Elems(queue) <==> Under(index, b, id)
    {
      queue := [id];
      var i := 0;
      StartsWithId(index, id);
      while i < |queue|
        invariant 0 <= i <= |queue| && Expanding(index, id, queue, Elems(queue[..i]), {})
        invariant head.id !in Elems(queue[..i])
        decreases |index| + 1 - i
      {
        ghost var done := Elems(queue[..i]);
        QueueIsShort(index, id, queue, done, {});
        var c := queue[i];
        if c == head.id {
          assert Member(index, id, done, c);
          return false, queue;
        }
        var longer := Expand(id, queue, c, done);
        assert longer[..i] == queue[..i];
        ElemsNext(longer, i);
        queue, i := longer, i + 1;
      }
      assert queue[..i] == queue;
      CollectsAll(index, id, queue);
      ok := true;
    }

    /** The ids of the blocks that `id` is built on, nearest first, ending with the root. */
    method ListAncestors(id: Id) returns (ids: seq<Id>)
      requires Linked(index, root) && id in index && Numbered(index)
      ensures ids == Back(index, id)
      ensures ids != [] && ids[|ids| - 1] == root.id && Ancestors(index, root.id, id, ids)
    {
      ids := [];
      var b := id;
      while b in index
        invariant Back(index, id) == ids + Back(index, b)
        decreases Height(index, b)
      {
        HeightFalls(index, b);
        b := index[b].previous;
        ids := ids + [b];
      }
      BackIsAncestors(index, root, id);
    }

    /** Removes `id` and everything built on it; fails, changing nothing, if that is the head. */
    method Remove(id: Id) returns (ok: bool)
      requires Numbered(index)
      modifies this`index
      ensures ok <==> !Under(old(index), head.id, id)
      ensures index == if ok then Without(old(index), id) else old(index)
      ensures old(Valid()) ==> Valid()
    {
      var queue;
      ok, queue := Collect(id);
      if ok {
        ghost var before := index;
        var i := 0;
        while i < |queue|
          invariant 0 <= i <= |queue|
          invariant index == map b | b in before && b !in queue[..i] :: before[b]
        {
          if queue[i] in index {
            index := map b | b in index && b != queue[i] :: index[b];
          }
          i := i + 1;
        }
        assert queue[..i] == queue;
        if Linked(before, root) {
          WithoutIsLinked(before, root, id);
        }
      }
    }

    /** The block, or the root. */
    function Look(id: Id): Block
      requires id == root.id || id in index
      reads this
    {
      if id == root.id then root else index[id]
    }

    /** The first and the second loop of fetch_branch_from: down to a number. */
    method WalkTo(start: Id, num: nat) returns (p: seq<Block>, a: Block)
      requires Linked(index, root) && Numbered(index) && (start == root.id || start in index) && root.num <= num
      ensures InTree(index, root, a) && Walked(index, start, p, a)
      ensures if Look(start).num <= num then p == [] && a == Look(start) else a.num == num
    {
      p, a := [], Look(start);
      LookIs(index, root, start);
      while a.num > num
        invariant InTree(index, root, a) && Walked(index, start, p, a)
        invariant if Look(start).num <= num then p == [] && a == Look(start) else a.num >= num
        decreases a.num
      {
        WalksOn(index, root, start, p, a);
        p := p + [a];
        a := Look(a.previous);
      }
    }

    /** The third loop: both down together, until they have the same predecessor. */
    method WalkToFork(first: Id, p0: seq<Block>, a0: Block, second: Id, q0: seq<Block>, b0: Block) returns (p: seq<Block>, q: seq<Block>, ghost rest: seq<Block>)
      requires Linked(index, root) && Numbered(index)
      requires a0.num == b0.num && a0.id != b0.id && InTree(index, root, a0) && InTree(index, root, b0)
      requires Walked(index, first, p0, a0) && Walked(index, second, q0, b0) && Apart(p0, q0)
      ensures Branch(index, first) == p + rest && Branch(index, second) == q + rest && Apart(p, q)
    {
      var a, b := a0, b0;
      p, q := p0, q0;
      NotTheRoot(index, root, a, b);
      while a.previous != b.previous
        invariant a.num == b.num && a.id != b.id && a.id in index && b.id in index
        invariant InTree(index, root, a) && InTree(index, root, b)
        invariant Walked(index, first, p, a) && Walked(index, second, q, b) && Apart(p, q)
        decreases a.num
      {
        WalksOn(index, root, first, p, a);
        WalksOn(index, root, second, q, b);
        StayApart(index, first, p, a, second, q, b);
        p, q := p + [a], q + [b];
        a, b := Look(a.previous), Look(b.previous);
        NotTheRoot(index, root, a, b);
      }
      WalksOn(index, root, first, p, a);
      WalksOn(index, root, second, q, b);
      StayApart(index, first, p, a, second, q, b);
      p, q := p + [a], q + [b];
      rest := Branch(index, a.previous);
    }

    /** The two branches back to where they part: the blocks from each end that are not on the
        other branch. It fails only for blocks that are not there; no lookup on the way fails.
        (That a linked index is numbered is LinkedIsNumbered.) */
    method FetchBranchFrom(first: Id, second: Id) returns (ok: bool, p: seq<Block>, q: seq<Block>, ghost rest: seq<Block>)
      requires Linked(index, root) && Numbered(index)
      ensures ok <==> (first == root.id || first in index) && (second == root.id || second in index)
      ensures ok ==> Branch(index, first) == p + rest && Branch(index, second) == q + rest && Apart(p, q)
    {
      p, q, rest := [], [], [];
      if !(first == root.id || first in index) || !(second == root.id || second in index) {
        return false, p, q, rest;
      }
      ok := true;
      var a, b;
      TreeAboveRoot(index, root, Look(first));
      TreeAboveRoot(index, root, Look(second));
      p, a := WalkTo(first, Look(second).num);
      q, b := WalkTo(second, a.num);
      if a.id == b.id {
        rest := Branch(index, a.id);
        return;
      }
      p, q, rest := WalkToFork(first, p, a, second, q, b);
    }

    /** The second loop of advance_root. */
    method RemoveAncestors(ids: seq<Id>, id: Id, ghost start: Index) returns (ok: bool)
      requires Numbered(start) && Advancing(start, index, root.id, id) && Ancestors(start, root.id, id, ids)
      requires ids != [] && ids[|ids| - 1] == root.id
      requires head.id == root.id || head.id == id || head.id in index
      modifies this`index
      ensures ok <==> Under(start, head.id, id)
      ensures ok ==> index == Above(start, id)
      ensures Advancing(start, index, root.id, id)
    {
      var i := 0;
      while i < |ids|
        invariant 0 <= i <= |ids| && Advancing(start, index, root.id, id)
        invariant head.id == root.id || head.id == id || head.id in index
        invariant i == |ids| ==> index == Above(start, id) && Under(start, head.id, id)
      {
        ok := RemoveAncestor(ids[i], id, start);
        if !ok {
          return;
        }
        i := i + 1;
      }
      ok := true;
    }

    /** One of them: the last is the old root, and then the rest is what is above `id`. */
    method RemoveAncestor(p: Id, id: Id, ghost start: Index) returns (ok: bool)
      requires Numbered(start) && Advancing(start, index, root.id, id) && Under(start, id, p) && p != id
      requires head.id == root.id || head.id == id || head.id in index
      modifies this`index
      ensures Advancing(start, index, root.id, id)
      ensures !ok ==> !Under(start, head.id, id)
      ensures ok ==> head.id == root.id || head.id == id || head.id in index
      ensures ok && p == root.id ==> index == Above(start, id) && Under(start, head.id, id)
    {
      ghost var before := index;
      RemovesOne(start, index, root.id, id, p);
      ok := Remove(p);
      if !ok {
        KeepsHead(start, before, root.id, id, p, head.id);
      } else if p == root.id {
        HasAdvanced(start, before, root.id, id);
        HeadStays(start, before, head.id, id, root.id);
      }
    }

    /** Makes a validated block the root, and keeps exactly what is built on it. It succeeds if and
        only if the block is there, is validated, and the head is it or built on it. */
    method AdvanceRoot(id: Id) returns (ok: bool)
      requires Linked(index, root) && (head.id == root.id || head.id in index)
      modifies this`index, this`root
      ensures ok <==> id in old(index) && old(index)[id].validated && Numbered(old(index)) && Under(old(index), head.id, id)
      ensures ok ==> root == old(index)[id] && index == Above(old(index), id) && Linked(index, root)
      ensures !ok ==> root == old(root) && Within(index, old(index))
      ensures !ok && (id !in old(index) || !old(index)[id].validated) ==> index == old(index)
      ensures !ok && id in old(index) && old(index)[id].validated ==>
        && id !in index && (Linked(index, root) <==> !HasChild(old(index), id))
        && Numbered(old(index)) && forall b :: b in Above(old(index), id) ==> b in index
      ensures ok && old(Valid()) ==> Valid()
    {
      LinkedIsNumbered(index, root);
      if id !in index || !index[id].validated {
        return false;
      }
      var newRoot := index[id];
      var ids := ListAncestors(id);
      ghost var start := index;
      StartsAdvancing(index, root, id);
      index := map b | b in index && b != id :: index[b];
      ok := RemoveAncestors(ids, id, start);
      if !ok {
        StillLinkedExactly(start, index, root, id);
        return;
      }
      AboveIsLinked(start, root, id);
      root := newRoot;
    }
  }

  lemma MarkIsLinked(index: Index, root: Block, h: Block)
    requires Linked(index, root) && h.id in index && index[h.id] == h
    ensures Linked(index[h.id := h.(validated := true)], root)
  {
    var marked := index[h.id := h.(validated := true)];
    forall id | id in marked
      ensures LinkedAt(marked, root, id)
    {
      assert LinkedAt(index, root, id);
    }
  }

  /** Only the block just validated can be preferred to a head that was best. */
  lemma MarkedIsBest(index: Index, head: Block, h: Block, candidate: Block)
    requires Best(index, head) && h.id in index && index[h.id] == h
    requires
      var marked := index[h.id := h.(validated := true)];
      candidate.id in marked && candidate == marked[candidate.id] && candidate.validated && Best(marked, candidate)
    ensures Preferred(candidate, head) <==> Preferred(h, head)
    ensures Preferred(candidate, head) ==> candidate.id == h.id
    ensures !Preferred(candidate, head) ==> Best(index[h.id := h.(validated := true)], head)
  {
    var marked := index[h.id := h.(validated := true)];
    assert !Preferred(marked[h.id], candidate);
  }

  lemma PendingIsBest(index: Index, head: Block, unvalidated: set<Id>, first: Id)
    requires Best(index, head) && unvalidated == (set id | id in index && !index[id].validated)
    requires IsFirst(index, unvalidated, first)
    ensures forall id :: id in index ==> !Preferred(index[id], if Preferred(index[first], head) then index[first] else head)
  {
    forall id | id in index
      ensures !Preferred(index[id], if Preferred(index[first], head) then index[first] else head)
    {
      assert id in unvalidated ==> !Before(index[id], index[first]);
    }
  }

  /** The block has the number after its predecessor's, and an id of its own. */
  ghost predicate Extends(index: Index, root: Block, n: Block) {
    && n.id != root.id && n.id !in index
    && (if n.previous == root.id then n.num == root.num + 1 else n.previous in index && n.num == index[n.previous].num + 1)
  }

  lemma AddIsLinked(index: Index, root: Block, n: Block)
    requires Linked(index, root) && n.id !in index
    requires n.previous == root.id || n.previous in index
    ensures Linked(index[n.id := n], root) <==> Extends(index, root, n)
  {
    var longer := index[n.id := n];
    if Extends(index, root, n) {
      forall id | id in longer
        ensures LinkedAt(longer, root, id)
      {
        assert id in index ==> LinkedAt(index, root, id);
      }
    } else {
      assert n.id in longer && (LinkedAt(longer, root, n.id) ==> n.id == root.id);
    }
  }

  lemma LinkedIsKeyed(index: Index, root: Block)
    requires Linked(index, root)
    ensures Keyed(index)
  {
    forall id | id in index
      ensures index[id].id == id
    {
      assert LinkedAt(index, root, id);
    }
  }

  // ---------------------------------------------------------------------------------------
  // The loops of fetch_branch_from
  // ---------------------------------------------------------------------------------------

  /** The blocks from `id` back to the root, which is not included. */
  ghost function Branch(index: Index, id: Id): seq<Block>
    requires Numbered(index)
    decreases Height(index, id)
  {
    if id in index then HeightFalls(index, id); [index[id]] + Branch(index, index[id].previous) else []
  }

  ghost predicate InTree(index: Index, root: Block, a: Block) {
    if a.id == root.id then a == root else a.id in index && index[a.id] == a
  }

  ghost predicate Apart(p: seq<Block>, q: seq<Block>) {
    forall i, j :: 0 <= i < |p| && 0 <= j < |q| ==> p[i].id != q[j].id
  }

  /** From `start`, the blocks `p` lead back to `a`, with higher numbers. */
  ghost predicate Walked(index: Index, start: Id, p: seq<Block>, a: Block)
    requires Numbered(index)
  {
    && Branch(index, start) == p + Branch(index, a.id)
    && forall i :: 0 <= i < |p| ==> p[i].id in index && index[p[i].id] == p[i] && p[i].num > a.num
  }

  lemma LookIs(index: Index, root: Block, id: Id)
    requires Linked(index, root) && Numbered(index) && (id == root.id || id in index)
    ensures
      var a := if id == root.id then root else index[id];
      InTree(index, root, a) && a.id == id && Walked(index, id, [], a)
  {
    if id in index {
      assert LinkedAt(index, root, id);
    }
  }

  /** A block above another is not the root, and its predecessor is in the tree, one number down. */
  lemma WalksOn(index: Index, root: Block, start: Id, p: seq<Block>, a: Block)
    requires Linked(index, root) && Numbered(index) && InTree(index, root, a) && Walked(index, start, p, a)
    requires a.num > root.num || a.id in index
    ensures a.previous == root.id || a.previous in index
    ensures
      var b := if a.previous == root.id then root else index[a.previous];
      InTree(index, root, b) && b.num + 1 == a.num && b.id == a.previous && Walked(index, start, p + [a], b)
  {
    assert LinkedAt(index, root, a.id);
    HeightFalls(index, a.id);
    if a.previous in index {
      assert LinkedAt(index, root, a.previous);
    }
    assert p + Branch(index, a.id) == p + [a] + Branch(index, a.previous);
  }

  /** Blocks of the index are above the root. */
  lemma {:induction false} AboveRoot(index: Index, root: Block, id: Id)
    requires Linked(index, root) && Numbered(index) && id in index
    ensures index[id].num > root.num
    decreases Height(index, id)
  {
    assert LinkedAt(index, root, id);
    HeightFalls(index, id);
    if index[id].previous in index {
      AboveRoot(index, root, index[id].previous);
    }
  }

  lemma TreeAboveRoot(index: Index, root: Block, a: Block)
    requires Linked(index, root) && Numbered(index) && (a == root || (a.id in index && index[a.id] == a))
    ensures a.num >= root.num && (a.num > root.num <==> a.id in index)
  {
    if a.id in index {
      AboveRoot(index, root, a.id);
    }
  }

  lemma NotTheRoot(index: Index, root: Block, a: Block, b: Block)
    requires Linked(index, root) && Numbered(index) && InTree(index, root, a) && InTree(index, root, b)
    requires a.num == b.num && a.id != b.id
    ensures a.id in index && b.id in index
  {
    if a.id in index {
      AboveRoot(index, root, a.id);
    }
    if b.id in index {
      AboveRoot(index, root, b.id);
    }
  }

  lemma StayApart(index: Index, first: Id, p: seq<Block>, a: Block, second: Id, q: seq<Block>, b: Block)
    requires Numbered(index) && Walked(index, first, p, a) && Walked(index, second, q, b) && Apart(p, q)
    requires a.id in index && index[a.id] == a && b.id in index && index[b.id] == b
    requires a.num == b.num && a.id != b.id
    ensures Apart(p + [a], q + [b])
  {
  }

  // ---------------------------------------------------------------------------------------
  // The loops of advance_root
  // ---------------------------------------------------------------------------------------

  /** All the ids that `id` is built on, nearest first. */
  ghost function Back(index: Index, id: Id): seq<Id>
    requires Numbered(index)
    decreases Height(index, id)
  {
    if id in index then HeightFalls(index, id); [index[id].previous] + Back(index, index[id].previous) else []
  }

  /** It lists every block that `id` is built on, and no other. */
  lemma {:induction false} BackIsComplete(index: Index, id: Id, p: Id)
    requires Numbered(index)
    ensures p in Back(index, id) <==> p != id && Under(index, id, p)
    decreases Height(index, id)
  {
    if id in index {
      HeightFalls(index, id);
      BackIsComplete(index, index[id].previous, p);
      if Under(index, index[id].previous, p) && p != index[id].previous {
        UnderIsHigher(index, index[id].previous, p);
      }
    }
  }

  /** The ids to remove: predecessors of `id`, of which only the root is not a block. */
  ghost predicate Ancestors(index: Index, root: Id, id: Id, ids: seq<Id>)
    requires Numbered(index)
  {
    forall p :: p in ids ==> Under(index, id, p) && p != id && (p in index || p == root)
  }

  lemma BackIsAncestors(index: Index, root: Block, id: Id)
    requires Linked(index, root) && Numbered(index) && id in index
    ensures
      var ids := Back(index, id);
      ids != [] && ids[|ids| - 1] == root.id && Ancestors(index, root.id, id, ids)
  {
    BackEndsAtRoot(index, root, id);
    forall p | p in Back(index, id)
      ensures Under(index, id, p) && p != id
    {
      BackIsComplete(index, id, p);
    }
  }

  lemma {:induction false} BackEndsAtRoot(index: Index, root: Block, id: Id)
    requires Linked(index, root) && Numbered(index) && id in index
    ensures
      var ids := Back(index, id);
      ids != [] && ids[|ids| - 1] == root.id && forall p :: p in ids ==> p in index || p == root.id
    decreases Height(index, id)
  {
    assert LinkedAt(index, root, id);
    HeightFalls(index, id);
    if index[id].previous in index {
      BackEndsAtRoot(index, root, index[id].previous);
    }
  }

  /** Part of the ancestors are removed: nothing above `id` is lost, and no other block is orphaned. */
  ghost predicate Advancing(index: Index, rest: Index, root: Id, id: Id)
    requires Numbered(index)
  {
    && Within(rest, index) && id !in rest
    && (forall b :: b in Above(index, id) ==> b in rest)
    && Rooted(rest, id, root)
  }

  lemma StartsAdvancing(index: Index, root: Block, id: Id)
    requires Linked(index, root) && id in index
    ensures Numbered(index) && Advancing(index, map b | b in index && b != id :: index[b], root.id, id)
  {
    LinkedIsNumbered(index, root);
    var rest := map b | b in index && b != id :: index[b];
    forall b | b in rest
      ensures rest[b].previous in rest || rest[b].previous == id || rest[b].previous == root.id
    {
      assert LinkedAt(index, root, b);
    }
  }

  lemma RemovesOne(index: Index, rest: Index, root: Id, id: Id, p: Id)
    requires Numbered(index) && Advancing(index, rest, root, id)
    requires Under(index, id, p) && p != id
    ensures Numbered(rest) && Advancing(index, Without(rest, p), root, id)
  {
    WithinIsNumbered(rest, index);
    WithoutIsRooted(rest, id, root, p);
    forall b | b in Above(index, id)
      ensures b in Without(rest, p)
    {
      CutOff(index, rest, b, id, p);
    }
  }

  /** Removing an ancestor does not remove a head that is above `id`. */
  lemma KeepsHead(index: Index, rest: Index, root: Id, id: Id, p: Id, head: Id)
    requires Numbered(index) && Advancing(index, rest, root, id) && Numbered(rest)
    requires Under(index, id, p) && p != id && Under(rest, head, p)
    ensures !Under(index, head, id)
  {
    if Under(index, head, id) {
      CutOff(index, rest, head, id, p);
    }
  }

  /** Some block is built directly on `id`. */
  ghost predicate HasChild(index: Index, id: Id) {
    exists b :: b in index && index[b].previous == id
  }

  /** With `id` gone and the root unchanged, the tree is broken exactly when something is built on `id`. */
  lemma StillLinkedExactly(index: Index, rest: Index, root: Block, id: Id)
    requires Linked(index, root) && Numbered(index) && id in index && Advancing(index, rest, root.id, id)
    ensures Linked(rest, root) <==> !HasChild(index, id)
  {
    if b :| b in index && index[b].previous == id {
      assert LinkedAt(index, root, b);
      HeightFalls(index, b);
      assert Under(index, index[b].previous, id);
      assert b in Above(index, id);
      assert !LinkedAt(rest, root, b);
    } else {
      forall b | b in rest
        ensures LinkedAt(rest, root, b)
      {
        assert LinkedAt(index, root, b);
      }
    }
  }

  /** Once the old root's branch is removed, what is left is what is above `id`. */
  lemma HasAdvanced(index: Index, before: Index, root: Id, id: Id)
    requires Numbered(index) && Advancing(index, before, root, id)
    requires Numbered(before) && Advancing(index, Without(before, root), root, id)
    ensures Without(before, root) == Above(index, id)
  {
    forall b | b in Without(before, root)
      ensures b in Above(index, id)
    {
      if !Under(index, b, id) {
        StillUnderRoot(index, before, b, id, root);
      }
    }
  }

  /** Removing the old root's branch would have removed a head that is not above `id`. */
  lemma HeadStays(index: Index, before: Index, head: Id, id: Id, root: Id)
    requires Numbered(index) && Numbered(before) && Advancing(index, before, root, id)
    requires !Under(before, head, root) && (head == root || head == id || head in before)
    ensures Under(index, head, id)
  {
    if !Under(index, head, id) && head in before {
      StillUnderRoot(index, before, head, id, root);
    }
  }

  lemma StartsWithId(index: Index, id: Id)
    requires Numbered(index)
    ensures Expanding(index, id, [id], Elems([id][..0]), {})
  {
  }

  lemma CollectsAll(index: Index, id: Id, queue: seq<Id>)
    requires Numbered(index) && Expanding(index, id, queue, Elems(queue), {})
    ensures forall b :: b in Elems(queue) <==> Under(index, b, id)
  {
    forall b
      ensures b in Elems(queue) <==> Under(index, b, id)
    {
      if b in queue {
        assert Member(index, id, Elems(queue), b);
      }
      if Under(index, b, id) {
        ClosedHoldsAll(index, id, Elems(queue), b);
      }
    }
  }

  /** Blocks 1 and 3 on the root, and block 2 on block 1. */
  method AddBranches(db: Database)
    requires db.Valid() && db.index == map[] && db.root == Block(0, 0, 7, 5, true) && db.head == db.root
    modifies db`index, db`head
    ensures db.Valid() && db.head == db.root
    ensures db.index == map[1 := Block(1, 0, 8, 5, false), 2 := Block(2, 1, 9, 5, false), 3 := Block(3, 0, 8, 6, false)]
  {
    var a, b, c := Block(1, 0, 8, 5, false), Block(2, 1, 9, 5, false), Block(3, 0, 8, 6, false);
    var r := db.Add(a, false);
    assert db.index == map[1 := a] && db.head == db.root;
    r := db.Add(b, false);
    assert db.index == map[1 := a, 2 := b] && db.head == db.root;
    r := db.Add(c, false);
  }

  /** Two validated branches: advancing the root to the one without the head fails, and leaves block
      number 2 built on a block that is gone. */
  method FailedAdvance() returns (db: Database, ok: bool)
    ensures fresh(db) && !ok && !Linked(db.index, db.root) && !db.Valid()
    ensures 1 !in db.index && 2 in db.index && db.index[2].previous == 1 && db.root.id == 0
  {
    db := new Database(Block(0, 0, 7, 5, true));
    AddBranches(db);
    ok := db.MarkValid(db.index[1]);
    ok := db.MarkValid(db.index[3]);
    assert db.head.id == 3;
    LinkedIsNumbered(db.index, db.root);
    assert db.index[2].previous == 1 && Under(db.index, 1, 1) && Under(db.index, 2, 1);
    assert db.index[3].previous == 0 && !Under(db.index, 0, 1);
    ok := db.AdvanceRoot(1);
  }

  method AddTie(db: Database) returns (head: Block)
    requires db.Valid() && db.index == map[] && db.root == Block(0, 0, 7, 5, true) && db.head == db.root
    modifies db`index, db`head
    ensures db.Valid() && db.index == map[2 := Block(2, 0, 8, 5, true), 1 := Block(1, 0, 8, 5, true)]
    ensures head == db.head && head.id == 2
  {
    var a, b := Block(2, 0, 8, 5, false), Block(1, 0, 8, 5, false);
    var r := db.Add(a, false);
    r := db.Add(b, false);
    assert db.index == map[2 := a, 1 := b] && db.head.id == 0;
    var ok := db.MarkValid(a);
    ok := db.MarkValid(b);
    head := db.head;
  }

  /** Two validated blocks of one height, 2 validated first: adding block 3, which is not validated,
      moves the head from 2 to 1. */
  method TieMovesHead() returns (db: Database, before: Block)
    ensures fresh(db) && db.Valid() && before.id == 2 && db.head.id == 1
    ensures db.index.Keys == {1, 2, 3} && db.index[1].validated && db.index[2].validated && !db.index[3].validated
    ensures db.index[2].num == db.index[1].num && db.index[2].lib == db.index[1].lib
  {
    db := new Database(Block(0, 0, 7, 5, true));
    before := AddTie(db);
    var n := Block(3, 0, 8, 5, false);
    var r := db.Add(n, false);
    assert db.index == map[2 := Block(2, 0, 8, 5, true), 1 := Block(1, 0, 8, 5, true), 3 := n];
    assert db.index[1].validated;
  }
}
