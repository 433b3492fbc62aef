/** Which block is the head: the order of the index and the comparison of heads
    (libraries/chain/fork_database.cpp, lines 35-60). */
module ForkChoice {

  import opened ForkTree

  predicate Preferred(a: Block, b: Block) {
    a.lib > b.lib || (a.lib == b.lib && a.num > b.num)
  }

  /** The order of the index: validated first, then the preferred, then the smaller id. */
  predicate Before(a: Block, b: Block) {
    if a.validated != b.validated then a.validated
    else Preferred(a, b) || (a.lib == b.lib && a.num == b.num && a.id < b.id)
  }

  ghost predicate Keyed(index: Index) {
    forall id :: id in index ==> index[id].id == id
  }

  predicate IsFirst(index: Index, ids: set<Id>, id: Id)
    requires ids <= index.Keys
  {
    id in ids && forall other :: other in ids ==> !Before(index[other], index[id])
  }

  lemma {:induction false} FirstExists(index: Index, ids: set<Id>) returns (id: Id)
    requires ids <= index.Keys && ids != {}
    ensures IsFirst(index, ids, id)
    decreases |ids|
  {
    id :| id in ids;
    var rest := ids - {id};
    assert forall other :: other in ids ==> other == id || other in rest;
    if rest != {} {
      var first := FirstExists(index, rest);
      if Before(index[first], index[id]) {
        id := first;
      }
    }
  }

  /** The head is the root, or a validated block of the index. */
  ghost predicate HeadIn(index: Index, root: Block, head: Block) {
    || (head.id == root.id && head.num == root.num && head.lib == root.lib)
    || (head.id in index && index[head.id].validated && index[head.id].num == head.num && index[head.id].lib == head.lib)
  }

  /** No validated block has a higher irreversible block than the head, or the same one and a higher number. */
  ghost predicate Best(index: Index, head: Block) {
    forall id :: id in index && index[id].validated ==>
      index[id].lib < head.lib || (index[id].lib == head.lib && index[id].num <= head.num)
  }

  ghost predicate SomeValidated(index: Index) {
    exists id :: id in index && index[id].validated
  }

  /** What add makes the head: the first block of the index, if that is validated. */
  ghost predicate HeadAfterAdd(index: Index, was: Block, head: Block) {
    if SomeValidated(index) then IsFirst(index, index.Keys, head.id) && head == index[head.id] else head == was
  }

  /** The first block of the index: a validated one if there is any, among these the one with the highest
      irreversible block, then the highest number, then the lowest id. */
  lemma FirstExactly(index: Index, id: Id)
    requires Keyed(index) && id in index
    ensures IsFirst(index, index.Keys, id) <==> forall other :: other in index ==>
      && (index[other].validated ==> index[id].validated)
      && (index[other].validated == index[id].validated ==>
        || index[other].lib < index[id].lib
        || (index[other].lib == index[id].lib && index[other].num < index[id].num)
        || (index[other].lib == index[id].lib && index[other].num == index[id].num && id <= other))
  {
    if IsFirst(index, index.Keys, id) {
      forall other | other in index
        ensures !Before(index[other], index[id]) && index[other].id == other
      {
      }
    }
  }

  lemma FirstIsValidated(index: Index, id: Id)
    requires IsFirst(index, index.Keys, id)
    ensures index[id].validated <==> SomeValidated(index)
    ensures index[id].validated ==> Best(index, index[id])
  {
    forall other | other in index && index[other].validated
      ensures index[id].validated && !Preferred(index[other], index[id])
    {
      assert !Before(index[other], index[id]);
    }
  }

  /** A validated block that would displace the head when any block is added: all of them if the
      head is the root, and those that tie with it and have a smaller id. */
  ghost predicate Displaces(index: Index, head: Block, id: Id)
    requires id in index
  {
    index[id].validated && (head.id !in index || (index[id].num == head.num && index[id].lib == head.lib && id < head.id))
  }

  /** Adding a block that is not validated changes the head if and only if there is such a block. */
  lemma AddChangesHead(index: Index, root: Block, head: Block, n: Block, after: Block)
    requires Keyed(index) && HeadIn(index, root, head) && Best(index, head) && root.id !in index
    requires n.id !in index && n.id != root.id && !n.validated
    requires HeadAfterAdd(index[n.id := n], head, after)
    ensures after.id != head.id <==> exists id :: id in index && Displaces(index, head, id)
  {
    var longer := index[n.id := n];
    if SomeValidated(longer) {
      FirstIsValidated(longer, after.id);
      assert after.id in index && index[after.id].validated;
      assert !Preferred(index[after.id], head);
      if head.id in index {
        assert !Before(longer[head.id], longer[after.id]);
        if after.id != head.id {
          assert Displaces(index, head, after.id);
        }
        forall id | id in index && Displaces(index, head, id)
          ensures after.id != head.id
        {
          assert !Before(longer[id], longer[after.id]);
        }
      } else {
        assert Displaces(index, head, after.id);
      }
    } else {
      forall id | id in index
        ensures !Displaces(index, head, id)
      {
        assert longer[id] == index[id];
      }
    }
  }
}
