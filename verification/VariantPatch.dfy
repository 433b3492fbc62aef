/** The diff read as a patch: what replaying it on the left value gives. */
module VariantPatch {
  import opened Collections
  import opened VariantDiff

  function DropKey(es: seq<Entry>, k: string): seq<Entry> {
    if es == [] then [] else (if es[0].key == k then [] else [es[0]]) + DropKey(es[1..], k)
  }

  function SetKey(es: seq<Entry>, k: string, v: Variant): seq<Entry> {
    if es == [] then [] else [if es[0].key == k then Entry(k, v) else es[0]] + SetKey(es[1..], k, v)
  }

  /**
   * One change carried out: a null on the right removes the member, or cuts the array off there;
   * anything else replaces the member, or adds it at the end. Other paths change nothing.
   */
  function Carry(v: Variant, path: Path, right: Variant): Variant
    decreases path
  {
    if path == [] then right
    else match (v, path[0])
      case (Object(es), Key(k)) =>
        if |path| == 1 && right.Null? then Object(DropKey(es, k))
        else if HasKey(es, k) then Object(SetKey(es, k, Carry(Get(es, k), path[1..], right)))
        else if |path| == 1 then Object(es + [Entry(k, right)])
        else v
      case (Array(xs), Index(i)) =>
        if |path| == 1 && right.Null? then Array(if i < |xs| then xs[..i] else xs)
        else if i < |xs| then Array(xs[i := Carry(xs[i], path[1..], right)])
        else if i == |xs| && |path| == 1 then Array(xs + [right])
        else v
      case _ => v
  }

  function Replay(v: Variant, cs: seq<Change>): Variant
    decreases |cs|
  {
    if cs == [] then v else Replay(Carry(v, cs[0].path, cs[0].right), cs[1..])
  }

  lemma {:induction false} ReplayConcat(v: Variant, a: seq<Change>, b: seq<Change>)
    ensures Replay(v, a + b) == Replay(Replay(v, a), b)
    decreases |a|
  {
    if a == [] {
      assert a + b == b;
    } else {
      assert (a + b)[1..] == a[1..] + b;
      ReplayConcat(Carry(v, a[0].path, a[0].right), a[1..], b);
    }
  }

  // ---------------------------------------------------------------------------------------
  // When replaying gives the right value back: no null of the right value is new
  // ---------------------------------------------------------------------------------------

  /** Below the root, the right value holds a null only where the left value does. */
  ghost predicate NoNewNull(l: Variant, r: Variant)
    decreases l
  {
    match (l, r)
    case (Object(le), Object(re)) =>
      forall k :: NoNewNullAt(le, re, k)
    case (Array(la), Array(ra)) =>
      && (forall i :: |la| <= i < |ra| ==> !ra[i].Null?)
      && (forall i :: 0 <= i < |la| && i < |ra| ==> (ra[i].Null? ==> la[i].Null?) && NoNewNull(la[i], ra[i]))
    case _ => true
  }

  ghost predicate NoNewNullAt(le: seq<Entry>, re: seq<Entry>, k: string)
    decreases le
  {
    HasKey(re, k) ==>
      if HasKey(le, k) then (Get(re, k).Null? ==> Get(le, k).Null?) && NoNewNull(Get(le, k), Get(re, k))
      else !Get(re, k).Null?
  }

  /** No null anywhere below the root. */
  ghost predicate NullFree(v: Variant) {
    match v
    case Object(es) => forall e :: e in es ==> !e.value.Null? && NullFree(e.value)
    case Array(xs) => forall x :: x in xs ==> !x.Null? && NullFree(x)
    case _ => true
  }

  lemma {:induction false} NullFreeHasNoNewNull(l: Variant, r: Variant)
    requires NullFree(r)
    ensures NoNewNull(l, r)
    decreases l
  {
    match (l, r) {
      case (Object(le), Object(re)) =>
        forall k ensures NoNewNullAt(le, re, k) {
          if HasKey(re, k) {
            assert Entry(k, Get(re, k)) in re;
            if HasKey(le, k) {
              NullFreeHasNoNewNull(Get(le, k), Get(re, k));
            }
          }
        }
      case (Array(la), Array(ra)) =>
        forall i | 0 <= i < |la| && i < |ra| ensures NoNewNull(la[i], ra[i]) {
          NullFreeHasNoNewNull(la[i], ra[i]);
        }
      case _ =>
    }
  }

  // ---------------------------------------------------------------------------------------
  // Replaying under one key or index
  // ---------------------------------------------------------------------------------------

  /** None of the changes removes the whole value. */
  predicate KeepsRoot(cs: seq<Change>) {
    forall i :: 0 <= i < |cs| && cs[i].path == [] ==> !cs[i].right.Null?
  }

  /** What an object holds under a key. */
  function Member(v: Variant, k: string): Option<Variant> {
    if v.Object? && HasKey(v.entries, k) then Some(Get(v.entries, k)) else None
  }

  lemma {:induction false} MemberSet(es: seq<Entry>, k: string, v: Variant, q: string)
    ensures HasKey(SetKey(es, k, v), q) <==> HasKey(es, q)
    ensures HasKey(es, q) ==> Get(SetKey(es, k, v), q) == if q == k then v else Get(es, q)
  {
    if es != [] {
      MemberSet(es[1..], k, v, q);
    }
  }

  lemma {:induction false} MemberDrop(es: seq<Entry>, k: string, q: string)
    ensures HasKey(DropKey(es, k), q) <==> HasKey(es, q) && q != k
    ensures HasKey(DropKey(es, k), q) ==> Get(DropKey(es, k), q) == Get(es, q)
  {
    if es != [] {
      MemberDrop(es[1..], k, q);
      if es[0].key != k {
        assert DropKey(es, k)[1..] == DropKey(es[1..], k);
      } else {
        assert DropKey(es, k) == DropKey(es[1..], k);
      }
    }
  }

  lemma {:induction false} MemberAppend(es: seq<Entry>, e: Entry, q: string)
    ensures HasKey(es + [e], q) <==> HasKey(es, q) || e.key == q
    ensures HasKey(es + [e], q) ==> Get(es + [e], q) == if HasKey(es, q) then Get(es, q) else e.value
  {
    if es == [] {
      assert es + [e] == [e];
      assert [e][1..] == [];
    } else {
      assert (es + [e])[1..] == es[1..] + [e];
      MemberAppend(es[1..], e, q);
    }
  }

  /** A change under one key shows only there. */
  lemma CarryMember(o: Variant, k: string, path: Path, right: Variant, q: string)
    requires o.Object?
    ensures Carry(o, [Key(k)] + path, right).Object?
    ensures q != k ==> Member(Carry(o, [Key(k)] + path, right), q) == Member(o, q)
    ensures path == [] && right.Null? ==> Member(Carry(o, [Key(k)] + path, right), k) == None
    ensures path == [] && !right.Null? ==> Member(Carry(o, [Key(k)] + path, right), k) == Some(right)
    ensures path != [] && Member(o, k).Some? ==>
      Member(Carry(o, [Key(k)] + path, right), k) == Some(Carry(Member(o, k).value, path, right))
  {
    var p := [Key(k)] + path;
    assert p[0] == Key(k) && p[1..] == path;
    if path == [] && right.Null? {
      MemberDrop(o.entries, k, q);
      MemberDrop(o.entries, k, k);
    } else if HasKey(o.entries, k) {
      MemberSet(o.entries, k, Carry(Get(o.entries, k), path, right), q);
      MemberSet(o.entries, k, Carry(Get(o.entries, k), path, right), k);
    } else if path == [] {
      MemberAppend(o.entries, Entry(k, right), q);
      MemberAppend(o.entries, Entry(k, right), k);
    }
  }

  lemma {:induction false} ReplayUnderKey(o: Variant, k: string, cs: seq<Change>, q: string)
    requires o.Object?
    ensures Replay(o, Prefix(Key(k), cs)).Object?
    ensures q != k ==> Member(Replay(o, Prefix(Key(k), cs)), q) == Member(o, q)
    ensures Member(o, k).Some? && KeepsRoot(cs) ==>
      Member(Replay(o, Prefix(Key(k), cs)), k) == Some(Replay(Member(o, k).value, cs))
    decreases |cs|
  {
    if cs == [] {
      assert Prefix(Key(k), cs) == [];
    } else {
      var ps := Prefix(Key(k), cs);
      assert ps[0].path == [Key(k)] + cs[0].path;
      assert ps[1..] == Prefix(Key(k), cs[1..]);
      CarryMember(o, k, cs[0].path, cs[0].right, q);
      ReplayUnderKey(Carry(o, ps[0].path, ps[0].right), k, cs[1..], q);
    }
  }

  lemma {:induction false} ReplayUnderIndex(pre: seq<Variant>, x: Variant, post: seq<Variant>, cs: seq<Change>)
    requires KeepsRoot(cs)
    ensures Replay(Array(pre + [x] + post), Prefix(Index(|pre|), cs)) == Array(pre + [Replay(x, cs)] + post)
    decreases |cs|
  {
    if cs != [] {
      var xs, ps := pre + [x] + post, Prefix(Index(|pre|), cs);
      assert ps[0].path[1..] == cs[0].path;
      assert ps[1..] == Prefix(Index(|pre|), cs[1..]);
      var v := Carry(x, cs[0].path, cs[0].right);
      assert xs[|pre| := v] == pre + [v] + post;
      assert Carry(Array(xs), ps[0].path, ps[0].right) == Array(pre + [v] + post);
      ReplayUnderIndex(pre, v, post, cs[1..]);
    }
  }

  /** A diff against a value that is not null never removes the root. */
  lemma DiffKeepsRoot(l: Variant, r: Variant)
    requires !r.Null?
    ensures KeepsRoot(Diff(l, r))
  {
    if SameType(l, r) && (l.Object? || l.Array?) {
      if l.Object? {
        DiffLeftPaths(l.entries, r.entries);
        AddedPaths(l.entries, r.entries);
      } else {
        DiffElemsPaths(l.elems, r.elems, 0);
      }
    }
  }

  lemma {:induction false} DiffLeftPaths(le: seq<Entry>, re: seq<Entry>)
    ensures forall c :: c in DiffLeft(le, re) ==> |c.path| > 0 && c.path[0].Key? && HasKey(le, c.path[0].key)
  {
    if le != [] {
      DiffLeftPaths(le[1..], re);
      forall c | c in DiffLeft(le, re) ensures |c.path| > 0 && c.path[0].Key? && HasKey(le, c.path[0].key) {
        if c in DiffEntry(le[0], re) {
          assert c.path[0] == Key(le[0].key);
        } else {
        }
      }
    }
  }

  lemma {:induction false} AddedPaths(le: seq<Entry>, re: seq<Entry>)
    ensures forall c :: c in Added(le, re) ==>
      |c.path| == 1 && c.path[0].Key? && !HasKey(le, c.path[0].key) && HasKey(re, c.path[0].key)
  {
    if re != [] {
      AddedPaths(le, re[1..]);
      forall c | c in Added(le, re)
        ensures |c.path| == 1 && c.path[0].Key? && !HasKey(le, c.path[0].key) && HasKey(re, c.path[0].key)
      {
      }
    }
  }

  lemma {:induction false} DiffElemsPaths(la: seq<Variant>, ra: seq<Variant>, at: nat)
    ensures forall c :: c in DiffElems(la, ra, at) ==> |c.path| > 0 && c.path[0].Index? && at <= c.path[0].index
    decreases |la| + |ra|
  {
    if la != [] && ra != [] {
      DiffElemsPaths(la[1..], ra[1..], at + 1);
    } else if la != [] {
      DiffElemsPaths(la[1..], [], at + 1);
    } else if ra != [] {
      DiffElemsPaths([], ra[1..], at + 1);
    }
  }

  // ---------------------------------------------------------------------------------------
  // Replaying the diff of two objects
  // ---------------------------------------------------------------------------------------

  /** What becomes of a left member: it goes when its key is not on the right, or is a new null there. */
  function PatchMember(v: Variant, re: seq<Entry>, k: string): Option<Variant> {
    if !HasKey(re, k) || (Get(re, k).Null? && !v.Null?) then None
    else Some(Replay(v, Diff(v, Get(re, k))))
  }

  lemma ReplayOne(v: Variant, c: Change)
    ensures Replay(v, [c]) == Carry(v, c.path, c.right)
  {
  }

  lemma ReplayThen(v: Variant, a: seq<Change>, v': Variant, b: seq<Change>)
    requires Replay(v, a) == v'
    ensures Replay(v, a + b) == Replay(v', b)
  {
    ReplayConcat(v, a, b);
  }

  lemma ReplayEntry(o: Variant, e: Entry, re: seq<Entry>, q: string)
    requires o.Object?
    ensures Replay(o, DiffEntry(e, re)).Object?
    ensures q != e.key ==> Member(Replay(o, DiffEntry(e, re)), q) == Member(o, q)
    ensures Member(o, e.key) == Some(e.value) ==>
      Member(Replay(o, DiffEntry(e, re)), e.key) == PatchMember(e.value, re, e.key)
  {
    if !HasKey(re, e.key) {
      RemoveOne(o, e.key, e.value, q);
    } else {
      var cs := Diff(e.value, Get(re, e.key));
      ReplayUnderKey(o, e.key, cs, q);
      if Get(re, e.key).Null? && !e.value.Null? {
        assert cs == [Change([], e.value, Null)];
        assert [Key(e.key)] + [] == [Key(e.key)];
        assert Prefix(Key(e.key), cs) == [Change([Key(e.key)], e.value, Null)];
        RemoveOne(o, e.key, e.value, q);
      } else if !Get(re, e.key).Null? {
        DiffKeepsRoot(e.value, Get(re, e.key));
      }
    }
  }

  lemma RemoveOne(o: Variant, k: string, left: Variant, q: string)
    requires o.Object?
    ensures var o' := Replay(o, [Change([Key(k)], left, Null)]);
      o'.Object? && Member(o', k) == None && (q != k ==> Member(o', q) == Member(o, q))
  {
    var c := Change([Key(k)], left, Null);
    ReplayOne(o, c);
    assert [Key(k)] + [] == [Key(k)];
    CarryMember(o, k, [], Null, q);
  }

  lemma {:induction false} ReplayLeft(o: Variant, le: seq<Entry>, re: seq<Entry>, k: string)
    requires o.Object? && UniqueKeys(le)
    requires HasKey(le, k) ==> Member(o, k) == Some(Get(le, k))
    ensures Replay(o, DiffLeft(le, re)).Object?
    ensures Member(Replay(o, DiffLeft(le, re)), k) ==
            if HasKey(le, k) then PatchMember(Get(le, k), re, k) else Member(o, k)
    decreases |le|
  {
    if le != [] {
      var o' := Replay(o, DiffEntry(le[0], re));
      ReplayEntry(o, le[0], re, k);
      ReplayThen(o, DiffEntry(le[0], re), o', DiffLeft(le[1..], re));
      ReplayLeft(o', le[1..], re, k);
    }
  }

  lemma {:induction false} ReplayAdded(o: Variant, le: seq<Entry>, re: seq<Entry>, k: string)
    requires o.Object? && UniqueKeys(re)
    requires HasKey(re, k) && !HasKey(le, k) ==> Member(o, k) == None
    ensures Replay(o, Added(le, re)).Object?
    ensures Member(Replay(o, Added(le, re)), k) ==
            if HasKey(re, k) && !HasKey(le, k) then (if Get(re, k).Null? then None else Some(Get(re, k)))
            else Member(o, k)
    decreases |re|
  {
    if re != [] {
      var e := re[0];
      var cs := if HasKey(le, e.key) then [] else [Change([Key(e.key)], Null, e.value)];
      var o' := Replay(o, cs);
      if !HasKey(le, e.key) {
        ReplayOne(o, cs[0]);
        assert [Key(e.key)] + [] == [Key(e.key)];
        CarryMember(o, e.key, [], e.value, k);
      }
      ReplayThen(o, cs, o', Added(le, re[1..]));
      ReplayAdded(o', le, re[1..], k);
    }
  }

  /** The replayed object, key by key. */
  lemma ReplayObject(le: seq<Entry>, re: seq<Entry>, k: string)
    requires UniqueKeys(le) && UniqueKeys(re)
    ensures var o := Replay(Object(le), Diff(Object(le), Object(re)));
      && o.Object?
      && Member(o, k) == if HasKey(le, k) then PatchMember(Get(le, k), re, k)
                         else if HasKey(re, k) && !Get(re, k).Null? then Some(Get(re, k)) else None
  {
    var o := Replay(Object(le), DiffLeft(le, re));
    ReplayLeft(Object(le), le, re, k);
    ReplayThen(Object(le), DiffLeft(le, re), o, Added(le, re));
    ReplayAdded(o, le, re, k);
  }

  // ---------------------------------------------------------------------------------------
  // Replaying the diff of two arrays
  // ---------------------------------------------------------------------------------------

  /** The elements the replay ends with: it stops at the end of `ra` or at its first new null. */
  function PatchElems(la: seq<Variant>, ra: seq<Variant>): seq<Variant> {
    if ra == [] then []
    else if la == [] then (if ra[0].Null? then [] else [ra[0]] + PatchElems([], ra[1..]))
    else if ra[0].Null? && !la[0].Null? then []
    else [Replay(la[0], Diff(la[0], ra[0]))] + PatchElems(la[1..], ra[1..])
  }

  /** Changes past the end of an array leave it alone. */
  lemma {:induction false} ReplayBeyond(xs: seq<Variant>, cs: seq<Change>)
    requires forall c :: c in cs ==> |c.path| > 0 && c.path[0].Index? && |xs| < c.path[0].index
    ensures Replay(Array(xs), cs) == Array(xs)
    decreases |cs|
  {
    if cs != [] {
      assert cs[0] in cs;
      ReplayBeyond(xs, cs[1..]);
    }
  }

  /** A change that cuts or leaves the array at `pre` makes everything after it idle. */
  lemma ReplayCut(pre: seq<Variant>, post: seq<Variant>, left: Variant, la: seq<Variant>, ra: seq<Variant>)
    ensures Replay(Array(pre + post), [Change([Index(|pre|)], left, Null)] + DiffElems(la, ra, |pre| + 1)) == Array(pre)
  {
    var c := Change([Index(|pre|)], left, Null);
    ReplayConcat(Array(pre + post), [c], DiffElems(la, ra, |pre| + 1));
    ReplayOne(Array(pre + post), c);
    assert (pre + post)[..|pre|] == pre;
    assert post == [] ==> pre + post == pre;
    DiffElemsPaths(la, ra, |pre| + 1);
    ReplayBeyond(pre, DiffElems(la, ra, |pre| + 1));
  }

  lemma NewNullChange(x: Variant, at: nat)
    requires !x.Null?
    ensures Prefix(Index(at), Diff(x, Null)) == [Change([Index(at)], x, Null)]
  {
    assert [Index(at)] + [] == [Index(at)];
  }

  lemma ReplayCommon(pre: seq<Variant>, la: seq<Variant>, ra: seq<Variant>)
    requires la != [] && ra != [] && (ra[0].Null? ==> la[0].Null?)
    ensures Replay(Array(pre + la), Prefix(Index(|pre|), Diff(la[0], ra[0]))) ==
            Array(pre + [Replay(la[0], Diff(la[0], ra[0]))] + la[1..])
  {
    assert pre + la == pre + [la[0]] + la[1..];
    if ra[0].Null? {
      assert Diff(la[0], ra[0]) == [];
    } else {
      DiffKeepsRoot(la[0], ra[0]);
    }
    ReplayUnderIndex(pre, la[0], la[1..], Diff(la[0], ra[0]));
  }

  lemma {:induction false} ReplayAppend(pre: seq<Variant>, ra: seq<Variant>)
    ensures Replay(Array(pre), DiffElems([], ra, |pre|)) == Array(pre + PatchElems([], ra))
    decreases |ra|
  {
    if ra == [] {
    } else if ra[0].Null? {
      assert pre + [] == pre;
      ReplayCut(pre, [], Null, [], ra[1..]);
    } else {
      var c, rest := Change([Index(|pre|)], Null, ra[0]), DiffElems([], ra[1..], |pre| + 1);
      ReplayOne(Array(pre), c);
      ReplayThen(Array(pre), [c], Array(pre + [ra[0]]), rest);
      ReplayAppend(pre + [ra[0]], ra[1..]);
      assert pre + [ra[0]] + PatchElems([], ra[1..]) == pre + ([ra[0]] + PatchElems([], ra[1..]));
    }
  }

  lemma {:induction false} ReplayElems(pre: seq<Variant>, la: seq<Variant>, ra: seq<Variant>)
    ensures Replay(Array(pre + la), DiffElems(la, ra, |pre|)) == Array(pre + PatchElems(la, ra))
    decreases |la| + |ra|
  {
    if la == [] {
      assert pre + la == pre;
      ReplayAppend(pre, ra);
    } else if ra == [] {
      assert pre + [] == pre;
      ReplayCut(pre, la, la[0], la[1..], []);
    } else if ra[0].Null? && !la[0].Null? {
      assert pre + [] == pre;
      ReplayCut(pre, la, la[0], la[1..], ra[1..]);
      NewNullChange(la[0], |pre|);
    } else {
      var x := Replay(la[0], Diff(la[0], ra[0]));
      ReplayHead(pre, la, ra, x);
      ReplayElems(pre + [x], la[1..], ra[1..]);
      Regroup(pre, [x], PatchElems(la[1..], ra[1..]), PatchElems(la, ra));
    }
  }

  lemma ReplayHead(pre: seq<Variant>, la: seq<Variant>, ra: seq<Variant>, x: Variant)
    requires la != [] && ra != [] && (ra[0].Null? ==> la[0].Null?) && x == Replay(la[0], Diff(la[0], ra[0]))
    ensures Replay(Array(pre + la), DiffElems(la, ra, |pre|)) ==
            Replay(Array(pre + [x] + la[1..]), DiffElems(la[1..], ra[1..], |pre| + 1))
  {
    ReplayCommon(pre, la, ra);
    ReplayThen(Array(pre + la), Prefix(Index(|pre|), Diff(la[0], ra[0])), Array(pre + [x] + la[1..]),
               DiffElems(la[1..], ra[1..], |pre| + 1));
  }

  // ---------------------------------------------------------------------------------------
  // The main result
  // ---------------------------------------------------------------------------------------

  lemma {:induction false} EquivReflexive(v: Variant)
    ensures Equiv(v, v)
  {
    match v {
      case Object(es) =>
        forall k ensures EquivAt(es, es, k) {
          if HasKey(es, k) {
            EquivReflexive(Get(es, k));
          }
        }
      case Array(xs) =>
        forall i | 0 <= i < |xs| ensures Equiv(xs[i], xs[i]) {
          EquivReflexive(xs[i]);
        }
      case _ =>
    }
  }

  /** Replaying the diff of one pair gives the right value back exactly when it has no new null. */
  ghost predicate PatchWorks(l: Variant, r: Variant) {
    Equiv(Replay(l, Diff(l, r)), r) <==> NoNewNull(l, r)
  }

  lemma {:induction false} PatchElemsExactly(la: seq<Variant>, ra: seq<Variant>)
    requires forall i :: 0 <= i < |la| && i < |ra| ==> PatchWorks(la[i], ra[i])
    ensures Equiv(Array(PatchElems(la, ra)), Array(ra)) <==> NoNewNull(Array(la), Array(ra))
  {
    if ra == [] {
    } else {
      var la' := if la == [] then [] else la[1..];
      assert forall i :: 0 <= i < |la'| ==> la'[i] == la[i + 1];
      PatchElemsExactly(la', ra[1..]);
      ElemsNoNewNull(la, ra);
      if la == [] || !(ra[0].Null? && !la[0].Null?) {
        if la != [] || !ra[0].Null? {
          if la == [] {
            EquivReflexive(ra[0]);
          } else {
            assert PatchWorks(la[0], ra[0]);
          }
          var x := PatchElems(la, ra)[0];
          assert PatchElems(la, ra) == [x] + PatchElems(la', ra[1..]);
          EquivCons(x, PatchElems(la', ra[1..]), ra);
        }
      }
    }
  }

  lemma EquivCons(x: Variant, xs: seq<Variant>, ra: seq<Variant>)
    requires ra != []
    ensures Equiv(Array([x] + xs), Array(ra)) <==> Equiv(x, ra[0]) && Equiv(Array(xs), Array(ra[1..]))
  {
    if Equiv(Array([x] + xs), Array(ra)) {
      assert ([x] + xs)[0] == x;
      forall i | 0 <= i < |xs| ensures Equiv(xs[i], ra[1..][i]) {
        assert ([x] + xs)[i + 1] == xs[i];
      }
    }
    if Equiv(x, ra[0]) && Equiv(Array(xs), Array(ra[1..])) {
      forall i | 0 <= i < |ra| ensures Equiv(([x] + xs)[i], ra[i]) {
        if i > 0 {
          assert ([x] + xs)[i] == xs[i - 1] && ra[i] == ra[1..][i - 1];
        }
      }
    }
  }

  lemma ElemsNoNewNull(la: seq<Variant>, ra: seq<Variant>)
    requires ra != []
    ensures NoNewNull(Array(la), Array(ra)) <==>
      && (if la == [] then !ra[0].Null? else (ra[0].Null? ==> la[0].Null?) && NoNewNull(la[0], ra[0]))
      && NoNewNull(Array(if la == [] then [] else la[1..]), Array(ra[1..]))
  {
    var la' := if la == [] then [] else la[1..];
    var ra' := ra[1..];
    if NoNewNull(Array(la), Array(ra)) {
      forall i | |la'| <= i < |ra'| ensures !ra'[i].Null? {
        assert ra'[i] == ra[i + 1];
      }
      forall i | 0 <= i < |la'| && i < |ra'| ensures (ra'[i].Null? ==> la'[i].Null?) && NoNewNull(la'[i], ra'[i]) {
        assert ra'[i] == ra[i + 1] && la'[i] == la[i + 1];
      }
    }
    if && (if la == [] then !ra[0].Null? else (ra[0].Null? ==> la[0].Null?) && NoNewNull(la[0], ra[0]))
       && NoNewNull(Array(la'), Array(ra')) {
      forall i | |la| <= i < |ra| ensures !ra[i].Null? {
        assert i > 0 ==> ra[i] == ra'[i - 1];
      }
      forall i | 0 <= i < |la| && i < |ra| ensures (ra[i].Null? ==> la[i].Null?) && NoNewNull(la[i], ra[i]) {
        assert i > 0 ==> ra[i] == ra'[i - 1] && la[i] == la'[i - 1];
      }
    }
  }

  lemma PatchMemberExactly(le: seq<Entry>, re: seq<Entry>, k: string)
    requires UniqueKeys(le) && UniqueKeys(re)
    requires HasKey(le, k) && HasKey(re, k) ==> PatchWorks(Get(le, k), Get(re, k))
    ensures var o := Replay(Object(le), Diff(Object(le), Object(re)));
      o.Object? && (EquivAt(o.entries, re, k) <==> NoNewNullAt(le, re, k))
  {
    ReplayObject(le, re, k);
    if HasKey(re, k) {
      EquivReflexive(Get(re, k));
    }
  }

  lemma PatchObjectExactly(le: seq<Entry>, re: seq<Entry>)
    requires UniqueKeys(le) && UniqueKeys(re)
    requires forall k :: HasKey(le, k) && HasKey(re, k) ==> PatchWorks(Get(le, k), Get(re, k))
    ensures PatchWorks(Object(le), Object(re))
  {
    var o := Replay(Object(le), Diff(Object(le), Object(re)));
    ReplayObject(le, re, "");
    forall k ensures EquivAt(o.entries, re, k) <==> NoNewNullAt(le, re, k) {
      PatchMemberExactly(le, re, k);
    }
  }

  /**
   * Replaying the reported changes on the left value gives the right value, up to key order,
   * exactly when below its root the right value has no null that the left value does not have.
   */
  lemma {:induction false} DiffIsPatch(l: Variant, r: Variant)
    requires WellFormed(l) && WellFormed(r)
    ensures Equiv(Replay(l, Diff(l, r)), r) <==> NoNewNull(l, r)
    decreases l
  {
    if !SameType(l, r) {
      ReplayOne(l, Change([], l, r));
      EquivReflexive(r);
    } else {
      match l {
        case Object(le) =>
          forall k | HasKey(le, k) && HasKey(r.entries, k) ensures PatchWorks(Get(le, k), Get(r.entries, k)) {
            assert Entry(k, Get(le, k)) in le && Entry(k, Get(r.entries, k)) in r.entries;
            DiffIsPatch(Get(le, k), Get(r.entries, k));
          }
          PatchObjectExactly(le, r.entries);
        case Array(la) =>
          forall i | 0 <= i < |la| && i < |r.elems| ensures PatchWorks(la[i], r.elems[i]) {
            DiffIsPatch(la[i], r.elems[i]);
          }
          assert [] + la == la && [] + PatchElems(la, r.elems) == PatchElems(la, r.elems);
          ReplayElems([], la, r.elems);
          PatchElemsExactly(la, r.elems);
        case _ =>
          EquivReflexive(r);
      }
    }
  }

  /** In particular the diff is a patch for every right value without nulls. */
  lemma NullFreeDiffIsPatch(l: Variant, r: Variant)
    requires WellFormed(l) && WellFormed(r) && NullFree(r)
    ensures Equiv(Replay(l, Diff(l, r)), r)
  {
    DiffIsPatch(l, r);
    NullFreeHasNoNewNull(l, r);
  }

  /** The smallest diff that is no patch: a null that is added under any key. */
  lemma NewNullIsLost(k: string)
    ensures
      var l, r := Object([]), Object([Entry(k, Null)]);
      WellFormed(l) && WellFormed(r) && !Equiv(Replay(l, Diff(l, r)), r)
  {
    var l, r := Object([]), Object([Entry(k, Null)]);
    assert WellFormed(Null);
    forall e | e in r.entries
      ensures WellFormed(e.value)
    {
      assert e == Entry(k, Null);
    }
    assert HasKey(r.entries, k) && Get(r.entries, k).Null?;
    assert !NoNewNullAt(l.entries, r.entries, k);
    DiffIsPatch(l, r);
  }
}
