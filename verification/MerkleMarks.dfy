/** What a Merkle root says about the leaves, when left and right are marked in the digests that are
    hashed (libraries/chain/merkle.cpp, lines 14-24, and merkle.hpp, lines 13-15). */
module MerkleMarks {
  import opened Merkle

  /** A digest of 256 bits, as four words. */
  datatype Digest = Digest(w0: bv64, w1: bv64, w2: bv64, w3: bv64)

  type Hash = (Digest, Digest) -> Digest

  function Clear(w: bv64): bv64 {
    w & 0xFFFF_FFFF_FFFF_FF7F
  }

  function Mark(w: bv64): bv64 {
    w | 0x80
  }

  function MakeLeft(d: Digest): Digest {
    d.(w0 := Clear(d.w0))
  }

  function MakeRight(d: Digest): Digest {
    d.(w0 := Mark(d.w0))
  }

  /** The digest of two others: their marked copies are hashed. */
  function Canonical(hash: Hash): Hash {
    (l, r) => hash(MakeLeft(l), MakeRight(r))
  }

  /** The digests have the same bits, apart from the marked one. */
  predicate Same(a: Digest, b: Digest) {
    Clear(a.w0) == Clear(b.w0) && a.w1 == b.w1 && a.w2 == b.w2 && a.w3 == b.w3
  }

  lemma ClearMark(w: bv64)
    ensures Clear(Mark(w)) == Clear(w)
  {
  }

  lemma MarkClear(w: bv64)
    ensures Mark(Clear(w)) == Mark(w)
  {
  }

  /** Two operations that undo each other's effect forget the same. */
  lemma ForgetAlike(clear: bv64 -> bv64, mark: bv64 -> bv64, v: bv64, w: bv64)
    requires clear(mark(v)) == clear(v) && mark(clear(v)) == mark(v) && clear(mark(w)) == clear(w) && mark(clear(w)) == mark(w)
    ensures mark(v) == mark(w) <==> clear(v) == clear(w)
  {
  }

  lemma MarkAgrees(v: bv64, w: bv64)
    ensures Mark(v) == Mark(w) <==> Clear(v) == Clear(w)
  {
    ClearMark(v);
    MarkClear(v);
    ClearMark(w);
    MarkClear(w);
    ForgetAlike(Clear, Mark, v, w);
  }

  /** Marking a digest, on either side, loses the marked bit and no other. */
  lemma MarksAgree(a: Digest, b: Digest)
    ensures MakeLeft(a) == MakeLeft(b) <==> Same(a, b)
    ensures MakeRight(a) == MakeRight(b) <==> Same(a, b)
  {
    MarkAgrees(a.w0, b.w0);
  }

  /** As is_canonical_left and is_canonical_right test it (lines 26-32). */
  predicate IsLeft(d: Digest) {
    d.w0 & 0x80 == 0
  }

  predicate IsRight(d: Digest) {
    d.w0 & 0x80 != 0
  }

  lemma ClearedBit(w: bv64)
    ensures Clear(w) & 0x80 == 0 && Clear(Clear(w)) == Clear(w)
  {
  }

  lemma MarkedBit(w: bv64)
    ensures Mark(w) & 0x80 == 0x80
  {
  }

  /** The bit tells left from right, and the rest of the digest is kept. */
  lemma SidesAreMarked(d: Digest)
    ensures IsLeft(MakeLeft(d)) && MakeLeft(d).w0 & 0x80 == 0 && Same(MakeLeft(d), d)
    ensures IsRight(MakeRight(d)) && MakeRight(d).w0 & 0x80 == 0x80 && Same(MakeRight(d), d)
  {
    ClearedBit(d.w0);
    MarkedBit(d.w0);
    ClearMark(d.w0);
  }

  predicate AllSame(xs: seq<Digest>, ys: seq<Digest>) {
    |xs| == |ys| && forall i :: 0 <= i < |xs| ==> Same(xs[i], ys[i])
  }

  // ---------------------------------------------------------------------------------------
  // What is hashed
  // ---------------------------------------------------------------------------------------

  function Doubled(xs: seq<Digest>): seq<Digest> {
    if |xs| % 2 == 1 then xs + [xs[|xs| - 1]] else xs
  }

  /** The pairs that are hashed for the next level. */
  function Marked(xs: seq<Digest>): (ps: seq<(Digest, Digest)>)
    ensures |ps| == |Doubled(xs)| / 2
  {
    var all := Doubled(xs);
    seq(|all| / 2, i requires 0 <= i < |all| / 2 => (MakeLeft(all[2 * i]), MakeRight(all[2 * i + 1])))
  }

  /** All pairs that are hashed for the root. */
  function Hashed(hash: Hash, xs: seq<Digest>): seq<(Digest, Digest)>
    decreases |xs|
  {
    if |xs| <= 1 then [] else Marked(xs) + Hashed(hash, Level(Canonical(hash), xs))
  }

  /** In every pair that is hashed, on every level, the first digest is a left one and the second a right one. */
  lemma {:induction false} HashedAreMarked(hash: Hash, xs: seq<Digest>, p: (Digest, Digest))
    requires p in Hashed(hash, xs)
    ensures p.0.w0 & 0x80 == 0 && p.1.w0 & 0x80 == 0x80
    decreases |xs|
  {
    if p in Marked(xs) {
      var i :| 0 <= i < |Marked(xs)| && Marked(xs)[i] == p;
      var all := Doubled(xs);
      SidesAreMarked(all[2 * i]);
      SidesAreMarked(all[2 * i + 1]);
    } else {
      HashedAreMarked(hash, Level(Canonical(hash), xs), p);
    }
  }

  /** Two pairs whose hashes are equal, or differ in the marked bit alone. */
  predicate Collide(hash: Hash, p: (Digest, Digest), q: (Digest, Digest)) {
    p != q && Same(hash(p.0, p.1), hash(q.0, q.1))
  }

  /** No two of the pairs hashed for the two roots collide. */
  predicate CollisionFree(hash: Hash, xs: seq<Digest>, ys: seq<Digest>) {
    forall p, q :: p in Hashed(hash, xs) && q in Hashed(hash, ys) ==> !Collide(hash, p, q)
  }

  lemma LevelIsHashed(hash: Hash, xs: seq<Digest>, i: nat)
    requires |xs| > 1 && i < |Marked(xs)|
    ensures |Level(Canonical(hash), xs)| == |Marked(xs)|
    ensures Level(Canonical(hash), xs)[i] == hash(Marked(xs)[i].0, Marked(xs)[i].1)
    ensures Marked(xs)[i] in Hashed(hash, xs)
  {
    assert Level(Canonical(hash), xs) == Pairs(Canonical(hash), Doubled(xs));
  }

  /** The marked pairs are equal exactly when the digests are the same. */
  lemma MarkedAgree(xs: seq<Digest>, ys: seq<Digest>)
    requires |xs| == |ys|
    ensures Marked(xs) == Marked(ys) <==> AllSame(xs, ys)
  {
    var all, all' := Doubled(xs), Doubled(ys);
    forall i | 0 <= i < |Marked(xs)|
      ensures Marked(xs)[i] == Marked(ys)[i] <==> Same(all[2 * i], all'[2 * i]) && Same(all[2 * i + 1], all'[2 * i + 1])
    {
      MarksAgree(all[2 * i], all'[2 * i]);
      MarksAgree(all[2 * i + 1], all'[2 * i + 1]);
    }
    if Marked(xs) == Marked(ys) {
      forall k | 0 <= k < |xs|
        ensures Same(xs[k], ys[k])
      {
        var i := k / 2;
        assert Marked(xs)[i] == Marked(ys)[i];
        assert k == 2 * i || k == 2 * i + 1;
      }
    }
  }

  lemma FreeAbove(hash: Hash, xs: seq<Digest>, ys: seq<Digest>)
    requires |xs| > 1 && |ys| > 1 && CollisionFree(hash, xs, ys)
    ensures CollisionFree(hash, Level(Canonical(hash), xs), Level(Canonical(hash), ys))
  {
  }

  lemma PairDetermines(hash: Hash, xs: seq<Digest>, ys: seq<Digest>, i: nat)
    requires |xs| == |ys| > 1 && i < |Marked(xs)| && CollisionFree(hash, xs, ys)
    ensures
      var above, above' := Level(Canonical(hash), xs), Level(Canonical(hash), ys);
      |above| == |above'| == |Marked(xs)| && (Same(above[i], above'[i]) <==> Marked(xs)[i] == Marked(ys)[i])
  {
    LevelIsHashed(hash, xs, i);
    LevelIsHashed(hash, ys, i);
    assert !Collide(hash, Marked(xs)[i], Marked(ys)[i]);
  }

  /** One level: without a collision, the level above says whether the digests are the same. */
  lemma LevelDetermines(hash: Hash, xs: seq<Digest>, ys: seq<Digest>)
    requires |xs| == |ys| > 1 && CollisionFree(hash, xs, ys)
    ensures AllSame(Level(Canonical(hash), xs), Level(Canonical(hash), ys)) <==> AllSame(xs, ys)
  {
    var above, above' := Level(Canonical(hash), xs), Level(Canonical(hash), ys);
    MarkedAgree(xs, ys);
    PairDetermines(hash, xs, ys, 0);
    forall i | 0 <= i < |above|
      ensures Same(above[i], above'[i]) <==> Marked(xs)[i] == Marked(ys)[i]
    {
      PairDetermines(hash, xs, ys, i);
    }
    if AllSame(above, above') {
      assert forall i :: 0 <= i < |above| ==> Marked(xs)[i] == Marked(ys)[i];
    }
  }

  /** Digests that differ in the marked bit alone have one root, whatever the hash. */
  lemma SameLeavesSameRoot(hash: Hash, xs: seq<Digest>, ys: seq<Digest>)
    requires |xs| > 1 && AllSame(xs, ys)
    ensures Root(Canonical(hash), xs) == Root(Canonical(hash), ys)
  {
    var above, above' := Level(Canonical(hash), xs), Level(Canonical(hash), ys);
    MarkedAgree(xs, ys);
    LevelIsHashed(hash, xs, 0);
    LevelIsHashed(hash, ys, 0);
    forall i | 0 <= i < |above|
      ensures above[i] == above'[i]
    {
      LevelIsHashed(hash, xs, i);
      LevelIsHashed(hash, ys, i);
    }
    assert above == above';
  }

  /** Unless two of the pairs that are hashed collide, equally many leaves have one root if and only
      if they are the same up to the marked bit. */
  lemma {:induction false} RootDetermines(hash: Hash, xs: seq<Digest>, ys: seq<Digest>)
    requires |xs| == |ys| > 1 && CollisionFree(hash, xs, ys)
    ensures Root(Canonical(hash), xs) == Root(Canonical(hash), ys) <==> AllSame(xs, ys)
    decreases |xs|
  {
    var above, above' := Level(Canonical(hash), xs), Level(Canonical(hash), ys);
    LevelDetermines(hash, xs, ys);
    if |above| > 1 {
      FreeAbove(hash, xs, ys);
      RootDetermines(hash, above, above');
    } else if AllSame(xs, ys) {
      SameLeavesSameRoot(hash, xs, ys);
    }
  }

  /** So two different lists of one length with one root give away a collision. */
  lemma EqualRootsCollide(hash: Hash, xs: seq<Digest>, ys: seq<Digest>) returns (p: (Digest, Digest), q: (Digest, Digest))
    requires |xs| == |ys| > 1 && Root(Canonical(hash), xs) == Root(Canonical(hash), ys) && !AllSame(xs, ys)
    ensures p in Hashed(hash, xs) && q in Hashed(hash, ys) && Collide(hash, p, q)
  {
    if CollisionFree(hash, xs, ys) {
      RootDetermines(hash, xs, ys);
      assert false;
    }
    p, q :| p in Hashed(hash, xs) && q in Hashed(hash, ys) && Collide(hash, p, q);
  }

  /** Two different lists of two leaves that have one root with every hash. */
  lemma MarkIsLost(hash: Hash, c: Digest)
    ensures
      var a, b := Digest(0, 0, 0, 0), Digest(0x80, 0, 0, 0);
      [a, c] != [b, c] && Root(Canonical(hash), [a, c]) == Root(Canonical(hash), [b, c])
  {
    var a, b := Digest(0, 0, 0, 0), Digest(0x80, 0, 0, 0);
    assert Same(a, b);
    SameLeavesSameRoot(hash, [a, c], [b, c]);
    assert [a, c][0] != [b, c][0];
  }
}
