/** The suffix of a packed name, name_suffix (unittests/misc_tests.cpp, lines 88-117). */
module NameSuffix {

  import opened Bits

  // ---------------------------------------------------------------------------------------
  // Names: twelve symbols of five bits and one of four, packed in a word. Zero is the dot.
  // ---------------------------------------------------------------------------------------

  ghost predicate Symbols(s: seq<nat>) {
    |s| == 13 && (forall i :: 0 <= i < 12 ==> s[i] < 32) && s[12] < 16
  }

  /** Five-bit symbols, the first one highest. */
  function Value(s: seq<nat>): nat {
    if s == [] then 0 else Up(Value(s[..|s| - 1]), 5) + s[|s| - 1]
  }

  function Pack(s: seq<nat>): nat
    requires |s| == 13
  {
    Up(Value(s[..12]), 4) + s[12]
  }

  /** The lowest `k` five-bit symbols of a number. */
  function Digits(n: nat, k: nat): (s: seq<nat>)
    ensures |s| == k
    decreases k, n
  {
    if k == 0 then [] else Digits(Down(n, 5), k - 1) + [Low(n, 5)]
  }

  function Unpack(n: nat): (s: seq<nat>)
    ensures |s| == 13
  {
    Digits(Down(n, 4), 12) + [Low(n, 4)]
  }

  ghost predicate Small(s: seq<nat>) {
    forall i :: 0 <= i < |s| ==> s[i] < 32
  }

  lemma {:induction false} ValueFits(s: seq<nat>)
    requires Small(s)
    ensures Value(s) < Up(1, 5 * |s|)
  {
    if s != [] {
      var t := s[..|s| - 1];
      ValueFits(t);
      UpGrows(Value(t), Up(1, 5 * |t|), 5);
      UpStep(Value(t), Up(1, 5 * |t|), s[|s| - 1]);
      UpUp(1, 5 * |t|, 5);
    }
  }

  lemma UpStep(a: nat, b: nat, x: nat)
    requires a < b && x < 32
    ensures Up(a, 5) + x < Up(b, 5)
  {
    UpSmall(a);
    UpSmall(b);
  }

  /** Symbols in front of others stand above them. */
  lemma {:induction false} ValueJoin(s: seq<nat>, t: seq<nat>)
    ensures Value(s + t) == Up(Value(s), 5 * |t|) + Value(t)
  {
    if t == [] {
      assert s + t == s;
    } else {
      var u := t[..|t| - 1];
      ValueJoin(s, u);
      assert (s + t)[..|s + t| - 1] == s + u;
      UpSum(Up(Value(s), 5 * |u|), Value(u), 5);
      UpUp(Value(s), 5 * |u|, 5);
    }
  }

  /** Every word is the packing of its symbols ... */
  lemma PackUnpack(n: nat)
    requires n < Up(1, 64)
    ensures Symbols(Unpack(n)) && Pack(Unpack(n)) == n
  {
    Rejoins(n, 4);
    DownFits(n, 4, 60);
    ValueDigits(Down(n, 4), 12);
    assert Unpack(n)[..12] == Digits(Down(n, 4), 12);
    UpSmall(1);
  }

  lemma {:induction false} ValueDigits(n: nat, k: nat)
    requires n < Up(1, 5 * k)
    ensures Small(Digits(n, k)) && Value(Digits(n, k)) == n
    decreases k
  {
    if k > 0 {
      Rejoins(n, 5);
      UpSmall(1);
      DownFits(n, 5, 5 * (k - 1));
      ValueDigits(Down(n, 5), k - 1);
      var s := Digits(n, k);
      assert s[..|s| - 1] == Digits(Down(n, 5), k - 1);
    }
  }

  lemma DownFits(n: nat, i: nat, j: nat)
    requires n < Up(1, i + j)
    ensures Down(n, i) < Up(1, j)
  {
    UpUp(1, j, i);
    DownBounds(n, Up(1, j), i);
  }

  /** ... and different symbols pack to different words. */
  lemma UnpackPack(s: seq<nat>)
    requires Symbols(s)
    ensures Unpack(Pack(s)) == s && Pack(s) < Up(1, 64)
  {
    ValueFits(s[..12]);
    UpSmall(1);
    Splits(Value(s[..12]), s[12], 4);
    DigitsValue(s[..12]);
    UpUp(1, 60, 4);
    UpGrows(Value(s[..12]), Up(1, 60), 4);
    UpSmall(Value(s[..12]));
    UpSmall(Up(1, 60));
    assert s == s[..12] + [s[12]];
  }

  lemma {:induction false} DigitsValue(s: seq<nat>)
    requires Small(s)
    ensures Digits(Value(s), |s|) == s
  {
    if s != [] {
      var t := s[..|s| - 1];
      DigitsValue(t);
      UpSmall(1);
      Splits(Value(t), s[|s| - 1], 5);
    }
  }

  // ---------------------------------------------------------------------------------------
  // The suffix: what is behind the last dot that has another symbol behind it
  // ---------------------------------------------------------------------------------------

  /** Symbol `i` is a dot with another symbol behind it, among the first `n`. */
  ghost predicate Actual(s: seq<nat>, n: nat, i: int)
    requires n <= |s|
  {
    0 <= i < n && s[i] == 0 && exists j :: i < j < n && s[j] != 0
  }

  /** The last dot among the first `n` symbols, or -1. */
  function LastDot(s: seq<nat>, n: nat): (r: int)
    requires n <= |s|
    ensures -1 <= r < n
  {
    if n == 0 then -1 else if s[n - 1] == 0 then n - 1 else LastDot(s, n - 1)
  }

  /** The last dot with another symbol behind it, among the first `n` symbols, or -1. */
  function LastActualDot(s: seq<nat>, n: nat): (r: int)
    requires n <= |s|
    ensures -1 <= r && (r == -1 || r < n - 1)
  {
    if n == 0 then -1
    else if s[n - 1] == 0 then LastActualDot(s, n - 1)
    else LastDot(s, n - 1)
  }

  lemma {:induction false} LastDotIs(s: seq<nat>, n: nat)
    requires n <= |s|
    ensures var r := LastDot(s, n); (r == -1 || s[r] == 0) && forall i :: r < i < n ==> s[i] != 0
  {
    if n > 0 && s[n - 1] != 0 {
      LastDotIs(s, n - 1);
    }
  }

  /** It is an actual dot, and there is no actual dot behind it. */
  lemma {:induction false} LastActualDotIs(s: seq<nat>, n: nat)
    requires n <= |s|
    ensures LastActualDot(s, n) == -1 || Actual(s, n, LastActualDot(s, n))
    ensures forall i :: LastActualDot(s, n) < i < n ==> !Actual(s, n, i)
  {
    if n == 0 {
    } else if s[n - 1] == 0 {
      LastActualDotIs(s, n - 1);
      assert forall i :: Actual(s, n, i) ==> Actual(s, n - 1, i);
    } else {
      LastDotIs(s, n - 1);
    }
  }

  function Zeros(n: nat): (z: seq<nat>)
    ensures |z| == n && forall i :: 0 <= i < n ==> z[i] == 0
  {
    seq(n, i => 0)
  }

  /** The symbols behind the last actual dot, moved to the front. */
  function Suffix(s: seq<nat>): (t: seq<nat>)
    ensures |t| == |s|
  {
    var k := LastActualDot(s, |s|);
    if k == -1 then s else s[k + 1..] + Zeros(k + 1)
  }

  /** Without an actual dot the name is its own suffix; otherwise the symbols behind the last one come
      first, and dots fill up. */
  lemma SuffixIs(s: seq<nat>, k: nat)
    ensures (forall i :: !Actual(s, |s|, i)) ==> Suffix(s) == s
    ensures Actual(s, |s|, k) && (forall i :: k < i ==> !Actual(s, |s|, i)) ==>
      forall i :: 0 <= i < |s| ==> Suffix(s)[i] == if k + 1 + i < |s| then s[k + 1 + i] else 0
  {
    LastActualDotIs(s, |s|);
    if Actual(s, |s|, k) && forall i :: k < i ==> !Actual(s, |s|, i) {
      assert LastActualDot(s, |s|) == k;
    }
  }

  /** Behind the last actual dot there is none, and the dots that fill up are none. */
  lemma SuffixHasNoActualDot(s: seq<nat>, i: nat)
    ensures !Actual(Suffix(s), |s|, i)
  {
    var k, t := LastActualDot(s, |s|), Suffix(s);
    LastActualDotIs(s, |s|);
    if k != -1 {
      forall j | i < j < |s| && t[i] == 0
        ensures t[j] == 0
      {
        assert !Actual(s, |s|, i + k + 1);
      }
    }
  }

  /** So taking the suffix again changes nothing. */
  lemma SuffixTwice(s: seq<nat>)
    ensures Suffix(Suffix(s)) == Suffix(s)
  {
    var t := Suffix(s);
    LastActualDotIs(t, |t|);
    var k := LastActualDot(t, |t|);
    if k != -1 {
      SuffixHasNoActualDot(s, k);
    }
  }

  // ---------------------------------------------------------------------------------------
  // The loop and the masked shift find it
  // ---------------------------------------------------------------------------------------

  /** The packed symbols from `i` on. */
  function Tail(s: seq<nat>, i: nat): nat
    requires |s| == 13 && i <= 12
  {
    Up(Value(s[i..12]), 4) + s[12]
  }

  /** A word is the symbols before `i`, above the packed symbols from `i` on. */
  lemma SplitAt(s: seq<nat>, i: nat)
    requires Symbols(s) && i <= 12
    ensures Pack(s) == Up(Value(s[..i]), 4 + 5 * (12 - i)) + Tail(s, i)
    ensures Tail(s, i) < Up(1, 4 + 5 * (12 - i))
  {
    var t := s[i..12];
    assert s[..12] == s[..i] + t;
    ValueJoin(s[..i], t);
    UpSum(Up(Value(s[..i]), 5 * |t|), Value(t), 4);
    UpUp(Value(s[..i]), 5 * |t|, 4);
    ValueFits(t);
    UpUp(1, 5 * |t|, 4);
    UpSmall(Value(t));
    UpSmall(Up(1, 5 * |t|));
  }

  lemma LowestSymbol(s: seq<nat>)
    requires s != [] && s[|s| - 1] < 32
    ensures And(Value(s), 0x1F) == s[|s| - 1]
  {
    UpSmall(1);
    AndLow(Value(s), 5);
    Splits(Value(s[..|s| - 1]), s[|s| - 1], 5);
  }

  /** Shifting and masking reads symbol `i`. */
  lemma ReadsSymbol(s: seq<nat>, i: nat)
    requires Symbols(s) && i < 12
    ensures And(Down(Pack(s), 59 - 5 * i), 0x1F) == s[i]
  {
    SplitAt(s, i + 1);
    Splits(Value(s[..i + 1]), Tail(s, i + 1), 59 - 5 * i);
    LowestSymbol(s[..i + 1]);
  }

  lemma ReadsLast(s: seq<nat>)
    requires Symbols(s)
    ensures And(Pack(s), 0x0F) == s[12] && Down(Pack(s), 4) == Value(s[..12])
  {
    UpSmall(1);
    AndLow(Pack(s), 4);
    Splits(Value(s[..12]), s[12], 4);
  }

  /** The mask for what is below bit `j + 4`, except for the last symbol. */
  lemma MaskIs(n: nat, j: nat)
    ensures Up(1, j + 4) >= 16 && And(n, Up(1, j + 4) - 16) == Up(Low(Down(n, 4), j), 4)
  {
    UpUp(1, j, 4);
    AndLow(Down(n, 4), j);
    OnesAre(j);
    UpSmall(Ones(j));
    UpSmall(Up(1, j));
    AndHigh(n, Ones(j), 4);
  }

  lemma LowestSymbols(s: seq<nat>, i: nat)
    requires Small(s) && i <= |s|
    ensures Low(Value(s), 5 * (|s| - i)) == Value(s[i..])
  {
    assert s == s[..i] + s[i..];
    ValueJoin(s[..i], s[i..]);
    ValueFits(s[i..]);
    Splits(Value(s[..i]), Value(s[i..]), 5 * (|s| - i));
  }

  /** It keeps the five-bit symbols behind symbol `k`. */
  lemma MaskKeeps(s: seq<nat>, k: nat)
    requires Symbols(s) && k < 12
    ensures Up(1, 59 - 5 * k) >= 16
    ensures And(Pack(s), Up(1, 59 - 5 * k) - 16) == Up(Value(s[k + 1..12]), 4)
  {
    MaskIs(Pack(s), 5 * (11 - k));
    ReadsLast(s);
    LowestSymbols(s[..12], k + 1);
    assert s[..12][k + 1..] == s[k + 1..12];
  }

  /** The packed suffix is the kept symbols and the last one, shifted up. */
  lemma PackedSuffix(s: seq<nat>, k: nat)
    requires Symbols(s) && k < 12
    ensures Symbols(s[k + 1..] + Zeros(k + 1))
    ensures Pack(s[k + 1..] + Zeros(k + 1)) == Up(Up(Value(s[k + 1..12]), 4), 5 * k + 5) + Up(s[12], 5 * k + 4)
  {
    var t, w := s[k + 1..12], s[k + 1..] + Zeros(k + 1);
    assert w[..12] == (t + [s[12]]) + Zeros(k);
    ValueJoin(t + [s[12]], Zeros(k));
    ValueZeros(k);
    assert (t + [s[12]])[..|t|] == t;
    UpSum(Up(Value(t), 5), s[12], 5 * k + 4);
    UpUp(Up(Value(t), 5) + s[12], 5 * k, 4);
    UpUp(Value(t), 5, 5 * k + 4);
    UpUp(Value(t), 4, 5 * k + 5);
  }

  lemma {:induction false} ValueZeros(n: nat)
    ensures Value(Zeros(n)) == 0
  {
    if n > 0 {
      ValueZeros(n - 1);
      assert Zeros(n)[..n - 1] == Zeros(n - 1);
      UpZero(5);
    }
  }

  /** The value the loop variable had at symbol `i`; zero stands for no symbol. */
  function BitsAt(i: int): nat
    requires -1 <= i < 12
  {
    if i == -1 then 0 else 59 - 5 * i
  }

  /** The loop over the first twelve symbols. */
  method FindDots(n: nat, ghost s: seq<nat>) returns (tmp: nat, afterLastActualDot: nat)
    requires Symbols(s) && n == Pack(s)
    ensures tmp == BitsAt(LastDot(s, 12)) && afterLastActualDot == BitsAt(LastActualDot(s, 12))
  {
    ghost var k := 0;
    var remainingBits := 59;
    tmp, afterLastActualDot := 0, 0;
    while remainingBits >= 4
      invariant 0 <= k <= 12 && remainingBits == 59 - 5 * k
      invariant tmp == BitsAt(LastDot(s, k)) && afterLastActualDot == BitsAt(LastActualDot(s, k))
    {
      ReadsSymbol(s, k);
      var c := And(Down(n, remainingBits), 0x1F);
      if c == 0 {
        tmp := remainingBits;
      } else {
        afterLastActualDot := tmp;
      }
      remainingBits := remainingBits - 5;
      k := k + 1;
    }
  }

  lemma SymbolsOfSuffix(n: nat)
    requires n < Up(1, 64)
    ensures var s, w := Unpack(n), Pack(Suffix(Unpack(n)));
      && ((forall i :: !Actual(s, 13, i)) ==> w == n)
      && forall k :: Actual(s, 13, k) && (forall i :: k < i ==> !Actual(s, 13, i)) ==>
        forall i :: 0 <= i < 13 ==> Unpack(w)[i] == if k + 1 + i < 13 then s[k + 1 + i] else 0
  {
    var s := Unpack(n);
    PackUnpack(n);
    SuffixIsSymbols(s);
    UnpackPack(Suffix(s));
    SuffixIs(s, 0);
    forall k | Actual(s, 13, k) && forall i :: k < i ==> !Actual(s, 13, i)
      ensures forall i :: 0 <= i < 13 ==> Suffix(s)[i] == if k + 1 + i < 13 then s[k + 1 + i] else 0
    {
      SuffixIs(s, k);
    }
  }

  lemma SuffixIsSymbols(s: seq<nat>)
    requires Symbols(s)
    ensures Symbols(Suffix(s))
  {
    var k := LastActualDot(s, |s|);
    if k != -1 {
      PackedSuffix(s, k);
    }
  }

  /** What the source computes is the packing of the suffix, in 64 bits: the symbols behind the last
      actual dot, filled up with dots, or the name itself if there is none. */
  method ComputeSuffix(n: nat) returns (w: nat)
    requires n < Up(1, 64)
    ensures w == Pack(Suffix(Unpack(n)))
    ensures (forall i :: !Actual(Unpack(n), 13, i)) ==> w == n
    ensures forall k :: Actual(Unpack(n), 13, k) && (forall i :: k < i ==> !Actual(Unpack(n), 13, i)) ==>
      forall i :: 0 <= i < 13 ==> Unpack(w)[i] == if k + 1 + i < 13 then Unpack(n)[k + 1 + i] else 0
  {
    ghost var s := Unpack(n);
    PackUnpack(n);
    SymbolsOfSuffix(n);
    var tmp, afterLastActualDot := FindDots(n, s);
    ReadsLast(s);
    var thirteenth := And(n, 0x0F);
    if thirteenth != 0 {
      afterLastActualDot := tmp;
    }
    if afterLastActualDot == 0 {
      return n;
    }
    w := Shift(n, afterLastActualDot, thirteenth, s, LastActualDot(s, 13));
  }

  method Shift(n: nat, afterDot: nat, thirteenth: nat, ghost s: seq<nat>, ghost k: nat) returns (w: nat)
    requires Symbols(s) && n == Pack(s) && k < 12 && afterDot == 59 - 5 * k && thirteenth == s[12]
    ensures w == Pack(s[k + 1..] + Zeros(k + 1))
  {
    MaskKeeps(s, k);
    PackedSuffix(s, k);
    UnpackPack(s[k + 1..] + Zeros(k + 1));
    var mask := Up(1, afterDot) - 16;
    var shift := 64 - afterDot;
    Fits(Up(And(n, mask), shift), 64);
    Fits(Up(thirteenth, shift - 1), 64);
    Fits(Up(And(n, mask), shift) + Up(thirteenth, shift - 1), 64);
    w := Low(Low(Up(And(n, mask), shift), 64) + Low(Up(thirteenth, shift - 1), 64), 64);
  }

  /** On packed names too, a suffix is its own suffix, and it is again a 64-bit name. */
  lemma PackedSuffixTwice(n: nat)
    requires n < Up(1, 64)
    ensures Pack(Suffix(Unpack(n))) < Up(1, 64)
    ensures Pack(Suffix(Unpack(Pack(Suffix(Unpack(n)))))) == Pack(Suffix(Unpack(n)))
  {
    var s := Unpack(n);
    PackUnpack(n);
    SuffixIsSymbols(s);
    UnpackPack(Suffix(s));
    SuffixTwice(s);
  }
}
