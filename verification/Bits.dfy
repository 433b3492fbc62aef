/** Machine words as natural numbers: shifts, masks and truncation. */
module Bits {

  /** The left shift, before any truncation. */
  function Up(a: nat, j: nat): nat {
    if j == 0 then a else 2 * Up(a, j - 1)
  }

  /** The right shift. */
  function Down(a: nat, j: nat): nat {
    if j == 0 then a else Down(a / 2, j - 1)
  }

  /** The low `j` bits: what is left of `a` in a word of that width. */
  function Low(a: nat, j: nat): nat {
    if j == 0 then 0 else 2 * Low(a / 2, j - 1) + a % 2
  }

  /** A mask of `j` ones. */
  function Ones(j: nat): nat {
    if j == 0 then 0 else 2 * Ones(j - 1) + 1
  }

  lemma {:induction false} OnesAre(j: nat)
    ensures Ones(j) + 1 == Up(1, j)
  {
    if j > 0 {
      OnesAre(j - 1);
    }
  }

  /** The bitwise and. */
  function And(a: nat, b: nat): nat {
    if a == 0 || b == 0 then 0
    else 2 * And(a / 2, b / 2) + (if a % 2 == 1 && b % 2 == 1 then 1 else 0)
  }

  /** The bitwise or. */
  function Or(a: nat, b: nat): nat {
    if a == 0 then b
    else if b == 0 then a
    else 2 * Or(a / 2, b / 2) + (if a % 2 == 1 || b % 2 == 1 then 1 else 0)
  }

  lemma {:induction false} UpSum(a: nat, b: nat, j: nat)
    ensures Up(a + b, j) == Up(a, j) + Up(b, j)
  {
    if j > 0 {
      UpSum(a, b, j - 1);
    }
  }

  lemma {:induction false} UpUp(a: nat, i: nat, j: nat)
    ensures Up(Up(a, i), j) == Up(a, i + j)
  {
    if j > 0 {
      UpUp(a, i, j - 1);
    }
  }

  lemma {:induction false} UpGrows(a: nat, b: nat, j: nat)
    requires a < b
    ensures Up(a, j) < Up(b, j)
  {
    if j > 0 {
      UpGrows(a, b, j - 1);
    }
  }

  lemma {:induction false} UpLonger(a: nat, i: nat, j: nat)
    requires i <= j
    ensures Up(a, i) <= Up(a, j)
  {
    if i < j {
      UpLonger(a, i, j - 1);
    }
  }

  lemma {:induction false} UpZero(j: nat)
    ensures Up(0, j) == 0
  {
    if j > 0 {
      UpZero(j - 1);
    }
  }

  lemma UpSmall(a: nat)
    ensures Up(a, 4) == 16 * a && Up(a, 5) == 32 * a
  {
    assert Up(a, 1) == 2 * a;
    assert Up(a, 2) == 4 * a;
    assert Up(a, 3) == 8 * a;
  }

  lemma DownSmall(a: nat)
    ensures Down(a, 1) == a / 2 && Low(a, 1) == a % 2
    ensures Down(a, 2) == a / 4 && Low(a, 2) == a % 4
  {
    assert Down(a / 2, 1) == a / 2 / 2 && Low(a / 2, 1) == a / 2 % 2;
  }

  /** `q` above `j` bits and `x` in them can be taken apart again. */
  lemma {:induction false} Splits(q: nat, x: nat, j: nat)
    requires x < Up(1, j)
    ensures Down(Up(q, j) + x, j) == q && Low(Up(q, j) + x, j) == x
  {
    if j > 0 {
      Splits(q, x / 2, j - 1);
      assert (Up(q, j) + x) / 2 == Up(q, j - 1) + x / 2;
    }
  }

  /** Every number is its high bits above its low ones. */
  lemma {:induction false} Rejoins(a: nat, j: nat)
    ensures a == Up(Down(a, j), j) + Low(a, j) && Low(a, j) < Up(1, j)
  {
    if j > 0 {
      Rejoins(a / 2, j - 1);
    }
  }

  /** What fits in a word is not truncated. */
  lemma Fits(a: nat, j: nat)
    requires a < Up(1, j)
    ensures Low(a, j) == a && Down(a, j) == 0
  {
    UpZero(j);
    Splits(0, a, j);
  }

  /** A mask of ones takes the low bits. */
  lemma {:induction false} AndLow(a: nat, j: nat)
    ensures And(a, Ones(j)) == Low(a, j)
  {
    if j > 0 {
      AndLow(a / 2, j - 1);
      LowZero(j);
    }
  }

  lemma {:induction false} LowZero(j: nat)
    ensures Low(0, j) == 0
  {
    if j > 0 {
      LowZero(j - 1);
    }
  }

  /** A mask that stands `j` bits up leaves out the low `j` bits. */
  lemma {:induction false} AndHigh(a: nat, b: nat, j: nat)
    ensures And(a, Up(b, j)) == Up(And(Down(a, j), b), j)
  {
    if j > 0 {
      AndTwice(a, Up(b, j - 1));
      AndHigh(a / 2, b, j - 1);
    }
  }

  lemma AndTwice(a: nat, b: nat)
    ensures And(a, 2 * b) == 2 * And(a / 2, b)
  {
    if a > 0 && b > 0 {
      assert 2 * b / 2 == b;
    }
  }

  /** Bits above and bits below do not meet, so or adds them, in either order. */
  lemma {:induction false} OrAdds(q: nat, x: nat, j: nat)
    requires x < Up(1, j)
    ensures Or(Up(q, j), x) == Up(q, j) + x && Or(x, Up(q, j)) == Up(q, j) + x
  {
    if j > 0 {
      OrAdds(q, x / 2, j - 1);
      assert Up(q, j) / 2 == Up(q, j - 1) && Up(q, j) % 2 == 0;
    }
  }

  /** Shifting up and down again. */
  lemma {:induction false} DownUp(a: nat, i: nat, j: nat)
    ensures Down(Up(a, i), j) == if i <= j then Down(a, j - i) else Up(a, i - j)
  {
    if i > 0 && j > 0 {
      assert Up(a, i) / 2 == Up(a, i - 1);
      DownUp(a, i - 1, j - 1);
    }
  }

  /** The low bits of the high bits are the high bits of the low ones. */
  lemma {:induction false} DownLow(a: nat, i: nat, j: nat)
    ensures Down(Low(a, i + j), i) == Low(Down(a, i), j) && Low(Low(a, i + j), i) == Low(a, i)
  {
    if i > 0 {
      DownLow(a / 2, i - 1, j);
      assert Low(a, i + j) / 2 == Low(a / 2, i - 1 + j) && Low(a, i + j) % 2 == a % 2;
    }
  }

  lemma {:induction false} DownDown(a: nat, i: nat, j: nat)
    ensures Down(Down(a, i), j) == Down(a, i + j)
  {
    if i > 0 {
      DownDown(a / 2, i - 1, j);
    }
  }

  /** Shifting down more than the width leaves nothing; comparisons survive the shift. */
  lemma DownBounds(a: nat, b: nat, j: nat)
    ensures Down(a, j) < b <==> a < Up(b, j)
  {
    Rejoins(a, j);
    if Down(a, j) < b {
      UpMonotone(Down(a, j) + 1, b, j);
      UpSum(Down(a, j), 1, j);
    } else {
      UpMonotone(b, Down(a, j), j);
    }
  }

  lemma UpMonotone(a: nat, b: nat, j: nat)
    requires a <= b
    ensures Up(a, j) <= Up(b, j)
  {
    if a < b {
      UpGrows(a, b, j);
    }
  }

  /** Testing the highest bit. */
  lemma TopBit(a: nat, j: nat)
    requires a < Up(1, j + 1)
    ensures And(a, Up(1, j)) != 0 <==> Down(a, j) != 0
  {
    var d := Down(a, j);
    AndHigh(a, 1, j);
    UpUp(1, 1, j);
    assert Up(1, 1) == 2;
    DownBounds(a, 2, j);
    UpZero(j);
    assert And(d, 1) == d;
    if d != 0 {
      UpGrows(0, d, j);
    }
  }

  lemma {:induction false} DownOnes(i: nat, j: nat)
    ensures Down(Ones(i + j), j) == Ones(i)
  {
    if j > 0 {
      DownOnes(i, j - 1);
      assert Ones(i + j) / 2 == Ones(i + j - 1);
    }
  }

  /** The number of significant bits. */
  function BitLength(n: nat): nat {
    if n == 0 then 0 else 1 + BitLength(n / 2)
  }

  lemma {:induction false} BitLengthIs(n: nat)
    ensures n < Up(1, BitLength(n)) && (n > 0 ==> Up(1, BitLength(n) - 1) <= n)
  {
    if n > 1 {
      BitLengthIs(n / 2);
    }
  }
}
