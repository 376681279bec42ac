/** Machine words as natural numbers, with the bit operations the wire runtime applies to them.

    A word is the number it denotes; `Bit(x, j)` is its j-th binary digit.  The operators are defined
    digit by digit, and every fact about them below is a fact about digits, so two words are shown
    equal by showing that they have the same digits. */
module Words {

  type Byte = x: int | 0 <= x < 256

  const TWO_TO_32: int := 0x1_0000_0000
  const TWO_TO_63: int := 0x8000_0000_0000_0000
  const TWO_TO_64: int := 0x1_0000_0000_0000_0000

  type U16 = x: int | 0 <= x < 0x1_0000
  type U32 = x: int | 0 <= x < TWO_TO_32
  type U64 = x: int | 0 <= x < TWO_TO_64
  type I64 = x: int | -TWO_TO_63 <= x < TWO_TO_63

  function Pow2(n: nat): (p: nat)
    ensures p > 0
  {
    if n == 0 then 1 else 2 * Pow2(n - 1)
  }

  predicate Bit(x: nat, j: nat)
    decreases j, x
  {
    if j == 0 then x % 2 == 1 else Bit(x / 2, j - 1)
  }

  function Digit(b: bool): (d: nat)
    ensures d < 2
  {
    if b then 1 else 0
  }

  /** `x << k` without a width; a fixed width is imposed by `Low`. */
  function Shl(x: nat, k: nat): nat
    decreases k, x
  {
    if k == 0 then x else 2 * Shl(x, k - 1)
  }

  /** `x >> k` of an unsigned word. */
  function Shr(x: nat, k: nat): nat
    decreases k, x
  {
    if k == 0 then x else Shr(x / 2, k - 1)
  }

  /** `x & ((1 << k) - 1)`: the k low digits, also the truncation to a k-bit type. */
  function Low(x: nat, k: nat): nat
    decreases k, x
  {
    if k == 0 then 0 else x % 2 + 2 * Low(x / 2, k - 1)
  }

  /** `a | b`. */
  function Or(a: nat, b: nat): nat
    decreases a + b
  {
    if a == 0 && b == 0 then 0
    else (if a % 2 == 1 || b % 2 == 1 then 1 else 0) + 2 * Or(a / 2, b / 2)
  }

  /** `a ^ b`. */
  function Xor(a: nat, b: nat): nat
    decreases a + b
  {
    if a == 0 && b == 0 then 0
    else (if a % 2 != b % 2 then 1 else 0) + 2 * Xor(a / 2, b / 2)
  }

  // ---------- digits of each operator ----------

  lemma {:induction false} BitZero(j: nat)
    ensures !Bit(0, j)
  {
    if j > 0 { BitZero(j - 1); }
  }

  lemma BitStep(x: nat, j: nat)
    requires j > 0
    ensures Bit(x, j) == Bit(x / 2, j - 1)
  {
  }

  lemma {:induction false} BitShl(x: nat, k: nat, j: nat)
    ensures Bit(Shl(x, k), j) == (j >= k && Bit(x, j - k))
  {
    if k > 0 && j > 0 {
      assert Shl(x, k) / 2 == Shl(x, k - 1);
      BitShl(x, k - 1, j - 1);
    }
  }

  lemma {:induction false} BitShr(x: nat, k: nat, j: nat)
    ensures Bit(Shr(x, k), j) == Bit(x, j + k)
  {
    if k > 0 { BitShr(x / 2, k - 1, j); }
  }

  lemma LowUnfold(x: nat, k: nat)
    requires k > 0
    ensures Low(x, k) % 2 == x % 2 && Low(x, k) / 2 == Low(x / 2, k - 1)
  {
  }

  lemma {:induction false} BitLow(x: nat, k: nat, j: nat)
    ensures Bit(Low(x, k), j) == (j < k && Bit(x, j))
    decreases k
  {
    if k == 0 {
      BitZero(j);
    } else if j == 0 {
      LowUnfold(x, k);
    } else {
      hide Bit, Low;
      LowUnfold(x, k);
      BitStep(Low(x, k), j);
      BitStep(x, j);
      BitLow(x / 2, k - 1, j - 1);
    }
  }

  lemma OrUnfold(a: nat, b: nat)
    ensures Or(a, b) == (if a % 2 == 1 || b % 2 == 1 then 1 else 0) + 2 * Or(a / 2, b / 2)
  {
  }

  lemma {:induction false} BitOr(a: nat, b: nat, j: nat)
    ensures Bit(Or(a, b), j) == (Bit(a, j) || Bit(b, j))
    decreases j
  {
    OrUnfold(a, b);
    if j > 0 {
      hide Bit, Or;
      BitStep(Or(a, b), j);
      BitStep(a, j);
      BitStep(b, j);
      BitOr(a / 2, b / 2, j - 1);
    }
  }

  lemma XorUnfold(a: nat, b: nat)
    ensures Xor(a, b) == (if a % 2 != b % 2 then 1 else 0) + 2 * Xor(a / 2, b / 2)
  {
  }

  lemma {:induction false} BitXor(a: nat, b: nat, j: nat)
    ensures Bit(Xor(a, b), j) == (Bit(a, j) != Bit(b, j))
    decreases j
  {
    XorUnfold(a, b);
    if j > 0 {
      hide Bit, Xor;
      BitStep(Xor(a, b), j);
      BitStep(a, j);
      BitStep(b, j);
      BitXor(a / 2, b / 2, j - 1);
    }
  }

  // ---------- words are determined by their digits ----------

  lemma {:induction false} SameDigits(a: nat, b: nat)
    requires forall j: nat :: Bit(a, j) == Bit(b, j)
    ensures a == b
    decreases a + b
  {
    if a != 0 || b != 0 {
      assert Bit(a, 0) == Bit(b, 0);
      forall j: nat
        ensures Bit(a / 2, j) == Bit(b / 2, j)
      {
        assert Bit(a, j + 1) == Bit(b, j + 1);
      }
      SameDigits(a / 2, b / 2);
    }
  }

  lemma {:induction false} BitBeyond(x: nat, n: nat, j: nat)
    requires x < Pow2(n) && j >= n
    ensures !Bit(x, j)
  {
    if n == 0 { BitZero(j); } else { BitBeyond(x / 2, n - 1, j - 1); }
  }

  lemma {:induction false} BoundedByDigits(x: nat, n: nat)
    requires forall j: nat :: j >= n ==> !Bit(x, j)
    ensures x < Pow2(n)
    decreases n + x
  {
    if n == 0 {
      forall j: nat ensures Bit(x, j) == Bit(0, j) { BitZero(j); }
      SameDigits(x, 0);
    } else {
      forall j: nat | j >= n - 1
        ensures !Bit(x / 2, j)
      {
        assert !Bit(x, j + 1);
      }
      BoundedByDigits(x / 2, n - 1);
    }
  }

  // ---------- arithmetic of shifts ----------

  lemma {:induction false} Pow2Add(a: nat, b: nat)
    ensures Pow2(a + b) == Shl(Pow2(a), b)
  {
    if b > 0 { Pow2Add(a, b - 1); }
  }

  lemma Pow2Small()
    ensures Pow2(7) == 128 && Pow2(8) == 256
  {
    assert Pow2(4) == 16;
  }

  lemma Pow2Of32()
    ensures Pow2(16) == 0x1_0000 && Pow2(28) == 0x1000_0000 && Pow2(32) == TWO_TO_32
  {
    Pow2Small();
    Pow2Product(8, 8);
    Pow2Product(16, 16);
    assert Pow2(32) == 16 * Pow2(28);
  }

  lemma Pow2Of64()
    ensures Pow2(63) == TWO_TO_63 && Pow2(64) == TWO_TO_64
  {
    Pow2Of32();
    Pow2Product(32, 32);
    assert Pow2(64) == 2 * Pow2(63);
  }

  lemma Pow2Product(a: nat, b: nat)
    ensures Pow2(a + b) == Pow2(a) * Pow2(b)
  {
    Pow2Add(a, b);
    ShlIsTimes(Pow2(a), b);
  }

  lemma FitsU64(x: nat, n: nat)
    requires x < Pow2(n) && n <= 64
    ensures x < TWO_TO_64
  {
    Pow2Monotone(n, 64);
    Pow2Of64();
  }

  lemma {:induction false} Pow2Monotone(a: nat, b: nat)
    requires a <= b
    ensures Pow2(a) <= Pow2(b)
  {
    if a < b { Pow2Monotone(a, b - 1); }
  }

  lemma {:induction false} ShlIsTimes(x: nat, k: nat)
    ensures Shl(x, k) == x * Pow2(k)
  {
    if k > 0 { ShlIsTimes(x, k - 1); }
  }

  lemma {:induction false} ShlMonotone(x: nat, y: nat, k: nat)
    requires x <= y
    ensures Shl(x, k) <= Shl(y, k)
  {
    if k > 0 { ShlMonotone(x, y, k - 1); }
  }

  lemma {:induction false} LowBound(x: nat, k: nat)
    ensures Low(x, k) < Pow2(k)
  {
    if k > 0 { LowBound(x / 2, k - 1); }
  }

  lemma {:induction false} LowOfSmall(x: nat, k: nat)
    requires x < Pow2(k)
    ensures Low(x, k) == x
  {
    if k > 0 { LowOfSmall(x / 2, k - 1); }
  }

  lemma {:induction false} OrZero(a: nat)
    ensures Or(a, 0) == a == Or(0, a)
  {
    if a > 0 { OrZero(a / 2); }
  }

  /** Joining disjoint halves: `(high << k) | low` is a sum. */
  lemma {:induction false} OrJoins(high: nat, low: nat, k: nat)
    requires low < Pow2(k)
    ensures Or(Shl(high, k), low) == Shl(high, k) + low == Or(low, Shl(high, k))
  {
    if k == 0 {
      OrZero(high);
    } else {
      var h := Shl(high, k);
      assert h / 2 == Shl(high, k - 1) && h % 2 == 0;
      OrJoins(high, low / 2, k - 1);
      OrUnfold(h, low);
      OrUnfold(low, h);
    }
  }
}
