/** Powers of two and bitwise operations on unbounded naturals.

    The bitwise operations are defined bit by bit, so that facts about `^` and `&` on machine words of
    any width follow by induction and no bit-vector reasoning is needed. */
module Arithmetic {

  function Pow2(k: nat): (p: nat)
    ensures p >= 1
  {
    if k == 0 then 1 else 2 * Pow2(k - 1)
  }

  predicate IsPow2(n: nat) {
    n == 1 || (n > 1 && n % 2 == 0 && IsPow2(n / 2))
  }

  /** The exponent of a power of two; the integer logarithm otherwise. */
  function Log2(n: nat): (k: nat)
    requires n >= 1
    ensures Pow2(k) <= n < 2 * Pow2(k)
  {
    if n == 1 then 0 else 1 + Log2(n / 2)
  }

  lemma {:induction false} Log2OfPow2(n: nat)
    requires IsPow2(n)
    ensures Pow2(Log2(n)) == n
  {
    if n != 1 { Log2OfPow2(n / 2); }
  }

  lemma {:induction false} Pow2IsPow2(k: nat)
    ensures IsPow2(Pow2(k))
  {
    if k != 0 { Pow2IsPow2(k - 1); assert Pow2(k) / 2 == Pow2(k - 1); }
  }

  lemma {:induction false} Pow2Add(j: nat, k: nat)
    ensures Pow2(j + k) == Pow2(j) * Pow2(k)
  {
    if j != 0 {
      Pow2Add(j - 1, k);
      assert Pow2(j + k) == 2 * Pow2(j - 1 + k) && Pow2(j) == 2 * Pow2(j - 1);
      hide Pow2;
      DoubleProduct(Pow2(j - 1), Pow2(k));
    }
  }

  lemma DoubleProduct(x: int, y: int)
    ensures (2 * x) * y == 2 * (x * y)
  {
  }

  lemma {:induction false} Pow2Monotone(j: nat, k: nat)
    requires j <= k
    ensures Pow2(j) <= Pow2(k)
    ensures j < k ==> 2 * Pow2(j) <= Pow2(k)
    decreases k
  {
    if j < k { Pow2Monotone(j, k - 1); }
  }

  lemma Pow2Injective(j: nat, k: nat)
    requires Pow2(j) == Pow2(k)
    ensures j == k
  {
    if j < k { Pow2Monotone(j, k); } else if k < j { Pow2Monotone(k, j); }
  }

  // ---------- exclusive or ----------

  function Xor(a: nat, b: nat): (r: nat)
    decreases a + b
  {
    if a == 0 && b == 0 then 0
    else (if a % 2 == b % 2 then 0 else 1) + 2 * Xor(a / 2, b / 2)
  }

  lemma {:induction false} XorZero(a: nat)
    ensures Xor(a, 0) == a
  {
    if a != 0 { XorZero(a / 2); }
  }

  lemma {:induction false} XorComm(a: nat, b: nat)
    ensures Xor(a, b) == Xor(b, a)
    decreases a + b
  {
    if a + b != 0 { XorComm(a / 2, b / 2); }
  }

  lemma {:induction false} XorSelf(a: nat)
    ensures Xor(a, a) == 0
  {
    if a != 0 { XorSelf(a / 2); }
  }

  lemma {:induction false} XorAssoc(a: nat, b: nat, c: nat)
    ensures Xor(Xor(a, b), c) == Xor(a, Xor(b, c))
    decreases a + b + c
  {
    if a + b + c != 0 {
      XorAssoc(a / 2, b / 2, c / 2);
      XorStep(a, b);
      XorStep(b, c);
      XorStep(Xor(a, b), c);
      XorStep(a, Xor(b, c));
    }
  }

  /** One bit of `Xor`, stated without the case for zero. */
  lemma XorStep(a: nat, b: nat)
    ensures Xor(a, b) % 2 == (if a % 2 == b % 2 then 0 else 1)
    ensures Xor(a, b) / 2 == Xor(a / 2, b / 2)
  {
  }

  /** Exclusive or is zero only on equal arguments. */
  lemma {:induction false} XorZeroMeansEqual(a: nat, b: nat)
    requires Xor(a, b) == 0
    ensures a == b
    decreases a + b
  {
    if a + b != 0 { XorZeroMeansEqual(a / 2, b / 2); }
  }

  /** Two words of `k` bits have an exclusive or of `k` bits. */
  lemma {:induction false} XorBound(a: nat, b: nat, k: nat)
    requires a < Pow2(k) && b < Pow2(k)
    ensures Xor(a, b) < Pow2(k)
    decreases k
  {
    if k != 0 { XorBound(a / 2, b / 2, k - 1); }
  }

  /** Exclusive or acts on the high part and on the low `k` bits separately. */
  lemma {:induction false} XorConcat(a: nat, x: nat, b: nat, y: nat, k: nat)
    requires x < Pow2(k) && y < Pow2(k)
    ensures Xor(Word(a, x, k), Word(b, y, k)) == Word(Xor(a, b), Xor(x, y), k)
    decreases k
  {
    if k == 0 {
      XorZero(0);
    } else {
      XorConcat(a, x / 2, b, y / 2, k - 1);
      XorStep(x, y);
      WordStep(a, x, k);
      WordStep(b, y, k);
      WordStep(Xor(a, b), Xor(x, y), k);
      XorStep(Word(a, x, k), Word(b, y, k));
      SameBits(Xor(Word(a, x, k), Word(b, y, k)), Word(Xor(a, b), Xor(x, y), k));
    }
  }

  /** The word with high part `a` above the `k` low bits `x`. */
  function Word(a: nat, x: nat, k: nat): nat { a * Pow2(k) + x }

  lemma WordStep(a: nat, x: nat, k: nat)
    requires k > 0
    ensures Word(a, x, k) / 2 == Word(a, x / 2, k - 1)
    ensures Word(a, x, k) % 2 == x % 2
  {
    assert a * Pow2(k) == 2 * (a * Pow2(k - 1));
  }

  lemma SameBits(a: nat, b: nat)
    requires a / 2 == b / 2 && a % 2 == b % 2
    ensures a == b
  {
  }

  // ---------- bitwise and ----------

  function And(a: nat, b: nat): (r: nat)
    decreases a + b
  {
    if a == 0 && b == 0 then 0
    else (if a % 2 == 1 && b % 2 == 1 then 1 else 0) + 2 * And(a / 2, b / 2)
  }

  /** Masking with `2^k - 1` is the remainder modulo `2^k`. */
  lemma AndMask(a: nat, k: nat)
    ensures And(a, Pow2(k) - 1) == a % Pow2(k)
  {
    AndLowBits(a, k);
    LowBitsMod(a, k);
  }

  function LowBits(a: nat, k: nat): nat { if k == 0 then 0 else a % 2 + 2 * LowBits(a / 2, k - 1) }

  lemma {:induction false} AndLowBits(a: nat, k: nat)
    ensures And(a, Pow2(k) - 1) == LowBits(a, k)
    decreases k
  {
    if k == 0 {
      AndZero(a);
    } else {
      assert Pow2(k) - 1 == 2 * (Pow2(k - 1) - 1) + 1;
      AndLowBits(a / 2, k - 1);
      AndStep(a, Pow2(k - 1) - 1);
    }
  }

  lemma AndStep(a: nat, b: nat)
    ensures And(a, 2 * b + 1) == a % 2 + 2 * And(a / 2, b)
  {
  }

  lemma {:induction false} LowBitsMod(a: nat, k: nat)
    ensures LowBits(a, k) == a % Pow2(k)
    decreases k
  {
    if k > 0 {
      LowBitsMod(a / 2, k - 1);
      HalfMod(a, Pow2(k - 1));
    }
  }

  lemma {:induction false} AndZero(a: nat)
    ensures And(a, 0) == 0
  {
    if a != 0 { AndZero(a / 2); }
  }

  lemma HalfMod(a: nat, p: nat)
    requires p >= 1
    ensures a % (2 * p) == a % 2 + 2 * ((a / 2) % p)
  {
    var q, r := (a / 2) / p, (a / 2) % p;
    assert a / 2 == p * q + r;
    assert a == (2 * p) * q + (2 * r + a % 2) by { assert 2 * (p * q) == (2 * p) * q; }
    DivModUnique(a, 2 * p, q, 2 * r + a % 2);
  }

  // ---------- division ----------

  lemma DivModUnique(a: int, d: int, q: int, r: int)
    requires d > 0 && 0 <= r < d && a == d * q + r
    ensures a / d == q && a % d == r
  {
    var t := q - a / d;
    assert d * t == a % d - r by {
      assert a == d * (a / d) + a % d;
      Distribute(d, q, a / d);
    }
    if t >= 1 { ProductAtLeast(d, t); }
    assert d * (-t) == -(d * t);
    if t <= -1 { ProductAtLeast(d, -t); }
  }

  lemma Distribute(d: int, x: int, y: int)
    ensures d * (x - y) == d * x - d * y
  {
  }

  lemma ProductAtLeast(d: int, t: int)
    requires d >= 0 && t >= 1
    ensures d * t >= d
  {
    assert d * (t - 1) >= 0;
    Distribute(d, t, 1);
  }

  lemma {:induction false} ProductMonotone(a: nat, b: nat, p: nat)
    requires a <= b
    ensures a * p <= b * p
    decreases b - a
  {
    if a < b {
      ProductMonotone(a, b - 1, p);
      assert b * p == (b - 1) * p + p;
    }
  }

  lemma ModAdd(a: int, d: int, k: int)
    requires d > 0
    ensures (a + d * k) % d == a % d
  {
    assert a + d * k == d * (a / d + k) + a % d by { assert d * (a / d + k) == d * (a / d) + d * k; }
    DivModUnique(a + d * k, d, a / d + k, a % d);
  }
}
