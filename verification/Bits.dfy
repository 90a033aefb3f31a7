/** Bitwise operators on naturals, powers of two, and alignment. The operators
    are defined one bit at a time, so nothing here depends on a word width. */
module Bits {
  function Pow2(k: nat): (r: nat)
    ensures r >= 1
  {
    if k == 0 then 1 else 2 * Pow2(k - 1)
  }

  function Xor(a: nat, b: nat): nat
    decreases a + b
  {
    if a == 0 && b == 0 then 0
    else (a % 2 + b % 2) % 2 + 2 * Xor(a / 2, b / 2)
  }

  function And(a: nat, b: nat): nat
    decreases a + b
  {
    if a == 0 || b == 0 then 0
    else (a % 2) * (b % 2) + 2 * And(a / 2, b / 2)
  }

  lemma ParityCancels(a: nat, b: nat)
    ensures ((a % 2 + b % 2) % 2 + b % 2) % 2 == a % 2
  {
  }

  lemma {:induction false} XorCancel(a: nat, b: nat)
    ensures Xor(Xor(a, b), b) == a
    decreases a + b
  {
    if a != 0 || b != 0 {
      XorCancel(a / 2, b / 2);
      var x := Xor(a, b);
      assert x / 2 == Xor(a / 2, b / 2) && x % 2 == (a % 2 + b % 2) % 2;
      ParityCancels(a, b);
    }
  }

  lemma {:induction false} XorBound(a: nat, b: nat, k: nat)
    requires a < Pow2(k) && b < Pow2(k)
    ensures Xor(a, b) < Pow2(k)
    decreases k
  {
    if k != 0 {
      XorBound(a / 2, b / 2, k - 1);
    }
  }

  lemma {:induction false} XorZero(a: nat)
    ensures Xor(a, 0) == a
  {
    if a != 0 {
      XorZero(a / 2);
    }
  }

  lemma {:induction false} XorSymmetric(a: nat, b: nat)
    ensures Xor(a, b) == Xor(b, a)
    decreases a + b
  {
    if a != 0 || b != 0 {
      XorSymmetric(a / 2, b / 2);
    }
  }

  lemma MulAtLeast(m: int, d: int)
    requires m > 0
    ensures d >= 1 ==> m * d >= m
  {
  }

  /** The quotient and remainder are the only pair that add up. */
  lemma DivModUnique(x: int, q: int, r: int, m: int)
    requires m > 0 && x == m * q + r && 0 <= r < m
    ensures x / m == q && x % m == r
  {
    var d := x / m - q;
    assert m * d == r - x % m by {
      assert x == m * (x / m) + x % m;
      assert m * d == m * (x / m) - m * q;
    }
    MulAtLeast(m, d);
    MulAtLeast(m, -d);
  }

  /** Halving a remainder modulo a doubled modulus. */
  lemma HalveMod(a: nat, m: nat)
    requires m > 0
    ensures (a % (2 * m)) % 2 == a % 2
    ensures (a % (2 * m)) / 2 == (a / 2) % m
  {
    var q, r := a / (2 * m), a % (2 * m);
    assert a == 2 * (m * q) + r;
    assert a / 2 == m * q + r / 2;
    DivModUnique(a / 2, q, r / 2, m);
  }

  lemma XorUnfold(a: nat, b: nat)
    ensures Xor(a, b) % 2 == (a % 2 + b % 2) % 2
    ensures Xor(a, b) / 2 == Xor(a / 2, b / 2)
  {
  }

  /** Truncation commutes with exclusive or. */
  lemma {:induction false} XorMod(a: nat, b: nat, k: nat)
    ensures Xor(a, b) % Pow2(k) == Xor(a % Pow2(k), b % Pow2(k))
    decreases k
  {
    if k == 0 {
      assert a % Pow2(0) == 0 && b % Pow2(0) == 0;
    } else {
      var m := Pow2(k - 1);
      XorMod(a / 2, b / 2, k - 1);
      var z, w := Xor(a, b) % (2 * m), Xor(a % (2 * m), b % (2 * m));
      assert z % 2 == w % 2 && z / 2 == w / 2 by {
        HalveMod(a, m);
        HalveMod(b, m);
        HalveMod(Xor(a, b), m);
        XorUnfold(a, b);
        XorUnfold(a % (2 * m), b % (2 * m));
      }
    }
  }

  lemma {:induction false} AndHighMask(x: nat, n: nat, k: nat)
    requires k <= n && x < Pow2(n)
    ensures Pow2(k) <= Pow2(n)
    ensures And(x, Pow2(n) - Pow2(k)) == x - x % Pow2(k)
  {
    if n == 0 {
    } else if k == 0 {
      AndAll(x, n);
    } else {
      AndHighMask(x / 2, n - 1, k - 1);
      AndHighStep(x, Pow2(n - 1), Pow2(k - 1));
    }
  }

  lemma AndHighStep(x: nat, p: nat, q: nat)
    requires 0 < q <= p && And(x / 2, p - q) == x / 2 - x / 2 % q
    ensures And(x, 2 * p - 2 * q) == x - x % (2 * q)
  {
    hide And;
    AndEven(x, p - q);
    DropLowBits(x, q);
  }

  /** An even mask clears the lowest bit. */
  lemma AndEven(x: nat, half: nat)
    ensures And(x, 2 * half) == 2 * And(x / 2, half)
  {
    var b := 2 * half;
    assert b % 2 == 0 && b / 2 == half;
    if x != 0 && half != 0 {
      assert And(x, b) == (x % 2) * (b % 2) + 2 * And(x / 2, b / 2);
      assert (x % 2) * (b % 2) == 0;
    }
  }

  lemma DropLowBits(x: nat, m: nat)
    requires m > 0
    ensures x - x % (2 * m) == 2 * (x / 2 - x / 2 % m)
  {
    HalveMod(x, m);
  }

  lemma {:induction false} Pow2Injective(k: nat, n: nat)
    requires k <= n
    ensures Pow2(k) <= Pow2(n) && (Pow2(k) == Pow2(n) ==> k == n)
  {
    if k < n {
      Pow2Injective(k, n - 1);
    }
  }

  lemma {:induction false} AndAll(x: nat, n: nat)
    requires x < Pow2(n)
    ensures And(x, Pow2(n) - 1) == x
    ensures Pow2(n) - Pow2(0) == Pow2(n) - 1 && x % Pow2(0) == 0
  {
    if n != 0 && x != 0 {
      AndAll(x / 2, n - 1);
    }
  }

  /** Masking with one bit is that bit. */
  lemma {:induction false} AndOneBit(x: nat, k: nat)
    ensures And(x, Pow2(k)) == x / Pow2(k) % 2 * Pow2(k)
    decreases k
  {
    var p := Pow2(k);
    if k == 0 {
      assert x / 1 == x;
      assert And(x / 2, 0) == 0;
    } else {
      var h := Pow2(k - 1);
      AndOneBit(x / 2, k - 1);
      AndEven(x, h);
      HalfThenWhole(x, h);
    }
  }

  lemma HalfThenWhole(x: nat, h: nat)
    requires h > 0
    ensures x / (2 * h) == x / 2 / h
  {
    var u := x / 2;
    var a, b := u / h, u % h;
    assert x == 2 * (h * a + b) + x % 2 == (2 * h) * a + (2 * b + x % 2);
    DivModUnique(x, a, 2 * b + x % 2, 2 * h);
  }

  lemma OddProduct(x: int, iv: int)
    requires iv % 2 == 1 && x % 2 == 1
    ensures (x * iv) % 2 == 1
  {
    var a, b := x / 2, iv / 2;
    assert x * iv == (2 * a + 1) * (2 * b + 1) == 2 * (2 * (a * b) + a + b) + 1;
  }

  lemma EvenMultiple(y: int, m: int)
    requires m > 0 && y % (2 * m) == 0
    ensures y % 2 == 0 && (y / 2) % m == 0
  {
    var q := y / (2 * m);
    assert y == (2 * m) * q == 2 * (m * q);
    DivModUnique(y, m * q, 0, 2);
    DivModUnique(m * q, q, 0, m);
  }

  lemma DoubleMultiple(h: int, m: int)
    requires m > 0 && h % m == 0
    ensures (2 * h) % (2 * m) == 0
  {
    var q := h / m;
    assert h == m * q;
    assert 2 * h == (2 * m) * q;
    DivModUnique(2 * h, q, 0, 2 * m);
  }

  /** An odd factor never hides a factor of two. */
  lemma {:induction false} OddCancel(x: int, iv: int, k: nat)
    requires iv % 2 == 1 && (x * iv) % Pow2(k) == 0
    ensures x % Pow2(k) == 0
    decreases k
  {
    if k != 0 {
      var m := Pow2(k - 1);
      EvenMultiple(x * iv, m);
      if x % 2 == 1 {
        OddProduct(x, iv);
        assert false;
      }
      var h := x / 2;
      assert x * iv == (2 * h) * iv == 2 * (h * iv);
      OddCancel(h, iv, k - 1);
      DoubleMultiple(h, m);
    }
  }

  const WORD: nat := 0x1_0000_0000_0000_0000

  lemma WordIsPow2()
    ensures Pow2(64) == WORD && Pow2(32) == 0x1_0000_0000
  {
    assert Pow2(8) == 0x100;
    assert Pow2(16) == 0x1_0000;
    assert Pow2(24) == 0x100_0000;
    assert Pow2(32) == 0x1_0000_0000;
    assert Pow2(40) == 0x100_0000_0000;
    assert Pow2(48) == 0x1_0000_0000_0000;
    assert Pow2(56) == 0x100_0000_0000_0000;
  }

  /** utils::Aligned on a 64-bit number: `(x + (a - 1)) & ~(a - 1)`, with the
      wrap-around of the addition. */
  function Aligned(x: nat, a: nat): nat
    requires 1 <= a <= WORD
  {
    And((x + (a - 1)) % WORD, WORD - a)
  }

  lemma LeastMultiple(x: nat, a: nat, r: nat)
    requires a > 0 && r == (x + (a - 1)) - (x + (a - 1)) % a
    ensures r % a == 0 && x <= r < x + a
    ensures forall y :: x <= y && y % a == 0 ==> r <= y
  {
    var t := x + (a - 1);
    assert r == a * (t / a);
    DivModUnique(r, t / a, 0, a);
    forall y | x <= y && y % a == 0
      ensures r <= y
    {
      assert y == a * (y / a);
      MulAtMost(t / a, y / a, x, a);
    }
  }

  lemma MaskLow(t: nat, a: nat, k: nat)
    requires k <= 64 && a == Pow2(k) && t < WORD
    ensures a <= WORD && And(t, WORD - a) == t - t % a
  {
    WordIsPow2();
    Pow2Injective(k, 64);
    AndHighMask(t, 64, k);
  }

  lemma AlignedValue(x: nat, a: nat, k: nat)
    requires k <= 64 && a == Pow2(k) && x + a <= WORD
    ensures Aligned(x, a) == (x + (a - 1)) - (x + (a - 1)) % a
  {
    var t := x + (a - 1);
    MaskLow(t, a, k);
    DivModUnique(t, 0, t, WORD);
  }

  /** For a power of two the masked sum is the least multiple at or above `x`
      when the sum does not wrap. */
  lemma AlignedIsLeastMultiple(x: nat, a: nat, k: nat)
    requires k <= 64 && a == Pow2(k) && x + a <= WORD
    ensures Aligned(x, a) % a == 0 && x <= Aligned(x, a) < x + a
    ensures forall y :: x <= y && y % a == 0 ==> Aligned(x, a) <= y
  {
    AlignedValue(x, a, k);
    LeastMultiple(x, a, Aligned(x, a));
  }

  /** When it wraps the result is zero, below every positive location. */
  lemma AlignedWraps(x: nat, k: nat)
    requires k <= 64 && x < WORD < x + Pow2(k)
    ensures Pow2(k) <= WORD && Aligned(x, Pow2(k)) == 0
  {
    WordIsPow2();
    Pow2Injective(k, 64);
    var a := Pow2(k);
    var t := x + (a - 1) - WORD;
    DivModUnique(x + (a - 1), 1, t, WORD);
    AndHighMask(t, 64, k);
    DivModUnique(t, 0, t, a);
  }

  lemma MulAtMost(q: int, p: int, x: int, a: int)
    requires a > 0 && a * q <= x + (a - 1) && x <= a * p
    ensures a * q <= a * p
  {
    MulAtLeast(a, q - p);
    assert a * (q - p) == a * q - a * p;
  }
}
