/** Integer arithmetic the grid geometry relies on.

    Dafny's `/` and `%` are Euclidean; the C program uses `int`, whose `/`
    rounds toward zero and whose `%` takes the sign of the dividend. `Quot`
    and `Rem` spell out C's operators; the lemmas say where the two
    conventions agree and state the uniqueness of quotient and remainder
    that the coordinate round-trips rest on. */
module CArith {

  function Abs(a: int): nat
  {
    if a < 0 then -a else a
  }

  /** C's `a / b` on `int`: the quotient rounded toward zero. */
  function Quot(a: int, b: int): int
    requires b != 0
  {
    var m := Abs(a) / Abs(b);
    if (a < 0) == (b < 0) then m else -m
  }

  /** C's `a % b` on `int`. */
  function Rem(a: int, b: int): int
    requires b != 0
  {
    a - Quot(a, b) * b
  }

  /** `k * b` is at least as far from zero as `b` unless `k` is zero. */
  lemma MulAwayFromZero(k: int, b: int)
    requires k != 0
    ensures Abs(k * b) >= Abs(b)
  {
    if k > 0 {
      MulMonotone(1, k, Abs(b));
      assert Abs(k * b) == k * Abs(b);
    } else {
      MulMonotone(1, -k, Abs(b));
      assert Abs(k * b) == (-k) * Abs(b);
    }
  }

  /** Multiplication by a non-negative factor keeps order. */
  lemma MulMonotone(x: int, y: int, c: int)
    requires x <= y && c >= 0
    ensures x * c <= y * c
  {
    assert y * c - x * c == (y - x) * c;
  }

  /** Quotient and remainder are unique (Euclidean convention, any non-zero divisor). */
  lemma DivModUnique(a: int, b: int, q: int, r: int)
    requires b != 0 && 0 <= r < Abs(b) && a == q * b + r
    ensures q == a / b && r == a % b
  {
    var q0, r0 := a / b, a % b;
    assert (q - q0) * b == r0 - r;
    if q != q0 {
      MulAwayFromZero(q - q0, b);
      assert false;
    }
  }

  /** For a non-negative dividend and a positive divisor C and Dafny agree. */
  lemma QuotRemAgree(a: int, b: int)
    requires a >= 0 && b > 0
    ensures Quot(a, b) == a / b && Rem(a, b) == a % b
  {
  }

  /** `Abs` distributes over a product. */
  lemma AbsMul(k: int, b: int)
    ensures Abs(k * b) == Abs(k) * Abs(b)
  {
    if k < 0 && b < 0 {
      assert k * b == (-k) * (-b);
    } else if k < 0 {
      assert k * b == -((-k) * b);
    } else if b < 0 {
      assert k * b == -(k * (-b));
    }
  }

  /** C's remainder is the remainder of the magnitudes, carrying the sign of `a`. */
  lemma RemIsSignedMod(a: int, b: int)
    requires b != 0
    ensures Rem(a, b) == if a < 0 then -(Abs(a) % Abs(b)) else Abs(a) % Abs(b)
  {
    var m, t := Abs(a) / Abs(b), Abs(a) % Abs(b);
    assert Abs(a) == m * Abs(b) + t;
    if b < 0 {
      assert m * b == -(m * Abs(b));
    } else {
      assert m * b == m * Abs(b);
    }
  }

  /** C's remainder keeps the sign of the dividend and is smaller than the divisor. */
  lemma RemBounds(a: int, b: int)
    requires b != 0
    ensures Abs(Rem(a, b)) < Abs(b)
    ensures a >= 0 ==> Rem(a, b) >= 0
    ensures a < 0 ==> Rem(a, b) <= 0
  {
    RemIsSignedMod(a, b);
  }

  /** A multiple in magnitude is a multiple. */
  lemma MultipleOfMagnitudes(a: int, b: int, m: int) returns (k: int)
    requires Abs(a) == m * Abs(b)
    ensures a == k * b
  {
    if (a < 0) == (b < 0) {
      k := m;
      if a < 0 {
        assert m * Abs(b) == -(m * b);
      }
    } else {
      k := -m;
      if a < 0 {
        assert m * Abs(b) == m * b;
      } else {
        assert m * Abs(b) == -(m * b);
      }
    }
  }

  /** A zero C remainder means a Euclidean multiple. */
  lemma RemZeroDivides(a: int, b: int)
    requires b != 0 && Abs(a) % Abs(b) == 0
    ensures a % b == 0
  {
    var k := MultipleOfMagnitudes(a, b, Abs(a) / Abs(b));
    DivModUnique(a, b, k, 0);
  }

  /** A Euclidean multiple has a zero C remainder. */
  lemma DividesRemZero(a: int, b: int)
    requires b != 0 && a % b == 0
    ensures Abs(a) % Abs(b) == 0
  {
    var k := a / b;
    AbsMul(k, b);
    DivModUnique(Abs(a), Abs(b), Abs(k), 0);
  }

  /** The zero test `n % px != 0` of the C program means "px does not divide n",
      whatever the signs: C's and Dafny's remainders vanish together. */
  lemma RemZeroIffDivides(a: int, b: int)
    requires b != 0
    ensures Rem(a, b) == 0 <==> a % b == 0
  {
    RemIsSignedMod(a, b);
    if Abs(a) % Abs(b) == 0 {
      RemZeroDivides(a, b);
    }
    if a % b == 0 {
      DividesRemZero(a, b);
    }
  }
}
