/** Facts about Euclidean division that the solver does not find unaided. */
module Arith {

  lemma {:induction false} MulAtLeast(b: int, k: nat)
    requires b > 0 && k >= 1
    ensures b * k >= b
    decreases k
  {
    if k > 1 {
      MulAtLeast(b, k - 1);
      assert b * k == b * (k - 1) + b;
    }
  }

  /** Quotient and remainder are the only pair with x == b * q + r and 0 <= r < b. */
  lemma DivModUnique(x: int, q: int, r: int, b: int)
    requires b > 0 && x == b * q + r && 0 <= r < b
    ensures x / b == q && x % b == r
  {
    var q', r' := x / b, x % b;
    assert x == b * q' + r';
    if q > q' {
      assert b * (q - q') == b * q - b * q';
      MulAtLeast(b, q - q');
    } else if q < q' {
      assert b * (q' - q) == b * q' - b * q;
      MulAtLeast(b, q' - q);
    }
  }

  lemma MultipleMod(q: int, b: int)
    requires b > 0
    ensures (b * q) % b == 0 && (b * q) / b == q
  {
    DivModUnique(b * q, q, 0, b);
  }

  lemma MulMonotone(b: int, x: int, y: int)
    requires b > 0 && x <= y
    ensures b * x <= b * y
  {
    if x < y {
      assert b * y - b * x == b * (y - x);
      MulAtLeast(b, y - x);
    }
  }

  /** A multiple of b strictly between -b and b is zero. */
  lemma SmallMultipleIsZero(x: int, b: int)
    requires b > 0 && x % b == 0 && -b < x < b
    ensures x == 0
  {
    var q := x / b;
    assert x == b * q;
    if q >= 1 {
      MulAtLeast(b, q);
    }
  }

  /** Adding a multiple of b does not change the remainder. */
  lemma ModShift(k: int, x: int, b: int)
    requires b > 0
    ensures (b * k + x) % b == x % b
  {
    assert b * k + x == b * (k + x / b) + x % b;
    DivModUnique(b * k + x, k + x / b, x % b, b);
  }

  /** Dropping the remainder leaves a multiple. */
  lemma RemOffMultiple(a: int, b: int)
    requires b > 0
    ensures (a - a % b) % b == 0
  {
    var q := a / b;
    assert a - a % b == b * q;
    MultipleMod(q, b);
  }

  /** For a negative dividend, adding the remainder of its negation leaves a multiple. */
  lemma NegRemOffMultiple(a: int, b: int)
    requires b > 0
    ensures (a - -((-a) % b)) % b == 0
  {
    var q := (-a) / b;
    assert a - -((-a) % b) == b * -q;
    MultipleMod(-q, b);
  }

  /** Dropping the remainder and adding one more b leaves a multiple. */
  lemma NextMultiple(a: int, b: int)
    requires b > 0
    ensures (a - a % b + b) % b == 0
  {
    var q := a / b;
    assert a - a % b + b == b * (q + 1);
    MultipleMod(q + 1, b);
  }

  lemma DivModBounds(n: int, b: int)
    requires n >= 0 && b > 0
    ensures 0 <= n / b <= n && 0 <= n % b < b
  {
    if n / b > n {
      MulAtLeast(n / b, b);
    }
  }

  /** Adding a multiple of b to y does not change y's remainder. */
  lemma ModAddMultiple(x: int, y: int, b: int)
    requires b > 0 && x % b == 0
    ensures (x + y) % b == y % b
  {
    var k := x / b;
    assert x == b * k;
    ModShift(k, y, b);
  }

  /** Twice a value in (-b, 0] is a multiple of b only at 0 and at -b/2. */
  lemma TwiceMultiple(t: int, b: int)
    requires b > 0 && -b < t <= 0
    ensures (2 * t) % b == 0 <==> t == 0 || 2 * t == -b
  {
    if (2 * t) % b == 0 {
      if 2 * t > -b {
        SmallMultipleIsZero(2 * t, b);
      } else {
        ModShift(1, 2 * t, b);
        SmallMultipleIsZero(2 * t + b, b);
      }
    } else if 2 * t == -b {
      MultipleMod(-1, b);
    }
  }
}
