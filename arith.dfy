/** Facts about Euclidean division and products that several modules need. */
module Arith {

  /** Adding multiples of n does not change a residue. */
  lemma ModAddMultiple(x: int, q: int, n: int)
    requires n > 0
    ensures (q * n + x) % n == x % n
  {
    var r := x % n;
    var t := x / n;
    assert x == t * n + r;
    assert q * n + x == (q + t) * n + r;
    DivMod(q * n + x, q + t, r, n);
  }

  /** The quotient and remainder of Euclidean division are unique: x == q n + r with
      0 <= r < n determines both. */
  lemma DivMod(x: int, q: int, r: int, n: int)
    requires n > 0 && 0 <= r < n && x == q * n + r
    ensures x / n == q && x % n == r
  {
    var q', r' := x / n, x % n;
    assert x == q' * n + r';
    if q' < q {
      assert (q - q') * n == r' - r;
      assert (q - q') * n >= n by {
        MulAtLeast(q - q', n);
      }
    } else if q' > q {
      assert (q' - q) * n == r - r';
      assert (q' - q) * n >= n by {
        MulAtLeast(q' - q, n);
      }
    }
  }

  lemma MulAtLeast(a: int, n: int)
    requires a >= 1 && n > 0
    ensures a * n >= n
  {
  }

  /** Subtracting multiples of n does not change a residue. */
  lemma ModSubMultiple(x: int, q: int, n: int)
    requires n > 0
    ensures (x - q * n) % n == x % n
  {
    ModAddMultiple(x, -q, n);
    assert -q * n == -(q * n);
  }

  /** Either factor of a product may be the one reduced modulo n. */
  lemma ReduceEitherFactor(a: int, x: int, n: int)
    requires n > 0
    ensures (a * (x % n)) % n == (x * (a % n)) % n
  {
    MulMod(a, x, n);
    MulMod(x, a, n);
    assert a * x == x * a;
  }

  /** A factor may be reduced modulo n before multiplying. */
  lemma MulMod(a: int, b: int, n: int)
    requires n > 0
    ensures (a * b) % n == ((a % n) * b) % n
    ensures (a * b) % n == (a * (b % n)) % n
  {
    var q := a / n;
    assert a == q * n + a % n;
    assert a * b == (q * b) * n + (a % n) * b;
    ModAddMultiple((a % n) * b, q * b, n);
    var q2 := b / n;
    assert b == q2 * n + b % n;
    assert a * b == (a * q2) * n + a * (b % n);
    ModAddMultiple(a * (b % n), a * q2, n);
  }

  lemma MulLe(x: int, y: int, z: int)
    requires x <= y && z >= 0
    ensures x * z <= y * z
  {
  }

  lemma MulNat(x: nat, y: nat)
    ensures x * y >= 0
  {
  }
}
