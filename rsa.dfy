/** Textbook RSA over unbounded integers, as the set 6 attacks use it. Key generation,
    the primes and the big-number library are not part of this model: a key is its
    modulus and exponents, and RSA's correctness is a hypothesis on the key (Valid). */
module Rsa {
  import opened Bytes
  import opened Arith

  /** x^e mod n, by repeated multiplication. */
  function ModPow(x: nat, e: nat, n: nat): (r: nat)
    requires n > 0
    ensures r < n
    decreases e
  {
    if e == 0 then 1 % n else (x * ModPow(x, e - 1, n)) % n
  }

  /** Reducing the base modulo n first does not change x^e mod n. */
  lemma {:induction false} ModPowMod(x: nat, e: nat, n: nat)
    requires n > 0
    ensures ModPow(x % n, e, n) == ModPow(x, e, n)
    decreases e
  {
    if e > 0 {
      ModPowMod(x, e - 1, n);
      MulMod(x, ModPow(x, e - 1, n), n);
    }
  }

  /** RSA is multiplicative: (a b)^e = a^e b^e modulo n. */
  lemma {:induction false} ModPowMul(a: nat, b: nat, e: nat, n: nat)
    requires n > 0
    ensures ModPow(a * b, e, n) == (ModPow(a, e, n) * ModPow(b, e, n)) % n
    decreases e
  {
    if e == 0 {
      assert 1 % n * (1 % n) == 1 % n;
    } else {
      var pa, pb := ModPow(a, e - 1, n), ModPow(b, e - 1, n);
      ModPowMul(a, b, e - 1, n);
      assert ModPow(a * b, e, n) == (a * b * ((pa * pb) % n)) % n;
      MulModChain(a, b, pa, pb, n);
    }
  }

  /** The modular step of ModPowMul, on plain integers. */
  lemma MulModChain(a: nat, b: nat, pa: nat, pb: nat, n: nat)
    requires n > 0
    ensures (a * b * ((pa * pb) % n)) % n == (((a * pa) % n) * ((b * pb) % n)) % n
  {
    calc {
      (a * b * ((pa * pb) % n)) % n;
      { MulMod(a * b, pa * pb, n); }
      (a * b * (pa * pb)) % n;
      { MulRearrange(a, b, pa, pb); }
      ((a * pa) * (b * pb)) % n;
      { MulMod(a * pa, b * pb, n); }
      (((a * pa) % n) * (b * pb)) % n;
      { MulMod((a * pa) % n, b * pb, n); }
      (((a * pa) % n) * ((b * pb) % n)) % n;
    }
  }

  lemma MulRearrange(a: int, b: int, c: int, d: int)
    ensures a * b * (c * d) == (a * c) * (b * d)
  {
  }

  /** Zero to a positive power is zero. */
  lemma ModPowZero(e: nat, n: nat)
    requires n > 0 && e > 0
    ensures ModPow(0, e, n) == 0
  {
  }

  /** An RSA key: the modulus and the public and private exponents. */
  datatype Key = Key(n: nat, e: nat, d: nat)
  {
    /** What the attacks assume of a generated key: an odd modulus (a product of two odd
        primes), a positive public exponent, and decryption undoing encryption on every
        residue. */
    ghost predicate Valid()
    {
      && n > 2 && n % 2 == 1 && e > 0
      && forall x: nat :: x < n ==> ModPow(ModPow(x, e, n), d, n) == x
    }

    /** `rsa.encrypt`: x^e mod n. */
    function Encrypt(x: nat): (y: nat)
      requires n > 0
      ensures y < n
    {
      ModPow(x, e, n)
    }

    /** `rsa.decrypt`: y^d mod n. */
    function Decrypt(y: nat): (x: nat)
      requires n > 0
      ensures x < n
    {
      ModPow(y, d, n)
    }
  }

  /** Decryption undoes encryption up to reduction modulo n. */
  lemma DecryptEncrypt(key: Key, x: nat)
    requires key.Valid()
    ensures key.Decrypt(key.Encrypt(x)) == x % key.n
  {
    ModPowMod(x, key.e, key.n);
  }

  /** The product of two ciphertexts decrypts to the product of their cleartexts. */
  lemma DecryptProduct(key: Key, a: nat, b: nat)
    requires key.Valid()
    ensures key.Decrypt(key.Encrypt(a) * key.Encrypt(b)) == (a * b) % key.n
  {
    var ea, eb := key.Encrypt(a), key.Encrypt(b);
    MulNat(ea, eb);
    MulNat(a, b);
    var p: nat, ab: nat := ea * eb, a * b;
    assert key.Decrypt(p) == key.Decrypt(p % key.n) by {
      ModPowMod(p, key.d, key.n);
    }
    assert p % key.n == key.Encrypt(ab) by {
      ModPowMul(a, b, key.e, key.n);
    }
    DecryptEncrypt(key, ab);
  }

  /** Extended Euclid: (x, y, g) with x a + y b == g, g dividing a and b, and g > 0
      unless both are zero. */
  function ExtGcd(a: nat, b: nat): (r: (int, int, nat))
    ensures r.0 * a + r.1 * b == r.2
    ensures r.2 > 0 ==> a % r.2 == 0 && b % r.2 == 0
    ensures a > 0 || b > 0 ==> r.2 > 0
    decreases b
  {
    if b == 0 then (1, 0, a)
    else
      var t := ExtGcd(b, a % b);
      GcdStep(a, b, t.0, t.1, t.2);
      (t.1, t.0 - (a / b) * t.1, t.2)
  }

  lemma GcdStep(a: nat, b: nat, x: int, y: int, g: nat)
    requires b > 0
    requires x * b + y * (a % b) == g
    requires g > 0 ==> b % g == 0 && (a % b) % g == 0
    ensures y * a + (x - (a / b) * y) * b == g
    ensures g > 0 ==> a % g == 0
  {
    var q := a / b;
    assert a == q * b + a % b;
    assert y * a + (x - q * y) * b == x * b + y * (a - q * b);
    if g > 0 {
      var kb, kr := b / g, (a % b) / g;
      assert b == kb * g;
      assert a % b == kr * g;
      assert a == (q * kb + kr) * g;
      ModAddMultiple(0, q * kb + kr, g);
    }
  }

  /** `invmod`: the inverse of a modulo n when a and n are coprime. */
  function InvMod(a: nat, n: nat): (r: Option<nat>)
    requires n > 1
    ensures r.Some? ==> r.value < n && (a * r.value) % n == 1
  {
    var t := ExtGcd(a % n, n);
    if t.2 == 1 then
      InvModStep(a, n, t.0, t.1);
      Some(t.0 % n)
    else None
  }

  lemma InvModStep(a: nat, n: nat, x: int, y: int)
    requires n > 1 && x * (a % n) + y * n == 1
    ensures (a * (x % n)) % n == 1
  {
    var p := x * (a % n);
    var q := y * n;
    assert p == 1 - q;
    ReduceEitherFactor(a, x, n);
    ModSubMultiple(1, y, n);
    assert (1 - q) % n == 1 by {
      DivMod(1, 0, 1, n);
    }
  }

  /** Every common divisor of a and n that `invmod` would need is 1: an odd modulus
      makes 2 invertible, which the attack relies on when it unwraps the result. */
  lemma InvModTwo(n: nat)
    requires n > 2 && n % 2 == 1
    ensures InvMod(2, n).Some?
  {
    assert 2 % n == 2 by {
      DivMod(2, 0, 2, n);
    }
    var t := ExtGcd(2 % n, n);
    var g := t.2;
    assert g > 0 && 2 % g == 0 && n % g == 0;
    assert g <= 2;
    assert g != 2;
  }
}
