/** Bleichenbacher's attack on PKCS#1 v1.5 encryption padding (section 7.2.1 of RFC 8017):
    an oracle that reveals whether a ciphertext decrypts to a value starting with the
    bytes 00 02 lets the attacker narrow a set of intervals known to hold the cleartext
    until one point remains. */
module Bleichenbacher {
  import opened Bytes
  import opened Rsa
  import opened Arith
  import opened Intervals

  datatype Error =
    | Mismatch     // `compare_eq` found the recovered value different from m
    | OutOfFuel    // a search ran out of its iteration budget

  /** 2^j, the value of `1.lsh(j)`. */
  function Pow2(j: nat): (r: nat)
    ensures r >= 1
  {
    if j == 0 then 1 else 2 * Pow2(j - 1)
  }

  lemma {:induction false} Pow2Add(a: nat, b: nat)
    ensures Pow2(a + b) == Pow2(a) * Pow2(b)
  {
    if a > 0 {
      Pow2Add(a - 1, b);
      assert Pow2(a + b) == 2 * Pow2(a - 1 + b);
    }
  }

  /** `n.bytes()`: the number of bytes needed to write n. */
  function NumBytes(n: nat): (k: nat)
    ensures n < Pow2(8 * k)
    ensures k > 0 ==> Pow2(8 * (k - 1)) <= n
  {
    if n == 0 then 0
    else
      var k := 1 + NumBytes(n / 256);
      NumBytesStep(n, k - 1);
      k
  }

  lemma NumBytesStep(n: nat, k: nat)
    requires n > 0 && n / 256 < Pow2(8 * k)
    requires k > 0 ==> Pow2(8 * (k - 1)) <= n / 256
    requires k == 0 ==> n / 256 == 0
    ensures n < Pow2(8 * (k + 1)) && Pow2(8 * k) <= n
  {
    assert Pow2(8) == 256;
    Pow2Add(8, 8 * k);
    assert 8 + 8 * k == 8 * (k + 1);
    assert n == 256 * (n / 256) + n % 256;
    if k > 0 {
      Pow2Add(8, 8 * (k - 1));
      assert 8 + 8 * (k - 1) == 8 * k;
    }
  }

  /** `BigNum::from_bytes_be`: the unsigned big-endian value of a byte string. */
  function FromBytesBe(bs: seq<byte>): (v: nat)
    ensures v < Pow2(8 * |bs|)
  {
    if bs == [] then 0
    else
      var p := Pow2(8 * (|bs| - 1));
      var rest := FromBytesBe(bs[1..]);
      Pow2Add(8, 8 * (|bs| - 1));
      assert Pow2(8) == 256;
      MulLe(bs[0], 255, p);
      bs[0] * p + rest
  }

  /** The ceiling of x / y, `ceil_quotient`. */
  function CeilQuotient(x: int, y: int): (q: int)
    requires y > 0
    ensures (q - 1) * y < x <= q * y
  {
    var t := (-x) / y;
    assert -x == t * y + (-x) % y;
    assert (-t) * y == -(t * y);
    -t
  }

  /** The floor of x / y, `floor_quotient`. */
  function FloorQuotient(x: int, y: int): (q: int)
    requires y > 0
    ensures q * y <= x < (q + 1) * y
  {
    x / y
  }

  /** The ceiling is the least q with x <= q y. */
  lemma CeilQuotientLeast(x: int, y: int, q: int)
    requires y > 0 && x <= q * y
    ensures CeilQuotient(x, y) <= q
  {
    var c := CeilQuotient(x, y);
    if c > q {
      MulLe(q, c - 1, y);
    }
  }

  /** The floor is the greatest q with q y <= x. */
  lemma FloorQuotientGreatest(x: int, y: int, q: int)
    requires y > 0 && q * y <= x
    ensures q <= FloorQuotient(x, y)
  {
    var f := FloorQuotient(x, y);
    if q > f {
      MulLe(f + 1, q, y);
    }
  }

  // ---------------------------------------------------------------------------------
  // The padding oracle

  /** B = 2^(8(k-2)) for a k-byte modulus: a conforming block is 00 02 followed by
      k - 2 further bytes, so its value lies in [2B, 3B). */
  function BoundB(k: nat): (b: nat)
    requires k >= 2
    ensures b >= 1
  {
    Pow2(8 * (k - 2))
  }

  predicate Conforming(bound: nat, x: int)
  {
    2 * bound <= x < 3 * bound
  }

  /** `oracle`: the cleartext shifted right by 8(k-2) bits equals 2. */
  function Oracle(key: Key, k: nat, ciphertext: nat): bool
    requires key.n > 0 && k >= 2
  {
    key.Decrypt(ciphertext) / BoundB(k) == 2
  }

  /** The shift test accepts exactly the cleartexts in [2B, 3B). */
  lemma OracleConforming(key: Key, k: nat, ciphertext: nat)
    requires key.n > 0 && k >= 2
    ensures Oracle(key, k, ciphertext) <==> Conforming(BoundB(k), key.Decrypt(ciphertext))
  {
    ShiftIsTwo(key.Decrypt(ciphertext), BoundB(k));
  }

  /** x / b == 2 exactly when 2 b <= x < 3 b. */
  lemma ShiftIsTwo(x: nat, b: nat)
    requires b >= 1
    ensures x / b == 2 <==> 2 * b <= x < 3 * b
  {
    if 2 * b <= x < 3 * b {
      DivMod(x, 2, x - 2 * b, b);
    }
    if x / b == 2 {
      assert x == (x / b) * b + x % b;
    }
  }

  /** `wrapped_oracle`: asks the oracle about c * s^e. */
  function WrappedOracle(key: Key, k: nat, c: nat, s: nat): bool
    requires key.n > 0 && k >= 2
  {
    Oracle(key, k, c * key.Encrypt(s))
  }

  /** With c the encryption of m, the wrapped oracle accepts s exactly when m s mod n is
      conforming: the oracle the attack is designed against. */
  lemma WrappedOracleConforming(key: Key, k: nat, m: nat, s: nat)
    requires key.Valid() && k >= 2
    ensures WrappedOracle(key, k, key.Encrypt(m), s) <==> Conforming(BoundB(k), (m * s) % key.n)
  {
    OracleConforming(key, k, key.Encrypt(m) * key.Encrypt(s));
    DecryptProduct(key, m, s);
  }

  // ---------------------------------------------------------------------------------
  // The padded cleartext

  /** 0x02, the random nonzero filler, 0x00, then the message. */
  function Padded(k: nat, msg: seq<byte>, filler: seq<byte>): (p: seq<byte>)
    requires |msg| + 11 <= k && |filler| == k - 3 - |msg|
    ensures |p| == k - 1 && p[0] == 2 && p[|p| - |msg| - 1] == 0
    ensures p[|p| - |msg|..] == msg
  {
    [2] + filler + [0] + msg
  }

  /** A padded block lies in the initial interval [2B, 3B - 1]. */
  lemma PaddedConforming(k: nat, msg: seq<byte>, filler: seq<byte>)
    requires |msg| + 11 <= k && |filler| == k - 3 - |msg|
    ensures Conforming(BoundB(k), FromBytesBe(Padded(k, msg, filler)))
  {
    var p := Padded(k, msg, filler);
    var rest := p[1..];
    assert |rest| == k - 2;
    assert FromBytesBe(p) == 2 * BoundB(k) + FromBytesBe(rest);
  }

  // ---------------------------------------------------------------------------------
  // Step 2: searching for the next multiplier

  /** The wrapped oracle accepts no s in [lo, hi). */
  predicate NoneAccepted(key: Key, k: nat, c: nat, lo: int, hi: int)
    requires key.n > 0 && k >= 2
  {
    forall t: nat :: lo <= t < hi ==> !WrappedOracle(key, k, c, t)
  }

  /** s is the least multiplier from `start` on that the wrapped oracle accepts. */
  predicate LeastAccepted(key: Key, k: nat, c: nat, start: int, s: nat)
    requires key.n > 0 && k >= 2
  {
    start <= s && WrappedOracle(key, k, c, s) && NoneAccepted(key, k, c, start, s)
  }

  /** Steps 2.a and 2.b: the least s >= start the oracle accepts, within `fuel` queries. */
  method SearchFrom(key: Key, k: nat, c: nat, start: nat, fuel: nat) returns (r: Option<nat>)
    requires key.n > 0 && k >= 2
    ensures r.Some? ==> LeastAccepted(key, k, c, start, r.value)
    ensures r.None? ==> NoneAccepted(key, k, c, start, start + fuel)
  {
    var si := start;
    while si < start + fuel
      invariant start <= si <= start + fuel
      invariant NoneAccepted(key, k, c, start, si)
    {
      if WrappedOracle(key, k, c, si) {
        return Some(si);
      }
      NoneAcceptedNext(key, k, c, start, si);
      si := si + 1;
    }
    return None;
  }

  /** A rejected s extends a rejected range [lo, s) by one. */
  lemma NoneAcceptedNext(key: Key, k: nat, c: nat, lo: int, s: nat)
    requires key.n > 0 && k >= 2
    requires NoneAccepted(key, k, c, lo, s) && !WrappedOracle(key, k, c, s)
    ensures NoneAccepted(key, k, c, lo, s + 1)
  {
  }

  /** The candidates step 2.c scans for a given r: [ceil((2B + r n)/b), ceil((3B + r n)/a)). */
  predicate InWindow(n: nat, bound: nat, iv: Interval, r: int, s: int)
    requires n > 0 && iv.lo > 0 && iv.hi > 0
  {
    WindowStart(n, bound, iv, r) <= s < CeilQuotient(3 * bound + r * n, iv.lo)
  }

  /** Where the scan of the window of r starts: ceil((2B + r n)/b). */
  function WindowStart(n: nat, bound: nat, iv: Interval, r: int): int
    requires n > 0 && iv.hi > 0
  {
    CeilQuotient(2 * bound + r * n, iv.hi)
  }

  /** The first r step 2.c tries: ceil(2 (b s_prev - 2B) / n). */
  function FirstR(n: nat, bound: nat, iv: Interval, sPrev: nat): int
    requires n > 0
  {
    CeilQuotient(2 * (iv.hi * sPrev - 2 * bound), n)
  }

  /** The wrapped oracle accepts no s in the windows of r = from, ..., to - 1. */
  ghost predicate WindowsRejected(key: Key, k: nat, c: nat, iv: Interval, from: int, to: int)
    requires key.n > 0 && k >= 2 && iv.lo > 0 && iv.hi > 0
  {
    forall r: int, t: nat :: from <= r < to && InWindow(key.n, BoundB(k), iv, r, t) ==> !WrappedOracle(key, k, c, t)
  }

  /** s is the first accepted multiplier in the order step 2.c scans: r ascending from r0,
      and within the window of each r, s ascending. */
  ghost predicate FirstInScan(key: Key, k: nat, c: nat, iv: Interval, r0: int, s: nat)
    requires key.n > 0 && k >= 2 && iv.lo > 0 && iv.hi > 0
  {
    exists ri: int :: r0 <= ri && InWindow(key.n, BoundB(k), iv, ri, s) && WindowsRejected(key, k, c, iv, r0, ri)
                      && LeastAccepted(key, k, c, WindowStart(key.n, BoundB(k), iv, ri), s)
  }

  /** Step 2.c, for a single remaining interval (a, b): for r = FirstR, FirstR + 1, ...
      (at most `fuel` values), scan the window of r and stop at the first s accepted. */
  method SearchWindows(key: Key, k: nat, c: nat, iv: Interval, sPrev: nat, fuel: nat)
    returns (r: Option<nat>)
    requires key.n > 0 && k >= 2
    requires iv.lo > 0 && iv.hi >= 2 * BoundB(k) && sPrev >= 1
    ensures r.Some? ==> r.value >= 1 && WrappedOracle(key, k, c, r.value)
    ensures r.Some? ==> FirstInScan(key, k, c, iv, FirstR(key.n, BoundB(k), iv, sPrev), r.value)
    ensures r.None? ==> WindowsRejected(key, k, c, iv, FirstR(key.n, BoundB(k), iv, sPrev),
                                        FirstR(key.n, BoundB(k), iv, sPrev) + fuel)
  {
    var n, bound := key.n, BoundB(k);
    var r0 := FirstR(n, bound, iv, sPrev);
    assert r0 >= 0 by {
      MulLe(1, sPrev, iv.hi);
      CeilQuotientNonnegative(2 * (iv.hi * sPrev - 2 * bound), n);
    }
    var ri := r0;
    var budget := fuel;
    while budget > 0
      invariant ri >= r0 && ri + budget == r0 + fuel
      invariant WindowsRejected(key, k, c, iv, r0, ri)
    {
      var si := CeilQuotient(2 * bound + ri * n, iv.hi);
      var upper := CeilQuotient(3 * bound + ri * n, iv.lo);
      assert si >= 1 by {
        MulLe(0, ri, n);
        CeilQuotientPositive(2 * bound + ri * n, iv.hi);
      }
      while si < upper
        invariant si >= 1 && WindowStart(n, bound, iv, ri) <= si
        invariant NoneAccepted(key, k, c, WindowStart(n, bound, iv, ri), si)
        decreases upper - si
      {
        if WrappedOracle(key, k, c, si) {
          assert InWindow(n, bound, iv, ri, si);
          assert LeastAccepted(key, k, c, WindowStart(n, bound, iv, ri), si);
          return Some(si);
        }
        NoneAcceptedNext(key, k, c, WindowStart(n, bound, iv, ri), si);
        si := si + 1;
      }
      RejectedNext(key, k, c, iv, r0, ri, si);
      ri := ri + 1;
      budget := budget - 1;
    }
    return None;
  }

  /** Once the window of ri is scanned to its end without success, the windows up to
      ri + 1 are rejected. */
  lemma RejectedNext(key: Key, k: nat, c: nat, iv: Interval, r0: int, ri: int, si: int)
    requires key.n > 0 && k >= 2 && iv.lo > 0 && iv.hi > 0
    requires WindowsRejected(key, k, c, iv, r0, ri)
    requires NoneAccepted(key, k, c, WindowStart(key.n, BoundB(k), iv, ri), si)
    requires CeilQuotient(3 * BoundB(k) + ri * key.n, iv.lo) <= si
    ensures WindowsRejected(key, k, c, iv, r0, ri + 1)
  {
    forall r: int, t: nat | r0 <= r < ri + 1 && InWindow(key.n, BoundB(k), iv, r, t)
      ensures !WrappedOracle(key, k, c, t)
    {
      if r == ri {
        assert WindowStart(key.n, BoundB(k), iv, ri) <= t < si;
      }
    }
  }

  lemma CeilQuotientNonnegative(x: int, y: int)
    requires y > 0 && x >= 0
    ensures CeilQuotient(x, y) >= 0
  {
    var q := CeilQuotient(x, y);
    if q < 0 {
      MulLe(q, -1, y);
    }
  }

  lemma CeilQuotientPositive(x: int, y: int)
    requires y > 0 && x > 0
    ensures CeilQuotient(x, y) >= 1
  {
    var q := CeilQuotient(x, y);
    if q < 1 {
      MulLe(q, 0, y);
    }
  }

  // ---------------------------------------------------------------------------------
  // Step 3: narrowing the set of intervals

  /** The least r considered for interval (a, b): ceil((a s - 3B + 1) / n). */
  function LowR(n: nat, bound: nat, iv: Interval, s: nat): int
    requires n > 0
  {
    CeilQuotient(iv.lo * s - 3 * bound + 1, n)
  }

  /** The greatest r considered: floor((b s - 2B) / n). */
  function HighR(n: nat, bound: nat, iv: Interval, s: nat): int
    requires n > 0
  {
    FloorQuotient(iv.hi * s - 2 * bound, n)
  }

  /** The interval pushed for r:
      (max(a, ceil((2B + r n) / s)), min(b, floor((3B - 1 + r n) / s))). */
  function Emit(n: nat, bound: nat, iv: Interval, s: nat, r: int): (e: Interval)
    requires n > 0 && s > 0
    ensures iv.lo <= e.lo && e.hi <= iv.hi
  {
    Interval(Max(iv.lo, CeilQuotient(2 * bound + r * n, s)),
             Min(iv.hi, FloorQuotient(3 * bound - 1 + r * n, s)))
  }

  /** Everything pushed for one interval of M_prev, r ascending. */
  function NarrowOne(n: nat, bound: nat, iv: Interval, s: nat): (ivs: seq<Interval>)
    requires n > 0 && s > 0
  {
    var lowR := LowR(n, bound, iv, s);
    var count := if HighR(n, bound, iv, s) >= lowR then HighR(n, bound, iv, s) - lowR + 1 else 0;
    seq(count, j requires 0 <= j < count => Emit(n, bound, iv, s, lowR + j))
  }

  /** Everything pushed onto M_i, interval by interval of M_prev. */
  function Narrow(n: nat, bound: nat, prev: seq<Interval>, s: nat): seq<Interval>
    requires n > 0 && s > 0
  {
    if prev == [] then []
    else Narrow(n, bound, prev[..|prev| - 1], s) + NarrowOne(n, bound, prev[|prev| - 1], s)
  }

  /** The nested loops that build M_i (before sorting). */
  method UpdateIntervals(n: nat, bound: nat, prev: seq<Interval>, s: nat) returns (next: seq<Interval>)
    requires n > 0 && s > 0
    ensures next == Narrow(n, bound, prev, s)
  {
    next := [];
    for j := 0 to |prev|
      invariant next == Narrow(n, bound, prev[..j], s)
    {
      var iv := prev[j];
      var r := LowR(n, bound, iv, s);
      var upper := HighR(n, bound, iv, s);
      ghost var before := next;
      while r <= upper
        invariant LowR(n, bound, iv, s) <= r <= Max(upper + 1, LowR(n, bound, iv, s))
        invariant next == before + NarrowOne(n, bound, iv, s)[..r - LowR(n, bound, iv, s)]
        decreases upper - r
      {
        next := next + [Emit(n, bound, iv, s, r)];
        r := r + 1;
      }
      assert prev[..j + 1][..j] == prev[..j];
    }
    assert prev[..|prev|] == prev;
  }

  /** Every bound of every interval lies in [2B, 3B - 1]. */
  predicate WithinBounds(bound: nat, ivs: seq<Interval>)
  {
    forall iv :: iv in ivs ==> 2 * bound <= iv.lo <= 3 * bound - 1 && 2 * bound <= iv.hi <= 3 * bound - 1
  }

  /** If m lies in (a, b) and m s mod n is conforming, one of the intervals pushed for
      (a, b) contains m: the r with m s = r n + (m s mod n). */
  lemma NarrowOneKeeps(n: nat, bound: nat, iv: Interval, s: nat, m: nat)
    requires n > 0 && s > 0 && Contains(iv, m) && Conforming(bound, (m * s) % n)
    ensures Covers(NarrowOne(n, bound, iv, s), m)
  {
    var p, r := (m * s) % n, (m * s) / n;
    assert m * s == r * n + p;
    MulLe(iv.lo, m, s);
    MulLe(m, iv.hi, s);
    CeilQuotientLeast(iv.lo * s - 3 * bound + 1, n, r);
    FloorQuotientGreatest(iv.hi * s - 2 * bound, n, r);
    CeilQuotientLeast(2 * bound + r * n, s, m);
    FloorQuotientGreatest(3 * bound - 1 + r * n, s, m);
    var ivs := NarrowOne(n, bound, iv, s);
    var j := r - LowR(n, bound, iv, s);
    assert ivs[j] == Emit(n, bound, iv, s, r);
  }

  /** The narrowing keeps m covered. */
  lemma {:induction false} NarrowKeeps(n: nat, bound: nat, prev: seq<Interval>, s: nat, m: nat)
    requires n > 0 && s > 0 && Covers(prev, m) && Conforming(bound, (m * s) % n)
    ensures Covers(Narrow(n, bound, prev, s), m)
  {
    var init, last := prev[..|prev| - 1], prev[|prev| - 1];
    var j :| 0 <= j < |prev| && Contains(prev[j], m);
    if j == |prev| - 1 {
      NarrowOneKeeps(n, bound, last, s, m);
      CoversAppend(Narrow(n, bound, init, s), NarrowOne(n, bound, last, s), m);
    } else {
      assert init[j] == prev[j];
      NarrowKeeps(n, bound, init, s, m);
      CoversAppend(Narrow(n, bound, init, s), NarrowOne(n, bound, last, s), m);
    }
  }

  lemma CoversAppend(a: seq<Interval>, b: seq<Interval>, x: int)
    ensures Covers(a, x) || Covers(b, x) ==> Covers(a + b, x)
  {
    if Covers(a, x) {
      var j :| 0 <= j < |a| && Contains(a[j], x);
      assert (a + b)[j] == a[j];
    } else if Covers(b, x) {
      var j :| 0 <= j < |b| && Contains(b[j], x);
      assert (a + b)[|a| + j] == b[j];
    }
  }

  /** An interval pushed for an r in range keeps its bounds within [min(a, b), max(a, b)]. */
  lemma EmitWithin(n: nat, bound: nat, iv: Interval, s: nat, r: int)
    requires n > 0 && s > 0
    requires LowR(n, bound, iv, s) <= r <= HighR(n, bound, iv, s)
    ensures Emit(n, bound, iv, s, r).lo <= Max(iv.lo, iv.hi)
    ensures Emit(n, bound, iv, s, r).hi >= Min(iv.lo, iv.hi)
  {
    MulLe(LowR(n, bound, iv, s), r, n);
    MulLe(r, HighR(n, bound, iv, s), n);
    CeilQuotientLeast(2 * bound + r * n, s, iv.hi);
    FloorQuotientGreatest(3 * bound - 1 + r * n, s, iv.lo);
  }

  /** The narrowing keeps every bound within [2B, 3B - 1]. */
  lemma {:induction false} NarrowWithin(n: nat, bound: nat, prev: seq<Interval>, s: nat)
    requires n > 0 && s > 0 && WithinBounds(bound, prev)
    ensures WithinBounds(bound, Narrow(n, bound, prev, s))
  {
    if prev != [] {
      var init, last := prev[..|prev| - 1], prev[|prev| - 1];
      assert WithinBounds(bound, init) by {
        forall iv | iv in init
          ensures iv in prev
        {
          var j :| 0 <= j < |init| && init[j] == iv;
          assert prev[j] == iv;
        }
      }
      NarrowWithin(n, bound, init, s);
      var one := NarrowOne(n, bound, last, s);
      forall e | e in one
        ensures 2 * bound <= e.lo <= 3 * bound - 1 && 2 * bound <= e.hi <= 3 * bound - 1
      {
        var j :| 0 <= j < |one| && one[j] == e;
        EmitWithin(n, bound, last, s, LowR(n, bound, last, s) + j);
      }
    }
  }

  /** Sorting and deduplicating keep the bounds. */
  lemma SortDedupWithin(bound: nat, ivs: seq<Interval>)
    requires WithinBounds(bound, ivs)
    ensures WithinBounds(bound, Dedup(Sort(ivs)))
  {
    DedupSameElements(Sort(ivs));
    forall iv | iv in Sort(ivs)
      ensures iv in ivs
    {
      assert iv in multiset(Sort(ivs));
    }
  }

  /** Step 3 with the sort and dedup that follow it: M_i from M_prev and s_i. The result
      is sorted without repeats, keeps every bound in [2B, 3B - 1], and still covers m
      when m s_i mod n is conforming. */
  method NextIntervals(n: nat, bound: nat, prev: seq<Interval>, s: nat, ghost m: nat)
    returns (next: seq<Interval>)
    requires n > 0 && s > 0 && WithinBounds(bound, prev)
    ensures next == Dedup(Sort(Narrow(n, bound, prev, s)))
    ensures StrictlySorted(next) && WithinBounds(bound, next)
    ensures Covers(prev, m) && Conforming(bound, (m * s) % n) ==> Covers(next, m)
  {
    next := UpdateIntervals(n, bound, prev, s);
    if Covers(prev, m) && Conforming(bound, (m * s) % n) {
      NarrowKeeps(n, bound, prev, s, m);
    }
    NarrowWithin(n, bound, prev, s);
    SortDedupCovers(next, m);
    SortDedupWithin(bound, next);
    DedupStrict(Sort(next));
    next := Dedup(Sort(next));
  }

  /** Step 2: 2.a on the first round, 2.b while several intervals remain, else 2.c. */
  method NextMultiplier(key: Key, k: nat, c: nat, i: nat, prev: seq<Interval>, sPrev: nat, fuel: nat)
    returns (found: Option<nat>)
    requires key.n > 0 && k >= 2 && sPrev >= 1 && |prev| >= 1 && WithinBounds(BoundB(k), prev)
    ensures found.Some? ==> found.value >= 1 && WrappedOracle(key, k, c, found.value)
    ensures i == 1 && found.Some? ==> LeastAccepted(key, k, c, CeilQuotient(key.n, 3 * BoundB(k)), found.value)
    ensures i == 1 && found.None? ==>
              NoneAccepted(key, k, c, CeilQuotient(key.n, 3 * BoundB(k)), CeilQuotient(key.n, 3 * BoundB(k)) + fuel)
    ensures i != 1 && |prev| >= 2 && found.Some? ==> LeastAccepted(key, k, c, sPrev + 1, found.value)
    ensures i != 1 && |prev| >= 2 && found.None? ==> NoneAccepted(key, k, c, sPrev + 1, sPrev + 1 + fuel)
    ensures i != 1 && |prev| == 1 && found.Some? ==>
              prev[0].lo > 0 && FirstInScan(key, k, c, prev[0], FirstR(key.n, BoundB(k), prev[0], sPrev), found.value)
    ensures i != 1 && |prev| == 1 && found.None? ==>
              prev[0].lo > 0 && WindowsRejected(key, k, c, prev[0], FirstR(key.n, BoundB(k), prev[0], sPrev),
                                                FirstR(key.n, BoundB(k), prev[0], sPrev) + fuel)
  {
    var bound := BoundB(k);
    if i == 1 {
      CeilQuotientPositive(key.n, 3 * bound);
      found := SearchFrom(key, k, c, CeilQuotient(key.n, 3 * bound), fuel);
    } else if |prev| >= 2 {
      found := SearchFrom(key, k, c, sPrev + 1, fuel);
    } else {
      assert prev[0] in prev;
      found := SearchWindows(key, k, c, prev[0], sPrev, fuel);
    }
  }

  // ---------------------------------------------------------------------------------
  // The attack

  /** `run`: pads and encrypts the message under the generated key, then repeats step 2
      (find s_i) and step 3 (narrow M_i, sort, dedup) until M_i is a single point, and
      compares that point with m. The key, the filler bytes and the number of iterations
      each search may make are parameters. Whenever it stops with a verdict, the verdict
      is success: the recovered point is m. */
  method Run(key: Key, msg: seq<byte>, filler: seq<byte>, fuel: nat) returns (result: Result<(), Error>)
    requires key.Valid()
    requires |msg| + 11 <= NumBytes(key.n) && |filler| == NumBytes(key.n) - 3 - |msg|
    ensures result.Ok? || result.error == OutOfFuel
  {
    var n := key.n;
    var k := NumBytes(n);
    var bound := BoundB(k);
    var m := FromBytesBe(Padded(k, msg, filler));
    var c := key.Encrypt(m);
    PaddedConforming(k, msg, filler);

    var prev := [Interval(2 * bound, 3 * bound - 1)];
    var sPrev: nat := 1;
    var i := 1;
    assert Contains(prev[0], m);
    var budget := fuel;
    while budget > 0
      invariant Covers(prev, m) && WithinBounds(bound, prev) && sPrev >= 1
    {
      var found := NextMultiplier(key, k, c, i, prev, sPrev, fuel);
      match found {
        case None => return Err(OutOfFuel);
        case Some(si) =>
          WrappedOracleConforming(key, k, m, si);
          var next := NextIntervals(n, bound, prev, si, m);
          if |next| == 1 && next[0].lo == next[0].hi {
            return if m == next[0].lo then Ok(()) else Err(Mismatch);
          }
          i := i + 1;
          sPrev := si;
          prev := next;
      }
      budget := budget - 1;
    }
    return Err(OutOfFuel);
  }
}
