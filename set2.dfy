/** The probing attacks of set 2 against a block-cipher oracle: ECB detection, the
    lengths of the secret prefix and suffix, and the recovery of the suffix one byte
    at a time. Every claim is made of an oracle satisfying its contract (EcbOracle). */
module Set2 {
  import opened Bytes
  import opened EcbOracle

  /** The failures the attacks report themselves; failures of the oracle are not modelled. */
  datatype Set2Error =
    | LengthUnchanged      // `prefix_plus_suffix_length`: no input of 1 to 16 bytes changed the length
    | NoDifferingBlock     // `prefix_blocks_count`: the two encryptions agree on every block

  /** `chunks(BLOCK_SIZE)`: chunk k of c, the last one possibly short. */
  function Chunk(c: seq<byte>, k: nat): (b: seq<byte>)
    requires BLOCK_SIZE * k < |c|
  {
    c[BLOCK_SIZE * k..Min(BLOCK_SIZE * k + BLOCK_SIZE, |c|)]
  }

  /** `chunks(BLOCK_SIZE).nth(k)`. */
  function NthChunk(c: seq<byte>, k: nat): Option<seq<byte>>
  {
    if BLOCK_SIZE * k < |c| then Some(Chunk(c, k)) else None
  }

  lemma ChunkIsBlock(c: seq<byte>, k: nat)
    requires BLOCK_SIZE * k + BLOCK_SIZE <= |c|
    ensures NthChunk(c, k) == Some(Block(c, k))
  {
  }

  // ---------------------------------------------------------------------------
  // uses_ecb

  /** `uses_ecb`: encrypts three blocks of zeros and compares ciphertext chunks 1 and 2,
      skipping chunk 0 so that a prefix of up to one block does not matter. The source
      indexes the two chunks it collected, so it needs a ciphertext of three chunks. */
  function UsesEcb(encrypt: seq<byte> -> seq<byte>): bool
    requires |encrypt(Repeat(0, 3 * BLOCK_SIZE))| > 2 * BLOCK_SIZE
  {
    var c := encrypt(Repeat(0, 3 * BLOCK_SIZE));
    Chunk(c, 1) == Chunk(c, 2)
  }

  /** Against a codebook oracle, `uses_ecb` answers whether cleartext blocks 1 and 2 of
      its probe are equal. */
  lemma UsesEcbCompares(o: Oracle)
    requires o.Valid()
    ensures |o.Encrypt(Repeat(0, 3 * BLOCK_SIZE))| > 2 * BLOCK_SIZE
    ensures UsesEcb(o.Encrypt) <==>
      Block(o.Cleartext(Repeat(0, 3 * BLOCK_SIZE)), 1) == Block(o.Cleartext(Repeat(0, 3 * BLOCK_SIZE)), 2)
  {
    var c := o.Encrypt(Repeat(0, 3 * BLOCK_SIZE));
    EcbBlocks(o.cipher, o.Cleartext(Repeat(0, 3 * BLOCK_SIZE)));
    ChunkIsBlock(c, 1);
    ChunkIsBlock(c, 2);
    if Chunk(c, 1) == Chunk(c, 2) {
      assert o.Collide(Block(o.Cleartext(Repeat(0, 3 * BLOCK_SIZE)), 1), Block(o.Cleartext(Repeat(0, 3 * BLOCK_SIZE)), 2));
    }
  }

  /** With a prefix of at most one block, `uses_ecb` recognises a codebook oracle. */
  lemma UsesEcbDetects(o: Oracle)
    requires o.Valid() && |o.prefix| <= BLOCK_SIZE
    ensures |o.Encrypt(Repeat(0, 3 * BLOCK_SIZE))| > 2 * BLOCK_SIZE
    ensures UsesEcb(o.Encrypt)
  {
    var x := Repeat(0, 3 * BLOCK_SIZE);
    UsesEcbCompares(o);
    forall j | 0 <= j < BLOCK_SIZE
      ensures Block(o.Cleartext(x), 1)[j] == Block(o.Cleartext(x), 2)[j]
    {
      CleartextAt(o, x, BLOCK_SIZE + j);
      CleartextAt(o, x, 2 * BLOCK_SIZE + j);
    }
  }

  // ---------------------------------------------------------------------------
  // prefix_plus_suffix_length

  /** The `find` over 1..=BLOCK_SIZE: the least i >= from whose input, the last i bytes
      of a block of zeros, changes the ciphertext length. */
  function FindLengthChange(encrypt: seq<byte> -> seq<byte>, initial: nat, from: nat): (r: Option<nat>)
    requires 1 <= from <= BLOCK_SIZE + 1
    ensures r.Some? ==> from <= r.value <= BLOCK_SIZE
    decreases BLOCK_SIZE + 1 - from
  {
    if from > BLOCK_SIZE then None
    else if |encrypt(Repeat(0, from))| != initial then Some(from)
    else FindLengthChange(encrypt, initial, from + 1)
  }

  /** The `usize` subtraction of `prefix_plus_suffix_length` does not underflow: the
      length it finds is at most the empty input's ciphertext length. */
  predicate LengthChangeFits(encrypt: seq<byte> -> seq<byte>)
  {
    FindLengthChange(encrypt, |encrypt([])|, 1).Some? ==>
      FindLengthChange(encrypt, |encrypt([])|, 1).value <= |encrypt([])|
  }

  /** `prefix_plus_suffix_length`: the length of the empty input's ciphertext minus the
      least number of input bytes that changes it. */
  function PrefixPlusSuffixLength(encrypt: seq<byte> -> seq<byte>): Result<nat, Set2Error>
    requires LengthChangeFits(encrypt)
  {
    var initial := |encrypt([])|;
    match FindLengthChange(encrypt, initial, 1)
    case Some(index) => Ok(initial - index)
    case None => Err(LengthUnchanged)
  }

  /** The search finds t when no earlier input changed the length and t does. */
  lemma {:induction false} FindLengthChangeAt(encrypt: seq<byte> -> seq<byte>, initial: nat, from: nat, t: nat)
    requires 1 <= from <= t <= BLOCK_SIZE
    requires forall i :: from <= i < t ==> |encrypt(Repeat(0, i))| == initial
    requires |encrypt(Repeat(0, t))| != initial
    ensures FindLengthChange(encrypt, initial, from) == Some(t)
    decreases t - from
  {
    if from < t {
      FindLengthChangeAt(encrypt, initial, from + 1, t);
    }
  }

  /** The search fails exactly when no input of 1 to 16 zeros changes the length. */
  lemma {:induction false} FindLengthChangeNone(encrypt: seq<byte> -> seq<byte>, initial: nat, from: nat)
    requires 1 <= from <= BLOCK_SIZE + 1
    ensures FindLengthChange(encrypt, initial, from) == None <==>
      forall i :: from <= i <= BLOCK_SIZE ==> |encrypt(Repeat(0, i))| == initial
    decreases BLOCK_SIZE + 1 - from
  {
    if from <= BLOCK_SIZE {
      FindLengthChangeNone(encrypt, initial, from + 1);
    }
  }

  /** The empty input's ciphertext holds at least the padding block. */
  lemma EmptyCiphertextLength(o: Oracle)
    requires o.Valid()
    ensures |o.Encrypt([])| == |o.prefix| + |o.suffix| + PaddingLength(|o.prefix| + |o.suffix|)
    ensures |o.Encrypt([])| >= BLOCK_SIZE
  {
    EncryptLength(o, []);
    MultipleAtLeast(|o.Encrypt([])|);
  }

  lemma MultipleAtLeast(m: nat)
    requires m % BLOCK_SIZE == 0 && m > 0
    ensures m >= BLOCK_SIZE
  {
  }

  /** The padded length of L + i bytes grows by a block once L + i reaches the next
      multiple of the block size. */
  lemma PaddedLengthStep(l: nat, i: nat)
    requires 1 <= i <= BLOCK_SIZE
    ensures i < BLOCK_SIZE - l % BLOCK_SIZE ==>
      l + i + PaddingLength(l + i) == l + PaddingLength(l)
    ensures i == BLOCK_SIZE - l % BLOCK_SIZE ==>
      l + i + PaddingLength(l + i) == l + PaddingLength(l) + BLOCK_SIZE
  {
    var q, r := l / BLOCK_SIZE, l % BLOCK_SIZE;
    assert l == BLOCK_SIZE * q + r;
    if r + i < BLOCK_SIZE {
      assert (l + i) % BLOCK_SIZE == r + i by {
        assert l + i == BLOCK_SIZE * q + (r + i);
      }
    } else if r + i == BLOCK_SIZE {
      assert (l + i) % BLOCK_SIZE == 0 by {
        assert l + i == BLOCK_SIZE * (q + 1);
      }
    }
  }

  /** The ciphertext length for an input of i zeros, 1 <= i <= BLOCK_SIZE. */
  lemma ZerosCiphertextLength(o: Oracle, i: nat)
    requires o.Valid() && 1 <= i <= BLOCK_SIZE
    ensures i < BLOCK_SIZE - (|o.prefix| + |o.suffix|) % BLOCK_SIZE ==>
      |o.Encrypt(Repeat(0, i))| == |o.Encrypt([])|
    ensures i == BLOCK_SIZE - (|o.prefix| + |o.suffix|) % BLOCK_SIZE ==>
      |o.Encrypt(Repeat(0, i))| == |o.Encrypt([])| + BLOCK_SIZE
  {
    EmptyCiphertextLength(o);
    EncryptLength(o, Repeat(0, i));
    PaddedLengthStep(|o.prefix| + |o.suffix|, i);
  }

  /** Against a codebook oracle the result is the prefix length plus the suffix length. */
  lemma PrefixPlusSuffixLengthExact(o: Oracle)
    requires o.Valid()
    ensures LengthChangeFits(o.Encrypt)
    ensures PrefixPlusSuffixLength(o.Encrypt) == Ok(|o.prefix| + |o.suffix|)
  {
    var t := BLOCK_SIZE - (|o.prefix| + |o.suffix|) % BLOCK_SIZE;
    EmptyCiphertextLength(o);
    forall i | 1 <= i < t
      ensures |o.Encrypt(Repeat(0, i))| == |o.Encrypt([])|
    {
      ZerosCiphertextLength(o, i);
    }
    ZerosCiphertextLength(o, t);
    FindLengthChangeAt(o.Encrypt, |o.Encrypt([])|, 1, t);
  }

  // ---------------------------------------------------------------------------
  // prefix_blocks_count

  /** `zip(..).position(|(x, y)| x != y)` over the chunks of c0 and c1, from chunk k on. */
  function FirstDifferingChunk(c0: seq<byte>, c1: seq<byte>, k: nat): (r: Option<nat>)
    ensures r.Some? ==> k <= r.value && BLOCK_SIZE * r.value < |c0| && BLOCK_SIZE * r.value < |c1|
    decreases |c0| - BLOCK_SIZE * k
  {
    if BLOCK_SIZE * k >= |c0| || BLOCK_SIZE * k >= |c1| then None
    else if Chunk(c0, k) != Chunk(c1, k) then Some(k)
    else FirstDifferingChunk(c0, c1, k + 1)
  }

  /** `prefix_blocks_count`: the first chunk in which the encryptions of [0] and [1] differ. */
  function PrefixBlocksCount(encrypt: seq<byte> -> seq<byte>): Result<nat, Set2Error>
  {
    match FirstDifferingChunk(encrypt([0]), encrypt([1]), 0)
    case Some(k) => Ok(k)
    case None => Err(NoDifferingBlock)
  }

  /** The encryptions of [0] and [1] first differ in the block holding the first byte
      after the prefix: the result is the number of blocks the prefix fills. */
  lemma PrefixBlocksCountExact(o: Oracle)
    requires o.Valid()
    ensures PrefixBlocksCount(o.Encrypt) == Ok(|o.prefix| / BLOCK_SIZE)
  {
    var n := |o.prefix| / BLOCK_SIZE;
    ProbeLength(o, [0]);
    ProbeLength(o, [1]);
    forall j | 0 <= j < n
      ensures NthChunk(o.Encrypt([0]), j) == NthChunk(o.Encrypt([1]), j)
    {
      ProbeBlockInPrefix(o, j);
    }
    ProbeBlockAfterPrefix(o);
    FirstDifferingChunkAt(o.Encrypt([0]), o.Encrypt([1]), 0, n);
  }

  /** `position` finds chunk n when every earlier chunk from k on agrees and chunk n differs. */
  lemma {:induction false} FirstDifferingChunkAt(c0: seq<byte>, c1: seq<byte>, k: nat, n: nat)
    requires k <= n && BLOCK_SIZE * n < |c0| && BLOCK_SIZE * n < |c1|
    requires forall j :: k <= j < n ==> NthChunk(c0, j) == NthChunk(c1, j)
    requires Chunk(c0, n) != Chunk(c1, n)
    ensures FirstDifferingChunk(c0, c1, k) == Some(n)
    decreases n - k
  {
    if k < n {
      assert NthChunk(c0, k) == NthChunk(c1, k);
      FirstDifferingChunkAt(c0, c1, k + 1, n);
    }
  }

  /** A multiple of the block size beyond p reaches past the block holding byte p. */
  lemma BlockAfterPrefix(m: nat, p: nat)
    requires m % BLOCK_SIZE == 0 && m > p
    ensures BLOCK_SIZE * (p / BLOCK_SIZE) + BLOCK_SIZE <= m
  {
    var n := p / BLOCK_SIZE;
    if m < BLOCK_SIZE * n + BLOCK_SIZE {
      assert m / BLOCK_SIZE == n by {
        DivBetween(m, n);
      }
      assert false;
    }
  }

  lemma DivBetween(m: nat, n: nat)
    requires BLOCK_SIZE * n <= m < BLOCK_SIZE * n + BLOCK_SIZE
    ensures m / BLOCK_SIZE == n && m % BLOCK_SIZE == m - BLOCK_SIZE * n
  {
  }

  /** The encryption of a nonempty input covers the block after the prefix's full blocks. */
  lemma ProbeLength(o: Oracle, x: seq<byte>)
    requires o.Valid()
    ensures |o.Encrypt(x)| == |o.Cleartext(x)|
    ensures BLOCK_SIZE * (|o.prefix| / BLOCK_SIZE) + BLOCK_SIZE <= |o.Cleartext(x)|
  {
    EncryptLength(o, x);
    BlockAfterPrefix(|o.Cleartext(x)|, |o.prefix|);
  }

  /** Blocks made only of prefix bytes encrypt alike for [0] and [1]. */
  lemma ProbeBlockInPrefix(o: Oracle, k: nat)
    requires o.Valid() && BLOCK_SIZE * k + BLOCK_SIZE <= |o.prefix|
    ensures NthChunk(o.Encrypt([0]), k) == NthChunk(o.Encrypt([1]), k)
  {
    ProbeLength(o, [0]);
    ProbeLength(o, [1]);
    SameBlock(o, [0], [1], k);
    ChunkIsBlock(o.Encrypt([0]), k);
    ChunkIsBlock(o.Encrypt([1]), k);
    forall j | 0 <= j < BLOCK_SIZE
      ensures Block(o.Cleartext([0]), k)[j] == Block(o.Cleartext([1]), k)[j]
    {
      CleartextAt(o, [0], BLOCK_SIZE * k + j);
      CleartextAt(o, [1], BLOCK_SIZE * k + j);
    }
  }

  /** The block holding the input byte encrypts differently for [0] and [1]. */
  lemma ProbeBlockAfterPrefix(o: Oracle)
    requires o.Valid()
    ensures BLOCK_SIZE * (|o.prefix| / BLOCK_SIZE) < |o.Encrypt([0])|
    ensures BLOCK_SIZE * (|o.prefix| / BLOCK_SIZE) < |o.Encrypt([1])|
    ensures Chunk(o.Encrypt([0]), |o.prefix| / BLOCK_SIZE) != Chunk(o.Encrypt([1]), |o.prefix| / BLOCK_SIZE)
  {
    var k := |o.prefix| / BLOCK_SIZE;
    ProbeLength(o, [0]);
    ProbeLength(o, [1]);
    SameBlock(o, [0], [1], k);
    ChunkIsBlock(o.Encrypt([0]), k);
    ChunkIsBlock(o.Encrypt([1]), k);
    DivBetween(|o.prefix|, k);
    CleartextAt(o, [0], |o.prefix|);
    CleartextAt(o, [1], |o.prefix|);
    assert Block(o.Cleartext([0]), k)[|o.prefix| - BLOCK_SIZE * k] == 0;
    assert Block(o.Cleartext([1]), k)[|o.prefix| - BLOCK_SIZE * k] == 1;
  }

  // ---------------------------------------------------------------------------
  // prefix_length

  /** Whether chunk n stays the same when the input shrinks from 16 - i to 15 - i
      copies of k: the comparison of `prev` and `cur` in step i of the helper. */
  function Unchanged(encrypt: seq<byte> -> seq<byte>, n: nat, k: byte, i: nat): bool
    requires i < BLOCK_SIZE
  {
    NthChunk(encrypt(Repeat(k, BLOCK_SIZE - i)), n) == NthChunk(encrypt(Repeat(k, BLOCK_SIZE - i - 1)), n)
  }

  /** The value of the `prefix_length` helper for constant k: the first step from i on
      that changes chunk n, or BLOCK_SIZE when none does. */
  function FirstChange(encrypt: seq<byte> -> seq<byte>, n: nat, k: byte, i: nat): (r: nat)
    requires i <= BLOCK_SIZE
    ensures i <= r <= BLOCK_SIZE
    decreases BLOCK_SIZE - i
  {
    if i == BLOCK_SIZE then BLOCK_SIZE
    else if !Unchanged(encrypt, n, k, i) then i
    else FirstChange(encrypt, n, k, i + 1)
  }

  /** FirstChange is the least changing step: every step before it leaves chunk n
      unchanged, and the step it names changes it. */
  lemma {:induction false} FirstChangeLeast(encrypt: seq<byte> -> seq<byte>, n: nat, k: byte, i: nat)
    requires i <= BLOCK_SIZE
    ensures forall j :: i <= j < FirstChange(encrypt, n, k, i) ==> Unchanged(encrypt, n, k, j)
    ensures FirstChange(encrypt, n, k, i) < BLOCK_SIZE ==> !Unchanged(encrypt, n, k, FirstChange(encrypt, n, k, i))
    decreases BLOCK_SIZE - i
  {
    if i < BLOCK_SIZE && Unchanged(encrypt, n, k, i) {
      var f := FirstChange(encrypt, n, k, i + 1);
      FirstChangeLeast(encrypt, n, k, i + 1);
      assert FirstChange(encrypt, n, k, i) == f;
      forall j | i <= j < f
        ensures Unchanged(encrypt, n, k, j)
      {
        if j > i {
          assert i + 1 <= j < f;
        }
      }
    }
  }

  /** Steps known to leave chunk n unchanged bound FirstChange from below; a change
      right after them fixes it. */
  lemma {:induction false} FirstChangeFrom(encrypt: seq<byte> -> seq<byte>, n: nat, k: byte, i: nat, t: nat)
    requires i <= t <= BLOCK_SIZE
    requires forall j :: i <= j < t ==> Unchanged(encrypt, n, k, j)
    ensures FirstChange(encrypt, n, k, i) >= t
    ensures t < BLOCK_SIZE && !Unchanged(encrypt, n, k, t) ==> FirstChange(encrypt, n, k, i) == t
    decreases t - i
  {
    if i < t {
      FirstChangeFrom(encrypt, n, k, i + 1, t);
    }
  }

  /** The `prefix_length` helper: shrinks a block of k one byte at a time and reports
      the first step that changes ciphertext chunk n. */
  method PrefixLengthHelper(encrypt: seq<byte> -> seq<byte>, n: nat, k: byte) returns (r: nat)
    ensures r == FirstChange(encrypt, n, k, 0)
  {
    var constantBlock := Repeat(k, BLOCK_SIZE);
    var prev := encrypt(constantBlock);
    for i := 0 to BLOCK_SIZE
      invariant prev == encrypt(Repeat(k, BLOCK_SIZE - i))
      invariant FirstChange(encrypt, n, k, 0) == FirstChange(encrypt, n, k, i)
    {
      assert constantBlock[i + 1..] == Repeat(k, BLOCK_SIZE - i - 1);
      var cur := encrypt(constantBlock[i + 1..]);
      if NthChunk(prev, n) != NthChunk(cur, n) {
        return i;
      }
      prev := cur;
    }
    return BLOCK_SIZE;
  }

  /** What `prefix_length` computes: n full prefix blocks plus the lesser helper value. */
  function PrefixLengthOf(encrypt: seq<byte> -> seq<byte>): Result<nat, Set2Error>
  {
    PrefixLengthFrom(encrypt, PrefixBlocksCount(encrypt))
  }

  /** The rest of `prefix_length` once the prefix blocks are counted: the count's failure,
      or n blocks plus the lesser helper value. */
  function PrefixLengthFrom(encrypt: seq<byte> -> seq<byte>, count: Result<nat, Set2Error>): Result<nat, Set2Error>
  {
    match count
    case Err(e) => Err(e)
    case Ok(n) => Ok(n * BLOCK_SIZE + Min(FirstChange(encrypt, n, 0, 0), FirstChange(encrypt, n, 1, 0)))
  }

  /** `prefix_length`. */
  method PrefixLength(encrypt: seq<byte> -> seq<byte>) returns (r: Result<nat, Set2Error>)
    ensures r == PrefixLengthOf(encrypt)
  {
    var count := PrefixBlocksCount(encrypt);
    if count.Err? {
      return Err(count.error);
    }
    var n := count.value;
    var h0 := PrefixLengthHelper(encrypt, n, 0);
    var h1 := PrefixLengthHelper(encrypt, n, 1);
    PrefixLengthFromOk(encrypt, count, n);
    return Ok(n * BLOCK_SIZE + Min(h0, h1));
  }

  lemma PrefixLengthFromOk(encrypt: seq<byte> -> seq<byte>, count: Result<nat, Set2Error>, n: nat)
    requires count == Ok(n)
    ensures PrefixLengthFrom(encrypt, count) == Ok(n * BLOCK_SIZE + Min(FirstChange(encrypt, n, 0, 0), FirstChange(encrypt, n, 1, 0)))
  {
    assert PrefixLengthFrom(encrypt, count).value
      == n * BLOCK_SIZE + Min(FirstChange(encrypt, n, 0, 0), FirstChange(encrypt, n, 1, 0));
  }

  /** The byte that follows an input ending a block after the prefix: the first suffix
      byte, or the padding byte 1 when the suffix is empty. */
  function NextByte(o: Oracle): byte
  {
    if o.suffix != [] then o.suffix[0] else 1
  }

  /** Block n of the cleartext for `len` copies of k, n being the prefix's full blocks:
      the prefix's last bytes, then copies of k. */
  lemma ConstantBlockAt(o: Oracle, k: byte, len: nat, j: nat)
    requires o.Valid() && j < BLOCK_SIZE && j < |o.prefix| % BLOCK_SIZE + len
    ensures BLOCK_SIZE * (|o.prefix| / BLOCK_SIZE) + BLOCK_SIZE <= |o.Cleartext(Repeat(k, len))|
    ensures Block(o.Cleartext(Repeat(k, len)), |o.prefix| / BLOCK_SIZE)[j]
      == if j < |o.prefix| % BLOCK_SIZE then o.prefix[BLOCK_SIZE * (|o.prefix| / BLOCK_SIZE) + j] else k
  {
    var x := Repeat(k, len);
    var n := |o.prefix| / BLOCK_SIZE;
    ProbeLength(o, x);
    DivBetween(|o.prefix|, n);
    CleartextAt(o, x, BLOCK_SIZE * n + j);
  }

  /** When the input ends one byte short of the block, that byte is NextByte. */
  lemma NextByteAt(o: Oracle, k: byte)
    requires o.Valid()
    ensures BLOCK_SIZE * (|o.prefix| / BLOCK_SIZE) + BLOCK_SIZE
      <= |o.Cleartext(Repeat(k, BLOCK_SIZE - 1 - |o.prefix| % BLOCK_SIZE))|
    ensures Block(o.Cleartext(Repeat(k, BLOCK_SIZE - 1 - |o.prefix| % BLOCK_SIZE)), |o.prefix| / BLOCK_SIZE)[BLOCK_SIZE - 1]
      == NextByte(o)
  {
    var x := Repeat(k, BLOCK_SIZE - 1 - |o.prefix| % BLOCK_SIZE);
    var n := |o.prefix| / BLOCK_SIZE;
    ProbeLength(o, x);
    DivBetween(|o.prefix|, n);
    assert |o.prefix| + |x| == BLOCK_SIZE * n + BLOCK_SIZE - 1;
    CleartextAt(o, x, BLOCK_SIZE * n + BLOCK_SIZE - 1);
    if o.suffix == [] {
      assert PaddingLength(|o.prefix| + |x| + |o.suffix|) == 1 by {
        DivBetween(|o.prefix| + |x|, n);
      }
    }
  }

  /** Chunk n of two encryptions agrees exactly when block n of their cleartexts does. */
  lemma ChunkSameBlock(o: Oracle, x: seq<byte>, y: seq<byte>, n: nat)
    requires o.Valid()
    requires BLOCK_SIZE * n + BLOCK_SIZE <= |o.Cleartext(x)|
    requires BLOCK_SIZE * n + BLOCK_SIZE <= |o.Cleartext(y)|
    ensures NthChunk(o.Encrypt(x), n) == NthChunk(o.Encrypt(y), n)
      <==> Block(o.Cleartext(x), n) == Block(o.Cleartext(y), n)
  {
    SameBlock(o, x, y, n);
    ChunkIsBlock(o.Encrypt(x), n);
    ChunkIsBlock(o.Encrypt(y), n);
  }

  /** While the input still reaches the end of block n, shrinking it leaves chunk n alone. */
  lemma ConstantUnchanged(o: Oracle, k: byte, i: nat)
    requires o.Valid() && i < |o.prefix| % BLOCK_SIZE
    ensures Unchanged(o.Encrypt, |o.prefix| / BLOCK_SIZE, k, i)
  {
    var n := |o.prefix| / BLOCK_SIZE;
    var x1, x2 := Repeat(k, BLOCK_SIZE - i), Repeat(k, BLOCK_SIZE - i - 1);
    var p1, p2 := o.Cleartext(x1), o.Cleartext(x2);
    ProbeLength(o, x1);
    ProbeLength(o, x2);
    forall j | 0 <= j < BLOCK_SIZE
      ensures Block(p1, n)[j] == Block(p2, n)[j]
    {
      ConstantBlockAt(o, k, BLOCK_SIZE - i, j);
      ConstantBlockAt(o, k, BLOCK_SIZE - i - 1, j);
    }
    assert Block(p1, n) == Block(p2, n);
    ChunkSameBlock(o, x1, x2, n);
  }

  /** The step that pulls the next byte into block n changes chunk n exactly when that
      byte differs from k. */
  lemma ConstantChange(o: Oracle, k: byte)
    requires o.Valid()
    ensures Unchanged(o.Encrypt, |o.prefix| / BLOCK_SIZE, k, |o.prefix| % BLOCK_SIZE) <==> k == NextByte(o)
  {
    var n, r0 := |o.prefix| / BLOCK_SIZE, |o.prefix| % BLOCK_SIZE;
    var x1, x2 := Repeat(k, BLOCK_SIZE - r0), Repeat(k, BLOCK_SIZE - r0 - 1);
    ProbeLength(o, x1);
    ProbeLength(o, x2);
    ChunkSameBlock(o, x1, x2, n);
    ConstantBlocksAgree(o, k);
    LastByteDecides(Unchanged(o.Encrypt, n, k, r0), Block(o.Cleartext(x1), n), Block(o.Cleartext(x2), n),
      k, NextByte(o));
  }

  /** The two cleartext blocks of that step agree up to their last byte, which is k in
      the first and NextByte in the second. */
  lemma ConstantBlocksAgree(o: Oracle, k: byte)
    requires o.Valid()
    ensures BLOCK_SIZE * (|o.prefix| / BLOCK_SIZE) + BLOCK_SIZE
      <= |o.Cleartext(Repeat(k, BLOCK_SIZE - |o.prefix| % BLOCK_SIZE))|
    ensures BLOCK_SIZE * (|o.prefix| / BLOCK_SIZE) + BLOCK_SIZE
      <= |o.Cleartext(Repeat(k, BLOCK_SIZE - |o.prefix| % BLOCK_SIZE - 1))|
    ensures Block(o.Cleartext(Repeat(k, BLOCK_SIZE - |o.prefix| % BLOCK_SIZE)), |o.prefix| / BLOCK_SIZE)[..BLOCK_SIZE - 1]
      == Block(o.Cleartext(Repeat(k, BLOCK_SIZE - |o.prefix| % BLOCK_SIZE - 1)), |o.prefix| / BLOCK_SIZE)[..BLOCK_SIZE - 1]
    ensures Block(o.Cleartext(Repeat(k, BLOCK_SIZE - |o.prefix| % BLOCK_SIZE)), |o.prefix| / BLOCK_SIZE)[BLOCK_SIZE - 1] == k
    ensures Block(o.Cleartext(Repeat(k, BLOCK_SIZE - |o.prefix| % BLOCK_SIZE - 1)), |o.prefix| / BLOCK_SIZE)[BLOCK_SIZE - 1]
      == NextByte(o)
  {
    var r0, n := |o.prefix| % BLOCK_SIZE, |o.prefix| / BLOCK_SIZE;
    var x1, x2 := Repeat(k, BLOCK_SIZE - r0), Repeat(k, BLOCK_SIZE - r0 - 1);
    ProbeLength(o, x1);
    ProbeLength(o, x2);
    var b1, b2 := Block(o.Cleartext(x1), n), Block(o.Cleartext(x2), n);
    forall j | 0 <= j < BLOCK_SIZE - 1
      ensures b1[j] == b2[j]
    {
      ConstantBlocksByteAgree(o, k, j);
    }
    SamePrefix(b1, b2, BLOCK_SIZE - 1);
    ConstantBlockAt(o, k, BLOCK_SIZE - r0, BLOCK_SIZE - 1);
    NextByteAt(o, k);
  }

  /** Byte j < 15 of block n is the same for both inputs of that step. */
  lemma ConstantBlocksByteAgree(o: Oracle, k: byte, j: nat)
    requires o.Valid() && j < BLOCK_SIZE - 1
    ensures BLOCK_SIZE * (|o.prefix| / BLOCK_SIZE) + BLOCK_SIZE
      <= |o.Cleartext(Repeat(k, BLOCK_SIZE - |o.prefix| % BLOCK_SIZE))|
    ensures BLOCK_SIZE * (|o.prefix| / BLOCK_SIZE) + BLOCK_SIZE
      <= |o.Cleartext(Repeat(k, BLOCK_SIZE - |o.prefix| % BLOCK_SIZE - 1))|
    ensures Block(o.Cleartext(Repeat(k, BLOCK_SIZE - |o.prefix| % BLOCK_SIZE)), |o.prefix| / BLOCK_SIZE)[j]
      == Block(o.Cleartext(Repeat(k, BLOCK_SIZE - |o.prefix| % BLOCK_SIZE - 1)), |o.prefix| / BLOCK_SIZE)[j]
  {
    ConstantBlockAt(o, k, BLOCK_SIZE - |o.prefix| % BLOCK_SIZE, j);
    ConstantBlockAt(o, k, BLOCK_SIZE - |o.prefix| % BLOCK_SIZE - 1, j);
  }

  /** Sequences agreeing on their first m elements have the same first m elements. */
  lemma SamePrefix(a: seq<byte>, b: seq<byte>, m: nat)
    requires m <= |a| && m <= |b|
    requires forall j :: 0 <= j < m ==> a[j] == b[j]
    ensures a[..m] == b[..m]
  {
  }

  /** A comparison that agrees with the equality of two blocks agreeing up to their last
      bytes, a and b, decides whether a equals b. */
  lemma LastByteDecides(same: bool, x: seq<byte>, y: seq<byte>, a: byte, b: byte)
    requires |x| == |y| == BLOCK_SIZE && x[..BLOCK_SIZE - 1] == y[..BLOCK_SIZE - 1]
    requires x[BLOCK_SIZE - 1] == a && y[BLOCK_SIZE - 1] == b
    requires same <==> x == y
    ensures same <==> a == b
  {
    EqualExceptLast(x, y);
  }

  lemma EqualExceptLast(a: seq<byte>, b: seq<byte>)
    requires |a| == |b| > 0
    requires a[..|a| - 1] == b[..|b| - 1]
    ensures a == b <==> a[|a| - 1] == b[|b| - 1]
  {
    if a[|a| - 1] == b[|b| - 1] {
      assert a == a[..|a| - 1] + [a[|a| - 1]];
      assert b == b[..|b| - 1] + [b[|b| - 1]];
    }
  }

  /** The helper never reports less than the prefix bytes in block n, and reports exactly
      that many for a constant other than NextByte. */
  lemma HelperValue(o: Oracle, k: byte)
    requires o.Valid()
    ensures FirstChange(o.Encrypt, |o.prefix| / BLOCK_SIZE, k, 0) >= |o.prefix| % BLOCK_SIZE
    ensures k != NextByte(o) ==> FirstChange(o.Encrypt, |o.prefix| / BLOCK_SIZE, k, 0) == |o.prefix| % BLOCK_SIZE
  {
    forall i | 0 <= i < |o.prefix| % BLOCK_SIZE
      ensures Unchanged(o.Encrypt, |o.prefix| / BLOCK_SIZE, k, i)
    {
      ConstantUnchanged(o, k, i);
    }
    ConstantChange(o, k);
    FirstChangeFrom(o.Encrypt, |o.prefix| / BLOCK_SIZE, k, 0, |o.prefix| % BLOCK_SIZE);
  }

  /** Against a codebook oracle `prefix_length` returns the prefix length: one of the
      constants 0 and 1 differs from the byte after the input. */
  lemma PrefixLengthExact(o: Oracle)
    requires o.Valid()
    ensures PrefixLengthOf(o.Encrypt) == Ok(|o.prefix|)
  {
    PrefixBlocksCountExact(o);
    HelperValue(o, 0);
    HelperValue(o, 1);
    PrefixLengthOfParts(o.Encrypt, |o.prefix|);
  }

  /** With the prefix's full blocks counted, helpers never below the rest of the length and
      one of them equal to it, `prefix_length` returns that length. */
  lemma PrefixLengthOfParts(encrypt: seq<byte> -> seq<byte>, m: nat)
    requires PrefixBlocksCount(encrypt) == Ok(m / BLOCK_SIZE)
    requires FirstChange(encrypt, m / BLOCK_SIZE, 0, 0) >= m % BLOCK_SIZE
    requires FirstChange(encrypt, m / BLOCK_SIZE, 1, 0) >= m % BLOCK_SIZE
    requires FirstChange(encrypt, m / BLOCK_SIZE, 0, 0) == m % BLOCK_SIZE
          || FirstChange(encrypt, m / BLOCK_SIZE, 1, 0) == m % BLOCK_SIZE
    ensures PrefixLengthOf(encrypt) == Ok(m)
  {
    BlocksAndRest(m);
  }

  /** A length is its full blocks and the bytes after them. */
  lemma BlocksAndRest(m: nat)
    ensures m / BLOCK_SIZE * BLOCK_SIZE + m % BLOCK_SIZE == m
  {
  }

  // ---------------------------------------------------------------------------
  // suffix_length

  /** The `usize` subtraction of `suffix_length` does not underflow. */
  predicate SuffixLengthFits(encrypt: seq<byte> -> seq<byte>)
    requires LengthChangeFits(encrypt)
  {
    PrefixPlusSuffixLength(encrypt).Ok? && PrefixLengthOf(encrypt).Ok? ==>
      PrefixLengthOf(encrypt).value <= PrefixPlusSuffixLength(encrypt).value
  }

  /** What `suffix_length` computes, failing as its first failing probe does. */
  function SuffixLengthOf(encrypt: seq<byte> -> seq<byte>): Result<nat, Set2Error>
    requires LengthChangeFits(encrypt) && SuffixLengthFits(encrypt)
  {
    Difference(PrefixPlusSuffixLength(encrypt), PrefixLengthOf(encrypt))
  }

  /** The `?`-chained subtraction of `suffix_length`: the first failure, or the
      difference of the two lengths. */
  function Difference(total: Result<nat, Set2Error>, p: Result<nat, Set2Error>): Result<nat, Set2Error>
    requires total.Ok? && p.Ok? ==> p.value <= total.value
  {
    match total
    case Err(e) => Err(e)
    case Ok(t) =>
      match p
      case Err(e) => Err(e)
      case Ok(q) => Ok(t - q)
  }

  /** `suffix_length`. */
  method SuffixLength(encrypt: seq<byte> -> seq<byte>) returns (r: Result<nat, Set2Error>)
    requires LengthChangeFits(encrypt) && SuffixLengthFits(encrypt)
    ensures r == SuffixLengthOf(encrypt)
  {
    var total := PrefixPlusSuffixLength(encrypt);
    if total.Err? {
      return Err(total.error);
    }
    var p := PrefixLength(encrypt);
    if p.Err? {
      return Err(p.error);
    }
    var t, q := total.value, p.value;
    SuffixLengthOfParts(encrypt, t, q);
    return Ok(t - q);
  }

  lemma SuffixLengthOfParts(encrypt: seq<byte> -> seq<byte>, total: nat, p: nat)
    requires LengthChangeFits(encrypt) && SuffixLengthFits(encrypt)
    requires PrefixPlusSuffixLength(encrypt) == Ok(total) && PrefixLengthOf(encrypt) == Ok(p)
    ensures p <= total && SuffixLengthOf(encrypt) == Ok(total - p)
  {
    DifferenceOk(PrefixPlusSuffixLength(encrypt), PrefixLengthOf(encrypt), total, p);
  }

  lemma DifferenceOk(a: Result<nat, Set2Error>, b: Result<nat, Set2Error>, total: nat, p: nat)
    requires a == Ok(total) && b == Ok(p) && p <= total
    ensures Difference(a, b) == Ok(total - p)
  {
  }

  /** Against a codebook oracle `suffix_length` is defined and returns the suffix length. */
  lemma SuffixLengthExact(o: Oracle)
    requires o.Valid()
    ensures LengthChangeFits(o.Encrypt) && SuffixLengthFits(o.Encrypt)
    ensures SuffixLengthOf(o.Encrypt) == Ok(|o.suffix|)
  {
    PrefixPlusSuffixLengthExact(o);
    PrefixLengthExact(o);
  }

  // ---------------------------------------------------------------------------
  // decrypt_suffix

  /** `ceil_div(x, b)`: the number of b-blocks that x bytes occupy, and the bytes that
      fill up the last of them. */
  function CeilDiv(x: nat, b: nat): (r: (nat, nat))
    requires b > 0
    ensures r.0 * b == x + r.1 && r.1 < b
  {
    var q := (x + b - 1) / b;
    CeilDivBound(x, b, q);
    (q, q * b - x)
  }

  lemma CeilDivBound(x: nat, b: nat, q: nat)
    requires b > 0 && q == (x + b - 1) / b
    ensures x <= q * b < x + b
  {
    var m := (x + b - 1) % b;
    assert x + b - 1 == q * b + m;
  }

  /** A probe of `decrypt_suffix`: the zeros it starts with, then the bytes t it has
      appended, shifted left by ls. */
  function Probe(pp: nat, t: seq<byte>, ls: nat): seq<byte>
    requires ls < BLOCK_SIZE
  {
    (Repeat(0, pp + BLOCK_SIZE - 1) + t)[ls..]
  }

  /** Byte j of the targeted block of the reference cleartext for suffix position i:
      zeros, then the suffix bytes before i, then suffix byte i last. */
  lemma ReferenceByte(o: Oracle, pb: nat, pp: nat, i: nat, j: nat)
    requires o.Valid() && BLOCK_SIZE * pb == |o.prefix| + pp && pp < BLOCK_SIZE
    requires i < |o.suffix| && j < BLOCK_SIZE
    ensures BLOCK_SIZE * (pb + i / BLOCK_SIZE) + BLOCK_SIZE <= |o.Cleartext(Probe(pp, [], i % BLOCK_SIZE))|
    ensures Block(o.Cleartext(Probe(pp, [], i % BLOCK_SIZE)), pb + i / BLOCK_SIZE)[j]
      == if i + j < BLOCK_SIZE - 1 then 0 else o.suffix[i + j - (BLOCK_SIZE - 1)]
  {
    var x := Probe(pp, [], i % BLOCK_SIZE);
    var q := BLOCK_SIZE * (pb + i / BLOCK_SIZE) + j;
    TargetPosition(|o.prefix|, pp, pb, i, j);
    TargetPosition(|o.prefix|, pp, pb, i, BLOCK_SIZE - 1);
    assert |x| == pp + BLOCK_SIZE - 1 - i % BLOCK_SIZE;
    CleartextAt(o, x, q);
    CleartextAt(o, x, BLOCK_SIZE * (pb + i / BLOCK_SIZE) + BLOCK_SIZE - 1);
  }

  /** Byte j of block pb + i / 16, pb being the blocks that the prefix and pp zeros
      fill, is byte i - i % 16 + j after them. */
  lemma TargetPosition(p: nat, pp: nat, pb: nat, i: nat, j: nat)
    requires BLOCK_SIZE * pb == p + pp
    ensures i % BLOCK_SIZE <= i
    ensures BLOCK_SIZE * (pb + i / BLOCK_SIZE) + j == p + pp + i - i % BLOCK_SIZE + j
  {
    assert BLOCK_SIZE * (i / BLOCK_SIZE) + i % BLOCK_SIZE == i;
  }

  /** An element of z zeros followed by t. */
  lemma ZerosThenAt(z: nat, t: seq<byte>, q: nat)
    requires q < z + |t|
    ensures (Repeat(0, z) + t)[q] == if q < z then 0 else t[q - z]
  {
  }

  /** Byte j of the targeted block of the cleartext for guess u: the same bytes as the
      reference, but with u last. */
  lemma GuessByte(o: Oracle, pb: nat, pp: nat, i: nat, u: byte, j: nat)
    requires o.Valid() && BLOCK_SIZE * pb == |o.prefix| + pp && pp < BLOCK_SIZE
    requires i < |o.suffix| && j < BLOCK_SIZE
    ensures BLOCK_SIZE * (pb + i / BLOCK_SIZE) + BLOCK_SIZE
      <= |o.Cleartext(Probe(pp, o.suffix[..i] + [u], i % BLOCK_SIZE))|
    ensures Block(o.Cleartext(Probe(pp, o.suffix[..i] + [u], i % BLOCK_SIZE)), pb + i / BLOCK_SIZE)[j]
      == if j == BLOCK_SIZE - 1 then u
         else if i + j < BLOCK_SIZE - 1 then 0 else o.suffix[i + j - (BLOCK_SIZE - 1)]
  {
    var t := o.suffix[..i] + [u];
    var w := Repeat(0, pp + BLOCK_SIZE - 1) + t;
    var x := Probe(pp, t, i % BLOCK_SIZE);
    var q := BLOCK_SIZE * (pb + i / BLOCK_SIZE) + j;
    TargetPosition(|o.prefix|, pp, pb, i, j);
    assert |x| == pp + BLOCK_SIZE + i - i % BLOCK_SIZE;
    CleartextAt(o, x, q);
    assert x[q - |o.prefix|] == w[pp + i + j];
    ZerosThenAt(pp + BLOCK_SIZE - 1, t, pp + i + j);
  }

  /** The targeted ciphertext blocks of the reference and of guess u agree exactly when
      u is suffix byte i; block k = pb + i / 16 is the target, ls = i % 16 the shift. */
  lemma GuessBlock(o: Oracle, pb: nat, pp: nat, i: nat, u: byte, k: nat, ls: nat)
    requires o.Valid() && BLOCK_SIZE * pb == |o.prefix| + pp && pp < BLOCK_SIZE
    requires i < |o.suffix| && k == pb + i / BLOCK_SIZE && ls == i % BLOCK_SIZE
    ensures BLOCK_SIZE * k + BLOCK_SIZE <= |o.Encrypt(Probe(pp, [], ls))|
    ensures BLOCK_SIZE * k + BLOCK_SIZE <= |o.Encrypt(Probe(pp, o.suffix[..i] + [u], ls))|
    ensures Block(o.Encrypt(Probe(pp, [], ls)), k) == Block(o.Encrypt(Probe(pp, o.suffix[..i] + [u], ls)), k)
      <==> u == o.suffix[i]
  {
    var p1, p2 := o.Cleartext(Probe(pp, [], ls)), o.Cleartext(Probe(pp, o.suffix[..i] + [u], ls));
    ReferenceByte(o, pb, pp, i, 0);
    GuessByte(o, pb, pp, i, u, 0);
    SameBlock(o, Probe(pp, [], ls), Probe(pp, o.suffix[..i] + [u], ls), k);
    assert Block(p1, k) == Block(p2, k) <==> u == o.suffix[i] by {
      forall j | 0 <= j < BLOCK_SIZE - 1
        ensures Block(p1, k)[j] == Block(p2, k)[j]
      {
        ReferenceByte(o, pb, pp, i, j);
        GuessByte(o, pb, pp, i, u, j);
      }
      assert Block(p1, k)[..BLOCK_SIZE - 1] == Block(p2, k)[..BLOCK_SIZE - 1];
      ReferenceByte(o, pb, pp, i, BLOCK_SIZE - 1);
      GuessByte(o, pb, pp, i, u, BLOCK_SIZE - 1);
      EqualExceptLast(Block(p1, k), Block(p2, k));
    }
  }

  /** Whether the targeted block of a probe's ciphertext matches the reference: the
      comparison inside the guessing loop of `decrypt_suffix`. */
  predicate BlockMatches(reference: seq<byte>, c: seq<byte>, block: nat)
    requires (block + 1) * BLOCK_SIZE <= |reference| && (block + 1) * BLOCK_SIZE <= |c|
  {
    reference[block * BLOCK_SIZE..(block + 1) * BLOCK_SIZE] == c[block * BLOCK_SIZE..(block + 1) * BLOCK_SIZE]
  }

  /** What the guessing loop needs to run without a slice out of range: the shift is
      within the input, and the reference and every guess's ciphertext reach past the
      targeted block. */
  predicate Comparable(encrypt: seq<byte> -> seq<byte>, reference: seq<byte>, input: seq<byte>,
                       block: nat, leftShift: nat)
  {
    && leftShift <= |input| && (block + 1) * BLOCK_SIZE <= |reference|
    && (forall v: byte :: (block + 1) * BLOCK_SIZE <= |encrypt((input + [v])[leftShift..])|)
  }

  /** Whether guess v, pushed onto the input, makes the targeted block match. */
  predicate Matches(encrypt: seq<byte> -> seq<byte>, reference: seq<byte>, input: seq<byte>,
                    block: nat, leftShift: nat, v: byte)
    requires Comparable(encrypt, reference, input, block, leftShift)
  {
    BlockMatches(reference, encrypt((input + [v])[leftShift..]), block)
  }

  /** Whether v is the first byte value, in the order the loop tries them, that matches. */
  predicate FirstMatch(encrypt: seq<byte> -> seq<byte>, reference: seq<byte>, input: seq<byte>,
                       block: nat, leftShift: nat, v: byte)
    requires Comparable(encrypt, reference, input, block, leftShift)
  {
    && Matches(encrypt, reference, input, block, leftShift, v)
    && forall w: byte :: w < v ==> !Matches(encrypt, reference, input, block, leftShift, w)
  }

  /** The hypothesis under which the guessing loop recovers a byte: the targeted block
      matches for the target byte and no other. */
  predicate OnlyTargetMatches(encrypt: seq<byte> -> seq<byte>, reference: seq<byte>, input: seq<byte>,
                              block: nat, leftShift: nat, target: byte)
  {
    && Comparable(encrypt, reference, input, block, leftShift)
    && (forall v: byte :: Matches(encrypt, reference, input, block, leftShift, v) <==> v == target)
  }

  /** The inner loop of `decrypt_suffix` over all byte values u: pushes u onto the input,
      keeps it and appends it to the suffix when the targeted block matches, and pops it
      otherwise. The first matching byte is appended to both; when no byte matches,
      nothing is appended and no error is raised. */
  method GuessNextByte(encrypt: seq<byte> -> seq<byte>, reference: seq<byte>, input: seq<byte>,
                       suffix: seq<byte>, block: nat, leftShift: nat)
    returns (newInput: seq<byte>, newSuffix: seq<byte>)
    requires Comparable(encrypt, reference, input, block, leftShift)
    ensures (forall v: byte :: !Matches(encrypt, reference, input, block, leftShift, v)) ==>
              newInput == input && newSuffix == suffix
    ensures forall v: byte :: FirstMatch(encrypt, reference, input, block, leftShift, v) ==>
              newInput == input + [v] && newSuffix == suffix + [v]
    ensures |suffix| <= |newSuffix| <= |suffix| + 1 && |newInput| == |input| + |newSuffix| - |suffix|
  {
    newInput, newSuffix := input, suffix;
    for u := 0 to 256
      invariant newInput == input && newSuffix == suffix
      invariant forall w: byte :: w as int < u ==> !Matches(encrypt, reference, input, block, leftShift, w)
    {
      newInput := newInput + [u as byte];
      if reference[block * BLOCK_SIZE..(block + 1) * BLOCK_SIZE]
        == encrypt(newInput[leftShift..])[block * BLOCK_SIZE..(block + 1) * BLOCK_SIZE]
      {
        assert FirstMatch(encrypt, reference, input, block, leftShift, u as byte);
        newSuffix := newSuffix + [u as byte];
        return;
      }
      assert !Matches(encrypt, reference, input, block, leftShift, u as byte);
      newInput := newInput[..|newInput| - 1];
    }
  }

  /** When only the target matches, the guessing loop appends the target. */
  lemma TargetIsFirstMatch(encrypt: seq<byte> -> seq<byte>, reference: seq<byte>, input: seq<byte>,
                           block: nat, leftShift: nat, target: byte)
    requires OnlyTargetMatches(encrypt, reference, input, block, leftShift, target)
    ensures FirstMatch(encrypt, reference, input, block, leftShift, target)
  {
  }

  /** `decrypt_suffix`: recovers the suffix one byte at a time. For suffix byte i it
      shifts the zeros so that byte i ends a block, and guesses it against the reference
      ciphertext of that shift. Against a codebook oracle it recovers the whole suffix. */
  method DecryptSuffix(encrypt: seq<byte> -> seq<byte>, ghost o: Oracle) returns (r: Result<seq<byte>, Set2Error>)
    requires o.Valid() && encrypt == o.Encrypt
    ensures r == Ok(o.suffix)
  {
    var prefixLen := PrefixLength(encrypt);
    assert prefixLen == Ok(|o.prefix|) by {
      PrefixLengthExact(o);
    }
    match prefixLen {
      case Err(e) => return Err(e);
      case Ok(_) =>
    }
    var (prefixBlocks, prefixPadding) := CeilDiv(prefixLen.value, BLOCK_SIZE);
    assert LengthChangeFits(encrypt) && SuffixLengthFits(encrypt) by {
      SuffixLengthExact(o);
    }
    var suffixLen := SuffixLength(encrypt);
    assert suffixLen == Ok(|o.suffix|) by {
      SuffixLengthExact(o);
    }
    match suffixLen {
      case Err(e) => return Err(e);
      case Ok(_) =>
    }
    CodebookReaches(o, prefixBlocks, prefixPadding);
    var suffix := RecoverSuffix(encrypt, o, prefixBlocks, prefixPadding, suffixLen.value);
    return Ok(suffix);
  }

  /** What `decrypt_suffix` needs of the oracle for its slices to stay in range: every
      input of at least pp bytes has a ciphertext of at least `length` bytes. */
  ghost predicate CiphertextsReach(encrypt: seq<byte> -> seq<byte>, pp: nat, length: nat)
  {
    forall x: seq<byte> :: pp <= |x| ==> length <= |encrypt(x)|
  }

  /** Whether o is a codebook oracle whose `encrypt` is the given one, and pb, pp and
      suffixLen are what the length probes measure of it. */
  ghost predicate MeasuredCodebook(encrypt: seq<byte> -> seq<byte>, o: Oracle, pb: nat, pp: nat, suffixLen: nat)
  {
    && o.Valid() && encrypt == o.Encrypt
    && BLOCK_SIZE * pb == |o.prefix| + pp && pp < BLOCK_SIZE && suffixLen == |o.suffix|
  }

  /** The recovery loop of `decrypt_suffix`, once the lengths are known: pb blocks hold
      the prefix and pp zeros fill the last of them. It appends at most one byte per
      position, so the result is at most suffixLen bytes long; for a codebook oracle it
      is the suffix. */
  method RecoverSuffix(encrypt: seq<byte> -> seq<byte>, ghost o: Oracle, prefixBlocks: nat, prefixPadding: nat,
                       suffixLen: nat)
    returns (suffix: seq<byte>)
    requires CiphertextsReach(encrypt, prefixPadding, BLOCK_SIZE * (prefixBlocks + suffixLen / BLOCK_SIZE + 1))
    ensures |suffix| <= suffixLen
    ensures MeasuredCodebook(encrypt, o, prefixBlocks, prefixPadding, suffixLen) ==> suffix == o.suffix
  {
    ghost var codebook := MeasuredCodebook(encrypt, o, prefixBlocks, prefixPadding, suffixLen);
    suffix := [];
    var input: seq<byte> := Repeat(0, prefixPadding + BLOCK_SIZE - 1);
    ghost var zeros := input;
    var references := seq(BLOCK_SIZE, ls requires 0 <= ls < BLOCK_SIZE => encrypt(input[ls..]));
    for i := 0 to suffixLen
      invariant |input| == |zeros| + |suffix| && |suffix| <= i
      invariant codebook ==> input == zeros + suffix && suffix == o.suffix[..i]
    {
      var block := prefixBlocks + i / BLOCK_SIZE;
      var leftShift := i % BLOCK_SIZE;
      ComparableAt(encrypt, prefixBlocks, prefixPadding, suffixLen, i, references[leftShift], zeros, input);
      if codebook {
        GuessesMatch(o, prefixBlocks, prefixPadding, i, references[leftShift], input, block, leftShift);
        TargetIsFirstMatch(encrypt, references[leftShift], input, block, leftShift, o.suffix[i]);
      }
      input, suffix := GuessNextByte(encrypt, references[leftShift], input, suffix, block, leftShift);
      if codebook {
        AppendNext(zeros, o.suffix, i);
      }
    }
  }

  /** The slices of step i of the recovery loop stay in range. */
  lemma ComparableAt(encrypt: seq<byte> -> seq<byte>, pb: nat, pp: nat, suffixLen: nat, i: nat,
                     reference: seq<byte>, zeros: seq<byte>, input: seq<byte>)
    requires CiphertextsReach(encrypt, pp, BLOCK_SIZE * (pb + suffixLen / BLOCK_SIZE + 1))
    requires i < suffixLen && zeros == Repeat(0, pp + BLOCK_SIZE - 1) && |zeros| <= |input|
    requires reference == encrypt(zeros[i % BLOCK_SIZE..])
    ensures Comparable(encrypt, reference, input, pb + i / BLOCK_SIZE, i % BLOCK_SIZE)
  {
    var length := BLOCK_SIZE * (pb + suffixLen / BLOCK_SIZE + 1);
    assert (pb + i / BLOCK_SIZE + 1) * BLOCK_SIZE <= length by {
      DivMonotone(i, suffixLen);
    }
    assert pp <= |zeros[i % BLOCK_SIZE..]|;
    forall v: byte
      ensures (pb + i / BLOCK_SIZE + 1) * BLOCK_SIZE <= |encrypt((input + [v])[i % BLOCK_SIZE..])|
    {
      assert pp <= |(input + [v])[i % BLOCK_SIZE..]|;
    }
  }

  lemma DivMonotone(i: nat, j: nat)
    requires i <= j
    ensures i / BLOCK_SIZE <= j / BLOCK_SIZE
  {
  }

  /** The ciphertexts of a codebook oracle reach past the block that holds the last
      suffix byte, for every input that fills the prefix's last block. */
  lemma CodebookReaches(o: Oracle, pb: nat, pp: nat)
    requires o.Valid() && BLOCK_SIZE * pb == |o.prefix| + pp
    ensures CiphertextsReach(o.Encrypt, pp, BLOCK_SIZE * (pb + |o.suffix| / BLOCK_SIZE + 1))
  {
    forall x: seq<byte> | pp <= |x|
      ensures BLOCK_SIZE * (pb + |o.suffix| / BLOCK_SIZE + 1) <= |o.Encrypt(x)|
    {
      EncryptLength(o, x);
      var q := pb + |o.suffix| / BLOCK_SIZE;
      assert BLOCK_SIZE * q <= BLOCK_SIZE * pb + |o.suffix|;
      NextMultiple(|o.Encrypt(x)|, q);
    }
  }

  /** A multiple of 16 above 16 q is at least 16 (q + 1). */
  lemma NextMultiple(m: nat, q: nat)
    requires m % BLOCK_SIZE == 0 && BLOCK_SIZE * q < m
    ensures BLOCK_SIZE * (q + 1) <= m
  {
    var d := m / BLOCK_SIZE;
    assert m == BLOCK_SIZE * d;
  }

  /** Appending byte i of s to its first i bytes, after a prefix z or not. */
  lemma AppendNext(z: seq<byte>, s: seq<byte>, i: nat)
    requires i < |s|
    ensures s[..i] + [s[i]] == s[..i + 1]
    ensures z + s[..i] + [s[i]] == z + s[..i + 1]
  {
    assert s[..i] + [s[i]] == s[..i + 1];
  }

  /** The guessing loop's contract holds for suffix byte i. */
  lemma GuessesMatch(o: Oracle, pb: nat, pp: nat, i: nat, reference: seq<byte>, input: seq<byte>,
                     block: nat, leftShift: nat)
    requires o.Valid() && BLOCK_SIZE * pb == |o.prefix| + pp && pp < BLOCK_SIZE && i < |o.suffix|
    requires block == pb + i / BLOCK_SIZE && leftShift == i % BLOCK_SIZE
    requires reference == o.Encrypt(Repeat(0, pp + BLOCK_SIZE - 1)[leftShift..])
    requires input == Repeat(0, pp + BLOCK_SIZE - 1) + o.suffix[..i]
    ensures OnlyTargetMatches(o.Encrypt, reference, input, block, leftShift, o.suffix[i])
  {
    GuessMatches(o, pb, pp, i, reference, input, block, leftShift, 0);
    forall v: byte
      ensures (block + 1) * BLOCK_SIZE <= |o.Encrypt((input + [v])[leftShift..])|
      ensures BlockMatches(reference, o.Encrypt((input + [v])[leftShift..]), block) <==> v == o.suffix[i]
    {
      GuessMatches(o, pb, pp, i, reference, input, block, leftShift, v);
    }
  }

  lemma GuessMatches(o: Oracle, pb: nat, pp: nat, i: nat, reference: seq<byte>, input: seq<byte>,
                     block: nat, leftShift: nat, v: byte)
    requires o.Valid() && BLOCK_SIZE * pb == |o.prefix| + pp && pp < BLOCK_SIZE && i < |o.suffix|
    requires block == pb + i / BLOCK_SIZE && leftShift == i % BLOCK_SIZE
    requires reference == o.Encrypt(Repeat(0, pp + BLOCK_SIZE - 1)[leftShift..])
    requires input == Repeat(0, pp + BLOCK_SIZE - 1) + o.suffix[..i]
    ensures leftShift <= |input| && (block + 1) * BLOCK_SIZE <= |reference|
    ensures (block + 1) * BLOCK_SIZE <= |o.Encrypt((input + [v])[leftShift..])|
    ensures BlockMatches(reference, o.Encrypt((input + [v])[leftShift..]), block) <==> v == o.suffix[i]
  {
    var zeros: seq<byte> := Repeat(0, pp + BLOCK_SIZE - 1);
    assert zeros[leftShift..] == Probe(pp, [], leftShift);
    assert (input + [v])[leftShift..] == Probe(pp, o.suffix[..i] + [v], leftShift);
    GuessBlock(o, pb, pp, i, v, block, leftShift);
  }

  // ---------------------------------------------------------------------------
  // decode_profile

  /** `b'='`. */
  const EQUALS: byte := 61

  /** `split(|&x| x == sep)`: the pieces of u between separators, in order. There is
      always at least one piece; an empty u is one empty piece. */
  function Split(u: seq<byte>, sep: byte): (r: seq<seq<byte>>)
    ensures |r| >= 1
  {
    if u == [] then [[]]
    else if u[0] == sep then [[]] + Split(u[1..], sep)
    else
      var t := Split(u[1..], sep);
      [[u[0]] + t[0]] + t[1..]
  }

  /** The pieces put back together with the separator between them. */
  function Join(pieces: seq<seq<byte>>, sep: byte): seq<byte>
    requires |pieces| >= 1
  {
    if |pieces| == 1 then pieces[0] else pieces[0] + [sep] + Join(pieces[1..], sep)
  }

  /** Splitting loses nothing: joining the pieces gives back the input. */
  lemma {:induction false} SplitJoin(u: seq<byte>, sep: byte)
    ensures Join(Split(u, sep), sep) == u
  {
    if u != [] {
      SplitJoin(u[1..], sep);
      var t := Split(u[1..], sep);
      if u[0] == sep {
        assert Split(u, sep)[1..] == t;
      } else {
        assert Split(u, sep)[1..] == t[1..];
        if |t| > 1 {
          assert Join(t, sep) == t[0] + [sep] + Join(t[1..], sep);
        }
      }
    }
  }

  /** No piece contains the separator. */
  lemma {:induction false} SplitPiecesFree(u: seq<byte>, sep: byte)
    ensures forall j :: 0 <= j < |Split(u, sep)| ==> sep !in Split(u, sep)[j]
  {
    if u != [] {
      SplitPiecesFree(u[1..], sep);
      if u[0] != sep {
        var t := Split(u[1..], sep);
        assert sep !in t[0];
        assert forall j :: 1 <= j < |Split(u, sep)| ==> Split(u, sep)[j] == t[j];
      } else {
        assert forall j :: 1 <= j < |Split(u, sep)| ==> Split(u, sep)[j] == Split(u[1..], sep)[j - 1];
      }
    }
  }

  /** The first piece runs up to the first separator, and the remaining pieces are the
      pieces of what follows it; without a separator the input is the only piece. */
  lemma {:induction false} SplitFirst(u: seq<byte>, sep: byte)
    ensures sep !in u ==> Split(u, sep) == [u]
    ensures sep in u ==>
      && |Split(u, sep)[0]| < |u|
      && u[..|Split(u, sep)[0]|] == Split(u, sep)[0]
      && u[|Split(u, sep)[0]|] == sep
      && sep !in Split(u, sep)[0]
      && Split(u, sep)[1..] == Split(u[|Split(u, sep)[0]| + 1..], sep)
  {
    if u != [] {
      SplitFirst(u[1..], sep);
      if u[0] != sep {
        var t := Split(u[1..], sep);
        if sep in u {
          assert sep in u[1..];
          assert u[1..][|t[0]| + 1..] == u[|t[0]| + 2..];
        } else {
          assert sep !in u[1..];
          assert [u[0]] + u[1..] == u;
        }
      }
    }
  }

  /** `components.next().unwrap()`: the text of a pair before its first '='. */
  function Key(pair: seq<byte>): seq<byte>
  {
    Split(pair, EQUALS)[0]
  }

  /** `components.next().unwrap_or(&[])`: the text between the first and second '=',
      or up to the end, or nothing when the pair holds no '='. */
  function Value(pair: seq<byte>): seq<byte>
  {
    if |Split(pair, EQUALS)| > 1 then Split(pair, EQUALS)[1] else []
  }

  /** Key and value in terms of the pair: without '=' the key is the whole pair and the
      value empty; otherwise the pair is the key, '=', the value, and then either nothing
      or a further '='. Neither key nor value holds '='. */
  lemma KeyValue(pair: seq<byte>)
    ensures |Key(pair)| <= |pair|
    ensures EQUALS !in Key(pair) && EQUALS !in Value(pair)
    ensures EQUALS !in pair ==> Key(pair) == pair && Value(pair) == []
    ensures EQUALS in pair ==>
      && pair[..|Key(pair)|] == Key(pair)
      && pair[|Key(pair)|] == EQUALS
      && |Key(pair)| + 1 + |Value(pair)| <= |pair|
      && pair[|Key(pair)| + 1..|Key(pair)| + 1 + |Value(pair)|] == Value(pair)
      && (|Key(pair)| + 1 + |Value(pair)| == |pair| || pair[|Key(pair)| + 1 + |Value(pair)|] == EQUALS)
  {
    SplitFirst(pair, EQUALS);
    SplitPiecesFree(pair, EQUALS);
    if EQUALS in pair {
      var rest := pair[|Key(pair)| + 1..];
      SplitFirst(rest, EQUALS);
      assert Value(pair) == Split(rest, EQUALS)[0];
      if EQUALS in rest {
        assert rest[..|Value(pair)|] == Value(pair);
      } else {
        assert Value(pair) == rest;
      }
    }
  }

  /** The map after inserting the pairs in order: a later key overwrites an earlier one. */
  function ProfileOf(pairs: seq<seq<byte>>): map<seq<byte>, seq<byte>>
  {
    if pairs == [] then map[]
    else ProfileOf(pairs[..|pairs| - 1])[Key(pairs[|pairs| - 1]) := Value(pairs[|pairs| - 1])]
  }

  /** `decode_profile`: splits u on sep and inserts every piece's key and value. */
  method DecodeProfile(u: seq<byte>, sep: byte) returns (p: map<seq<byte>, seq<byte>>)
    ensures p == ProfileOf(Split(u, sep))
  {
    var pairs := Split(u, sep);
    p := map[];
    for i := 0 to |pairs|
      invariant p == ProfileOf(pairs[..i])
    {
      var pair := pairs[i];
      var components := Split(pair, EQUALS);
      p := p[components[0] := if |components| > 1 then components[1] else []];
      assert pairs[..i + 1][..i] == pairs[..i];
    }
    assert pairs[..|pairs|] == pairs;
  }

  /** The keys of the profile are exactly the keys of the pairs. */
  lemma {:induction false} ProfileKeys(pairs: seq<seq<byte>>, k: seq<byte>)
    ensures k in ProfileOf(pairs) <==> exists j :: 0 <= j < |pairs| && Key(pairs[j]) == k
  {
    if pairs != [] {
      var init := pairs[..|pairs| - 1];
      ProfileKeys(init, k);
      if k in ProfileOf(init) {
        var j :| 0 <= j < |init| && Key(init[j]) == k;
        assert Key(pairs[j]) == k;
      }
      if exists j :: 0 <= j < |pairs| && Key(pairs[j]) == k {
        var j :| 0 <= j < |pairs| && Key(pairs[j]) == k;
        if j < |init| {
          assert Key(init[j]) == k;
        }
      }
    }
  }

  /** The value stored under a key is the value of the last pair with that key. */
  lemma {:induction false} ProfileLastWins(pairs: seq<seq<byte>>, j: nat)
    requires j < |pairs|
    requires forall i :: j < i < |pairs| ==> Key(pairs[i]) != Key(pairs[j])
    ensures Key(pairs[j]) in ProfileOf(pairs)
    ensures ProfileOf(pairs)[Key(pairs[j])] == Value(pairs[j])
  {
    if j < |pairs| - 1 {
      var init := pairs[..|pairs| - 1];
      assert init[j] == pairs[j];
      ProfileLastWins(init, j);
    }
  }
}
