/** The encryption oracles the set 2 attacks probe. The oracles themselves are not
    part of this model; an oracle here is what the attacks assume of one: it prepends
    a fixed secret prefix and appends a fixed secret suffix to its input, pads the
    result with PKCS#7 (section 6.3 of RFC 5652) to whole 16-byte blocks and encrypts
    every block with the same block cipher, which may be any injective map on blocks
    (electronic codebook mode). */
module EcbOracle {
  import opened Bytes

  const BLOCK_SIZE: nat := 16

  /** The number of padding bytes PKCS#7 appends to n bytes: 1 to 16, never 0. */
  function PaddingLength(n: nat): (p: nat)
    ensures 1 <= p <= BLOCK_SIZE
    ensures (n + p) % BLOCK_SIZE == 0
  {
    BLOCK_SIZE - n % BLOCK_SIZE
  }

  /** PKCS#7 padding: p bytes of value p. */
  function Pad(x: seq<byte>): (r: seq<byte>)
    ensures |r| == |x| + PaddingLength(|x|)
    ensures r[..|x|] == x
  {
    x + Repeat(PaddingLength(|x|), PaddingLength(|x|))
  }

  /** Block k of s: its bytes 16k to 16k + 15. */
  function Block(s: seq<byte>, k: nat): (b: seq<byte>)
    requires BLOCK_SIZE * k + BLOCK_SIZE <= |s|
    ensures |b| == BLOCK_SIZE
  {
    s[BLOCK_SIZE * k..BLOCK_SIZE * k + BLOCK_SIZE]
  }

  /** An oracle: the secret prefix and suffix and the block cipher under its secret key. */
  datatype Oracle = Oracle(prefix: seq<byte>, suffix: seq<byte>, cipher: seq<byte> -> seq<byte>)
  {
    /** The cipher maps blocks to blocks and never maps two blocks to one. */
    ghost predicate Valid()
    {
      && (forall b :: |b| == BLOCK_SIZE ==> |cipher(b)| == BLOCK_SIZE)
      && (forall a, b :: Collide(a, b) ==> a == b)
    }

    /** Two blocks the cipher maps to one block. */
    ghost predicate Collide(a: seq<byte>, b: seq<byte>)
    {
      |a| == BLOCK_SIZE && |b| == BLOCK_SIZE && cipher(a) == cipher(b)
    }

    /** The cleartext the oracle encrypts for an input. */
    function Cleartext(input: seq<byte>): (p: seq<byte>)
      ensures |p| % BLOCK_SIZE == 0
    {
      Pad(prefix + input + suffix)
    }

    /** `encrypt`: the codebook encryption of the padded cleartext, as long as it. */
    function Encrypt(input: seq<byte>): (c: seq<byte>)
      ensures Valid() ==> |c| == |Cleartext(input)|
    {
      Ecb(cipher, Cleartext(input))
    }
  }

  /** Electronic codebook mode: each block encrypted on its own. */
  function Ecb(cipher: seq<byte> -> seq<byte>, p: seq<byte>): (c: seq<byte>)
    requires |p| % BLOCK_SIZE == 0
    ensures (forall b :: |b| == BLOCK_SIZE ==> |cipher(b)| == BLOCK_SIZE) ==> |c| == |p|
    decreases |p|
  {
    if |p| == 0 then [] else cipher(p[..BLOCK_SIZE]) + Ecb(cipher, p[BLOCK_SIZE..])
  }

  /** The ciphertext is as long as the padded cleartext, and its block k is the
      encryption of block k of the cleartext. */
  lemma {:induction false} EcbBlocks(cipher: seq<byte> -> seq<byte>, p: seq<byte>)
    requires forall b :: |b| == BLOCK_SIZE ==> |cipher(b)| == BLOCK_SIZE
    requires |p| % BLOCK_SIZE == 0
    ensures |Ecb(cipher, p)| == |p|
    ensures forall k :: BLOCK_SIZE * k + BLOCK_SIZE <= |p| ==>
      Block(Ecb(cipher, p), k) == cipher(Block(p, k))
    decreases |p|
  {
    if |p| != 0 {
      var t := p[BLOCK_SIZE..];
      EcbBlocks(cipher, t);
      forall k | BLOCK_SIZE * k + BLOCK_SIZE <= |p|
        ensures Block(Ecb(cipher, p), k) == cipher(Block(p, k))
      {
        BlockOfAppend(cipher(p[..BLOCK_SIZE]), Ecb(cipher, t), k);
        BlockOfAppend(p[..BLOCK_SIZE], t, k);
        assert p == p[..BLOCK_SIZE] + t;
      }
    }
  }

  /** The blocks of a block followed by more blocks. */
  lemma BlockOfAppend(h: seq<byte>, t: seq<byte>, k: nat)
    requires |h| == BLOCK_SIZE && BLOCK_SIZE * k + BLOCK_SIZE <= |h| + |t|
    ensures k == 0 ==> Block(h + t, k) == h
    ensures k > 0 ==> Block(h + t, k) == Block(t, k - 1)
  {
    if k > 0 {
      assert (h + t)[BLOCK_SIZE * k..BLOCK_SIZE * k + BLOCK_SIZE]
        == t[BLOCK_SIZE * (k - 1)..BLOCK_SIZE * (k - 1) + BLOCK_SIZE];
    }
  }

  /** The length of an encryption is the length of the padded cleartext. */
  lemma EncryptLength(o: Oracle, input: seq<byte>)
    requires o.Valid()
    ensures |o.Encrypt(input)| == |o.Cleartext(input)|
    ensures |o.Encrypt(input)| == |o.prefix| + |input| + |o.suffix| + PaddingLength(|o.prefix| + |input| + |o.suffix|)
  {
    EcbBlocks(o.cipher, o.Cleartext(input));
  }

  /** Two encryptions agree on a block exactly when the cleartexts agree on it. */
  lemma SameBlock(o: Oracle, x: seq<byte>, y: seq<byte>, k: nat)
    requires o.Valid()
    requires BLOCK_SIZE * k + BLOCK_SIZE <= |o.Cleartext(x)|
    requires BLOCK_SIZE * k + BLOCK_SIZE <= |o.Cleartext(y)|
    ensures BLOCK_SIZE * k + BLOCK_SIZE <= |o.Encrypt(x)|
    ensures BLOCK_SIZE * k + BLOCK_SIZE <= |o.Encrypt(y)|
    ensures Block(o.Encrypt(x), k) == Block(o.Encrypt(y), k)
      <==> Block(o.Cleartext(x), k) == Block(o.Cleartext(y), k)
  {
    EcbBlocks(o.cipher, o.Cleartext(x));
    EcbBlocks(o.cipher, o.Cleartext(y));
    if Block(o.Encrypt(x), k) == Block(o.Encrypt(y), k) {
      assert o.Collide(Block(o.Cleartext(x), k), Block(o.Cleartext(y), k));
    }
  }

  /** Byte q of the cleartext: prefix, then input, then suffix, then padding. */
  lemma CleartextAt(o: Oracle, x: seq<byte>, q: nat)
    requires q < |o.Cleartext(x)|
    ensures q < |o.prefix| ==> o.Cleartext(x)[q] == o.prefix[q]
    ensures |o.prefix| <= q < |o.prefix| + |x| ==> o.Cleartext(x)[q] == x[q - |o.prefix|]
    ensures |o.prefix| + |x| <= q < |o.prefix| + |x| + |o.suffix| ==>
      o.Cleartext(x)[q] == o.suffix[q - |o.prefix| - |x|]
    ensures |o.prefix| + |x| + |o.suffix| <= q ==>
      o.Cleartext(x)[q] == PaddingLength(|o.prefix| + |x| + |o.suffix|)
  {
  }
}
