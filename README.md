# cryptopals-rust core, modelled in Dafny

This project models four parts of the cryptopals-rust solutions and proves properties of them.

- **The `serialize` crate.** Base64 (section 4 of RFC 4648) and hex (section 8 of RFC 4648) encoders and decoders.
  - The two lookup tables `TO_BASE64` and `FROM_BASE64` are constants.
  - The routines that build strings and byte vectors in loops (`to_base64`, `block_to_base64`, `from_base64`, `to_hex`, `from_hex`) are methods. Each is proved equal to a functional definition of its encoding.
  - Round trips, canonicity, padding and the error cases are lemmas about those definitions.
- **The set 2 attacks on an electronic-codebook (ECB) encryption oracle.**
  - `uses_ecb` detects the mode.
  - `prefix_plus_suffix_length`, `prefix_blocks_count`, `prefix_length` and `suffix_length` measure the secret prefix and suffix.
  - `decrypt_suffix` recovers the suffix one byte at a time.
  - `decode_profile` splits `key=value` pairs.
  - The attacks take the oracle's `encrypt` as a function value. Their correctness is proved against an abstract oracle: it encrypts PKCS#7-padded (section 6.3 of RFC 5652) `prefix ++ input ++ suffix` block by block with an arbitrary injective block cipher.
- **Challenge 41: unpadded-message recovery against textbook RSA.**
  - The server decrypts anything except its own ciphertext.
  - The attacker multiplies that ciphertext by `2^e`, has the product decrypted, and multiplies the answer by the inverse of 2 modulo n.
- **Challenges 47/48: Bleichenbacher's attack on PKCS #1 v1.5 encryption padding** (section 7.2.1 of RFC 8017).
  - A padding oracle (`decrypted >> 8(k-2) == 2`).
  - The searches for s_i (steps 2.a, 2.b, 2.c).
  - The narrowing of the candidate intervals, followed by sorting and deduplication.
  - The loop that stops when one point is left.

RSA is modelled over unbounded integers: `x^e mod n` and `y^d mod n`. A key is its modulus and exponents. That decryption undoes encryption on every residue is a hypothesis on the key (`Rsa.Key.Valid`). Multiplicativity, modular inverses and everything the attacks need are proved from it.

Modules:

| module | file | models |
|---|---|---|
| `Bytes` | bytes.dfy | bytes, `Option`, `Result` |
| `Arith` | arith.dfy | small facts about `/` and `%` |
| `Serialize` | serialize.dfy | the serialize crate |
| `SerializeLaws` | serialize_laws.dfy | round trips and error cases of the codecs |
| `EcbOracle` | ecb_oracle.dfy | the prefix/suffix ECB oracle the set 2 attacks assume |
| `Set2` | set2.dfy | the set 2 attacks and `decode_profile` |
| `Rsa` | rsa.dfy | textbook RSA, extended Euclid, `invmod` |
| `Challenge41` | challenge41.dfy | challenge 41 |
| `Intervals` | intervals.dfy | the interval lists of challenges 47/48 with `sort` and `dedup` |
| `Bleichenbacher` | challenge47_48.dfy | challenges 47/48 |

## Model

| member | source | states |
|---|---|---|
| Serialize.ToBase64Table | serialize/src/lib.rs:18-28 | `TO_BASE64` has 64 characters, and the character at index v is the one whose value in Table 1 of RFC 4648 is v |
| Serialize.FromBase64Table | serialize/src/lib.rs:30-40 | `FROM_BASE64` has 64 entries sorted strictly by character, so a binary search on it is sound; each entry pairs a character with its Table 1 value |
| Serialize.FromBase64TableInverse | serialize/src/lib.rs:18-40 | `FROM_BASE64` is the inverse of `TO_BASE64`: every entry (v, c) has v < 64 and `TO_BASE64[v] == c` |
| Serialize.U8ToBase64 | serialize/src/lib.rs:160-163 | `u8_to_base64` of a value below 64, by the ranges of Table 1 of RFC 4648; the definition U8ToBase64Table ties to `TO_BASE64` |
| Serialize.U8ToBase64Table | serialize/src/lib.rs:160-163 | `u8_to_base64` of a 6-bit value is `TO_BASE64` at that index, and that character reads back as the value |
| Serialize.BinarySearchByChar | serialize/src/lib.rs:178-183 | the binary search over a table sorted by character returns an index holding the character, and reports failure only when no entry holds it |
| Serialize.U8FromBase64 | serialize/src/lib.rs:178-183 | an alphabet character yields its 6-bit value; any other character, `=` included, yields `InvalidChar(c)` |
| Serialize.GroupDigitsByShifts | serialize/src/lib.rs:171-175 | a 3-byte group becomes the upper 6 bits of a, the lower 2 of a with the upper 4 of b, the lower 4 of b with the upper 2 of c, and the lower 6 of c |
| Serialize.BlockToBase64 | serialize/src/lib.rs:165-176 | a block of 1 to 3 bytes appends exactly its four characters, with missing bytes read as zero; any other block leaves the string unchanged |
| Serialize.Base64Encoded | serialize/src/lib.rs:48-64 | the base64 encoding, three bytes to four characters, with a final partial group padded by `=`; its length is `4 * ceil(len / 3)`, and it is the definition ToBase64 and the round-trip lemmas are about |
| Serialize.ToBase64 | serialize/src/lib.rs:48-64 | the string built by the pushes and pops is the base64 encoding `Base64Encoded(x)` |
| Serialize.GroupsDiv | serialize/src/lib.rs:48-52 | the encoding has 4 characters for every started group of 3 bytes: `4 * ceil(len / 3)` |
| Serialize.PadLengthMod | serialize/src/lib.rs:54-61 | two `=` when len % 3 == 1, one when len % 3 == 2, none when len % 3 == 0 |
| Serialize.Base64EncodedPadding | serialize/src/lib.rs:54-61 | an encoding is alphabet characters followed by exactly that many `=` |
| Serialize.PadCount | serialize/src/lib.rs:81-87 | at most two trailing `=` are stripped, and at least one exactly when the last character is `=` |
| Serialize.DigitsOf | serialize/src/lib.rs:89-92 | reading digits yields one value below 64 per character, or an `InvalidChar` error |
| Serialize.DigitsOfFirstError | serialize/src/lib.rs:90-92 | the digit loop stops at the first character outside the alphabet and reports that character |
| Serialize.Base64Decoded | serialize/src/lib.rs:77-79 | the decoding fails with `BadLength` exactly when the length is not a multiple of 4 |
| Serialize.BytesFromDigits | serialize/src/lib.rs:94-110 | the chunk loop computes `BytesOfDigits`: 3 bytes per full group, 1 or 2 for a final partial group, and `NotZeroPadded` when its unused low bits are not zero |
| Serialize.FromBase64 | serialize/src/lib.rs:76-111 | on a non-empty string the decoder computes `Base64Decoded(s)` |
| Serialize.EmptyEncodingOutsideDomain | serialize/src/lib.rs:81-82 | the encoding of the empty byte string is the empty string, which `from_base64` cannot take |
| Serialize.DecodeBase64 | serialize/src/lib.rs:76-111 | the corrected decoder computes `Base64Decoded(s)` on every string and maps the empty string to no bytes |
| Serialize.U8FromHex | serialize/src/lib.rs:153-158 | succeeds exactly on `0-9`, `a-f` and `A-F`, with a value below 16 whose lower-case digit is the lower-cased input; otherwise `InvalidChar(c)` |
| Serialize.HexEncodedNibbles | serialize/src/lib.rs:66-73 | character k of the hex encoding is the lower-case digit of nibble k, high nibble of each byte first |
| Serialize.ToHex | serialize/src/lib.rs:66-73 | the pushes into `u4` and the digit mapping produce `HexEncoded(x)`, twice as long as the input |
| Serialize.HexDecoded | serialize/src/lib.rs:141-144 | the decoding fails with `BadLength` exactly when the length is odd |
| Serialize.CombineNibbles | serialize/src/lib.rs:150 | each output byte holds two consecutive nibbles, the first one high |
| Serialize.HexPairsOfDigits | serialize/src/lib.rs:146-150 | when every character is a hex digit, decoding pairs the digits into bytes |
| Serialize.HexPairsFirstError | serialize/src/lib.rs:146-149 | otherwise decoding reports the first character that is not a hex digit |
| Serialize.FromHex | serialize/src/lib.rs:141-151 | the digit loop and the pairing compute `HexDecoded(s)` |
| SerializeLaws.Base64RoundTrip | serialize/src/lib.rs:48-111 | decoding the encoding of any byte string gives it back |
| SerializeLaws.Base64Canonical | serialize/src/lib.rs:76-111 | every accepted string is the encoding of what it decodes to, so the decoder accepts nothing but canonical encodings |
| SerializeLaws.Base64AcceptsEncodings | serialize/src/lib.rs:76-111 | a string is accepted exactly when it is the encoding of some bytes |
| SerializeLaws.PadOnlyAtEnd | serialize/src/lib.rs:81-92 | an accepted string has `=` only in its last two positions |
| SerializeLaws.DigitsOfAccepts | serialize/src/lib.rs:89-92 | reading digits succeeds exactly when every character is in the alphabet |
| SerializeLaws.Base64InvalidChar | serialize/src/lib.rs:76-92 | an `InvalidChar` error comes from a string whose length is a positive multiple of 4, and names its first non-alphabet character before the stripped padding |
| SerializeLaws.HexRoundTrip | serialize/src/lib.rs:66-151 | `from_hex(to_hex(x)) == x` for every byte string |
| SerializeLaws.HexLowercase | serialize/src/lib.rs:66-73 | the hex encoding uses only `0-9` and `a-f` |
| SerializeLaws.HexAccepts | serialize/src/lib.rs:141-158 | a string is accepted exactly when its length is even and every character is a hex digit of either case |
| SerializeLaws.HexDecodedLower | serialize/src/lib.rs:141-158 | re-encoding an accepted string gives it back lower-cased |
| EcbOracle.PaddingLength | challenges/src/set2.rs:93-110 | the padding the length probe relies on adds 1 to 16 bytes, never 0, and reaches a multiple of 16 |
| EcbOracle.EncryptLength | challenges/src/set2.rs:93-110 | the ciphertext is as long as prefix, input, suffix and padding together |
| EcbOracle.EcbBlocks | challenges/src/set2.rs:112-116 | every ciphertext block is the cipher of the cleartext block at the same index |
| EcbOracle.CleartextAt | challenges/src/set2.rs:207-216 | the cleartext is the prefix, then the input, then the suffix, then the padding |
| Set2.UsesEcb | challenges/src/set2.rs:84-91 | `uses_ecb`: whether ciphertext blocks 1 and 2 of the encryption of 48 zeros are equal; the definition UsesEcbCompares and UsesEcbDetects are about |
| Set2.UsesEcbCompares | challenges/src/set2.rs:84-91 | the probe of 48 zeros yields more than two blocks, and `uses_ecb` answers whether cleartext blocks 1 and 2 are equal |
| Set2.UsesEcbDetects | challenges/src/set2.rs:84-91 | with a prefix of at most one block, `uses_ecb` is true for every codebook oracle |
| Set2.FindLengthChange | challenges/src/set2.rs:97-103 | a length change, when found, is at an input length between the start and 16 |
| Set2.FindLengthChangeNone | challenges/src/set2.rs:97-109 | the search fails exactly when no input of 1 to 16 zeros changes the ciphertext length |
| Set2.PrefixPlusSuffixLength | challenges/src/set2.rs:93-110 | `prefix_plus_suffix_length`: the empty input's ciphertext length minus the first input length in 1..=16 that changes it, or `LengthUnchanged`; the definition FindLengthChange, FindLengthChangeNone and PrefixPlusSuffixLengthExact are about |
| Set2.PrefixPlusSuffixLengthExact | challenges/src/set2.rs:93-110 | for every codebook oracle the subtraction cannot underflow and the result is `Ok(prefix.len() + suffix.len())` |
| Set2.FirstDifferingChunk | challenges/src/set2.rs:118-123 | the position found is a block that both ciphertexts have |
| Set2.PrefixBlocksCount | challenges/src/set2.rs:112-128 | `prefix_blocks_count`: the index of the first block in which the encryptions of `[0]` and `[1]` differ, or `NoDifferingBlock`; the definition FirstDifferingChunk and PrefixBlocksCountExact are about |
| Set2.PrefixBlocksCountExact | challenges/src/set2.rs:117-128 | for every codebook oracle the result is `Ok(prefix.len() / 16)` |
| Set2.FirstChange | challenges/src/set2.rs:157-164 | the helper's answer lies between the starting step and 16 |
| Set2.FirstChangeLeast | challenges/src/set2.rs:157-164 | block n is unchanged at every step before the answer and changed at the answer unless it is 16 |
| Set2.PrefixLengthHelper | challenges/src/set2.rs:152-165 | the loop that carries `prev` returns the first step at which block n changes, or 16 |
| Set2.ConstantChange | challenges/src/set2.rs:130-148 | at step `prefix.len() % 16` block n stays the same exactly when the constant equals the next byte after it |
| Set2.HelperValue | challenges/src/set2.rs:147-165 | the helper never answers below `prefix.len() % 16`, and answers exactly that for a constant other than the next byte |
| Set2.PrefixLengthOf | challenges/src/set2.rs:150-168 | `prefix_length` as a value: the error of `prefix_blocks_count`, or `n * 16 + min(helper(0), helper(1))`; the definition PrefixLength and PrefixLengthExact are about |
| Set2.PrefixLength | challenges/src/set2.rs:150-168 | the method computes `n * 16 + min(helper(0), helper(1))` as `PrefixLengthOf` defines it |
| Set2.PrefixLengthExact | challenges/src/set2.rs:150-168 | for every codebook oracle the result is `Ok(prefix.len())`; the test at lines 174-198 checks the same equation for a counter-mode oracle, which this model does not cover |
| Set2.SuffixLengthOf | challenges/src/set2.rs:170-172 | `suffix_length` as a value: the first error of the two probes, or their difference; the definition SuffixLength, SuffixLengthOfParts and SuffixLengthExact are about |
| Set2.SuffixLength | challenges/src/set2.rs:170-172 | the method computes `SuffixLengthOf` |
| Set2.SuffixLengthOfParts | challenges/src/set2.rs:170-172 | the result is the total length minus the prefix length |
| Set2.SuffixLengthExact | challenges/src/set2.rs:170-172 | for every codebook oracle the result is `Ok(suffix.len())` |
| Set2.CeilDiv | challenges/src/set2.rs:219 | `ceil_div(x, b)` returns q and p with `q * b == x + p` and `p < b`: the blocks the prefix starts and the bytes that fill its last one |
| Set2.GuessMatches | challenges/src/set2.rs:225-238 | for position i, the target block of the probe ending in candidate v matches the reference exactly when v is `suffix[i]` |
| Set2.GuessNextByte | challenges/src/set2.rs:233-243 | on any oracle whose slices are in range: the first candidate whose target block matches is appended to both `input` and `suffix`; when none matches, both are left unchanged and no error is raised; at most one byte is appended |
| Set2.TargetIsFirstMatch | challenges/src/set2.rs:233-243 | when only the target byte matches, it is the first match, so the candidate loop appends it |
| Set2.RecoverSuffix | challenges/src/set2.rs:220-245 | the reference ciphertexts are computed once before the loop; for any oracle whose ciphertexts are long enough for the slices, the result has at most `suffix_len` bytes, and for a codebook oracle it is the suffix |
| Set2.ComparableAt | challenges/src/set2.rs:224-238 | position i targets block `prefix_blocks + i / 16` with shift `i % 16`, and the slices of that step stay in range |
| Set2.CodebookReaches | challenges/src/set2.rs:224-238 | a codebook oracle's ciphertexts are long enough for every slice `decrypt_suffix` takes |
| Set2.DecryptSuffix | challenges/src/set2.rs:206-251 | for every codebook oracle the result is `Ok(suffix)` |
| Set2.SplitJoin | challenges/src/set2.rs:255 | joining the pieces of `split` with the separator gives the input back |
| Set2.SplitPiecesFree | challenges/src/set2.rs:255 | no piece contains the separator |
| Set2.KeyValue | challenges/src/set2.rs:256-257 | the key is the text before the first `=`, and the value is the text between the first and the second `=`, or empty when there is no `=` |
| Set2.DecodeProfile | challenges/src/set2.rs:253-260 | the insert loop builds the map `ProfileOf(split(u, sep))` |
| Set2.ProfileKeys | challenges/src/set2.rs:253-260 | the map's keys are exactly the keys of the pieces |
| Set2.ProfileLastWins | challenges/src/set2.rs:255-257 | a key maps to the value of the last piece that carries it |
| Rsa.ModPow | challenges/src/set6/challenge41.rs:36-38 | modular exponentiation yields a residue below n |
| Rsa.Key.Encrypt | challenges/src/set6/challenge41.rs:36-38 | encryption yields a residue below n |
| Rsa.Key.Decrypt | challenges/src/set6/challenge41.rs:45 | decryption yields a residue below n |
| Rsa.ModPowMod | challenges/src/set6/challenge41.rs:61 | reducing the base modulo n first does not change the power |
| Rsa.ModPowMul | challenges/src/set6/challenge41.rs:61 | `(a b)^e == a^e b^e` modulo n, the multiplicativity the blinding relies on |
| Rsa.DecryptEncrypt | challenges/src/set6/challenge41.rs:62-66 | under a valid key, decrypting the encryption of x gives `x mod n` |
| Rsa.DecryptProduct | challenges/src/set6/challenge41.rs:61-63 | the product of two ciphertexts decrypts to the product of the cleartexts modulo n |
| Rsa.ExtGcd | challenges/src/set6/challenge41.rs:59 | extended Euclid returns x, y and g with `x a + y b == g`, where g divides a and b and is positive unless both are zero |
| Rsa.InvMod | challenges/src/set6/challenge41.rs:59 | `invmod` returns, when it succeeds, a t below n with `a t == 1` modulo n |
| Rsa.InvModTwo | challenges/src/set6/challenge41.rs:59 | 2 is invertible modulo every odd n > 2, so the `unwrap` cannot fail |
| Challenge41.NewServer | challenges/src/set6/challenge41.rs:17-26 | the server `new` builds holds the key, the cleartext and the cleartext's encryption, and is valid when the cleartext is below n |
| Challenge41.Server.Decrypt | challenges/src/set6/challenge41.rs:40-46 | refuses exactly the stored ciphertext and otherwise returns a residue below n |
| Challenge41.Server.VerifySolution | challenges/src/set6/challenge41.rs:48-50 | succeeds exactly when the candidate is the secret cleartext, else fails with `Mismatch` |
| Challenge41.DecryptOracle | challenges/src/set6/challenge41.rs:40-46 | seen through encryption, the server refuses exactly the secret modulo n and otherwise returns `x mod n` |
| Challenge41.Blinded | challenges/src/set6/challenge41.rs:61 | the altered ciphertext `c * encrypt(2) mod n` is a residue below n |
| Challenge41.BlindedDecrypts | challenges/src/set6/challenge41.rs:58-63 | the altered ciphertext decrypts to `2 m mod n` |
| Challenge41.BlindedRefused | challenges/src/set6/challenge41.rs:61-64 | the server refuses the altered ciphertext exactly when the secret is 0 |
| Challenge41.Unblind | challenges/src/set6/challenge41.rs:66 | multiplying `2 m mod n` by an inverse of 2 gives m back when m < n |
| Challenge41.Run | challenges/src/set6/challenge41.rs:53-68 | `run`: blinds the ciphertext with `encrypt(2)`, fails with `WrongInputToOracle` when the server refuses, else multiplies the answer by the inverse of 2 and verifies it; the definition RunRecovers is about |
| Challenge41.RunRecovers | challenges/src/set6/challenge41.rs:53-68 | for every server `new` can build, `run` succeeds exactly when the secret is not 0, and otherwise fails with "wrong input to oracle" |
| Intervals.Insert | challenges/src/set6/challenge47_48.rs:96 | inserting into a sorted list keeps it sorted and adds exactly that interval |
| Intervals.Sort | challenges/src/set6/challenge47_48.rs:96 | `sort` yields a permutation of its input in the lexicographic order of pairs |
| Intervals.Dedup | challenges/src/set6/challenge47_48.rs:97 | `dedup` never lengthens the list and keeps its first element |
| Intervals.DedupSameElements | challenges/src/set6/challenge47_48.rs:97 | `dedup` keeps exactly the intervals it was given |
| Intervals.DedupStrict | challenges/src/set6/challenge47_48.rs:96-97 | after `sort`, `dedup` leaves a strictly sorted list with no repeats |
| Intervals.SortDedupCovers | challenges/src/set6/challenge47_48.rs:96-97 | sorting and deduplicating does not change which integers the list covers |
| Bleichenbacher.NumBytes | challenges/src/set6/challenge47_48.rs:23 | k is the byte length of n: `n < 2^(8k)`, and `2^(8(k-1)) <= n` when k > 0 |
| Bleichenbacher.FromBytesBe | challenges/src/set6/challenge47_48.rs:41 | a big-endian byte string of length l has a value below `2^(8l)` |
| Bleichenbacher.CeilQuotient | challenges/src/set6/challenge47_48.rs:56 | `ceil_quotient(x, y)` is the q with `(q-1) y < x <= q y` |
| Bleichenbacher.CeilQuotientLeast | challenges/src/set6/challenge47_48.rs:56 | it is the least q with `x <= q y` |
| Bleichenbacher.FloorQuotient | challenges/src/set6/challenge47_48.rs:86 | `floor_quotient(x, y)` is the q with `q y <= x < (q+1) y` |
| Bleichenbacher.FloorQuotientGreatest | challenges/src/set6/challenge47_48.rs:86 | it is the greatest q with `q y <= x` |
| Bleichenbacher.BoundB | challenges/src/set6/challenge47_48.rs:24 | `B = 2^(8(k-2))` is positive |
| Bleichenbacher.ShiftIsTwo | challenges/src/set6/challenge47_48.rs:30 | `x >> 8(k-2) == 2` exactly when `2B <= x < 3B` |
| Bleichenbacher.Oracle | challenges/src/set6/challenge47_48.rs:28-31 | the padding oracle: decrypt, then test `cleartext >> 8(k-2) == 2`; the definition OracleConforming is about |
| Bleichenbacher.OracleConforming | challenges/src/set6/challenge47_48.rs:28-31 | the oracle accepts a ciphertext exactly when its decryption lies in `[2B, 3B)` |
| Bleichenbacher.WrappedOracle | challenges/src/set6/challenge47_48.rs:45 | the wrapped oracle: the padding oracle on `c * encrypt(s)`; the definition WrappedOracleConforming is about |
| Bleichenbacher.WrappedOracleConforming | challenges/src/set6/challenge47_48.rs:45 | under a valid key the wrapped oracle accepts s exactly when `m s mod n` lies in `[2B, 3B)` |
| Bleichenbacher.Padded | challenges/src/set6/challenge47_48.rs:33-40 | the padded cleartext has k - 1 bytes: 0x02, the filler, 0x00, then the message |
| Bleichenbacher.PaddedConforming | challenges/src/set6/challenge47_48.rs:33-47 | m, the value of the padded cleartext, lies in the initial interval `[2B, 3B - 1]` |
| Bleichenbacher.SearchFrom | challenges/src/set6/challenge47_48.rs:54-65 | steps 2.a and 2.b return the least accepted s from their start; without enough fuel they return nothing, and then no s in the searched range is accepted |
| Bleichenbacher.NoneAcceptedNext | challenges/src/set6/challenge47_48.rs:57-59 | a rejected s extends the rejected range the search has passed |
| Bleichenbacher.SearchWindows | challenges/src/set6/challenge47_48.rs:66-81 | step 2.c returns the first accepted s in its scan order: for some r from `ceil(2(b s_prev - 2B)/n)` on, no s in the windows of the earlier r is accepted, s lies in the window of r, and no s before it in that window is accepted; without enough fuel it returns nothing, and then no s in the windows scanned is accepted |
| Bleichenbacher.RejectedNext | challenges/src/set6/challenge47_48.rs:72-79 | a window scanned to its end without acceptance joins the rejected windows |
| Bleichenbacher.Emit | challenges/src/set6/challenge47_48.rs:88-91 | every emitted interval lies within the interval it narrows: lower bound >= a and upper bound <= b |
| Bleichenbacher.EmitWithin | challenges/src/set6/challenge47_48.rs:85-91 | for every r of the loop, the emitted interval's lower bound is at most `max(a, b)` and its upper bound at least `min(a, b)` |
| Bleichenbacher.NarrowOne | challenges/src/set6/challenge47_48.rs:84-93 | the intervals pushed for one interval (a, b) of `M_prev`: `Emit` for every r from `ceil((a s - 3B + 1)/n)` to `floor((b s - 2B)/n)` ascending, empty ones included; the definition NarrowOneKeeps and EmitWithin are about |
| Bleichenbacher.Narrow | challenges/src/set6/challenge47_48.rs:83-94 | everything pushed onto `Mi`, interval by interval of `M_prev`; the definition UpdateIntervals, NarrowKeeps and NarrowWithin are about |
| Bleichenbacher.UpdateIntervals | challenges/src/set6/challenge47_48.rs:83-94 | the nested loops build exactly `Narrow(prev, s)`, every interval and r in order |
| Bleichenbacher.NarrowOneKeeps | challenges/src/set6/challenge47_48.rs:84-93 | if m lies in (a, b) and `m s mod n` lies in `[2B, 3B)`, some interval emitted for (a, b) contains m |
| Bleichenbacher.NarrowKeeps | challenges/src/set6/challenge47_48.rs:83-94 | if some interval of the previous set contains m and s is accepted for m, some new interval contains m |
| Bleichenbacher.NarrowWithin | challenges/src/set6/challenge47_48.rs:83-94 | narrowing keeps every interval inside `[2B, 3B - 1]` |
| Bleichenbacher.SortDedupWithin | challenges/src/set6/challenge47_48.rs:96-97 | sorting and deduplicating keeps every interval inside `[2B, 3B - 1]` |
| Bleichenbacher.NextIntervals | challenges/src/set6/challenge47_48.rs:83-97 | the new set is the narrowed set sorted and deduplicated; it is strictly sorted, stays inside `[2B, 3B - 1]`, and still contains m when s is accepted for m |
| Bleichenbacher.NextMultiplier | challenges/src/set6/challenge47_48.rs:53-81 | a multiplier it returns is at least 1 and accepted; in round 1 (2.a) it is the least accepted s from `ceil(n / 3B)`, with several intervals (2.b) the least accepted s after `s_prev`, and with one interval (2.c) the first accepted s in the scan order of `SearchWindows`; when the fuel runs out, no candidate searched is accepted |
| Bleichenbacher.Run | challenges/src/set6/challenge47_48.rs:15-105 | every verdict the attack reaches is success: once the set is a single point, that point is m and `compare_eq` cannot fail |

## Left out

- I/O is left out: `from_base64_file`, `from_lines`, `from_base64_lines` and `from_hex_lines` read files.
- Randomness becomes parameters: the RSA key, the random cleartext of challenge 41 and the filler bytes of challenges 47/48. Key generation, prime generation and the big-number library are not part of this model.
- The oracle types of set 2, the AES block cipher and the `pad` routine are not part of this model. `EcbOracle.Oracle` is the codebook oracle the attacks assume, and the cipher is any injective map on 16-byte blocks. Encryption never fails in the model, so the `?` error paths of `oracle.encrypt` are not modelled.
- `Oracle11` picks ECB or CBC at random. That choice and the exercise drivers (`matasano2_9` to `matasano2_16`, `run`) are left out.
- Rsa.Key.Valid: that decryption undoes encryption on every residue is assumed of the key, not derived from the way the key is generated.
- `ceil_quotient` and `floor_quotient` of the big-number crate are not part of this model. They are taken to be the exact ceiling and floor of the quotient.
- `compare_eq` is modelled as equality. Error messages become constructors of an error datatype.
- Strings are sequences of characters with one character per byte. `from_base64` inspects the last two bytes of the string but iterates over characters; the model does not tell the two apart for non-ASCII input.
- Serialize.FromBase64 requires a non-empty string, because the source indexes `s[n - 1]` with n = 0 and panics there (see Findings). Serialize.DecodeBase64 is the total decoder.
- Set2.UsesEcb requires the probe's ciphertext to have more than two blocks, because the source indexes `blocks[1]`. UsesEcbCompares proves this for every codebook oracle.
- Set2.PrefixPlusSuffixLength requires `LengthChangeFits`: the found index is at most the empty input's ciphertext length, so the `usize` subtraction cannot underflow. PrefixPlusSuffixLengthExact proves this for every codebook oracle.
- Set2.SuffixLength requires `SuffixLengthFits` for the same reason. SuffixLengthExact proves it for every codebook oracle.
- Set2.DecryptSuffix is specified only for codebook oracles. For other oracles, the source's slices may be out of range.
- Set2.RecoverSuffix requires the oracle's ciphertexts to be long enough for every slice the loop takes (`CiphertextsReach`), since the source panics on a slice out of range. CodebookReaches proves this for every codebook oracle.
- Bleichenbacher.SearchFrom, Bleichenbacher.SearchWindows and Bleichenbacher.Run take a `fuel` bound on their loops, which the source does not have. `OutOfFuel` is the model's own error, so termination of the attack is not modelled. Run's contract states that a reached verdict is never a mismatch.
- Bleichenbacher.SearchWindows requires the interval to have a positive lower bound and an upper bound of at least 2B. NextMultiplier derives this from the invariant that every interval lies in `[2B, 3B - 1]`.
- Bleichenbacher.Run takes k as the byte length of n, and requires the message to fit (`len <= k - 11`), as the source's `assert!` does. It does not require the filler bytes to be nonzero, since the proofs do not need it.
- Intervals.Sort and Intervals.Dedup model `Vec::sort` and `Vec::dedup` on values. The in-place update of `Mi` is not modelled.

## Findings

| source | as written | input that shows it | evidently intended | confidence | as-written member | corrected member |
|---|---|---|---|---|---|---|
| serialize/src/lib.rs:81-82 | `from_base64` reads `s.as_bytes()[n - 1]` with `n = s.len()` before checking for an empty string | `""`, which is what `to_base64` returns for no bytes | `from_base64("") == Ok(vec![])`, so that the round trip also holds for empty input | not executed | Serialize.EmptyEncodingOutsideDomain | Serialize.DecodeBase64 |
