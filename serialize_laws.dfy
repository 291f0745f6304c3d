/** The laws of the base64 codec of the serialize crate: decoding undoes encoding
    for every byte sequence, and every string the decoder accepts is the encoding of
    what it decodes to, so the encoding is the only spelling the decoder accepts. */
module SerializeLaws {
  import opened Bytes
  import opened Arith
  import opened Serialize

  // ---------------------------------------------------------------------------
  // The digits an encoding spells

  /** The digits of the encoding of x without its padding: four per full group of
      three bytes, two for a final single byte and three for a final pair. */
  function EncodedDigits(x: seq<byte>): (d: seq<byte>)
    ensures forall i :: 0 <= i < |d| ==> d[i] < 64
    decreases |x|
  {
    if |x| == 0 then []
    else if |x| == 1 then BlockDigits(x)[..2]
    else if |x| == 2 then BlockDigits(x)[..3]
    else BlockDigits(x[..3]) + EncodedDigits(x[3..])
  }

  /** s is the characters of the digits d followed by p '=' characters. */
  ghost predicate Spells(s: seq<char>, d: seq<byte>, p: nat)
  {
    && |s| == |d| + p
    && (forall i :: 0 <= i < |d| ==> d[i] < 64 && s[i] == U8ToBase64(d[i]))
    && (forall i :: |d| <= i < |s| ==> s[i] == '=')
  }

  /** The encoding of x spells the digits of x and then PadLength(|x|) '='. */
  lemma {:induction false} EncodingSpellsDigits(x: seq<byte>)
    ensures Spells(Base64Encoded(x), EncodedDigits(x), PadLength(|x|))
    ensures |x| > 0 ==> |EncodedDigits(x)| >= 2
    decreases |x|
  {
    if |x| >= 3 {
      EncodingSpellsDigits(x[3..]);
      PadLengthStep(|x|);
      SpellsPrepend(BlockChars(x[..3]), BlockDigits(x[..3]), Base64Encoded(x[3..]),
        EncodedDigits(x[3..]), PadLength(|x|));
    }
  }

  lemma SpellsPrepend(h: seq<char>, hd: seq<byte>, s: seq<char>, d: seq<byte>, p: nat)
    requires |h| == |hd| == 4
    requires forall i :: 0 <= i < 4 ==> hd[i] < 64 && h[i] == U8ToBase64(hd[i])
    requires Spells(s, d, p)
    ensures Spells(h + s, hd + d, p)
  {
  }

  /** A character of the alphabet is never the padding character. */
  lemma DigitIsNotPad(u: byte)
    requires u < 64
    ensures U8ToBase64(u) != '='
  {
    U8ToBase64Value(u);
  }

  /** The decoder strips exactly the padding that the encoder wrote. */
  lemma PadCountOfSpelled(s: seq<char>, d: seq<byte>, p: nat)
    requires Spells(s, d, p) && p <= 2 && |d| >= 2
    ensures PadCount(s) == p
  {
    if p == 0 {
      DigitIsNotPad(d[|d| - 1]);
    } else if p == 1 {
      DigitIsNotPad(d[|d| - 1]);
    }
  }

  /** Reading back the characters of digits gives those digits. */
  lemma {:induction false} DigitsOfSpelled(s: seq<char>, d: seq<byte>)
    requires Spells(s, d, 0)
    ensures DigitsOf(s) == Ok(d)
    decreases |s|
  {
    if s != [] {
      var k := |s| - 1;
      assert Spells(s[..k], d[..k], 0);
      DigitsOfSpelled(s[..k], d[..k]);
      U8ToBase64Value(d[k]);
      assert d[..k] + [d[k]] == d;
    }
  }

  /** The 24-bit value of a group is the value of its four digits. */
  lemma GroupValue(a: byte, b: byte, c: byte)
    ensures GroupDigits(a, b, c)[0] as int * 262144 + GroupDigits(a, b, c)[1] as int * 4096
      + GroupDigits(a, b, c)[2] as int * 64 + GroupDigits(a, b, c)[3]
      == a as int * 65536 + b as int * 256 + c
  {
    GroupDigitsByShifts(a, b, c);
  }

  lemma {:induction false} EncodedDigitsLength(x: seq<byte>)
    ensures |EncodedDigits(x)| % 4 != 1
    decreases |x|
  {
    if |x| >= 3 {
      var rest := EncodedDigits(x[3..]);
      EncodedDigitsLength(x[3..]);
      assert |EncodedDigits(x)| == 4 + |rest|;
      GroupLength(|rest|);
    }
  }

  lemma GroupLength(m: nat)
    requires m % 4 != 1
    ensures (4 + m) % 4 != 1
  {
  }

  /** A full group decodes to its three bytes, followed by whatever the rest decodes to. */
  lemma FullGroupBytes(a: byte, b: byte, c: byte, rest: seq<byte>)
    requires |rest| % 4 != 1
    requires forall i :: 0 <= i < |rest| ==> rest[i] < 64
    ensures BytesOfDigits(GroupDigits(a, b, c) + rest) == Prepend([a, b, c], BytesOfDigits(rest))
  {
    GroupDigitsByShifts(a, b, c);
    ShiftedGroupBytes(a, b, c, GroupDigits(a, b, c), rest);
  }

  lemma ShiftedGroupBytes(a: byte, b: byte, c: byte, g: seq<byte>, rest: seq<byte>)
    requires g == [a / 4, a % 4 * 16 + b / 16, b % 16 * 4 + c / 64, c % 64]
    requires |rest| % 4 != 1
    requires forall i :: 0 <= i < |rest| ==> rest[i] < 64
    ensures BytesOfDigits(g + rest) == Prepend([a, b, c], BytesOfDigits(rest))
  {
    var d := g + rest;
    assert d[4..] == rest;
    assert |d| % 4 != 1;
    FullGroupDigits(d);
    DivMod(a % 4 * 16 + b / 16, a % 4, b / 16, 16);
    DivMod(b % 16 * 4 + c / 64, b % 16, c / 64, 4);
    assert [d[0] * 4 + d[1] / 16, d[1] % 16 * 16 + d[2] / 4, d[2] % 4 * 64 + d[3]] == [a, b, c];
  }

  /** A final single byte: its two digits decode to it, and its filler bits are zero. */
  lemma SingleByte(a: byte)
    ensures BytesOfDigits(GroupDigits(a, 0, 0)[..2]) == Ok([a])
  {
    GroupDigitsByShifts(a, 0, 0);
    DivMod(a / 4 * 64 + a % 4 * 16, a, 0, 16);
  }

  /** A final pair of bytes: its three digits decode to them, and its filler bits are zero. */
  lemma PairOfBytes(a: byte, b: byte)
    ensures BytesOfDigits(GroupDigits(a, b, 0)[..3]) == Ok([a, b])
  {
    GroupDigitsByShifts(a, b, 0);
    var v := a / 4 * 4096 + (a % 4 * 16 + b / 16) * 64 + b % 16 * 4;
    assert v == a as int * 1024 + b as int * 4;
    DivMod(v, a as int * 256 + b, 0, 4);
    DivMod(v, a, b as int * 4, 1024);
    DivMod(a as int * 256 + b, a, b, 256);
  }

  /** The digits of the encoding of x decode to x. */
  lemma {:induction false} BytesOfEncodedDigits(x: seq<byte>)
    ensures |EncodedDigits(x)| % 4 != 1
    ensures BytesOfDigits(EncodedDigits(x)) == Ok(x)
    decreases |x|
  {
    EncodedDigitsLength(x);
    if |x| == 1 {
      SingleByte(x[0]);
      assert [x[0]] == x;
    } else if |x| == 2 {
      PairOfBytes(x[0], x[1]);
      assert [x[0], x[1]] == x;
    } else if |x| >= 3 {
      BytesOfEncodedDigits(x[3..]);
      EncodedDigitsLength(x[3..]);
      FullGroupBytes(x[0], x[1], x[2], EncodedDigits(x[3..]));
      assert [x[0], x[1], x[2]] + x[3..] == x;
    }
  }

  // ---------------------------------------------------------------------------
  // The round trip, in both directions

  /** Decoding undoes encoding, for every byte sequence. */
  lemma Base64RoundTrip(x: seq<byte>)
    ensures Base64Decoded(Base64Encoded(x)) == Ok(x)
  {
    if |x| > 0 {
      EncodingSpellsDigits(x);
      BytesOfEncodedDigits(x);
      FourTimes(Groups(|x|));
      DecodeSpelled(Base64Encoded(x), EncodedDigits(x), PadLength(|x|), x);
    }
  }

  /** A string that spells digits and at most two '=' decodes to the bytes of those digits. */
  lemma DecodeSpelled(s: seq<char>, d: seq<byte>, p: nat, x: seq<byte>)
    requires Spells(s, d, p) && p <= 2 && |d| >= 2 && |s| % 4 == 0 && |d| % 4 != 1
    requires BytesOfDigits(d) == Ok(x)
    ensures Base64Decoded(s) == Ok(x)
  {
    PadCountOfSpelled(s, d, p);
    assert Spells(s[..|s| - p], d, 0);
    DigitsOfSpelled(s[..|s| - p], d);
  }

  /** Every string the decoder accepts is the encoding of the bytes it decodes to:
      the decoder accepts exactly one spelling of each byte sequence. */
  lemma Base64Canonical(s: seq<char>, x: seq<byte>)
    requires Base64Decoded(s) == Ok(x)
    ensures s == Base64Encoded(x)
  {
    if |s| > 0 {
      DecodedSpells(s, x);
      EncodingSpellsDigits(x);
      FourTimes(Groups(|x|));
      var m, k, p := |EncodedDigits(x)|, PadCount(s), PadLength(|x|);
      assert m + k == |s| && |s| % 4 == 0;
      assert m + p == |Base64Encoded(x)| == 4 * Groups(|x|);
      PadFromLength(m, k, p);
      SpellsUnique(s, Base64Encoded(x), EncodedDigits(x), PadCount(s));
    }
  }

  /** An accepted string spells the digits of the encoding of what it decodes to,
      followed by the '=' the decoder strips. */
  lemma DecodedSpells(s: seq<char>, x: seq<byte>)
    requires |s| > 0 && Base64Decoded(s) == Ok(x)
    ensures Spells(s, EncodedDigits(x), PadCount(s))
  {
    var k := PadCount(s);
    var d := DecodedDigits(s, x);
    DigitsOfSpells(s[..|s| - k], d);
    EncodedDigitsOfBytes(d, x);
    SpellsPadded(s, d, k);
  }

  /** The digits an accepted string carries before its padding. */
  lemma DecodedDigits(s: seq<char>, x: seq<byte>) returns (d: seq<byte>)
    requires |s| > 0 && Base64Decoded(s) == Ok(x)
    ensures |s| % 4 == 0 && DigitsOf(s[..|s| - PadCount(s)]) == Ok(d)
    ensures |d| % 4 != 1 && forall i :: 0 <= i < |d| ==> d[i] < 64
    ensures BytesOfDigits(d) == Ok(x)
  {
    d := DigitsOf(s[..|s| - PadCount(s)]).value;
  }

  lemma SpellsPadded(s: seq<char>, d: seq<byte>, k: nat)
    requires |s| >= 2 && k == PadCount(s)
    requires Spells(s[..|s| - k], d, 0)
    ensures Spells(s, d, k)
  {
    assert forall i :: |s| - k <= i < |s| ==> s[i] == '=';
  }

  lemma FourTimes(g: nat)
    ensures (4 * g) % 4 == 0
  {
    DivMod(4 * g, g, 0, 4);
  }

  /** Reading digits from characters: each digit is the one its character spells. */
  lemma {:induction false} DigitsOfSpells(s: seq<char>, d: seq<byte>)
    requires DigitsOf(s) == Ok(d)
    ensures Spells(s, d, 0)
    decreases |s|
  {
    if s != [] {
      var k := |s| - 1;
      var e := DigitsOf(s[..k]).value;
      DigitsOfSpells(s[..k], e);
      Base64DigitRoundTrip(d[k], s[k]);
      assert d == e + [d[k]];
    }
  }

  /** Digits that decode to x are the digits of the encoding of x. */
  lemma {:induction false} EncodedDigitsOfBytes(d: seq<byte>, x: seq<byte>)
    requires |d| % 4 != 1
    requires forall i :: 0 <= i < |d| ==> d[i] < 64
    requires BytesOfDigits(d) == Ok(x)
    ensures EncodedDigits(x) == d
    decreases |d|
  {
    if |d| == 2 {
      LastPairDigits(d, x);
    } else if |d| == 3 {
      LastTripleOfBytes(d, x);
    } else if |d| >= 4 {
      var rest := FullGroupOfBytes(d, x);
      EncodedDigitsOfBytes(d[4..], rest);
      assert EncodedDigits(x) == BlockDigits(x[..3]) + EncodedDigits(x[3..]);
      assert d == d[..4] + d[4..];
    }
  }

  /** A full leading group of digits decodes to the first three bytes of x, whose digits
      it is, followed by the bytes of the remaining digits. */
  lemma FullGroupOfBytes(d: seq<byte>, x: seq<byte>) returns (rest: seq<byte>)
    requires |d| >= 4 && |d| % 4 != 1
    requires forall i :: 0 <= i < |d| ==> d[i] < 64
    requires BytesOfDigits(d) == Ok(x)
    ensures |d[4..]| % 4 != 1 && forall i :: 0 <= i < |d[4..]| ==> d[4..][i] < 64
    ensures BytesOfDigits(d[4..]) == Ok(rest)
    ensures |x| >= 3 && x[3..] == rest
    ensures BlockDigits(x[..3]) == d[..4]
  {
    FullGroupDigits(d);
    GroupStep(|d|, 0);
    assert |d[4..]| % 4 != 1;
    assert forall i :: 0 <= i < |d[4..]| ==> d[4..][i] == d[i + 4];
    var u: seq<byte> := [d[0] * 4 + d[1] / 16, d[1] % 16 * 16 + d[2] / 4, d[2] % 4 * 64 + d[3]];
    var r := BytesOfDigits(d[4..]);
    assert Prepend(u, r) == Ok(x);
    PrependOkInverse(u, r);
    rest := r.value;
    assert x == u + rest;
    assert x[..3] == u && x[3..] == rest;
    GroupOfBytes(d[0], d[1], d[2], d[3], u[0], u[1], u[2]);
    assert u == [u[0], u[1], u[2]];
    assert d[..4] == [d[0], d[1], d[2], d[3]];
  }

  lemma LastPairDigits(d: seq<byte>, x: seq<byte>)
    requires |d| == 2 && d[0] < 64 && d[1] < 64
    requires BytesOfDigits(d) == Ok(x)
    ensures EncodedDigits(x) == d
  {
    TwoDigits(d[0], d[1]);
    assert x == [d[0] * 4 + d[1] / 16];
    SingleOfDigits(d[0], d[1], x[0]);
    assert d == [d[0], d[1]];
  }

  lemma SingleOfDigits(d0: byte, d1: byte, a: byte)
    requires d0 < 64 && d1 < 64 && d1 % 16 == 0 && a == d0 * 4 + d1 / 16
    ensures GroupDigits(a, 0, 0)[..2] == [d0, d1]
  {
    GroupDigitsByShifts(a, 0, 0);
    DivMod(a, d0, d1 / 16, 4);
  }

  lemma LastTripleOfBytes(d: seq<byte>, x: seq<byte>)
    requires |d| == 3 && d[0] < 64 && d[1] < 64 && d[2] < 64
    requires BytesOfDigits(d) == Ok(x)
    ensures EncodedDigits(x) == d
  {
    LastTripleDigits(d);
    assert x == [d[0] * 4 + d[1] / 16, d[1] % 16 * 16 + d[2] / 4];
    PairOfDigits(d[0], d[1], d[2], x[0], x[1]);
    assert d == [d[0], d[1], d[2]];
  }

  lemma PairOfDigits(d0: byte, d1: byte, d2: byte, a: byte, b: byte)
    requires d0 < 64 && d1 < 64 && d2 < 64 && d2 % 4 == 0
    requires a == d0 * 4 + d1 / 16 && b == d1 % 16 * 16 + d2 / 4
    ensures GroupDigits(a, b, 0)[..3] == [d0, d1, d2]
  {
    GroupDigitsByShifts(a, b, 0);
    DivMod(a, d0, d1 / 16, 4);
    DivMod(b, d1 % 16, d2 / 4, 16);
  }

  /** The bytes of four digits, split again, are those four digits. */
  lemma GroupOfBytes(d0: byte, d1: byte, d2: byte, d3: byte, a: byte, b: byte, c: byte)
    requires d0 < 64 && d1 < 64 && d2 < 64 && d3 < 64
    requires a == d0 * 4 + d1 / 16 && b == d1 % 16 * 16 + d2 / 4 && c == d2 % 4 * 64 + d3
    ensures GroupDigits(a, b, c) == [d0, d1, d2, d3]
  {
    GroupDigitsByShifts(a, b, c);
    DivMod(a, d0, d1 / 16, 4);
    DivMod(b, d1 % 16, d2 / 4, 16);
    DivMod(c, d2 % 4, d3, 64);
  }

  /** Padding of at most two characters is fixed by the length of the digits
      it completes to a multiple of four. */
  lemma PadFromLength(m: nat, k: nat, p: nat)
    requires k <= 2 && p <= 2
    requires (m + k) % 4 == 0 && (m + p) % 4 == 0
    ensures k == p
  {
  }

  lemma SpellsUnique(s: seq<char>, t: seq<char>, d: seq<byte>, p: nat)
    requires Spells(s, d, p) && Spells(t, d, p)
    ensures s == t
  {
  }

  // ---------------------------------------------------------------------------
  // What the decoder accepts and how it fails

  /** The decoder accepts exactly the encodings. */
  lemma Base64AcceptsEncodings(s: seq<char>)
    ensures Base64Decoded(s).Ok? <==> exists x :: s == Base64Encoded(x)
  {
    if Base64Decoded(s).Ok? {
      Base64Canonical(s, Base64Decoded(s).value);
    }
    if exists x :: s == Base64Encoded(x) {
      var x :| s == Base64Encoded(x);
      Base64RoundTrip(x);
    }
  }

  /** An accepted string carries '=' in its last two positions only. */
  lemma PadOnlyAtEnd(s: seq<char>, i: nat)
    requires Base64Decoded(s).Ok? && i + 2 < |s|
    ensures s[i] != '='
  {
    var x := Base64Decoded(s).value;
    Base64Canonical(s, x);
    EncodingSpellsDigits(x);
    DigitIsNotPad(EncodedDigits(x)[i]);
  }

  /** Reading digits succeeds exactly when every character is in the alphabet. */
  lemma {:induction false} DigitsOfAccepts(t: seq<char>)
    ensures DigitsOf(t).Ok? <==> forall i :: 0 <= i < |t| ==> Base64Value(t[i]).Some?
    decreases |t|
  {
    if t != [] {
      var k := |t| - 1;
      DigitsOfAccepts(t[..k]);
      assert forall i :: 0 <= i < k ==> t[..k][i] == t[i];
    }
  }

  /** A failed read names the first character outside the alphabet. */
  lemma {:induction false} DigitsOfFirstInvalid(t: seq<char>)
    requires DigitsOf(t).Err?
    ensures exists j ::
      && 0 <= j < |t| && DigitsOf(t[..j]).Ok? && Base64Value(t[j]).None?
      && DigitsOf(t) == Err(InvalidChar(t[j]))
    decreases |t|
  {
    var k := |t| - 1;
    if DigitsOf(t[..k]).Err? {
      DigitsOfFirstInvalid(t[..k]);
      var j :| 0 <= j < k && DigitsOf(t[..k][..j]).Ok? && Base64Value(t[..k][j]).None?
        && DigitsOf(t[..k]) == Err(InvalidChar(t[..k][j]));
      assert t[..k][..j] == t[..j];
    } else {
      assert DigitsOf(t[..k]).Ok? && Base64Value(t[k]).None?;
    }
  }

  /** The decoder reports a character outside the alphabet only when one occurs
      before the stripped padding, and then it reports the first one. */
  lemma Base64InvalidChar(s: seq<char>)
    requires Base64Decoded(s).Err? && Base64Decoded(s).error.InvalidChar?
    ensures |s| % 4 == 0 && |s| > 0
    ensures exists j ::
      && 0 <= j < |s| - PadCount(s)
      && (forall i :: 0 <= i < j ==> Base64Value(s[i]).Some?)
      && Base64Value(s[j]).None? && Base64Decoded(s) == Err(InvalidChar(s[j]))
  {
    var t := s[..|s| - PadCount(s)];
    DigitsOfFirstInvalid(t);
    var j :| 0 <= j < |t| && DigitsOf(t[..j]).Ok? && Base64Value(t[j]).None?
      && DigitsOf(t) == Err(InvalidChar(t[j]));
    DigitsOfAccepts(t[..j]);
    assert forall i :: 0 <= i < j ==> t[..j][i] == s[i];
  }

  // ---------------------------------------------------------------------------
  // Hex

  /** `from_hex` undoes `to_hex`, for every byte sequence. */
  lemma {:induction false} HexRoundTrip(x: seq<byte>)
    ensures HexDecoded(HexEncoded(x)) == Ok(x)
  {
    if x != [] {
      HexRoundTrip(x[1..]);
      var s := HexEncoded(x);
      assert s[2..] == HexEncoded(x[1..]);
      FromDigitToDigit(x[0] / 16);
      FromDigitToDigit(x[0] % 16);
      assert [x[0] / 16 * 16 + x[0] % 16] + x[1..] == x;
    }
  }

  lemma FromDigitToDigit(u: byte)
    requires u < 16
    ensures U8FromHex(FromDigit16(u)) == Ok(u)
  {
  }

  /** The digits `to_hex` writes are 0-9 and lower-case a-f. */
  lemma HexLowercase(x: seq<byte>, i: nat)
    requires i < |HexEncoded(x)|
    ensures '0' <= HexEncoded(x)[i] <= '9' || 'a' <= HexEncoded(x)[i] <= 'f'
  {
    HexEncodedNibbles(x);
  }

  /** `from_hex` succeeds exactly on strings of even length made of hex digits of either case. */
  lemma {:induction false} HexAccepts(s: seq<char>)
    ensures HexDecoded(s).Ok? <==>
      |s| % 2 == 0 && forall i :: 0 <= i < |s| ==> ('0' <= s[i] <= '9' || 'a' <= s[i] <= 'f' || 'A' <= s[i] <= 'F')
    decreases |s|
  {
    if |s| % 2 == 0 && s != [] {
      HexAccepts(s[2..]);
      assert forall i :: 2 <= i < |s| ==> s[2..][i - 2] == s[i];
    }
  }

  /** What `from_hex` accepts is the encoding of its result up to the case of the
      letters: decoding accepts upper-case digits, and re-encoding writes them in lower case. */
  lemma {:induction false} HexDecodedLower(s: seq<char>, x: seq<byte>)
    requires HexDecoded(s) == Ok(x)
    ensures |HexEncoded(x)| == |s|
    ensures forall i :: 0 <= i < |s| ==> HexEncoded(x)[i] == LowerHex(s[i])
    decreases |s|
  {
    if s != [] {
      var h, l := U8FromHex(s[0]).value, U8FromHex(s[1]).value;
      var rest := HexPairs(s[2..]).value;
      assert x == [h * 16 + l] + rest;
      HexDecodedLower(s[2..], rest);
      assert x[1..] == rest;
      assert forall i :: 2 <= i < |s| ==> HexEncoded(x)[i] == HexEncoded(rest)[i - 2];
    }
  }
}
