/** The base64 (section 4 of RFC 4648) and hex (section 8 of RFC 4648) codecs of
    the serialize crate. Each imperative routine of the crate is a method proved
    against a functional definition of the encoding; the round trips and the
    error cases are lemmas about those definitions. */
module Serialize {
  import opened Bytes
  import opened Arith

  /** The errors the decoders raise. */
  datatype CodecError =
    | BadLength            // the input length is not a multiple of 4 (base64) or 2 (hex)
    | InvalidChar(c: char) // a character outside the alphabet
    | NotZeroPadded        // the unused low bits of a final partial base64 group are not zero

  /** Digit value to base64 character. */
  const TO_BASE64: seq<char> :=
      ['A', 'B', 'C', 'D', 'E', 'F', 'G', 'H', 'I', 'J']
    + ['K', 'L', 'M', 'N', 'O', 'P', 'Q', 'R', 'S', 'T']
    + ['U', 'V', 'W', 'X', 'Y', 'Z', 'a', 'b', 'c', 'd']
    + ['e', 'f', 'g', 'h', 'i', 'j', 'k', 'l', 'm', 'n']
    + ['o', 'p', 'q', 'r', 's', 't', 'u', 'v', 'w', 'x']
    + ['y', 'z', '0', '1', '2', '3', '4', '5', '6', '7']
    + ['8', '9', '+', '/']

  /** (digit value, character) pairs, ordered by character for binary search. */
  const FROM_BASE64: seq<(byte, char)> :=
      [(62, '+'), (63, '/')]
    + [(52, '0'), (53, '1'), (54, '2'), (55, '3'), (56, '4'), (57, '5'), (58, '6'), (59, '7'), (60, '8'), (61, '9')]
    + [(0, 'A'),  (1, 'B'),  (2, 'C'),  (3, 'D'),  (4, 'E'),  (5, 'F'),  (6, 'G'),  (7, 'H'),  (8, 'I'),  (9, 'J')]
    + [(10, 'K'), (11, 'L'), (12, 'M'), (13, 'N'), (14, 'O'), (15, 'P'), (16, 'Q'), (17, 'R'), (18, 'S'), (19, 'T')]
    + [(20, 'U'), (21, 'V'), (22, 'W'), (23, 'X'), (24, 'Y'), (25, 'Z'), (26, 'a'), (27, 'b'), (28, 'c'), (29, 'd')]
    + [(30, 'e'), (31, 'f'), (32, 'g'), (33, 'h'), (34, 'i'), (35, 'j'), (36, 'k'), (37, 'l'), (38, 'm'), (39, 'n')]
    + [(40, 'o'), (41, 'p'), (42, 'q'), (43, 'r'), (44, 's'), (45, 't'), (46, 'u'), (47, 'v'), (48, 'w'), (49, 'x')]
    + [(50, 'y'), (51, 'z')]

  // ---------------------------------------------------------------------------
  // The base64 alphabet (Table 1 of RFC 4648) and the two tables

  /** The value of a base64 character, as Table 1 of RFC 4648 lists it. */
  function Base64Value(c: char): Option<byte>
  {
    if 'A' <= c <= 'Z' then Some(c as int - 'A' as int)
    else if 'a' <= c <= 'z' then Some(c as int - 'a' as int + 26)
    else if '0' <= c <= '9' then Some(c as int - '0' as int + 52)
    else if c == '+' then Some(62)
    else if c == '/' then Some(63)
    else None
  }

  /** TO_BASE64 lists the upper-case letters, the lower-case letters, the digits, '+' and '/'. */
  lemma ToBase64Layout()
    ensures |TO_BASE64| == 64
    ensures forall v :: 0 <= v < 26 ==> TO_BASE64[v] == ('A' as int + v) as char
    ensures forall v :: 26 <= v < 52 ==> TO_BASE64[v] == ('a' as int + v - 26) as char
    ensures forall v :: 52 <= v < 62 ==> TO_BASE64[v] == ('0' as int + v - 52) as char
    ensures TO_BASE64[62] == '+' && TO_BASE64[63] == '/'
  {
  }

  /** Every entry of TO_BASE64 is the character that Table 1 gives its index. */
  lemma ToBase64Table()
    ensures |TO_BASE64| == 64
    ensures forall v :: 0 <= v < 64 ==> Base64Value(TO_BASE64[v]) == Some(v)
  {
    ToBase64Layout();
  }

  /** FROM_BASE64 lists the '+', '/', digit, upper-case and lower-case rows in that order. */
  lemma FromBase64Layout()
    ensures |FROM_BASE64| == 64
    ensures FROM_BASE64[0] == (62, '+') && FROM_BASE64[1] == (63, '/')
    ensures forall j :: 2 <= j < 12 ==> FROM_BASE64[j] == (j + 50, ('0' as int + j - 2) as char)
    ensures forall j :: 12 <= j < 38 ==> FROM_BASE64[j] == (j - 12, ('A' as int + j - 12) as char)
    ensures forall j :: 38 <= j < 64 ==> FROM_BASE64[j] == (j - 12, ('a' as int + j - 38) as char)
  {
    FromBase64UpperRows();
    FromBase64LowerRows();
  }

  lemma FromBase64UpperRows()
    ensures |FROM_BASE64| == 64
    ensures forall j :: 12 <= j < 38 ==> FROM_BASE64[j] == (j - 12, ('A' as int + j - 12) as char)
  {
  }

  lemma FromBase64LowerRows()
    ensures |FROM_BASE64| == 64
    ensures forall j :: 38 <= j < 64 ==> FROM_BASE64[j] == (j - 12, ('a' as int + j - 38) as char)
  {
  }

  ghost predicate SortedByChar(t: seq<(byte, char)>)
  {
    forall i, j :: 0 <= i < j < |t| ==> t[i].1 < t[j].1
  }

  /** FROM_BASE64 is strictly sorted by character, as binary search needs, and pairs
      each character of the alphabet with its value. */
  lemma FromBase64Table()
    ensures |FROM_BASE64| == 64 && SortedByChar(FROM_BASE64)
    ensures forall i :: 0 <= i < 64 ==> Base64Value(FROM_BASE64[i].1) == Some(FROM_BASE64[i].0)
  {
    FromBase64Layout();
  }

  /** FROM_BASE64 is the inverse of TO_BASE64. */
  lemma FromBase64TableInverse()
    ensures |FROM_BASE64| == 64 && |TO_BASE64| == 64
    ensures forall i :: 0 <= i < 64 ==> FROM_BASE64[i].0 < 64
    ensures forall i :: 0 <= i < 64 ==> TO_BASE64[FROM_BASE64[i].0] == FROM_BASE64[i].1
  {
    FromBase64Table();
    ToBase64Table();
    forall i | 0 <= i < 64
      ensures TO_BASE64[FROM_BASE64[i].0] == FROM_BASE64[i].1
    {
      var v := FROM_BASE64[i].0;
      Base64ValueInjective(TO_BASE64[v], FROM_BASE64[i].1);
    }
  }

  lemma Base64ValueInjective(c: char, d: char)
    requires Base64Value(c).Some? && Base64Value(c) == Base64Value(d)
    ensures c == d
  {
  }

  /** The position of a base64 character in FROM_BASE64. */
  function FromBase64Index(c: char): (i: nat)
    requires Base64Value(c).Some?
    ensures i < 64 && FROM_BASE64[i] == (Base64Value(c).value, c)
  {
    FromBase64Layout();
    if c == '+' then 0
    else if c == '/' then 1
    else if '0' <= c <= '9' then c as int - '0' as int + 2
    else if 'A' <= c <= 'Z' then c as int - 'A' as int + 12
    else c as int - 'a' as int + 38
  }

  // ---------------------------------------------------------------------------
  // Single digits

  /** `u8_to_base64`: the character of a digit value; the source asserts the value is below 64. */
  function U8ToBase64(u: byte): char
    requires u < 64
  {
    if u < 26 then ('A' as int + u) as char
    else if u < 52 then ('a' as int + u - 26) as char
    else if u < 62 then ('0' as int + u - 52) as char
    else if u == 62 then '+' else '/'
  }

  /** The character U8ToBase64 gives a digit value is the entry of TO_BASE64 at that
      index, and Table 1 of RFC 4648 gives it back that value. */
  lemma U8ToBase64Table(u: byte)
    requires u < 64
    ensures U8ToBase64(u) == TO_BASE64[u]
    ensures Base64Value(U8ToBase64(u)) == Some(u)
  {
    ToBase64Layout();
  }

  lemma U8ToBase64Value(u: byte)
    requires u < 64
    ensures Base64Value(U8ToBase64(u)) == Some(u)
  {
  }

  /** `binary_search_by` on a table strictly ordered by character: the index of the
      entry for c, or None when the table has no entry for c. */
  method BinarySearchByChar(t: seq<(byte, char)>, c: char) returns (r: Option<nat>)
    requires SortedByChar(t)
    ensures r.Some? ==> r.value < |t| && t[r.value].1 == c
    ensures r.None? ==> forall i :: 0 <= i < |t| ==> t[i].1 != c
  {
    var lo, hi := 0, |t|;
    while lo < hi
      invariant 0 <= lo <= hi <= |t|
      invariant forall i :: 0 <= i < lo ==> t[i].1 != c
      invariant forall i :: hi <= i < |t| ==> t[i].1 != c
      decreases hi - lo
    {
      var mid := lo + (hi - lo) / 2;
      if t[mid].1 < c {
        lo := mid + 1;
      } else if c < t[mid].1 {
        hi := mid;
      } else {
        return Some(mid);
      }
    }
    return None;
  }

  /** `u8_from_base64`: the digit value of a character, found by binary search in
      FROM_BASE64; a character the table lacks is an error. The result is the value
      Table 1 of RFC 4648 gives. */
  method U8FromBase64(c: char) returns (r: Result<byte, CodecError>)
    ensures Base64Value(c).Some? ==> r == Ok(Base64Value(c).value)
    ensures Base64Value(c).None? ==> r == Err(InvalidChar(c))
  {
    FromBase64Table();
    var i := BinarySearchByChar(FROM_BASE64, c);
    match i
    case Some(k) =>
      r := Ok(FROM_BASE64[k].0);
    case None =>
      Base64AlphabetInTable(c);
      r := Err(InvalidChar(c));
  }

  /** Every character of the alphabet has an entry in FROM_BASE64. */
  lemma Base64AlphabetInTable(c: char)
    ensures Base64Value(c).Some? ==> exists i :: 0 <= i < |FROM_BASE64| && FROM_BASE64[i].1 == c
  {
    if Base64Value(c).Some? {
      var k := FromBase64Index(c);
      assert FROM_BASE64[k].1 == c;
    }
  }

  /** Digit values and characters are in one-to-one correspondence: U8ToBase64 and
      Table 1 of RFC 4648 are inverse to each other. */
  lemma Base64DigitRoundTrip(v: byte, c: char)
    requires v < 64
    ensures Base64Value(U8ToBase64(v)) == Some(v)
    ensures Base64Value(c) == Some(v) ==> U8ToBase64(v) == c
  {
    U8ToBase64Value(v);
    if Base64Value(c) == Some(v) {
      Base64ValueInjective(c, U8ToBase64(v));
    }
  }

  // ---------------------------------------------------------------------------
  // Base64 encoding

  /** The four base64 digits of the 24-bit group a b c, most significant first. */
  function GroupDigits(a: byte, b: byte, c: byte): (d: seq<byte>)
    ensures |d| == 4 && forall i :: 0 <= i < 4 ==> d[i] < 64
  {
    var v := a as int * 65536 + b as int * 256 + c;
    [v / 262144, v / 4096 % 64, v / 64 % 64, v % 64]
  }

  /** The four characters of the zero-filled 24-bit group of a block of one to three bytes. */
  function BlockChars(block: seq<byte>): (q: seq<char>)
    requires 1 <= |block| <= 3
    ensures |q| == 4
  {
    var d := BlockDigits(block);
    [U8ToBase64(d[0]), U8ToBase64(d[1]), U8ToBase64(d[2]), U8ToBase64(d[3])]
  }

  /** Base64 of x as section 4 of RFC 4648 defines it: each group of three bytes
      becomes four characters; a final group of one or two bytes is filled with
      zero bits and its missing characters are replaced by '='. */
  function Base64Encoded(x: seq<byte>): (s: seq<char>)
    ensures |s| == 4 * Groups(|x|)
  {
    if |x| == 0 then []
    else if |x| == 1 then BlockChars(x)[..2] + ['=', '=']
    else if |x| == 2 then BlockChars(x)[..3] + ['=']
    else BlockChars(x[..3]) + Base64Encoded(x[3..])
  }

  /** The digits of a block of one to three bytes, missing bytes counted as zero. */
  function BlockDigits(block: seq<byte>): (d: seq<byte>)
    requires 1 <= |block| <= 3
    ensures |d| == 4 && forall i :: 0 <= i < 4 ==> d[i] < 64
  {
    GroupDigits(block[0], if |block| >= 2 then block[1] else 0, if |block| == 3 then block[2] else 0)
  }

  /** `block_to_base64`: appends to `base64` the four digits of a block of one to
      three bytes (missing bytes count as zero); any other block appends nothing. */
  method BlockToBase64(block: seq<byte>, base64: seq<char>) returns (out: seq<char>)
    ensures 1 <= |block| <= 3 ==> out == base64 + BlockChars(block)
    ensures !(1 <= |block| <= 3) ==> out == base64
  {
    var a: byte, b: byte, c: byte;
    if |block| == 3 {
      a, b, c := block[0], block[1], block[2];
    } else if |block| == 2 {
      a, b, c := block[0], block[1], 0;
    } else if |block| == 1 {
      a, b, c := block[0], 0, 0;
    } else {
      return base64;
    }
    ghost var d := BlockDigits(block);
    assert d == [a / 4, a % 4 * 16 + b / 16, b % 16 * 4 + c / 64, c % 64] by {
      GroupDigitsByShifts(a, b, c);
    }
    out := base64;
    out := out + [U8ToBase64(a / 4)];                 // upper 6 bits of a
    out := out + [U8ToBase64(a % 4 * 16 + b / 16)];   // lower 2 bits of a, upper 4 bits of b
    out := out + [U8ToBase64(b % 16 * 4 + c / 64)];   // lower 4 bits of b, upper 2 bits of c
    out := out + [U8ToBase64(c % 64)];                // lower 6 bits of c
    assert out[|base64|..] == BlockChars(block);
  }

  /** The shifts and masks of `block_to_base64` compute the digits of the 24-bit group. */
  lemma GroupDigitsByShifts(a: byte, b: byte, c: byte)
    ensures GroupDigits(a, b, c) == [a / 4, a % 4 * 16 + b / 16, b % 16 * 4 + c / 64, c % 64]
  {
    var v := a as int * 65536 + b as int * 256 + c;
    var d0: int, d1: int, d2: int, d3: int := a / 4, a % 4 * 16 + b / 16, b % 16 * 4 + c / 64, c % 64;
    assert v == ((d0 * 64 + d1) * 64 + d2) * 64 + d3;
    DivMod(v, d0, (d1 * 64 + d2) * 64 + d3, 262144);
    DivMod(v, d0 * 64 + d1, d2 * 64 + d3, 4096);
    DivMod(d0 * 64 + d1, d0, d1, 64);
    DivMod(v, (d0 * 64 + d1) * 64 + d2, d3, 64);
    DivMod((d0 * 64 + d1) * 64 + d2, d0 * 64 + d1, d2, 64);
  }

  /** The characters of x before the '=' substitution: every chunk of up to three
      bytes gives the four digits of its zero-filled group. */
  function FilledChars(x: seq<byte>): (s: seq<char>)
    ensures |s| == 4 * Groups(|x|)
    decreases |x|
  {
    if |x| == 0 then []
    else if |x| < 3 then BlockChars(x)
    else BlockChars(x[..3]) + FilledChars(x[3..])
  }

  /** The encoding is the zero-filled characters with the last PadLength(|x|) of them
      replaced by '='. */
  lemma {:induction false} Base64EncodedFilled(x: seq<byte>)
    ensures PadLength(|x|) <= |FilledChars(x)|
    ensures Base64Encoded(x) ==
      FilledChars(x)[..|FilledChars(x)| - PadLength(|x|)] + Repeat('=', PadLength(|x|))
    decreases |x|
  {
    if |x| == 0 {
    } else if |x| < 3 {
      Base64EncodedFilledShort(x);
    } else {
      Base64EncodedFilled(x[3..]);
      PadLengthStep(|x|);
      ReplaceLastAppend(BlockChars(x[..3]), FilledChars(x[3..]), PadLength(|x|));
    }
  }

  lemma Base64EncodedFilledShort(x: seq<byte>)
    requires 1 <= |x| < 3
    ensures PadLength(|x|) <= |FilledChars(x)|
    ensures Base64Encoded(x) ==
      FilledChars(x)[..|FilledChars(x)| - PadLength(|x|)] + Repeat('=', PadLength(|x|))
  {
    if |x| == 1 {
      assert Repeat('=', 2) == ['=', '='];
    } else {
      assert Repeat('=', 1) == ['='];
    }
  }

  lemma PadLengthStep(n: nat)
    requires n >= 3
    ensures PadLength(n) == PadLength(n - 3)
  {
  }

  lemma ReplaceLastAppend(head: seq<char>, g: seq<char>, p: nat)
    requires p <= |g|
    ensures (head + g)[..|head + g| - p] + Repeat('=', p) == head + (g[..|g| - p] + Repeat('=', p))
  {
    assert (head + g)[..|head + g| - p] == head + g[..|g| - p];
  }

  /** `to_base64`: encodes every three-byte chunk with BlockToBase64, then replaces
      the zero-filled digits of a final partial chunk by '='. */
  method ToBase64(x: seq<byte>) returns (base64: seq<char>)
    ensures base64 == Base64Encoded(x)
  {
    base64 := [];
    var i := 0;
    while i < |x|
      invariant 0 <= i <= |x|
      invariant base64 + FilledChars(x[i..]) == FilledChars(x)
    {
      var n := Min(3, |x| - i);
      var block := x[i..i + n];
      FilledCharsChunk(x, i, n);
      ghost var before := base64;
      base64 := BlockToBase64(block, base64);
      AppendAssoc(before, BlockChars(block), FilledChars(x[i + n..]));
      i := i + n;
    }
    assert x[i..] == [];
    assert base64 == FilledChars(x);
    Base64EncodedFilled(x);
    PadLengthMod(|x|);
    ReplaceLast(Base64Encoded(x), base64, PadLength(|x|));
    if |x| % 3 >= 1 {
      base64 := base64[..|base64| - 1];
      if |x| % 3 == 1 {
        base64 := base64[..|base64| - 1];
        base64 := base64 + ['='];
      }
      base64 := base64 + ['='];
    }
  }

  lemma AppendAssoc<T>(a: seq<T>, b: seq<T>, c: seq<T>)
    ensures (a + b) + c == a + (b + c)
  {
  }

  /** One step of the loop of `to_base64`: the next chunk of at most three bytes. */
  lemma FilledCharsChunk(x: seq<byte>, i: nat, n: nat)
    requires i < |x| && n == Min(3, |x| - i)
    ensures FilledChars(x[i..]) == BlockChars(x[i..i + n]) + FilledChars(x[i + n..])
  {
    if n == 3 {
      assert x[i..][..3] == x[i..i + 3];
      assert x[i..][3..] == x[i + 3..];
    } else {
      assert x[i..] == x[i..i + n];
      assert x[i + n..] == [];
    }
  }

  /** The '=' substitution of `to_base64`, by the number of '=' it writes. */
  lemma ReplaceLast(e: seq<char>, f: seq<char>, p: nat)
    requires p <= 2 && p <= |f|
    requires e == f[..|f| - p] + Repeat('=', p)
    ensures p == 0 ==> e == f
    ensures p == 1 ==> e == f[..|f| - 1] + ['=']
    ensures p == 2 ==> e == f[..|f| - 1][..|f| - 2] + ['='] + ['=']
  {
    if p == 2 {
      assert f[..|f| - 1][..|f| - 2] == f[..|f| - 2];
      assert Repeat('=', 2) == ['='] + ['='];
    } else if p == 1 {
      assert Repeat('=', 1) == ['='];
    } else {
      assert f[..|f|] == f;
      assert Repeat('=', 0) == [];
    }
  }

  /** Encoding in two steps: encoding a whole number of groups and then the rest
      is encoding the concatenation. */
  lemma {:induction false} Base64EncodedAppend(x: seq<byte>, y: seq<byte>)
    requires |x| % 3 == 0
    ensures Base64Encoded(x + y) == Base64Encoded(x) + Base64Encoded(y)
    decreases |x|
  {
    if |x| != 0 {
      assert (x + y)[3..] == x[3..] + y;
      Base64EncodedAppend(x[3..], y);
    } else {
      assert x + y == y;
    }
  }

  /** The number of '=' characters that close the encoding of n bytes. */
  function PadLength(n: nat): (p: nat)
    ensures p <= 2
  {
    if n >= 3 then PadLength(n - 3) else if n == 0 then 0 else 3 - n
  }

  /** The number of four-character groups that n bytes encode to: n / 3 rounded up. */
  function Groups(n: nat): nat
  {
    if n == 0 then 0 else 1 + Groups(if n >= 3 then n - 3 else 0)
  }

  lemma {:induction false} GroupsDiv(n: nat)
    ensures Groups(n) == (n + 2) / 3
  {
    if n >= 3 {
      GroupsDiv(n - 3);
    }
  }

  lemma {:induction false} PadLengthMod(n: nat)
    ensures n % 3 == 0 ==> PadLength(n) == 0
    ensures n % 3 == 1 ==> PadLength(n) == 2
    ensures n % 3 == 2 ==> PadLength(n) == 1
  {
    if n >= 3 {
      PadLengthMod(n - 3);
    }
  }

  /** s is p characters of '=' preceded by characters of the alphabet. */
  ghost predicate PaddedBy(s: seq<char>, p: nat)
  {
    && p <= |s|
    && (forall i :: 0 <= i < |s| - p ==> Base64Value(s[i]).Some?)
    && (forall i :: |s| - p <= i < |s| ==> s[i] == '=')
  }

  /** The encoding ends in "==" when |x| % 3 == 1, in "=" when |x| % 3 == 2 and in
      no padding otherwise; every character before the padding is in the alphabet. */
  lemma {:induction false} Base64EncodedPadding(x: seq<byte>)
    ensures PaddedBy(Base64Encoded(x), PadLength(|x|))
    decreases |x|
  {
    if |x| == 0 {
    } else if |x| < 3 {
      BlockCharsInAlphabet(x);
    } else {
      Base64EncodedPadding(x[3..]);
      BlockCharsInAlphabet(x[..3]);
      PaddedByAppend(BlockChars(x[..3]), Base64Encoded(x[3..]), PadLength(|x|));
    }
  }

  lemma PaddedByAppend(head: seq<char>, rest: seq<char>, p: nat)
    requires forall i :: 0 <= i < |head| ==> Base64Value(head[i]).Some?
    requires PaddedBy(rest, p)
    ensures PaddedBy(head + rest, p)
  {
  }

  /** The characters of a block are the alphabet characters of its digits. */
  lemma BlockCharsInAlphabet(x: seq<byte>)
    requires 1 <= |x| <= 3
    ensures forall i :: 0 <= i < 4 ==> Base64Value(BlockChars(x)[i]) == Some(BlockDigits(x)[i])
  {
    var d := BlockDigits(x);
    U8ToBase64Value(d[0]);
    U8ToBase64Value(d[1]);
    U8ToBase64Value(d[2]);
    U8ToBase64Value(d[3]);
  }

  // ---------------------------------------------------------------------------
  // Base64 decoding

  /** The number of trailing '=' that `from_base64` strips: two, one or none. */
  function PadCount(s: seq<char>): (k: nat)
    requires |s| >= 2
    ensures k <= 2
    ensures k >= 1 <==> s[|s| - 1] == '='
  {
    if s[|s| - 1] == '=' then (if s[|s| - 2] == '=' then 2 else 1) else 0
  }

  /** The digit values of s by Table 1 of RFC 4648, or the error for the first
      character outside the alphabet. */
  function DigitsOf(s: seq<char>): (r: Result<seq<byte>, CodecError>)
    ensures r.Ok? ==> |r.value| == |s| && forall i :: 0 <= i < |s| ==> r.value[i] < 64
    ensures r.Err? ==> r.error.InvalidChar?
  {
    if s == [] then Ok([])
    else
      match DigitsOf(s[..|s| - 1])
      case Err(e) => Err(e)
      case Ok(d) =>
        match Base64Value(s[|s| - 1])
        case None => Err(InvalidChar(s[|s| - 1]))
        case Some(v) => Ok(d + [v])
  }

  /** The bytes of a sequence of digits taken four at a time, as section 4 of RFC 4648
      defines them: four digits are a 24-bit group of three bytes; a final group of
      two or three digits carries one or two bytes, and its unused low bits must be zero. */
  function BytesOfDigits(d: seq<byte>): (r: Result<seq<byte>, CodecError>)
    requires |d| % 4 != 1
    requires forall i :: 0 <= i < |d| ==> d[i] < 64
    ensures r.Err? ==> r.error == NotZeroPadded
  {
    if |d| == 0 then Ok([])
    else if |d| == 2 then
      var v := d[0] as int * 64 + d[1];
      if v % 16 != 0 then Err(NotZeroPadded) else Ok([v / 16])
    else if |d| == 3 then
      var v := d[0] as int * 4096 + d[1] as int * 64 + d[2];
      if v % 4 != 0 then Err(NotZeroPadded) else Ok([v / 1024, v / 4 % 256])
    else
      var v := d[0] as int * 262144 + d[1] as int * 4096 + d[2] as int * 64 + d[3];
      Prepend([v / 65536, v / 256 % 256, v % 256], BytesOfDigits(d[4..]))
  }

  function Prepend(u: seq<byte>, r: Result<seq<byte>, CodecError>): Result<seq<byte>, CodecError>
  {
    match r
    case Ok(rest) => Ok(u + rest)
    case Err(e) => Err(e)
  }

  /** Base64 decoding: the length check, then the digits of s without its trailing
      padding, then the bytes of those digits. The empty string decodes to no bytes. */
  function Base64Decoded(s: seq<char>): (r: Result<seq<byte>, CodecError>)
    ensures r == Err(BadLength) <==> |s| % 4 != 0
  {
    if |s| % 4 != 0 then Err(BadLength)
    else if |s| == 0 then Ok([])
    else
      match DigitsOf(s[..|s| - PadCount(s)])
      case Err(e) => Err(e)
      case Ok(d) => BytesOfDigits(d)
  }

  /** `from_base64`: checks the length, strips one or two trailing '=', converts every
      remaining character with U8FromBase64 and assembles the bytes four digits at a
      time with shifts. The source indexes the last character of its argument, so the
      empty string is outside its domain. */
  method FromBase64(s: seq<char>) returns (r: Result<seq<byte>, CodecError>)
    requires |s| > 0
    ensures r == Base64Decoded(s)
  {
    if |s| % 4 != 0 {
      return Err(BadLength);
    }
    var n := |s|;
    if s[n - 1] == '=' {
      if s[n - 2] == '=' {
        n := n - 1;
      }
      n := n - 1;
    }
    assert n == |s| - PadCount(s);

    var digits: seq<byte> := [];
    var i := 0;
    while i < n
      invariant 0 <= i <= n
      invariant DigitsOf(s[..i]) == Ok(digits)
    {
      var d := U8FromBase64(s[i]);
      if d.Err? {
        DigitsOfFirstError(s, n, i);
        return Err(d.error);
      }
      DigitsOfSnoc(s, i, digits);
      digits := digits + [d.value];
      i := i + 1;
    }
    assert s[..i] == s[..n];
    assert Base64Decoded(s) == BytesOfDigits(digits);
    r := BytesFromDigits(digits);
  }

  /** The encoding of no bytes is the empty string, which `from_base64` as written cannot
      take: the round trip breaks at the very input its partner produces. */
  lemma EmptyEncodingOutsideDomain()
    ensures Base64Encoded([]) == []
    ensures !(|Base64Encoded([])| > 0)
  {
  }

  /** `from_base64` as evidently intended: total, with the empty string decoding to no
      bytes, so that it inverts `to_base64` on every input. */
  method DecodeBase64(s: seq<char>) returns (r: Result<seq<byte>, CodecError>)
    ensures r == Base64Decoded(s)
    ensures s == [] ==> r == Ok([])
  {
    if |s| == 0 {
      return Ok([]);
    }
    r := FromBase64(s);
  }

  /** The second half of `from_base64`: each group of up to four digits
      becomes up to three bytes, and the bits a short group leaves over
      must be zero. */
  method BytesFromDigits(digits: seq<byte>) returns (r: Result<seq<byte>, CodecError>)
    requires |digits| % 4 != 1
    requires forall i :: 0 <= i < |digits| ==> digits[i] < 64
    ensures r == BytesOfDigits(digits)
  {
    var u: seq<byte> := [];
    var j := 0;
    assert digits[j..] == digits;
    PrependNil(BytesOfDigits(digits));
    while j < |digits|
      invariant 0 <= j <= |digits| && j % 4 == 0 && (|digits| - j) % 4 != 1
      invariant Prepend(u, BytesOfDigits(digits[j..])) == BytesOfDigits(digits)
      decreases |digits| - j
    {
      var b := digits[j..Min(j + 4, |digits|)];
      ChunkLength(j, |digits|);
      // The u8 shifts in closed form: `x << 2` is x * 4, `x << 4` keeps x % 16 and
      // `x << 6` keeps x % 4; the zero checks are those of section 4 of RFC 4648.
      if |b| == 2 {
        assert digits[j..] == b;
        PairAfter(u, b, BytesOfDigits(digits));
      } else if |b| == 3 {
        assert digits[j..] == b;
        TripleAfter(u, b, BytesOfDigits(digits));
      } else {
        assert digits[j..][..4] == b && digits[j..][4..] == digits[j + 4..];
        GroupStep(|digits|, j);
        GroupAfter(u, digits[j..], b, digits[j + 4..], BytesOfDigits(digits));
      }
      var c0: byte := b[0] as int * 4 % 256 + b[1] / 16;
      u := u + [c0];
      if |b| == 2 {
        if b[1] as int * 16 % 256 != 0 {
          return Err(NotZeroPadded);
        }
        break;
      }
      var c1: byte := b[1] as int * 16 % 256 + b[2] / 4;
      u := u + [c1];
      if |b| == 3 {
        if b[2] as int * 64 % 256 != 0 {
          return Err(NotZeroPadded);
        }
        break;
      }
      var c2: byte := b[2] as int * 64 % 256 + b[3];
      u := u + [c2];
      j := j + 4;
    }
    if j == |digits| {
      assert digits[j..] == [];
      PrependEmpty(u, BytesOfDigits(digits));
    }
    return Ok(u);
  }

  lemma GroupStep(n: int, j: int)
    requires j % 4 == 0 && (n - j) % 4 != 1
    ensures (j + 4) % 4 == 0 && (n - (j + 4)) % 4 != 1
  {
  }

  /** The invariant of the digit loop of `from_base64` at a final chunk of two digits. */
  lemma PairAfter(u: seq<byte>, b: seq<byte>, whole: Result<seq<byte>, CodecError>)
    requires |b| == 2 && b[0] < 64 && b[1] < 64
    requires Prepend(u, BytesOfDigits(b)) == whole
    ensures b[0] as int * 4 % 256 + b[1] / 16 < 256
    ensures whole ==
      if b[1] as int * 16 % 256 != 0 then Err(NotZeroPadded)
      else Ok(u + [b[0] as int * 4 % 256 + b[1] / 16])
  {
    LastPair(b);
  }

  /** The invariant of the digit loop of `from_base64` at a final chunk of three digits. */
  lemma TripleAfter(u: seq<byte>, b: seq<byte>, whole: Result<seq<byte>, CodecError>)
    requires |b| == 3 && b[0] < 64 && b[1] < 64 && b[2] < 64
    requires Prepend(u, BytesOfDigits(b)) == whole
    ensures b[0] as int * 4 % 256 + b[1] / 16 < 256
    ensures b[1] as int * 16 % 256 + b[2] / 4 < 256
    ensures whole ==
      if b[2] as int * 64 % 256 != 0 then Err(NotZeroPadded)
      else Ok(u + [b[0] as int * 4 % 256 + b[1] / 16] + [b[1] as int * 16 % 256 + b[2] / 4])
  {
    LastTriple(b);
    var c0: byte, c1: byte := b[0] as int * 4 % 256 + b[1] / 16, b[1] as int * 16 % 256 + b[2] / 4;
    assert u + [c0] + [c1] == u + [c0, c1];
  }

  /** The invariant of the digit loop of `from_base64` across a chunk of four digits. */
  lemma GroupAfter(u: seq<byte>, d: seq<byte>, b: seq<byte>, rest: seq<byte>, whole: Result<seq<byte>, CodecError>)
    requires |d| >= 4 && |d| % 4 != 1 && d[..4] == b && d[4..] == rest && |rest| % 4 != 1
    requires forall i :: 0 <= i < |d| ==> d[i] < 64
    requires Prepend(u, BytesOfDigits(d)) == whole
    ensures b[0] as int * 4 % 256 + b[1] / 16 < 256
    ensures b[1] as int * 16 % 256 + b[2] / 4 < 256
    ensures b[2] as int * 64 % 256 + b[3] < 256
    ensures forall i :: 0 <= i < |rest| ==> rest[i] < 64
    ensures Prepend(u + [b[0] as int * 4 % 256 + b[1] / 16] + [b[1] as int * 16 % 256 + b[2] / 4]
      + [b[2] as int * 64 % 256 + b[3]], BytesOfDigits(rest)) == whole
  {
    assert b[0] == d[0] && b[1] == d[1] && b[2] == d[2] && b[3] == d[3];
    FullGroup(d);
    forall i | 0 <= i < |rest|
      ensures rest[i] < 64
    {
      assert rest[i] == d[i + 4];
    }
    var c0: byte, c1: byte, c2: byte := d[0] as int * 4 % 256 + d[1] / 16, d[1] as int * 16 % 256 + d[2] / 4, d[2] as int * 64 % 256 + d[3];
    PrependAssoc(u, [c0, c1, c2], BytesOfDigits(rest));
    assert u + [c0] + [c1] + [c2] == u + [c0, c1, c2];
  }

  lemma PrependEmpty(u: seq<byte>, whole: Result<seq<byte>, CodecError>)
    requires Prepend(u, BytesOfDigits([])) == whole
    ensures whole == Ok(u)
  {
    assert u + [] == u;
  }

  lemma PrependOkInverse(u: seq<byte>, r: Result<seq<byte>, CodecError>)
    requires Prepend(u, r).Ok?
    ensures r.Ok? && Prepend(u, r).value == u + r.value
  {
  }

  lemma PrependNil(r: Result<seq<byte>, CodecError>)
    ensures Prepend([], r) == r
  {
    if r.Ok? {
      assert [] + r.value == r.value;
    }
  }

  lemma PrependAssoc(a: seq<byte>, b: seq<byte>, r: Result<seq<byte>, CodecError>)
    ensures Prepend(a, Prepend(b, r)) == Prepend(a + b, r)
  {
    if r.Ok? {
      assert a + (b + r.value) == (a + b) + r.value;
    }
  }

  /** One more character of the digit loop of `from_base64`. */
  lemma DigitsOfSnoc(s: seq<char>, i: nat, d: seq<byte>)
    requires i < |s| && DigitsOf(s[..i]) == Ok(d) && Base64Value(s[i]).Some?
    ensures DigitsOf(s[..i + 1]) == Ok(d + [Base64Value(s[i]).value])
  {
    assert s[..i + 1][..i] == s[..i];
  }

  /** The first character outside the alphabet decides the error of DigitsOf. */
  lemma {:induction false} DigitsOfFirstError(s: seq<char>, n: nat, i: nat)
    requires i < n <= |s|
    requires DigitsOf(s[..i]).Ok? && Base64Value(s[i]).None?
    ensures DigitsOf(s[..n]) == Err(InvalidChar(s[i]))
    decreases n
  {
    if n == i + 1 {
      assert s[..n][..n - 1] == s[..i];
    } else {
      DigitsOfFirstError(s, n - 1, i);
      assert s[..n][..n - 1] == s[..n - 1];
    }
  }

  /** A chunk of `digits.chunks(4)` holds two to four digits: a single leftover digit
      is excluded by the length check. */
  lemma ChunkLength(j: nat, n: nat)
    requires j < n && (n - j) % 4 != 1
    ensures 2 <= Min(j + 4, n) - j <= 4
  {
  }

  /** A final group of two digits: one byte, and four bits that must be zero. */
  lemma LastPair(b: seq<byte>)
    requires |b| == 2 && b[0] < 64 && b[1] < 64
    ensures b[0] as int * 4 % 256 + b[1] / 16 < 256
    ensures BytesOfDigits(b) ==
      if b[1] as int * 16 % 256 != 0 then Err(NotZeroPadded)
      else Ok([b[0] as int * 4 % 256 + b[1] / 16])
  {
    DigitShifts(b[0]);
    DigitShifts(b[1]);
    TwoDigits(b[0], b[1]);
  }

  /** A final group of three digits: two bytes, and two bits that must be zero. */
  lemma LastTriple(b: seq<byte>)
    requires |b| == 3 && b[0] < 64 && b[1] < 64 && b[2] < 64
    ensures b[0] as int * 4 % 256 + b[1] / 16 < 256
    ensures b[1] as int * 16 % 256 + b[2] / 4 < 256
    ensures BytesOfDigits(b) ==
      if b[2] as int * 64 % 256 != 0 then Err(NotZeroPadded)
      else Ok([b[0] as int * 4 % 256 + b[1] / 16, b[1] as int * 16 % 256 + b[2] / 4])
  {
    LastTripleDigits(b);
    DigitShifts(b[0]);
    DigitShifts(b[1]);
    DigitShifts(b[2]);
  }

  lemma LastTripleDigits(b: seq<byte>)
    requires |b| == 3 && b[0] < 64 && b[1] < 64 && b[2] < 64
    ensures BytesOfDigits(b) ==
      if b[2] % 4 != 0 then Err(NotZeroPadded)
      else Ok([b[0] * 4 + b[1] / 16, b[1] % 16 * 16 + b[2] / 4])
  {
    ThreeDigits(b[0], b[1], b[2]);
  }

  /** A full group of four digits: three bytes, then the rest of the digits. */
  lemma FullGroup(d: seq<byte>)
    requires |d| >= 4 && |d| % 4 != 1
    requires forall i :: 0 <= i < |d| ==> d[i] < 64
    ensures d[0] as int * 4 % 256 + d[1] / 16 < 256
    ensures d[1] as int * 16 % 256 + d[2] / 4 < 256
    ensures d[2] as int * 64 % 256 + d[3] < 256
    ensures BytesOfDigits(d) ==
      Prepend([d[0] as int * 4 % 256 + d[1] / 16, d[1] as int * 16 % 256 + d[2] / 4, d[2] as int * 64 % 256 + d[3]],
        BytesOfDigits(d[4..]))
  {
    FullGroupDigits(d);
    DigitShifts(d[0]);
    DigitShifts(d[1]);
    DigitShifts(d[2]);
    assert d[0] as int * 4 % 256 == d[0] * 4;
    assert d[1] as int * 16 % 256 == d[1] % 16 * 16;
    assert d[2] as int * 64 % 256 == d[2] % 4 * 64;
  }

  lemma FullGroupDigits(d: seq<byte>)
    requires |d| >= 4 && |d| % 4 != 1
    requires forall i :: 0 <= i < |d| ==> d[i] < 64
    ensures d[0] < 64 && d[1] < 64 && d[2] < 64 && d[3] < 64
    ensures BytesOfDigits(d) ==
      Prepend([d[0] * 4 + d[1] / 16, d[1] % 16 * 16 + d[2] / 4, d[2] % 4 * 64 + d[3]], BytesOfDigits(d[4..]))
  {
    assert d[0] < 64 && d[1] < 64 && d[2] < 64 && d[3] < 64;
    var v := d[0] as int * 262144 + d[1] as int * 4096 + d[2] as int * 64 + d[3];
    FourDigits(d[0], d[1], d[2], d[3]);
    assert [v / 65536, v / 256 % 256, v % 256]
      == [d[0] * 4 + d[1] / 16, d[1] % 16 * 16 + d[2] / 4, d[2] % 4 * 64 + d[3]];
  }

  lemma TwoDigits(d0: byte, d1: byte)
    requires d0 < 64 && d1 < 64
    ensures (d0 as int * 64 + d1) % 16 == d1 % 16
    ensures (d0 as int * 64 + d1) / 16 == d0 * 4 + d1 / 16
  {
    DivMod(d0 as int * 64 + d1, d0 * 4 + d1 / 16, d1 % 16, 16);
  }

  /** The bytes and the zero check of a final group of three digits. */
  lemma ThreeDigits(d0: byte, d1: byte, d2: byte)
    requires d0 < 64 && d1 < 64 && d2 < 64
    ensures (d0 as int * 4096 + d1 as int * 64 + d2) % 4 == d2 % 4
    ensures (d0 as int * 4096 + d1 as int * 64 + d2) / 1024 == d0 * 4 + d1 / 16
    ensures (d0 as int * 4096 + d1 as int * 64 + d2) / 4 % 256 == d1 % 16 * 16 + d2 / 4
  {
    var v := d0 as int * 4096 + d1 as int * 64 + d2;
    var a, b, c := d0 * 4 + d1 / 16, d1 % 16 * 16 + d2 / 4, d2 % 4;
    assert v == (a * 256 + b) * 4 + c;
    DivMod(v, a * 256 + b, c, 4);
    DivMod(a * 256 + b, a, b, 256);
    DivMod(v, a, b * 4 + c, 1024);
  }

  /** The three bytes of a group of four digits. */
  lemma FourDigits(d0: byte, d1: byte, d2: byte, d3: byte)
    requires d0 < 64 && d1 < 64 && d2 < 64 && d3 < 64
    ensures (d0 as int * 262144 + d1 as int * 4096 + d2 as int * 64 + d3) / 65536 == d0 * 4 + d1 / 16
    ensures (d0 as int * 262144 + d1 as int * 4096 + d2 as int * 64 + d3) / 256 % 256 == d1 % 16 * 16 + d2 / 4
    ensures (d0 as int * 262144 + d1 as int * 4096 + d2 as int * 64 + d3) % 256 == d2 % 4 * 64 + d3
  {
    var v := d0 as int * 262144 + d1 as int * 4096 + d2 as int * 64 + d3;
    var a, b, c := d0 * 4 + d1 / 16, d1 % 16 * 16 + d2 / 4, d2 % 4 * 64 + d3;
    assert v == (a * 256 + b) * 256 + c;
    DivMod(v, a * 256 + b, c, 256);
    DivMod(a * 256 + b, a, b, 256);
    DivMod(v, a, b * 256 + c, 65536);
  }

  /** The u8 left shifts `x << 2`, `x << 4` and `x << 6` lose the high bits of x. */
  lemma DigitShifts(x: byte)
    requires x < 64
    ensures x as int * 4 % 256 == x * 4
    ensures x as int * 16 % 256 == x % 16 * 16
    ensures x as int * 64 % 256 == x % 4 * 64
  {
    DivMod(x * 4, 0, x * 4, 256);
    DivMod(x * 16, x / 16, x % 16 * 16, 256);
    DivMod(x * 64, x / 4, x % 4 * 64, 256);
  }


  // ---------------------------------------------------------------------------
  // Hex (base16, section 8 of RFC 4648)

  /** Rust's `char::to_digit(radix)` for radix 16: '0'-'9', then letters of either
      case counted from 10, accepted when the value is below the radix. */
  function ToDigit16(c: char): (r: Option<byte>)
    ensures r.Some? ==> r.value < 16
  {
    var v :=
      if '0' <= c <= '9' then c as int - '0' as int
      else if 'a' <= c <= 'z' then c as int - 'a' as int + 10
      else if 'A' <= c <= 'Z' then c as int - 'A' as int + 10
      else 16;
    if v < 16 then Some(v) else None
  }

  /** Rust's `char::from_digit(u, 16)`: digits and then lower-case letters. */
  function FromDigit16(u: byte): (c: char)
    requires u < 16
  {
    if u < 10 then ('0' as int + u) as char else ('a' as int + u - 10) as char
  }

  /** `u8_from_hex`: the value of a hex digit of either case, or the error naming the character. */
  function U8FromHex(c: char): (r: Result<byte, CodecError>)
    ensures r.Ok? <==> '0' <= c <= '9' || 'a' <= c <= 'f' || 'A' <= c <= 'F'
    ensures r.Ok? ==> r.value < 16 && FromDigit16(r.value) == LowerHex(c)
    ensures r.Err? ==> r.error == InvalidChar(c)
  {
    match ToDigit16(c)
    case Some(i) => Ok(i)
    case None => Err(InvalidChar(c))
  }

  /** An upper-case hex letter in lower case; any other character unchanged. */
  function LowerHex(c: char): char
  {
    if 'A' <= c <= 'F' then (c as int - 'A' as int + 'a' as int) as char else c
  }

  /** Base16 as section 8 of RFC 4648 defines it: each byte becomes two digits, the
      high nibble first; `to_hex` writes the letters in lower case. */
  function HexEncoded(x: seq<byte>): (s: seq<char>)
    ensures |s| == 2 * |x|
  {
    if x == [] then [] else [FromDigit16(x[0] / 16), FromDigit16(x[0] % 16)] + HexEncoded(x[1..])
  }

  /** Base16 decoding: the length must be even; then each pair of digits is a byte,
      and the first character that is not a hex digit is the error. */
  function HexDecoded(s: seq<char>): (r: Result<seq<byte>, CodecError>)
    ensures r == Err(BadLength) <==> |s| % 2 != 0
  {
    if |s| % 2 != 0 then Err(BadLength) else HexPairs(s)
  }

  function HexPairs(s: seq<char>): (r: Result<seq<byte>, CodecError>)
    requires |s| % 2 == 0
    ensures r.Ok? ==> 2 * |r.value| == |s|
    ensures r.Err? ==> r.error.InvalidChar?
  {
    if s == [] then Ok([])
    else
      match U8FromHex(s[0])
      case Err(e) => Err(e)
      case Ok(h) =>
        match U8FromHex(s[1])
        case Err(e) => Err(e)
        case Ok(l) => Prepend([h * 16 + l], HexPairs(s[2..]))
  }

  /** The value of the nibble at position i of x, high nibbles at even positions. */
  function Nibble(x: seq<byte>, i: nat): (u: byte)
    requires i < 2 * |x|
    ensures u < 16
  {
    if i % 2 == 0 then x[i / 2] / 16 else x[i / 2] % 16
  }

  /** `to_hex`: collects the nibbles `u >> 4` and `u & 0xf` of every byte, then maps
      each through `char::from_digit(_, 16)`. */
  method ToHex(x: seq<byte>) returns (s: seq<char>)
    ensures s == HexEncoded(x)
  {
    var u4: seq<byte> := [];
    var i := 0;
    while i < |x|
      invariant 0 <= i <= |x| && |u4| == 2 * i
      invariant forall k :: 0 <= k < |u4| ==> u4[k] == Nibble(x, k)
    {
      u4 := u4 + [x[i] / 16, x[i] % 16];
      i := i + 1;
    }
    s := [];
    var j := 0;
    while j < |u4|
      invariant 0 <= j <= |u4| && |s| == j
      invariant forall k :: 0 <= k < j ==> s[k] == FromDigit16(u4[k])
    {
      s := s + [FromDigit16(u4[j])];
      j := j + 1;
    }
    HexEncodedNibbles(x);
  }

  /** Character k of the encoding is the digit of nibble k. */
  lemma {:induction false} HexEncodedNibbles(x: seq<byte>)
    ensures forall k :: 0 <= k < 2 * |x| ==> HexEncoded(x)[k] == FromDigit16(Nibble(x, k))
  {
    if x != [] {
      HexEncodedNibbles(x[1..]);
      forall k | 2 <= k < 2 * |x|
        ensures HexEncoded(x)[k] == FromDigit16(Nibble(x, k))
      {
        assert HexEncoded(x)[k] == HexEncoded(x[1..])[k - 2];
        assert Nibble(x[1..], k - 2) == Nibble(x, k);
      }
    }
  }

  /** The final `map` of `from_hex`: every pair of nibbles, high one first, is a byte. */
  function CombineNibbles(d: seq<byte>): (r: seq<byte>)
    requires |d| % 2 == 0 && forall i :: 0 <= i < |d| ==> d[i] < 16
    ensures 2 * |r| == |d|
    ensures forall k :: 0 <= k < |r| ==> r[k] / 16 == d[2 * k] && r[k] % 16 == d[2 * k + 1]
  {
    if d == [] then [] else [d[0] * 16 + d[1]] + CombineNibbles(d[2..])
  }

  /** `from_hex`: checks the length, converts every character with `u8_from_hex`,
      then combines the digits two at a time. */
  method FromHex(s: seq<char>) returns (r: Result<seq<byte>, CodecError>)
    ensures r == HexDecoded(s)
  {
    if |s| % 2 != 0 {
      return Err(BadLength);
    }
    var digits: seq<byte> := [];
    var i := 0;
    while i < |s|
      invariant 0 <= i <= |s| && |digits| == i
      invariant forall k :: 0 <= k < i ==> U8FromHex(s[k]) == Ok(digits[k])
    {
      var d := U8FromHex(s[i]);
      if d.Err? {
        HexPairsFirstError(s, i);
        return Err(d.error);
      }
      digits := digits + [d.value];
      i := i + 1;
    }
    HexPairsOfDigits(s, digits);
    return Ok(CombineNibbles(digits));
  }

  /** When every character is a hex digit, the pairs are the combined digits. */
  lemma {:induction false} HexPairsOfDigits(s: seq<char>, d: seq<byte>)
    requires |s| % 2 == 0 && |d| == |s|
    requires forall k :: 0 <= k < |s| ==> U8FromHex(s[k]) == Ok(d[k])
    ensures forall i :: 0 <= i < |d| ==> d[i] < 16
    ensures HexPairs(s) == Ok(CombineNibbles(d))
    decreases |s|
  {
    if s != [] {
      HexPairsOfDigits(s[2..], d[2..]);
    }
  }

  /** The first character that is not a hex digit is the error. */
  lemma {:induction false} HexPairsFirstError(s: seq<char>, i: nat)
    requires |s| % 2 == 0 && i < |s|
    requires forall k :: 0 <= k < i ==> U8FromHex(s[k]).Ok?
    requires U8FromHex(s[i]).Err?
    ensures HexPairs(s) == Err(InvalidChar(s[i]))
    decreases |s|
  {
    if i >= 2 {
      HexPairsFirstError(s[2..], i - 2);
    }
  }
}
