/** The in-tree Base64-URL codec of section 5 of RFC 4648, without padding, on the bytes of the
    text. Shifts and disjoint ors are written as the integer sums they are, which `DecoderShifts`
    and `EncoderShifts` show of the machine words. */
module Base64Url {
  import opened Octets
  import opened Outcomes

  type Sextet = x: int | 0 <= x < 64

  /** `A`-`Z`, `a`-`z`, `0`-`9`, `-`, `_`. */
  function ToChar(v: Sextet): Byte {
    if v < 26 then v + 65 else if v < 52 then v + 71 else if v < 62 then v - 4 else if v == 62 then 45 else 95
  }

  function CharToValue(c: Byte): Option<Sextet> {
    if 65 <= c <= 90 then Some(c - 65)
    else if 97 <= c <= 122 then Some(c - 97 + 26)
    else if 48 <= c <= 57 then Some(c - 48 + 52)
    else if c == 45 then Some(62)
    else if c == 95 then Some(63)
    else None
  }

  /** The two directions are inverse, and only alphabet characters have a value. */
  lemma CharCodec(c: Byte, v: Sextet)
    ensures CharToValue(c) == Some(v) <==> c == ToChar(v)
  {}

  /** The RFC's table for the URL-safe alphabet, eight characters to a row. */
  const ALPHABET := ["ABCDEFGH", "IJKLMNOP", "QRSTUVWX", "YZabcdef", "ghijklmn", "opqrstuv", "wxyz0123", "456789-_"]

  /** The characters are those of the table, in its order. */
  lemma AlphabetInOrder(v: Sextet)
    ensures |ALPHABET[v / 8]| == 8 && ALPHABET[v / 8][v % 8] as int == ToChar(v)
  {}

  // ----- the specification, block by block

  function EncodeBlock(x: Byte, y: Byte, z: Byte): (b: Bytes)
    ensures |b| == 4
  {
    [ToChar(x / 4), ToChar(x % 4 * 16 + y / 16), ToChar(y % 16 * 4 + z / 64), ToChar(z % 64)]
  }

  /** Zero to two last bytes; the missing bits are zero. */
  function EncodeTail(d: Bytes): Bytes
    requires |d| < 3
  {
    if |d| == 0 then []
    else if |d| == 1 then EncodeBlock(d[0], 0, 0)[..2]
    else EncodeBlock(d[0], d[1], 0)[..3]
  }

  function Encoded(d: Bytes): Bytes {
    if |d| < 3 then EncodeTail(d) else EncodeBlock(d[0], d[1], d[2]) + Encoded(d[3..])
  }

  function DecodeBlock(a: Sextet, b: Sextet, c: Sextet, d: Sextet): (r: Bytes)
    ensures |r| == 3
  {
    [a as int * 4 + b / 16, b as int % 16 * 16 + c / 4, c as int % 4 * 64 + d]
  }

  /** The values of four characters, if all four are in the alphabet. */
  function Values(w: Byte, x: Byte, y: Byte, z: Byte): Option<(Sextet, Sextet, Sextet, Sextet)> {
    match (CharToValue(w), CharToValue(x), CharToValue(y), CharToValue(z))
    case (Some(a), Some(b), Some(c), Some(d)) => Some((a, b, c, d))
    case _ => None
  }

  const ZERO_CHAR: Byte := 65

  /** Zero to three last characters; a lone one is ignored, whatever it is. */
  function DecodeTail(s: Bytes): Option<Bytes>
    requires |s| < 4
  {
    if |s| < 2 then Some([])
    else
      match Values(s[0], s[1], if |s| == 3 then s[2] else ZERO_CHAR, ZERO_CHAR)
      case None => None
      case Some(v) => Some(DecodeBlock(v.0, v.1, v.2, v.3)[..|s| - 1])
  }

  function Prepend(b: Bytes, r: Option<Bytes>): Option<Bytes> {
    match r
    case None => None
    case Some(t) => Some(b + t)
  }

  function Decoded(s: Bytes): Option<Bytes> {
    if |s| < 4 then DecodeTail(s)
    else
      match Values(s[0], s[1], s[2], s[3])
      case None => None
      case Some(v) => Prepend(DecodeBlock(v.0, v.1, v.2, v.3), Decoded(s[4..]))
  }

  // ----- the loops

  function Block24(n: nat): (b: Bytes)
    requires n < 16777216
    ensures |b| == 4
  {
    [ToChar(n / 262144 % 64), ToChar(n / 4096 % 64), ToChar(n / 64 % 64), ToChar(n % 64)]
  }

  method Encode(data: Bytes) returns (result: Bytes)
    ensures result == Encoded(data)
  {
    result := [];
    var i := 0;
    assert data[0..] == data;
    while i + 3 <= |data|
      invariant 0 <= i <= |data|
      invariant result + Encoded(data[i..]) == Encoded(data)
    {
      var n: U32 := data[i] as int * 65536 + data[i + 1] as int * 256 + data[i + 2];
      EncodeStep(data, i);
      ConcatAssociates(result, Block24(n), Encoded(data[i + 3..]));
      result := result + Block24(n);
      i := i + 3;
    }
    var last := EncodeLast(data[i..]);
    result := result + last;
  }

  lemma EncodeStep(data: Bytes, i: nat)
    requires i + 3 <= |data|
    ensures Encoded(data[i..]) == Block24(data[i] as int * 65536 + data[i + 1] as int * 256 + data[i + 2]) + Encoded(data[i + 3..])
  {
    SplitsInFour(data[i], data[i + 1], data[i + 2]);
    assert data[i..][3..] == data[i + 3..];
  }

  lemma ConcatAssociates(a: Bytes, b: Bytes, c: Bytes)
    ensures a + (b + c) == a + b + c
  {}

  method EncodeLast(rest: Bytes) returns (last: Bytes)
    requires |rest| < 3
    ensures last == EncodeTail(rest)
  {
    last := [];
    if |rest| == 1 {
      var n: U32 := rest[0] as int * 65536;
      SplitsInFour(rest[0], 0, 0);
      last := Block24(n)[..2];
    } else if |rest| == 2 {
      var n: U32 := rest[0] as int * 65536 + rest[1] as int * 256;
      SplitsInFour(rest[0], rest[1], 0);
      last := Block24(n)[..3];
    }
  }

  /** The three bytes of a block as the code computes them: left shifts within a byte drop bits. */
  function ShiftedBlock(a: Sextet, b: Sextet, c: Sextet, d: Sextet): (r: Bytes)
    ensures |r| == 3
  {
    ShiftRemainders(b, c);
    [a as int * 4 + b / 16, b as int * 16 % 256 + c / 4, c as int * 64 % 256 + d]
  }

  lemma ShiftRemainders(b: Sextet, c: Sextet)
    ensures b as int * 16 % 256 == b as int % 16 * 16
    ensures c as int * 64 % 256 == c as int % 4 * 64
  {
    assert b as int * 16 == 256 * (b / 16) + b as int % 16 * 16;
    assert c as int * 64 == 256 * (c / 4) + c as int % 4 * 64;
  }

  lemma ShiftsDropUnusedBits(a: Sextet, b: Sextet, c: Sextet, d: Sextet)
    ensures ShiftedBlock(a, b, c, d) == DecodeBlock(a, b, c, d)
  {
    ShiftRemainders(b, c);
  }

  method Decode(bytes: Bytes) returns (r: Option<Bytes>)
    ensures r == Decoded(bytes)
  {
    var result: Bytes := [];
    var i := 0;
    PrependNothing(Decoded(bytes));
    assert bytes[0..] == bytes;
    while i + 4 <= |bytes|
      invariant 0 <= i <= |bytes|
      invariant Prepend(result, Decoded(bytes[i..])) == Decoded(bytes)
    {
      var v := Values(bytes[i], bytes[i + 1], bytes[i + 2], bytes[i + 3]);
      DecodeStep(bytes, i);
      if v.None? {
        return None;
      }
      var block := ShiftedBlock(v.value.0, v.value.1, v.value.2, v.value.3);
      ShiftsDropUnusedBits(v.value.0, v.value.1, v.value.2, v.value.3);
      PrependTwice(result, block, Decoded(bytes[i + 4..]));
      result := result + block;
      i := i + 4;
    }
    var last := DecodeLast(bytes[i..]);
    return Prepend(result, last);
  }

  lemma DecodeStep(bytes: Bytes, i: nat)
    requires i + 4 <= |bytes|
    ensures Decoded(bytes[i..]) ==
      match Values(bytes[i], bytes[i + 1], bytes[i + 2], bytes[i + 3])
      case None => None
      case Some(v) => Prepend(DecodeBlock(v.0, v.1, v.2, v.3), Decoded(bytes[i + 4..]))
  {
    assert bytes[i..][4..] == bytes[i + 4..];
  }

  method DecodeLast(rest: Bytes) returns (r: Option<Bytes>)
    requires |rest| < 4
    ensures r == DecodeTail(rest)
  {
    if |rest| < 2 {
      return Some([]);
    }
    var v := Values(rest[0], rest[1], if |rest| == 3 then rest[2] else ZERO_CHAR, ZERO_CHAR);
    if v.None? {
      return None;
    }
    ShiftsDropUnusedBits(v.value.0, v.value.1, v.value.2, v.value.3);
    return Some(ShiftedBlock(v.value.0, v.value.1, v.value.2, v.value.3)[..|rest| - 1]);
  }

  lemma PrependNothing(r: Option<Bytes>)
    ensures Prepend([], r) == r
  {
    if r.Some? {
      assert [] + r.value == r.value;
    }
  }

  lemma PrependTwice(a: Bytes, b: Bytes, r: Option<Bytes>)
    ensures Prepend(a, Prepend(b, r)) == Prepend(a + b, r)
  {
    if r.Some? {
      assert a + (b + r.value) == a + b + r.value;
    }
  }

  // ----- the word operations behind the sums

  // Shifts, masks and disjoint ors of small words as integer operations.

  lemma ShiftsDown(w: bv8)
    ensures (w >> 4) as int == w as int / 16 && (w >> 2) as int == w as int / 4
  {}

  lemma ShiftsUp(w: bv8)
    requires w < 64
    ensures (w << 2) as int == w as int * 4 && (w << 4) as int == w as int * 16 % 256 && (w << 6) as int == w as int * 64 % 256
  {}

  lemma OrsAreSums(a: bv8, b: bv8, c: bv8, d: bv8)
    requires a < 64 && b < 64 && c < 64 && d < 64
    ensures ((a << 2) | (b >> 4)) as int == (a << 2) as int + (b >> 4) as int
    ensures ((b << 4) | (c >> 2)) as int == (b << 4) as int + (c >> 2) as int
    ensures ((c << 6) | d) as int == (c << 6) as int + d as int
  {}

  /** The decoder's three bytes, as it computes them on words, are those of `ShiftedBlock`. */
  lemma DecoderShifts(a: bv8, b: bv8, c: bv8, d: bv8)
    requires a < 64 && b < 64 && c < 64 && d < 64
    ensures ShiftedBlock(a as int, b as int, c as int, d as int)
         == [((a << 2) | (b >> 4)) as int, ((b << 4) | (c >> 2)) as int, ((c << 6) | d) as int]
  {
    OrsAreSums(a, b, c, d);
    ShiftsUp(a); ShiftsUp(b); ShiftsUp(c);
    ShiftsDown(b); ShiftsDown(c);
  }

  lemma DigitsOfBlock(x: bv32, y: bv32, z: bv32)
    requires x < 256 && y < 256 && z < 256
    ensures var n := (x << 16) | (y << 8) | z;
            && (n >> 18) & 0x3F == x >> 2 && (n >> 12) & 0x3F == ((x & 3) << 4) | (y >> 4)
            && (n >> 6) & 0x3F == ((y & 15) << 2) | (z >> 6) && n & 0x3F == z & 0x3F
  {}

  lemma LowBits(w: bv32)
    requires w < 256
    ensures (w & 3) as int == w as int % 4 && (w & 3) < 16
  {}

  lemma LowNibble(w: bv32)
    requires w < 256
    ensures (w & 15) as int == w as int % 16 && (w & 15) < 16
  {}

  lemma LowSextet(w: bv32)
    requires w < 256
    ensures (w & 0x3F) as int == w as int % 64
  {}

  lemma HighBits(w: bv32)
    requires w < 256
    ensures (w >> 2) as int == w as int / 4 && (w >> 4) as int == w as int / 16 && (w >> 6) as int == w as int / 64
  {}

  lemma NibbleUp(w: bv32)
    requires w < 16
    ensures (w << 4) as int == w as int * 16 && (w << 2) as int == w as int * 4
  {}

  lemma SecondDigit(x: bv32, y: bv32)
    requires x < 256 && y < 256
    ensures (((x & 3) << 4) | (y >> 4)) as int == x as int % 4 * 16 + y as int / 16
  {
    SecondOr(x, y);
    LowBits(x);
    NibbleUp(x & 3);
    HighBits(y);
  }

  lemma ThirdDigit(y: bv32, z: bv32)
    requires y < 256 && z < 256
    ensures (((y & 15) << 2) | (z >> 6)) as int == y as int % 16 * 4 + z as int / 64
  {
    ThirdOr(y, z);
    LowNibble(y);
    NibbleUp(y & 15);
    HighBits(z);
  }

  lemma SecondOr(x: bv32, y: bv32)
    requires x < 256 && y < 256
    ensures (((x & 3) << 4) | (y >> 4)) as int == ((x & 3) << 4) as int + (y >> 4) as int
  {}

  lemma ThirdOr(y: bv32, z: bv32)
    requires y < 256 && z < 256
    ensures (((y & 15) << 2) | (z >> 6)) as int == ((y & 15) << 2) as int + (z >> 6) as int
  {}

  /** The encoder's four digits, as it computes them on a 32-bit word, are those of `EncodeBlock`. */
  lemma EncoderShifts(x: bv32, y: bv32, z: bv32)
    requires x < 256 && y < 256 && z < 256
    ensures var n := (x << 16) | (y << 8) | z;
            && ((n >> 18) & 0x3F) as int == x as int / 4
            && ((n >> 12) & 0x3F) as int == x as int % 4 * 16 + y as int / 16
            && ((n >> 6) & 0x3F) as int == y as int % 16 * 4 + z as int / 64
            && (n & 0x3F) as int == z as int % 64
  {
    DigitsOfBlock(x, y, z);
    HighBits(x);
    SecondDigit(x, y);
    ThirdDigit(y, z);
    LowSextet(z);
  }

  // ----- results

  lemma SplitsInFour(x: Byte, y: Byte, z: Byte)
    ensures var n := x as int * 65536 + y as int * 256 + z;
            && n / 262144 % 64 == x / 4 && n / 4096 % 64 == x as int % 4 * 16 + y / 16
            && n / 64 % 64 == y as int % 16 * 4 + z / 64 && n % 64 == z % 64
  {
    var p, q, r, t := x / 4, x as int % 4 * 16 + y / 16, y as int % 16 * 4 + z / 64, z % 64;
    assert x as int * 65536 + y as int * 256 + z == p * 262144 + q * 4096 + r * 64 + t;
    FourDigits(p, q, r, t);
  }

  lemma FourDigits(p: nat, q: nat, r: nat, t: nat)
    requires p < 64 && q < 64 && r < 64 && t < 64
    ensures var n := p * 262144 + q * 4096 + r * 64 + t;
            n / 262144 % 64 == p && n / 4096 % 64 == q && n / 64 % 64 == r && n % 64 == t
  {
    var n := p * 262144 + q * 4096 + r * 64 + t;
    assert n / 64 == p * 4096 + q * 64 + r;
    assert n / 4096 == p * 64 + q;
    assert n / 262144 == p;
  }

  lemma OctetsOfSextets(x: Byte, y: Byte, z: Byte)
    ensures DecodeBlock(x / 4, x % 4 * 16 + y / 16, y % 16 * 4 + z / 64, z % 64) == [x, y, z]
  {}

  lemma SextetsOfOctets(a: Sextet, b: Sextet, c: Sextet, d: Sextet)
    ensures var t := DecodeBlock(a, b, c, d);
            && t[0] / 4 == a && t[0] % 4 * 16 + t[1] / 16 == b
            && t[1] % 16 * 4 + t[2] / 64 == c && t[2] % 64 == d
  {}

  lemma ValuesOfChars(a: Sextet, b: Sextet, c: Sextet, d: Sextet)
    ensures Values(ToChar(a), ToChar(b), ToChar(c), ToChar(d)) == Some((a, b, c, d))
  {
    CharCodec(ToChar(a), a); CharCodec(ToChar(b), b); CharCodec(ToChar(c), c); CharCodec(ToChar(d), d);
  }

  lemma CharsOfValues(w: Byte, x: Byte, y: Byte, z: Byte)
    requires Values(w, x, y, z).Some?
    ensures var v := Values(w, x, y, z).value;
            w == ToChar(v.0) && x == ToChar(v.1) && y == ToChar(v.2) && z == ToChar(v.3)
  {
    var v := Values(w, x, y, z).value;
    CharCodec(w, v.0); CharCodec(x, v.1); CharCodec(y, v.2); CharCodec(z, v.3);
  }

  lemma BlockRoundTrip(x: Byte, y: Byte, z: Byte)
    ensures var e := EncodeBlock(x, y, z);
            var v := Values(e[0], e[1], e[2], e[3]);
            v.Some? && DecodeBlock(v.value.0, v.value.1, v.value.2, v.value.3) == [x, y, z]
  {
    ValuesOfChars(x / 4, x % 4 * 16 + y / 16, y % 16 * 4 + z / 64, z % 64);
    OctetsOfSextets(x, y, z);
  }

  lemma BlockOfValues(w: Byte, x: Byte, y: Byte, z: Byte)
    requires Values(w, x, y, z).Some?
    ensures var v := Values(w, x, y, z).value;
            var d := DecodeBlock(v.0, v.1, v.2, v.3);
            EncodeBlock(d[0], d[1], d[2]) == [w, x, y, z]
  {
    var v := Values(w, x, y, z).value;
    CharsOfValues(w, x, y, z);
    EncodeOfBlock(v.0, v.1, v.2, v.3);
  }

  lemma EncodeOfBlock(a: Sextet, b: Sextet, c: Sextet, d: Sextet)
    ensures var t := DecodeBlock(a, b, c, d); EncodeBlock(t[0], t[1], t[2]) == [ToChar(a), ToChar(b), ToChar(c), ToChar(d)]
  {
    SextetsOfOctets(a, b, c, d);
  }

  /** Decoding inverts encoding on every byte string, and the length is the ceiling of 4n/3. */
  lemma {:induction false} EncodeThenDecode(d: Bytes)
    ensures Decoded(Encoded(d)) == Some(d)
    ensures |Encoded(d)| == (4 * |d| + 2) / 3
  {
    if |d| < 3 {
      TailRoundTrip(d);
    } else {
      var e := EncodeBlock(d[0], d[1], d[2]);
      BlockRoundTrip(d[0], d[1], d[2]);
      EncodeThenDecode(d[3..]);
      assert Encoded(d) == e + Encoded(d[3..]);
      assert Encoded(d)[4..] == Encoded(d[3..]);
      assert [d[0], d[1], d[2]] + d[3..] == d;
    }
  }

  lemma TailRoundTrip(d: Bytes)
    requires |d| < 3
    ensures Decoded(Encoded(d)) == Some(d)
    ensures |Encoded(d)| == (4 * |d| + 2) / 3
  {
    if |d| == 1 {
      var e := EncodeBlock(d[0], 0, 0);
      BlockRoundTrip(d[0], 0, 0);
      assert e[2] == e[3] == ZERO_CHAR;
      assert Encoded(d) == [e[0], e[1]];
      assert [d[0], 0, 0][..1] == d;
    } else if |d| == 2 {
      var e := EncodeBlock(d[0], d[1], 0);
      BlockRoundTrip(d[0], d[1], 0);
      assert e[3] == ZERO_CHAR;
      assert Encoded(d) == [e[0], e[1], e[2]];
      assert [d[0], d[1], 0][..2] == d;
    }
  }

  /** The last character carries no bits but those of the bytes: `unit` divides its value. */
  predicate EndsOn(s: Bytes, unit: nat)
    requires s != [] && unit > 0
  {
    match CharToValue(s[|s| - 1])
    case None => false
    case Some(v) => v % unit == 0
  }

  /** What the encoder itself would have produced: no lone last character, and zero in the bits
      of the last character that no byte uses. */
  predicate CanonicalTail(s: Bytes) {
    match |s| % 4
    case 0 => true
    case 1 => false
    case 2 => EndsOn(s, 16)
    case _ => EndsOn(s, 4)
  }

  /** For every text that decodes, encoding the result gives the text back exactly when its tail
      is canonical. */
  lemma {:induction false} DecodeThenEncode(s: Bytes)
    requires Decoded(s).Some?
    ensures Encoded(Decoded(s).value) == s <==> CanonicalTail(s)
  {
    if |s| == 2 {
      PairDecodeThenEncode(s);
    } else if |s| == 3 {
      TripleDecodeThenEncode(s);
    } else if |s| >= 4 {
      var v := Values(s[0], s[1], s[2], s[3]).value;
      var block, rest := DecodeBlock(v.0, v.1, v.2, v.3), Decoded(s[4..]).value;
      DecodeThenEncode(s[4..]);
      PeelBlock(s, block, rest);
      TailOfRest(s);
    }
  }

  lemma TailOfRest(s: Bytes)
    requires |s| >= 4
    ensures CanonicalTail(s) <==> CanonicalTail(s[4..])
  {
    assert |s[4..]| % 4 == |s| % 4;
    assert |s| > 4 ==> s[4..][|s| - 5] == s[|s| - 1];
  }

  lemma PeelBlock(s: Bytes, block: Bytes, rest: Bytes)
    requires |s| >= 4 && Values(s[0], s[1], s[2], s[3]).Some?
    requires var v := Values(s[0], s[1], s[2], s[3]).value; block == DecodeBlock(v.0, v.1, v.2, v.3)
    ensures Encoded(block + rest) == s <==> Encoded(rest) == s[4..]
  {
    BlockOfValues(s[0], s[1], s[2], s[3]);
    var head := [s[0], s[1], s[2], s[3]];
    assert (block + rest)[3..] == rest;
    assert Encoded(block + rest) == head + Encoded(rest);
    assert s == head + s[4..];
    SplitEqual(head, Encoded(rest), head, s[4..]);
  }

  lemma PairDecodeThenEncode(s: Bytes)
    requires |s| == 2 && Decoded(s).Some?
    ensures Encoded(Decoded(s).value) == s <==> EndsOn(s, 16)
  {
    var v := Values(s[0], s[1], ZERO_CHAR, ZERO_CHAR).value;
    CharsOfValues(s[0], s[1], ZERO_CHAR, ZERO_CHAR);
    var d := Decoded(s).value;
    assert d == [v.0 as int * 4 + v.1 / 16];
    var last: Sextet := d[0] as int % 4 * 16;
    assert last == v.1 / 16 * 16 && d[0] / 4 == v.0;
    assert Encoded(d) == [ToChar(v.0), ToChar(last)];
    CharCodec(s[1], v.1);
    CharCodec(s[1], last);
  }

  /** Of the third sextet the two bytes keep the high four bits. */
  lemma HighBitsKept(b: Sextet, c: Sextet)
    ensures (b as int % 16 * 16 + c / 4) % 16 * 4 == c / 4 * 4
    ensures c / 4 * 4 == c <==> c % 4 == 0
  {
    assert c / 4 < 16;
    assert (16 * (b as int % 16) + c / 4) % 16 == c / 4;
  }

  lemma EncodeOfTriple(a: Sextet, b: Sextet, c: Sextet)
    ensures var t := DecodeBlock(a, b, c, 0);
            Encoded([t[0], t[1]]) == [ToChar(a), ToChar(b), ToChar(c / 4 * 4)]
  {
    SextetsOfOctets(a, b, c, 0);
    HighBitsKept(b, c);
  }

  lemma TripleDecodeThenEncode(s: Bytes)
    requires |s| == 3 && Decoded(s).Some?
    ensures Encoded(Decoded(s).value) == s <==> EndsOn(s, 4)
  {
    var v := Values(s[0], s[1], s[2], ZERO_CHAR).value;
    CharsOfValues(s[0], s[1], s[2], ZERO_CHAR);
    CharCodec(ZERO_CHAR, 0);
    var t := DecodeBlock(v.0, v.1, v.2, 0);
    assert Decoded(s).value == [t[0], t[1]];
    EncodeOfTriple(v.0, v.1, v.2);
    HighBitsKept(v.1, v.2);
    var last: Sextet := v.2 / 4 * 4;
    CharCodec(s[2], v.2);
    CharCodec(s[2], last);
  }

  /** A lone last character is dropped unread. */
  lemma {:induction false} LoneCharacterIgnored(s: Bytes, c: Byte)
    requires |s| % 4 == 0
    ensures Decoded(s + [c]) == Decoded(s)
  {
    if s == [] {
    } else {
      assert (s + [c])[4..] == s[4..] + [c];
      LoneCharacterIgnored(s[4..], c);
    }
  }

  lemma {:induction false} DecodedLength(s: Bytes)
    requires Decoded(s).Some?
    ensures |Decoded(s).value| == |s| * 3 / 4
  {
    if |s| < 4 {
    } else {
      DecodedLength(s[4..]);
    }
  }

  // ----- QR strings

  function ToQrString(fingerprint: Bytes32): Bytes {
    Encoded([1] + fingerprint)
  }

  function FromQrString(s: Bytes): Option<Bytes32> {
    match Decoded(s)
    case None => None
    case Some(data) => if |data| != 33 || data[0] != 1 then None else Some(data[1..])
  }

  /** What a QR string carries: one version byte, then the fingerprint. */
  lemma QrStringCarries(f: Bytes32)
    ensures Decoded(ToQrString(f)) == Some([1] + f)
  {
    EncodeThenDecode([1] + f);
  }

  lemma QrStringLength(f: Bytes32)
    ensures |ToQrString(f)| == 44
  {
    EncodeThenDecode([1] + f);
  }

  lemma QrStringOfFortyFour(s: Bytes, f: Bytes32)
    requires |s| == 44
    ensures FromQrString(s) == Some(f) <==> s == ToQrString(f)
  {
    if s == ToQrString(f) {
      EncodeThenDecode([1] + f);
      assert ([1] + f)[1..] == f;
    }
    if FromQrString(s) == Some(f) {
      DecodeThenEncode(s);
      var data := Decoded(s).value;
      assert data == [1] + f;
    }
  }

  /** The parser accepts exactly the printed string and that string with any one character added. */
  lemma QrStringExact(s: Bytes, f: Bytes32)
    ensures FromQrString(s) == Some(f) <==> 44 <= |s| <= 45 && s[..44] == ToQrString(f)
  {
    QrStringLength(f);
    if Decoded(s).Some? {
      DecodedLength(s);
    }
    if |s| == 44 {
      assert s[..44] == s;
      QrStringOfFortyFour(s, f);
    } else if |s| == 45 {
      assert s == s[..44] + [s[44]];
      LoneCharacterIgnored(s[..44], s[44]);
      QrStringOfFortyFour(s[..44], f);
    }
  }
}
