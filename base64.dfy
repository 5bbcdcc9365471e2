/** The standard padded Base64 encoding of section 4 of RFC 4648, as the
    `base64` crate's `general_purpose::STANDARD` engine produces it, and
    the UTF-8 encoding that turns a Rust `String` into the bytes it encodes.
    `Decode` is the partner that shows no information is lost. */
module Base64 {
  import opened Results

  type byte = x: int | 0 <= x < 256

  /** The character for the 6-bit value `i` (the table in section 4 of RFC 4648). */
  function Digit(i: int): (c: char)
    requires 0 <= i < 64
  {
    if i < 26 then ('A' as int + i) as char
    else if i < 52 then ('a' as int + (i - 26)) as char
    else if i < 62 then ('0' as int + (i - 52)) as char
    else if i == 62 then '+'
    else '/'
  }

  predicate IsDigit(c: char) {
    'A' <= c <= 'Z' || 'a' <= c <= 'z' || '0' <= c <= '9' || c == '+' || c == '/'
  }

  /** The 6-bit value of an alphabet character. */
  function DigitValue(c: char): (v: int)
    requires IsDigit(c)
    ensures 0 <= v < 64
  {
    if 'A' <= c <= 'Z' then c as int - 'A' as int
    else if 'a' <= c <= 'z' then c as int - 'a' as int + 26
    else if '0' <= c <= '9' then c as int - '0' as int + 52
    else if c == '+' then 62
    else 63
  }

  /** Encoding: each group of three bytes becomes four characters; a final
      group of one or two bytes is zero-filled and padded with `=`. */
  function Encode(b: seq<byte>): (s: string)
    ensures |s| == 4 * ((|b| + 2) / 3)
    decreases |b|
  {
    if |b| == 0 then []
    else if |b| == 1 then EncodeOne(b[0])
    else if |b| == 2 then EncodeTwo(b[0], b[1])
    else EncodeThree(b[0], b[1], b[2]) + Encode(b[3..])
  }

  /** Every character of an encoding is from the alphabet or is `=`. */
  lemma {:induction false} EncodeAlphabet(b: seq<byte>)
    ensures forall i :: 0 <= i < |Encode(b)| ==> IsDigit(Encode(b)[i]) || Encode(b)[i] == '='
    decreases |b|
  {
    if |b| >= 3 {
      EncodeAlphabet(b[3..]);
      var s, g, t := Encode(b), EncodeThree(b[0], b[1], b[2]), Encode(b[3..]);
      assert s == g + t;
      forall i | 0 <= i < |s| ensures IsDigit(s[i]) || s[i] == '=' {
        if i >= 4 {
          assert s[i] == t[i - 4];
        }
      }
    }
  }

  function EncodeThree(b0: byte, b1: byte, b2: byte): (s: string)
    ensures |s| == 4 && forall i :: 0 <= i < 4 ==> IsDigit(s[i])
  {
    [Digit(b0 / 4), Digit(b0 % 4 * 16 + b1 / 16), Digit(b1 % 16 * 4 + b2 / 64), Digit(b2 % 64)]
  }

  function EncodeTwo(b0: byte, b1: byte): (s: string)
    ensures |s| == 4 && IsDigit(s[0]) && IsDigit(s[1]) && IsDigit(s[2]) && s[3] == '='
  {
    [Digit(b0 / 4), Digit(b0 % 4 * 16 + b1 / 16), Digit(b1 % 16 * 4), '=']
  }

  function EncodeOne(b0: byte): (s: string)
    ensures |s| == 4 && IsDigit(s[0]) && IsDigit(s[1]) && s[2] == '=' && s[3] == '='
  {
    [Digit(b0 / 4), Digit(b0 % 4 * 16), '=', '=']
  }

  /** Decoding of padded Base64, four characters at a time; `=` may only
      pad the last group. */
  function Decode(s: string): (r: Option<seq<byte>>)
    decreases |s|
  {
    if s == [] then Some([])
    else if |s| < 4 then None
    else if |s| == 4 && s[3] == '=' then DecodeLast(s[0], s[1], s[2])
    else
      match DecodeQuad(s[0], s[1], s[2], s[3])
      case None => None
      case Some(group) =>
        match Decode(s[4..])
        case None => None
        case Some(rest) => Some(group + rest)
  }

  /** Four alphabet characters: three bytes. */
  function DecodeQuad(c0: char, c1: char, c2: char, c3: char): Option<seq<byte>> {
    if !IsDigit(c0) || !IsDigit(c1) || !IsDigit(c2) || !IsDigit(c3) then None
    else
      var v0, v1, v2, v3 := DigitValue(c0), DigitValue(c1), DigitValue(c2), DigitValue(c3);
      Some([v0 * 4 + v1 / 16, v1 % 16 * 16 + v2 / 4, v2 % 4 * 64 + v3])
  }

  /** A final group padded with `==` (one byte) or `=` (two bytes). */
  function DecodeLast(c0: char, c1: char, c2: char): Option<seq<byte>> {
    if !IsDigit(c0) || !IsDigit(c1) then None
    else
      var v0, v1 := DigitValue(c0), DigitValue(c1);
      if c2 == '=' then Some([v0 * 4 + v1 / 16])
      else if !IsDigit(c2) then None
      else Some([v0 * 4 + v1 / 16, v1 % 16 * 16 + DigitValue(c2) / 4])
  }

  /** Encoding loses nothing: decoding gives back the bytes. */
  lemma {:induction false} DecodeEncode(b: seq<byte>)
    ensures Decode(Encode(b)) == Some(b)
    decreases |b|
  {
    if |b| == 1 {
      DecodeOneByte(b);
    } else if |b| == 2 {
      DecodeTwoBytes(b);
    } else if |b| >= 3 {
      DecodeEncode(b[3..]);
      DecodeLongerInput(b);
    }
  }

  lemma DecodeOneByte(b: seq<byte>)
    requires |b| == 1
    ensures Decode(Encode(b)) == Some(b)
  {
    SingletonBytes(b);
    DecodeOne(b[0]);
  }

  lemma DecodeTwoBytes(b: seq<byte>)
    requires |b| == 2
    ensures Decode(Encode(b)) == Some(b)
  {
    PairBytes(b);
    DecodeTwo(b[0], b[1]);
  }

  lemma SingletonBytes(b: seq<byte>)
    requires |b| == 1
    ensures b == [b[0]] && Encode(b) == EncodeOne(b[0])
  {
  }

  lemma PairBytes(b: seq<byte>)
    requires |b| == 2
    ensures b == [b[0], b[1]] && Encode(b) == EncodeTwo(b[0], b[1])
  {
  }

  lemma DecodeOne(b0: byte)
    ensures Decode(EncodeOne(b0)) == Some([b0])
  {
    var v0, v1 := b0 / 4, b0 % 4 * 16;
    assert 0 <= v0 < 64 && 0 <= v1 < 64 && v0 * 4 + v1 / 16 == b0;
    DecodeLastDigits(v0, v1, 0);
  }

  lemma DecodeTwo(b0: byte, b1: byte)
    ensures Decode(EncodeTwo(b0, b1)) == Some([b0, b1])
  {
    var v0, v1, v2 := b0 / 4, b0 % 4 * 16 + b1 / 16, b1 % 16 * 4;
    PairArithmetic(b0, b1);
    DecodeLastDigits(v0, v1, v2);
  }

  /** The last group of an encoding, from its 6-bit values. */
  lemma DecodeLastDigits(v0: int, v1: int, v2: int)
    requires 0 <= v0 < 64 && 0 <= v1 < 64 && 0 <= v2 < 64
    ensures v0 * 4 + v1 / 16 < 256 && v1 % 16 * 16 + v2 / 4 < 256
    ensures Decode([Digit(v0), Digit(v1), '=', '=']) == Some([v0 * 4 + v1 / 16])
    ensures Decode([Digit(v0), Digit(v1), Digit(v2), '=']) == Some([v0 * 4 + v1 / 16, v1 % 16 * 16 + v2 / 4])
  {
    DigitRoundTrip(v0);
    DigitRoundTrip(v1);
    DigitRoundTrip(v2);
  }

  lemma PairArithmetic(b0: byte, b1: byte)
    ensures var v0, v1, v2 := b0 / 4, b0 % 4 * 16 + b1 / 16, b1 % 16 * 4;
      && 0 <= v0 < 64 && 0 <= v1 < 64 && 0 <= v2 < 64
      && v0 * 4 + v1 / 16 == b0 && v1 % 16 * 16 + v2 / 4 == b1
  {
  }

  lemma DecodeLongerInput(b: seq<byte>)
    requires |b| >= 3 && Decode(Encode(b[3..])) == Some(b[3..])
    ensures Decode(Encode(b)) == Some(b)
  {
    SplitGroup(b);
    DecodeGroup(b[0], b[1], b[2], Encode(b[3..]), b[3..]);
  }

  lemma SplitGroup(b: seq<byte>)
    requires |b| >= 3
    ensures b == [b[0], b[1], b[2]] + b[3..]
    ensures Encode(b) == EncodeThree(b[0], b[1], b[2]) + Encode(b[3..])
  {
    SplitBytes(b);
  }

  lemma SplitBytes(b: seq<byte>)
    requires |b| >= 3
    ensures b == [b[0], b[1], b[2]] + b[3..]
  {
    assert b[..3] + b[3..] == b;
    assert b[..3] == [b[0], b[1], b[2]];
  }

  /** A full group in front of a string that decodes to `rest`. */
  lemma DecodeGroup(b0: byte, b1: byte, b2: byte, tail: string, rest: seq<byte>)
    requires Decode(tail) == Some(rest)
    ensures Decode(EncodeThree(b0, b1, b2) + tail) == Some([b0, b1, b2] + rest)
  {
    var v0, v1, v2, v3 := b0 / 4, b0 % 4 * 16 + b1 / 16, b1 % 16 * 4 + b2 / 64, b2 % 64;
    GroupArithmetic(b0, b1, b2);
    DecodeQuadDigits(v0, v1, v2, v3, tail, rest);
  }

  /** Splitting three bytes into four 6-bit values and joining them back. */
  lemma GroupArithmetic(b0: byte, b1: byte, b2: byte)
    ensures var v0, v1, v2, v3 := b0 / 4, b0 % 4 * 16 + b1 / 16, b1 % 16 * 4 + b2 / 64, b2 % 64;
      && 0 <= v0 < 64 && 0 <= v1 < 64 && 0 <= v2 < 64 && 0 <= v3 < 64
      && v0 * 4 + v1 / 16 == b0 && v1 % 16 * 16 + v2 / 4 == b1 && v2 % 4 * 64 + v3 == b2
  {
  }

  /** A full group, from its 6-bit values, in front of a string that
      decodes to `rest`. */
  lemma DecodeQuadDigits(v0: int, v1: int, v2: int, v3: int, tail: string, rest: seq<byte>)
    requires 0 <= v0 < 64 && 0 <= v1 < 64 && 0 <= v2 < 64 && 0 <= v3 < 64
    requires Decode(tail) == Some(rest)
    ensures v0 * 4 + v1 / 16 < 256 && v1 % 16 * 16 + v2 / 4 < 256 && v2 % 4 * 64 + v3 < 256
    ensures Decode([Digit(v0), Digit(v1), Digit(v2), Digit(v3)] + tail)
      == Some([v0 * 4 + v1 / 16, v1 % 16 * 16 + v2 / 4, v2 % 4 * 64 + v3] + rest)
  {
    QuadDigits(v0, v1, v2, v3);
    DecodeFullGroup([Digit(v0), Digit(v1), Digit(v2), Digit(v3)], tail,
                    [v0 * 4 + v1 / 16, v1 % 16 * 16 + v2 / 4, v2 % 4 * 64 + v3], rest);
  }

  lemma QuadDigits(v0: int, v1: int, v2: int, v3: int)
    requires 0 <= v0 < 64 && 0 <= v1 < 64 && 0 <= v2 < 64 && 0 <= v3 < 64
    ensures v0 * 4 + v1 / 16 < 256 && v1 % 16 * 16 + v2 / 4 < 256 && v2 % 4 * 64 + v3 < 256
    ensures Digit(v3) != '='
    ensures DecodeQuad(Digit(v0), Digit(v1), Digit(v2), Digit(v3))
      == Some([v0 * 4 + v1 / 16, v1 % 16 * 16 + v2 / 4, v2 % 4 * 64 + v3])
  {
    DigitRoundTrip(v0);
    DigitRoundTrip(v1);
    DigitRoundTrip(v2);
    DigitRoundTrip(v3);
  }

  /** A group of four alphabet characters in front of a string that
      decodes to `rest`. */
  lemma DecodeFullGroup(g: string, tail: string, group: seq<byte>, rest: seq<byte>)
    requires |g| == 4 && g[3] != '=' && DecodeQuad(g[0], g[1], g[2], g[3]) == Some(group)
    requires Decode(tail) == Some(rest)
    ensures Decode(g + tail) == Some(group + rest)
  {
    var s := g + tail;
    assert s[0] == g[0] && s[1] == g[1] && s[2] == g[2] && s[3] == g[3];
    assert s[4..] == tail;
  }

  /** `DigitValue` is a left inverse of `Digit` on the alphabet. */
  lemma DigitValueInverse(c: char)
    requires IsDigit(c)
    ensures Digit(DigitValue(c)) == c
  {
  }

  lemma DigitRoundTrip(i: int)
    requires 0 <= i < 64
    ensures IsDigit(Digit(i)) && DigitValue(Digit(i)) == i
  {
  }

  /** The UTF-8 bytes of one Unicode scalar value. */
  function CodePointUtf8(cp: int): (r: seq<byte>)
    requires 0 <= cp < 0x11_0000
    ensures 1 <= |r| <= 4
  {
    if cp < 0x80 then [cp]
    else if cp < 0x800 then [0xC0 + cp / 64, 0x80 + cp % 64]
    else if cp < 0x1_0000 then [0xE0 + cp / 4096, 0x80 + cp / 64 % 64, 0x80 + cp % 64]
    else [0xF0 + cp / 262144, 0x80 + cp / 4096 % 64, 0x80 + cp / 64 % 64, 0x80 + cp % 64]
  }

  /** The bytes of a Rust `String`. */
  function Utf8(s: string): (r: seq<byte>)
    ensures |s| <= |r| <= 4 * |s|
  {
    if s == [] then [] else CodePointUtf8(s[0] as int) + Utf8(s[1..])
  }

  /** The length of a UTF-8 sequence, read off its leading byte. */
  function SequenceLength(lead: byte): nat {
    if lead < 0x80 then 1 else if lead < 0xE0 then 2 else if lead < 0xF0 then 3 else 4
  }

  /** The scalar value of one complete UTF-8 sequence. */
  function DecodeCodePoint(r: seq<byte>): int
    requires 1 <= |r| <= 4
  {
    var b0 := r[0] as int;
    if |r| == 1 then b0
    else if |r| == 2 then (b0 - 0xC0) * 64 + (r[1] as int - 0x80)
    else if |r| == 3 then (b0 - 0xE0) * 4096 + (r[1] as int - 0x80) * 64 + (r[2] as int - 0x80)
    else (b0 - 0xF0) * 262144 + (r[1] as int - 0x80) * 4096 + (r[2] as int - 0x80) * 64 + (r[3] as int - 0x80)
  }

  /** One scalar value's bytes announce their own length and decode back
      to the value. */
  lemma CodePointRoundTrip(cp: int)
    requires 0 <= cp < 0x11_0000
    ensures var r := CodePointUtf8(cp);
      SequenceLength(r[0]) == |r| && DecodeCodePoint(r) == cp
  {
    if cp >= 0x80 {
      ByteSplit(cp);
    }
  }

  /** Base-64 digits of a code point, as the continuation bytes carry them. */
  lemma ByteSplit(cp: int)
    requires 0 <= cp
    ensures cp == cp / 64 * 64 + cp % 64
    ensures cp == cp / 4096 * 4096 + cp / 64 % 64 * 64 + cp % 64
    ensures cp == cp / 262144 * 262144 + cp / 4096 % 64 * 4096 + cp / 64 % 64 * 64 + cp % 64
  {
    var q := cp / 64;
    assert q == q / 64 * 64 + q % 64;
    assert cp / 4096 == q / 64;
    var p := q / 64;
    assert p == p / 64 * 64 + p % 64;
    assert cp / 262144 == p / 64;
  }

  /** No scalar value's bytes are a prefix of another's: two strings'
      bytes that start alike start with the same character's bytes. */
  lemma CodePointPrefixFree(a: int, b: int, x: seq<byte>, y: seq<byte>)
    requires 0 <= a < 0x11_0000 && 0 <= b < 0x11_0000
    requires CodePointUtf8(a) + x == CodePointUtf8(b) + y
    ensures a == b && x == y
  {
    var ra, rb := CodePointUtf8(a), CodePointUtf8(b);
    CodePointRoundTrip(a);
    CodePointRoundTrip(b);
    assert ra[0] == (ra + x)[0] == (rb + y)[0] == rb[0];
    assert ra == (ra + x)[..|ra|] == (rb + y)[..|rb|] == rb;
    assert x == (ra + x)[|ra|..] == (rb + y)[|rb|..] == y;
  }

  /** `Utf8` is injective: the bytes determine the string. */
  lemma {:induction false} Utf8Injective(s: string, t: string)
    requires Utf8(s) == Utf8(t)
    ensures s == t
    decreases |s|
  {
    if s != [] {
      assert t != [];
      CodePointPrefixFree(s[0] as int, t[0] as int, Utf8(s[1..]), Utf8(t[1..]));
      Utf8Injective(s[1..], t[1..]);
      assert s == [s[0]] + s[1..] && t == [t[0]] + t[1..];
    } else {
      assert t == [];
    }
  }
}
