/** The colour step of `set_chroma`: all leading `#` removed, then Rust's
    `u32::from_str_radix(_, 16)`, which accepts one optional leading `+`,
    digits `0-9`, `a-f`, `A-F`, and any value up to 2^32 - 1. */
module HexColor {
  import opened Results
  import Text

  const U32Max: nat := 0xFFFF_FFFF

  predicate IsHexDigit(c: char) {
    '0' <= c <= '9' || 'a' <= c <= 'f' || 'A' <= c <= 'F'
  }

  function HexDigitValue(c: char): (v: nat)
    requires IsHexDigit(c)
    ensures v < 16
  {
    if '0' <= c <= '9' then c as int - '0' as int
    else if 'a' <= c <= 'f' then c as int - 'a' as int + 10
    else c as int - 'A' as int + 10
  }

  predicate AllHexDigits(s: string) {
    forall i :: 0 <= i < |s| ==> IsHexDigit(s[i])
  }

  /** The number a string of hex digits denotes, most significant first. */
  function HexValue(s: string): nat
    requires AllHexDigits(s)
  {
    if s == [] then 0 else HexValue(s[..|s| - 1]) * 16 + HexDigitValue(s[|s| - 1])
  }

  /** The digits after Rust's one optional leading `+`. */
  function Magnitude(s: string): string {
    if s != [] && s[0] == '+' then s[1..] else s
  }

  /** `u32::from_str_radix(s, 16)`: an empty string, a lone sign, a `-`,
      any other non-digit, and a value past `u32::MAX` are errors. */
  function ParseU32Hex(s: string): (r: Option<nat>)
    ensures r.Some? <==>
      Magnitude(s) != [] && AllHexDigits(Magnitude(s)) && HexValue(Magnitude(s)) <= U32Max
    ensures r.Some? ==> r.value == HexValue(Magnitude(s)) && r.value <= U32Max
  {
    var digits := Magnitude(s);
    if digits == [] || !AllHexDigits(digits) || HexValue(digits) > U32Max then None
    else Some(HexValue(digits))
  }

  /** `u32::from_str_radix(colors[0].trim_start_matches('#'), 16)`: a
      32-bit value, and never one for a colour made only of `#`. */
  function ParseColor(color: string): (r: Option<nat>)
    ensures r.Some? ==> r.value <= U32Max
    ensures (forall i :: 0 <= i < |color| ==> color[i] == '#') ==> r.None?
  {
    var body := Text.TrimStart(color, '#');
    assert body != [] ==> body[0] == color[|color| - |body|];
    ParseU32Hex(body)
  }

  /** Lower-case hex digits of `v`, most significant first, no leading zero. */
  function ToHex(v: nat): (s: string)
    ensures s != [] && AllHexDigits(s)
    decreases v
  {
    if v < 16 then [HexChar(v)] else ToHex(v / 16) + [HexChar(v % 16)]
  }

  function HexChar(d: nat): (c: char)
    requires d < 16
    ensures IsHexDigit(c) && HexDigitValue(c) == d
  {
    if d < 10 then ('0' as int + d) as char else ('a' as int + d - 10) as char
  }

  /** `ToHex` is a right inverse of `HexValue`. */
  lemma {:induction false} HexValueOfToHex(v: nat)
    ensures HexValue(ToHex(v)) == v
    decreases v
  {
    if v >= 16 {
      var s := ToHex(v);
      assert s[..|s| - 1] == ToHex(v / 16);
      HexValueOfToHex(v / 16);
    }
  }

  /** Every 32-bit value round-trips through the colour text, with any
      number of `#` in front and with or without a `+` sign. */
  lemma ParseColorRoundTrip(v: nat, hashes: nat, plus: bool)
    requires v <= U32Max
    ensures ParseColor(Hashes(hashes) + (if plus then "+" else "") + ToHex(v)) == Some(v)
  {
    var body := (if plus then "+" else "") + ToHex(v);
    assert Hashes(hashes) + (if plus then "+" else "") + ToHex(v) == Hashes(hashes) + body;
    HashesTrimmed(hashes, body);
    ParseHexRoundTrip(v, plus);
  }

  lemma ParseHexRoundTrip(v: nat, plus: bool)
    requires v <= U32Max
    ensures ParseU32Hex((if plus then "+" else "") + ToHex(v)) == Some(v)
  {
    HexValueOfToHex(v);
    var t := ToHex(v);
    if plus {
      SignedMagnitude(t);
    } else {
      assert "" + t == t;
      assert Magnitude(t) == t;
    }
  }

  lemma SignedMagnitude(t: string)
    ensures Magnitude("+" + t) == t
  {
    assert ("+" + t)[0] == '+';
    assert ("+" + t)[1..] == t;
  }

  /** Appending a digit shifts the value by one hex place. */
  lemma HexValueSnoc(s: string, c: char)
    requires AllHexDigits(s) && IsHexDigit(c)
    ensures AllHexDigits(s + [c]) && HexValue(s + [c]) == HexValue(s) * 16 + HexDigitValue(c)
  {
    assert (s + [c])[..|s|] == s;
  }

  function Hashes(n: nat): (s: string)
    ensures |s| == n
  {
    if n == 0 then "" else "#" + Hashes(n - 1)
  }

  lemma HashesCons(n: nat, body: string)
    requires n > 0
    ensures Hashes(n) + body == ['#'] + (Hashes(n - 1) + body)
  {
  }

  lemma {:induction false} HashesTrimmed(n: nat, body: string)
    requires body == [] || body[0] != '#'
    ensures Text.TrimStart(Hashes(n) + body, '#') == body
  {
    if n == 0 {
      assert Hashes(n) + body == body;
    } else {
      HashesTrimmed(n - 1, body);
      HashesCons(n, body);
      Text.TrimStartCons(Hashes(n) + body, Hashes(n - 1) + body, '#');
    }
  }

  /** Values are not limited to 24-bit RGB: eight hex digits reach
      `u32::MAX`, nine overflow. */
  lemma WidthIsThirtyTwoBits()
    ensures ParseColor("#FFFFFFFF") == Some(U32Max)
    ensures ParseColor("#100000000") == None
  {
    MaxColor();
    OverflowColor();
  }

  lemma MaxColor()
    ensures ParseColor("#FFFFFFFF") == Some(U32Max)
  {
    assert "#FFFFFFFF" == "#" + "FFFFFFFF";
    OneHashParsed("FFFFFFFF");
    MaxValue();
  }

  lemma OverflowColor()
    ensures ParseColor("#100000000") == None
  {
    assert "#100000000" == "#" + "100000000";
    OneHashParsed("100000000");
    OverflowValue();
  }

  lemma MaxValue()
    ensures AllHexDigits("FFFFFFFF") && HexValue("FFFFFFFF") == U32Max
  {
    assert "F" == "" + ['F'];
    HexValueSnoc("", 'F');
    assert "FF" == "F" + ['F'];
    HexValueSnoc("F", 'F');
    assert "FFF" == "FF" + ['F'];
    HexValueSnoc("FF", 'F');
    assert "FFFF" == "FFF" + ['F'];
    HexValueSnoc("FFF", 'F');
    assert "FFFFF" == "FFFF" + ['F'];
    HexValueSnoc("FFFF", 'F');
    assert "FFFFFF" == "FFFFF" + ['F'];
    HexValueSnoc("FFFFF", 'F');
    assert "FFFFFFF" == "FFFFFF" + ['F'];
    HexValueSnoc("FFFFFF", 'F');
    assert "FFFFFFFF" == "FFFFFFF" + ['F'];
    HexValueSnoc("FFFFFFF", 'F');
  }

  lemma OverflowValue()
    ensures AllHexDigits("100000000") && HexValue("100000000") == U32Max + 1
  {
    assert "1" == "" + ['1'];
    HexValueSnoc("", '1');
    assert "10" == "1" + ['0'];
    HexValueSnoc("1", '0');
    assert "100" == "10" + ['0'];
    HexValueSnoc("10", '0');
    assert "1000" == "100" + ['0'];
    HexValueSnoc("100", '0');
    assert "10000" == "1000" + ['0'];
    HexValueSnoc("1000", '0');
    assert "100000" == "10000" + ['0'];
    HexValueSnoc("10000", '0');
    assert "1000000" == "100000" + ['0'];
    HexValueSnoc("100000", '0');
    assert "10000000" == "1000000" + ['0'];
    HexValueSnoc("1000000", '0');
    assert "100000000" == "10000000" + ['0'];
    HexValueSnoc("10000000", '0');
  }

  /** A single `#` is dropped before the number is parsed. */
  lemma OneHashParsed(body: string)
    requires body == [] || body[0] != '#'
    ensures ParseColor("#" + body) == ParseU32Hex(body)
  {
    HashesTrimmed(1, body);
    assert Hashes(1) == "#";
  }

  /** The colour of the chroma example: `#AABBCC` is 0xAABBCC, and
      `zzzzzz` does not parse. */
  lemma ExampleColors()
    ensures ParseColor("#AABBCC") == Some(0xAABBCC)
    ensures ParseColor("zzzzzz") == None
  {
    ExampleColor();
    MalformedColor();
  }

  lemma MalformedColor()
    ensures ParseColor("zzzzzz") == None
  {
    var z := "zzzzzz";
    assert Text.TrimStart(z, '#') == z;
    assert !IsHexDigit(z[0]);
  }

  lemma ExampleColor()
    ensures ParseColor("#AABBCC") == Some(0xAABBCC)
  {
    assert "#AABBCC" == "#" + "AABBCC";
    OneHashParsed("AABBCC");
    ExampleValue();
  }

  lemma ExampleValue()
    ensures AllHexDigits("AABBCC") && HexValue("AABBCC") == 0xAABBCC
  {
    assert "A" == "" + ['A'];
    HexValueSnoc("", 'A');
    assert "AA" == "A" + ['A'];
    HexValueSnoc("A", 'A');
    assert "AAB" == "AA" + ['B'];
    HexValueSnoc("AA", 'B');
    assert "AABB" == "AAB" + ['B'];
    HexValueSnoc("AAB", 'B');
    assert "AABBC" == "AABB" + ['C'];
    HexValueSnoc("AABB", 'C');
    assert "AABBCC" == "AABBC" + ['C'];
    HexValueSnoc("AABBC", 'C');
  }

  /** Rust's sign rules: a `+` may follow the `#`, but a lone `+`, a `-`
      and an empty string are errors. */
  lemma SignRules()
    ensures ParseColor("#+ff") == Some(255)
    ensures ParseColor("#") == None && ParseColor("+") == None && ParseColor("-1") == None
  {
    PlusAccepted();
    EmptyRejected();
    LoneSignRejected();
    MinusRejected();
  }

  lemma PlusAccepted()
    ensures ParseColor("#+ff") == Some(255)
  {
    assert "#+ff" == "#" + "+ff";
    OneHashParsed("+ff");
    SignedValue();
  }

  lemma SignedValue()
    ensures ParseU32Hex("+ff") == Some(255)
  {
    assert "+ff" == "+" + "ff";
    SignedMagnitude("ff");
    SmallValue();
  }

  lemma SmallValue()
    ensures AllHexDigits("ff") && HexValue("ff") == 255
  {
    assert "f" == "" + ['f'];
    HexValueSnoc("", 'f');
    assert "ff" == "f" + ['f'];
    HexValueSnoc("f", 'f');
  }

  lemma EmptyRejected()
    ensures ParseColor("#") == None
  {
    assert "#" == "#" + "";
    OneHashParsed("");
  }

  lemma LoneSignRejected()
    ensures ParseColor("+") == None
  {
    assert Text.TrimStart("+", '#') == "+";
    assert "+" == "+" + "";
    SignedMagnitude("");
  }

  lemma MinusRejected()
    ensures ParseColor("-1") == None
  {
    assert Text.TrimStart("-1", '#') == "-1";
    assert !IsHexDigit("-1"[0]);
  }
}
