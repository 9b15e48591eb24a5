/** Byte strings read as UTF-8 (section 3 of RFC 3629): a character of a string stands for one byte. */
module Utf8 {

  datatype Rune = Rune(code: int, width: nat)

  /** What stands for a byte that begins no rune. */
  const REPLACEMENT := 0xFFFD

  predicate Continues(c: char) { 0x80 <= c as int <= 0xBF }

  function Low(c: char): int { c as int - 0x80 }

  /** The first rune of a text, or the replacement character for one byte. */
  function FirstRune(s: string): (r: Rune)
    requires s != ""
    ensures 1 <= r.width <= |s|
    ensures r.code < 0x80 || s[0] as int < 0x80 ==> r == Rune(s[0] as int, 1)
  {
    var a := s[0] as int;
    if a < 0x80 then Rune(a, 1)
    else if 0xC2 <= a <= 0xDF && |s| > 1 && Continues(s[1]) then Rune((a - 0xC0) * 0x40 + Low(s[1]), 2)
    else if 0xE0 <= a <= 0xEF && |s| > 2 && Continues(s[1]) && Continues(s[2])
      && (a == 0xE0 ==> s[1] as int >= 0xA0) && (a == 0xED ==> s[1] as int <= 0x9F) then
      Rune((a - 0xE0) * 0x1000 + Low(s[1]) * 0x40 + Low(s[2]), 3)
    else if 0xF0 <= a <= 0xF4 && |s| > 3 && Continues(s[1]) && Continues(s[2]) && Continues(s[3])
      && (a == 0xF0 ==> s[1] as int >= 0x90) && (a == 0xF4 ==> s[1] as int <= 0x8F) then
      Rune((a - 0xF0) * 0x40000 + Low(s[1]) * 0x1000 + Low(s[2]) * 0x40 + Low(s[3]), 4)
    else Rune(REPLACEMENT, 1)
  }

  predicate Scalar(code: int) { 0 <= code < 0xD800 || 0xE000 <= code <= 0x10FFFF }

  /** The bytes of a rune; what is no scalar value is written as the replacement character. */
  function Encode(code: int): (r: string)
    ensures 1 <= |r| <= 4
    ensures 0 <= code < 0x80 ==> r == [code as char]
    ensures !(0 <= code < 0x80) ==> forall i :: 0 <= i < |r| ==> r[i] as int >= 0x80
  {
    if !Scalar(code) then [0xEF as char, 0xBF as char, 0xBD as char]
    else if code < 0x80 then [code as char]
    else if code < 0x800 then [(0xC0 + code / 0x40) as char, (0x80 + code % 0x40) as char]
    else if code < 0x10000 then
      [(0xE0 + code / 0x1000) as char, (0x80 + code / 0x40 % 0x40) as char, (0x80 + code % 0x40) as char]
    else
      [(0xF0 + code / 0x40000) as char, (0x80 + code / 0x1000 % 0x40) as char, (0x80 + code / 0x40 % 0x40) as char,
       (0x80 + code % 0x40) as char]
  }

  lemma ThreeBytes(code: int, rest: string)
    requires 0x800 <= code < 0x10000 && Scalar(code)
    ensures FirstRune(Encode(code) + rest) == Rune(code, 3)
  {
    var bytes := Encode(code);
    var s, high := bytes + rest, code / 0x40;
    assert s[0] == bytes[0] && s[1] == bytes[1] && s[2] == bytes[2];
    assert high / 0x40 == code / 0x1000 && high == high / 0x40 * 0x40 + high % 0x40;
    assert code == high * 0x40 + code % 0x40;
  }

  lemma FourBytes(code: int, rest: string)
    requires 0x10000 <= code <= 0x10FFFF
    ensures FirstRune(Encode(code) + rest) == Rune(code, 4)
  {
    var bytes := Encode(code);
    var s, high, top := bytes + rest, code / 0x40, code / 0x1000;
    assert s[0] == bytes[0] && s[1] == bytes[1] && s[2] == bytes[2] && s[3] == bytes[3];
    assert top / 0x40 == code / 0x40000 && top == top / 0x40 * 0x40 + top % 0x40;
    assert high / 0x40 == top && high == top * 0x40 + high % 0x40;
    assert code == high * 0x40 + code % 0x40;
  }

  /** What was encoded is read back, whatever follows it. */
  lemma EncodeRoundTrip(code: int, rest: string)
    requires Scalar(code)
    ensures FirstRune(Encode(code) + rest) == Rune(code, |Encode(code)|)
  {
    if code >= 0x10000 {
      FourBytes(code, rest);
    } else if code >= 0x800 {
      ThreeBytes(code, rest);
    } else {
      var bytes := Encode(code);
      assert (bytes + rest)[0] == bytes[0] && (|bytes| > 1 ==> (bytes + rest)[1] == bytes[1]);
    }
  }

  /** What is read is one byte that begins no rune, or a scalar value and exactly its own bytes. */
  lemma DecodeRoundTrip(s: string)
    requires s != ""
    ensures var r := FirstRune(s); r == Rune(REPLACEMENT, 1) || (Scalar(r.code) && Encode(r.code) == s[..r.width])
  {
    var r := FirstRune(s);
    if r.width == 4 {
      FourBytesBack(s);
    } else if r.width == 3 {
      ThreeBytesBack(s);
    } else if r.width == 2 {
      assert r.code / 0x40 == s[0] as int - 0xC0 && r.code % 0x40 == Low(s[1]);
      assert Encode(r.code) == s[..2];
    }
  }

  lemma ThreeBytesBack(s: string)
    requires s != "" && FirstRune(s).width == 3
    ensures Scalar(FirstRune(s).code) && Encode(FirstRune(s).code) == s[..3]
  {
    var code := FirstRune(s).code;
    var high := (s[0] as int - 0xE0) * 0x40 + Low(s[1]);
    assert code == high * 0x40 + Low(s[2]);
    assert code / 0x40 == high && code % 0x40 == Low(s[2]);
    assert code / 0x1000 == high / 0x40 == s[0] as int - 0xE0 && high % 0x40 == Low(s[1]);
    assert Encode(code) == s[..3];
  }

  lemma FourBytesBack(s: string)
    requires s != "" && FirstRune(s).width == 4
    ensures Scalar(FirstRune(s).code) && Encode(FirstRune(s).code) == s[..4]
  {
    var code := FirstRune(s).code;
    var top := (s[0] as int - 0xF0) * 0x40 + Low(s[1]);
    var high := top * 0x40 + Low(s[2]);
    assert code == high * 0x40 + Low(s[3]);
    assert code / 0x40 == high && code % 0x40 == Low(s[3]);
    assert code / 0x1000 == high / 0x40 == top && high % 0x40 == Low(s[2]);
    assert code / 0x40000 == top / 0x40 == s[0] as int - 0xF0 && top % 0x40 == Low(s[1]);
    assert Encode(code) == s[..4];
  }

  /** The examples of section 7 of RFC 3629. */
  lemma EncodeExamples()
    ensures Encode(0x2262) == [0xE2 as char, 0x89 as char, 0xA2 as char] && Encode(0x0391) == [0xCE as char, 0x91 as char]
    ensures Encode(0x233B4) == [0xF0 as char, 0xA3 as char, 0x8E as char, 0xB4 as char]
  {
  }

  /** A rune that lies within a beginning of the text is read there too. */
  lemma FirstRuneOfPrefix(s: string, k: nat)
    requires s != "" && FirstRune(s).width <= k <= |s|
    ensures FirstRune(s[..k]) == FirstRune(s)
  {
  }
}
