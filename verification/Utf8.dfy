/** Valid texts and keys, said by the characters they hold. */
module Utf8 {
  import opened Types

  /** A Unicode character: no surrogate. */
  predicate Scalar(c: int) { 0 <= c < 0x11_0000 && !(0xD800 <= c < 0xE000) }

  /** The bytes of a character (section 3 of RFC 3629). */
  function Encode(c: int): (b: bytes)
    requires Scalar(c)
    ensures 1 <= |b| <= 4
  {
    if c < 0x80 then [c as char]
    else if c < 0x800 then [(0xC0 + c / 0x40) as char, (0x80 + c % 0x40) as char]
    else if c < 0x1_0000 then
      [(0xE0 + c / 0x1000) as char, (0x80 + c / 0x40 % 0x40) as char, (0x80 + c % 0x40) as char]
    else
      [(0xF0 + c / 0x4_0000) as char, (0x80 + c / 0x1000 % 0x40) as char, (0x80 + c / 0x40 % 0x40) as char,
       (0x80 + c % 0x40) as char]
  }

  predicate Scalars(cs: seq<int>) { forall i :: 0 <= i < |cs| ==> Scalar(cs[i]) }

  function EncodeAll(cs: seq<int>): bytes
    requires Scalars(cs)
  {
    if cs == [] then [] else Encode(cs[0]) + EncodeAll(cs[1..])
  }

  ghost predicate IsText(s: bytes) { exists cs: seq<int> :: Scalars(cs) && EncodeAll(cs) == s }

  lemma {:induction false} EncodedRanges(c: int)
    requires Scalar(c)
    ensures var e := Encode(c);
            match |e|
            case 1 => Between(e[0], 0x00, 0x7F)
            case 2 => Between(e[0], 0xC2, 0xDF) && Between(e[1], 0x80, 0xBF)
            case 3 =>
              && Between(e[0], 0xE0, 0xEF) && Between(e[2], 0x80, 0xBF)
              && Between(e[1], if e[0] as int == 0xE0 then 0xA0 else 0x80, if e[0] as int == 0xED then 0x9F else 0xBF)
            case _ =>
              && Between(e[0], 0xF0, 0xF4) && Between(e[2], 0x80, 0xBF) && Between(e[3], 0x80, 0xBF)
              && Between(e[1], if e[0] as int == 0xF0 then 0x90 else 0x80, if e[0] as int == 0xF4 then 0x8F else 0xBF)
  {
  }

  lemma {:induction false} EncodedIsValid(c: int, rest: bytes)
    requires Scalar(c)
    ensures ValidUtf8(Encode(c) + rest) <==> ValidUtf8(rest)
  {
    EncodedRanges(c);
    hide Encode;
    var e := Encode(c);
    var s := e + rest;
    assert s[|e|..] == rest && s[0] == e[0];
    if |e| > 1 { assert s[1] == e[1]; }
    if |e| > 2 { assert s[2] == e[2]; }
    if |e| > 3 { assert s[3] == e[3]; }
  }

  lemma {:induction false} EncodedAllIsValid(cs: seq<int>)
    requires Scalars(cs)
    ensures ValidUtf8(EncodeAll(cs))
  {
    if cs != [] {
      EncodedAllIsValid(cs[1..]);
      EncodedIsValid(cs[0], EncodeAll(cs[1..]));
    }
  }

  lemma TwoDigits(x: int, y: int)
    requires 0 <= x && 0 <= y < 0x40
    ensures (x * 0x40 + y) / 0x40 == x && (x * 0x40 + y) % 0x40 == y
  {
  }

  lemma ThreeBytes(x: int, y: int, z: int)
    requires 0 <= x < 0x10 && 0 <= y < 0x40 && 0 <= z < 0x40 && Scalar(x * 0x1000 + y * 0x40 + z)
    requires x * 0x1000 + y * 0x40 + z >= 0x800
    ensures Encode(x * 0x1000 + y * 0x40 + z) == [(0xE0 + x) as char, (0x80 + y) as char, (0x80 + z) as char]
  {
    TwoDigits(x * 0x40 + y, z);
    TwoDigits(x, y);
  }

  lemma FourBytes(w: int, x: int, y: int, z: int)
    requires 0 <= w < 8 && 0 <= x < 0x40 && 0 <= y < 0x40 && 0 <= z < 0x40
    requires 0x1_0000 <= w * 0x4_0000 + x * 0x1000 + y * 0x40 + z < 0x11_0000
    ensures Encode(w * 0x4_0000 + x * 0x1000 + y * 0x40 + z)
         == [(0xF0 + w) as char, (0x80 + x) as char, (0x80 + y) as char, (0x80 + z) as char]
  {
    TwoDigits(w * 0x1000 + x * 0x40 + y, z);
    TwoDigits(w * 0x40 + x, y);
    TwoDigits(w, x);
  }

  /** The first character of a valid text. */
  lemma {:induction false} FirstCharacter(s: bytes) returns (c: int)
    requires s != [] && ValidUtf8(s)
    ensures Scalar(c) && |Encode(c)| <= |s| && s == Encode(c) + s[|Encode(c)|..] && ValidUtf8(s[|Encode(c)|..])
  {
    hide Encode;
    var b0 := s[0] as int;
    if b0 < 0x80 {
      c := b0;
      OneByte(c);
    } else if b0 < 0xE0 {
      c := (b0 - 0xC0) * 0x40 + (s[1] as int - 0x80);
      TwoBytes(b0 - 0xC0, s[1] as int - 0x80);
    } else if b0 < 0xF0 {
      c := (b0 - 0xE0) * 0x1000 + (s[1] as int - 0x80) * 0x40 + (s[2] as int - 0x80);
      ThreeBytes(b0 - 0xE0, s[1] as int - 0x80, s[2] as int - 0x80);
    } else {
      c := (b0 - 0xF0) * 0x4_0000 + (s[1] as int - 0x80) * 0x1000 + (s[2] as int - 0x80) * 0x40 + (s[3] as int - 0x80);
      FourBytes(b0 - 0xF0, s[1] as int - 0x80, s[2] as int - 0x80, s[3] as int - 0x80);
    }
    assert Encode(c) == s[..|Encode(c)|];
  }

  lemma OneByte(c: int)
    requires 0 <= c < 0x80
    ensures Encode(c) == [c as char]
  {
  }

  lemma TwoBytes(x: int, y: int)
    requires 2 <= x < 0x20 && 0 <= y < 0x40
    ensures Encode(x * 0x40 + y) == [(0xC0 + x) as char, (0x80 + y) as char]
  {
    TwoDigits(x, y);
  }

  lemma {:induction false} ValidHasCharacters(s: bytes) returns (cs: seq<int>)
    requires ValidUtf8(s)
    ensures Scalars(cs) && EncodeAll(cs) == s
    decreases |s|
  {
    if s == [] {
      cs := [];
    } else {
      var c := FirstCharacter(s);
      var rest := ValidHasCharacters(s[|Encode(c)|..]);
      cs := [c] + rest;
      assert cs[1..] == rest;
    }
  }

  /** utf8.ValidString accepts exactly the encodings of sequences of characters. */
  lemma {:induction false} ValidExactly(s: bytes)
    ensures ValidUtf8(s) <==> IsText(s)
  {
    if ValidUtf8(s) {
      var cs := ValidHasCharacters(s);
    } else {
      forall cs: seq<int> | Scalars(cs) ensures EncodeAll(cs) != s {
        EncodedAllIsValid(cs);
      }
    }
  }

  /** A key is a text that is not empty, not "$", and not "$" with one more byte. */
  lemma {:induction false} KeysExactly(key: bytes)
    ensures ValidKey(key) <==> IsText(key) && key != "" && key != "$" && (|key| == 2 ==> key[0] != '$')
  {
    ValidExactly(key);
  }
}
