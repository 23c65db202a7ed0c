/** strconv.Itoa and strconv.Atoi: array positions travel through the system as decimal text. */
module Numerals {
  import opened Types

  predicate IsDigit(c: byte) { '0' <= c <= '9' }

  function Itoa(n: nat): (s: bytes)
    ensures s != []
    ensures forall i :: 0 <= i < |s| ==> IsDigit(s[i])
  {
    var d: bytes := [('0' as int + n % 10) as char];
    if n < 10 then d else Itoa(n / 10) + d
  }

  function Digits(s: bytes): (n: nat)
    requires forall i :: 0 <= i < |s| ==> IsDigit(s[i])
  {
    if s == [] then 0
    else assert IsDigit(s[|s| - 1]); Digits(s[..|s| - 1]) * 10 + (s[|s| - 1] as int - '0' as int)
  }

  predicate AllDigits(s: bytes) { forall i :: 0 <= i < |s| ==> IsDigit(s[i]) }

  function WithoutSign(s: bytes): bytes { if s != [] && (s[0] == '+' || s[0] == '-') then s[1..] else s }

  /** Atoi accepts one optional sign and at least one digit, and fails outside the range of a 64-bit int. */
  function Atoi(s: bytes): (n: Option<int>) {
    var digits := WithoutSign(s);
    if digits == [] || !AllDigits(digits) then None
    else
      var m: int := Digits(digits);
      var v: int := if s[0] == '-' then -m else m;
      if -0x8000_0000_0000_0000 <= v < 0x8000_0000_0000_0000 then Some(v) else None
  }

  lemma {:induction false} DigitsOfItoa(n: nat)
    ensures Digits(Itoa(n)) == n
  {
    if n >= 10 {
      DigitsOfItoa(n / 10);
      assert Itoa(n)[..|Itoa(n)| - 1] == Itoa(n / 10);
    }
  }

  /** Digits are read as their number, with either sign, as far as 64 bits go. */
  lemma {:induction false} AtoiOfDigits(s: bytes)
    requires s != [] && AllDigits(s)
    ensures var m: int := Digits(s);
            && Atoi(s) == (if m < 0x8000_0000_0000_0000 then Some(m) else None)
            && Atoi(['+'] + s) == (if m < 0x8000_0000_0000_0000 then Some(m) else None)
            && Atoi(['-'] + s) == (if m <= 0x8000_0000_0000_0000 then Some(-m) else None)
  {
    hide Digits;
    assert IsDigit(s[0]);
    assert WithoutSign(s) == s && WithoutSign(['+'] + s) == s && WithoutSign(['-'] + s) == s;
  }

  lemma ItoaInjective(m: nat, n: nat)
    requires Itoa(m) == Itoa(n)
    ensures m == n
  {
    DigitsOfItoa(m);
    DigitsOfItoa(n);
  }

  /** A numeral is a valid document key without a NUL. */
  lemma {:induction false} DigitsAreValidUtf8(s: bytes)
    requires forall i :: 0 <= i < |s| ==> IsDigit(s[i])
    ensures ValidUtf8(s)
  {
    if s != [] {
      assert IsDigit(s[0]);
      DigitsAreValidUtf8(s[1..]);
    }
  }

  lemma ItoaIsValidKey(n: nat)
    ensures ValidKey(Itoa(n)) && '\0' !in Itoa(n)
  {
    DigitsAreValidUtf8(Itoa(n));
    assert IsDigit(Itoa(n)[0]);
  }
}
