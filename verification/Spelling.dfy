/** How the names of operators are spelled. */
module Spelling {
  import opened Types

  /** The capital I with a dot above (U+0130) in UTF-8, the one letter beside A-Z that becomes a letter of an operator's
      name in lower case. */
  predicate StartsWithDottedI(key: bytes) { |key| >= 2 && key[0] as int == 0xC4 && key[1] as int == 0xB0 }

  predicate SameLetter(c: byte, small: byte) {
    c == small || ('a' <= small <= 'z' && c as int + 32 == small as int)
  }

  /** The key spells the name, which is given in lower case. */
  predicate Spells(key: bytes, name: bytes)
    decreases |name|
  {
    if name == [] then key == []
    else
      || (key != [] && SameLetter(key[0], name[0]) && Spells(key[1..], name[1..]))
      || (name[0] == 'i' && StartsWithDottedI(key) && Spells(key[2..], name[1..]))
  }

  function LowerByte(c: byte): byte {
    if 'A' <= c <= 'Z' then (c as int + 32) as char else c
  }

  /** strings.ToLower, as far as ASCII letters come out of it. */
  function ToLower(s: bytes): bytes
    decreases |s|
  {
    if s == [] then []
    else if StartsWithDottedI(s) then ['i'] + ToLower(s[2..])
    else [LowerByte(s[0])] + ToLower(s[1..])
  }

  predicate SmallAscii(name: bytes) {
    forall i :: 0 <= i < |name| ==> name[i] as int < 0x80 && !('A' <= name[i] <= 'Z')
  }

  /** The two ways of comparing names agree. */
  lemma {:induction false} SpelledInAnyCase(key: bytes, name: bytes)
    requires SmallAscii(name)
    ensures ToLower(key) == name <==> Spells(key, name)
    decreases |key|
  {
    if key != [] && name != [] {
      var w := if StartsWithDottedI(key) then 2 else 1;
      SpelledInAnyCase(key[w..], name[1..]);
      HeadTail(name);
      var lower := ToLower(key);
      assert lower[1..] == ToLower(key[w..]);
      HeadTail(lower);
    }
  }

  lemma {:induction false} SpellsItself(name: bytes)
    ensures Spells(name, name)
  {
    if name != [] { SpellsItself(name[1..]); }
  }
}
