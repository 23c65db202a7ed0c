/** The values that flow between the wire protocol, the handlers and the storage (package types).
    A Go string is a sequence of bytes; a byte is a character below 256. */
module Types {
  type byte = c: char | c as int < 0x100 witness 'a'
  type bytes = seq<byte>

  type int32 = n: int | -0x8000_0000 <= n < 0x8000_0000
  type int64 = n: int | -0x8000_0000_0000_0000 <= n < 0x8000_0000_0000_0000
  type uint32 = n: int | 0 <= n < 0x1_0000_0000
  type uint64 = n: int | 0 <= n < 0x1_0000_0000_0000_0000

  type ObjectId = b: bytes | |b| == 12 witness ['a', 'a', 'a', 'a', 'a', 'a', 'a', 'a', 'a', 'a', 'a', 'a']

  datatype Option<+T> = None | Some(value: T)

  /** A document is an ordered list of fields. In the source it is a map together with a key order;
      for a validated document the two representations carry the same information. */
  datatype Value =
    | Document(fields: seq<Field>)
    | Array(elems: seq<Value>)
    | Double(bits: uint64)
    | String(s: bytes)
    | ObjectID(id: ObjectId)
    | Bool(b: bool)
    | DateTime(nanos: int) // nanoseconds since the Unix epoch
    | Null
    | Regex(pattern: bytes, options: bytes)
    | Int32(i: int32)
    | Int64(l: int64)

  datatype Field = Field(name: bytes, value: Value)

  // ----- keys and lookup

  function Names(fs: seq<Field>): (names: seq<bytes>)
    ensures |names| == |fs|
    ensures forall i :: 0 <= i < |fs| ==> names[i] == fs[i].name
  {
    seq(|fs|, i requires 0 <= i < |fs| => fs[i].name)
  }

  /** Document.Get: the value of the first field with this name. */
  function Get(fs: seq<Field>, name: bytes): (v: Option<Value>)
    ensures v.Some? <==> exists i :: 0 <= i < |fs| && fs[i].name == name
    ensures v.Some? ==> exists i :: 0 <= i < |fs| && fs[i] == Field(name, v.value)
  {
    if fs == [] then None
    else if fs[0].name == name then assert fs[0] == Field(name, fs[0].value); Some(fs[0].value)
    else
      var r := Get(fs[1..], name);
      assert forall i :: 0 <= i < |fs[1..]| ==> fs[1..][i] == fs[i + 1];
      r
  }

  ghost predicate NoDup<T>(s: seq<T>) {
    forall i, j :: 0 <= i < j < |s| ==> s[i] != s[j]
  }

  // ----- sequences

  lemma Assoc<T>(a: seq<T>, b: seq<T>, c: seq<T>)
    ensures a + b + c == a + (b + c)
  {
  }

  lemma HeadTail<T>(s: seq<T>)
    requires s != []
    ensures s == [s[0]] + s[1..]
  {
  }

  lemma Split<T>(s: seq<T>, k: nat)
    requires k <= |s|
    ensures s == s[..k] + s[k..]
  {
  }

  /** Removing an element behind the first one. */
  lemma RemoveInTail<T>(s: seq<T>, k: nat)
    requires 0 < k < |s|
    ensures [s[0]] + (s[1..][..k - 1] + s[1..][k..]) == s[..k] + s[k + 1..]
  {
    assert s[1..][k..] == s[k + 1..];
    assert [s[0]] + s[1..][..k - 1] == s[..k];
    Assoc([s[0]], s[1..][..k - 1], s[k + 1..]);
  }

  // ----- validation

  predicate Between(b: byte, lo: int, hi: int) {
    lo <= b as int <= hi
  }

  /** utf8.ValidString: the byte sequences of RFC 3629, section 4. */
  predicate ValidUtf8(s: bytes) {
    if s == [] then true
    else if Between(s[0], 0x00, 0x7F) then ValidUtf8(s[1..])
    else if Between(s[0], 0xC2, 0xDF) then |s| >= 2 && Between(s[1], 0x80, 0xBF) && ValidUtf8(s[2..])
    else if Between(s[0], 0xE0, 0xEF) then
      && |s| >= 3
      && Between(s[1], if s[0] as int == 0xE0 then 0xA0 else 0x80, if s[0] as int == 0xED then 0x9F else 0xBF)
      && Between(s[2], 0x80, 0xBF)
      && ValidUtf8(s[3..])
    else if Between(s[0], 0xF0, 0xF4) then
      && |s| >= 4
      && Between(s[1], if s[0] as int == 0xF0 then 0x90 else 0x80, if s[0] as int == 0xF4 then 0x8F else 0xBF)
      && Between(s[2], 0x80, 0xBF)
      && Between(s[3], 0x80, 0xBF)
      && ValidUtf8(s[4..])
    else false
  }

  /** isValidKey: not empty, not "$" or "$x", and valid UTF-8. */
  predicate ValidKey(key: bytes) {
    key != [] && !(key[0] == '$' && |key| <= 2) && ValidUtf8(key)
  }

  /** Document.validate on one level: every name is a valid key and no name occurs twice. The documents nested
      in a document have passed it before (they are validated when they are built, read or written). */
  predicate ValidFields(fs: seq<Field>) {
    && (forall i :: 0 <= i < |fs| ==> ValidKey(fs[i].name))
    && (forall i, j :: 0 <= i < j < |fs| ==> fs[i].name != fs[j].name)
  }

  /** types.Document.Set: an invalid key is refused, an existing key keeps its position. */
  function Set(doc: seq<Field>, key: bytes, v: Value): (r: Option<seq<Field>>) {
    if !ValidKey(key) then None
    else if Get(doc, key).None? then Some(doc + [Field(key, v)])
    else Some(Replace(doc, key, v))
  }

  function Replace(doc: seq<Field>, key: bytes, v: Value): (r: seq<Field>)
    ensures Names(r) == Names(doc)
  {
    if doc == [] then []
    else if doc[0].name == key then [Field(key, v)] + doc[1..]
    else
      assert Names(doc) == [doc[0].name] + Names(doc[1..]);
      [doc[0]] + Replace(doc[1..], key, v)
  }

  /** The fields with other names, in order. */
  function Without(fs: seq<Field>, name: bytes): (r: seq<Field>)
    ensures forall f :: f in r <==> f in fs && f.name != name
  {
    if fs == [] then []
    else (if fs[0].name == name then [] else [fs[0]]) + Without(fs[1..], name)
  }

  lemma GetCons(f: Field, fs: seq<Field>, name: bytes)
    ensures Get([f] + fs, name) == if f.name == name then Some(f.value) else Get(fs, name)
  {
    assert ([f] + fs)[1..] == fs;
  }

  lemma {:induction false} GetAppend(fs: seq<Field>, f: Field, name: bytes)
    ensures Get(fs + [f], name)
         == if Get(fs, name).Some? then Get(fs, name) else if f.name == name then Some(f.value) else None
  {
    if fs == [] {
      assert fs + [f] == [f] + [];
      GetCons(f, [], name);
    } else {
      GetAppend(fs[1..], f, name);
      assert fs + [f] == [fs[0]] + (fs[1..] + [f]);
      GetCons(fs[0], fs[1..] + [f], name);
    }
  }

  lemma {:induction false} GetReplace(fs: seq<Field>, key: bytes, v: Value, name: bytes)
    requires Get(fs, key).Some?
    ensures Get(Replace(fs, key, v), name) == if name == key then Some(v) else Get(fs, name)
  {
    if fs[0].name == key {
      GetCons(Field(key, v), fs[1..], name);
    } else {
      GetReplace(fs[1..], key, v, name);
      GetCons(fs[0], Replace(fs[1..], key, v), name);
    }
  }

  lemma {:induction false} ReplaceSame(fs: seq<Field>, n: bytes, v: Value)
    requires Get(fs, n) == Some(v)
    ensures Replace(fs, n, v) == fs
  {
    HeadTail(fs);
    if fs[0].name != n { ReplaceSame(fs[1..], n, v); }
  }

  lemma {:induction false} GetWithout(fs: seq<Field>, key: bytes, name: bytes)
    ensures Get(Without(fs, key), name) == if name == key then None else Get(fs, name)
  {
    if fs != [] {
      GetWithout(fs[1..], key, name);
      if fs[0].name != key {
        GetCons(fs[0], Without(fs[1..], key), name);
      } else {
        assert [] + Without(fs[1..], key) == Without(fs[1..], key);
      }
    }
  }
}
