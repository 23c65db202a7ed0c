/** BSON as the format defines it: a printer and a parser for documents, and the proofs that they are
    inverse to one another in both directions. Module BsonCodec ties the source's readers and writers to them. */
module Bson {
  import opened Types
  import LE = LittleEndian
  import opened Numerals

  const MAX_DOCUMENT_LEN: int := 16777216
  const MIN_DOCUMENT_LEN: int := 5

  const NUL: byte := '\0'

  // ----- element tags

  const TAG_DOUBLE: byte := 0x01 as char
  const TAG_STRING: byte := 0x02 as char
  const TAG_DOCUMENT: byte := 0x03 as char
  const TAG_ARRAY: byte := 0x04 as char
  const TAG_OBJECT_ID: byte := 0x07 as char
  const TAG_BOOL: byte := 0x08 as char
  const TAG_DATE_TIME: byte := 0x09 as char
  const TAG_NULL: byte := 0x0A as char
  const TAG_REGEX: byte := 0x0B as char
  const TAG_INT32: byte := 0x10 as char
  const TAG_INT64: byte := 0x12 as char

  function Tag(v: Value): (t: byte)
    ensures t != NUL
  {
    match v
    case Document(_) => TAG_DOCUMENT
    case Array(_) => TAG_ARRAY
    case Double(_) => TAG_DOUBLE
    case String(_) => TAG_STRING
    case ObjectID(_) => TAG_OBJECT_ID
    case Bool(_) => TAG_BOOL
    case DateTime(_) => TAG_DATE_TIME
    case Null => TAG_NULL
    case Regex(_, _) => TAG_REGEX
    case Int32(_) => TAG_INT32
    case Int64(_) => TAG_INT64
  }

  // ----- printing

  /** time.Time.UnixMilli: milliseconds since the epoch, rounded towards the past, in an int64. */
  function UnixMilli(nanos: int): int { nanos / 1_000_000 }

  function Frame(elist: bytes): (b: bytes)
    ensures |b| == |elist| + 5
  {
    LE.PutInt32(|elist| + 5) + elist + [NUL]
  }

  function EncodeFields(fs: seq<Field>): (b: bytes)
    decreases fs
  {
    if fs == [] then [] else EncodeField(fs[0].name, fs[0].value) + EncodeFields(fs[1..])
  }

  function EncodeField(name: bytes, v: Value): (b: bytes)
    decreases v, 1
  {
    [Tag(v)] + name + [NUL] + EncodeValue(v)
  }

  /** Array elements are the fields "0", "1", "2", ... of a document. */
  function EncodeElems(es: seq<Value>, first: nat): (b: bytes)
    decreases es
  {
    if es == [] then [] else EncodeField(Itoa(first), es[0]) + EncodeElems(es[1..], first + 1)
  }

  function EncodeValue(v: Value): (b: bytes)
    decreases v, 0
  {
    match v
    case Document(fs) => Frame(EncodeFields(fs))
    case Array(es) => Frame(EncodeElems(es, 0))
    case Double(bits) => LE.Put(bits, 8)
    case String(s) => LE.PutInt32(|s| + 1) + s + [NUL]
    case ObjectID(id) => id
    case Bool(b) => [if b then 0x01 as char else NUL]
    case DateTime(nanos) => LE.PutInt64(UnixMilli(nanos))
    case Null => []
    case Regex(p, o) => p + [NUL] + (o + [NUL])
    case Int32(i) => LE.PutInt32(i)
    case Int64(l) => LE.PutInt64(l)
  }

  function EncodeDocument(fs: seq<Field>): (b: bytes) {
    Frame(EncodeFields(fs))
  }

  /** The document an array is written as. */
  function Indexed(es: seq<Value>, first: nat): (fs: seq<Field>)
    ensures |fs| == |es|
    ensures forall i :: 0 <= i < |es| ==> fs[i] == Field(Itoa(first + i), es[i])
  {
    seq(|es|, i requires 0 <= i < |es| => Field(Itoa(first + i), es[i]))
  }

  // ----- parsing

  type Parsed<T> = Option<(T, bytes)>

  /** bufio.Reader.ReadBytes(0): everything up to and including the first NUL. */
  function CString(b: bytes): (r: Parsed<bytes>)
    ensures r.Some? ==> NUL !in r.value.0 && b == r.value.0 + [NUL] + r.value.1
    ensures r.None? ==> NUL !in b
  {
    if b == [] then None
    else if b[0] == NUL then Some(([], b[1..]))
    else
      match CString(b[1..])
      case None => None
      case Some((s, rest)) => assert b == [b[0]] + b[1..]; Some(([b[0]] + s, rest))
  }

  function Fixed(b: bytes, k: nat): (r: Parsed<bytes>)
    ensures r.Some? ==> |r.value.0| == k && b == r.value.0 + r.value.1
  {
    if |b| < k then None else Some((b[..k], b[k..]))
  }

  /** The length prefix and the bytes it covers, without the prefix. */
  function Framed(b: bytes): (r: Parsed<bytes>)
    ensures r.Some? ==>
      && MIN_DOCUMENT_LEN <= |r.value.0| + 4 <= MAX_DOCUMENT_LEN
      && b == LE.PutInt32(|r.value.0| + 4) + r.value.0 + r.value.1
  {
    if |b| < 4 then None
    else
      var l := LE.GetInt32(b[..4]);
      LE.Int32Canonical(b[..4]);
      if l < MIN_DOCUMENT_LEN || l > MAX_DOCUMENT_LEN || |b| < l then None
      else Some((b[4..l], b[l..]))
  }

  function DecodeDocument(b: bytes): (r: Parsed<seq<Field>>)
    ensures r.Some? ==> |r.value.1| + 5 <= |b|
    decreases |b|, 1
  {
    match Framed(b)
    case None => None
    case Some((body, rest)) =>
      match DecodeFields(body)
      case None => None
      case Some(fs) => if ValidFields(fs) then Some((fs, rest)) else None
  }

  /** The element list with its terminating zero, which must be the last byte. */
  function DecodeFields(b: bytes): (r: Option<seq<Field>>)
    decreases |b|, 0
  {
    if b == [] then None
    else if b[0] == NUL then if |b| == 1 then Some([]) else None
    else
      match CString(b[1..])
      case None => None
      case Some((name, b')) =>
        match DecodeValue(b[0], b')
        case None => None
        case Some((v, b'')) =>
          match DecodeFields(b'')
          case None => None
          case Some(fs) => Some([Field(name, v)] + fs)
  }

  function DecodeValue(tag: byte, b: bytes): (r: Parsed<Value>)
    ensures r.Some? ==> |r.value.1| <= |b|
    decreases |b|, 2
  {
    if tag == TAG_DOCUMENT then
      (match DecodeDocument(b)
       case None => None
       case Some((fs, rest)) => Some((Document(fs), rest)))
    else if tag == TAG_ARRAY then
      (match DecodeDocument(b)
       case None => None
       case Some((fs, rest)) =>
         if forall i :: 0 <= i < |fs| ==> fs[i].name == Itoa(i) then Some((Array(Values(fs)), rest)) else None)
    else
      DecodeScalar(tag, b)
  }

  function Values(fs: seq<Field>): (vs: seq<Value>)
    ensures |vs| == |fs|
  {
    seq(|fs|, i requires 0 <= i < |fs| => fs[i].value)
  }

  function DecodeDouble(b: bytes): (r: Parsed<Value>) {
    match Fixed(b, 8)
    case None => None
    case Some((n, rest)) =>
      LE.PutOfValue(n);
      LE.Widths();
      Some((Double(LE.Value(n)), rest))
  }

  /** The length counts the terminating NUL; the text itself may contain NULs. */
  function DecodeString(b: bytes): (r: Parsed<Value>) {
    match Fixed(b, 4)
    case None => None
    case Some((n, b')) =>
      var l := LE.GetInt32(n);
      if l <= 0 || |b'| < l || b'[l - 1] != NUL then None
      else Some((String(b'[..l - 1]), b'[l..]))
  }

  function DecodeBool(b: bytes): (r: Parsed<Value>) {
    if b == [] then None
    else if b[0] == NUL then Some((Bool(false), b[1..]))
    else if b[0] == 0x01 as char then Some((Bool(true), b[1..]))
    else None
  }

  function DecodeRegex(b: bytes): (r: Parsed<Value>) {
    match CString(b)
    case None => None
    case Some((p, b')) =>
      match CString(b')
      case None => None
      case Some((o, rest)) => Some((Regex(p, o), rest))
  }

  function DecodeScalar(tag: byte, b: bytes): (r: Parsed<Value>)
    ensures r.Some? ==> |r.value.1| <= |b|
  {
    if tag == TAG_DOUBLE then DecodeDouble(b)
    else if tag == TAG_STRING then DecodeString(b)
    else if tag == TAG_BOOL then DecodeBool(b)
    else if tag == TAG_NULL then Some((Null, b))
    else if tag == TAG_REGEX then DecodeRegex(b)
    else if tag == TAG_OBJECT_ID then
      (match Fixed(b, 12)
       case None => None
       case Some((id, rest)) => Some((ObjectID(id), rest)))
    else if tag == TAG_DATE_TIME then
      (match Fixed(b, 8)
       case None => None
       case Some((n, rest)) => Some((DateTime(LE.GetInt64(n) * 1_000_000), rest)))
    else if tag == TAG_INT32 then
      (match Fixed(b, 4)
       case None => None
       case Some((n, rest)) => Some((Int32(LE.GetInt32(n)), rest)))
    else if tag == TAG_INT64 then
      (match Fixed(b, 8)
       case None => None
       case Some((n, rest)) => Some((Int64(LE.GetInt64(n)), rest)))
    else None
  }

  // ----- what the format can carry

  /** A value that passes validation and loses nothing when it is written: names and regular expressions
      without NUL, and dates that are whole milliseconds in the range of an int64. */
  ghost predicate Representable(v: Value) {
    match v
    case Document(fs) => RepresentableFields(fs)
    case Array(es) => forall i :: 0 <= i < |es| ==> Representable(es[i])
    case DateTime(nanos) =>
      nanos % 1_000_000 == 0 && -0x8000_0000_0000_0000 <= UnixMilli(nanos) < 0x8000_0000_0000_0000
    case Regex(p, o) => NUL !in p && NUL !in o
    case _ => true
  }

  ghost predicate RepresentableFields(fs: seq<Field>) {
    && ValidFields(fs)
    && forall i :: 0 <= i < |fs| ==> NUL !in fs[i].name && Representable(fs[i].value)
  }

  // ----- canonical: what is read is what was written

  lemma {:induction false} ElemsAreIndexedFields(es: seq<Value>, first: nat)
    ensures EncodeElems(es, first) == EncodeFields(Indexed(es, first))
    decreases es
  {
    if es != [] {
      ElemsAreIndexedFields(es[1..], first + 1);
      assert Indexed(es, first)[1..] == Indexed(es[1..], first + 1);
    }
  }

  lemma {:induction false} StringCanonical(b: bytes)
    requires DecodeString(b).Some?
    ensures var (v, rest) := DecodeString(b).value; v.String? && b == EncodeValue(v) + rest
  {
    var l := LE.GetInt32(b[..4]);
    LE.Int32Canonical(b[..4]);
    var s := b[4..][..l - 1];
    assert b[4..] == s + [NUL] + b[4..][l..];
    assert b == b[..4] + b[4..];
  }

  lemma {:induction false} RegexCanonical(b: bytes)
    requires DecodeRegex(b).Some?
    ensures var (v, rest) := DecodeRegex(b).value; v.Regex? && Representable(v) && b == EncodeValue(v) + rest
  {
    var (p, b') := CString(b).value;
    var (o, rest) := CString(b').value;
    assert p + [NUL] + (o + [NUL] + rest) == p + [NUL] + (o + [NUL]) + rest;
  }

  lemma {:induction false} FixedCanonical(tag: byte, b: bytes)
    requires tag in {TAG_DOUBLE, TAG_OBJECT_ID, TAG_DATE_TIME, TAG_INT32, TAG_INT64}
    requires DecodeScalar(tag, b).Some?
    ensures var (v, rest) := DecodeScalar(tag, b).value;
            Tag(v) == tag && Representable(v) && b == EncodeValue(v) + rest
  {
    if tag == TAG_DOUBLE {
      LE.PutOfValue(b[..8]);
    } else if tag == TAG_DATE_TIME {
      LE.Int64Canonical(b[..8]);
    } else if tag == TAG_INT32 {
      LE.Int32Canonical(b[..4]);
    } else if tag == TAG_INT64 {
      LE.Int64Canonical(b[..8]);
    }
  }

  lemma {:induction false} ScalarCanonical(tag: byte, b: bytes)
    requires DecodeScalar(tag, b).Some?
    ensures var (v, rest) := DecodeScalar(tag, b).value;
            Tag(v) == tag && Representable(v) && b == EncodeValue(v) + rest
  {
    if tag == TAG_STRING {
      StringCanonical(b);
    } else if tag == TAG_REGEX {
      RegexCanonical(b);
    } else if tag in {TAG_DOUBLE, TAG_OBJECT_ID, TAG_DATE_TIME, TAG_INT32, TAG_INT64} {
      FixedCanonical(tag, b);
    }
  }

  /** Where the parts of a printed field are. */
  lemma {:induction false} FieldText(name: bytes, v: Value, tail: bytes)
    ensures var b := EncodeField(name, v) + tail;
            b[0] == Tag(v) && b[1..] == name + [NUL] + (EncodeValue(v) + tail)
  {
  }

  /** Every accepted document re-encodes to exactly the bytes that were consumed. */
  lemma {:induction false} DocumentCanonical(b: bytes)
    requires DecodeDocument(b).Some?
    ensures var (fs, rest) := DecodeDocument(b).value;
            RepresentableFields(fs) && b == EncodeDocument(fs) + rest && |EncodeDocument(fs)| <= MAX_DOCUMENT_LEN
    decreases |b|, 1
  {
    var (body, rest) := Framed(b).value;
    FieldsCanonical(body);
    var fs := DecodeFields(body).value;
    assert EncodeDocument(fs) == LE.PutInt32(|body| + 4) + body;
  }

  lemma {:induction false} FieldsCanonical(b: bytes)
    requires DecodeFields(b).Some?
    ensures var fs := DecodeFields(b).value;
            && b == EncodeFields(fs) + [NUL]
            && forall i :: 0 <= i < |fs| ==> NUL !in fs[i].name && Representable(fs[i].value)
    decreases |b|, 0
  {
    if b[0] != NUL {
      var (name, b') := CString(b[1..]).value;
      var (v, b'') := DecodeValue(b[0], b').value;
      ValueCanonical(b[0], b');
      FieldsCanonical(b'');
      var fs := DecodeFields(b'').value;
      var all := [Field(name, v)] + fs;
      assert all[1..] == fs;
      var tail := EncodeFields(fs) + [NUL];
      FieldText(name, v, tail);
      HeadTail(b);
      HeadTail(EncodeField(name, v) + tail);
      Assoc(EncodeField(name, v), EncodeFields(fs), [NUL]);
    }
  }

  lemma {:induction false} ValueCanonical(tag: byte, b: bytes)
    requires DecodeValue(tag, b).Some?
    ensures var (v, rest) := DecodeValue(tag, b).value;
            Tag(v) == tag && Representable(v) && b == EncodeValue(v) + rest
    decreases |b|, 2
  {
    if tag == TAG_DOCUMENT {
      DocumentCanonical(b);
    } else if tag == TAG_ARRAY {
      DocumentCanonical(b);
      var (fs, rest) := DecodeDocument(b).value;
      ElemsAreIndexedFields(Values(fs), 0);
      assert Indexed(Values(fs), 0) == fs;
    } else {
      ScalarCanonical(tag, b);
    }
  }

  // ----- lossless: what is written is what is read back

  lemma {:induction false} CStringOf(s: bytes, rest: bytes)
    requires NUL !in s
    ensures CString(s + [NUL] + rest) == Some((s, rest))
  {
    var b := s + [NUL] + rest;
    if s == [] {
      assert b[1..] == rest;
    } else {
      CStringOf(s[1..], rest);
      assert b[1..] == s[1..] + [NUL] + rest;
      assert s == [s[0]] + s[1..];
    }
  }

  lemma {:induction false} FramedOf(elist: bytes, rest: bytes)
    requires |elist| + 5 <= MAX_DOCUMENT_LEN
    ensures Framed(Frame(elist) + rest) == Some((elist + [NUL], rest))
  {
    var b := Frame(elist) + rest;
    LE.Int32RoundTrip(|elist| + 5);
    assert b[..4] == LE.PutInt32(|elist| + 5);
    assert b[4..|elist| + 5] == elist + [NUL];
  }

  lemma {:induction false} FixedOf(e: bytes, rest: bytes)
    ensures Fixed(e + rest, |e|) == Some((e, rest))
  {
  }

  lemma {:induction false} FixedLossless(v: Value, rest: bytes)
    requires v.Double? || v.ObjectID? || v.DateTime? || v.Int32? || v.Int64?
    requires Representable(v)
    ensures DecodeScalar(Tag(v), EncodeValue(v) + rest) == Some((v, rest))
  {
    hide LE.Put, LE.Value, LE.GetInt32, LE.GetInt64, LE.PutInt32, LE.PutInt64;
    FixedOf(EncodeValue(v), rest);
    match v
    case Double(bits) =>
      LE.Widths();
      LE.ValueOfPut(bits, 8);
    case DateTime(nanos) => LE.Int64RoundTrip(UnixMilli(nanos));
    case Int32(i) => LE.Int32RoundTrip(i);
    case Int64(l) => LE.Int64RoundTrip(l);
    case _ =>
  }

  lemma {:induction false} StringLossless(s: bytes, rest: bytes)
    requires |s| + 5 <= MAX_DOCUMENT_LEN
    ensures DecodeString(EncodeValue(String(s)) + rest) == Some((String(s), rest))
  {
    var n := LE.PutInt32(|s| + 1);
    var b' := s + [NUL] + rest;
    LE.Int32RoundTrip(|s| + 1);
    FixedOf(n, b');
    assert EncodeValue(String(s)) + rest == n + b';
    assert b'[|s| + 1..] == rest && b'[..|s|] == s;
  }

  lemma {:induction false} RegexLossless(p: bytes, o: bytes, rest: bytes)
    requires NUL !in p && NUL !in o
    ensures DecodeRegex(EncodeValue(Regex(p, o)) + rest) == Some((Regex(p, o), rest))
  {
    CStringOf(p, o + [NUL] + rest);
    CStringOf(o, rest);
    assert p + [NUL] + (o + [NUL]) + rest == p + [NUL] + (o + [NUL] + rest);
  }

  lemma {:induction false} ScalarLossless(v: Value, rest: bytes)
    requires !v.Document? && !v.Array? && Representable(v) && |EncodeValue(v)| <= MAX_DOCUMENT_LEN
    ensures DecodeScalar(Tag(v), EncodeValue(v) + rest) == Some((v, rest))
  {
    match v
    case String(s) => StringLossless(s, rest);
    case Regex(p, o) => RegexLossless(p, o, rest);
    case Bool(_) => assert (EncodeValue(v) + rest)[1..] == rest;
    case Null => assert EncodeValue(v) + rest == rest;
    case _ => FixedLossless(v, rest);
  }

  /** Reading an encoded document, whatever follows it, gives back the same fields in the same order and
      leaves exactly what follows. */
  lemma {:induction false} DocumentLossless(fs: seq<Field>, rest: bytes)
    requires RepresentableFields(fs) && |EncodeDocument(fs)| <= MAX_DOCUMENT_LEN
    ensures DecodeDocument(EncodeDocument(fs) + rest) == Some((fs, rest))
    decreases fs, 1
  {
    FramedOf(EncodeFields(fs), rest);
    FieldsLossless(fs);
  }

  lemma {:induction false} FieldsLossless(fs: seq<Field>)
    requires forall i :: 0 <= i < |fs| ==> NUL !in fs[i].name && Representable(fs[i].value)
    requires |EncodeFields(fs)| + 5 <= MAX_DOCUMENT_LEN
    ensures DecodeFields(EncodeFields(fs) + [NUL]) == Some(fs)
    decreases fs, 0
  {
    if fs != [] {
      var Field(name, v) := fs[0];
      var tail := EncodeFields(fs[1..]) + [NUL];
      FieldsLossless(fs[1..]);
      FieldText(name, v, tail);
      assert EncodeFields(fs) + [NUL] == EncodeField(name, v) + tail;
      CStringOf(name, EncodeValue(v) + tail);
      ValueLossless(v, tail);
      assert fs == [Field(name, v)] + fs[1..];
    }
  }

  lemma {:induction false} ValueLossless(v: Value, rest: bytes)
    requires Representable(v) && |EncodeValue(v)| <= MAX_DOCUMENT_LEN
    ensures DecodeValue(Tag(v), EncodeValue(v) + rest) == Some((v, rest))
    decreases v, 2
  {
    match v
    case Document(fs) => DocumentLossless(fs, rest);
    case Array(es) => ArrayLossless(es, rest);
    case _ => ScalarLossless(v, rest);
  }

  lemma {:induction false} ArrayLossless(es: seq<Value>, rest: bytes)
    requires forall i :: 0 <= i < |es| ==> Representable(es[i])
    requires |EncodeValue(Array(es))| <= MAX_DOCUMENT_LEN
    ensures DecodeValue(TAG_ARRAY, EncodeValue(Array(es)) + rest) == Some((Array(es), rest))
    decreases es, 2
  {
    var fs := Indexed(es, 0);
    ElemsAreIndexedFields(es, 0);
    FramedOf(EncodeFields(fs), rest);
    ElemsLossless(es, 0);
    IndexedIsValid(es);
    assert Values(fs) == es;
  }

  lemma {:induction false} IndexedIsValid(es: seq<Value>)
    ensures ValidFields(Indexed(es, 0))
  {
    var fs := Indexed(es, 0);
    forall i, j | 0 <= i < j < |fs| ensures fs[i].name != fs[j].name {
      if fs[i].name == fs[j].name { ItoaInjective(i, j); }
    }
    forall i | 0 <= i < |fs| ensures ValidKey(fs[i].name) { ItoaIsValidKey(i); }
  }

  lemma {:induction false} IndexedCons(es: seq<Value>, first: nat)
    requires es != []
    ensures Indexed(es, first) == [Field(Itoa(first), es[0])] + Indexed(es[1..], first + 1)
  {
    var cons := [Field(Itoa(first), es[0])] + Indexed(es[1..], first + 1);
    forall i | 0 <= i < |es| ensures cons[i] == Indexed(es, first)[i] {
      if i > 0 { assert cons[i] == Indexed(es[1..], first + 1)[i - 1]; }
    }
  }

  lemma {:induction false} ElemsLossless(es: seq<Value>, first: nat)
    requires forall i :: 0 <= i < |es| ==> Representable(es[i])
    requires |EncodeElems(es, first)| + 5 <= MAX_DOCUMENT_LEN
    ensures DecodeFields(EncodeElems(es, first) + [NUL]) == Some(Indexed(es, first))
    decreases es, 0
  {
    if es != [] {
      var name := Itoa(first);
      var tail := EncodeElems(es[1..], first + 1) + [NUL];
      ElemsLossless(es[1..], first + 1);
      FieldText(name, es[0], tail);
      assert EncodeElems(es, first) + [NUL] == EncodeField(name, es[0]) + tail;
      ItoaIsValidKey(first);
      CStringOf(name, EncodeValue(es[0]) + tail);
      ValueLossless(es[0], tail);
      IndexedCons(es, first);
    }
  }

  /** Both directions at once: what the parser accepts is exactly what the printer can produce. */
  lemma {:induction false} DecodesExactly(b: bytes, fs: seq<Field>, rest: bytes)
    ensures DecodeDocument(b) == Some((fs, rest)) <==>
            RepresentableFields(fs) && |EncodeDocument(fs)| <= 16_777_216 && b == EncodeDocument(fs) + rest
  {
    if DecodeDocument(b) == Some((fs, rest)) {
      DocumentCanonical(b);
    } else if RepresentableFields(fs) && |EncodeDocument(fs)| <= MAX_DOCUMENT_LEN && b == EncodeDocument(fs) + rest {
      DocumentLossless(fs, rest);
    }
  }

  // ----- nesting depth

  function Max(a: nat, b: nat): nat { if a < b then b else a }

  /** How many documents and arrays are nested in one another, the outermost counting one. */
  function DepthFields(fs: seq<Field>): (d: nat)
    decreases fs
  {
    if fs == [] then 0 else Max(Depth(fs[0].value), DepthFields(fs[1..]))
  }

  function DepthElems(es: seq<Value>): (d: nat)
    decreases es
  {
    if es == [] then 0 else Max(Depth(es[0]), DepthElems(es[1..]))
  }

  function Depth(v: Value): (d: nat)
    decreases v
  {
    match v
    case Document(fs) => 1 + DepthFields(fs)
    case Array(es) => 1 + DepthElems(es)
    case _ => 0
  }

  /** A value that contains d levels of nesting takes at least 8 * d - 3 bytes. */
  lemma {:induction false} DepthIsPaidFor(v: Value)
    requires Representable(v)
    ensures 8 * Depth(v) <= |EncodeValue(v)| + 3
    decreases v, 1
  {
    match v
    case Document(fs) => FieldsDepthIsPaidFor(fs);
    case Array(es) => ElemsDepthIsPaidFor(es, 0);
    case _ =>
  }

  lemma {:induction false} FieldsDepthIsPaidFor(fs: seq<Field>)
    requires forall i :: 0 <= i < |fs| ==> ValidKey(fs[i].name) && Representable(fs[i].value)
    ensures 8 * DepthFields(fs) <= |EncodeFields(fs)|
    decreases fs, 0
  {
    if fs != [] {
      DepthIsPaidFor(fs[0].value);
      FieldsDepthIsPaidFor(fs[1..]);
    }
  }

  lemma {:induction false} ElemsDepthIsPaidFor(es: seq<Value>, first: nat)
    requires forall i :: 0 <= i < |es| ==> Representable(es[i])
    ensures 8 * DepthElems(es) <= |EncodeElems(es, first)|
    decreases es, 0
  {
    if es != [] {
      DepthIsPaidFor(es[0]);
      ElemsDepthIsPaidFor(es[1..], first + 1);
    }
  }

  /** The reader has no nesting limit of its own; the length prefix l allows depth (l - 5) / 8 + 1 and no more. */
  lemma {:induction false} DepthBound(b: bytes)
    requires DecodeDocument(b).Some?
    ensures var (fs, rest) := DecodeDocument(b).value;
            var l := LE.GetInt32(b[..4]);
            |b| == l + |rest| && Depth(Document(fs)) <= (l - 5) / 8 + 1
  {
    var (fs, rest) := DecodeDocument(b).value;
    DocumentCanonical(b);
    DepthIsPaidFor(Document(fs));
    LE.Int32RoundTrip(|EncodeDocument(fs)|);
    assert b[..4] == LE.PutInt32(|EncodeDocument(fs)|);
  }
}
