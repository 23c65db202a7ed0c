/** The readers and writers of package bson: they consume a reader and fill a map and a key list, or write into a
    buffer. Each one is proved against module Bson, so the inverse laws proved there hold for them. */
module BsonCodec {
  import opened Types
  import opened Bson
  import opened Numerals
  import LE = LittleEndian

  /** A bufio.Reader over a byte slice. */
  class Reader {
    const data: bytes
    var pos: nat

    constructor (data: bytes)
      ensures Valid() && Rest() == data
    {
      this.data := data;
      pos := 0;
    }

    ghost predicate Valid()
      reads this
    {
      pos <= |data|
    }

    /** What has not been consumed yet. */
    function Rest(): (b: bytes)
      requires Valid()
      reads this
    {
      data[pos..]
    }

    method ReadByte() returns (c: Option<byte>)
      requires Valid()
      modifies this
      ensures Valid()
      ensures c.None? <==> old(Rest()) == []
      ensures c.Some? ==> old(Rest()) == [c.value] + Rest()
    {
      if pos == |data| { return None; }
      c := Some(data[pos]);
      pos := pos + 1;
    }

    method ReadFull(n: nat) returns (b: Option<bytes>)
      requires Valid()
      modifies this
      ensures Valid()
      ensures Fixed(old(Rest()), n) == if b.Some? then Some((b.value, Rest())) else None
    {
      if |data| - pos < n { return None; }
      b := Some(data[pos..pos + n]);
      FixedOf(b.value, data[pos + n..]);
      assert data[pos..] == b.value + data[pos + n..];
      pos := pos + n;
    }

    /** CString.ReadFrom, that is ReadBytes(0) without the NUL. */
    method ReadCString() returns (s: Option<bytes>)
      requires Valid()
      modifies this
      ensures Valid()
      ensures CString(old(Rest())) == if s.Some? then Some((s.value, Rest())) else None
    {
      var start := pos;
      while pos < |data| && data[pos] != NUL
        invariant start <= pos <= |data|
        invariant NUL !in data[start..pos]
        modifies this
      {
        pos := pos + 1;
      }
      if pos == |data| {
        assert data[start..] == data[start..pos];
        return None;
      }
      s := Some(data[start..pos]);
      CStringOf(data[start..pos], data[pos + 1..]);
      assert data[start..] == data[start..pos] + [NUL] + data[pos + 1..];
      pos := pos + 1;
    }
  }

  // ----- scalars

  method ReadString(r: Reader) returns (v: Option<Value>)
    requires r.Valid()
    modifies r
    ensures r.Valid()
    ensures DecodeString(old(r.Rest())) == if v.Some? then Some((v.value, r.Rest())) else None
  {
    var n := r.ReadFull(4);
    if n.None? { return None; }
    var l := LE.GetInt32(n.value);
    if l <= 0 { return None; }
    ghost var b' := r.Rest();
    var b := r.ReadFull(l);
    if b.None? || b.value[l - 1] != NUL { return None; }
    assert b'[..l - 1] == b.value[..l - 1] && b'[l..] == r.Rest();
    v := Some(String(b.value[..l - 1]));
  }

  method ReadRegex(r: Reader) returns (v: Option<Value>)
    requires r.Valid()
    modifies r
    ensures r.Valid()
    ensures DecodeRegex(old(r.Rest())) == if v.Some? then Some((v.value, r.Rest())) else None
  {
    var pattern := r.ReadCString();
    if pattern.None? { return None; }
    var options := r.ReadCString();
    if options.None? { return None; }
    v := Some(Regex(pattern.value, options.value));
  }

  method ReadBool(r: Reader) returns (v: Option<Value>)
    requires r.Valid()
    modifies r
    ensures r.Valid()
    ensures DecodeBool(old(r.Rest())) == if v.Some? then Some((v.value, r.Rest())) else None
  {
    var c := r.ReadByte();
    if c == Some(NUL) {
      v := Some(Bool(false));
    } else if c == Some(0x01 as char) {
      v := Some(Bool(true));
    } else {
      v := None;
    }
  }

  method ReadScalar(tag: byte, r: Reader) returns (v: Option<Value>)
    requires r.Valid()
    modifies r
    ensures r.Valid()
    ensures DecodeScalar(tag, old(r.Rest())) == if v.Some? then Some((v.value, r.Rest())) else None
  {
    if tag == TAG_STRING {
      v := ReadString(r);
    } else if tag == TAG_REGEX {
      v := ReadRegex(r);
    } else if tag == TAG_BOOL {
      v := ReadBool(r);
    } else if tag == TAG_NULL {
      v := Some(Null);
    } else if tag in {TAG_DOUBLE, TAG_OBJECT_ID, TAG_DATE_TIME, TAG_INT32, TAG_INT64} {
      var n := r.ReadFull(if tag == TAG_OBJECT_ID then 12 else if tag == TAG_INT32 then 4 else 8);
      if n.None? { return None; }
      if tag == TAG_DOUBLE {
        LE.PutOfValue(n.value);
        LE.Widths();
        v := Some(Double(LE.Value(n.value)));
      } else if tag == TAG_OBJECT_ID {
        v := Some(ObjectID(n.value));
      } else if tag == TAG_DATE_TIME {
        v := Some(DateTime(LE.GetInt64(n.value) * 1_000_000));
      } else if tag == TAG_INT32 {
        v := Some(Int32(LE.GetInt32(n.value)));
      } else {
        v := Some(Int64(LE.GetInt64(n.value)));
      }
    } else {
      v := None;
    }
  }

  // ----- documents

  /** Results of a loop that has read the fields acc and still has to read the rest. */
  ghost function Prepend(acc: seq<Field>, rest: Option<seq<Field>>): Option<seq<Field>> {
    if rest.None? then None else Some(acc + rest.value)
  }

  /** The map a list of assignments leaves behind: the last value of each name wins. */
  ghost function MapOf(fs: seq<Field>): (m: map<bytes, Value>) {
    if fs == [] then map[] else MapOf(fs[..|fs| - 1])[fs[|fs| - 1].name := fs[|fs| - 1].value]
  }

  ghost predicate Distinct(fs: seq<Field>) {
    forall i, j :: 0 <= i < j < |fs| ==> fs[i].name != fs[j].name
  }

  lemma {:induction false} MapHasName(fs: seq<Field>, i: nat)
    requires i < |fs|
    ensures fs[i].name in MapOf(fs)
    ensures Distinct(fs) ==> MapOf(fs)[fs[i].name] == fs[i].value
  {
    var last := |fs| - 1;
    if i < last {
      MapHasName(fs[..last], i);
      assert fs[..last][i] == fs[i];
    }
  }

  lemma {:induction false} MapHasOnlyNames(fs: seq<Field>, k: bytes)
    requires k in MapOf(fs)
    ensures exists i :: 0 <= i < |fs| && fs[i].name == k
  {
    var last := |fs| - 1;
    if fs[last].name != k {
      MapHasOnlyNames(fs[..last], k);
      var i :| 0 <= i < last && fs[..last][i].name == k;
      assert fs[i].name == k;
    }
  }

  lemma {:induction false} MapSize(fs: seq<Field>)
    requires Distinct(fs)
    ensures |MapOf(fs)| == |fs|
  {
    if fs != [] {
      var last := |fs| - 1;
      MapSize(fs[..last]);
      if fs[last].name in MapOf(fs[..last]) {
        MapHasOnlyNames(fs[..last], fs[last].name);
      }
    }
  }

  /** A key list and a map taken together as one ordered document. */
  function FieldsOf(keys: seq<bytes>, m: map<bytes, Value>): (fs: seq<Field>)
    requires forall i :: 0 <= i < |keys| ==> keys[i] in m
  {
    seq(|keys|, i requires 0 <= i < |keys| => Field(keys[i], m[keys[i]]))
  }

  lemma {:induction false} FieldsOfMapOf(fs: seq<Field>)
    requires Distinct(fs)
    ensures forall i :: 0 <= i < |fs| ==> Names(fs)[i] in MapOf(fs)
    ensures FieldsOf(Names(fs), MapOf(fs)) == fs
  {
    forall i | 0 <= i < |fs| ensures Names(fs)[i] in MapOf(fs) && MapOf(fs)[Names(fs)[i]] == fs[i].value {
      MapHasName(fs, i);
    }
  }

  /** The fields acc have been read from input, and rest is still to be read. */
  ghost predicate Progress(input: bytes, acc: seq<Field>, rest: bytes) {
    DecodeFields(input) == Prepend(acc, DecodeFields(rest))
  }

  lemma {:induction false} ListStarted(b: bytes)
    ensures Progress(b, [], b)
  {
    if DecodeFields(b).Some? { assert [] + DecodeFields(b).value == DecodeFields(b).value; }
  }

  lemma {:induction false} ListEnded(input: bytes, acc: seq<Field>, b: bytes)
    requires Progress(input, acc, b) && b != [] && b[0] == NUL
    ensures DecodeFields(input) == if |b| == 1 then Some(acc) else None
  {
    assert acc + [] == acc;
  }

  lemma {:induction false} ElementRead(input: bytes, acc: seq<Field>, b: bytes, name: bytes, v: Value, rest: bytes)
    requires Progress(input, acc, b) && b != [] && b[0] != NUL
    requires CString(b[1..]).Some? && CString(b[1..]).value.0 == name
    requires DecodeValue(b[0], CString(b[1..]).value.1) == Some((v, rest))
    ensures Progress(input, acc + [Field(name, v)], rest)
    ensures MapOf(acc + [Field(name, v)]) == MapOf(acc)[name := v]
    ensures Names(acc + [Field(name, v)]) == Names(acc) + [name]
  {
    var f := Field(name, v);
    assert DecodeFields(b) == Prepend([f], DecodeFields(rest));
    PrependAppend(acc, f, DecodeFields(rest));
    assert (acc + [f])[..|acc|] == acc;
  }

  lemma {:induction false} PrependAppend(acc: seq<Field>, f: Field, rest: Option<seq<Field>>)
    ensures Prepend(acc, Prepend([f], rest)) == Prepend(acc + [f], rest)
  {
    if rest.Some? {
      assert acc + ([f] + rest.value) == acc + [f] + rest.value;
    }
  }

  class Document {
    var m: map<bytes, Value>
    var keys: seq<bytes>

    constructor ()
      ensures m == map[] && keys == []
    {
      m := map[];
      keys := [];
    }

    ghost predicate Agrees()
      reads this
    {
      forall i :: 0 <= i < |keys| ==> keys[i] in m
    }

    /** types.ConvertDocument: the map and the key list as one value. */
    function Fields(): (fs: seq<Field>)
      requires Agrees()
      reads this
    {
      FieldsOf(keys, m)
    }

    /** types.Document.validate on the map and key list that the assignments fs left behind. */
    method Validate(ghost fs: seq<Field>) returns (ok: bool)
      requires keys == Names(fs) && m == MapOf(fs)
      ensures ok <==> ValidFields(fs)
      ensures ok ==> Agrees() && Fields() == fs
    {
      hide MapOf, ValidKey;
      if |m| != |keys| {
        if Distinct(fs) { MapSize(fs); }
        return false;
      }
      var prevKeys := {};
      for i := 0 to |keys|
        invariant forall k :: k in prevKeys <==> k in keys[..i]
        invariant ValidFields(fs[..i])
      {
        if !ValidKey(keys[i]) || keys[i] in prevKeys {
          assert fs[i].name == keys[i];
          return false;
        }
        prevKeys := prevKeys + {keys[i]};
      }
      FieldsOfMapOf(fs);
      ok := true;
    }

    /** The element loop of Document.ReadFrom, over the bytes that the length prefix covers. */
    method ReadElements(b: bytes) returns (ok: bool, ghost acc: seq<Field>)
      modifies this
      ensures DecodeFields(b) == if ok then Some(acc) else None
      ensures ok ==> keys == Names(acc) && m == MapOf(acc)
      decreases |b|, 4
    {
      var bufr := new Reader(b);
      m, keys, acc := map[], [], [];
      ListStarted(b);
      while true
        invariant bufr.Valid() && fresh(bufr)
        invariant |bufr.Rest()| <= |b|
        invariant keys == Names(acc) && m == MapOf(acc)
        invariant Progress(b, acc, bufr.Rest())
        decreases |bufr.Rest()|
      {
        ghost var before := bufr.Rest();
        var t := bufr.ReadByte();
        if t.None? { return false, []; }
        assert before[1..] == bufr.Rest();
        if t.value == NUL {
          // the document has ended, and so must the reader
          ListEnded(b, acc, before);
          return bufr.pos == |bufr.data|, acc;
        }
        var ename := bufr.ReadCString();
        if ename.None? { return false, []; }
        keys := keys + [ename.value];
        var v := ReadElement(t.value, bufr);
        if v.None? { return false, []; }
        m := m[ename.value := v.value];

        ElementRead(b, acc, before, ename.value, v.value, bufr.Rest());
        acc := acc + [Field(ename.value, v.value)];
      }
    }

    /** Document.ReadFrom. */
    method ReadFrom(r: Reader) returns (ok: bool)
      requires r.Valid()
      modifies this, r
      ensures r.Valid()
      ensures ok <==> DecodeDocument(old(r.Rest())).Some?
      ensures ok ==> Agrees() && DecodeDocument(old(r.Rest())) == Some((Fields(), r.Rest()))
      decreases |r.Rest()|, 1
    {
      ghost var input := r.Rest();
      var n := r.ReadFull(4);
      if n.None? { return false; }
      var l := LE.GetInt32(n.value);
      if l < MIN_DOCUMENT_LEN || l > MAX_DOCUMENT_LEN { return false; }
      var b := r.ReadFull(l - 4);
      if b.None? { return false; }
      assert input[4..l] == b.value && input[l..] == r.Rest();
      ghost var acc;
      ok, acc := ReadElements(b.value);
      if ok {
        ok := Validate(acc);
      }
    }
  }

  /** The switch over element types. */
  method ReadElement(tag: byte, r: Reader) returns (v: Option<Value>)
    requires r.Valid()
    modifies r
    ensures r.Valid()
    ensures DecodeValue(tag, old(r.Rest())) == if v.Some? then Some((v.value, r.Rest())) else None
    decreases |r.Rest()|, 3
  {
    if tag == TAG_DOCUMENT {
      var doc := new Document();
      var ok := doc.ReadFrom(r);
      if !ok { return None; }
      v := Some(Value.Document(doc.Fields()));
    } else if tag == TAG_ARRAY {
      v := ReadArray(r);
    } else {
      v := ReadScalar(tag, r);
    }
  }

  /** Array.ReadFrom: a document whose keys must be 0, 1, 2, ... */
  method ReadArray(r: Reader) returns (v: Option<Value>)
    requires r.Valid()
    modifies r
    ensures r.Valid()
    ensures DecodeValue(TAG_ARRAY, old(r.Rest())) == if v.Some? then Some((v.value, r.Rest())) else None
    decreases |r.Rest()|, 2
  {
    var doc := new Document();
    var ok := doc.ReadFrom(r);
    if !ok { return None; }
    ghost var fs := doc.Fields();
    var ta: seq<Value> := [];
    for i := 0 to |doc.keys|
      invariant forall j :: 0 <= j < i ==> fs[j].name == Itoa(j)
      invariant |ta| == i && forall j :: 0 <= j < i ==> ta[j] == fs[j].value
    {
      if doc.keys[i] != Itoa(i) {
        assert fs[i].name != Itoa(i);
        return None;
      }
      ta := ta + [doc.m[doc.keys[i]]];
    }
    assert ta == Values(fs);
    v := Some(Value.Array(ta));
  }

  // ----- writing

  /** Every document nested in the value passes ConvertDocument, which the writer insists on. */
  ghost predicate Writable(v: Value) {
    match v
    case Document(fs) => ValidFields(fs) && WritableFields(fs)
    case Array(es) => forall i :: 0 <= i < |es| ==> Writable(es[i])
    case _ => true
  }

  ghost predicate WritableFields(fs: seq<Field>) {
    forall i :: 0 <= i < |fs| ==> Writable(fs[i].value)
  }

  lemma {:induction false} EncodeAppend(fs: seq<Field>, f: Field)
    ensures EncodeFields(fs + [f]) == EncodeFields(fs) + EncodeField(f.name, f.value)
  {
    if fs == [] {
      assert [f][1..] == [];
    } else {
      EncodeAppend(fs[1..], f);
      assert (fs + [f])[1..] == fs[1..] + [f];
    }
  }

  lemma {:induction false} FieldFits(fs: seq<Field>, i: nat)
    requires i < |fs|
    ensures |EncodeValue(fs[i].value)| < |EncodeFields(fs)|
  {
    if i > 0 { FieldFits(fs[1..], i - 1); }
  }

  /** WriteTo for a value without a nested document. */
  method WriteScalar(v: Value) returns (b: bytes)
    requires !v.Document? && !v.Array?
    ensures b == EncodeValue(v)
  {
    match v {
      case Double(bits) => b := LE.Put(bits, 8);
      case String(s) =>
        b := LE.PutInt32(|s| + 1);
        b := b + s;
        b := b + [NUL];
      case ObjectID(id) => b := id;
      case Bool(t) => b := [if t then 0x01 as char else NUL];
      case DateTime(nanos) =>
        var ts := UnixMilli(nanos);
        b := LE.PutInt64(ts);
      case Null => b := [];
      case Regex(p, o) =>
        b := p + [NUL];
        b := b + (o + [NUL]);
      case Int32(i) => b := LE.PutInt32(i);
      case Int64(l) => b := LE.PutInt64(l);
    }
  }

  /** Document.MarshalBinary. It fails exactly when a nested document is not valid. */
  method MarshalDocument(fs: seq<Field>) returns (b: Option<bytes>)
    ensures b.Some? <==> WritableFields(fs)
    ensures b.Some? ==> b.value == EncodeDocument(fs)
    decreases |EncodeFields(fs)|, 1
  {
    var elist: bytes := [];
    for i := 0 to |fs|
      invariant elist == EncodeFields(fs[..i])
      invariant WritableFields(fs[..i])
    {
      FieldFits(fs, i);
      var value := MarshalValue(fs[i].value);
      if value.None? { return None; }
      elist := elist + [Tag(fs[i].value)];
      elist := elist + (fs[i].name + [NUL]);
      elist := elist + value.value;
      EncodeAppend(fs[..i], fs[i]);
      assert fs[..i + 1] == fs[..i] + [fs[i]];
    }
    assert fs[..|fs|] == fs;
    var l := |elist| + 5;
    var res := LE.PutInt32(l);
    res := res + elist;
    res := res + [NUL];
    b := Some(res);
  }

  method MarshalValue(v: Value) returns (b: Option<bytes>)
    ensures b.Some? <==> Writable(v)
    ensures b.Some? ==> b.value == EncodeValue(v)
    decreases |EncodeValue(v)|, 0
  {
    match v {
      case Document(fs) =>
        if !ValidFields(fs) { return None; }
        b := MarshalDocument(fs);
      case Array(es) => b := MarshalArray(es);
      case _ =>
        var s := WriteScalar(v);
        b := Some(s);
    }
  }

  /** Array.MarshalBinary: the elements become the fields "0", "1", "2", ... of a document. */
  method MarshalArray(es: seq<Value>) returns (b: Option<bytes>)
    ensures b.Some? <==> Writable(Array(es))
    ensures b.Some? ==> b.value == EncodeValue(Array(es))
    decreases |EncodeElems(es, 0)|, 2
  {
    var fs: seq<Field> := [];
    for i := 0 to |es|
      invariant |fs| == i && forall j :: 0 <= j < i ==> fs[j] == Field(Itoa(j), es[j])
    {
      fs := fs + [Field(Itoa(i), es[i])];
    }
    assert fs == Indexed(es, 0);
    ElemsAreIndexedFields(es, 0);
    b := MarshalDocument(fs);
    if b.None? {
      ghost var i :| 0 <= i < |fs| && !Writable(fs[i].value);
      assert !Writable(es[i]);
    } else {
      assert forall i :: 0 <= i < |es| ==> es[i] == fs[i].value;
    }
  }

  /** What Document.ReadFrom accepts can be written again, and comes out as the bytes that were read. */
  lemma {:induction false} RepresentableIsWritable(v: Value)
    requires Representable(v)
    ensures Writable(v)
    decreases v
  {
    match v
    case Document(fs) =>
      forall i | 0 <= i < |fs| ensures Writable(fs[i].value) { RepresentableIsWritable(fs[i].value); }
    case Array(es) =>
      forall i | 0 <= i < |es| ensures Writable(es[i]) { RepresentableIsWritable(es[i]); }
    case _ =>
  }

  /** Reading and writing back at the level of the source's own operations. */
  method ReadThenWrite(r: Reader) returns (b: Option<bytes>)
    requires r.Valid()
    modifies r
    ensures r.Valid()
    ensures b.Some? <==> DecodeDocument(old(r.Rest())).Some?
    ensures b.Some? ==> old(r.Rest()) == b.value + r.Rest()
  {
    ghost var input := r.Rest();
    var doc := new Document();
    var ok := doc.ReadFrom(r);
    if !ok { return None; }
    DocumentCanonical(input);
    RepresentableIsWritable(Value.Document(doc.Fields()));
    b := MarshalDocument(doc.Fields());
  }
}
