/** The bytes of the BSON format, written out: tags, numbers, lengths and terminators of version 1.1 of the BSON
    specification, and a document of every type as a driver sends it. */
module BsonFormat {
  import opened Types
  import opened Numerals
  import opened Bson
  import LE = LittleEndian

  /** Bytes by their numbers. */
  function Raw(ns: seq<int>): (b: bytes)
    requires forall i :: 0 <= i < |ns| ==> 0 <= ns[i] < 0x100
    ensures |b| == |ns| && forall i :: 0 <= i < |ns| ==> b[i] as int == ns[i]
  {
    seq(|ns|, i requires 0 <= i < |ns| => ns[i] as char)
  }

  // ----- elements

  /** An element is the byte of its type, its name, a zero, and its value. */
  lemma ElementFormat(name: bytes, v: Value)
    ensures EncodeField(name, v) == EncodeField(name, v)[..1] + name + Raw([0]) + EncodeValue(v)
    ensures EncodeField(name, v)[0] as int
         == match v
            case Double(_) => 0x01
            case String(_) => 0x02
            case Document(_) => 0x03
            case Array(_) => 0x04
            case ObjectID(_) => 0x07
            case Bool(_) => 0x08
            case DateTime(_) => 0x09
            case Null => 0x0A
            case Regex(_, _) => 0x0B
            case Int32(_) => 0x10
            case Int64(_) => 0x12
  {
    assert Raw([0]) == [NUL];
  }

  // ----- numbers

  lemma {:induction false} FourBytes(n: nat)
    ensures LE.Put(n, 4) == Raw([n % 256, n / 0x100 % 256, n / 0x1_0000 % 256, n / 0x100_0000 % 256])
  {
    var a, b, c := n / 0x100, n / 0x1_0000, n / 0x100_0000;
    assert a / 256 == b && b / 256 == c;
    assert LE.Put(c, 1) == [(c % 256) as char] + LE.Put(c / 256, 0) == [(c % 256) as char];
    assert LE.Put(b, 2) == [(b % 256) as char, (c % 256) as char];
    assert LE.Put(a, 3) == [(a % 256) as char, (b % 256) as char, (c % 256) as char];
  }

  lemma {:induction false} PutSplit(n: nat)
    ensures LE.Put(n, 8) == LE.Put(n, 4) + LE.Put(n / 0x1_0000_0000, 4)
  {
    var a, b, c, d := n / 256, n / 0x1_0000, n / 0x100_0000, n / 0x1_0000_0000;
    assert LE.Put(c, 5) == [(c % 256) as char] + LE.Put(d, 4);
    assert LE.Put(b, 6) == [(b % 256) as char] + LE.Put(c, 5);
    assert LE.Put(a, 7) == [(a % 256) as char] + LE.Put(b, 6);
    FourBytes(n);
  }

  /** 32-bit numbers: two's complement, least significant byte first. */
  lemma {:induction false} Int32Format(n: int)
    ensures var u := n % 0x1_0000_0000;
            LE.PutInt32(n) == Raw([u % 256, u / 0x100 % 256, u / 0x1_0000 % 256, u / 0x100_0000])
  {
    LE.Widths();
    FourBytes(n % 0x1_0000_0000);
  }

  /** 64-bit numbers: four bytes of the lower half, then four of the upper one. */
  lemma {:induction false} Int64Format(n: int)
    ensures var u := n % 0x1_0000_0000_0000_0000;
            var h := u / 0x1_0000_0000;
            LE.PutInt64(n) == Raw([u % 256, u / 0x100 % 256, u / 0x1_0000 % 256, u / 0x100_0000 % 256])
                            + Raw([h % 256, h / 0x100 % 256, h / 0x1_0000 % 256, h / 0x100_0000 % 256])
  {
    LE.Widths();
    hide LE.Put, Raw;
    var u := n % 0x1_0000_0000_0000_0000;
    PutSplit(u);
    FourBytes(u);
    FourBytes(u / 0x1_0000_0000);
  }

  // ----- values

  lemma UnsignedFormat(bits: uint64)
    ensures LE.Put(bits, 8) == LE.PutInt64(bits)
  {
    hide LE.Put, LE.Pow256;
    LE.Widths();
  }

  lemma FrameFormat(elist: bytes)
    ensures Frame(elist) == LE.PutInt32(|Frame(elist)|) + elist + Raw([0])
  {
    assert Raw([0]) == [NUL];
  }

  /** The values: numbers as above, lengths that count the terminating zero, and, in documents and arrays, the length
      itself; truth as one byte, dates in milliseconds, identifiers as they are. */
  lemma {:induction false} ValueFormat(v: Value)
    ensures var b := EncodeValue(v);
            match v
            case Int32(i) => b == LE.PutInt32(i)
            case Int64(l) => b == LE.PutInt64(l)
            case DateTime(nanos) => b == LE.PutInt64(nanos / 1_000_000)
            case Double(bits) => b == LE.PutInt64(bits)
            case Bool(t) => b == if t then Raw([1]) else Raw([0])
            case Null => b == []
            case ObjectID(id) => b == id
            case String(s) => b == LE.PutInt32(|s| + 1) + s + Raw([0])
            case Regex(p, o) => b == p + Raw([0]) + o + Raw([0])
            case Document(fs) => b == LE.PutInt32(|b|) + EncodeFields(fs) + Raw([0])
            case Array(es) => b == LE.PutInt32(|b|) + EncodeFields(Indexed(es, 0)) + Raw([0])
  {
    assert Raw([0]) == [NUL] && Raw([1]) == [0x01 as char];
    hide LE.Put, LE.PutInt32, LE.PutInt64, LE.Pow256, Raw, Frame;
    match v
    case Double(bits) => UnsignedFormat(bits);
    case Document(fs) => FrameFormat(EncodeFields(fs));
    case Array(es) =>
      ElemsAreIndexedFields(es, 0);
      FrameFormat(EncodeFields(Indexed(es, 0)));
    case Regex(p, o) => Assoc(p + [NUL], o, [NUL]);
    case _ =>
  }

  /** A document is its length, its elements one after the other, and a zero. */
  lemma {:induction false} DocumentFormat(fs: seq<Field>)
    ensures var b := EncodeDocument(fs); b == LE.PutInt32(|b|) + EncodeFields(fs) + Raw([0])
    ensures EncodeFields([]) == []
    ensures fs != [] ==> EncodeFields(fs) == EncodeField(fs[0].name, fs[0].value) + EncodeFields(fs[1..])
  {
    assert Raw([0]) == [NUL];
  }

  // ----- documents as a driver sends them

  /** These bytes are read as the document {a: v}. */
  predicate Reads(ns: seq<int>, v: Value) {
    && (forall i :: 0 <= i < |ns| ==> 0 <= ns[i] < 0x100)
    && DecodeDocument(Raw(ns)) == Some(([Field("a", v)], []))
  }

  lemma {:induction false} Joined(a: seq<int>, b: seq<int>)
    requires forall i :: 0 <= i < |a| ==> 0 <= a[i] < 0x100
    requires forall i :: 0 <= i < |b| ==> 0 <= b[i] < 0x100
    ensures Raw(a + b) == Raw(a) + Raw(b)
  {
  }

  lemma {:induction false} OneField(v: Value, tag: int, ns: seq<int>)
    requires forall i :: 0 <= i < |ns| ==> 0 <= ns[i] < 0x100
    requires Representable(v) && EncodeValue(v) == Raw(ns) && |ns| < 248
    requires 0 <= tag < 0x100 && EncodeField("a", v)[0] as int == tag
    ensures Reads([|ns| + 8, 0, 0, 0] + [tag, 0x61, 0] + ns + [0], v)
  {
    hide LE.PutInt32, EncodeDocument, EncodeField, EncodeValue, Raw, ValidFields;
    var fs, b := [Field("a", v)], EncodeDocument([Field("a", v)]);
    OneFieldBytes(v, tag, ns);
    OneNameIsValid(v);
    DocumentLossless(fs, []);
    assert b + [] == b;
  }

  lemma OneNameIsValid(v: Value)
    ensures ValidFields([Field("a", v)])
  {
    assert ValidUtf8("a"[1..]);
  }

  lemma {:induction false} OneFieldBytes(v: Value, tag: int, ns: seq<int>)
    requires forall i :: 0 <= i < |ns| ==> 0 <= ns[i] < 0x100
    requires EncodeValue(v) == Raw(ns) && |ns| < 248
    requires 0 <= tag < 0x100 && EncodeField("a", v)[0] as int == tag
    ensures EncodeDocument([Field("a", v)]) == Raw([|ns| + 8, 0, 0, 0] + [tag, 0x61, 0] + ns + [0])
  {
    hide LE.PutInt32, EncodeDocument, EncodeField, EncodeFields, EncodeValue, Raw;
    var fs := [Field("a", v)];
    var e, b := EncodeField("a", v), EncodeDocument(fs);
    DocumentFormat(fs);
    assert fs[1..] == [];
    ElementFormat("a", v);
    Int32Format(|ns| + 8);
    assert |b| == |ns| + 8 && EncodeFields(fs) == e;
    HeadAndName(e, tag);
    Joined([tag, 0x61, 0], ns);
    Joined([|ns| + 8, 0, 0, 0], [tag, 0x61, 0] + ns);
    Joined([|ns| + 8, 0, 0, 0] + ([tag, 0x61, 0] + ns), [0]);
    Assoc([|ns| + 8, 0, 0, 0], [tag, 0x61, 0], ns);
  }

  lemma {:induction false} HeadAndName(e: bytes, tag: int)
    requires e != [] && 0 <= tag < 256 && e[0] as int == tag
    ensures e[..1] + "a" + Raw([0]) == Raw([tag, 0x61, 0])
  {
  }

  lemma {:induction false} ReadsInt32()
    ensures Reads([12, 0, 0, 0, 0x10, 0x61, 0, 1, 0, 0, 0, 0], Int32(1))
  {
    hide LE.Put, LE.PutInt32, LE.PutInt64, Reads, EncodeField, EncodeValue, Raw;
    Int32Format(1);
    ValueFormat(Int32(1));
    ElementFormat("a", Int32(1));
    OneField(Int32(1), 0x10, [1, 0, 0, 0]);
    assert [12, 0, 0, 0] + [0x10, 0x61, 0] + [1, 0, 0, 0] + [0]
        == [12, 0, 0, 0, 0x10, 0x61, 0, 1, 0, 0, 0, 0];
  }

  lemma {:induction false} ReadsInt64()
    ensures Reads([16, 0, 0, 0, 0x12, 0x61, 0, 2, 0, 0, 0, 1, 0, 0, 0, 0], Int64(0x1_0000_0002))
  {
    hide LE.Put, LE.PutInt32, LE.PutInt64, Reads, EncodeField, EncodeValue, Raw;
    Int64Format(0x1_0000_0002);
    Joined([2, 0, 0, 0], [1, 0, 0, 0]);
    ValueFormat(Int64(0x1_0000_0002));
    ElementFormat("a", Int64(0x1_0000_0002));
    OneField(Int64(0x1_0000_0002), 0x12, [2, 0, 0, 0, 1, 0, 0, 0]);
    assert [16, 0, 0, 0] + [0x12, 0x61, 0] + [2, 0, 0, 0, 1, 0, 0, 0] + [0]
        == [16, 0, 0, 0, 0x12, 0x61, 0, 2, 0, 0, 0, 1, 0, 0, 0, 0];
  }

  /** One millisecond after the epoch. */
  lemma {:induction false} ReadsDateTime()
    ensures Reads([16, 0, 0, 0, 0x09, 0x61, 0, 1, 0, 0, 0, 0, 0, 0, 0, 0], DateTime(1_000_000))
  {
    hide LE.Put, LE.PutInt32, LE.PutInt64, Reads, EncodeField, EncodeValue, Raw;
    Int64Format(1);
    Joined([1, 0, 0, 0], [0, 0, 0, 0]);
    ValueFormat(DateTime(1_000_000));
    ElementFormat("a", DateTime(1_000_000));
    OneField(DateTime(1_000_000), 0x09, [1, 0, 0, 0, 0, 0, 0, 0]);
    assert [16, 0, 0, 0] + [0x09, 0x61, 0] + [1, 0, 0, 0, 0, 0, 0, 0] + [0]
        == [16, 0, 0, 0, 0x09, 0x61, 0, 1, 0, 0, 0, 0, 0, 0, 0, 0];
  }

  /** The double 1.5. */
  lemma {:induction false} ReadsDouble()
    ensures Reads([16, 0, 0, 0, 0x01, 0x61, 0, 0, 0, 0, 0, 0, 0, 0xF8, 0x3F, 0], Double(0x3FF8_0000_0000_0000))
  {
    hide LE.Put, LE.PutInt32, LE.PutInt64, Reads, EncodeField, EncodeValue, Raw;
    Int64Format(0x3FF8_0000_0000_0000);
    Joined([0, 0, 0, 0], [0, 0, 0xF8, 0x3F]);
    ValueFormat(Double(0x3FF8_0000_0000_0000));
    ElementFormat("a", Double(0x3FF8_0000_0000_0000));
    OneField(Double(0x3FF8_0000_0000_0000), 0x01, [0, 0, 0, 0, 0, 0, 0xF8, 0x3F]);
    assert [16, 0, 0, 0] + [0x01, 0x61, 0] + [0, 0, 0, 0, 0, 0, 0xF8, 0x3F] + [0]
        == [16, 0, 0, 0, 0x01, 0x61, 0, 0, 0, 0, 0, 0, 0, 0xF8, 0x3F, 0];
  }

  lemma {:induction false} ReadsString()
    ensures Reads([15, 0, 0, 0, 0x02, 0x61, 0, 3, 0, 0, 0, 0x68, 0x69, 0, 0], String("hi"))
  {
    hide LE.Put, LE.PutInt32, LE.PutInt64, Reads, EncodeField, EncodeValue, Raw;
    Int32Format(3);
    assert Raw([3, 0, 0, 0, 0x68, 0x69, 0]) == Raw([3, 0, 0, 0]) + "hi" + Raw([0]);
    ValueFormat(String("hi"));
    ElementFormat("a", String("hi"));
    OneField(String("hi"), 0x02, [3, 0, 0, 0, 0x68, 0x69, 0]);
    assert [15, 0, 0, 0] + [0x02, 0x61, 0] + [3, 0, 0, 0, 0x68, 0x69, 0] + [0]
        == [15, 0, 0, 0, 0x02, 0x61, 0, 3, 0, 0, 0, 0x68, 0x69, 0, 0];
  }

  lemma {:induction false} ReadsRegex()
    ensures Reads([12, 0, 0, 0, 0x0B, 0x61, 0, 0x78, 0, 0x69, 0, 0], Regex("x", "i"))
  {
    hide LE.Put, LE.PutInt32, LE.PutInt64, Reads, EncodeField, EncodeValue, Raw;
    assert Raw([0x78, 0, 0x69, 0]) == "x" + Raw([0]) + "i" + Raw([0]);
    ValueFormat(Regex("x", "i"));
    ElementFormat("a", Regex("x", "i"));
    OneField(Regex("x", "i"), 0x0B, [0x78, 0, 0x69, 0]);
    assert [12, 0, 0, 0] + [0x0B, 0x61, 0] + [0x78, 0, 0x69, 0] + [0]
        == [12, 0, 0, 0, 0x0B, 0x61, 0, 0x78, 0, 0x69, 0, 0];
  }

  lemma {:induction false} ReadsTrue()
    ensures Reads([9, 0, 0, 0, 0x08, 0x61, 0, 1, 0], Bool(true))
  {
    hide LE.Put, LE.PutInt32, LE.PutInt64, Reads, EncodeField, EncodeValue, Raw;
    ValueFormat(Bool(true));
    ElementFormat("a", Bool(true));
    OneField(Bool(true), 0x08, [1]);
    assert [9, 0, 0, 0] + [0x08, 0x61, 0] + [1] + [0]
        == [9, 0, 0, 0, 0x08, 0x61, 0, 1, 0];
  }

  lemma {:induction false} ReadsFalse()
    ensures Reads([9, 0, 0, 0, 0x08, 0x61, 0, 0, 0], Bool(false))
  {
    hide LE.Put, LE.PutInt32, LE.PutInt64, Reads, EncodeField, EncodeValue, Raw;
    ValueFormat(Bool(false));
    ElementFormat("a", Bool(false));
    OneField(Bool(false), 0x08, [0]);
    assert [9, 0, 0, 0] + [0x08, 0x61, 0] + [0] + [0]
        == [9, 0, 0, 0, 0x08, 0x61, 0, 0, 0];
  }

  lemma {:induction false} ReadsNull()
    ensures Reads([8, 0, 0, 0, 0x0A, 0x61, 0, 0], Null)
  {
    hide LE.Put, LE.PutInt32, LE.PutInt64, Reads, EncodeField, EncodeValue, Raw;
    ValueFormat(Null);
    ElementFormat("a", Null);
    OneField(Null, 0x0A, []);
    assert [8, 0, 0, 0] + [0x0A, 0x61, 0] + [] + [0]
        == [8, 0, 0, 0, 0x0A, 0x61, 0, 0];
  }

  lemma {:induction false} ReadsObjectID()
    ensures Reads([20, 0, 0, 0, 0x07, 0x61, 0, 1, 2, 3, 4, 5, 6, 7, 8, 9, 10, 11, 12, 0],
                  ObjectID(Raw([1, 2, 3, 4, 5, 6, 7, 8, 9, 10, 11, 12])))
  {
    hide LE.Put, LE.PutInt32, LE.PutInt64, Reads, EncodeField, EncodeValue, Raw;
    ValueFormat(ObjectID(Raw([1, 2, 3, 4, 5, 6, 7, 8, 9, 10, 11, 12])));
    ElementFormat("a", ObjectID(Raw([1, 2, 3, 4, 5, 6, 7, 8, 9, 10, 11, 12])));
    OneField(ObjectID(Raw([1, 2, 3, 4, 5, 6, 7, 8, 9, 10, 11, 12])), 0x07, [1, 2, 3, 4, 5, 6, 7, 8, 9, 10, 11, 12]);
    assert [20, 0, 0, 0] + [0x07, 0x61, 0] + [1, 2, 3, 4, 5, 6, 7, 8, 9, 10, 11, 12] + [0]
        == [20, 0, 0, 0, 0x07, 0x61, 0, 1, 2, 3, 4, 5, 6, 7, 8, 9, 10, 11, 12, 0];
  }

  lemma {:induction false} ReadsDocument()
    ensures Reads([13, 0, 0, 0, 0x03, 0x61, 0, 5, 0, 0, 0, 0, 0], Document([]))
  {
    hide LE.Put, LE.PutInt32, LE.PutInt64, Reads, EncodeField, EncodeValue, Raw;
    Int32Format(5);
    DocumentFormat([]);
    assert Raw([5, 0, 0, 0, 0]) == Raw([5, 0, 0, 0]) + [] + Raw([0]);
    ValueFormat(Document([]));
    ElementFormat("a", Document([]));
    OneField(Document([]), 0x03, [5, 0, 0, 0, 0]);
    assert [13, 0, 0, 0] + [0x03, 0x61, 0] + [5, 0, 0, 0, 0] + [0]
        == [13, 0, 0, 0, 0x03, 0x61, 0, 5, 0, 0, 0, 0, 0];
  }

  lemma {:induction false} ZeroNull()
    ensures EncodeFields(Indexed([Null], 0)) == Raw([0x0A, 0x30, 0])
  {
    var fs := Indexed([Null], 0);
    assert fs == [Field("0", Null)] && fs[1..] == [] by { assert Itoa(0) == "0"; }
    DocumentFormat(fs);
    var e := EncodeField("0", Null);
    ElementFormat("0", Null);
    ValueFormat(Null);
    assert e[..1] == [e[0]];
    assert e == Raw([0x0A, 0x30, 0]) && e + [] == e;
  }

  lemma {:induction false} ArrayOfNull()
    ensures EncodeValue(Array([Null])) == Raw([8, 0, 0, 0, 0x0A, 0x30, 0, 0])
  {
    hide LE.PutInt32, EncodeField, EncodeFields, EncodeValue, Raw, Indexed, Itoa;
    ValueFormat(Array([Null]));
    ZeroNull();
    Int32Format(8);
    Joined([8, 0, 0, 0], [0x0A, 0x30, 0]);
    Joined([8, 0, 0, 0] + [0x0A, 0x30, 0], [0]);
    assert [8, 0, 0, 0] + [0x0A, 0x30, 0] + [0] == [8, 0, 0, 0, 0x0A, 0x30, 0, 0];
  }

  lemma {:induction false} ReadsArray()
    ensures Reads([16, 0, 0, 0, 0x04, 0x61, 0, 8, 0, 0, 0, 0x0A, 0x30, 0, 0, 0], Array([Null]))
  {
    hide LE.Put, LE.PutInt32, LE.PutInt64, Reads, EncodeField, EncodeValue, Raw;
    ArrayOfNull();
    ValueFormat(Array([Null]));
    ElementFormat("a", Array([Null]));
    OneField(Array([Null]), 0x04, [8, 0, 0, 0, 0x0A, 0x30, 0, 0]);
    assert [16, 0, 0, 0] + [0x04, 0x61, 0] + [8, 0, 0, 0, 0x0A, 0x30, 0, 0] + [0]
        == [16, 0, 0, 0, 0x04, 0x61, 0, 8, 0, 0, 0, 0x0A, 0x30, 0, 0, 0];
  }
}
