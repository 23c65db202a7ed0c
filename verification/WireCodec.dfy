/** OpMsg as the source implements it: loops that consume a reader and append sections, or write into a buffer. */
module WireCodec {
  import opened Types
  import opened Bson
  import opened Wire
  import opened WireMeaning
  import opened BsonCodec
  import LE = LittleEndian

  /** Sections have been read from input, and rest is still to be read. */
  ghost predicate SectionProgress(input: bytes, peek: nat, acc: seq<Section>, rest: bytes) {
    DecodeSections(input, peek) ==
    match DecodeSections(rest, peek)
    case None => None
    case Some((ss, rest')) => Some((acc + ss, rest'))
  }

  lemma SectionsStarted(b: bytes, peek: nat)
    ensures SectionProgress(b, peek, [], b)
  {
    if DecodeSections(b, peek).Some? {
      var (ss, rest) := DecodeSections(b, peek).value;
      assert [] + ss == ss;
    }
  }

  lemma {:induction false} SectionRead(input: bytes, peek: nat, acc: seq<Section>, b: bytes, s: Section, rest: bytes)
    requires SectionProgress(input, peek, acc, b) && DecodeSection(b) == Some((s, rest))
    ensures |rest| < peek ==> DecodeSections(input, peek) == Some((acc + [s], rest))
    ensures |rest| >= peek ==> SectionProgress(input, peek, acc + [s], rest)
  {
    if |rest| >= peek && DecodeSections(rest, peek).Some? {
      var (ss, rest') := DecodeSections(rest, peek).value;
      assert acc + ([s] + ss) == acc + [s] + ss;
    }
  }

  lemma SectionBroken(input: bytes, peek: nat, acc: seq<Section>, b: bytes)
    requires SectionProgress(input, peek, acc, b) && DecodeSection(b).None?
    ensures DecodeSections(input, peek).None?
  {
  }

  ghost predicate DocProgress(input: bytes, acc: seq<Doc>, rest: bytes) {
    DecodeDocs(input) ==
    match DecodeDocs(rest)
    case None => None
    case Some(ds) => Some(acc + ds)
  }

  lemma {:induction false} DocRead(input: bytes, acc: seq<Doc>, b: bytes, d: Doc, rest: bytes)
    requires DocProgress(input, acc, b) && b != [] && DecodeDocument(b) == Some((d, rest))
    ensures DocProgress(input, acc + [d], rest)
  {
    if DecodeDocs(rest).Some? {
      assert acc + ([d] + DecodeDocs(rest).value) == acc + [d] + DecodeDocs(rest).value;
    }
  }

  lemma DocBroken(input: bytes, acc: seq<Doc>, b: bytes)
    requires DocProgress(input, acc, b) && b != [] && DecodeDocument(b).None?
    ensures DecodeDocs(input).None?
  {
  }

  lemma DocsEnded(input: bytes, acc: seq<Doc>)
    ensures DocProgress(input, [], input)
    ensures DocProgress(input, acc, []) ==> DecodeDocs(input) == Some(acc)
  {
    if DecodeDocs(input).Some? { assert [] + DecodeDocs(input).value == DecodeDocs(input).value; }
    assert acc + [] == acc;
  }

  /** The document loop of a kind 1 section: read until the section reader is exhausted. */
  method ReadDocs(secr: Reader) returns (docs: Option<seq<Doc>>)
    requires secr.Valid()
    modifies secr
    ensures docs == DecodeDocs(old(secr.Rest()))
  {
    ghost var b := secr.Rest();
    var acc: seq<Doc> := [];
    DocsEnded(b, []);
    while secr.pos != |secr.data|
      invariant secr.Valid()
      invariant DocProgress(b, acc, secr.Rest())
      decreases |secr.Rest()|
    {
      ghost var before := secr.Rest();
      var doc := new BsonCodec.Document();
      var ok := doc.ReadFrom(secr);
      if !ok {
        DocBroken(b, acc, before);
        return None;
      }
      DocRead(b, acc, before, doc.Fields(), secr.Rest());
      acc := acc + [doc.Fields()];
    }
    DocsEnded(b, acc);
    docs := Some(acc);
  }

  method ReadSequence(r: Reader) returns (s: Option<Section>)
    requires r.Valid()
    modifies r
    ensures r.Valid()
    ensures DecodeSequenceSection(old(r.Rest())) == if s.Some? then Some((s.value, r.Rest())) else None
  {
    var n := r.ReadFull(4);
    if n.None? { return None; }
    var secSize := LE.GetInt32(n.value);
    if secSize < 5 { return None; }
    ghost var b' := r.Rest();
    var sec := r.ReadFull(secSize - 4);
    if sec.None? { return None; }
    assert b'[..secSize - 4] == sec.value && b'[secSize - 4..] == r.Rest();
    var secr := new Reader(sec.value);
    var id := secr.ReadCString();
    if id.None? { return None; }
    var docs := ReadDocs(secr);
    if docs.None? { return None; }
    s := Some(Section(KIND_SEQUENCE, id.value, docs.value));
  }

  method ReadSection(r: Reader) returns (s: Option<Section>)
    requires r.Valid()
    modifies r
    ensures r.Valid()
    ensures DecodeSection(old(r.Rest())) == if s.Some? then Some((s.value, r.Rest())) else None
  {
    ghost var before := r.Rest();
    var kind := r.ReadByte();
    if kind.None? { return None; }
    assert before[1..] == r.Rest();
    if kind.value == KIND_BODY {
      var doc := new BsonCodec.Document();
      var ok := doc.ReadFrom(r);
      if !ok { return None; }
      s := Some(Section(KIND_BODY, [], [doc.Fields()]));
    } else if kind.value == KIND_SEQUENCE {
      s := ReadSequence(r);
    } else {
      s := None;
    }
  }

  method WriteDocs(docs: seq<Doc>) returns (b: Option<bytes>)
    requires forall i :: 0 <= i < |docs| ==> WritableFields(docs[i])
    ensures b == if forall i :: 0 <= i < |docs| ==> ValidFields(docs[i]) then Some(EncodeDocs(docs)) else None
  {
    var buf: bytes := [];
    for i := 0 to |docs|
      invariant forall j :: 0 <= j < i ==> ValidFields(docs[j])
      invariant EncodeDocs(docs) == buf + EncodeDocs(docs[i..])
    {
      ghost var tail := docs[i..];
      assert tail[1..] == docs[i + 1..];
      if !ValidFields(docs[i]) { return None; }
      var d := MarshalDocument(docs[i]);
      Assoc(buf, d.value, EncodeDocs(docs[i + 1..]));
      buf := buf + d.value;
    }
    assert buf + [] == buf;
    b := Some(buf);
  }

  /** MarshalBinary refuses an unknown kind and an invalid document; it panics on a kind 0 section that does not
      hold exactly one document. */
  ghost predicate Printable(s: Section) {
    && (s.kind == KIND_BODY || s.kind == KIND_SEQUENCE)
    && (s.kind == KIND_BODY ==> |s.documents| == 1)
    && forall i :: 0 <= i < |s.documents| ==> ValidFields(s.documents[i])
  }

  ghost predicate NestedValid(s: Section) {
    forall i :: 0 <= i < |s.documents| ==> WritableFields(s.documents[i])
  }

  method WriteSection(s: Section) returns (b: Option<bytes>)
    requires NestedValid(s)
    ensures b == if Printable(s) then Some(EncodeSection(s)) else None
  {
    if s.kind != KIND_BODY && s.kind != KIND_SEQUENCE { return None; }
    if s.kind == KIND_BODY && |s.documents| != 1 { return None; }
    var docs := WriteDocs(s.documents);
    if docs.None? { return None; }
    if s.kind == KIND_BODY {
      b := Some([s.kind] + docs.value);
    } else {
      var secBuf := s.identifier + [NUL];
      secBuf := secBuf + docs.value;
      var n := LE.PutInt32(|secBuf| + 4);
      b := Some([s.kind] + (n + secBuf));
    }
  }

  class Message {
    var flagBits: uint32
    var checksum: uint32
    var sections: seq<Section>

    constructor ()
      ensures sections == [] && checksum == 0
    {
      flagBits, checksum, sections := 0, 0, [];
    }

    function Content(): OpMsg
      reads this
    {
      OpMsg(flagBits, checksum, sections)
    }

    /** OpMsg.Document: the body section overlaid with the document sequences. */
    method Document() returns (doc: Option<Doc>)
      ensures doc == Merge(sections)
      ensures doc.Some? <==> Mergeable(sections)
      ensures doc.Some? ==> StandsFor(doc.value, sections)
    {
      MergeMeaning(sections);
      var d: Doc := [];
      for i := 0 to |sections|
        invariant Merge(sections) == MergeFrom(d, sections[i..])
      {
        assert sections[i..][1..] == sections[i + 1..];
        var step := MergeSection(d, sections[i]);
        if step.None? { return None; }
        d := step.value;
      }
      doc := Some(d);
    }

    /** The section loop of readFrom, with its lookahead for the checksum. */
    method ReadSections(bufr: Reader) returns (ok: bool)
      requires bufr.Valid() && sections == []
      modifies this`sections, bufr
      ensures bufr.Valid()
      ensures DecodeSections(old(bufr.Rest()), PeekBytes(flagBits)) ==
              if ok then Some((sections, bufr.Rest())) else None
    {
      ghost var input := bufr.Rest();
      var peekBytes := if ChecksumPresent(flagBits) then 5 else 1;
      SectionsStarted(input, peekBytes);
      while true
        invariant bufr.Valid()
        invariant SectionProgress(input, peekBytes, sections, bufr.Rest())
        decreases |bufr.Rest()|
      {
        ghost var before := bufr.Rest();
        ghost var acc := sections;
        var section := ReadSection(bufr);
        if section.None? {
          SectionBroken(input, peekBytes, acc, before);
          return false;
        }
        sections := sections + [section.value];
        SectionRead(input, peekBytes, acc, before, section.value, bufr.Rest());
        if |bufr.data| - bufr.pos < peekBytes { return true; }
      }
    }

    /** UnmarshalBinary on a fresh message. */
    method UnmarshalBinary(b: bytes) returns (ok: bool)
      requires sections == [] && checksum == 0
      modifies this
      ensures Decode(b) == if ok then Some(Content()) else None
    {
      var bufr := new Reader(b);
      var n := bufr.ReadFull(4);
      if n.None? { return false; }
      LE.PutOfValue(n.value);
      LE.Widths();
      flagBits := LE.Value(n.value);
      ok := ReadSections(bufr);
      if !ok { return; }
      if ChecksumPresent(flagBits) {
        var c := bufr.ReadFull(4);
        if c.None? { return false; }
        LE.PutOfValue(c.value);
        checksum := LE.Value(c.value);
      }
      var doc := Document();
      ok := doc.Some? && bufr.pos == |bufr.data|;
    }

    method MarshalBinary() returns (b: Option<bytes>)
      requires forall i :: 0 <= i < |sections| ==> NestedValid(sections[i])
      ensures b == if forall i :: 0 <= i < |sections| ==> Printable(sections[i]) then Some(Encode(Content())) else None
    {
      var buf := LE.Put(flagBits, 4);
      for i := 0 to |sections|
        invariant forall j :: 0 <= j < i ==> Printable(sections[j])
        invariant LE.Put(flagBits, 4) + EncodeSections(sections) == buf + EncodeSections(sections[i..])
      {
        ghost var tail := sections[i..];
        assert tail[1..] == sections[i + 1..];
        var s := WriteSection(sections[i]);
        if s.None? { return None; }
        Assoc(buf, s.value, EncodeSections(sections[i + 1..]));
        buf := buf + s.value;
      }
      assert buf + [] == buf;
      if ChecksumPresent(flagBits) {
        buf := buf + LE.Put(checksum, 4);
      }
      b := Some(buf);
    }
  }
}
