/** The OP_MSG body and the message header: framing on top of BSON. */
module Wire {
  import opened Types
  import opened Bson
  import LE = LittleEndian

  type Doc = seq<Field>

  datatype Section = Section(kind: byte, identifier: bytes, documents: seq<Doc>)

  datatype OpMsg = OpMsg(flags: uint32, checksum: uint32, sections: seq<Section>)

  const KIND_BODY: byte := 0x00 as char
  const KIND_SEQUENCE: byte := 0x01 as char

  /** OpMsgFlags.FlagSet(OpMsgChecksumPresent): bit 0. */
  predicate ChecksumPresent(flags: uint32) { flags % 2 == 1 }

  // ----- the document a message stands for

  /** The error of Set is dropped by its callers in OpMsg.Document. */
  function SetIgnoringError(doc: Doc, key: bytes, v: Value): Doc {
    match Set(doc, key, v)
    case Some(d) => d
    case None => doc
  }

  function CopyFields(doc: Doc, fs: seq<Field>): Doc
    decreases fs
  {
    if fs == [] then doc else CopyFields(SetIgnoringError(doc, fs[0].name, fs[0].value), fs[1..])
  }

  function DocumentValues(docs: seq<Doc>): (vs: seq<Value>)
    ensures |vs| == |docs|
  {
    seq(|docs|, i requires 0 <= i < |docs| => Document(docs[i]))
  }

  function MergeSection(doc: Doc, s: Section): Option<Doc> {
    if s.kind == KIND_BODY then
      if |s.documents| != 1 || doc != [] then None else Some(CopyFields([], s.documents[0]))
    else if s.kind == KIND_SEQUENCE then
      if s.identifier == [] || doc == [] || Get(doc, s.identifier).Some? then None
      else Some(SetIgnoringError(doc, s.identifier, Array(DocumentValues(s.documents))))
    else None
  }

  function MergeFrom(doc: Doc, ss: seq<Section>): Option<Doc>
    decreases ss
  {
    if ss == [] then Some(doc)
    else
      match MergeSection(doc, ss[0])
      case None => None
      case Some(d) => MergeFrom(d, ss[1..])
  }

  /** OpMsg.Document. */
  function Merge(ss: seq<Section>): Option<Doc> { MergeFrom([], ss) }

  // ----- printing

  function EncodeDocs(docs: seq<Doc>): (b: bytes) {
    if docs == [] then [] else EncodeDocument(docs[0]) + EncodeDocs(docs[1..])
  }

  function SequenceBody(s: Section): (b: bytes) {
    s.identifier + [NUL] + EncodeDocs(s.documents)
  }

  function EncodeSection(s: Section): (b: bytes)
    ensures b != []
  {
    [s.kind] + if s.kind == KIND_BODY then EncodeDocs(s.documents)
               else LE.PutInt32(|SequenceBody(s)| + 4) + SequenceBody(s)
  }

  function EncodeSections(ss: seq<Section>): (b: bytes) {
    if ss == [] then [] else EncodeSection(ss[0]) + EncodeSections(ss[1..])
  }

  function Trailer(msg: OpMsg): (b: bytes) {
    if ChecksumPresent(msg.flags) then LE.Put(msg.checksum, 4) else []
  }

  function Encode(msg: OpMsg): (b: bytes) {
    LE.Put(msg.flags, 4) + EncodeSections(msg.sections) + Trailer(msg)
  }

  // ----- parsing

  function DecodeDocs(b: bytes): (r: Option<seq<Doc>>)
    decreases |b|
  {
    if b == [] then Some([])
    else
      match DecodeDocument(b)
      case None => None
      case Some((d, rest)) =>
        match DecodeDocs(rest)
        case None => None
        case Some(ds) => Some([d] + ds)
  }

  function DecodeBodySection(b: bytes): (r: Parsed<Section>)
    ensures r.Some? ==> |r.value.1| <= |b|
  {
    match DecodeDocument(b)
    case None => None
    case Some((d, rest)) => Some((Section(KIND_BODY, [], [d]), rest))
  }

  /** The identifier and the documents that fill a kind 1 section. */
  function DecodeSequenceBody(b: bytes): (r: Option<Section>) {
    match CString(b)
    case None => None
    case Some((id, rest)) =>
      match DecodeDocs(rest)
      case None => None
      case Some(docs) => Some(Section(KIND_SEQUENCE, id, docs))
  }

  function DecodeSequenceSection(b: bytes): (r: Parsed<Section>)
    ensures r.Some? ==> |r.value.1| <= |b|
  {
    match Fixed(b, 4)
    case None => None
    case Some((n, b')) =>
      var size := LE.GetInt32(n);
      if size < 5 || |b'| < size - 4 then None
      else
        match DecodeSequenceBody(b'[..size - 4])
        case None => None
        case Some(s) => Some((s, b'[size - 4..]))
  }

  function DecodeSection(b: bytes): (r: Parsed<Section>)
    ensures r.Some? ==> |r.value.1| < |b|
  {
    if b == [] then None
    else if b[0] == KIND_BODY then DecodeBodySection(b[1..])
    else if b[0] == KIND_SEQUENCE then DecodeSequenceSection(b[1..])
    else None
  }

  /** How much must be left for the reader to go on with another section. */
  function PeekBytes(flags: uint32): nat { if ChecksumPresent(flags) then 5 else 1 }

  function DecodeSections(b: bytes, peek: nat): (r: Parsed<seq<Section>>)
    decreases |b|
  {
    match DecodeSection(b)
    case None => None
    case Some((s, rest)) =>
      if |rest| < peek then Some(([s], rest))
      else
        match DecodeSections(rest, peek)
        case None => None
        case Some((ss, rest')) => Some(([s] + ss, rest'))
  }

  function DecodeTrailer(flags: uint32, b: bytes): (r: Parsed<uint32>) {
    if ChecksumPresent(flags) then
      match Fixed(b, 4)
      case None => None
      case Some((n, rest)) =>
        LE.PutOfValue(n);
        LE.Widths();
        Some((LE.Value(n), rest))
    else Some((0, b))
  }

  /** OpMsg.UnmarshalBinary. */
  function Decode(b: bytes): (r: Option<OpMsg>) {
    match Fixed(b, 4)
    case None => None
    case Some((n, b')) =>
      LE.PutOfValue(n);
      LE.Widths();
      var flags: uint32 := LE.Value(n);
      match DecodeSections(b', PeekBytes(flags))
      case None => None
      case Some((ss, b'')) =>
        match DecodeTrailer(flags, b'')
        case None => None
        case Some((checksum, rest)) =>
          if Merge(ss).Some? && rest == [] then Some(OpMsg(flags, checksum, ss)) else None
  }

  // ----- well-formed messages

  ghost predicate GoodDocs(docs: seq<Doc>) {
    forall i :: 0 <= i < |docs| ==> RepresentableFields(docs[i]) && |EncodeDocument(docs[i])| <= MAX_DOCUMENT_LEN
  }

  ghost predicate GoodSection(s: Section) {
    && GoodDocs(s.documents)
    && if s.kind == KIND_BODY then s.identifier == [] && |s.documents| == 1
       else s.kind == KIND_SEQUENCE && NUL !in s.identifier && |SequenceBody(s)| + 4 < 0x8000_0000
  }

  ghost predicate GoodSections(ss: seq<Section>) {
    ss != [] && forall i :: 0 <= i < |ss| ==> GoodSection(ss[i])
  }

  /** At least one section, each of them good on its own, an accepted merge, and no checksum value when the
      checksum flag is not set. */
  ghost predicate GoodMessage(msg: OpMsg) {
    && GoodSections(msg.sections)
    && Merge(msg.sections).Some?
    && (ChecksumPresent(msg.flags) || msg.checksum == 0)
  }

  // ----- canonical

  lemma {:induction false} DocsCanonical(b: bytes)
    requires DecodeDocs(b).Some?
    ensures GoodDocs(DecodeDocs(b).value) && EncodeDocs(DecodeDocs(b).value) == b
    decreases |b|
  {
    if b != [] {
      var (d, rest) := DecodeDocument(b).value;
      DocumentCanonical(b);
      DocsCanonical(rest);
      var ds := DecodeDocs(rest).value;
      assert ([d] + ds)[1..] == ds;
    }
  }

  lemma SectionCanonical(b: bytes)
    requires DecodeSection(b).Some?
    ensures var (s, rest) := DecodeSection(b).value; GoodSection(s) && b == EncodeSection(s) + rest
  {
    HeadTail(b);
    if b[0] == KIND_BODY {
      var (d, rest) := DecodeDocument(b[1..]).value;
      DocumentCanonical(b[1..]);
      OneDoc(d);
      Assoc([b[0]], EncodeDocument(d), rest);
    } else {
      SequenceCanonical(b[1..]);
      var (s, rest) := DecodeSequenceSection(b[1..]).value;
      Assoc([b[0]], LE.PutInt32(|SequenceBody(s)| + 4) + SequenceBody(s), rest);
    }
  }

  lemma OneDoc(d: Doc)
    ensures EncodeDocs([d]) == EncodeDocument(d)
  {
    assert EncodeDocs([d]) == EncodeDocument(d) + EncodeDocs([]) == EncodeDocument(d);
  }

  lemma SequenceCanonical(b: bytes)
    requires DecodeSequenceSection(b).Some?
    ensures var (s, rest) := DecodeSequenceSection(b).value;
            && s.kind == KIND_SEQUENCE && GoodSection(s)
            && b == LE.PutInt32(|SequenceBody(s)| + 4) + SequenceBody(s) + rest
  {
    var (n, b') := Fixed(b, 4).value;
    var size := LE.GetInt32(n);
    LE.Int32Canonical(n);
    var body := b'[..size - 4];
    var (id, docs) := CString(body).value;
    DocsCanonical(docs);
    Split(b', size - 4);
    Assoc(n, body, b'[size - 4..]);
  }

  lemma SectionsCons(s: Section, ss: seq<Section>)
    requires GoodSection(s) && (ss == [] || GoodSections(ss))
    ensures GoodSections([s] + ss)
    ensures EncodeSections([s] + ss) == EncodeSection(s) + EncodeSections(ss)
  {
    assert ([s] + ss)[1..] == ss;
  }

  lemma {:induction false} SectionsCanonical(b: bytes, peek: nat, ss: seq<Section>, rest: bytes)
    requires DecodeSections(b, peek) == Some((ss, rest))
    ensures GoodSections(ss) && |rest| < peek && b == EncodeSections(ss) + rest
    decreases |b|
  {
    hide DecodeSection, EncodeSection, GoodSection;
    var (s, rest1) := DecodeSection(b).value;
    SectionCanonical(b);
    if |rest1| < peek {
      SectionsCons(s, []);
      assert [s] + [] == [s];
    } else {
      var (ss1, rest2) := DecodeSections(rest1, peek).value;
      SectionsCanonical(rest1, peek, ss1, rest2);
      SectionsCons(s, ss1);
    }
  }

  lemma TrailerCanonical(flags: uint32, b: bytes)
    requires DecodeTrailer(flags, b).Some? && DecodeTrailer(flags, b).value.1 == []
    ensures forall ss :: Trailer(OpMsg(flags, DecodeTrailer(flags, b).value.0, ss)) == b
  {
    if ChecksumPresent(flags) {
      LE.PutOfValue(b[..4]);
      assert b[..4] == b;
    }
  }

  lemma MessageCanonical(b: bytes)
    requires Decode(b).Some?
    ensures GoodMessage(Decode(b).value) && Encode(Decode(b).value) == b
  {
    hide DecodeSections, EncodeSections, GoodSections, Merge, LE.Put, LE.Value, LE.Pow256;
    var (n, b') := Fixed(b, 4).value;
    LE.PutOfValue(n);
    LE.Widths();
    var flags: uint32 := LE.Value(n);
    var (ss, b'') := DecodeSections(b', PeekBytes(flags)).value;
    SectionsCanonical(b', PeekBytes(flags), ss, b'');
    TrailerCanonical(flags, b'');
    assert b == n + EncodeSections(ss) + b'';
  }

  // ----- lossless

  lemma {:induction false} DocsLossless(docs: seq<Doc>)
    requires GoodDocs(docs)
    ensures DecodeDocs(EncodeDocs(docs)) == Some(docs)
  {
    if docs != [] {
      DocumentLossless(docs[0], EncodeDocs(docs[1..]));
      DocsLossless(docs[1..]);
      assert docs == [docs[0]] + docs[1..];
    }
  }

  lemma {:induction false} SequenceLossless(s: Section, rest: bytes)
    requires GoodSection(s) && s.kind == KIND_SEQUENCE
    ensures DecodeSequenceSection(LE.PutInt32(|SequenceBody(s)| + 4) + SequenceBody(s) + rest) == Some((s, rest))
  {
    var body := SequenceBody(s);
    var n := LE.PutInt32(|body| + 4);
    LE.Int32RoundTrip(|body| + 4);
    hide LE.PutInt32, LE.GetInt32, DecodeDocs, EncodeDocs, GoodDocs;
    FixedOf(n, body + rest);
    assert n + body + rest == n + (body + rest);
    assert (body + rest)[..|body|] == body && (body + rest)[|body|..] == rest;
    CStringOf(s.identifier, EncodeDocs(s.documents));
    DocsLossless(s.documents);
  }

  lemma {:induction false} SectionLossless(s: Section, rest: bytes)
    requires GoodSection(s)
    ensures DecodeSection(EncodeSection(s) + rest) == Some((s, rest))
  {
    hide EncodeDocument, DecodeDocument, LE.PutInt32, DecodeSequenceSection;
    var b := EncodeSection(s) + rest;
    if s.kind == KIND_BODY {
      var d := s.documents[0];
      assert s.documents == [d];
      OneDoc(d);
      assert b[1..] == EncodeDocument(d) + rest;
      DocumentLossless(d, rest);
    } else {
      assert b[1..] == LE.PutInt32(|SequenceBody(s)| + 4) + SequenceBody(s) + rest;
      SequenceLossless(s, rest);
    }
  }

  lemma SectionsTakeSpace(ss: seq<Section>)
    requires ss != []
    ensures |EncodeSections(ss)| >= 1
  {
  }

  /** The lookahead: a section followed by anything shorter than peek ends the loop, and every further section
      together with the trailer is at least peek bytes long. */
  lemma {:induction false} SectionsLossless(ss: seq<Section>, trailer: bytes, peek: nat)
    requires GoodSections(ss)
    requires |trailer| < peek <= |trailer| + 1
    ensures DecodeSections(EncodeSections(ss) + trailer, peek) == Some((ss, trailer))
  {
    hide EncodeSection, DecodeSection, GoodSection, DecodeSections;
    var s, tail := ss[0], ss[1..];
    var rest := EncodeSections(tail) + trailer;
    assert GoodSection(s);
    SectionLossless(s, rest);
    HeadTail(ss);
    Assoc(EncodeSection(s), EncodeSections(tail), trailer);
    if tail == [] {
      assert EncodeSections(tail) == [];
      assert [] + trailer == trailer;
      SectionsStop(s, trailer, peek);
      assert ss == [s];
    } else {
      SectionsTakeSpace(tail);
      SectionsLossless(tail, trailer, peek);
      SectionsGoOn(s, tail, rest, trailer, peek);
    }
  }

  lemma SectionsStop(s: Section, rest: bytes, peek: nat)
    requires DecodeSection(EncodeSection(s) + rest) == Some((s, rest)) && |rest| < peek
    ensures DecodeSections(EncodeSection(s) + rest, peek) == Some(([s], rest))
  {
  }

  lemma {:induction false} SectionsGoOn(s: Section, ss: seq<Section>, rest: bytes, rest': bytes, peek: nat)
    requires DecodeSection(EncodeSection(s) + rest) == Some((s, rest)) && |rest| >= peek
    requires DecodeSections(rest, peek) == Some((ss, rest'))
    ensures DecodeSections(EncodeSection(s) + rest, peek) == Some(([s] + ss, rest'))
  {
  }

  lemma {:induction false} MessageLossless(msg: OpMsg)
    requires GoodMessage(msg)
    ensures Decode(Encode(msg)) == Some(msg)
  {
    var n := LE.Put(msg.flags, 4);
    LE.Widths();
    LE.ValueOfPut(msg.flags, 4);
    LE.ValueOfPut(msg.checksum, 4);
    FixedOf(n, EncodeSections(msg.sections) + Trailer(msg));
    assert Encode(msg) == n + (EncodeSections(msg.sections) + Trailer(msg));
    SectionsLossless(msg.sections, Trailer(msg), PeekBytes(msg.flags));
    FixedOf(Trailer(msg), []);
    assert Trailer(msg) + [] == Trailer(msg);
  }

  /** Both directions at once. */
  lemma DecodesExactlyMessage(b: bytes, msg: OpMsg)
    ensures Decode(b) == Some(msg) <==> GoodMessage(msg) && b == Encode(msg)
  {
    if Decode(b) == Some(msg) {
      MessageCanonical(b);
    } else if GoodMessage(msg) && b == Encode(msg) {
      MessageLossless(msg);
    }
  }

  // ----- whole messages

  const HEADER_LEN := 16
  const MAX_MSG_LEN := 48_000_000
  const OP_MSG: int32 := 2013

  datatype Header = Header(messageLength: int32, requestID: int32, responseTo: int32, opCode: int32)

  function EncodeHeader(h: Header): (b: bytes)
    ensures |b| == HEADER_LEN
  {
    LE.PutInt32(h.messageLength) + LE.PutInt32(h.requestID) + LE.PutInt32(h.responseTo) + LE.PutInt32(h.opCode)
  }

  function DecodeHeader(b: bytes): (r: Parsed<Header>)
    ensures r.Some? ==> HEADER_LEN <= r.value.0.messageLength <= MAX_MSG_LEN
  {
    if |b| < HEADER_LEN then None
    else
      var h := Header(LE.GetInt32(b[0..4]), LE.GetInt32(b[4..8]), LE.GetInt32(b[8..12]), LE.GetInt32(b[12..16]));
      if h.messageLength < HEADER_LEN || h.messageLength > MAX_MSG_LEN then None else Some((h, b[16..]))
  }

  /** ReadMessage, for the one operation code whose body is modelled here. */
  function ReadMessage(b: bytes): (r: Parsed<(Header, OpMsg)>) {
    match DecodeHeader(b)
    case None => None
    case Some((h, b')) =>
      match Fixed(b', h.messageLength - HEADER_LEN)
      case None => None
      case Some((body, rest)) =>
        if h.opCode != OP_MSG then None
        else
          match Decode(body)
          case None => None
          case Some(msg) => Some(((h, msg), rest))
  }

  /** WriteMessage panics when the header does not announce the length of the body. */
  function WriteMessage(h: Header, msg: OpMsg): (r: Option<bytes>) {
    if |Encode(msg)| + HEADER_LEN != h.messageLength then None else Some(EncodeHeader(h) + Encode(msg))
  }

  lemma {:induction false} HeaderCanonical(b: bytes)
    requires DecodeHeader(b).Some?
    ensures b == EncodeHeader(DecodeHeader(b).value.0) + DecodeHeader(b).value.1
  {
    LE.Int32Canonical(b[0..4]);
    LE.Int32Canonical(b[4..8]);
    LE.Int32Canonical(b[8..12]);
    LE.Int32Canonical(b[12..16]);
    assert b == b[0..4] + b[4..8] + b[8..12] + b[12..16] + b[16..];
  }

  lemma HeaderLossless(h: Header, rest: bytes)
    requires HEADER_LEN <= h.messageLength <= MAX_MSG_LEN
    ensures DecodeHeader(EncodeHeader(h) + rest) == Some((h, rest))
  {
    var b := EncodeHeader(h) + rest;
    LE.Int32RoundTrip(h.messageLength);
    LE.Int32RoundTrip(h.requestID);
    LE.Int32RoundTrip(h.responseTo);
    LE.Int32RoundTrip(h.opCode);
    assert b[0..4] == LE.PutInt32(h.messageLength);
    assert b[4..8] == LE.PutInt32(h.requestID);
    assert b[8..12] == LE.PutInt32(h.responseTo);
    assert b[12..16] == LE.PutInt32(h.opCode);
    assert b[16..] == rest;
  }

  lemma {:induction false} ReadCanonical(b: bytes)
    requires ReadMessage(b).Some?
    ensures var ((h, msg), rest) := ReadMessage(b).value;
            && GoodMessage(msg) && h.opCode == OP_MSG && h.messageLength <= MAX_MSG_LEN
            && |Encode(msg)| + HEADER_LEN == h.messageLength
            && b == EncodeHeader(h) + Encode(msg) + rest
  {
    HeaderCanonical(b);
    var (h, b') := DecodeHeader(b).value;
    var (body, rest) := Fixed(b', h.messageLength - HEADER_LEN).value;
    MessageCanonical(body);
    Assoc(EncodeHeader(h), body, rest);
  }

  lemma {:induction false} ReadLossless(h: Header, msg: OpMsg, rest: bytes)
    requires GoodMessage(msg) && h.opCode == OP_MSG && h.messageLength <= MAX_MSG_LEN
    requires |Encode(msg)| + HEADER_LEN == h.messageLength
    ensures ReadMessage(EncodeHeader(h) + Encode(msg) + rest) == Some(((h, msg), rest))
  {
    var body := Encode(msg);
    HeaderLossless(h, body + rest);
    Assoc(EncodeHeader(h), body, rest);
    FixedOf(body, rest);
    MessageLossless(msg);
  }

  /** A stream delivers a message exactly when the message was written to its front: the announced length is 16
      more than the body, and nothing of what follows is touched. */
  lemma {:induction false} ReadsWhatWasWritten(b: bytes, h: Header, msg: OpMsg, rest: bytes)
    ensures ReadMessage(b) == Some(((h, msg), rest)) <==>
            && GoodMessage(msg) && h.opCode == 2013 && h.messageLength <= 48_000_000
            && WriteMessage(h, msg).Some? && b == WriteMessage(h, msg).value + rest
    ensures WriteMessage(h, msg)
         == if h.messageLength == 16 + |Encode(msg)| then Some(EncodeHeader(h) + Encode(msg)) else None
  {
    if ReadMessage(b) == Some(((h, msg), rest)) {
      ReadCanonical(b);
    }
    if GoodMessage(msg) && h.opCode == 2013 && h.messageLength <= 48_000_000 && WriteMessage(h, msg).Some? {
      ReadLossless(h, msg, rest);
    }
  }
}
