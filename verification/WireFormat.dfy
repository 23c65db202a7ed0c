/** The bytes of a message, written out: the header, the two kinds of sections, and the flag for the checksum. */
module WireFormat {
  import opened Types
  import opened Bson
  import opened BsonFormat
  import opened Wire
  import LE = LittleEndian

  /** The length, the request's number, the number of the request that is answered, and the operation. */
  lemma HeaderFormat(h: Header)
    ensures var b := EncodeHeader(h);
            && |b| == 16
            && b[0..4] == LE.PutInt32(h.messageLength) && b[4..8] == LE.PutInt32(h.requestID)
            && b[8..12] == LE.PutInt32(h.responseTo) && b[12..16] == LE.PutInt32(h.opCode)
  {
  }

  /** A request number 2 of 20 bytes that answers nothing; 0x07DD is the operation 2013. */
  lemma {:induction false} HeaderSample()
    ensures EncodeHeader(Header(20, 2, 0, 2013))
         == Raw([20, 0, 0, 0] + [2, 0, 0, 0] + [0, 0, 0, 0] + [0xDD, 0x07, 0, 0])
  {
    hide LE.Put, Raw;
    Int32Format(20);
    Int32Format(2);
    Int32Format(0);
    Int32Format(2013);
    Joined([20, 0, 0, 0], [2, 0, 0, 0]);
    Joined([20, 0, 0, 0] + [2, 0, 0, 0], [0, 0, 0, 0]);
    Joined([20, 0, 0, 0] + [2, 0, 0, 0] + [0, 0, 0, 0], [0xDD, 0x07, 0, 0]);
  }

  /** A body is a zero and its document; a sequence is a one, the number of bytes behind it, its identifier with a zero,
      and its documents. */
  lemma {:induction false} SectionFormat(s: Section)
    requires (s.kind as int == 0 && |s.documents| == 1) || s.kind as int == 1
    ensures var b := EncodeSection(s);
            if s.kind as int == 0 then b == Raw([0]) + EncodeDocument(s.documents[0])
            else b == Raw([1]) + LE.PutInt32(|b| - 1) + s.identifier + Raw([0]) + EncodeDocs(s.documents)
    ensures EncodeDocs([]) == []
    ensures s.documents != [] ==>
              EncodeDocs(s.documents) == EncodeDocument(s.documents[0]) + EncodeDocs(s.documents[1..])
  {
    assert Raw([0]) == [NUL] && Raw([1]) == [KIND_SEQUENCE];
    if s.kind as int == 0 { OneDoc(s.documents[0]); assert s.documents == [s.documents[0]]; }
  }

  /** Four bytes of flags, the sections, and four bytes of checksum if the lowest flag is set. */
  lemma {:induction false} MessageFormat(msg: OpMsg)
    ensures Encode(msg) == LE.PutInt32(msg.flags) + EncodeSections(msg.sections)
                         + if msg.flags % 2 == 1 then LE.PutInt32(msg.checksum) else []
    ensures msg.sections != [] ==>
              EncodeSections(msg.sections) == EncodeSection(msg.sections[0]) + EncodeSections(msg.sections[1..])
    ensures EncodeSections([]) == []
  {
    hide LE.Put, LE.Pow256;
    LE.Widths();
  }
}
