// The TCP segment codec (util/tcp_segment.cc, section 3.1 of RFC 9293).
module TCPFormat {
  import opened Words
  import opened BigEndian
  import opened Checksum
  import opened Cursors
  import opened Messages
  import opened PeerModel
  import IPv4

  const HEADER_WORDS: nat := 5
  const HEADER_LENGTH: nat := 20

  // A segment with the user datagram information around it.
  datatype WireSegment = WireSegment(seg: Segment, srcPort: U16, dstPort: U16, cksum: U16)
  {
    function Ackno(): U32
    {
      if seg.receiver.ackno.Some? then seg.receiver.ackno.value else 0
    }

    function Flags(): Byte
    {
      Bit(seg.receiver.ackno.Some?) * 0x10 + Bit(seg.reset) * 4 + Bit(seg.sender.syn) * 2 + Bit(seg.sender.fin)
    }

    function Before(tail: seq<Byte>): seq<Byte>
    {
      ToBytes(2, srcPort) + (ToBytes(2, dstPort) + (ToBytes(4, seg.sender.seqno) + (ToBytes(4, Ackno()) +
      (ToBytes(1, HEADER_WORDS * 0x10) + (ToBytes(1, Flags()) + (ToBytes(2, seg.receiver.windowSize) +
      (ToBytes(2, cksum) + (ToBytes(2, 0) + tail))))))))
    }

    function Encode(): seq<Byte> { Before(seg.sender.payload) }

    // The checksum the other fields call for, on top of what the pseudo-header adds.
    function SegmentChecksum(pseudo: U32): U16
    {
      ValueOf(ToU32(pseudo + ByteSum(this.(cksum := 0).Encode(), false)))
    }
  }

  function FromFields(src: U16, dst: U16, seqno: U32, ackno: U32, flags: nat, window: U16, cksum: U16,
                      payload: seq<Byte>): WireSegment
  {
    WireSegment(
      Segment(SenderMessage(seqno, flags / 2 % 2 == 1, payload, flags % 2 == 1),
              ReceiverMessage(if flags / 0x10 % 2 == 1 then Some(ackno) else None, window),
              flags / 4 % 2 == 1),
      src, dst, cksum)
  }

  // The header fields in order, with the data offset apart. A failed read leaves a scratch variable
  // with the value of the field read into it before.
  function ReadFields(c: Cursor, w: WireSegment): (WireSegment, nat, Cursor)
  {
    Widths();
    var (src, c1) := Take(c, 2, w.srcPort);
    var (dst, c2) := Take(c1, 2, w.dstPort);
    var (seqno, c3) := Take(c2, 4, 0);
    var (ackno, c4) := Take(c3, 4, seqno);
    var (offset, c5) := Take(c4, 1, 0);
    var (flags, c6) := Take(c5, 1, offset);
    var (window, c7) := Take(c6, 2, w.seg.receiver.windowSize);
    var (cksum, c8) := Take(c7, 2, w.cksum);
    var (urgent, c9) := Take(c8, 2, 0);
    (FromFields(src, dst, seqno, ackno, flags, window, cksum, w.seg.sender.payload), offset / 0x10, c9)
  }

  function WithPayload(w: WireSegment, payload: seq<Byte>): WireSegment
  {
    w.(seg := w.seg.(sender := w.seg.sender.(payload := payload)))
  }

  // Parsing: nothing is read unless the checksum is right. The length of the options is computed
  // in 32 bits.
  function Parse(c: Cursor, pseudo: U32, old': WireSegment): (WireSegment, bool)
  {
    if ValueOf(ToU32(pseudo + ByteSum(c.rest, false))) != 0 then (old', true) else
    var (w, offset, next) := ReadFields(c, old');
    var options := ToU32(offset * 4 - HEADER_LENGTH);
    (WithPayload(w, next.rest[Min(options, |next.rest|)..]), next.error || offset < HEADER_WORDS)
  }

  // The two outcomes of the checksum.
  lemma ParseCases(c: Cursor, pseudo: U32, w: WireSegment)
    ensures ValueOf(ToU32(pseudo + ByteSum(c.rest, false))) != 0 ==> Parse(c, pseudo, w) == (w, true)
    ensures var (r, offset, next) := ReadFields(c, w);
            var options := ToU32(offset * 4 - HEADER_LENGTH);
            ValueOf(ToU32(pseudo + ByteSum(c.rest, false))) == 0 ==>
              Parse(c, pseudo, w)
              == (WithPayload(r, next.rest[Min(options, |next.rest|)..]), next.error || offset < HEADER_WORDS)
  {
    hide ReadFields, ValueOf, ByteSum;
  }

  // --- Reading what was written ---

  lemma ReadWritten(w: WireSegment, tail: seq<Byte>, old': WireSegment)
    ensures ReadFields(Cursor(w.Before(tail), false), old')
            == (WithPayload(w, old'.seg.sender.payload), HEADER_WORDS, Cursor(tail, false))
  {
    hide Take, ToBytes;
    Widths();
    var t9 := tail;
    var t8 := ToBytes(2, 0) + t9;
    var t7 := ToBytes(2, w.cksum) + t8;
    var t6 := ToBytes(2, w.seg.receiver.windowSize) + t7;
    var t5 := ToBytes(1, w.Flags()) + t6;
    var t4 := ToBytes(1, HEADER_WORDS * 0x10) + t5;
    var t3 := ToBytes(4, w.Ackno()) + t4;
    var t2 := ToBytes(4, w.seg.sender.seqno) + t3;
    var t1 := ToBytes(2, w.dstPort) + t2;
    TakeWritten(2, w.srcPort, t1, old'.srcPort);
    TakeWritten(2, w.dstPort, t2, old'.dstPort);
    TakeWritten(4, w.seg.sender.seqno, t3, 0);
    TakeWritten(4, w.Ackno(), t4, w.seg.sender.seqno);
    TakeWritten(1, HEADER_WORDS * 0x10, t5, 0);
    TakeWritten(1, w.Flags(), t6, HEADER_WORDS * 0x10);
    TakeWritten(2, w.seg.receiver.windowSize, t7, old'.seg.receiver.windowSize);
    TakeWritten(2, w.cksum, t8, old'.cksum);
    TakeWritten(2, 0, t9, 0);
  }

  // The fields sit where section 3.1 of RFC 9293 puts them.
  predicate InPlace(w: WireSegment, offset: nat, b: seq<Byte>)
    requires |b| >= HEADER_LENGTH
  {
    && w.srcPort == Word(b[0], b[1]) && w.dstPort == Word(b[2], b[3])
    && w.seg.sender.seqno == FromBytes(b[4..8])
    && w.seg.receiver.ackno == (if b[13] / 0x10 % 2 == 1 then Some(FromBytes(b[8..12])) else None)
    && offset == b[12] / 0x10
    && (w.seg.reset <==> b[13] / 4 % 2 == 1)
    && (w.seg.sender.syn <==> b[13] / 2 % 2 == 1) && (w.seg.sender.fin <==> b[13] % 2 == 1)
    && w.seg.receiver.windowSize == Word(b[14], b[15]) && w.cksum == Word(b[16], b[17])
  }

  lemma FieldsInPlace(b: seq<Byte>, old': WireSegment)
    requires |b| >= HEADER_LENGTH
    ensures var (w, offset, next) := ReadFields(Cursor(b, false), old');
            InPlace(w, offset, b) && !next.error && next.rest == b[HEADER_LENGTH..]
  {
    hide Take, FromBytes, Word;
    Widths();
    assert b[0..] == b;
    TakeWord(b, 0, old'.srcPort);
    TakeWord(b, 2, old'.dstPort);
    TakeAt(b, 4, 4, 0);
    TakeAt(b, 8, 4, FromBytes(b[4..8]));
    TakeByte(b, 12, 0);
    TakeByte(b, 13, b[12]);
    TakeWord(b, 14, old'.seg.receiver.windowSize);
    TakeWord(b, 16, old'.cksum);
    TakeWord(b, 18, 0);
  }

  // The checksum field sits sixteen bytes in.
  function Above(w: WireSegment): seq<Byte>
  {
    ToBytes(2, w.srcPort) + (ToBytes(2, w.dstPort) + (ToBytes(4, w.seg.sender.seqno) + (ToBytes(4, w.Ackno()) +
    (ToBytes(1, HEADER_WORDS * 0x10) + (ToBytes(1, w.Flags()) + ToBytes(2, w.seg.receiver.windowSize))))))
  }

  function Below(w: WireSegment): seq<Byte> { ToBytes(2, 0) + w.seg.sender.payload }

  lemma ChecksumInPlace(w: WireSegment, v: U16)
    ensures |Above(w)| == 16
    ensures w.(cksum := v).Encode() == Above(w) + BytesOf16(v) + Below(w)
  {
    hide ToBytes;
    assert w.(cksum := v).Ackno() == w.Ackno() && w.(cksum := v).Flags() == w.Flags();
    IPv4.WordBytes(v);
  }

  // Parsing undoes serializing exactly for the segments that carry the right checksum (or all ones
  // where it is zero), with or without an acknowledgment or a payload, as long as the sum fits in
  // 32 bits.
  lemma ParseUndoesSerialize(w: WireSegment, pseudo: U32, old': WireSegment)
    requires pseudo + ByteSum(w.(cksum := 0).Encode(), false) + 0xffff < TWO32
    ensures Parse(Cursor(w.Encode(), false), pseudo, old') == (w, false)
            <==> w.cksum == w.SegmentChecksum(pseudo) || (w.cksum == 0xffff && w.SegmentChecksum(pseudo) == 0)
  {
    hide Parse, ValueOf, WireSegment.Encode, WireSegment.SegmentChecksum, ByteSum;
    ParseWritten(w, pseudo, old');
    ChecksumAccepted(w, pseudo);
  }

  lemma ParseWritten(w: WireSegment, pseudo: U32, old': WireSegment)
    ensures Parse(Cursor(w.Encode(), false), pseudo, old')
            == if ValueOf(ToU32(pseudo + ByteSum(w.Encode(), false))) == 0 then (w, false) else (old', true)
  {
    hide ReadFields, ValueOf, WireSegment.Before, WireSegment.Encode, ByteSum;
    EncodeIsBefore(w);
    ReadWritten(w, w.seg.sender.payload, old');
  }

  lemma ChecksumAccepted(w: WireSegment, pseudo: U32)
    requires pseudo + ByteSum(w.(cksum := 0).Encode(), false) + 0xffff < TWO32
    ensures ValueOf(ToU32(pseudo + ByteSum(w.Encode(), false))) == 0
            <==> w.cksum == w.SegmentChecksum(pseudo) || (w.cksum == 0xffff && w.SegmentChecksum(pseudo) == 0)
  {
    hide ValueOf, WireSegment.Encode, ByteSum, Above, Below;
    ChecksumInPlace(w, 0);
    ChecksumInPlace(w, w.cksum);
    assert w == w.(cksum := w.cksum);
    ByteSumAroundWord(Above(w), 0, Below(w));
    ByteSumAroundWord(Above(w), w.cksum, Below(w));
    OnlyStoredChecksumVerifies(pseudo, Above(w), Below(w), w.cksum);
  }

  lemma EncodeIsBefore(w: WireSegment)
    ensures w.Encode() == w.Before(w.seg.sender.payload)
  {
  }

  // Every segment that fits in an IPv4 datagram comes back once its checksum has been computed.
  lemma ComputedChecksumRoundTrip(w: WireSegment, h: IPv4.Header, old': WireSegment)
    requires |w.seg.sender.payload| < TWO16
    ensures var sent := w.(cksum := w.SegmentChecksum(h.PseudoChecksum()));
            Parse(Cursor(sent.Encode(), false), h.PseudoChecksum(), old') == (sent, false)
  {
    hide Parse, WireSegment.Encode, ByteSum, Above, Below;
    var pseudo := h.PseudoChecksum();
    var sent := w.(cksum := w.SegmentChecksum(pseudo));
    assert sent.(cksum := 0) == w.(cksum := 0);
    EncodedLength(w.(cksum := 0));
    ByteSumBound(w.(cksum := 0).Encode(), false);
    ParseUndoesSerialize(sent, pseudo, old');
  }

  // A segment inside a datagram: the header parser hands exactly the segment's bytes on, and the
  // segment parser gets the segment back, checked against the addresses of that header.
  lemma PacketRoundTrip(h: IPv4.Header, w: WireSegment, oldHeader: IPv4.Header, oldSegment: WireSegment)
    requires h.ver == 4 && h.hlen == 5 && h.offset < 0x2000 && h.cksum == h.HeaderChecksum()
    requires |w.seg.sender.payload| < TWO16 && w.cksum == w.SegmentChecksum(h.PseudoChecksum())
    ensures var (header, rest) := IPv4.Parse(Cursor(h.Before(w.Encode()), false), oldHeader);
            header == h && !rest.error && Parse(rest, header.PseudoChecksum(), oldSegment) == (w, false)
  {
    hide Parse, IPv4.Parse, WireSegment.SegmentChecksum, WireSegment.Encode;
    IPv4.ParseUndoesSerialize(h, w.Encode(), oldHeader);
    assert w.(cksum := w.SegmentChecksum(h.PseudoChecksum())) == w;
    ComputedChecksumRoundTrip(w, h, oldSegment);
  }

  lemma EncodedLength(w: WireSegment)
    ensures |w.Encode()| == HEADER_LENGTH + |w.seg.sender.payload|
  {
    hide ToBytes;
  }

  // --- Which bytes are accepted ---

  // Bytes are accepted exactly when their checksum is right, there are at least twenty of them, and
  // the data offset is at least five words. The payload is what follows the data offset, and nothing
  // if that points past the end.
  lemma AcceptedExactly(b: seq<Byte>, pseudo: U32, old': WireSegment)
    ensures var (w, error) := Parse(Cursor(b, false), pseudo, old');
            && (!error <==> && ValueOf(ToU32(pseudo + ByteSum(b, false))) == 0
                            && |b| >= HEADER_LENGTH && b[12] / 0x10 >= HEADER_WORDS)
            && (!error ==> w.seg.sender.payload == b[Min(b[12] / 0x10 * 4, |b|)..])
  {
    hide Parse, ReadFields, ValueOf, ByteSum, ToU32;
    ParseCases(Cursor(b, false), pseudo, old');
    ReadPositions(b, old');
    var offset := ReadFields(Cursor(b, false), old').1;
    if |b| >= HEADER_LENGTH && HEADER_WORDS <= offset < 0x10 {
      PayloadAt(b, offset);
    }
  }

  lemma PayloadAt(b: seq<Byte>, offset: nat)
    requires |b| >= HEADER_LENGTH && HEADER_WORDS <= offset < 0x10
    ensures ToU32(offset * 4 - HEADER_LENGTH) == offset * 4 - HEADER_LENGTH
    ensures b[HEADER_LENGTH..][Min(offset * 4 - HEADER_LENGTH, |b| - HEADER_LENGTH)..] == b[Min(offset * 4, |b|)..]
  {
  }

  lemma ReadPositions(b: seq<Byte>, old': WireSegment)
    ensures var (w, offset, next) := ReadFields(Cursor(b, false), old');
            && (next.error <==> |b| < HEADER_LENGTH)
            && (!next.error ==> offset == b[12] / 0x10 && next.rest == b[HEADER_LENGTH..])
  {
    if |b| < HEADER_LENGTH {
      ShortFails(b, old');
    } else {
      hide ReadFields;
      FieldsInPlace(b, old');
    }
  }

  lemma ShortFails(b: seq<Byte>, old': WireSegment)
    requires |b| < HEADER_LENGTH
    ensures ReadFields(Cursor(b, false), old').2.error
  {
    hide Take, FromFields;
  }
}

module TCPSegments {
  import opened Words
  import opened Buffers
  import opened BigEndian
  import opened Checksum
  import opened InternetChecksums
  import opened Cursors
  import opened Codecs
  import opened Messages
  import opened PeerModel
  import opened TCPFormat

  class TCPSegment {
    var senderMessage: SenderMessage
    var receiverMessage: ReceiverMessage
    var reset: bool
    var srcPort: U16
    var dstPort: U16
    var cksum: U16

    function View(): WireSegment
      reads this
    {
      WireSegment(Segment(senderMessage, receiverMessage, reset), srcPort, dstPort, cksum)
    }

    constructor ()
      ensures View() == WireSegment(
                          Segment(SenderMessage(0, false, [], false), ReceiverMessage(None, 0), false), 0, 0, 0)
    {
      senderMessage, receiverMessage := SenderMessage(0, false, [], false), ReceiverMessage(None, 0);
      reset, srcPort, dstPort, cksum := false, 0, 0, 0;
    }

    method Parse(parser: Parser, pseudo: U32)
      requires parser.Valid() && parser.Reaches(HEADER_LENGTH)
      modifies this, parser`error, parser.input
      ensures parser.Valid()
      ensures (View(), parser.error) == TCPFormat.Parse(old(parser.View()), pseudo, old(View()))
    {
      hide Take, ValueOf, ByteSum, View, ReadFields, TCPFormat.Parse, ToU32, WithPayload, Parser.Valid, Parser.Reaches;
      ParseCases(parser.View(), pseudo, View());
      var value := VerifyChecksum(parser, pseudo);
      if value != 0 {
        parser.SetError();
        return;
      }
      var w, dataOffset := ReadHeader(parser, View());
      ghost var next := parser.View();
      if dataOffset < HEADER_WORDS {
        parser.SetError();
      }
      var payload := TakePayload(parser, ToU32(dataOffset * 4 - HEADER_LENGTH));
      assert payload == next.rest[Min(ToU32(dataOffset * 4 - HEADER_LENGTH), |next.rest|)..];
      Assign(WithPayload(w, payload));
    }

    method Assign(w: WireSegment)
      modifies this
      ensures View() == w
    {
      senderMessage, receiverMessage, reset := w.seg.sender, w.seg.receiver, w.seg.reset;
      srcPort, dstPort, cksum := w.srcPort, w.dstPort, w.cksum;
    }

    method Serialize(serializer: Serializer)
      modifies serializer
      ensures serializer.Bytes() == old(serializer.Bytes()) + View().Encode()
      ensures serializer.buffer == []
      ensures serializer.output
              == old(serializer.output) + [old(serializer.buffer) + View().Before([]), senderMessage.payload]
    {
      hide ToBytes, WireSegment.Encode, Concat;
      ghost var before := serializer.Bytes();
      var w := View();
      WriteHeader(w, serializer);
      assert serializer.Bytes() == before + w.Before([]);
      serializer.Buffer(senderMessage.payload);
      assert serializer.output
             == old(serializer.output) + [old(serializer.buffer) + w.Before([]), w.seg.sender.payload];
      BeforePayload(w);
      Nest(before, w.Before([]), senderMessage.payload);
    }

    method ComputeChecksum(pseudo: U32)
      modifies this`cksum
      ensures View() == old(View()).(cksum := old(View()).SegmentChecksum(pseudo))
    {
      hide ByteSum, WireSegment.Encode, ValueOf, View, Concat;
      SetChecksum(0);
      var s := new Serializer();
      Serialize(s);
      assert s.Bytes() == View().Encode();
      var check := new InternetChecksum(pseudo);
      var out := s.Output();
      check.AddAll(out);
      var value := check.Value();
      SetChecksum(value);
    }

    method SetChecksum(value: U16)
      modifies this`cksum
      ensures View() == old(View()).(cksum := value)
    {
      cksum := value;
    }
  }

  // The buffers a segment is sent as (util/parser.hh:207-214). The header fills the first of them, so
  // the receiving side meets no empty buffer while it reads integers.
  method Serialized(segment: TCPSegment) returns (chunks: seq<seq<Byte>>)
    ensures Concat(chunks) == segment.View().Encode()
    ensures HEADER_LENGTH <= Solid(chunks, 0)
  {
    hide Concat, WireSegment.Before, WireSegment.Encode;
    var s := new Serializer();
    segment.Serialize(s);
    assert s.Bytes() == segment.View().Encode();
    chunks := s.Output();
    HeaderFirst(segment.View(), chunks);
  }

  lemma HeaderFirst(w: WireSegment, chunks: seq<seq<Byte>>)
    requires |chunks| > 0 && chunks[0] == [] + w.Before([])
    ensures HEADER_LENGTH <= Solid(chunks, 0)
  {
    hide ToBytes;
    assert |w.Before([])| == HEADER_LENGTH;
  }

  // Parsing a list of buffers into a segment (util/parser.hh:216-223).
  method Parsed(segment: TCPSegment, buffers: seq<seq<Byte>>, pseudo: U32) returns (ok: bool)
    requires Min(HEADER_LENGTH, |Concat(buffers)|) <= Solid(buffers, 0)
    modifies segment
    ensures (segment.View(), !ok)
            == TCPFormat.Parse(Cursor(Concat(buffers), false), pseudo, old(segment.View()))
  {
    hide TCPFormat.Parse, Concat, Solid;
    var parser := new Parser(buffers);
    segment.Parse(parser, pseudo);
    ok := !parser.error;
  }

  // The checksum over a copy of what is left to read.
  method VerifyChecksum(parser: Parser, pseudo: U32) returns (value: U16)
    requires parser.Valid()
    ensures value == ValueOf(ToU32(pseudo + ByteSum(parser.View().rest, false)))
  {
    hide ByteSum, ValueOf;
    var parser2 := new Parser.Copy(parser);
    var allRemaining := parser2.AllRemainingJoined();
    var check := new InternetChecksum(pseudo);
    check.Add(allRemaining);
    value := check.Value();
  }

  // Skips the options and takes the rest.
  method TakePayload(parser: Parser, options: nat) returns (payload: seq<Byte>)
    requires parser.Valid()
    modifies parser.input
    ensures parser.Valid() && payload == old(parser.View()).rest[Min(options, |old(parser.View()).rest|)..]
  {
    parser.RemovePrefix(options);
    payload := parser.AllRemainingJoined();
  }

  // The nine integers of a header; w is what the segment held before.
  method ReadHeader(parser: Parser, w: WireSegment) returns (r: WireSegment, dataOffset: nat)
    requires parser.Valid() && parser.Reaches(HEADER_LENGTH)
    modifies parser`error, parser.input
    ensures parser.Valid()
    ensures (r, dataOffset, parser.View()) == ReadFields(old(parser.View()), w)
  {
    hide Take, Parser.View, Parser.Valid, Parser.Reaches, FromFields;
    Widths();
    var src := parser.Integer(2, w.srcPort, 20);
    var dst := parser.Integer(2, w.dstPort, 18);
    var raw32 := parser.Integer(4, 0, 16);
    var seqno := raw32;
    raw32 := parser.Integer(4, raw32, 12);
    var octet := parser.Integer(1, 0, 8);
    dataOffset := octet / 0x10;
    octet := parser.Integer(1, octet, 7);
    var window := parser.Integer(2, w.seg.receiver.windowSize, 6);
    var cksum := parser.Integer(2, w.cksum, 4);
    var urgent := parser.Integer(2, 0, 2);
    r := FromFields(src, dst, seqno, raw32, octet, window, cksum, w.seg.sender.payload);
  }

  method WriteHeader(w: WireSegment, serializer: Serializer)
    modifies serializer`buffer
    ensures serializer.buffer == old(serializer.buffer) + w.Before([])
  {
    hide ToBytes, WireSegment.Before;
    WrittenInTurn(serializer.buffer, w);
    serializer.Integer(2, w.srcPort);
    serializer.Integer(2, w.dstPort);
    serializer.Integer(4, w.seg.sender.seqno);
    serializer.Integer(4, if w.seg.receiver.ackno.Some? then w.seg.receiver.ackno.value else 0);
    serializer.Integer(1, HEADER_WORDS * 0x10);
    serializer.Integer(1, w.Flags());
    serializer.Integer(2, w.seg.receiver.windowSize);
    serializer.Integer(2, w.cksum);
    serializer.Integer(2, 0);
  }

  lemma BeforePayload(w: WireSegment)
    ensures w.Before([]) + w.seg.sender.payload == w.Encode()
  {
    hide ToBytes;
  }

  lemma WrittenInTurn(buffer: seq<Byte>, w: WireSegment)
    ensures buffer + ToBytes(2, w.srcPort) + ToBytes(2, w.dstPort) + ToBytes(4, w.seg.sender.seqno)
            + ToBytes(4, w.Ackno()) + ToBytes(1, HEADER_WORDS * 0x10) + ToBytes(1, w.Flags())
            + ToBytes(2, w.seg.receiver.windowSize) + ToBytes(2, w.cksum) + ToBytes(2, 0)
            == buffer + w.Before([])
  {
    hide ToBytes, WireSegment.Ackno, WireSegment.Flags;
  }
}
