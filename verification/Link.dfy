// One direction of a connection: a sender, the receiver at the other end, the data messages on
// their way, and the acknowledgments on their way back.
module Link {
  import opened Words
  import opened WrappingIntegers
  import opened Messages
  import opened ByteStreams
  import opened Reassembly
  import opened ReceiverModel
  import opened SenderModel
  import opened SenderSafety
  import opened PeerModel
  import opened Closing

  // The bytes the sender has taken from its stream so far.
  function Sent(out: Stream): seq<Byte>
  {
    out.written[..out.read]
  }

  // The number up to which the receiver has acknowledged.
  function Reached(rcv: Receiver): nat
  {
    if rcv.syn then rcv.NextNeeded() else 0
  }

  // What holds however acknowledgments are understood.
  ghost predicate DataLinkOk(snd: Sender, out: Stream, rcv: Receiver)
  {
    && Ok(snd, out)
    && rcv.Ok()
    && (rcv.syn ==> snd.syn && rcv.isn == snd.isn)
    && (rcv.fin ==> snd.fin)
    && Agrees(rcv.asm, Sent(out))
  }

  ghost predicate LinkOk(snd: Sender, out: Stream, rcv: Receiver)
  {
    DataLinkOk(snd, out, rcv) && snd.Unacked() <= Reached(rcv)
  }

  // A data message in the network.
  predicate DataOk(k: Packet, snd: Sender, out: Stream)
  {
    SegOk(k.seg, snd, out) && k.wire.sender == k.seg.Wire(snd.isn)
  }

  // An acknowledgment in the network, for the sender whose zero point is isn.
  predicate AckOk(k: Packet, rcv: Receiver, isn: U32)
  {
    && k.wire.receiver.ackno == (if k.ack.Some? then Some(Wrap(k.ack.value, isn)) else None)
    && (k.ack.Some? ==> rcv.syn && k.ack.value <= rcv.NextNeeded())
  }

  ghost predicate DataHalfOk(snd: Sender, out: Stream, rcv: Receiver, data: set<Packet>)
  {
    DataLinkOk(snd, out, rcv) && forall k <- data :: DataOk(k, snd, out)
  }

  predicate AcksOk(snd: Sender, rcv: Receiver, acks: set<Packet>)
  {
    snd.Unacked() <= Reached(rcv) && forall k <- acks :: AckOk(k, rcv, snd.isn)
  }

  // The receiver never acknowledges more than was sent.
  lemma ReachedBelowNext(snd: Sender, out: Stream, rcv: Receiver)
    requires DataLinkOk(snd, out, rcv)
    ensures Reached(rcv) <= snd.next
  {
    hide Layout, AllOk;
  }

  // --- The sender's steps ---

  // Whatever the sender does keeps its messages good.
  lemma SenderMoves(snd: Sender, out: Stream, rcv: Receiver, data: set<Packet>, snd': Sender, out': Stream)
    requires DataHalfOk(snd, out, rcv, data)
    requires Ok(snd', out') && Extends(snd, out, snd', out')
    ensures DataHalfOk(snd', out', rcv, data)
  {
    hide Ok, SegOk;
    assert Sent(out) <= Sent(out');
    forall k <- data
      ensures DataOk(k, snd', out')
    {
      SegStaysOk(k.seg, snd, out, snd', out');
    }
  }

  // An ack takes only what the receiver acknowledged out of the flight: it is read as one of something
  // not sent, or covers, as far as the sender finds it to, only messages that arrived.
  predicate Harmless(snd: Sender, rcv: Receiver, m: ReceiverMessage)
  {
    m.ackno.Some? ==>
      var read := Unwrap(m.ackno.value, snd.isn, ToU64(snd.next));
      || read > snd.next
      || forall i :: 0 <= i < FoundCount(snd, snd.outstanding, read) ==> snd.outstanding[i].End() <= Reached(rcv)
  }

  // Exactly then nothing is forgotten that was not acknowledged, whatever the ack and the flight.
  lemma AckArrivesExactly(snd: Sender, out: Stream, rcv: Receiver, acks: set<Packet>, m: ReceiverMessage)
    requires Ok(snd, out) && AcksOk(snd, rcv, acks)
    ensures AcksOk(SenderModel.Receive(snd, m), rcv, acks) <==> Harmless(snd, rcv, m)
  {
    hide Ok, Unwrap, Handled, FoundCount, AckOk;
    if m.ackno.Some? {
      var read := Unwrap(m.ackno.value, snd.isn, ToU64(snd.next));
      HandledOk(snd, out, read, m.windowSize);
      HandledMoves(snd, out, read, m.windowSize, Reached(rcv));
    }
  }

  lemma HandledMoves(snd: Sender, out: Stream, read: nat, w: U16, bound: nat)
    requires Ok(snd, out) && snd.Unacked() <= bound
    ensures Handled(snd, read, w).Unacked() <= bound
            <==> || read > snd.next
                 || forall i :: 0 <= i < FoundCount(snd, snd.outstanding, read) ==> snd.outstanding[i].End() <= bound
  {
    hide Ok, Found, FoundCount, Released;
    var n := FoundCount(snd, snd.outstanding, read);
    ReleasedOk(snd, out, n, w);
    EndsInOrder(snd, out, n);
    if snd.outstanding != [] {
      FoundAtOrAfter(snd, out, 0);
    }
  }

  lemma EndsInOrder(snd: Sender, out: Stream, n: nat)
    requires Ok(snd, out) && n <= |snd.outstanding|
    ensures forall i :: 0 <= i < n ==> snd.outstanding[i].End() <= snd.outstanding[n - 1].End()
  {
    hide AllOk, Payloads, IsSuffix;
    if n > 0 {
      TilesOrdered(snd.outstanding, snd.Unacked(), snd.next, n - 1);
    }
  }

  // The same in terms of true places, while the flight is in reach.
  lemma HarmlessInReach(snd: Sender, out: Stream, rcv: Receiver, m: ReceiverMessage)
    requires Ok(snd, out) && snd.inFlight <= TWO31 && m.ackno.Some?
    ensures var read := Unwrap(m.ackno.value, snd.isn, ToU64(snd.next));
            Harmless(snd, rcv, m)
            <==> read > snd.next || forall g <- snd.outstanding :: g.End() <= read ==> g.End() <= Reached(rcv)
  {
    hide Unwrap, FoundCount, Found, AckedCount, Layout, AllOk;
    var read := Unwrap(m.ackno.value, snd.isn, ToU64(snd.next));
    ShortFlightInReach(snd, out);
    FoundIsAcked(snd, out, read);
    CoveredInOrder(snd, out, read);
  }

  lemma CoveredInOrder(snd: Sender, out: Stream, k: nat)
    requires Ok(snd, out)
    ensures forall i :: 0 <= i < |snd.outstanding| ==>
                          (i < AckedCount(snd.outstanding, k) <==> snd.outstanding[i].End() <= k)
  {
    hide AllOk, Payloads, IsSuffix, Tiles, AckedCount;
    AckedRemoves(snd.outstanding, snd.Unacked(), snd.next, k);
  }

  // And by the age of an ack the receiver sent: less than 2^32 is always harmless.
  lemma HarmlessByAge(snd: Sender, out: Stream, rcv: Receiver, v: nat, w: U16)
    requires DataLinkOk(snd, out, rcv) && snd.inFlight <= TWO31
    requires snd.next - TWO32 - TWO31 <= v <= Reached(rcv)
    ensures Harmless(snd, rcv, ReceiverMessage(Some(Wrap(v, snd.isn)), w))
            <==> || snd.next - TWO32 < v
                 || (snd.next < TWO64 && InReach(v, snd.next))
                 || forall g <- snd.outstanding :: g.End() <= v + TWO32 ==> g.End() <= Reached(rcv)
  {
    NextIsReached(snd, out, rcv);
    assert Ok(snd, out);
    hide Ok, DataLinkOk, Unwrap, Wrap, Harmless, Reached, InReach;
    var m := ReceiverMessage(Some(Wrap(v, snd.isn)), w);
    ReadOldAck(snd, v);
    HarmlessInReach(snd, out, rcv, m);
    if InReach(v, snd.next) {
      assert Harmless(snd, rcv, m);
    } else if snd.next - TWO32 < v {
      assert Harmless(snd, rcv, m);
    }
  }

  lemma ReadOldAck(snd: Sender, v: nat)
    requires snd.next - TWO32 - TWO31 <= v <= snd.next < TWO64
    ensures Unwrap(Wrap(v, snd.isn), snd.isn, ToU64(snd.next)) == if InReach(v, snd.next) then v else v + TWO32
  {
    hide Unwrap, Wrap;
    UnwrapOld(v, snd.isn, snd.next);
  }

  // With any flight, an ack that is less than 2^32 old is harmless.
  lemma YoungAckIsHarmless(snd: Sender, out: Stream, rcv: Receiver, v: nat, w: U16)
    requires DataLinkOk(snd, out, rcv) && snd.next - TWO32 < v <= Reached(rcv)
    ensures Harmless(snd, rcv, ReceiverMessage(Some(Wrap(v, snd.isn)), w))
  {
    NextIsReached(snd, out, rcv);
    assert Ok(snd, out);
    hide Ok, DataLinkOk, Unwrap, Wrap, FoundCount, Found, AckedCount, Reached, InReach;
    ReadOldAck(snd, v);
    FoundCountSafe(snd, out, v);
  }

  lemma NextIsReached(snd: Sender, out: Stream, rcv: Receiver)
    requires DataLinkOk(snd, out, rcv)
    ensures Reached(rcv) <= snd.next < TWO64
  {
    hide Layout, AllOk;
  }

  // Beyond that the sender can lose a byte: an ack that the receiver did send, 2^32 numbers before the end
  // of the oldest message, takes the message out of the queue. If the receiver has not reached it, no
  // message that is left carries its first byte.
  lemma VeryOldAckForgets(snd: Sender, out: Stream, rcv: Receiver, w: U16)
    requires LinkOk(snd, out, rcv) && snd.inFlight <= TWO31
    requires snd.outstanding != [] && snd.outstanding[0].End() >= TWO32
    requires snd.outstanding[0].payload != [] && |rcv.asm.out.written| < snd.outstanding[0].pos
    ensures var k, i := snd.outstanding[0].End() - TWO32, snd.outstanding[0].pos - 1;
            var snd' := SenderModel.Receive(snd, ReceiverMessage(Some(Wrap(k, snd.isn)), w));
            && k <= Reached(rcv)
            && |rcv.asm.out.written| <= i < out.read
            && forall g <- snd'.outstanding :: !Carries(g, out, i)
  {
    OldestUnseen(snd, out, rcv);
    TakenForNew(snd, out, w);
    NothingBelow(snd, out, snd.outstanding[0].End(), w);
    hide LinkOk, Acked, SenderModel.Receive, Wrap;
  }

  lemma TakenForNew(snd: Sender, out: Stream, w: U16)
    requires Ok(snd, out) && snd.inFlight <= TWO31
    requires snd.outstanding != [] && snd.outstanding[0].End() >= TWO32
    ensures var end := snd.outstanding[0].End();
            SenderModel.Receive(snd, ReceiverMessage(Some(Wrap(end - TWO32, snd.isn)), w)) == Acked(snd, end, w)
  {
    hide Ok, Unwrap, Wrap, Handled, Acked, FlightInReach;
    var end := snd.outstanding[0].End();
    SameWrap(end - TWO32, snd.isn);
    OldestEnds(snd, out);
    UnwrapWrap(end, snd.isn, snd.next);
    ShortFlightInReach(snd, out);
    HandledIsAcked(snd, out, end, w);
  }

  lemma OldestUnseen(snd: Sender, out: Stream, rcv: Receiver)
    requires LinkOk(snd, out, rcv) && snd.outstanding != []
    requires snd.outstanding[0].payload != [] && |rcv.asm.out.written| < snd.outstanding[0].pos
    ensures var g := snd.outstanding[0];
            && g.End() - TWO32 <= Reached(rcv)
            && |rcv.asm.out.written| <= g.pos - 1 < out.read
  {
    OldestEnds(snd, out);
    OutstandingOk(snd, out, 0);
    hide Layout, AllOk;
  }

  lemma NothingBelow(snd: Sender, out: Stream, k: nat, w: U16)
    requires Ok(snd, out) && snd.outstanding != [] && k == snd.outstanding[0].End()
    ensures forall g <- Acked(snd, k, w).outstanding :: g.pos >= k
  {
    hide AllOk, Payloads, IsSuffix, AckedCount, TotalLen;
    var n := AckedCount(snd.outstanding, k);
    AckedRemoves(snd.outstanding, snd.Unacked(), snd.next, k);
    OldestEnds(snd, out);
    forall g <- Acked(snd, k, w).outstanding
      ensures g.pos >= k
    {
      var j :| n <= j < |snd.outstanding| && snd.outstanding[j] == g;
      TilesOrdered(snd.outstanding, snd.Unacked(), snd.next, j);
    }
  }

  lemma SameWrap(k: nat, isn: U32)
    ensures Wrap(k, isn) == Wrap(k + TWO32, isn)
  {
  }

  lemma OldestEnds(snd: Sender, out: Stream)
    requires Ok(snd, out) && snd.outstanding != []
    ensures snd.inFlight <= snd.next < TWO64
    ensures snd.Unacked() == snd.outstanding[0].pos < snd.outstanding[0].End() <= snd.next
  {
    hide AllOk, Payloads, IsSuffix;
    TilesOrdered(snd.outstanding, snd.Unacked(), snd.next, 0);
  }

  // --- The receiver's steps ---

  // Acknowledgments stay good while the receiver does not go back.
  lemma AcksStayOk(snd: Sender, rcv: Receiver, rcv': Receiver, acks: set<Packet>)
    requires AcksOk(snd, rcv, acks)
    requires rcv.syn ==> rcv'.syn
    requires rcv.NextNeeded() <= rcv'.NextNeeded()
    ensures AcksOk(snd, rcv', acks)
  {
  }

  // A message brings nothing wrong: it is ignored, or every byte the window takes from it, where the
  // receiver takes the message to be, is the one sent there.
  predicate Fitting(rcv: Receiver, m: SenderMessage, s: seq<Byte>)
  {
    (rcv.syn || m.syn) && Overlaps(rcv, ReadAt(rcv, m), m) ==> Fits(rcv.asm, Index(ReadAt(rcv, m)), m.payload, s)
  }

  // Exactly then the receiver's stream stays right, wherever the message is taken to be.
  lemma DataArrivesExactly(snd: Sender, out: Stream, rcv: Receiver, data: set<Packet>, k: Packet)
    requires DataHalfOk(snd, out, rcv, data) && k in data
    ensures DataHalfOk(snd, out, ReceiverModel.Receive(rcv, k.wire.sender), data)
            <==> Fitting(rcv, k.wire.sender, Sent(out))
  {
    hide Ok, SegOk, Accept, Unwrap, Wrap, Overlaps, Fits;
    assert DataOk(k, snd, out);
    var m := k.wire.sender;
    SynFixesZeroPoint(snd, out, k.seg);
    SegPiece(snd, out, k.seg);
    if rcv.syn || m.syn {
      var rcv1 := if rcv.syn then rcv else rcv.(syn := true, isn := m.seqno);
      AcceptExactly(snd, out, rcv1, ReadAt(rcv, m), m);
      assert Overlaps(rcv1, ReadAt(rcv, m), m) == Overlaps(rcv, ReadAt(rcv, m), m) by { SynOverlaps(rcv, rcv1, m); }
    }
  }

  lemma SynOverlaps(rcv: Receiver, rcv1: Receiver, m: SenderMessage)
    requires rcv1 == rcv.(syn := rcv1.syn, isn := rcv1.isn)
    ensures Overlaps(rcv1, ReadAt(rcv, m), m) == Overlaps(rcv, ReadAt(rcv, m), m)
  {
  }

  lemma AcceptExactly(snd: Sender, out: Stream, rcv: Receiver, pos: nat, m: SenderMessage)
    requires DataLinkOk(snd, out, rcv) && rcv.syn && (m.fin ==> snd.fin)
    ensures DataLinkOk(snd, out, Accept(rcv, pos, m))
            <==> (Overlaps(rcv, pos, m) ==> Fits(rcv.asm, Index(pos), m.payload, Sent(out)))
  {
    hide Ok, Insert, Fits;
    AcceptKeepsOk(rcv, pos, m);
    InsertAgreesExactly(rcv.asm, Index(pos), m.payload, rcv.fin || m.fin, Sent(out));
  }

  // A message within 2^31 of the bytes delivered is put where its sender meant it, and fits.
  lemma NearIsReadRight(snd: Sender, out: Stream, rcv: Receiver, k: Packet)
    requires DataLinkOk(snd, out, rcv) && DataOk(k, snd, out)
    requires -TWO31 < k.seg.pos - |rcv.asm.out.written| < TWO31
    ensures rcv.syn || k.wire.sender.syn ==> ReadAt(rcv, k.wire.sender) == k.seg.pos
    ensures Fitting(rcv, k.wire.sender, Sent(out))
  {
    hide Layout, AllOk, Unwrap, Wrap, Fits, Overlaps;
    var m := k.wire.sender;
    SynFixesZeroPoint(snd, out, k.seg);
    SentFits(snd, out, rcv);
    UnwrapWrap(k.seg.pos, snd.isn, |rcv.asm.out.written|);
    SegPiece(snd, out, k.seg);
    PieceFits(rcv.asm, Index(k.seg.pos), m.payload, Sent(out));
  }

  // What is sent into the advertised window, and is not 2^31 late, is taken whole, out of order or not.
  lemma AdvertisedIsReceived(snd: Sender, out: Stream, rcv: Receiver, k: Packet)
    requires DataLinkOk(snd, out, rcv) && DataOk(k, snd, out) && rcv.syn && !rcv.asm.out.closed
    requires k.seg.Len() > 0 && -TWO31 < k.seg.pos - |rcv.asm.out.written|
    requires k.seg.End() <= rcv.NextNeeded() + Acknowledge(rcv).windowSize
    ensures var rcv' := ReceiverModel.Receive(rcv, k.wire.sender);
            && Span(Index(k.seg.pos), k.seg.payload) <= Known(rcv'.asm)
            && (k.seg.fin && k.seg.End() > rcv.NextNeeded() ==> rcv'.fin)
  {
    hide Ok, SegOk, Accept, Unwrap, Wrap, Known, Span, Fits, Overlaps, Agrees;
    NearIsReadRight(snd, out, rcv, k);
    PlacedAfterSyn(snd, out, k.seg);
    AdvertisedIsTaken(rcv, k.seg.pos, k.wire.sender);
    ReceiveIsAccept(rcv, k.wire.sender);
  }

  lemma PlacedAfterSyn(snd: Sender, out: Stream, g: Seg)
    requires SegOk(g, snd, out)
    ensures g.Len() > 0 ==> g.pos >= 1 || g.syn
  {
  }

  lemma SegPiece(snd: Sender, out: Stream, g: Seg)
    requires SegOk(g, snd, out)
    ensures g.payload != [] ==> PieceOf(Index(g.pos), g.payload, Sent(out))
    ensures g.fin ==> snd.fin
  {
  }

  // A message without payload fits at any age.
  lemma EmptyFits(rcv: Receiver, m: SenderMessage, s: seq<Byte>)
    ensures m.payload == [] ==> Fitting(rcv, m, s)
  {
  }

  // One more than 2^31 and less than 2^32 + 2^31 behind is taken for one 2^32 later, and ignored if that
  // is beyond the window.
  lemma OldDataIsIgnored(snd: Sender, out: Stream, rcv: Receiver, k: Packet)
    requires DataLinkOk(snd, out, rcv) && DataOk(k, snd, out) && rcv.syn
    requires |rcv.asm.out.written| - TWO32 - TWO31 <= k.seg.pos < |rcv.asm.out.written| - TWO31
    requires k.seg.pos + TWO32 >= rcv.NextNeeded() + rcv.asm.out.Available()
    requires |rcv.asm.out.written| + TWO32 < TWO64
    ensures ReceiverModel.Receive(rcv, k.wire.sender) == rcv
  {
    hide Ok, Agrees, Unwrap, Wrap, SegOk, InReach, Insert;
    UnwrapOld(k.seg.pos, snd.isn, |rcv.asm.out.written|);
    assert !InReach(k.seg.pos, |rcv.asm.out.written|) by { NotInReach(k.seg.pos, |rcv.asm.out.written|); }
  }

  lemma NotInReach(n: nat, at: nat)
    ensures n < at - TWO31 && n + TWO32 < TWO64 && at < TWO64 ==> !InReach(n, at)
  {
  }

  // But exactly 2^32 behind the next number needed, an old message overwrites the stream: its first byte
  // is delivered, whether or not it belongs there.
  lemma OldDataCorrupts(snd: Sender, out: Stream, rcv: Receiver, k: Packet)
    requires DataLinkOk(snd, out, rcv) && DataOk(k, snd, out) && rcv.syn && !rcv.asm.out.closed
    requires k.seg.payload != [] && k.seg.pos + TWO32 == rcv.NextNeeded() && rcv.asm.out.Available() > 0
    requires var n := |rcv.asm.out.written|; n < |out.written| ==> out.written[n] != k.seg.payload[0]
    ensures !(ReceiverModel.Receive(rcv, k.wire.sender).asm.out.written <= out.written)
  {
    hide Layout, AllOk, Unwrap, Wrap, Insert, SegOk;
    var base := |rcv.asm.out.written|;
    SentFits(snd, out, rcv);
    UnwrapOld(k.seg.pos, snd.isn, base);
    var fin := rcv.fin || k.seg.fin;
    FirstByteDelivered(rcv.asm, k.seg.payload, fin);
  }

  lemma BaseIsTaken(base: nat, edge: nat, data: seq<Byte>)
    ensures base < edge && data != [] ==>
              base in Clip(base, edge, base, data) && Clip(base, edge, base, data)[base] == data[0]
  {
    assert IsIndex(base);
  }

  lemma FirstByteDelivered(a: Assembly, data: seq<Byte>, last: bool)
    requires a.Windowed() && data != [] && a.out.Available() > 0
    ensures var a' := Insert(a, a.Base(), data, last);
            a'.Base() > a.Base() && a'.out.written[a.Base()] == data[0]
  {
    var base, a' := a.Base(), Insert(a, a.Base(), data, last);
    InsertKeepsWindowed(a, base, data, last);
    assert base in Clip(base, a.Edge(), base, data) by { BaseIsTaken(base, a.Edge(), data); }
    TakenFromData(a, base, data, last, base);
    hide Insert, Run;
    InsertKnown(a, base, data, last);
    BaseIsFirstUnknown(a', base + 1);
  }

  lemma SynFixesZeroPoint(snd: Sender, out: Stream, g: Seg)
    requires Ok(snd, out) && SegOk(g, snd, out)
    ensures g.End() < TWO64
    ensures g.syn ==> snd.syn && g.Wire(snd.isn).seqno == snd.isn
  {
    hide Layout, AllOk;
  }

  lemma SentFits(snd: Sender, out: Stream, rcv: Receiver)
    requires DataLinkOk(snd, out, rcv)
    ensures |rcv.asm.out.written| <= out.read && |rcv.asm.out.written| < TWO64
  {
    hide Layout, AllOk;
  }

  lemma InboundMoves(snd: Sender, out: Stream, rcv: Receiver, data: set<Packet>, s: Stream)
    requires DataHalfOk(snd, out, rcv, data)
    requires s.written == rcv.asm.out.written && s.closed == rcv.asm.out.closed
    requires s.capacity == rcv.asm.out.capacity && s.read >= rcv.asm.out.read
    ensures DataHalfOk(snd, out, WithInbound(rcv, s), data)
  {
    hide Ok, SegOk;
  }

  // --- What the invariant means ---

  // Everything written into the receiver's stream is a prefix of what was sent.
  lemma PrefixDelivery(snd: Sender, out: Stream, rcv: Receiver)
    requires DataLinkOk(snd, out, rcv)
    ensures rcv.asm.out.written <= out.written[..out.read] <= out.written
  {
    hide Ok;
  }

  // A message that carries byte i of the stream.
  predicate Carries(g: Seg, out: Stream, i: nat)
  {
    && 1 <= g.pos <= i + 1 < g.pos + |g.payload|
    && i < |out.written| && g.payload[i + 1 - g.pos] == out.written[i]
  }

  // Every byte taken from the stream has been delivered, or is still kept for retransmission; the
  // one exception is the next byte needed by a receiver that closed its stream without it.
  lemma NoByteForgotten(snd: Sender, out: Stream, rcv: Receiver, i: nat)
    requires LinkOk(snd, out, rcv) && i < out.read
    requires !(rcv.asm.out.closed && i == |rcv.asm.out.written|)
    ensures i < |rcv.asm.out.written| || exists g <- snd.outstanding :: Carries(g, out, i)
  {
    if i >= |rcv.asm.out.written| {
      UnackedReaches(snd, out, rcv, i);
      var j := TilesFind(snd.outstanding, snd.Unacked(), snd.next, i + 1);
      OutstandingOk(snd, out, j);
      var g := snd.outstanding[j];
      CoversIsCarries(snd, out, g, i);
      assert g in snd.outstanding;
    }
  }

  lemma UnackedReaches(snd: Sender, out: Stream, rcv: Receiver, i: nat)
    requires LinkOk(snd, out, rcv) && |rcv.asm.out.written| <= i < out.read
    requires !(rcv.asm.out.closed && i == |rcv.asm.out.written|)
    ensures snd.Unacked() <= i + 1 < snd.next
  {
    hide Layout, AllOk;
  }

  lemma OutstandingOk(snd: Sender, out: Stream, j: nat)
    requires Ok(snd, out) && j < |snd.outstanding|
    ensures SegOk(snd.outstanding[j], snd, out)
  {
    hide SegOk, Tiles, Payloads;
    assert snd.outstanding[j] in snd.created;
  }

  lemma CoversIsCarries(snd: Sender, out: Stream, g: Seg, i: nat)
    requires Ok(snd, out) && SegOk(g, snd, out) && i < out.read
    requires g.pos <= i + 1 < g.End()
    ensures Carries(g, out, i)
  {
    hide Layout, AllOk;
  }

  // While fewer than 2^31 - 1 numbers are in flight, every outstanding message and the newest
  // acknowledgment are understood at the other end.
  lemma CurrentMessagesAreFresh(snd: Sender, out: Stream, rcv: Receiver)
    requires LinkOk(snd, out, rcv) && snd.inFlight < TWO31 - 1
    ensures forall g <- snd.outstanding :: -TWO31 < g.pos - |rcv.asm.out.written| < TWO31
    ensures rcv.syn ==> -TWO31 < rcv.NextNeeded() - snd.next < TWO31
  {
    hide AllOk, IsSuffix, Payloads;
    ReachedBelowNext(snd, out, rcv);
    SentFits(snd, out, rcv);
    forall g <- snd.outstanding
      ensures -TWO31 < g.pos - |rcv.asm.out.written| < TWO31
    {
      var j :| 0 <= j < |snd.outstanding| && snd.outstanding[j] == g;
      TilesOrdered(snd.outstanding, snd.Unacked(), snd.next, j);
    }
  }

  // When everything sent is acknowledged and the receiver's stream was not closed early, all of it
  // was delivered.
  lemma AllAcknowledgedIsDelivered(snd: Sender, out: Stream, rcv: Receiver)
    requires LinkOk(snd, out, rcv) && snd.inFlight == 0
    requires rcv.asm.out.closed ==> rcv.asm.out.written == out.written
    ensures rcv.asm.out.written == out.written[..out.read]
  {
    hide Layout, AllOk;
  }

  // --- When the receiver's stream is closed ---

  // Once the FIN is seen, the stream is closed exactly when it is complete, and its end is known.
  predicate EndOk(out: Stream, rcv: Receiver)
  {
    rcv.fin ==> EndKnown(rcv.asm, out.written) && ClosedAtEnd(rcv.asm, out.written)
  }

  // The message that makes the receiver see the FIN is taken to be where it was sent, and carries the end
  // into the window, or finds it there, or is in order.
  predicate FinOk(rcv: Receiver, k: Packet)
  {
    var m := k.wire.sender;
    (rcv.syn || m.syn) && m.fin && !rcv.fin && Overlaps(rcv, ReadAt(rcv, m), m) ==>
      ReadAt(rcv, m) == k.seg.pos && FinSafe(rcv.asm, Index(k.seg.pos), m.payload)
  }

  // Where a message is taken to be where it was sent, closing stays right exactly if the FIN is safe.
  lemma AcceptEndExactly(snd: Sender, out: Stream, rcv: Receiver, g: Seg)
    requires DataLinkOk(snd, out, rcv) && rcv.syn && SegOk(g, snd, out) && EndOk(out, rcv)
    ensures var m := g.Wire(snd.isn);
            EndOk(out, Accept(rcv, g.pos, m))
            <==> (g.fin && !rcv.fin && Overlaps(rcv, g.pos, m) ==> FinSafe(rcv.asm, Index(g.pos), g.payload))
  {
    hide Layout, AllOk, Wrap, Insert, EndKnown, FinSafe, ClosedAtEnd;
    if rcv.fin {
      assert Sent(out) == out.written;
      SegPiece(snd, out, g);
      ResumeKeeps(rcv.asm, Arrive(Index(g.pos), g.payload), out.written);
    } else if g.fin {
      FinEndsStream(snd, out, g);
      InsertLast(rcv.asm, Index(g.pos), g.payload, out.written);
    }
  }

  // Once the FIN was seen, whatever fits keeps closing right.
  lemma AcceptAfterEnd(snd: Sender, out: Stream, rcv: Receiver, pos: nat, m: SenderMessage)
    requires DataLinkOk(snd, out, rcv) && DataLinkOk(snd, out, Accept(rcv, pos, m)) && EndOk(out, rcv)
    requires rcv.fin || !m.fin
    ensures EndOk(out, Accept(rcv, pos, m))
  {
    hide Layout, AllOk, Insert, EndKnown, ClosedAtEnd;
    if rcv.fin && Overlaps(rcv, pos, m) {
      assert Sent(out) == out.written;
      InsertKeepsEnd(rcv.asm, Index(pos), m.payload, out.written);
    }
  }

  lemma FinEndsStream(snd: Sender, out: Stream, g: Seg)
    requires Ok(snd, out) && SegOk(g, snd, out) && g.fin
    ensures Sent(out) == out.written
    ensures PieceOf(Index(g.pos), g.payload, out.written)
    ensures Index(g.pos) + |g.payload| == |out.written|
  {
    hide Layout, AllOk;
  }

  lemma DataArrivesEnd(snd: Sender, out: Stream, rcv: Receiver, data: set<Packet>, k: Packet)
    requires DataHalfOk(snd, out, rcv, data) && k in data
    requires Fitting(rcv, k.wire.sender, Sent(out)) && EndOk(out, rcv) && FinOk(rcv, k)
    ensures EndOk(out, ReceiverModel.Receive(rcv, k.wire.sender))
  {
    assert DataOk(k, snd, out);
    var m := k.wire.sender;
    DataArrivesExactly(snd, out, rcv, data, k);
    SynFixesZeroPoint(snd, out, k.seg);
    hide Ok, SegOk, Accept, Unwrap, Wrap, EndOk, Overlaps, FinSafe, Fitting, ReadAt;
    if rcv.syn || m.syn {
      var rcv1 := if rcv.syn then rcv else rcv.(syn := true, isn := m.seqno);
      SynKeepsEnd(out, rcv, rcv1);
      SynOverlaps(rcv, rcv1, m);
      if m.fin && !rcv.fin {
        SeesFin(snd, out, rcv1, ReadAt(rcv, m), k);
      } else {
        AcceptAfterEnd(snd, out, rcv1, ReadAt(rcv, m), m);
      }
    }
  }

  lemma SeesFin(snd: Sender, out: Stream, rcv: Receiver, pos: nat, k: Packet)
    requires DataLinkOk(snd, out, rcv) && rcv.syn && DataOk(k, snd, out) && EndOk(out, rcv)
    requires Overlaps(rcv, pos, k.wire.sender) ==>
               pos == k.seg.pos && FinSafe(rcv.asm, Index(k.seg.pos), k.wire.sender.payload)
    ensures EndOk(out, Accept(rcv, pos, k.wire.sender))
  {
    hide Ok, Wrap, EndOk, Overlaps, FinSafe, Insert;
    AcceptEndExactly(snd, out, rcv, k.seg);
  }

  lemma SynKeepsEnd(out: Stream, rcv: Receiver, rcv1: Receiver)
    requires EndOk(out, rcv)
    requires rcv1 == rcv.(syn := rcv1.syn, isn := rcv1.isn)
    ensures EndOk(out, rcv1)
  {
  }

  // --- Progress ---

  // The receiver has room for the message.
  predicate HasRoom(rcv: Receiver, g: Seg)
  {
    && g.pos < rcv.NextNeeded() + rcv.asm.out.Available()
    && Index(g.pos) + |g.payload| <= rcv.asm.Edge()
  }

  // The oldest outstanding message, resent into a window with room for it, is received whole: what
  // the receiver then acknowledges covers it.
  lemma OldestIsReceived(snd: Sender, out: Stream, rcv: Receiver)
    requires LinkOk(snd, out, rcv) && rcv.syn && EndOk(out, rcv)
    requires snd.outstanding != [] && HasRoom(rcv, snd.outstanding[0])
    ensures var g := snd.outstanding[0];
            Accept(rcv, g.pos, g.Wire(snd.isn)).NextNeeded() >= g.End()
  {
    var g := snd.outstanding[0];
    OutstandingOk(snd, out, 0);
    OldestIsNext(snd, out, rcv);
    hide Ok, EndOk, LinkOk, SegOk, Accept, HasRoom;
    PieceIsSent(snd, out, rcv, g);
    if g.fin {
      FinEndsStream(snd, out, g);
    }
    if !rcv.asm.out.closed {
      AcceptReaches(rcv, g, snd.isn, Sent(out));
    } else {
      AlreadyReceived(rcv, g, snd.isn);
    }
  }

  lemma AlreadyReceived(rcv: Receiver, g: Seg, isn: U32)
    requires rcv.NextNeeded() >= g.End()
    ensures Accept(rcv, g.pos, g.Wire(isn)) == rcv
  {
  }

  lemma AcceptReaches(rcv: Receiver, g: Seg, isn: U32, s: seq<Byte>)
    requires rcv.Ok() && !rcv.asm.out.closed && g.pos <= rcv.NextNeeded() && HasRoom(rcv, g) && Agrees(rcv.asm, s)
    requires g.payload != [] ==> PieceOf(Index(g.pos), g.payload, s)
    requires g.syn ==> g.pos == 0 && g.payload == []
    requires !g.syn && g.Len() > 0 ==> g.pos >= 1
    requires g.fin ==> Index(g.pos) + |g.payload| == |s|
    ensures Accept(rcv, g.pos, g.Wire(isn)).NextNeeded() >= g.End()
  {
    hide Wrap, Insert, Known, Span, Agrees, PieceOf;
    if rcv.NextNeeded() < g.End() {
      var index, fin := Index(g.pos), rcv.fin || g.fin;
      InsertAgrees(rcv.asm, index, g.payload, fin, s);
      InsertKeepsWindowed(rcv.asm, index, g.payload, fin);
      ReachesEnd(rcv.asm, index, g.payload, fin);
      if g.fin {
        CompleteIsClosed(rcv.asm, index, g.payload, s);
      }
    }
  }

  // It begins at or before the next number the receiver needs, unless everything has arrived.
  lemma OldestIsNext(snd: Sender, out: Stream, rcv: Receiver)
    requires LinkOk(snd, out, rcv) && rcv.syn && EndOk(out, rcv) && snd.outstanding != []
    ensures snd.outstanding[0].pos <= rcv.NextNeeded()
    ensures rcv.asm.out.closed ==> snd.outstanding[0].End() <= rcv.NextNeeded()
  {
    hide AllOk, Payloads, IsSuffix, EndKnown;
    TilesOrdered(snd.outstanding, snd.Unacked(), snd.next, 0);
  }

  lemma PieceIsSent(snd: Sender, out: Stream, rcv: Receiver, g: Seg)
    requires DataLinkOk(snd, out, rcv) && SegOk(g, snd, out)
    ensures rcv.asm.Windowed() && Agrees(rcv.asm, Sent(out))
    ensures g.payload != [] ==> PieceOf(Index(g.pos), g.payload, Sent(out))
    ensures g.syn ==> g.pos == 0 && g.payload == []
    ensures !g.syn && g.Len() > 0 ==> g.pos >= 1
  {
    hide Ok;
  }

  lemma ReachesEnd(a: Assembly, index: nat, data: seq<Byte>, last: bool)
    requires a.Windowed() && index <= a.Base() && index + |data| <= a.Edge()
    ensures Insert(a, index, data, last).Base() >= index + |data|
  {
    InsertKeepsWindowed(a, index, data, last);
    InsertKnown(a, index, data, last);
    var a' := Insert(a, index, data, last);
    forall i: nat | i < index + |data|
      ensures i in Known(a')
    {
      assert i in Known(a) || i in Span(index, data);
    }
    hide Insert, Known;
    BaseIsFirstUnknown(a', index + |data|);
  }

  lemma CompleteIsClosed(a: Assembly, index: nat, data: seq<Byte>, s: seq<Byte>)
    requires Insert(a, index, data, true).Windowed() && Agrees(Insert(a, index, data, true), s)
    requires Insert(a, index, data, true).Base() >= |s|
    ensures Insert(a, index, data, true).out.closed
  {
    Empties(Insert(a, index, data, true), s);
  }

  // The acknowledgment of it takes it out of the queue.
  lemma OldestIsAcknowledged(snd: Sender, out: Stream, rcv: Receiver, w: U16)
    requires LinkOk(snd, out, rcv) && rcv.syn && snd.outstanding != []
    requires rcv.NextNeeded() >= snd.outstanding[0].End()
    ensures |Acked(snd, rcv.NextNeeded(), w).outstanding| < |snd.outstanding|
  {
    hide Layout, AllOk, TotalLen;
    ReachedBelowNext(snd, out, rcv);
  }

  // A retransmission of the oldest message into a window with room for it does its work, with 32-bit
  // numbers on the wire both ways: the receiver's answer takes the message out of the queue.
  lemma RetransmissionGetsThrough(snd: Sender, out: Stream, rcv: Receiver)
    requires LinkOk(snd, out, rcv) && rcv.syn && EndOk(out, rcv) && snd.inFlight < TWO31 - 1
    requires snd.outstanding != [] && HasRoom(rcv, snd.outstanding[0])
    ensures var g := snd.outstanding[0];
            var rcv' := ReceiverModel.Receive(rcv, g.Wire(snd.isn));
            && rcv'.NextNeeded() >= g.End()
            && |SenderModel.Receive(snd, Acknowledge(rcv')).outstanding| < |snd.outstanding|
  {
    var g := snd.outstanding[0];
    OutstandingOk(snd, out, 0);
    CurrentMessagesAreFresh(snd, out, rcv);
    OldestIsReceived(snd, out, rcv);
    hide Ok, SegOk, EndOk, HasRoom, Accept, SenderModel.Receive, ReceiverModel.Receive;
    var there := Packet(Segment(g.Wire(snd.isn), ReceiverMessage(None, 0), false), g, None);
    NearIsReadRight(snd, out, rcv, there);
    DataArrivesExactly(snd, out, rcv, {there}, there);
    ReceiveKeepsOk(rcv, g.Wire(snd.isn));
    var rcv' := ReceiverModel.Receive(rcv, g.Wire(snd.isn));
    assert rcv' == Accept(rcv, g.pos, g.Wire(snd.isn)) by { ReceiveIsAccept(rcv, g.Wire(snd.isn)); }
    AnswerGetsBack(snd, out, rcv');
  }

  lemma ReceiveIsAccept(rcv: Receiver, m: SenderMessage)
    ensures rcv.syn ==> ReceiverModel.Receive(rcv, m) == Accept(rcv, ReadAt(rcv, m), m)
  {
  }

  lemma AnswerGetsBack(snd: Sender, out: Stream, rcv: Receiver)
    requires LinkOk(snd, out, rcv) && rcv.syn && snd.inFlight < TWO31 - 1
    requires snd.outstanding != [] && rcv.NextNeeded() >= snd.outstanding[0].End()
    ensures |SenderModel.Receive(snd, Acknowledge(rcv)).outstanding| < |snd.outstanding|
  {
    hide Ok, Acked, Handled, FlightInReach, Unwrap, Wrap;
    OldestIsAcknowledged(snd, out, rcv, rcv.Window());
    ShortFlightInReach(snd, out);
    HandledIsAcked(snd, out, rcv.NextNeeded(), rcv.Window());
    AnswerIsFresh(snd, out, rcv);
  }

  lemma AnswerIsFresh(snd: Sender, out: Stream, rcv: Receiver)
    requires LinkOk(snd, out, rcv) && rcv.syn && snd.inFlight < TWO31 - 1
    ensures Unwrap(Wrap(rcv.NextNeeded(), rcv.isn), snd.isn, ToU64(snd.next)) == rcv.NextNeeded()
    ensures snd.inFlight <= snd.next < TWO64
  {
    hide Layout, AllOk, Unwrap, Wrap;
    ReachedBelowNext(snd, out, rcv);
    UnwrapWrap(rcv.NextNeeded(), snd.isn, snd.next);
  }
}
