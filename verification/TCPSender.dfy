// The sender as the program runs it (src/tcp_sender.cc): messages carry 32-bit sequence numbers,
// and every absolute position is recovered from them.
module TCPSenders {
  import opened Words
  import opened WrappingIntegers
  import opened Messages
  import opened ByteStreams
  import opened SenderModel
  import opened SenderSafety
  import SenderRuns

  // ms are the messages gs as they are sent.
  ghost predicate IsWires(ms: seq<SenderMessage>, gs: seq<Seg>, isn: U32): (b: bool)
    ensures b ==> |ms| == |gs|
  {
    |ms| == |gs| && forall i :: 0 <= i < |gs| ==> ms[i] == gs[i].Wire(isn)
  }

  lemma WiresAppend(ms: seq<SenderMessage>, gs: seq<Seg>, g: Seg, isn: U32)
    requires IsWires(ms, gs, isn)
    ensures IsWires(ms + [g.Wire(isn)], gs + [g], isn)
  {
  }

  lemma WiresDrop(ms: seq<SenderMessage>, gs: seq<Seg>, n: nat, isn: U32)
    requires IsWires(ms, gs, isn) && n <= |gs|
    ensures IsWires(ms[n..], gs[n..], isn)
  {
  }

  lemma WiresAt(ms: seq<SenderMessage>, gs: seq<Seg>, isn: U32, i: nat)
    requires IsWires(ms, gs, isn) && i < |gs|
    ensures ms[i] == gs[i].Wire(isn)
    ensures ms[i].SequenceLength() == gs[i].Len()
  {
  }

  lemma {:induction false} TotalLenStep(gs: seq<Seg>, i: nat)
    requires i < |gs|
    ensures TotalLen(gs[..i + 1]) == TotalLen(gs[..i]) + gs[i].Len()
    decreases i
  {
    if i == 0 {
      assert gs[..1] == [gs[0]] && gs[..0] == [] && [gs[0]][1..] == [];
    } else {
      TotalLenStep(gs[1..], i - 1);
      assert gs[..i + 1] == [gs[0]] + gs[1..][..i] && gs[..i] == [gs[0]] + gs[1..][..i - 1];
    }
  }

  predicate AllFoundBelow(s: Sender, gs: seq<Seg>, k: nat, n: nat)
    requires n <= |gs|
  {
    forall i :: 0 <= i < n ==> Found(s, gs[i]) + gs[i].Len() <= k
  }

  lemma NothingFreed(s: Sender, gs: seq<Seg>, k: nat)
    ensures AllFoundBelow(s, gs, k, 0) && TotalLen(gs[..0]) == 0
  {
    assert gs[..0] == [];
  }

  // The loop over the acknowledged messages goes on, or stops where it should.
  lemma FoundBelowStep(s: Sender, gs: seq<Seg>, k: nat, n: nat)
    requires n <= |gs| && AllFoundBelow(s, gs, k, n)
    ensures n == |gs| || Found(s, gs[n]) + gs[n].Len() > k ==> FoundCount(s, gs, k) == n
    ensures n < |gs| ==> TotalLen(gs[..n + 1]) == TotalLen(gs[..n]) + gs[n].Len()
    ensures n < |gs| && Found(s, gs[n]) + gs[n].Len() <= k ==> AllFoundBelow(s, gs, k, n + 1)
  {
    hide Found;
    if n < |gs| {
      TotalLenStep(gs, n);
    }
  }

  class TCPSender {
    const isn: U32
    const initialRtoMs: U64
    var sendMessages: seq<SenderMessage>
    var outstandingMessages: seq<SenderMessage>
    var nextAbsSeqno: nat
    var sequenceNumbersInFlight: nat
    var consecutiveRetransmissions: nat
    var retransmissionTimeout: U64
    var receiverWindowSize: U16
    var receiverWindowSpace: U16
    var timeElapsed: U64
    var syn: bool
    var fin: bool
    var freeWindow: bool
    ghost var model: Sender

    // The fields are those of the model, with wrapped sequence numbers.
    ghost predicate Matches()
      reads this
    {
      && model.isn == isn && model.initialRto == initialRtoMs
      && IsWires(sendMessages, model.queue, isn)
      && IsWires(outstandingMessages, model.outstanding, isn)
      && nextAbsSeqno == model.next
      && sequenceNumbersInFlight == model.inFlight
      && consecutiveRetransmissions == model.retransmissions
      && retransmissionTimeout == model.rto
      && receiverWindowSize == model.windowSize && receiverWindowSpace == model.windowSpace
      && timeElapsed == model.elapsed
      && syn == model.syn && fin == model.fin && freeWindow == model.freeWindow
    }

    ghost predicate Valid(outbound: ByteStream)
      reads this, outbound
    {
      Matches() && outbound.Valid() && Ok(model, outbound.Model())
    }

    constructor (isn: U32, initialRtoMs: U64)
      ensures Matches() && model == NewSender(isn, initialRtoMs)
    {
      this.isn, this.initialRtoMs := isn, initialRtoMs;
      sendMessages, outstandingMessages := [], [];
      nextAbsSeqno, sequenceNumbersInFlight, consecutiveRetransmissions := 0, 0, 0;
      retransmissionTimeout := initialRtoMs;
      receiverWindowSize, receiverWindowSpace := 1, 1;
      timeElapsed, syn, fin, freeWindow := 0, false, false, false;
      model := NewSender(isn, initialRtoMs);
    }

    // Accounts for a new message and sends it.
    method UpdateStatus(message: SenderMessage)
      modifies this`nextAbsSeqno, this`sequenceNumbersInFlight, this`receiverWindowSpace,
               this`sendMessages, this`outstandingMessages
      ensures nextAbsSeqno == old(nextAbsSeqno) + message.SequenceLength()
      ensures sequenceNumbersInFlight == old(sequenceNumbersInFlight) + message.SequenceLength()
      ensures receiverWindowSpace == ToU16(old(receiverWindowSpace) - message.SequenceLength())
      ensures sendMessages == old(sendMessages) + [message]
      ensures outstandingMessages == old(outstandingMessages) + [message]
    {
      nextAbsSeqno := nextAbsSeqno + message.SequenceLength();
      sequenceNumbersInFlight := sequenceNumbersInFlight + message.SequenceLength();
      receiverWindowSpace := ToU16(receiverWindowSpace - message.SequenceLength());
      sendMessages := sendMessages + [message];
      outstandingMessages := outstandingMessages + [message];
    }

    method Push(outbound: ByteStream)
      requires Valid(outbound)
      modifies this, outbound
      ensures Valid(outbound)
      ensures (model, outbound.Model()) == SenderModel.Push(old(model), old(outbound.Model()))
    {
      hide Ok, IsWires;
      PushOk(model, outbound.Model());
      if !syn {
        SendSyn(outbound);
        return;
      }
      if fin {
        return;
      }
      if |outstandingMessages| != 0 && outstandingMessages[0].syn {
        WiresAt(outstandingMessages, model.outstanding, isn, 0);
        return;
      }
      if |model.outstanding| != 0 {
        WiresAt(outstandingMessages, model.outstanding, isn, 0);
      }
      if outbound.BytesBuffered() != 0 {
        Drain(outbound);
      } else if outbound.IsFinished() {
        if receiverWindowSpace != 0 || (receiverWindowSpace == 0 && receiverWindowSize == 0) {
          SendFin();
        }
      }
    }

    method SendFin()
      requires Matches()
      modifies this
      ensures Matches() && model == PushFin(old(model))
    {
      hide IsWires;
      WiresAppend(sendMessages, model.queue, Seg(model.next, false, [], true), isn);
      WiresAppend(outstandingMessages, model.outstanding, Seg(model.next, false, [], true), isn);
      ghost var s := model;
      var message := SenderMessage(Wrap(nextAbsSeqno, isn), false, [], true);
      fin := true;
      UpdateStatus(message);
      model := PushFin(s);
    }

    method SendSyn(outbound: ByteStream)
      requires Matches() && outbound.Valid() && !syn
      modifies this
      ensures Matches() && model == PushSyn(old(model), outbound.Model())
    {
      hide IsWires;
      ghost var s := model;
      ghost var g := Seg(s.next, true, [], outbound.Model().Finished());
      WiresAppend(sendMessages, s.queue, g, isn);
      WiresAppend(outstandingMessages, s.outstanding, g, isn);
      var message := CountSyn(outbound);
      sendMessages := sendMessages + [message];
      outstandingMessages := outstandingMessages + [message];
      model := PushSyn(s, outbound.Model());
    }

    method CountSyn(outbound: ByteStream) returns (message: SenderMessage)
      requires outbound.Valid() && !syn
      modifies this`syn, this`fin, this`nextAbsSeqno, this`sequenceNumbersInFlight, this`receiverWindowSpace
      ensures message == SenderMessage(Wrap(old(nextAbsSeqno), isn), true, [], outbound.Model().Finished())
      ensures syn && fin == (old(fin) || message.fin)
      ensures nextAbsSeqno == old(nextAbsSeqno) + 1 + Bit(message.fin)
      ensures sequenceNumbersInFlight == old(sequenceNumbersInFlight) + 1 + Bit(message.fin)
      ensures receiverWindowSpace == ToU16(old(receiverWindowSpace) - 1)
    {
      syn := true;
      message := SenderMessage(Wrap(nextAbsSeqno, isn), true, [], false);
      nextAbsSeqno := nextAbsSeqno + 1;
      sequenceNumbersInFlight := sequenceNumbersInFlight + 1;
      receiverWindowSpace := ToU16(receiverWindowSpace - 1);
      if outbound.IsFinished() {
        message := message.(fin := true);
        fin := true;
        nextAbsSeqno := nextAbsSeqno + 1;
        sequenceNumbersInFlight := sequenceNumbersInFlight + 1;
      }
    }

    // The loop that turns buffered bytes into messages for as long as the window allows.
    method Drain(outbound: ByteStream)
      requires Matches() && outbound.Valid()
      modifies this, outbound
      ensures Matches() && outbound.Valid()
      ensures (model, outbound.Model()) == Fill(old(model), old(outbound.Model()))
    {
      hide IsWires;
      while (receiverWindowSpace != 0 && outbound.BytesBuffered() != 0)
            || (receiverWindowSize == 0 && receiverWindowSpace == 0 && outbound.BytesBuffered() != 0)
        invariant Matches() && outbound.Valid()
        invariant Fill(model, outbound.Model()) == Fill(old(model), old(outbound.Model()))
        decreases outbound.BytesBuffered()
      {
        DrainOnce(outbound);
      }
    }

    method DrainOnce(outbound: ByteStream)
      requires Matches() && outbound.Valid() && MayFill(model, outbound.Model())
      modifies this, outbound
      ensures Matches() && outbound.Valid()
      ensures model == FillOnce(old(model), old(outbound.Model()))
      ensures outbound.Model() == old(outbound.Model()).Pop(ReadSize(old(model), old(outbound.Model())))
    {
      hide IsWires, NextSeg, OpenWindow;
      ghost var s, out := model, outbound.Model();
      WiresAppend(sendMessages, s.queue, NextSeg(s, out), isn);
      WiresAppend(outstandingMessages, s.outstanding, NextSeg(s, out), isn);
      OpenWindowOnly(s);
      var message := NextMessage(outbound);
      UpdateStatus(message);
      model := FillOnce(s, out);
    }

    // Takes the payload of the next message from the stream.
    method NextMessage(outbound: ByteStream) returns (message: SenderMessage)
      requires Matches() && outbound.Valid() && MayFill(model, outbound.Model())
      modifies this`receiverWindowSize, this`receiverWindowSpace, this`freeWindow, this`fin, outbound
      ensures outbound.Valid()
      ensures outbound.Model() == old(outbound.Model()).Pop(ReadSize(model, old(outbound.Model())))
      ensures message == NextSeg(model, old(outbound.Model())).Wire(isn)
      ensures message.SequenceLength() == NextSeg(model, old(outbound.Model())).Len()
      ensures fin == (old(fin) || message.fin)
      ensures receiverWindowSize == OpenWindow(model).windowSize
      ensures receiverWindowSpace == OpenWindow(model).windowSpace
      ensures freeWindow == OpenWindow(model).freeWindow
    {
      hide IsWires;
      var readSize := ChooseReadSize(outbound);
      var payload := Read(outbound, readSize);
      message := SenderMessage(0, false, payload, false);
      if outbound.IsFinished() && receiverWindowSpace > readSize {
        message := message.(fin := true);
        fin := true;
      }
      message := message.(seqno := Wrap(nextAbsSeqno, isn));
    }

    // As much as is buffered, fits the window and fits a message; a zero window is probed with one byte.
    method ChooseReadSize(outbound: ByteStream) returns (readSize: nat)
      requires Matches() && outbound.Valid()
      modifies this`receiverWindowSize, this`receiverWindowSpace, this`freeWindow
      ensures readSize == ReadSize(model, outbound.Model())
      ensures receiverWindowSize == OpenWindow(model).windowSize
      ensures receiverWindowSpace == OpenWindow(model).windowSpace
      ensures freeWindow == OpenWindow(model).freeWindow
    {
      hide IsWires;
      if outbound.BytesBuffered() < receiverWindowSpace {
        readSize := outbound.BytesBuffered();
      } else {
        readSize := receiverWindowSpace;
      }
      if readSize > MAX_PAYLOAD_SIZE {
        readSize := MAX_PAYLOAD_SIZE;
      }
      if receiverWindowSize == 0 && receiverWindowSpace == 0 {
        receiverWindowSize := 1;
        receiverWindowSpace := 1;
        readSize := 1;
        freeWindow := true;
      }
    }

    method MaybeSend(ghost outbound: ByteStream) returns (message: Option<SenderMessage>)
      requires Valid(outbound)
      modifies this
      ensures Valid(outbound)
      ensures var (s, g) := SenderModel.MaybeSend(old(model));
              model == s && message == if g.Some? then Some(g.value.Wire(s.isn)) else None
    {
      hide Ok, IsWires;
      MaybeSendOk(model, outbound.Model());
      if |sendMessages| == 0 {
        return None;
      }
      WiresAt(sendMessages, model.queue, isn, 0);
      WiresDrop(sendMessages, model.queue, 1, isn);
      message := Some(sendMessages[0]);
      sendMessages := sendMessages[1..];
      model := SenderModel.MaybeSend(model).0;
    }

    method SendEmptyMessage() returns (message: SenderMessage)
      requires Matches()
      ensures message == EmptyMessage(model).Wire(model.isn)
    {
      message := SenderMessage(Wrap(nextAbsSeqno, isn), false, [], false);
    }

    // Every position is recovered from a 32-bit number, whatever is in flight.
    method Receive(msg: ReceiverMessage, ghost outbound: ByteStream)
      requires Valid(outbound)
      modifies this
      ensures Valid(outbound)
      ensures model == SenderModel.Receive(old(model), msg)
    {
      hide Ok, IsWires, Unwrap, Handled;
      SenderRuns.ReceiveOk(model, outbound.Model(), msg);
      if msg.ackno == None {
        return;
      }
      var absAckno := Unwrap(msg.ackno.value, isn, ToU64(nextAbsSeqno));
      ReceiveAbsolute(absAckno, msg.windowSize, outbound);
    }

    method ReceiveAbsolute(absAckno: U64, windowSize: U16, ghost outbound: ByteStream)
      requires Valid(outbound)
      modifies this
      ensures Matches() && model == Handled(old(model), absAckno, windowSize)
    {
      hide Ok, IsWires, FoundCount, Found, TotalLen;
      var validAck := IsAcceptable(absAckno);
      if !validAck {
        return;
      }
      ghost var s := model;
      var idx := CountAcked(absAckno, outbound);
      AdoptWindow(windowSize);
      WiresDrop(outstandingMessages, model.outstanding, idx, isn);
      EraseAcked(idx);
      model := Handled(s, absAckno, windowSize);
    }

    // An ack counts if it is not ahead of what was sent and not behind what is outstanding.
    method IsAcceptable(absAckno: U64) returns (validAck: bool)
      requires Matches()
      ensures validAck == Accepts(model, absAckno)
    {
      hide IsWires, Unwrap;
      validAck := false;
      if absAckno <= nextAbsSeqno {
        if |outstandingMessages| == 0 {
          validAck := true;
        } else {
          WiresAt(outstandingMessages, model.outstanding, isn, 0);
          if absAckno >= Unwrap(outstandingMessages[0].seqno, isn, ToU64(nextAbsSeqno)) {
            validAck := true;
          }
        }
      }
    }

    // What is in flight already counts against the new window.
    method AdoptWindow(windowSize: U16)
      modifies this`receiverWindowSize, this`receiverWindowSpace, this`freeWindow
      ensures receiverWindowSize == windowSize && !freeWindow
      ensures receiverWindowSpace == Max(0, windowSize - sequenceNumbersInFlight)
    {
      receiverWindowSize := windowSize;
      receiverWindowSpace := windowSize;
      freeWindow := false;
      if receiverWindowSpace >= sequenceNumbersInFlight {
        receiverWindowSpace := receiverWindowSpace - sequenceNumbersInFlight;
      } else {
        receiverWindowSpace := 0;
      }
    }

    // Progress resets the timer.
    method EraseAcked(idx: nat)
      requires idx <= |outstandingMessages|
      modifies this`timeElapsed, this`retransmissionTimeout, this`consecutiveRetransmissions, this`outstandingMessages
      ensures outstandingMessages == old(outstandingMessages)[idx..]
      ensures timeElapsed == if idx > 0 then 0 else old(timeElapsed)
      ensures retransmissionTimeout == if idx > 0 then initialRtoMs else old(retransmissionTimeout)
      ensures consecutiveRetransmissions == if idx > 0 then 0 else old(consecutiveRetransmissions)
    {
      if idx != 0 {
        timeElapsed := 0;
        retransmissionTimeout := initialRtoMs;
        consecutiveRetransmissions := 0;
        outstandingMessages := outstandingMessages[idx..];
      }
    }

    // The loop over the acknowledged messages; it takes them out of the flight.
    method CountAcked(absAckno: U64, ghost outbound: ByteStream) returns (idx: nat)
      requires outbound.Valid() && Ok(model, outbound.Model())
      requires isn == model.isn && IsWires(outstandingMessages, model.outstanding, isn)
      requires nextAbsSeqno == model.next && sequenceNumbersInFlight == model.inFlight
      modifies this`sequenceNumbersInFlight
      ensures idx == FoundCount(model, model.outstanding, absAckno)
      ensures sequenceNumbersInFlight == ToU64(model.inFlight - TotalLen(model.outstanding[..idx]))
    {
      hide Ok, IsWires, Unwrap, TotalLen, FoundCount, AllFoundBelow;
      ghost var gs := model.outstanding;
      idx := 0;
      ghost var s, out := model, outbound.Model();
      NothingFreed(s, gs, absAckno);
      while idx < |outstandingMessages|
        invariant idx <= |gs|
        invariant AllFoundBelow(s, gs, absAckno, idx)
        invariant sequenceNumbersInFlight == s.inFlight - TotalLen(gs[..idx])
      {
        var message := outstandingMessages[idx];
        WiresAt(outstandingMessages, gs, isn, idx);
        FoundBelowStep(s, gs, absAckno, idx);
        var absSeqno := Unwrap(message.seqno, isn, ToU64(nextAbsSeqno));
        if absSeqno + message.SequenceLength() <= absAckno {
          PrefixInFlight(s, out, idx + 1);
          sequenceNumbersInFlight := sequenceNumbersInFlight - message.SequenceLength();
          idx := idx + 1;
        } else {
          break;
        }
      }
      FoundBelowStep(s, gs, absAckno, idx);
      FlightFits(s, out, idx);
    }

    method Tick(msSinceLastTick: U64, ghost outbound: ByteStream)
      requires Valid(outbound)
      modifies this
      ensures Valid(outbound)
      ensures model == SenderModel.Tick(old(model), msSinceLastTick)
    {
      hide Ok, IsWires;
      SenderRuns.TickOk(model, outbound.Model(), msSinceLastTick);
      if |outstandingMessages| == 0 {
        return;
      }
      WiresAt(outstandingMessages, model.outstanding, isn, 0);
      WiresAppend(sendMessages, model.queue, model.outstanding[0], isn);
      ghost var s := model;
      var expired := Advance(msSinceLastTick);
      if expired {
        sendMessages := sendMessages + [outstandingMessages[0]];
        BackOff();
      }
      model := SenderModel.Tick(s, msSinceLastTick);
    }

    // A retransmission into an open window doubles the timeout.
    method BackOff()
      requires |outstandingMessages| != 0
      modifies this`consecutiveRetransmissions, this`retransmissionTimeout
      ensures var b := (receiverWindowSize != 0 || outstandingMessages[0].syn) && !freeWindow;
              && consecutiveRetransmissions == old(consecutiveRetransmissions) + Bit(b)
              && retransmissionTimeout
                 == if b then ToU64(old(retransmissionTimeout) * 2) else old(retransmissionTimeout)
    {
      if (receiverWindowSize != 0 || outstandingMessages[0].syn) && !freeWindow {
        consecutiveRetransmissions := consecutiveRetransmissions + 1;
        retransmissionTimeout := ToU64(retransmissionTimeout * 2);
      }
    }

    method Advance(msSinceLastTick: U64) returns (expired: bool)
      modifies this`timeElapsed
      ensures expired == (ToU64(old(timeElapsed) + msSinceLastTick) >= retransmissionTimeout)
      ensures timeElapsed == if expired then 0 else ToU64(old(timeElapsed) + msSinceLastTick)
    {
      timeElapsed := ToU64(timeElapsed + msSinceLastTick);
      expired := timeElapsed >= retransmissionTimeout;
      if expired {
        timeElapsed := 0;
      }
    }
  }

  lemma OpenWindowOnly(s: Sender)
    ensures OpenWindow(s) == s.(windowSize := OpenWindow(s).windowSize, windowSpace := OpenWindow(s).windowSpace,
                                freeWindow := OpenWindow(s).freeWindow)
  {
  }

  lemma PrefixInFlight(s: Sender, out: Stream, n: nat)
    requires Ok(s, out) && n <= |s.outstanding|
    ensures TotalLen(s.outstanding[..n]) <= s.inFlight
  {
    hide Ok, TotalLen;
    ReleasedFlight(s, out, n);
  }

  lemma FlightFits(s: Sender, out: Stream, n: nat)
    requires Ok(s, out) && n <= |s.outstanding|
    ensures ToU64(s.inFlight - TotalLen(s.outstanding[..n])) == s.inFlight - TotalLen(s.outstanding[..n])
  {
    hide Layout, AllOk, TotalLen;
    PrefixInFlight(s, out, n);
  }
}
