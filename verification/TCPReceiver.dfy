// The receiver as the program runs it (src/tcp_receiver.cc).
module TCPReceivers {
  import opened Words
  import opened WrappingIntegers
  import opened Messages
  import opened ByteStreams
  import Reassembly
  import opened Reassemblers
  import opened ReceiverModel

  class TCPReceiver {
    var isn: U32
    var fin: bool
    var syn: bool

    ghost predicate Valid(reassembler: Reassembler, inbound: ByteStream)
      reads this, reassembler, inbound
    {
      reassembler.Valid(inbound) && Model(reassembler, inbound).Ok()
    }

    ghost function Model(reassembler: Reassembler, inbound: ByteStream): Receiver
      requires reassembler.Consistent(inbound)
      reads this, reassembler, inbound
    {
      Receiver(syn, fin, isn, reassembler.Model(inbound))
    }

    constructor ()
      ensures isn == 0 && !fin && !syn
    {
      isn, fin, syn := 0, false, false;
    }

    method Receive(message: SenderMessage, reassembler: Reassembler, inbound: ByteStream)
      requires Valid(reassembler, inbound)
      modifies this, reassembler, inbound
      ensures Valid(reassembler, inbound)
      ensures Model(reassembler, inbound) == ReceiverModel.Receive(old(Model(reassembler, inbound)), message)
    {
      hide Stored, SetFlags, Accept, Unwrap, Receiver.Ok;
      ReceiveKeepsOk(Model(reassembler, inbound), message);
      if !syn && !message.syn {
        return;
      }
      if message.syn && !syn {
        syn := true;
        isn := message.seqno;
      }
      Place(message, reassembler, inbound);
    }

    // Recovers the place of the message, and hands it to the reassembler if it overlaps the window. That
    // test is what keeps the reassembler's indices in range.
    method Place(message: SenderMessage, reassembler: Reassembler, inbound: ByteStream)
      requires reassembler.Valid(inbound) && syn
      modifies this`fin, reassembler, inbound
      ensures reassembler.Valid(inbound)
      ensures Model(reassembler, inbound)
              == Accept(old(Model(reassembler, inbound)), Unwrap(message.seqno, isn, ToU64(old(inbound.bytesWrite))),
                        message)
    {
      hide Stored, SetFlags, Reassembly.Insert, Unwrap;
      var lastAckAbsSeqno := inbound.bytesWrite + 1;
      if fin && inbound.closed {
        lastAckAbsSeqno := lastAckAbsSeqno + 1;
      }
      var checkpoint := ToU64(inbound.bytesWrite);
      var absSeqno := Unwrap(message.seqno, isn, checkpoint);
      var windowSize := inbound.AvailableCapacity();
      var index: nat := absSeqno;
      if index >= 1 {
        index := index - 1;
      }
      WindowTestGuardsInsert(Model(reassembler, inbound), absSeqno, message);
      if absSeqno < lastAckAbsSeqno + windowSize && absSeqno + message.SequenceLength() > lastAckAbsSeqno {
        if syn && message.fin {
          fin := true;
        }
      } else {
        return;
      }
      reassembler.Insert(index, message.payload, fin, inbound);
    }

    method Send(inbound: ByteStream, ghost reassembler: Reassembler) returns (m: ReceiverMessage)
      requires Valid(reassembler, inbound)
      ensures m == Acknowledge(Model(reassembler, inbound))
    {
      hide Stored, SetFlags, Receiver.Ok, Wrap;
      var lastAckAbsSeqno := inbound.bytesWrite + 1;
      if fin && inbound.closed {
        lastAckAbsSeqno := lastAckAbsSeqno + 1;
      }
      var windowSize := inbound.AvailableCapacity();
      if windowSize >= 65536 {
        windowSize := 65535;
      }
      m := ReceiverMessage(if syn then Some(Wrap(lastAckAbsSeqno, isn)) else None, windowSize);
    }
  }
}
