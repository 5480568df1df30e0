// An endpoint as the program runs it (util/tcp_peer.hh).
module TCPPeers {
  import opened Words
  import opened Messages
  import opened ByteStreams
  import opened Reassemblers
  import ReceiverModel
  import opened TCPReceivers
  import SenderModel
  import SenderSafety
  import SenderRuns
  import opened TCPSenders
  import opened PeerModel

  class TCPPeer {
    const sender: TCPSender
    const receiver: TCPReceiver
    const reassembler: Reassembler
    const outbound: ByteStream
    const inbound: ByteStream
    var needSend: bool

    ghost predicate Valid()
      reads this, sender, receiver, reassembler, outbound, inbound
    {
      && outbound != inbound
      && sender.Valid(outbound)
      && receiver.Valid(reassembler, inbound)
    }

    ghost function Model(): Peer
      requires Valid()
      reads this, sender, receiver, reassembler, outbound, inbound
    {
      Peer(sender.model, outbound.Model(), receiver.Model(reassembler, inbound), needSend)
    }

    constructor (cfg: TCPConfig)
      ensures Valid() && Model() == NewPeer(cfg)
      ensures fresh(sender) && fresh(receiver) && fresh(reassembler) && fresh(outbound) && fresh(inbound)
    {
      var sender := new TCPSender(cfg.isn, cfg.rtTimeout);
      var outbound := new ByteStream(cfg.sendCapacity);
      var inbound := new ByteStream(cfg.recvCapacity);
      var reassembler := new Reassembler(inbound);
      var receiver := new TCPReceiver();
      SenderSafety.InitOk(cfg.isn, cfg.rtTimeout, cfg.sendCapacity);
      this.sender, this.outbound, this.inbound := sender, outbound, inbound;
      this.reassembler, this.receiver := reassembler, receiver;
      needSend := false;
    }

    method Push()
      requires Valid()
      modifies sender, outbound
      ensures Valid() && Model() == PeerModel.Push(old(Model()))
    {
      hide SenderSafety.Ok, TCPSender.Matches, Reassembler.Valid, Stored, SetFlags, ReceiverModel.Receiver.Ok,
           SenderModel.Push, SenderModel.Receive, SenderModel.Tick, SenderModel.MaybeSend, ReceiverModel.Receive;
      sender.Push(outbound);
    }

    method Tick(msSinceLastTick: U64)
      requires Valid()
      modifies sender
      ensures Valid()
      ensures Model() == old(Model()).(snd := SenderModel.Tick(old(Model()).snd, msSinceLastTick))
    {
      hide SenderSafety.Ok, TCPSender.Matches, Reassembler.Valid, Stored, SetFlags, ReceiverModel.Receiver.Ok,
           SenderModel.Push, SenderModel.Receive, SenderModel.Tick, SenderModel.MaybeSend, ReceiverModel.Receive;
      sender.Tick(msSinceLastTick, outbound);
    }

    // The application's ends of the two streams.
    method Write(data: seq<Byte>)
      requires Valid() && SenderRuns.MayWrite(outbound.Model(), data)
      modifies outbound
      ensures Valid() && Model() == old(Model()).(out := old(Model()).out.Push(data))
    {
      hide SenderSafety.Ok, TCPSender.Matches, Reassembler.Valid, Stored, SetFlags, ReceiverModel.Receiver.Ok,
           SenderModel.Push, SenderModel.Receive, SenderModel.Tick, SenderModel.MaybeSend, ReceiverModel.Receive;
      SenderRuns.WriteOk(sender.model, outbound.Model(), data);
      outbound.Push(data);
    }

    method Close()
      requires Valid()
      modifies outbound
      ensures Valid() && Model() == old(Model()).(out := old(Model()).out.Close())
    {
      hide SenderSafety.Ok, TCPSender.Matches, Reassembler.Valid, Stored, SetFlags, ReceiverModel.Receiver.Ok,
           SenderModel.Push, SenderModel.Receive, SenderModel.Tick, SenderModel.MaybeSend, ReceiverModel.Receive;
      SenderRuns.CloseOk(sender.model, outbound.Model());
      outbound.Close();
    }

    method Read(len: nat)
      requires Valid()
      modifies inbound
      ensures Valid()
      ensures Model() == old(Model()).(rcv := WithInbound(old(Model()).rcv, old(Model()).Inbound().Pop(len)))
    {
      hide SenderSafety.Ok, TCPSender.Matches, Stored, SetFlags;
      inbound.Pop(len);
    }

    method Active() returns (active: bool)
      requires Valid()
      ensures active == Model().Active()
    {
      hide SenderSafety.Ok, Stored, SetFlags, ReceiverModel.Receiver.Ok;
      if inbound.error {
        return false;
      }
      active := !outbound.IsFinished() || !inbound.closed || sender.sequenceNumbersInFlight != 0;
    }

    method Receive(segment: Segment)
      requires Valid()
      modifies this, sender, receiver, reassembler, inbound
      ensures Valid() && Model() == PeerModel.Receive(old(Model()), segment)
    {
      hide SenderSafety.Ok, TCPSender.Matches, Reassembler.Valid, Stored, SetFlags, ReceiverModel.Receiver.Ok,
           SenderModel.Push, SenderModel.Receive, SenderModel.Tick, SenderModel.MaybeSend, ReceiverModel.Receive;
      if segment.reset || inbound.error {
        Abort();
        return;
      }
      sender.Receive(segment.receiver, outbound);
      needSend := needSend || segment.sender.SequenceLength() > 0;
      var ours := receiver.Send(inbound, reassembler);
      needSend := needSend || (ours.ackno.Some? && ToU32(segment.sender.seqno + 1) == ours.ackno.value);
      receiver.Receive(segment.sender, reassembler, inbound);
    }

    // A reset, or an error of the inbound stream, ends the conversation.
    method Abort()
      requires Valid()
      modifies inbound
      ensures Valid()
      ensures Model() == old(Model()).(rcv := WithInbound(old(Model()).rcv, old(Model()).Inbound().SetError()))
    {
      hide SenderSafety.Ok, TCPSender.Matches, Stored, SetFlags;
      inbound.SetError();
    }

    method MaybeSend() returns (segment: Option<Segment>)
      requires Valid()
      modifies this, sender, outbound
      ensures Valid()
      ensures var (p, k) := PeerModel.MaybeSend(old(Model()));
              Model() == p && segment == if k.Some? then Some(k.value.wire) else None
    {
      hide SenderSafety.Ok, TCPSender.Matches, Reassembler.Valid, Stored, SetFlags, ReceiverModel.Receiver.Ok,
           SenderModel.Push, SenderModel.Receive, SenderModel.Tick, SenderModel.MaybeSend, ReceiverModel.Receive;
      var receiverMessage := receiver.Send(inbound, reassembler);
      if receiverMessage.ackno.Some? {
        Push();
      }
      segment := Dispatch(receiverMessage);
    }

    method Dispatch(receiverMessage: ReceiverMessage) returns (segment: Option<Segment>)
      requires Valid() && receiverMessage == ReceiverModel.Acknowledge(Model().rcv)
      modifies this, sender
      ensures Valid()
      ensures var (p, k) := PeerModel.Dispatch(old(Model()));
              Model() == p && segment == if k.Some? then Some(k.value.wire) else None
    {
      hide SenderSafety.Ok, TCPSender.Matches, Reassembler.Valid, Stored, SetFlags, ReceiverModel.Receiver.Ok,
           SenderModel.MaybeSend, ReceiverModel.Acknowledge;
      var message := sender.MaybeSend(outbound);
      if needSend && message == None {
        var empty := sender.SendEmptyMessage();
        message := Some(empty);
      }
      needSend := false;
      if message == None {
        return None;
      }
      segment := Some(Segment(message.value, receiverMessage, outbound.error || inbound.error));
    }
  }
}
