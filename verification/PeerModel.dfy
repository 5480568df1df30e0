// One endpoint of a connection (util/tcp_peer.hh): a sender with its outbound stream, and a receiver
// with its reassembler and inbound stream.
module PeerModel {
  import opened Words
  import opened WrappingIntegers
  import opened Messages
  import opened ByteStreams
  import opened ReceiverModel
  import SenderModel

  // What the TCP layer puts on the wire.
  datatype Segment = Segment(sender: SenderMessage, receiver: ReceiverMessage, reset: bool)

  // A segment in the network, annotated with the absolute numbers its sender meant.
  datatype Packet = Packet(wire: Segment, seg: SenderModel.Seg, ack: Option<nat>)

  datatype Peer = Peer(snd: SenderModel.Sender, out: Stream, rcv: Receiver, needSend: bool)
  {
    function Inbound(): Stream { rcv.asm.out }

    predicate Active()
    {
      !Inbound().error && (!out.Finished() || !Inbound().closed || snd.inFlight != 0)
    }
  }

  function WithInbound(r: Receiver, s: Stream): Receiver
  {
    r.(asm := r.asm.(out := s))
  }

  // util/tcp_config.hh; the initial sequence number is given.
  datatype TCPConfig = TCPConfig(rtTimeout: U16, recvCapacity: U64, sendCapacity: U64, isn: U32)

  function NewPeer(cfg: TCPConfig): Peer
  {
    Peer(SenderModel.NewSender(cfg.isn, cfg.rtTimeout), EmptyStream(cfg.sendCapacity),
         NewReceiver(cfg.recvCapacity), false)
  }

  // A keep-alive carries the number just before the one the receiver needs.
  predicate IsKeepAlive(r: Receiver, m: SenderMessage)
  {
    r.syn && ToU32(m.seqno + 1) == Wrap(r.NextNeeded(), r.isn)
  }

  function Receive(p: Peer, segment: Segment): Peer
  {
    if segment.reset || p.Inbound().error then
      p.(rcv := WithInbound(p.rcv, p.Inbound().SetError()))
    else
      p.(snd := SenderModel.Receive(p.snd, segment.receiver),
         rcv := ReceiverModel.Receive(p.rcv, segment.sender),
         needSend := p.needSend || segment.sender.SequenceLength() > 0 || IsKeepAlive(p.rcv, segment.sender))
  }

  function Push(p: Peer): Peer
  {
    var (snd, out) := SenderModel.Push(p.snd, p.out);
    p.(snd := snd, out := out)
  }

  // A peer that has not seen the other side's SYN does not push by itself.
  function MaybeSend(p: Peer): (Peer, Option<Packet>)
  {
    Dispatch(if p.rcv.syn then Push(p) else p)
  }

  // Sends the next queued message, or an empty one if something has to be answered.
  function Dispatch(p: Peer): (Peer, Option<Packet>)
  {
    var (snd, queued) := SenderModel.MaybeSend(p.snd);
    var seg := if queued == None && p.needSend then Some(SenderModel.EmptyMessage(snd)) else queued;
    (p.(snd := snd, needSend := false),
     if seg == None then None
     else
       Some(Packet(Segment(seg.value.Wire(snd.isn), Acknowledge(p.rcv), p.out.error || p.Inbound().error),
                   seg.value,
                   if p.rcv.syn then Some(p.rcv.NextNeeded()) else None)))
  }
}
