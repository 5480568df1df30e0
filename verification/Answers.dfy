// When a peer (util/tcp_peer.hh) says something, and what.
module Answers {
  import opened Words
  import opened WrappingIntegers
  import opened Messages
  import opened ByteStreams
  import Reassembly
  import ReceiverModel
  import SenderModel
  import SenderSafety
  import opened PeerModel
  import opened Link

  // The number just before the one needed next.
  predicate IsOneBelow(r: ReceiverModel.Receiver, m: SenderMessage)
  {
    r.syn && m.seqno == Wrap(r.NextNeeded() - 1, r.isn)
  }

  // A segment that is looked into, and either occupies numbers or is one below the number needed.
  predicate Demands(p: Peer, segment: Segment)
  {
    && !segment.reset && !p.Inbound().error
    && (segment.sender.SequenceLength() > 0 || IsOneBelow(p.rcv, segment.sender))
  }

  // The messages that are queued, after whatever the window lets through was pushed.
  function ToSend(p: Peer): seq<SenderModel.Seg>
  {
    (if p.rcv.syn then SenderModel.Push(p.snd, p.out).0 else p.snd).queue
  }

  // What every segment says about the receiver: the number needed next, and the room.
  predicate Tells(m: ReceiverMessage, r: ReceiverModel.Receiver)
  {
    && m.ackno == (if r.syn then Some(Wrap(r.NextNeeded(), r.isn)) else None)
    && m.windowSize == Min(r.asm.out.capacity - |r.asm.out.Buffered()|, 65535)
  }

  lemma OneBelow(seqno: U32, n: nat, isn: U32)
    requires n > 0
    ensures ToU32(seqno + 1) == Wrap(n, isn) <==> seqno == Wrap(n - 1, isn)
  {
    assert Wrap(n, isn) == ToU32(Wrap(n - 1, isn) + 1) by { WrapNext(n - 1, isn); }
  }

  lemma WrapNext(n: nat, isn: U32)
    ensures Wrap(n + 1, isn) == ToU32(Wrap(n, isn) + 1)
  {
  }

  lemma ReceiveOwes(p: Peer, segment: Segment)
    ensures Receive(p, segment).needSend <==> p.needSend || Demands(p, segment)
  {
    hide Wrap, SenderModel.Receive, ReceiverModel.Receive;
    OneBelow(segment.sender.seqno, p.rcv.NextNeeded(), p.rcv.isn);
  }

  // A peer speaks exactly if it owes an answer or has messages; then it owes none. It takes the oldest message,
  // or else an empty one that sits at the next number.
  lemma SpeaksExactly(p: Peer)
    ensures var (p', k) := MaybeSend(p);
            && !p'.needSend && p'.rcv == p.rcv && p'.out.error == p.out.error
            && (k.Some? <==> p.needSend || ToSend(p) != [])
            && (k.Some? ==>
                  && Tells(k.value.wire.receiver, p.rcv)
                  && (k.value.wire.reset <==> p.out.error || p.Inbound().error)
                  && k.value.wire.sender == k.value.seg.Wire(p'.snd.isn)
                  && (if ToSend(p) != [] then [k.value.seg] + p'.snd.queue == ToSend(p)
                      else k.value.seg.Len() == 0 && k.value.seg.pos == p'.snd.next))
  {
    hide Wrap, SenderModel.Fill;
    FillKeepsError(p.snd, p.out);
  }

  lemma {:induction false} FillKeepsError(s: SenderModel.Sender, out: Stream)
    ensures SenderModel.Fill(s, out).1.error == out.error
    decreases |out.Buffered()|
  {
    if SenderModel.MayFill(s, out) {
      FillKeepsError(SenderModel.FillOnce(s, out), out.Pop(SenderModel.ReadSize(s, out)));
    }
  }

  lemma InsertKeepsError(a: Reassembly.Assembly, first: nat, data: seq<Byte>, last: bool)
    ensures Reassembly.Insert(a, first, data, last).out.error == a.out.error
  {
    hide Reassembly.Run, Reassembly.Merge, Reassembly.From;
  }

  lemma ReceiveKeepsError(r: ReceiverModel.Receiver, m: SenderMessage)
    ensures ReceiverModel.Receive(r, m).asm.out.error == r.asm.out.error
  {
    hide Reassembly.Insert, Unwrap, ReceiverModel.Overlaps;
    var r1 := if m.syn && !r.syn then r.(syn := true, isn := m.seqno) else r;
    InsertKeepsError(r1.asm, ReceiverModel.Index(ReceiverModel.ReadAt(r, m)), m.payload, r1.fin || m.fin);
  }

  // A segment that demands it is answered: the next segment acknowledges the number needed once it has been
  // received, and tells the room there is then.
  lemma IsAnswered(p: Peer, segment: Segment)
    ensures var p1 := Receive(p, segment);
            var k := MaybeSend(p1).1;
            && (Demands(p, segment) ==>
                  && k.Some? && Tells(k.value.wire.receiver, ReceiverModel.Receive(p.rcv, segment.sender))
                  && (k.value.wire.reset <==> p.out.error))
            && (!Demands(p, segment) && !p.needSend && ToSend(p1) == [] ==> k.None?)
  {
    hide Wrap, SenderModel.Receive, ReceiverModel.Receive, MaybeSend, Demands, ToSend;
    ReceiveOwes(p, segment);
    SpeaksExactly(Receive(p, segment));
    if Demands(p, segment) {
      ReceiveKeepsError(p.rcv, segment.sender);
      DemandIsHeard(p, segment);
    }
  }

  lemma DemandIsHeard(p: Peer, segment: Segment)
    requires Demands(p, segment)
    ensures !segment.reset && !p.Inbound().error
  {
  }

  // An error of one peer, inbound or outbound, reaches the other one with the next segment; nothing else ends
  // the conversation.
  lemma ErrorsSpread(p: Peer, q: Peer)
    ensures var k := MaybeSend(p).1;
            k.Some? ==>
              var q' := Receive(q, k.value.wire);
              && (q'.Inbound().error <==> q.Inbound().error || p.out.error || p.Inbound().error)
              && (q'.Inbound().error ==> !q'.Active())
  {
    hide MaybeSend, SenderModel.Receive, ReceiverModel.Receive;
    SpeaksExactly(p);
    if MaybeSend(p).1.Some? {
      ReceiveKeepsError(q.rcv, MaybeSend(p).1.value.wire.sender);
    }
  }

  // An empty answer demands no answer from a receiver that is less than 2^32 - 1 numbers behind: acknowledgments
  // are not acknowledged in turn.
  lemma AnswersEnd(p: Peer, q: Peer, m: ReceiverMessage)
    requires DataLinkOk(p.snd, p.out, q.rcv) && p.snd.next - Reached(q.rcv) < TWO32 - 1
    ensures !Demands(q, Segment(SenderModel.EmptyMessage(p.snd).Wire(p.snd.isn), m, false))
  {
    hide Wrap, SenderSafety.Ok, Reassembly.Agrees;
    ReachedBelowNext(p.snd, p.out, q.rcv);
    if q.rcv.syn && Wrap(p.snd.next, p.snd.isn) == Wrap(q.rcv.NextNeeded() - 1, q.rcv.isn) {
      WrapInjective(p.snd.next, q.rcv.NextNeeded() - 1, p.snd.isn);
    }
  }
}

// The same over whole lives of a peer.
module AnswerRuns {
  import opened PeerModel
  import opened Connection
  import opened Answers

  function Live(p: Peer, actions: seq<Action>): Peer
    decreases actions
  {
    if actions == [] then p else Live(Act(p, actions[0]).0, actions[1..])
  }

  // Whether a segment that demands an answer has arrived since the peer last had the occasion to speak.
  predicate Owes(p: Peer, owed: bool, actions: seq<Action>)
    decreases actions
  {
    if actions == [] then owed else
    var owed' := match actions[0]
                 case Send => false
                 case Deliver(k) => owed || Demands(p, k.wire)
                 case _ => owed;
    Owes(Act(p, actions[0]).0, owed', actions[1..])
  }

  lemma {:induction false} OwesExactly(p: Peer, actions: seq<Action>)
    ensures Live(p, actions).needSend <==> Owes(p, p.needSend, actions)
    decreases actions
  {
    hide Demands, MaybeSend, Receive, Push;
    if actions != [] {
      match actions[0] {
        case Send => SpeaksExactly(p);
        case Deliver(k) => ReceiveOwes(p, k.wire);
        case PushNow => PushOwesNothing(p);
        case _ =>
      }
      OwesExactly(Act(p, actions[0]).0, actions[1..]);
    }
  }

  lemma PushOwesNothing(p: Peer)
    ensures Push(p).needSend == p.needSend
  {
  }

  // Whatever happened to a peer: asked for a segment, it gives one exactly if it has messages to send or a
  // segment that demands an answer arrived since it was last asked, and what it gives tells what its receiver
  // needs.
  lemma SpeaksExactlyWhenAsked(cfg: TCPConfig, actions: seq<Action>)
    ensures var p := Live(NewPeer(cfg), actions);
            var k := MaybeSend(p).1;
            && (k.Some? <==> Owes(NewPeer(cfg), false, actions) || ToSend(p) != [])
            && (k.Some? ==> Tells(k.value.wire.receiver, p.rcv))
  {
    hide Live, Owes, MaybeSend, Tells, ToSend;
    OwesExactly(NewPeer(cfg), actions);
    SpeaksExactly(Live(NewPeer(cfg), actions));
  }
}
