// Two peers over a network that may lose, duplicate and reorder segments: every segment ever sent
// stays available for delivery, any number of times and in any order, or never. Both directions
// carry data, and each direction's acknowledgments ride on the other's segments.
module Connection {
  import opened Words
  import opened Messages
  import opened ByteStreams
  import ReceiverModel
  import SenderModel
  import opened SenderSafety
  import SenderRuns
  import opened PeerModel
  import opened Link
  import opened Closing
  import opened Answers

  datatype Conn = Conn(a: Peer, b: Peer, ab: set<Packet>, ba: set<Packet>)

  datatype Action =
    | Write(data: seq<Byte>)
    | Close
    | Fail
    | Read(len: nat)
    | PushNow
    | Elapse(ms: nat)
    | Send
    | Deliver(k: Packet)

  datatype Step = Step(atA: bool, action: Action)

  // What an action does at a peer, and the packets it puts into the network.
  function Act(p: Peer, action: Action): (Peer, set<Packet>)
  {
    match action
    case Write(data) => (if SenderRuns.MayWrite(p.out, data) then p.(out := p.out.Push(data)) else p, {})
    case Close => (p.(out := p.out.Close()), {})
    case Fail => (p.(out := p.out.SetError()), {})
    case Read(len) => (p.(rcv := WithInbound(p.rcv, p.Inbound().Pop(len))), {})
    case PushNow => (Push(p), {})
    case Elapse(ms) => (p.(snd := SenderModel.Tick(p.snd, ms)), {})
    case Send =>
      var (p', k) := MaybeSend(p);
      (p', if k.Some? then {k.value} else {})
    case Deliver(k) => (Receive(p, k.wire), {})
  }

  function Next(c: Conn, s: Step): Conn
  {
    if s.atA then
      var (a, sent) := Act(c.a, s.action);
      c.(a := a, ab := c.ab + sent)
    else
      var (b, sent) := Act(c.b, s.action);
      c.(b := b, ba := c.ba + sent)
  }

  // The peer at which a step happens, and the other one.
  function Here(c: Conn, s: Step): Peer { if s.atA then c.a else c.b }

  function There(c: Conn, s: Step): Peer { if s.atA then c.b else c.a }

  // Whatever was sent can be delivered.
  predicate Enabled(c: Conn, s: Step)
  {
    s.action.Deliver? ==> s.action.k in if s.atA then c.ba else c.ab
  }

  function Run(c: Conn, steps: seq<Step>): Conn
    decreases steps
  {
    if steps == [] then c else Run(Next(c, steps[0]), steps[1..])
  }

  predicate Legal(c: Conn, steps: seq<Step>)
    decreases steps
  {
    steps == [] || (Enabled(c, steps[0]) && Legal(Next(c, steps[0]), steps[1..]))
  }

  // A reset, and anything after an error, is not looked into.
  predicate Heard(c: Conn, s: Step)
  {
    s.action.Deliver? && !s.action.k.wire.reset && !Here(c, s).Inbound().error
  }

  // The data that is delivered fits.
  predicate DataFits(c: Conn, s: Step)
  {
    Heard(c, s) ==> Fitting(Here(c, s).rcv, s.action.k.wire.sender, Sent(There(c, s).out))
  }

  predicate FittingRun(c: Conn, steps: seq<Step>)
    decreases steps
  {
    steps == [] || (DataFits(c, steps[0]) && FittingRun(Next(c, steps[0]), steps[1..]))
  }

  // The acknowledgment that is delivered is harmless.
  predicate AckIsHarmless(c: Conn, s: Step)
  {
    Heard(c, s) ==> Harmless(Here(c, s).snd, There(c, s).rcv, s.action.k.wire.receiver)
  }

  predicate HarmlessRun(c: Conn, steps: seq<Step>)
    decreases steps
  {
    steps == [] || (AckIsHarmless(c, steps[0]) && HarmlessRun(Next(c, steps[0]), steps[1..]))
  }

  // --- The invariant ---

  // From p to q, what concerns the data.
  ghost predicate DataHalf(p: Peer, q: Peer, pq: set<Packet>)
  {
    DataHalfOk(p.snd, p.out, q.rcv, pq)
  }

  // From p to q, what concerns the acknowledgments on their way back.
  predicate AckHalf(p: Peer, q: Peer, qp: set<Packet>)
  {
    AcksOk(p.snd, q.rcv, qp)
  }

  ghost predicate Inv(c: Conn)
  {
    && DataHalf(c.a, c.b, c.ab)
    && DataHalf(c.b, c.a, c.ba)
    && WithinBudget(c.a.snd)
    && WithinBudget(c.b.snd)
  }

  predicate AckInv(c: Conn)
  {
    AckHalf(c.a, c.b, c.ba) && AckHalf(c.b, c.a, c.ab)
  }

  function Opening(cfgA: TCPConfig, cfgB: TCPConfig): Conn
  {
    Conn(NewPeer(cfgA), NewPeer(cfgB), {}, {})
  }

  lemma OpeningInv(cfgA: TCPConfig, cfgB: TCPConfig)
    ensures var c := Opening(cfgA, cfgB); Inv(c) && AckInv(c) && EndInv(c)
  {
    hide Ok;
    InitOk(cfgA.isn, cfgA.rtTimeout, cfgA.sendCapacity);
    InitOk(cfgB.isn, cfgB.rtTimeout, cfgB.sendCapacity);
  }

  // An action that only concerns p's sender and outbound stream.
  lemma SenderActs(p: Peer, q: Peer, pq: set<Packet>, action: Action)
    requires DataHalf(p, q, pq)
    requires action.Write? || action.Close? || action.Fail? || action.PushNow? || action.Elapse?
    ensures var p' := Act(p, action).0;
            && DataHalf(p', q, pq)
            && p'.rcv == p.rcv
            && p'.snd.isn == p.snd.isn
            && Ok(p'.snd, p'.out) && Extends(p.snd, p.out, p'.snd, p'.out)
            && (WithinBudget(p.snd) ==> WithinBudget(p'.snd))
            && p'.snd.Unacked() == p.snd.Unacked()
  {
    hide Ok, SenderModel.Push, SenderModel.Tick, DataLinkOk, DataOk;
    var p' := Act(p, action).0;
    NothingHappens(p.snd, p.out);
    HalfParts(p, q, pq);
    match action {
      case Write(data) =>
        if SenderRuns.MayWrite(p.out, data) {
          SenderRuns.WriteOk(p.snd, p.out, data);
        }
      case Close => SenderRuns.CloseOk(p.snd, p.out);
      case Fail => SenderRuns.StreamGrows(p.snd, p.out, p.out.SetError());
      case PushNow => PushOk(p.snd, p.out);
      case Elapse(ms) => SenderRuns.TickOk(p.snd, p.out, ms);
    }
    SenderMoves(p.snd, p.out, q.rcv, pq, p'.snd, p'.out);
  }

  lemma HalfParts(p: Peer, q: Peer, pq: set<Packet>)
    requires DataHalf(p, q, pq)
    ensures Ok(p.snd, p.out) && |p.out.written| + 2 < TWO64
    ensures p.snd.fin ==> p.out.Finished()
    ensures q.rcv.syn ==> q.rcv.isn == p.snd.isn
  {
    hide Layout, AllOk, DataOk;
  }

  // A packet sent by p is good for both directions.
  lemma SendsGoodPacket(p: Peer, q: Peer, pq: set<Packet>, qp: set<Packet>)
    requires DataHalf(p, q, pq) && DataHalf(q, p, qp)
    ensures var (p', sent) := Act(p, Send);
            && DataHalf(p', q, pq + sent)
            && (forall k <- sent :: AckOk(k, p.rcv, q.snd.isn))
            && (WithinBudget(p.snd) ==> WithinBudget(p'.snd))
            && p'.snd.Unacked() == p.snd.Unacked() && p'.snd.isn == p.snd.isn
            && p'.rcv == p.rcv && p'.out.written == p.out.written && p'.out.closed == p.out.closed
  {
    hide Ok, SenderModel.Push, DataLinkOk, DataOk, AckOk;
    var p1 := if p.rcv.syn then Push(p) else p;
    var (snd, queued) := SenderModel.MaybeSend(p1.snd);
    if p.rcv.syn {
      HalfParts(p, q, pq);
      PushOk(p.snd, p.out);
      SenderActs(p, q, pq, PushNow);
    }
    HalfParts(p1, q, pq);
    MaybeSendOk(p1.snd, p1.out);
    SenderMoves(p1.snd, p1.out, q.rcv, pq, snd, p1.out);
    if MaybeSend(p).1.Some? {
      PacketIsGood(p, q, qp, p1, snd, queued);
    }
  }

  lemma PacketIsGood(p: Peer, q: Peer, qp: set<Packet>,
                     p1: Peer, snd: SenderModel.Sender, queued: Option<SenderModel.Seg>)
    requires DataHalf(q, p, qp)
    requires p1 == if p.rcv.syn then Push(p) else p
    requires (snd, queued) == SenderModel.MaybeSend(p1.snd)
    requires Ok(p1.snd, p1.out) && p1.snd.isn == p.snd.isn && Ok(snd, p1.out)
    requires queued.Some? ==> SegOk(queued.value, p1.snd, p1.out)
    requires MaybeSend(p).1.Some?
    ensures DataOk(MaybeSend(p).1.value, snd, p1.out)
    ensures AckOk(MaybeSend(p).1.value, p.rcv, q.snd.isn)
  {
    hide SenderModel.Push, Layout, AllOk, DataOk;
    HalfParts(q, p, qp);
    EmptyMessageOk(snd, p1.out);
    var k := MaybeSend(p).1.value;
    assert k.seg == if queued.Some? then queued.value else SenderModel.EmptyMessage(snd);
    DataFrom(k, p1.snd, snd, p1.out);
  }

  lemma EmptyMessageOk(snd: SenderModel.Sender, out: Stream)
    ensures SegOk(SenderModel.EmptyMessage(snd), snd, out)
  {
  }

  lemma DataFrom(k: Packet, snd: SenderModel.Sender, snd': SenderModel.Sender, out: Stream)
    requires SegOk(k.seg, snd, out) || SegOk(k.seg, snd', out)
    requires snd'.next == snd.next && snd'.fin == snd.fin
    requires k.wire.sender == k.seg.Wire(snd'.isn)
    ensures DataOk(k, snd', out)
  {
  }

  // Delivering a packet from q to p keeps what p has sent good, and p's stream right exactly if the data
  // fits.
  lemma DeliverActs(p: Peer, q: Peer, pq: set<Packet>, qp: set<Packet>, k: Packet)
    requires DataHalf(p, q, pq) && DataHalf(q, p, qp) && k in qp
    ensures var p' := Act(p, Deliver(k)).0;
            && DataHalf(p', q, pq)
            && (DataHalf(q, p', qp)
                <==> k.wire.reset || p.Inbound().error || Fitting(p.rcv, k.wire.sender, Sent(q.out)))
            && (WithinBudget(p.snd) ==> WithinBudget(p'.snd))
            && p'.out == p.out
  {
    hide DataLinkOk, DataOk, Fitting, SenderModel.Receive, ReceiverModel.Receive;
    if k.wire.reset || p.Inbound().error {
      InboundMoves(q.snd, q.out, p.rcv, qp, p.Inbound().SetError());
    } else {
      HalfParts(p, q, pq);
      SenderRuns.ReceiveOk(p.snd, p.out, k.wire.receiver);
      SenderMoves(p.snd, p.out, q.rcv, pq, SenderModel.Receive(p.snd, k.wire.receiver), p.out);
      DataArrivesExactly(q.snd, q.out, p.rcv, qp, k);
    }
  }

  // Nothing is forgotten exactly if the acknowledgment is harmless, whatever becomes of the data.
  lemma DeliverKeepsAcks(p: Peer, q: Peer, pq: set<Packet>, qp: set<Packet>, k: Packet)
    requires DataHalf(p, q, pq) && DataHalf(q, p, qp)
    requires AckHalf(p, q, qp) && AckHalf(q, p, pq) && k in qp
    ensures var p' := Act(p, Deliver(k)).0;
            && (AckHalf(p', q, qp)
                <==> k.wire.reset || p.Inbound().error || Harmless(p.snd, q.rcv, k.wire.receiver))
            && AckHalf(q, p', pq)
  {
    HalfParts(p, q, pq);
    hide DataOk, Ok, AckOk, Harmless, SenderModel.Receive, ReceiverModel.Receive;
    if k.wire.reset || p.Inbound().error {
      AcksStayOk(q.snd, p.rcv, Act(p, Deliver(k)).0.rcv, pq);
    } else {
      AckArrivesExactly(p.snd, p.out, q.rcv, qp, k.wire.receiver);
      ReceiverModel.ReceiveKeepsOk(p.rcv, k.wire.sender);
      AcksStayOk(q.snd, p.rcv, ReceiverModel.Receive(p.rcv, k.wire.sender), pq);
    }
  }

  lemma ActKeeps(p: Peer, q: Peer, pq: set<Packet>, qp: set<Packet>, action: Action)
    requires DataHalf(p, q, pq) && DataHalf(q, p, qp)
    requires action.Deliver? ==> action.k in qp
    ensures var (p', sent) := Act(p, action);
            && DataHalf(p', q, pq + sent)
            && (DataHalf(q, p', qp)
                <==> (action.Deliver? && !action.k.wire.reset && !p.Inbound().error ==>
                        Fitting(p.rcv, action.k.wire.sender, Sent(q.out))))
            && (WithinBudget(p.snd) ==> WithinBudget(p'.snd))
  {
    hide DataLinkOk, DataOk, Fitting, Receive, Push, MaybeSend;
    match action {
      case Send => SendsGoodPacket(p, q, pq, qp);
      case Deliver(k) =>
        assert pq + {} == pq;
        DeliverActs(p, q, pq, qp, k);
      case Read(len) =>
        assert pq + {} == pq;
        InboundMoves(q.snd, q.out, p.rcv, qp, p.Inbound().Pop(len));
      case _ =>
        assert pq + {} == pq;
        SenderActs(p, q, pq, action);
    }
  }

  lemma ActKeepsAcks(p: Peer, q: Peer, pq: set<Packet>, qp: set<Packet>, action: Action)
    requires DataHalf(p, q, pq) && DataHalf(q, p, qp)
    requires AckHalf(p, q, qp) && AckHalf(q, p, pq)
    requires action.Deliver? ==> action.k in qp
    ensures var (p', sent) := Act(p, action);
            && (AckHalf(p', q, qp)
                <==> (action.Deliver? && !action.k.wire.reset && !p.Inbound().error ==>
                        Harmless(p.snd, q.rcv, action.k.wire.receiver)))
            && AckHalf(q, p', pq + sent)
  {
    hide DataLinkOk, DataOk, AckOk, Harmless, Receive, Push, MaybeSend;
    match action {
      case Send => SendsGoodPacket(p, q, pq, qp);
      case Deliver(k) =>
        assert pq + {} == pq;
        DeliverKeepsAcks(p, q, pq, qp, k);
      case Read(len) =>
        assert pq + {} == pq;
        AcksStayOk(q.snd, p.rcv, WithInbound(p.rcv, p.Inbound().Pop(len)), pq);
      case _ =>
        assert pq + {} == pq;
        SenderActs(p, q, pq, action);
    }
  }

  // A step keeps both streams right exactly if its data fits.
  lemma NextKeepsInvExactly(c: Conn, s: Step)
    requires Inv(c) && Enabled(c, s)
    ensures Inv(Next(c, s)) <==> DataFits(c, s)
  {
    hide DataHalf, Act, Fitting, WithinBudget;
    if s.atA {
      ActKeeps(c.a, c.b, c.ab, c.ba, s.action);
    } else {
      ActKeeps(c.b, c.a, c.ba, c.ab, s.action);
    }
  }

  // And it forgets nothing that was not acknowledged exactly if its acknowledgment is harmless.
  lemma NextKeepsAcksExactly(c: Conn, s: Step)
    requires Inv(c) && AckInv(c) && Enabled(c, s)
    ensures AckInv(Next(c, s)) <==> AckIsHarmless(c, s)
  {
    hide DataHalf, AckHalf, Act, Harmless, WithinBudget;
    if s.atA {
      ActKeepsAcks(c.a, c.b, c.ab, c.ba, s.action);
    } else {
      ActKeepsAcks(c.b, c.a, c.ba, c.ab, s.action);
    }
  }

  lemma {:induction false} RunKeepsInv(c: Conn, steps: seq<Step>)
    requires Inv(c) && Legal(c, steps) && FittingRun(c, steps)
    ensures Inv(Run(c, steps))
    ensures AckInv(c) && HarmlessRun(c, steps) ==> AckInv(Run(c, steps))
    decreases steps
  {
    hide Inv, AckInv, Next, Enabled, DataFits, AckIsHarmless;
    if steps != [] {
      NextKeepsInvExactly(c, steps[0]);
      if AckInv(c) && HarmlessRun(c, steps) {
        NextKeepsAcksExactly(c, steps[0]);
      }
      RunKeepsInv(Next(c, steps[0]), steps[1..]);
    }
  }

  // --- Runs in which nothing arrives very late ---

  // Sequence numbers lie within 2^31 of the bytes delivered.
  predicate Near(c: Conn, s: Step)
  {
    Heard(c, s) ==> -TWO31 < s.action.k.seg.pos - |Here(c, s).Inbound().written| < TWO31
  }

  predicate NearRun(c: Conn, steps: seq<Step>)
    decreases steps
  {
    steps == [] || (Near(c, steps[0]) && NearRun(Next(c, steps[0]), steps[1..]))
  }

  // Acknowledgments are less than 2^32 behind the next number of the sender they reach.
  predicate Young(c: Conn, s: Step)
  {
    Heard(c, s) && s.action.k.ack.Some? ==> Here(c, s).snd.next - TWO32 < s.action.k.ack.value
  }

  predicate YoungRun(c: Conn, steps: seq<Step>)
    decreases steps
  {
    steps == [] || (Young(c, steps[0]) && YoungRun(Next(c, steps[0]), steps[1..]))
  }

  lemma NearFits(c: Conn, s: Step)
    requires Inv(c) && Enabled(c, s) && Near(c, s)
    ensures DataFits(c, s)
  {
    hide DataLinkOk, DataOk, Fitting, WithinBudget;
    if Heard(c, s) {
      var p, q, k := Here(c, s), There(c, s), s.action.k;
      assert DataHalf(q, p, if s.atA then c.ba else c.ab);
      assert DataOk(k, q.snd, q.out);
      NearIsReadRight(q.snd, q.out, p.rcv, k);
    }
  }

  lemma YoungIsHarmless(c: Conn, s: Step)
    requires Inv(c) && AckInv(c) && Enabled(c, s) && Young(c, s)
    ensures AckIsHarmless(c, s)
  {
    hide DataLinkOk, DataOk, AckOk, Harmless, WithinBudget;
    if Heard(c, s) {
      var p, q, k := Here(c, s), There(c, s), s.action.k;
      assert DataHalf(p, q, if s.atA then c.ab else c.ba) && AckHalf(p, q, if s.atA then c.ba else c.ab);
      assert AckOk(k, q.rcv, p.snd.isn);
      SentAckIsHarmless(p, q, k);
    }
  }

  lemma SentAckIsHarmless(p: Peer, q: Peer, k: Packet)
    requires DataLinkOk(p.snd, p.out, q.rcv) && AckOk(k, q.rcv, p.snd.isn)
    requires k.ack.Some? ==> p.snd.next - TWO32 < k.ack.value
    ensures Harmless(p.snd, q.rcv, k.wire.receiver)
  {
    hide DataLinkOk;
    if k.ack.Some? {
      YoungAckIsHarmless(p.snd, p.out, q.rcv, k.ack.value, k.wire.receiver.windowSize);
    }
  }

  lemma {:induction false} NearRunFits(c: Conn, steps: seq<Step>)
    requires Inv(c) && Legal(c, steps) && NearRun(c, steps)
    ensures FittingRun(c, steps)
    decreases steps
  {
    hide Inv, Next, Enabled, DataFits, Near;
    if steps != [] {
      NearFits(c, steps[0]);
      NextKeepsInvExactly(c, steps[0]);
      NearRunFits(Next(c, steps[0]), steps[1..]);
    }
  }

  lemma {:induction false} YoungRunIsHarmless(c: Conn, steps: seq<Step>)
    requires Inv(c) && AckInv(c) && Legal(c, steps) && FittingRun(c, steps) && YoungRun(c, steps)
    ensures HarmlessRun(c, steps)
    decreases steps
  {
    hide Inv, AckInv, Next, Enabled, DataFits, AckIsHarmless, Young;
    if steps != [] {
      YoungIsHarmless(c, steps[0]);
      NextKeepsInvExactly(c, steps[0]);
      NextKeepsAcksExactly(c, steps[0]);
      YoungRunIsHarmless(Next(c, steps[0]), steps[1..]);
    }
  }

  // --- Theorems about every run ---

  // In every run from the opening of a connection whose data fits, each peer's inbound stream is a prefix
  // of what the other peer's application wrote, of the part that was sent, and nothing is acknowledged
  // that was not sent. Acknowledgments may be as old as they like.
  lemma PrefixInEveryRun(cfgA: TCPConfig, cfgB: TCPConfig, steps: seq<Step>)
    requires Legal(Opening(cfgA, cfgB), steps) && FittingRun(Opening(cfgA, cfgB), steps)
    ensures var c := Run(Opening(cfgA, cfgB), steps); DeliversPrefix(c.a, c.b) && DeliversPrefix(c.b, c.a)
  {
    hide DataHalf, Legal, Run, WithinBudget, DeliversPrefix;
    OpeningInv(cfgA, cfgB);
    RunKeepsInv(Opening(cfgA, cfgB), steps);
    var c := Run(Opening(cfgA, cfgB), steps);
    HalfDeliversPrefix(c.a, c.b, c.ab);
    HalfDeliversPrefix(c.b, c.a, c.ba);
  }

  predicate DeliversPrefix(p: Peer, q: Peer)
  {
    && q.Inbound().written <= p.out.written
    && |q.Inbound().written| <= p.out.read
    && Reached(q.rcv) <= p.snd.next
  }

  lemma HalfDeliversPrefix(p: Peer, q: Peer, pq: set<Packet>)
    requires DataHalf(p, q, pq)
    ensures DeliversPrefix(p, q)
  {
    hide DataLinkOk, DataOk;
    PrefixDelivery(p.snd, p.out, q.rcv);
    SentFits(p.snd, p.out, q.rcv);
    ReachedBelowNext(p.snd, p.out, q.rcv);
  }

  // If every acknowledgment is harmless, then moreover a byte taken from the outbound stream is
  // delivered or kept for retransmission, save the next byte needed by a stream that was closed
  // without it.
  lemma ReliableDelivery(cfgA: TCPConfig, cfgB: TCPConfig, steps: seq<Step>)
    requires Legal(Opening(cfgA, cfgB), steps) && FittingRun(Opening(cfgA, cfgB), steps)
    requires HarmlessRun(Opening(cfgA, cfgB), steps)
    ensures var c := Run(Opening(cfgA, cfgB), steps); Delivers(c.a, c.b) && Delivers(c.b, c.a)
  {
    hide DataHalf, AckHalf, Legal, Run, WithinBudget, Delivers;
    OpeningInv(cfgA, cfgB);
    RunKeepsInv(Opening(cfgA, cfgB), steps);
    var c := Run(Opening(cfgA, cfgB), steps);
    HalfDelivers(c.a, c.b, c.ab, c.ba);
    HalfDelivers(c.b, c.a, c.ba, c.ab);
  }

  ghost predicate Delivers(p: Peer, q: Peer)
  {
    && DeliversPrefix(p, q)
    && (forall i: nat | i < p.out.read && !(q.Inbound().closed && i == |q.Inbound().written|) ::
          Safe(p, q, i))
  }

  // Byte i has been delivered, or a message that carries it is kept for retransmission.
  predicate Safe(p: Peer, q: Peer, i: nat)
  {
    i < |q.Inbound().written| || exists g <- p.snd.outstanding :: Carries(g, p.out, i)
  }

  lemma HalfDelivers(p: Peer, q: Peer, pq: set<Packet>, qp: set<Packet>)
    requires DataHalf(p, q, pq) && AckHalf(p, q, qp)
    ensures Delivers(p, q)
  {
    hide DataLinkOk, DataOk, AckOk, Carries;
    HalfDeliversPrefix(p, q, pq);
    forall i: nat | i < p.out.read && !(q.Inbound().closed && i == |q.Inbound().written|)
      ensures Safe(p, q, i)
    {
      NoByteForgotten(p.snd, p.out, q.rcv, i);
    }
  }

  // As long as few zero-window acks were accepted, whatever is outstanding and the newest acknowledgment
  // lie within 2^31 of where the other side stands, in every such run and both ways.
  lemma OutstandingStaysFresh(cfgA: TCPConfig, cfgB: TCPConfig, steps: seq<Step>)
    requires Legal(Opening(cfgA, cfgB), steps) && FittingRun(Opening(cfgA, cfgB), steps)
    requires HarmlessRun(Opening(cfgA, cfgB), steps)
    ensures var c := Run(Opening(cfgA, cfgB), steps); StaysFresh(c.a, c.b) && StaysFresh(c.b, c.a)
  {
    hide DataHalf, AckHalf, Legal, Run, StaysFresh;
    OpeningInv(cfgA, cfgB);
    RunKeepsInv(Opening(cfgA, cfgB), steps);
    var c := Run(Opening(cfgA, cfgB), steps);
    HalfStaysFresh(c.a, c.b, c.ab, c.ba);
    HalfStaysFresh(c.b, c.a, c.ba, c.ab);
  }

  predicate StaysFresh(p: Peer, q: Peer)
  {
    && p.snd.inFlight <= 65535 + p.snd.zeroAcks
    && (p.snd.zeroAcks < TWO31 - 65536 ==>
          && (forall g <- p.snd.outstanding :: -TWO31 < g.pos - |q.Inbound().written| < TWO31)
          && (q.rcv.syn ==> -TWO31 < q.rcv.NextNeeded() - p.snd.next < TWO31))
  }

  lemma HalfStaysFresh(p: Peer, q: Peer, pq: set<Packet>, qp: set<Packet>)
    requires DataHalf(p, q, pq) && AckHalf(p, q, qp) && WithinBudget(p.snd)
    ensures StaysFresh(p, q)
  {
    hide DataLinkOk, DataOk, AckOk;
    if p.snd.zeroAcks < TWO31 - 65536 {
      CurrentMessagesAreFresh(p.snd, p.out, q.rcv);
    }
  }

  // --- Closing ---

  // The FIN is delivered where the receiver can place the end of the stream.
  predicate Careful(c: Conn, s: Step)
  {
    Heard(c, s) ==> FinOk(Here(c, s).rcv, s.action.k)
  }

  predicate CarefulRun(c: Conn, steps: seq<Step>)
    decreases steps
  {
    steps == [] || (Careful(c, steps[0]) && CarefulRun(Next(c, steps[0]), steps[1..]))
  }

  predicate EndInv(c: Conn)
  {
    EndOk(c.a.out, c.b.rcv) && EndOk(c.b.out, c.a.rcv)
  }

  lemma ActKeepsEnd(p: Peer, q: Peer, pq: set<Packet>, qp: set<Packet>, action: Action)
    requires DataHalf(p, q, pq) && DataHalf(q, p, qp)
    requires action.Deliver? ==> action.k in qp
    requires action.Deliver? && !action.k.wire.reset && !p.Inbound().error ==>
               Fitting(p.rcv, action.k.wire.sender, Sent(q.out)) && FinOk(p.rcv, action.k)
    requires EndOk(p.out, q.rcv) && EndOk(q.out, p.rcv)
    ensures var p' := Act(p, action).0; EndOk(p'.out, q.rcv) && EndOk(q.out, p'.rcv)
  {
    hide DataOk, Fitting, FinOk, Layout, AllOk, SenderModel.Push, SenderModel.MaybeSend, SenderModel.Tick,
         ReceiverModel.Receive, SenderModel.Receive;
    var p' := Act(p, action).0;
    assert q.rcv.fin ==> p.out.closed;
    if action.Deliver? {
      if !action.k.wire.reset && !p.Inbound().error {
        DataArrivesEnd(q.snd, q.out, p.rcv, qp, action.k);
      }
    } else {
      PushKeepsWritten(p);
      assert q.rcv.fin ==> p'.out.written == p.out.written;
    }
  }

  lemma PushKeepsWritten(p: Peer)
    ensures Push(p).out.written == p.out.written
    ensures MaybeSend(p).0.out.written == p.out.written
  {
    FillKeepsWritten(p.snd, p.out);
  }

  lemma {:induction false} FillKeepsWritten(s: SenderModel.Sender, out: Stream)
    ensures SenderModel.Fill(s, out).1.written == out.written
    decreases |out.Buffered()|
  {
    if SenderModel.MayFill(s, out) {
      FillKeepsWritten(SenderModel.FillOnce(s, out), out.Pop(SenderModel.ReadSize(s, out)));
    }
  }

  lemma NextKeepsEnd(c: Conn, s: Step)
    requires Inv(c) && Enabled(c, s) && DataFits(c, s) && Careful(c, s) && EndInv(c)
    ensures EndInv(Next(c, s))
  {
    hide DataHalf, Act, Fitting, WithinBudget, FinOk, EndOk;
    if s.atA {
      ActKeepsEnd(c.a, c.b, c.ab, c.ba, s.action);
    } else {
      ActKeepsEnd(c.b, c.a, c.ba, c.ab, s.action);
    }
  }

  lemma {:induction false} RunKeepsEnd(c: Conn, steps: seq<Step>)
    requires Inv(c) && EndInv(c) && Legal(c, steps) && FittingRun(c, steps) && CarefulRun(c, steps)
    ensures EndInv(Run(c, steps))
    decreases steps
  {
    hide Inv, EndInv, Next, Enabled, DataFits, Careful;
    if steps != [] {
      NextKeepsInvExactly(c, steps[0]);
      NextKeepsEnd(c, steps[0]);
      RunKeepsEnd(Next(c, steps[0]), steps[1..]);
    }
  }

  // If each FIN is delivered where its end can be placed, then in every run an inbound stream is
  // closed exactly when the FIN was seen and the whole stream is there.
  lemma CloseInEveryRun(cfgA: TCPConfig, cfgB: TCPConfig, steps: seq<Step>)
    requires Legal(Opening(cfgA, cfgB), steps) && FittingRun(Opening(cfgA, cfgB), steps)
    requires CarefulRun(Opening(cfgA, cfgB), steps)
    ensures var c := Run(Opening(cfgA, cfgB), steps); ClosesAtEnd(c.a, c.b) && ClosesAtEnd(c.b, c.a)
  {
    hide DataHalf, Legal, Run, WithinBudget, ClosesAtEnd, EndOk;
    OpeningInv(cfgA, cfgB);
    RunKeepsInv(Opening(cfgA, cfgB), steps);
    RunKeepsEnd(Opening(cfgA, cfgB), steps);
    var c := Run(Opening(cfgA, cfgB), steps);
    HalfClosesAtEnd(c.a, c.b, c.ab);
    HalfClosesAtEnd(c.b, c.a, c.ba);
  }

  predicate ClosesAtEnd(p: Peer, q: Peer)
  {
    && (q.Inbound().closed <==> q.rcv.fin && q.Inbound().written == p.out.written)
    && (q.Inbound().closed ==> p.out.closed)
  }

  lemma HalfClosesAtEnd(p: Peer, q: Peer, pq: set<Packet>)
    requires DataHalf(p, q, pq) && EndOk(p.out, q.rcv)
    ensures ClosesAtEnd(p, q)
  {
    hide DataOk, Layout, AllOk, EndKnown;
  }

  // If moreover every acknowledgment is harmless, no byte at all is forgotten, and a peer that
  // becomes inactive has had its whole stream delivered.
  lemma CloseIsExact(cfgA: TCPConfig, cfgB: TCPConfig, steps: seq<Step>)
    requires Legal(Opening(cfgA, cfgB), steps) && FittingRun(Opening(cfgA, cfgB), steps)
    requires HarmlessRun(Opening(cfgA, cfgB), steps) && CarefulRun(Opening(cfgA, cfgB), steps)
    ensures var c := Run(Opening(cfgA, cfgB), steps); ClosesExactly(c.a, c.b) && ClosesExactly(c.b, c.a)
  {
    hide DataHalf, AckHalf, Legal, Run, WithinBudget, ClosesExactly, EndOk;
    OpeningInv(cfgA, cfgB);
    RunKeepsInv(Opening(cfgA, cfgB), steps);
    RunKeepsEnd(Opening(cfgA, cfgB), steps);
    var c := Run(Opening(cfgA, cfgB), steps);
    HalfCloses(c.a, c.b, c.ab, c.ba);
    HalfCloses(c.b, c.a, c.ba, c.ab);
  }

  predicate ClosesExactly(p: Peer, q: Peer)
  {
    && ClosesAtEnd(p, q)
    && (forall i: nat | i < p.out.read :: Safe(p, q, i))
    && (!p.Active() && !p.Inbound().error ==> q.Inbound().written == p.out.written)
    && (!p.Active()
        <==> p.Inbound().error || (p.Inbound().closed && p.out.Finished() && p.snd.outstanding == []))
  }

  lemma NothingInFlight(snd: SenderModel.Sender, out: Stream)
    requires Ok(snd, out)
    ensures snd.inFlight == 0 <==> snd.outstanding == []
  {
    hide AllOk, Payloads, IsSuffix;
    if snd.outstanding != [] {
      TilesOrdered(snd.outstanding, snd.Unacked(), snd.next, 0);
    }
  }

  lemma HalfCloses(p: Peer, q: Peer, pq: set<Packet>, qp: set<Packet>)
    requires DataHalf(p, q, pq) && AckHalf(p, q, qp) && EndOk(p.out, q.rcv)
    ensures ClosesExactly(p, q)
  {
    hide DataOk, AckOk, DataLinkOk, Safe, EndOk, Ok;
    HalfDelivers(p, q, pq, qp);
    HalfClosesAtEnd(p, q, pq);
    HalfParts(p, q, pq);
    NothingInFlight(p.snd, p.out);
    if !p.Active() && !p.Inbound().error {
      AllAcknowledgedIsDelivered(p.snd, p.out, q.rcv);
      assert p.out.written[..p.out.read] == p.out.written;
    }
    forall i: nat | i < p.out.read
      ensures Safe(p, q, i)
    {
      if q.Inbound().closed && i == |q.Inbound().written| {
        assert false;
      }
    }
  }

  // In every such run, with few zero-window acks: whenever the oldest outstanding message of a peer is
  // sent again and delivered into a window with room for it, with whatever acknowledgment, the other peer's
  // next segment takes it out of the queue.
  lemma RetransmissionsGetThrough(cfgA: TCPConfig, cfgB: TCPConfig, steps: seq<Step>, m: ReceiverMessage)
    requires Legal(Opening(cfgA, cfgB), steps) && FittingRun(Opening(cfgA, cfgB), steps)
    requires HarmlessRun(Opening(cfgA, cfgB), steps) && CarefulRun(Opening(cfgA, cfgB), steps)
    ensures var c := Run(Opening(cfgA, cfgB), steps);
            && (c.a.snd.zeroAcks < TWO31 - 65536 ==> Progresses(c.a, c.b, m))
            && (c.b.snd.zeroAcks < TWO31 - 65536 ==> Progresses(c.b, c.a, m))
  {
    hide DataHalf, AckHalf, Legal, Run, Progresses, EndOk;
    OpeningInv(cfgA, cfgB);
    RunKeepsInv(Opening(cfgA, cfgB), steps);
    RunKeepsEnd(Opening(cfgA, cfgB), steps);
    var c := Run(Opening(cfgA, cfgB), steps);
    if c.a.snd.zeroAcks < TWO31 - 65536 {
      HalfProgresses(c.a, c.b, c.ab, c.ba, m);
    }
    if c.b.snd.zeroAcks < TWO31 - 65536 {
      HalfProgresses(c.b, c.a, c.ba, c.ab, m);
    }
  }

  // No error has ended the conversation, and there is room for the oldest message of p.
  predicate CanProgress(p: Peer, q: Peer)
  {
    && !p.Inbound().error && !q.Inbound().error && !q.out.error
    && p.snd.outstanding != [] && q.rcv.syn && HasRoom(q.rcv, p.snd.outstanding[0])
  }

  function Resent(p: Peer, m: ReceiverMessage): Segment
    requires p.snd.outstanding != []
  {
    Segment(p.snd.outstanding[0].Wire(p.snd.isn), m, false)
  }

  predicate Progresses(p: Peer, q: Peer, m: ReceiverMessage)
  {
    CanProgress(p, q) ==>
      var answer := MaybeSend(Receive(q, Resent(p, m))).1;
      answer.Some? && |Receive(p, answer.value.wire).snd.outstanding| < |p.snd.outstanding|
  }

  lemma HalfProgresses(p: Peer, q: Peer, pq: set<Packet>, qp: set<Packet>, m: ReceiverMessage)
    requires DataHalf(p, q, pq) && AckHalf(p, q, qp) && EndOk(p.out, q.rcv) && p.snd.inFlight < TWO31 - 1
    ensures Progresses(p, q, m)
  {
    hide DataLinkOk, DataOk, AckOk, EndOk, HasRoom, SenderModel.Receive, ReceiverModel.Receive, MaybeSend;
    if CanProgress(p, q) {
      var g := p.snd.outstanding[0];
      RetransmissionGetsThrough(p.snd, p.out, q.rcv);
      HalfParts(p, q, pq);
      OldestOccupies(p.snd, p.out);
      IsAnswered(q, Resent(p, m));
      TellsIsAcknowledge(MaybeSend(Receive(q, Resent(p, m))).1.value.wire.receiver,
                         ReceiverModel.Receive(q.rcv, g.Wire(p.snd.isn)));
    }
  }

  lemma OldestOccupies(snd: SenderModel.Sender, out: Stream)
    requires Ok(snd, out) && snd.outstanding != []
    ensures snd.outstanding[0].Wire(snd.isn).SequenceLength() > 0
  {
    hide AllOk, Payloads, IsSuffix;
  }

  lemma TellsIsAcknowledge(m: ReceiverMessage, r: ReceiverModel.Receiver)
    ensures Tells(m, r) <==> m == ReceiverModel.Acknowledge(r)
  {
  }
}
