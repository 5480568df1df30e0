// A run in which a byte is lost: the stream is "x"; the message that carries it is lost in the
// network, and the empty message with the FIN arrives out of order. The receiver closes its
// stream, acknowledges one number too many, and the sender drops its copy of the byte.
module EarlyClose {
  import opened Words
  import opened WrappingIntegers
  import opened Messages
  import opened ByteStreams
  import opened Reassembly
  import R = ReceiverModel
  import S = SenderModel
  import opened SenderRuns
  import opened ShortRuns

  const X: Byte := 120

  const TheSyn: S.Seg := S.Seg(0, true, [], false)
  const TheByte: S.Seg := S.Seg(1, false, [X], false)
  const TheFin: S.Seg := S.Seg(2, false, [], true)

  // The sender after its SYN was acknowledged, and it sent the byte and then the FIN.
  function SenderSide(): Side
  {
    Apply(Apply(Apply(Apply(Apply(Apply(
      Start(0, 1000, 10), PushBytes), AckArrives(ReceiverMessage(Some(Wrap(1, 0)), 10))),
      Write([X])), PushBytes), CloseStream), PushBytes)
  }

  // The receiver after the SYN and the FIN arrived.
  function ReceiverSide(c: Side): R.Receiver
    requires |c.snd.created| == 3
  {
    R.Receive(R.Receive(R.NewReceiver(10), c.snd.created[0].Wire(0)), c.snd.created[2].Wire(0))
  }

  lemma Syn() returns (c: Side)
    ensures c == Apply(Apply(Start(0, 1000, 10), PushBytes), AckArrives(ReceiverMessage(Some(Wrap(1, 0)), 10)))
    ensures c.out == EmptyStream(10)
    ensures c.snd.outstanding == [] && c.snd.created == [TheSyn] && c.snd.next == 1 && c.snd.inFlight == 0
    ensures c.snd.syn && !c.snd.fin && c.snd.windowSize == c.snd.windowSpace == 10 && c.snd.isn == 0
  {
    hide Wrap, S.FoundCount, S.TotalLen, S.Receive;
    var c1 := Apply(Start(0, 1000, 10), PushBytes);
    assert c1.snd.outstanding == [TheSyn] && c1.snd.next == 1 && c1.snd.inFlight == 1;
    FirstIsAcked(c1.snd, 1, 10);
    assert [TheSyn][1..] == [];
    c := c1.(snd := S.Released(c1.snd, 1, 10));
  }

  lemma SendByte(c: Side) returns (c': Side)
    requires c.out == EmptyStream(10)
    requires c.snd.outstanding == [] && c.snd.created == [TheSyn] && c.snd.next == 1 && c.snd.inFlight == 0
    requires c.snd.syn && !c.snd.fin && c.snd.windowSize == c.snd.windowSpace == 10 && c.snd.isn == 0
    ensures c' == Apply(Apply(c, Write([X])), PushBytes)
    ensures c'.out == StreamData(10, [X], 1, false, false)
    ensures c'.snd.outstanding == [TheByte] && c'.snd.created == [TheSyn, TheByte]
    ensures c'.snd.next == 2 && c'.snd.inFlight == 1
    ensures c'.snd.syn && !c'.snd.fin && c'.snd.windowSize == 10 && c'.snd.windowSpace == 9 && c'.snd.isn == 0
  {
    var c1 := Apply(c, Write([X]));
    assert c1.out == StreamData(10, [X], 0, false, false);
    assert c1.out.Buffered() == [X];
    assert S.NextSeg(c1.snd, c1.out) == TheByte;
    var s1, out1 := S.FillOnce(c1.snd, c1.out), c1.out.Pop(1);
    assert out1.Buffered() == [];
    assert S.Fill(s1, out1) == (s1, out1);
    c' := Apply(c1, PushBytes);
  }

  lemma SendFin(c: Side) returns (c': Side)
    requires c.out == StreamData(10, [X], 1, false, false)
    requires c.snd.outstanding == [TheByte] && c.snd.created == [TheSyn, TheByte]
    requires c.snd.next == 2 && c.snd.inFlight == 1
    requires c.snd.syn && !c.snd.fin && c.snd.windowSize == 10 && c.snd.windowSpace == 9 && c.snd.isn == 0
    ensures c' == Apply(Apply(c, CloseStream), PushBytes)
    ensures c'.out == StreamData(10, [X], 1, true, false)
    ensures c'.snd.outstanding == [TheByte, TheFin] && c'.snd.created == [TheSyn, TheByte, TheFin]
    ensures c'.snd.next == 3 && c'.snd.inFlight == 2 && c'.snd.isn == 0
  {
    c' := Apply(Apply(c, CloseStream), PushBytes);
  }

  // The receiver after the SYN.
  lemma SynArrives() returns (r: R.Receiver)
    ensures r == R.Receive(R.NewReceiver(10), TheSyn.Wire(0))
    ensures r == R.NewReceiver(10).(syn := true)
  {
    hide Unwrap, Wrap;
    WrapZero();
    r := R.NewReceiver(10).(syn := true);
    UnwrapWrap(0, 0, 0);
    assert Merge(r.asm, 0, []) == map[];
  }

  lemma Receiver() returns (r: R.Receiver)
    ensures r == R.Receive(R.Receive(R.NewReceiver(10), TheSyn.Wire(0)), TheFin.Wire(0))
    ensures r.asm.out.closed && r.asm.out.written == [] && R.Acknowledge(r).ackno == Some(Wrap(2, 0))
  {
    hide Unwrap, Wrap;
    var r1 := SynArrives();
    UnwrapWrap(2, 0, 0);
    assert R.ReadAt(r1, TheFin.Wire(0)) == 2;
    r := R.Accept(r1, 2, TheFin.Wire(0));
    assert r == r1.(fin := true, asm := Insert(r1.asm, 1, [], true));
    assert Merge(r1.asm, 1, []) == map[];
    assert From(map[], 0) == map[];
  }

  lemma WrapZero()
    ensures Wrap(0, 0) == 0
  {
  }

  // The byte has been taken from the stream, the receiver has closed without it, and after the
  // receiver's ack the sender keeps only the FIN.
  lemma ByteIsForgotten()
    ensures var c := SenderSide();
            && |c.snd.created| == 3 && c.out.written == [X] && c.out.read == 1
            && var r := ReceiverSide(c);
            && r.asm.out.closed && r.asm.out.written == []
            && S.Receive(c.snd, R.Acknowledge(r)).outstanding == [TheFin]
  {
    var c2 := Syn();
    var c4 := SendByte(c2);
    var c6 := SendFin(c4);
    hide Apply, R.Receive, S.Receive, Wrap, S.FoundCount, S.TotalLen;
    var r := Receiver();
    FirstIsAcked(c6.snd, 2, R.Acknowledge(r).windowSize);
    assert [TheByte, TheFin][1..] == [TheFin];
  }
}
