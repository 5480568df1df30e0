// Runs in which more is in flight than the receiver's window.
module ShortRuns {
  import opened Words
  import opened WrappingIntegers
  import opened Messages
  import opened SenderModel

  // An ack of exactly the oldest message, early in a connection.
  lemma FirstIsAcked(s: Sender, k: nat, w: U16)
    requires s.next < TWO31 && forall g <- s.outstanding :: g.pos <= s.next
    requires s.outstanding != [] && s.outstanding[0].End() <= k <= s.next
    requires |s.outstanding| > 1 ==> s.outstanding[1].End() > k
    ensures Receive(s, ReceiverMessage(Some(Wrap(k, s.isn)), w)) == Released(s, 1, w)
    ensures TotalLen(s.outstanding[..1]) == s.outstanding[0].Len()
  {
    hide Unwrap, Wrap, Released;
    var gs := s.outstanding;
    assert gs[0] in gs;
    UnwrapWrap(k, s.isn, s.next);
    UnwrapWrap(gs[0].pos, s.isn, s.next);
    if |gs| > 1 {
      assert gs[1] in gs && gs[1..][0] == gs[1];
      UnwrapWrap(gs[1].pos, s.isn, s.next);
    }
    assert gs[..1] == [gs[0]] && [gs[0]][1..] == [];
  }

  // An ack of nothing new, early in a connection, is accepted for its window.
  lemma NothingIsAcked(s: Sender, k: nat, w: U16)
    requires s.next < TWO31 && k <= s.next
    requires s.outstanding != [] ==> s.outstanding[0].pos <= k < s.outstanding[0].End()
    ensures Receive(s, ReceiverMessage(Some(Wrap(k, s.isn)), w)) == Released(s, 0, w)
    ensures TotalLen(s.outstanding[..0]) == 0
  {
    hide Unwrap, Wrap, Released;
    UnwrapWrap(k, s.isn, s.next);
    if s.outstanding != [] {
      UnwrapWrap(s.outstanding[0].pos, s.isn, s.next);
    }
    assert s.outstanding[..0] == [];
  }
}

module Overruns {
  import opened Words
  import opened WrappingIntegers
  import opened Messages
  import opened SenderModel
  import opened SenderRuns
  import opened ShortRuns

  // The SYN is acknowledged with a zero window, two bytes are written, and a probe goes out; the same
  // ack arrives once more, and a second probe joins the first.
  function TwoProbes(isn: U32, initialRto: U64, data: seq<Byte>): seq<Event>
  {
    var ack := AckArrives(ReceiverMessage(Some(Wrap(1, isn)), 0));
    [PushBytes, ack, Write(data), PushBytes, ack, PushBytes]
  }

  lemma TwoInFlightAgainstZeroWindow(isn: U32, initialRto: U64, capacity: nat, data: seq<Byte>)
    requires |data| == 2 <= capacity
    ensures ApplyAll(Start(isn, initialRto, capacity), TwoProbes(isn, initialRto, data)).snd.inFlight == 2
  {
    var es := TwoProbes(isn, initialRto, data);
    var c0 := Start(isn, initialRto, capacity);
    var c1 := Apply(c0, es[0]);
    FirstIsAcked(c1.snd, 1, 0);
    var c2 := Apply(c1, es[1]);
    var c3 := Apply(c2, es[2]);
    hide Wrap, Apply, SenderModel.Receive;
    OneProbe(c3);
    var c4 := Apply(c3, es[3]);
    NothingIsAcked(c4.snd, 1, 0);
    AckIsReceived(c4, ReceiverMessage(Some(Wrap(1, isn)), 0));
    var c5 := Apply(c4, es[4]);
    OneProbe(c5);
    SixSteps(c0, es);
  }

  lemma AckIsReceived(c: Side, ack: ReceiverMessage)
    ensures Apply(c, AckArrives(ack)) == c.(snd := SenderModel.Receive(c.snd, ack))
  {
  }

  lemma SixSteps(c: Side, es: seq<Event>)
    requires |es| == 6
    ensures ApplyAll(c, es)
            == Apply(Apply(Apply(Apply(Apply(Apply(c, es[0]), es[1]), es[2]), es[3]), es[4]), es[5])
  {
    hide Apply;
    var c3 := Apply(Apply(Apply(c, es[0]), es[1]), es[2]);
    ThreeSteps(c, es);
    ThreeSteps(c3, es[3..]);
    assert es[3..][3..] == [];
  }

  lemma ThreeSteps(c: Side, es: seq<Event>)
    requires |es| >= 3
    ensures ApplyAll(c, es) == ApplyAll(Apply(Apply(Apply(c, es[0]), es[1]), es[2]), es[3..])
  {
    hide Apply;
    assert es[1..][1..] == es[2..] && es[2..][1..] == es[3..];
    assert ApplyAll(Apply(c, es[0]), es[1..]) == ApplyAll(Apply(Apply(c, es[0]), es[1]), es[2..]);
  }

  // A zero window is probed with one byte, whatever is in flight already.
  lemma OneProbe(c: Side)
    requires c.snd.syn && !c.snd.fin && !c.snd.SynOutstanding() && c.snd.ZeroWindow()
    requires |c.out.Buffered()| > 0
    ensures var c' := Apply(c, PushBytes);
            && c'.out == c.out.Pop(1)
            && c'.snd.next == c.snd.next + 1 && c'.snd.inFlight == c.snd.inFlight + 1
            && c'.snd.outstanding == c.snd.outstanding + [Seg(c.snd.next, false, c.out.Buffered()[..1], false)]
            && c'.snd.syn && !c'.snd.fin && c'.snd.isn == c.snd.isn
  {
    var s', out' := FillOnce(c.snd, c.out), c.out.Pop(1);
    assert Fill(s', out') == (s', out');
  }

  // An ack of nothing comes before the SYN, and the finished stream makes a SYN with a FIN: two numbers
  // against any window, even 0 or 1.
  lemma EarlyAckBoundsNothing(isn: U32, initialRto: U64, capacity: nat, w: U16)
    ensures var c := Start(isn, initialRto, capacity);
            && Accepts(c.snd, 0)
            && ApplyAll(c.(snd := Handled(c.snd, 0, w)), [CloseStream, PushBytes]).snd.inFlight == 2
  {
    var c := Start(isn, initialRto, capacity);
    var c' := c.(snd := Handled(c.snd, 0, w));
    assert c.snd.outstanding[..0] == [];
    assert Handled(c.snd, 0, w) == Released(c.snd, 0, w);
    assert [CloseStream, PushBytes][1..] == [PushBytes] && [PushBytes][1..] == [];
    assert ApplyAll(Apply(c', CloseStream), [PushBytes]) == Apply(Apply(c', CloseStream), PushBytes);
  }
}
