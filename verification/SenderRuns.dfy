// Whole runs of one sender: arbitrary acks arrive, arbitrary time passes, and the application
// writes and closes its stream in between.
module SenderRuns {
  import opened Words
  import opened WrappingIntegers
  import opened Messages
  import opened ByteStreams
  import opened SenderModel
  import opened SenderSafety

  datatype Side = Side(snd: Sender, out: Stream)

  datatype Event =
    | Write(data: seq<Byte>)
    | CloseStream
    | PushBytes
    | TakeMessage
    | AckArrives(ack: ReceiverMessage)
    | Elapse(ms: nat)

  // Nothing is written after the stream was closed, and the 64-bit counters never overflow.
  predicate MayWrite(out: Stream, data: seq<Byte>)
  {
    !out.closed && |out.written| + |data| + 2 < TWO64
  }

  function Apply(c: Side, e: Event): Side
  {
    match e
    case Write(data) => if MayWrite(c.out, data) then c.(out := c.out.Push(data)) else c
    case CloseStream => c.(out := c.out.Close())
    case PushBytes => var (s, out) := Push(c.snd, c.out); Side(s, out)
    case TakeMessage => c.(snd := MaybeSend(c.snd).0)
    case AckArrives(ack) => c.(snd := Receive(c.snd, ack))
    case Elapse(ms) => c.(snd := Tick(c.snd, ms))
  }

  function ApplyAll(c: Side, es: seq<Event>): Side
    decreases es
  {
    if es == [] then c else ApplyAll(Apply(c, es[0]), es[1..])
  }

  function Start(isn: U32, initialRto: U64, capacity: nat): Side
  {
    Side(NewSender(isn, initialRto), EmptyStream(capacity))
  }

  // --- Stream side and timer steps ---

  lemma StreamGrows(s: Sender, out: Stream, out': Stream)
    requires Ok(s, out)
    requires out.written <= out'.written && out'.read == out.read && |out'.written| + 2 < TWO64
    requires s.fin ==> out'.Finished()
    ensures Ok(s, out') && Extends(s, out, s, out')
  {
    hide Tiles, SegOk, AllOk, IsSuffix, Payloads;
    assert out.written[..out.read] == out'.written[..out.read];
    AllStayOk(s.queue, s, out, s, out');
    AllStayOk(s.created, s, out, s, out');
  }

  lemma WriteOk(s: Sender, out: Stream, data: seq<Byte>)
    requires Ok(s, out) && MayWrite(out, data)
    ensures Ok(s, out.Push(data)) && Extends(s, out, s, out.Push(data))
  {
    hide Layout, AllOk;
    StreamGrows(s, out, out.Push(data));
  }

  lemma CloseOk(s: Sender, out: Stream)
    requires Ok(s, out)
    ensures Ok(s, out.Close()) && Extends(s, out, s, out.Close())
  {
    hide Layout, AllOk;
    StreamGrows(s, out, out.Close());
  }

  lemma SameLayout(s: Sender, s': Sender, out: Stream)
    requires Layout(s, out)
    requires s'.created == s.created && s'.outstanding == s.outstanding
    requires s'.next == s.next && s'.inFlight == s.inFlight
    ensures Layout(s', out)
  {
  }

  lemma OldestIsOk(s: Sender, out: Stream)
    requires Ok(s, out) && s.outstanding != []
    ensures SegOk(s.outstanding[0], s, out)
  {
    hide SegOk, Tiles, Payloads;
    assert s.outstanding[0] in s.created;
  }

  // Only the oldest outstanding message is resent, exactly when the timer expires.
  lemma TickResendsOldest(s: Sender, ms: nat)
    requires s.elapsed + ms < TWO64
    ensures var s' := Tick(s, ms);
            && s'.outstanding == s.outstanding && s'.next == s.next
            && s'.queue == if s.outstanding != [] && s.elapsed + ms >= s.rto
                           then s.queue + [s.outstanding[0]] else s.queue
  {
  }

  lemma TickOk(s: Sender, out: Stream, ms: nat)
    requires Ok(s, out)
    ensures Ok(Tick(s, ms), out) && Extends(s, out, Tick(s, ms), out)
    ensures Budget(Tick(s, ms)) == Budget(s) && Tick(s, ms).zeroAcks == s.zeroAcks
    ensures Tick(s, ms).next == s.next && Tick(s, ms).inFlight == s.inFlight
  {
    hide Layout, SegOk, AllOk;
    var s' := Tick(s, ms);
    SameLayout(s, s', out);
    AllStayOk(s.queue, s, out, s', out);
    AllStayOk(s.created, s, out, s', out);
    if s.outstanding != [] {
      OldestIsOk(s, out);
      SegStaysOk(s.outstanding[0], s, out, s', out);
      AllOkAppend(s.queue, s', out, s.outstanding[0]);
    }
  }

  lemma ReceiveOk(s: Sender, out: Stream, m: ReceiverMessage)
    requires Ok(s, out)
    ensures Ok(Receive(s, m), out) && Extends(s, out, Receive(s, m), out)
    ensures WithinBudget(s) ==> WithinBudget(Receive(s, m))
  {
    hide Ok, Handled, Extends, Unwrap;
    NothingHappens(s, out);
    if m.ackno.Some? {
      HandledOk(s, out, Unwrap(m.ackno.value, s.isn, ToU64(s.next)), m.windowSize);
    }
  }

  lemma ApplyOk(c: Side, e: Event)
    requires Ok(c.snd, c.out)
    ensures Ok(Apply(c, e).snd, Apply(c, e).out)
    ensures Extends(c.snd, c.out, Apply(c, e).snd, Apply(c, e).out)
    ensures WithinBudget(c.snd) ==> WithinBudget(Apply(c, e).snd)
    ensures !e.AckArrives? ==>
              Apply(c, e).snd.next + Budget(Apply(c, e).snd) <= c.snd.next + Budget(c.snd)
  {
    hide Layout, AllOk, SegOk, Push, Tick, Receive;
    NothingHappens(c.snd, c.out);
    match e
    case Write(data) =>
      if MayWrite(c.out, data) {
        WriteOk(c.snd, c.out, data);
      }
    case CloseStream => CloseOk(c.snd, c.out);
    case PushBytes => PushOk(c.snd, c.out);
    case TakeMessage => MaybeSendOk(c.snd, c.out);
    case AckArrives(ack) => ReceiveOk(c.snd, c.out, ack);
    case Elapse(ms) => TickOk(c.snd, c.out, ms);
  }

  // --- Theorems about runs ---

  lemma {:induction false} RunsKeepInvariant(c: Side, es: seq<Event>)
    requires Ok(c.snd, c.out) && WithinBudget(c.snd)
    ensures Ok(ApplyAll(c, es).snd, ApplyAll(c, es).out) && WithinBudget(ApplyAll(c, es).snd)
    decreases es
  {
    hide Ok, Apply, WithinBudget;
    if es != [] {
      ApplyOk(c, es[0]);
      RunsKeepInvariant(Apply(c, es[0]), es[1..]);
    }
  }

  // In every run from the start, whatever acks arrive: the messages in flight tile exactly the
  // numbers not acknowledged; the numbers used are the SYN, the bytes taken and the FIN; the
  // payloads in the order of first transmission are the bytes taken; a FIN is created once, last,
  // and after all data; and the flight never exceeds a 16-bit window by more than one number for
  // each zero-window ack.
  lemma SenderIsSafe(isn: U32, initialRto: U64, capacity: nat, es: seq<Event>)
    ensures var c := ApplyAll(Start(isn, initialRto, capacity), es);
            var s := c.snd;
            && Tiles(s.outstanding, s.next - s.inFlight, s.next)
            && s.next == Bit(s.syn) + c.out.read + Bit(s.fin)
            && Payloads(s.created) == c.out.written[..c.out.read]
            && (forall g <- s.created :: |g.payload| <= 1000)
            && (forall i :: 0 <= i < |s.created| && s.created[i].fin ==>
                  i == |s.created| - 1 && c.out.closed && c.out.read == |c.out.written|)
            && s.inFlight <= 65535 + s.zeroAcks
  {
    hide ApplyAll, Payloads, IsSuffix, IsSlice;
    InitOk(isn, initialRto, capacity);
    RunsKeepInvariant(Start(isn, initialRto, capacity), es);
    var c := ApplyAll(Start(isn, initialRto, capacity), es);
    forall g <- c.snd.created
      ensures |g.payload| <= 1000
    {
      assert SegOk(g, c.snd, c.out);
    }
    forall i | 0 <= i < |c.snd.created| && c.snd.created[i].fin
      ensures i == |c.snd.created| - 1 && c.snd.fin
    {
      FinIsLast(c.snd, c.out, i);
    }
  }

  lemma FinIsLast(s: Sender, out: Stream, i: nat)
    requires Ok(s, out) && i < |s.created| && s.created[i].fin
    ensures i == |s.created| - 1 && s.fin
  {
    hide Payloads, IsSuffix, IsSlice, Counts;
    assert s.created[i] in s.created;
    if i < |s.created| - 1 {
      TilesOrdered(s.created, 0, s.next, |s.created| - 1);
    }
  }

  // --- What happens between two acks ---

  predicate NoAcks(es: seq<Event>)
  {
    forall e <- es :: !e.AckArrives?
  }

  // How many sequence numbers can still be created before another ack. A SYN that is yet to be sent
  // carries the FIN if the stream is finished by then, which it is not while bytes are buffered.
  function Reserve(c: Side): nat
  {
    if c.snd.syn then Budget(c.snd) else if |c.out.Buffered()| > 0 then 1 else 2
  }

  lemma ApplySpends(c: Side, e: Event)
    requires Ok(c.snd, c.out) && !e.AckArrives?
    ensures Apply(c, e).snd.next + Reserve(Apply(c, e)) <= c.snd.next + Reserve(c)
    ensures Apply(c, e).snd.Unacked() == c.snd.Unacked()
  {
    hide Layout, AllOk, SegOk, Fill;
    ApplyOk(c, e);
    match e
    case Write(data) =>
    case CloseStream =>
    case PushBytes => PushOk(c.snd, c.out);
    case TakeMessage =>
    case Elapse(ms) =>
  }

  lemma {:induction false} RunsSpendReserve(c: Side, es: seq<Event>)
    requires Ok(c.snd, c.out) && NoAcks(es)
    ensures ApplyAll(c, es).snd.next + Reserve(ApplyAll(c, es)) <= c.snd.next + Reserve(c)
    ensures ApplyAll(c, es).snd.Unacked() == c.snd.Unacked()
    decreases es
  {
    hide Ok, Apply, Reserve;
    if es != [] {
      assert es[0] in es;
      ApplyOk(c, es[0]);
      ApplySpends(c, es[0]);
      RunsSpendReserve(Apply(c, es[0]), es[1..]);
    }
  }

  // After an accepted ack with window w that leaves f numbers in flight, at most w - f numbers
  // are created before the next ack if w > f, none if 0 < w <= f, and at most one if w is zero. An
  // ack that comes before the SYN was sent bounds nothing: the SYN goes out with or without a FIN.
  lemma WindowIsRespected(c: Side, k: nat, w: U16, es: seq<Event>)
    requires Ok(c.snd, c.out) && Accepts(c.snd, k) && NoAcks(es)
    ensures var s := Handled(c.snd, k, w);
            var created := ApplyAll(c.(snd := s), es).snd.next - s.next;
            && (s.syn ==> created <= if w == 0 then 1 else Max(0, w - s.inFlight))
            && (!s.syn ==> created <= if |c.out.Buffered()| > 0 then 1 else 2)
  {
    hide Ok, Apply, Accepts, FoundCount, Released;
    var s := Handled(c.snd, k, w);
    HandledOk(c.snd, c.out, k, w);
    ReleasedBudget(c.snd, c.out, FoundCount(c.snd, c.snd.outstanding, k), w);
    RunsSpendReserve(c.(snd := s), es);
  }

  // When no run up to the next ack lets more than the window, or one probe, be in flight: exactly if
  // what the ack leaves in flight and what it lets through fit together.
  lemma FlightFitsExactly(c: Side, k: nat, w: U16)
    requires Ok(c.snd, c.out) && Accepts(c.snd, k)
    ensures var c' := c.(snd := Handled(c.snd, k, w));
            c'.snd.inFlight + Reserve(c') <= Max(1, w)
            <==> forall es | NoAcks(es) :: ApplyAll(c', es).snd.inFlight <= Max(1, w)
  {
    hide Apply, Accepts, FoundCount, Released, Layout, AllOk;
    var c' := c.(snd := Handled(c.snd, k, w));
    HandledOk(c.snd, c.out, k, w);
    ReleasedBudget(c.snd, c.out, FoundCount(c.snd, c.snd.outstanding, k), w);
    forall es | NoAcks(es)
      ensures ApplyAll(c', es).snd.inFlight <= c'.snd.inFlight + Reserve(c')
    {
      RunsSpendReserve(c', es);
    }
    if c'.snd.inFlight + Reserve(c') > Max(1, w) {
      if c'.snd.inFlight > Max(1, w) {
        assert NoAcks([]) && ApplyAll(c', []) == c';
      } else {
        ClosingSends(c');
        var es := CloseAndPush(c');
      }
    }
  }

  lemma CloseAndPush(c: Side) returns (es: seq<Event>)
    ensures NoAcks(es) && ApplyAll(c, es) == Apply(Apply(c, CloseStream), PushBytes)
  {
    hide Apply;
    es := [CloseStream, PushBytes];
    assert es[1..] == [PushBytes] && es[1..][1..] == [];
  }

  // Closing the stream and pushing sends what is left: SYN and FIN, a probe, or the FIN.
  lemma ClosingSends(c: Side)
    requires Ok(c.snd, c.out)
    requires if c.snd.syn then c.snd.ZeroWindow() && Budget(c.snd) == 1 else |c.out.Buffered()| == 0
    ensures Apply(Apply(c, CloseStream), PushBytes).snd.inFlight == c.snd.inFlight + Reserve(c)
  {
    hide Layout, AllOk;
    var closed := Apply(c, CloseStream);
    CloseOk(c.snd, c.out);
    if |closed.out.Buffered()| > 0 {
      FillOk(closed.snd, closed.out);
      FillOnceCreates(closed.snd, closed.out);
      assert Fill(closed.snd, closed.out)
             == Fill(FillOnce(closed.snd, closed.out), closed.out.Pop(ReadSize(closed.snd, closed.out)));
      assert !MayFill(FillOnce(closed.snd, closed.out), closed.out.Pop(ReadSize(closed.snd, closed.out)));
    }
  }

  // --- What is sent, and in which order ---

  // The messages a step queues for sending: the ones a push creates, or the oldest in flight when the
  // timer expires.
  function Queued(c: Side, e: Event): seq<Seg>
  {
    match e
    case PushBytes =>
      var created := Push(c.snd, c.out).0.created;
      if |c.snd.created| <= |created| then created[|c.snd.created|..] else []
    case Elapse(ms) =>
      if c.snd.outstanding != [] && ToU64(c.snd.elapsed + ms) >= c.snd.rto then [c.snd.outstanding[0]] else []
    case _ => []
  }

  function AllQueued(c: Side, es: seq<Event>): seq<Seg>
    decreases es
  {
    if es == [] then [] else Queued(c, es[0]) + AllQueued(Apply(c, es[0]), es[1..])
  }

  // The messages a step hands to the network.
  function Returned(c: Side, e: Event): seq<Seg>
  {
    if e.TakeMessage? && MaybeSend(c.snd).1.Some? then [MaybeSend(c.snd).1.value] else []
  }

  function HandedOut(c: Side, es: seq<Event>): seq<Seg>
    decreases es
  {
    if es == [] then [] else Returned(c, es[0]) + HandedOut(Apply(c, es[0]), es[1..])
  }

  // What is queued is handed out in order, and a request for a message is in vain only if none is queued.
  lemma StepIsInOrder(c: Side, e: Event)
    requires Ok(c.snd, c.out)
    ensures c.snd.queue + Queued(c, e) == Returned(c, e) + Apply(c, e).snd.queue
    ensures e.TakeMessage? ==> (Returned(c, e) == [] <==> c.snd.queue == [])
    ensures Apply(c, e).snd.created == c.snd.created + (if e.PushBytes? then Queued(c, e) else [])
  {
    hide Ok, Push, FoundCount, Found, Unwrap, TotalLen;
    match e
    case Write(data) =>
    case CloseStream =>
    case PushBytes => PushOk(c.snd, c.out);
    case TakeMessage =>
    case AckArrives(ack) =>
    case Elapse(ms) =>
  }

  lemma {:induction false} RunsAreInOrder(c: Side, es: seq<Event>)
    requires Ok(c.snd, c.out)
    ensures c.snd.queue + AllQueued(c, es) == HandedOut(c, es) + ApplyAll(c, es).snd.queue
    decreases es
  {
    hide Ok, Apply, Queued, Returned;
    if es != [] {
      StepIsInOrder(c, es[0]);
      ApplyOk(c, es[0]);
      RunsAreInOrder(Apply(c, es[0]), es[1..]);
      var c' := Apply(c, es[0]);
      Splice(c.snd.queue, Queued(c, es[0]), Returned(c, es[0]), c'.snd.queue, AllQueued(c', es[1..]),
             HandedOut(c', es[1..]), ApplyAll(c', es[1..]).snd.queue);
    }
  }

  // In every run from the start, what is handed out is, in this order, the first transmissions as they are
  // created and the oldest message in flight at each expiry, up to what still waits in the queue.
  lemma TransmissionsInOrder(isn: U32, initialRto: U64, capacity: nat, es: seq<Event>)
    ensures var c := Start(isn, initialRto, capacity);
            AllQueued(c, es) == HandedOut(c, es) + ApplyAll(c, es).snd.queue
  {
    hide ApplyAll, AllQueued, HandedOut;
    var c := Start(isn, initialRto, capacity);
    InitOk(isn, initialRto, capacity);
    RunsAreInOrder(c, es);
    assert [] + AllQueued(c, es) == AllQueued(c, es);
  }

  // --- The retransmission timer ---

  function Pow2(n: nat): nat
  {
    if n == 0 then 1 else 2 * Pow2(n - 1)
  }

  // The timeout after k doublings.
  function Backoff(initial: nat, k: nat): nat
  {
    initial * Pow2(k)
  }

  lemma BackoffDoubles(initial: nat, k: nat)
    ensures Backoff(initial, k + 1) == 2 * Backoff(initial, k)
  {
    assert Pow2(k + 1) == 2 * Pow2(k);
    assert initial * (2 * Pow2(k)) == 2 * (initial * Pow2(k));
  }

  lemma BackoffStart(initial: nat)
    ensures Backoff(initial, 0) == initial
  {
    assert Pow2(0) == 1;
  }

  // Time is counted without wrapping for as long as it fits into 64 bits.
  ghost predicate TimerOk(s: Sender)
  {
    && (s.outstanding == [] ==>
          s.sinceReset == 0 && s.elapsed == 0 && s.retransmissions == 0 && s.rto == s.initialRto)
    && (s.sinceReset + s.initialRto < TWO64 ==>
          && s.elapsed < s.rto
          && s.rto == Backoff(s.initialRto, s.retransmissions)
          && s.rto + s.elapsed <= s.initialRto + s.sinceReset)
  }

  lemma TickTimer(s: Sender, ms: nat)
    requires TimerOk(s) && s.initialRto > 0
    ensures TimerOk(Tick(s, ms)) && Tick(s, ms).initialRto == s.initialRto
  {
    hide Backoff, ToU64;
    BackoffDoubles(s.initialRto, s.retransmissions);
    FitsIn64Bits(s.elapsed + ms);
    FitsIn64Bits(s.rto * 2);
  }

  lemma FitsIn64Bits(x: nat)
    ensures x < TWO64 ==> ToU64(x) == x
  {
  }

  lemma {:induction false} FillTimer(s: Sender, out: Stream)
    ensures var s' := Fill(s, out).0;
            && s'.initialRto == s.initialRto && s'.rto == s.rto && s'.elapsed == s.elapsed
            && s'.retransmissions == s.retransmissions && s'.sinceReset == s.sinceReset
            && |s'.outstanding| >= |s.outstanding|
    decreases |out.Buffered()|
  {
    if MayFill(s, out) {
      FillTimer(FillOnce(s, out), out.Pop(ReadSize(s, out)));
    }
  }

  lemma ApplyTimer(c: Side, e: Event)
    requires TimerOk(c.snd) && c.snd.initialRto > 0
    ensures TimerOk(Apply(c, e).snd) && Apply(c, e).snd.initialRto == c.snd.initialRto
  {
    hide Backoff, Fill, Tick;
    match e
    case Write(_) =>
    case CloseStream =>
    case TakeMessage =>
    case PushBytes => FillTimer(c.snd, c.out);
    case AckArrives(ack) => ReceiveTimer(c.snd, ack);
    case Elapse(ms) => TickTimer(c.snd, ms);
  }

  lemma ReceiveTimer(s: Sender, m: ReceiverMessage)
    requires TimerOk(s) && s.initialRto > 0
    ensures TimerOk(Receive(s, m)) && Receive(s, m).initialRto == s.initialRto
  {
    hide Unwrap, Backoff, FoundCount, Found, TotalLen;
    BackoffStart(s.initialRto);
  }

  lemma {:induction false} RunsKeepTimer(c: Side, es: seq<Event>)
    requires TimerOk(c.snd) && c.snd.initialRto > 0
    ensures TimerOk(ApplyAll(c, es).snd) && ApplyAll(c, es).snd.initialRto == c.snd.initialRto
    decreases es
  {
    hide Apply;
    if es != [] {
      ApplyTimer(c, es[0]);
      RunsKeepTimer(Apply(c, es[0]), es[1..]);
    }
  }

  // In every run from the start: the timeout is the initial one doubled once for each consecutive
  // backed-off retransmission, the timer is always short of it, nothing in flight means a reset
  // timer, and k backed-off retransmissions take at least initial * (2^k - 1) ms.
  lemma TimerOverRuns(isn: U32, initialRto: U64, capacity: nat, es: seq<Event>)
    requires initialRto > 0
    ensures var s := ApplyAll(Start(isn, initialRto, capacity), es).snd;
            && (s.outstanding == [] ==> s.elapsed == 0 && s.retransmissions == 0 && s.rto == initialRto)
            && (s.sinceReset + initialRto < TWO64 ==>
                  && s.elapsed < s.rto == initialRto * Pow2(s.retransmissions)
                  && initialRto * (Pow2(s.retransmissions) - 1) + s.elapsed <= s.sinceReset)
  {
    hide ApplyAll;
    BackoffStart(initialRto);
    RunsKeepTimer(Start(isn, initialRto, capacity), es);
    var s := ApplyAll(Start(isn, initialRto, capacity), es).snd;
    assert initialRto * (Pow2(s.retransmissions) - 1) == initialRto * Pow2(s.retransmissions) - initialRto;
  }
}
