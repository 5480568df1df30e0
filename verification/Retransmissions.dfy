// The retransmission timer of src/tcp_sender.cc against a record of what happened: which acks were
// accepted and took messages out of the flight, and when the timer expired.
module Retransmissions {
  import opened Words
  import opened WrappingIntegers
  import opened ByteStreams
  import opened SenderModel
  import opened SenderRuns

  // The window of the last accepted ack and how many of them had none; and, since an ack last took messages
  // out of the flight, the expiries that count and the time with messages in flight. The clock goes back to
  // zero at every expiry as well.
  datatype Record = Record(window: U16, zeroAcks: nat, expiries: nat, since: nat, clock: nat)

  const BEGINNING := Record(1, 0, 0, 0, 0)

  predicate Accepted(c: Side, e: Event)
  {
    e.AckArrives? && e.ack.ackno.Some? && Accepts(c.snd, Unwrap(e.ack.ackno.value, c.snd.isn, ToU64(c.snd.next)))
  }

  predicate TakesOut(c: Side, e: Event)
  {
    |Apply(c, e).snd.outstanding| < |c.snd.outstanding|
  }

  // Time passes, and something is queued to be sent again.
  predicate Expires(c: Side, e: Event)
  {
    e.Elapse? && Apply(c, e).snd.queue != c.snd.queue
  }

  // An expiry counts while the SYN is in flight or the last window was open; probes of a zero window do not.
  function Note(r: Record, c: Side, e: Event): Record
  {
    match e
    case AckArrives(ack) =>
      if !Accepted(c, e) then r else
      var r' := r.(window := ack.windowSize, zeroAcks := r.zeroAcks + Bit(ack.windowSize == 0));
      if TakesOut(c, e) then r'.(expiries := 0, since := 0, clock := 0) else r'
    case Elapse(ms) =>
      if c.snd.outstanding == [] then r else
      var r' := r.(since := r.since + ms);
      if !Expires(c, e) then r'.(clock := r.clock + ms)
      else r'.(clock := 0, expiries := r.expiries + Bit(r.window != 0 || c.snd.SynOutstanding()))
    case _ => r
  }

  function NoteAll(r: Record, c: Side, es: seq<Event>): Record
    decreases es
  {
    if es == [] then r else NoteAll(Note(r, c, es[0]), Apply(c, es[0]), es[1..])
  }

  // The sender's counters say what the record says; a window of its own making is one number, for a probe.
  predicate Follows(s: Sender, r: Record)
  {
    && s.retransmissions == r.expiries
    && s.elapsed == ToU64(r.clock) && r.clock <= r.since
    && s.sinceReset == r.since
    && s.zeroAcks == r.zeroAcks
    && s.windowSize == (if s.freeWindow then 1 else r.window)
    && (s.freeWindow ==> r.window == 0 && s.syn && !s.SynOutstanding())
  }

  lemma {:induction false} FillFollows(s: Sender, out: Stream, r: Record)
    requires Follows(s, r) && s.syn && !s.SynOutstanding()
    ensures Follows(Fill(s, out).0, r)
    decreases |out.Buffered()|
  {
    if MayFill(s, out) {
      FillFollows(FillOnce(s, out), out.Pop(ReadSize(s, out)), r);
    }
  }

  lemma TickFollows(c: Side, r: Record, ms: nat)
    requires Follows(c.snd, r)
    ensures Follows(Tick(c.snd, ms), Note(r, c, Elapse(ms)))
  {
    hide ToU64;
    AddsUp(r.clock, ms);
  }

  lemma AddsUp(clock: nat, ms: nat)
    ensures ToU64(ToU64(clock) + ms) == ToU64(clock + ms) && ToU64(0) == 0
  {
  }

  lemma AckFollows(c: Side, r: Record, e: Event)
    requires Follows(c.snd, r) && e.AckArrives?
    ensures Follows(Apply(c, e).snd, Note(r, c, e))
  {
    hide Unwrap, Found, FoundCount, TotalLen;
  }

  lemma ApplyFollows(c: Side, r: Record, e: Event)
    requires Follows(c.snd, r)
    ensures Follows(Apply(c, e).snd, Note(r, c, e))
  {
    hide Fill, Tick, Receive, ToU64;
    match e
    case Write(_) =>
    case CloseStream =>
    case TakeMessage =>
    case PushBytes =>
      if c.snd.syn && !c.snd.SynOutstanding() {
        FillFollows(c.snd, c.out, r);
      }
    case AckArrives(_) => AckFollows(c, r, e);
    case Elapse(ms) => TickFollows(c, r, ms);
  }

  lemma {:induction false} RunsFollow(c: Side, r: Record, es: seq<Event>)
    requires Follows(c.snd, r)
    ensures Follows(ApplyAll(c, es).snd, NoteAll(r, c, es))
    decreases es
  {
    hide Apply, Note, Follows;
    if es != [] {
      ApplyFollows(c, r, es[0]);
      RunsFollow(Apply(c, es[0]), Note(r, c, es[0]), es[1..]);
    }
  }

  // In every run from the start: the consecutive retransmissions are the expiries that count since an ack
  // last took messages out of the flight, the timer shows the time since then or since the last expiry, and
  // the window is the last one accepted, unless it is being probed.
  lemma RetransmissionsAreExpiries(isn: U32, initialRto: U64, capacity: nat, es: seq<Event>)
    ensures var s := ApplyAll(Start(isn, initialRto, capacity), es).snd;
            var r := NoteAll(BEGINNING, Start(isn, initialRto, capacity), es);
            && s.retransmissions == r.expiries
            && s.elapsed == ToU64(r.clock) && r.clock <= r.since
            && s.sinceReset == r.since && s.zeroAcks == r.zeroAcks
            && (s.windowSize == r.window || (s.windowSize == 1 && r.window == 0))
  {
    hide ApplyAll, NoteAll;
    RunsFollow(Start(isn, initialRto, capacity), BEGINNING, es);
  }

  // So the next tick makes the timer expire exactly if that brings the clock to the initial timeout, doubled
  // once for each expiry that counts.
  lemma ExpiresExactly(isn: U32, initialRto: U64, capacity: nat, es: seq<Event>, ms: nat)
    requires initialRto > 0
    ensures var c := ApplyAll(Start(isn, initialRto, capacity), es);
            var r := NoteAll(BEGINNING, Start(isn, initialRto, capacity), es);
            r.since + initialRto < TWO64 && r.clock + ms < TWO64 ==>
              (Expires(c, Elapse(ms))
               <==> c.snd.outstanding != [] && r.clock + ms >= initialRto * Pow2(r.expiries))
  {
    hide ApplyAll, NoteAll, Pow2, ToU64;
    var c := ApplyAll(Start(isn, initialRto, capacity), es);
    var r := NoteAll(BEGINNING, Start(isn, initialRto, capacity), es);
    RetransmissionsAreExpiries(isn, initialRto, capacity, es);
    TimerOverRuns(isn, initialRto, capacity, es);
    FitsIn64Bits(r.clock);
    FitsIn64Bits(r.clock + ms);
  }
}
