// What the sender (src/tcp_sender.cc) does to its state. Its messages carry their absolute sequence
// numbers here; where the program has to recover one from 32 bits, so does Receive. The class in
// TCPSender.dfy does the same and keeps the 32-bit numbers only.
module SenderModel {
  import opened Words
  import opened WrappingIntegers
  import opened Messages
  import opened ByteStreams

  const MAX_PAYLOAD_SIZE: int := 1000

  // A message of the sender, placed at its absolute sequence number.
  datatype Seg = Seg(pos: nat, syn: bool, payload: seq<Byte>, fin: bool)
  {
    function Len(): nat { Bit(syn) + |payload| + Bit(fin) }

    function End(): nat { pos + Len() }

    function Wire(isn: U32): SenderMessage
    {
      SenderMessage(Wrap(pos, isn), syn, payload, fin)
    }
  }

  datatype Sender = Sender(
    isn: U32,
    initialRto: U64,
    queue: seq<Seg>,
    outstanding: seq<Seg>,
    next: nat,
    inFlight: nat,
    retransmissions: nat,
    rto: U64,
    windowSize: U16,
    windowSpace: U16,
    elapsed: U64,
    syn: bool,
    fin: bool,
    freeWindow: bool,
    // History: every message in the order of its first transmission, the number of accepted
    // acks with a zero window, and the time since the timer was last reset.
    created: seq<Seg>,
    zeroAcks: nat,
    sinceReset: nat)
  {
    predicate SynOutstanding()
    {
      outstanding != [] && outstanding[0].syn
    }

    predicate ZeroWindow()
    {
      windowSize == 0 && windowSpace == 0
    }

    // The first sequence number that is not acknowledged.
    function Unacked(): int { next - inFlight }
  }

  function NewSender(isn: U32, initialRto: U64): Sender
  {
    Sender(isn, initialRto, [], [], 0, 0, 0, initialRto, 1, 1, 0, false, false, false, [], 0, 0)
  }

  // --- Sending ---

  // Sends a new message (update_status).
  function Emit(s: Sender, g: Seg): Sender
  {
    s.(next := s.next + g.Len(),
       inFlight := s.inFlight + g.Len(),
       windowSpace := ToU16(s.windowSpace - g.Len()),
       queue := s.queue + [g],
       outstanding := s.outstanding + [g],
       created := s.created + [g])
  }

  // The SYN takes one number of the window even when it carries a FIN.
  function PushSyn(s: Sender, out: Stream): Sender
  {
    var g := Seg(s.next, true, [], out.Finished());
    Emit(s, g).(syn := true, fin := s.fin || g.fin, windowSpace := ToU16(s.windowSpace - 1))
  }

  predicate MayFill(s: Sender, out: Stream)
  {
    |out.Buffered()| > 0 && (s.windowSpace > 0 || s.ZeroWindow())
  }

  // A zero window is treated as a window of one, once per ack.
  function OpenWindow(s: Sender): Sender
  {
    if s.ZeroWindow() then s.(windowSize := 1, windowSpace := 1, freeWindow := true) else s
  }

  function ReadSize(s: Sender, out: Stream): nat
  {
    if s.ZeroWindow() then 1 else Min(Min(|out.Buffered()|, s.windowSpace), MAX_PAYLOAD_SIZE)
  }

  // The next data message; it carries the FIN if the stream is finished and a number is left for it.
  function NextSeg(s: Sender, out: Stream): Seg
    requires MayFill(s, out)
  {
    var n := ReadSize(s, out);
    Seg(s.next, false, out.Buffered()[..n], out.Pop(n).Finished() && OpenWindow(s).windowSpace > n)
  }

  function FillOnce(s: Sender, out: Stream): Sender
    requires MayFill(s, out)
  {
    var g := NextSeg(s, out);
    Emit(OpenWindow(s).(fin := s.fin || g.fin), g)
  }

  function Fill(s: Sender, out: Stream): (Sender, Stream)
    decreases |out.Buffered()|
  {
    if MayFill(s, out) then Fill(FillOnce(s, out), out.Pop(ReadSize(s, out))) else (s, out)
  }

  function PushFin(s: Sender): Sender
  {
    Emit(s.(fin := true), Seg(s.next, false, [], true))
  }

  function Push(s: Sender, out: Stream): (Sender, Stream)
  {
    if !s.syn then (PushSyn(s, out), out)
    else if s.fin || s.SynOutstanding() then (s, out)
    else if |out.Buffered()| > 0 then Fill(s, out)
    else if out.Finished() && (s.windowSpace > 0 || s.ZeroWindow()) then (PushFin(s), out)
    else (s, out)
  }

  function MaybeSend(s: Sender): (Sender, Option<Seg>)
  {
    if s.queue == [] then (s, None) else (s.(queue := s.queue[1..]), Some(s.queue[0]))
  }

  function EmptyMessage(s: Sender): Seg
  {
    Seg(s.next, false, [], false)
  }

  // --- Acknowledgments ---

  // How many messages at the front end at or below k.
  function AckedCount(gs: seq<Seg>, k: nat): (n: nat)
    ensures n <= |gs|
    ensures forall i :: 0 <= i < n ==> gs[i].End() <= k
    ensures n < |gs| ==> gs[n].End() > k
  {
    if gs == [] || gs[0].End() > k then 0 else 1 + AckedCount(gs[1..], k)
  }

  function TotalLen(gs: seq<Seg>): nat
  {
    if gs == [] then 0 else gs[0].Len() + TotalLen(gs[1..])
  }

  predicate Acceptable(s: Sender, k: nat)
  {
    k <= s.next && (s.outstanding == [] || k >= s.outstanding[0].pos)
  }

  // An accepted ack with window w takes the first n messages out of the flight.
  function Released(s: Sender, n: nat, w: U16): Sender
    requires n <= |s.outstanding|
  {
    var inFlight := ToU64(s.inFlight - TotalLen(s.outstanding[..n]));
    var s' := s.(windowSize := w,
                 windowSpace := if w >= inFlight then w - inFlight else 0,
                 freeWindow := false,
                 inFlight := inFlight,
                 outstanding := s.outstanding[n..],
                 zeroAcks := s.zeroAcks + Bit(w == 0));
    if n > 0 then s'.(elapsed := 0, rto := s.initialRto, retransmissions := 0, sinceReset := 0) else s'
  }

  // An ack of everything before absolute sequence number k, with window w, as it is meant.
  function Acked(s: Sender, k: nat, w: U16): Sender
  {
    if Acceptable(s, k) then Released(s, AckedCount(s.outstanding, k), w) else s
  }

  // Where the program finds a message: it keeps the 32-bit number only.
  function Found(s: Sender, g: Seg): U64
  {
    Unwrap(g.Wire(s.isn).seqno, s.isn, ToU64(s.next))
  }

  // How many messages at the front are found to end at or below k.
  function FoundCount(s: Sender, gs: seq<Seg>, k: nat): (n: nat)
    ensures n <= |gs|
    ensures forall i :: 0 <= i < n ==> Found(s, gs[i]) + gs[i].Len() <= k
    ensures n < |gs| ==> Found(s, gs[n]) + gs[n].Len() > k
    decreases |gs|
  {
    if gs == [] || Found(s, gs[0]) + gs[0].Len() > k then 0 else 1 + FoundCount(s, gs[1..], k)
  }

  predicate Accepts(s: Sender, k: nat)
  {
    k <= s.next && (s.outstanding == [] || k >= Found(s, s.outstanding[0]))
  }

  // The same ack, as the program handles it.
  function Handled(s: Sender, k: nat, w: U16): Sender
  {
    if Accepts(s, k) then Released(s, FoundCount(s, s.outstanding, k), w) else s
  }

  function Receive(s: Sender, m: ReceiverMessage): Sender
  {
    match m.ackno
    case None => s
    case Some(ackno) => Handled(s, Unwrap(ackno, s.isn, ToU64(s.next)), m.windowSize)
  }

  // --- Time ---

  function Tick(s: Sender, ms: nat): Sender
  {
    if s.outstanding == [] then s
    else
      var elapsed := ToU64(s.elapsed + ms);
      var s' := s.(elapsed := elapsed, sinceReset := s.sinceReset + ms);
      if elapsed < s.rto then s'
      else
        var resent := s'.(elapsed := 0, queue := s.queue + [s.outstanding[0]]);
        if (s.windowSize != 0 || s.outstanding[0].syn) && !s.freeWindow then
          resent.(retransmissions := s.retransmissions + 1, rto := ToU64(s.rto * 2))
        else resent
  }
}
