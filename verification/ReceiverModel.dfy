// What the receiver (src/tcp_receiver.cc) does to its state: it recovers absolute sequence numbers, keeps what overlaps
// the window, and advertises the next sequence number it needs.
module ReceiverModel {
  import opened Words
  import opened WrappingIntegers
  import opened Messages
  import opened ByteStreams
  import opened Reassembly

  const UINT16_MAX: int := 65535

  // The receiver together with the reassembler and the inbound stream it drives.
  datatype Receiver = Receiver(syn: bool, fin: bool, isn: U32, asm: Assembly)
  {
    // The absolute sequence number the receiver acknowledges; a closed stream counts the FIN.
    function NextNeeded(): nat
    {
      |asm.out.written| + 1 + Bit(fin && asm.out.closed)
    }

    function Window(): U16
    {
      Min(asm.out.Available(), UINT16_MAX)
    }

    ghost predicate Ok()
    {
      && asm.Windowed()
      && asm.eof == fin
      && (asm.out.closed ==> fin)
      && (!syn ==> asm.out.written == [] && asm.pending == map[] && !fin)
    }
  }

  function NewReceiver(capacity: nat): Receiver
  {
    Receiver(false, false, 0, Assembly(map[], false, EmptyStream(capacity)))
  }

  // The stream index of an absolute sequence number.
  function Index(pos: nat): nat
  {
    if pos >= 1 then pos - 1 else pos
  }

  // A message at pos overlaps the window.
  predicate Overlaps(r: Receiver, pos: nat, m: SenderMessage)
  {
    pos < r.NextNeeded() + r.asm.out.Available() && pos + m.SequenceLength() > r.NextNeeded()
  }

  // Handles a message whose absolute sequence number is pos.
  function Accept(r: Receiver, pos: nat, m: SenderMessage): Receiver
  {
    if Overlaps(r, pos, m) then
      var fin := r.fin || m.fin;
      r.(fin := fin, asm := Insert(r.asm, Index(pos), m.payload, fin))
    else r
  }

  // Where the receiver takes a message to be; a first SYN fixes the zero point.
  function ReadAt(r: Receiver, m: SenderMessage): U64
  {
    Unwrap(m.seqno, if r.syn then r.isn else m.seqno, ToU64(|r.asm.out.written|))
  }

  // Before the first SYN everything is ignored; the first SYN fixes the zero point.
  function Receive(r: Receiver, m: SenderMessage): Receiver
  {
    if !r.syn && !m.syn then r
    else
      var r' := if m.syn && !r.syn then r.(syn := true, isn := m.seqno) else r;
      Accept(r', ReadAt(r, m), m)
  }

  function Acknowledge(r: Receiver): ReceiverMessage
  {
    ReceiverMessage(if r.syn then Some(Wrap(r.NextNeeded(), r.isn)) else None, r.Window())
  }

  // The window test admits only substrings that begin at or before the window's edge.
  lemma WindowTestGuardsInsert(r: Receiver, pos: nat, m: SenderMessage)
    ensures Overlaps(r, pos, m) ==> Index(pos) <= r.asm.Edge()
  {
  }

  lemma AcceptKeepsOk(r: Receiver, pos: nat, m: SenderMessage)
    requires r.Ok() && r.syn
    ensures Accept(r, pos, m).Ok() && Accept(r, pos, m).syn
    ensures Accept(r, pos, m).isn == r.isn
    ensures r.asm.out.written <= Accept(r, pos, m).asm.out.written
    ensures Accept(r, pos, m).asm.Edge() == r.asm.Edge()
    ensures r.asm.out.closed ==> Accept(r, pos, m).asm.out.closed
    ensures r.fin ==> Accept(r, pos, m).fin
  {
    InsertKeepsWindowed(r.asm, Index(pos), m.payload, r.fin || m.fin);
  }

  lemma ReceiveKeepsOk(r: Receiver, m: SenderMessage)
    requires r.Ok()
    ensures Receive(r, m).Ok()
    ensures r.syn ==> Receive(r, m).syn && Receive(r, m).isn == r.isn
    ensures r.asm.out.written <= Receive(r, m).asm.out.written
    ensures Receive(r, m).asm.Edge() == r.asm.Edge()
    ensures r.asm.out.closed ==> Receive(r, m).asm.out.closed
    ensures r.fin ==> Receive(r, m).fin
  {
    if r.syn || m.syn {
      var r' := if m.syn && !r.syn then r.(syn := true, isn := m.seqno) else r;
      AcceptKeepsOk(r', ReadAt(r, m), m);
    }
  }

  // --- What is taken from a message ---

  // While the stream is open, out of order or not, every byte of a message that lies below the window's edge
  // becomes known, and nothing else. The one exception is a message at number 0, which is the SYN's, without
  // a SYN: there the last byte of the payload is missed if it is the next one needed.
  lemma TakesExactly(r: Receiver, pos: nat, m: SenderMessage)
    requires r.Ok() && !r.asm.out.closed
    ensures Known(Accept(r, pos, m).asm)
            == Known(r.asm) + (set i | i in Span(Index(pos), m.payload) && i < r.asm.Edge())
            <==> !(pos == 0 && !m.syn && !m.fin && |m.payload| == r.asm.Base() + 1 && r.asm.out.Available() > 0)
  {
    hide Insert;
    var taken := set i | i in Span(Index(pos), m.payload) && i < r.asm.Edge();
    InsertKnown(r.asm, Index(pos), m.payload, r.fin || m.fin);
    if pos == 0 && |m.payload| == r.asm.Base() + 1 && r.asm.out.Available() > 0 {
      assert r.asm.Base() in Span(Index(pos), m.payload);
      assert r.asm.Base() in taken && r.asm.Base() !in Known(r.asm);
    }
  }

  // What is known does not change, and what becomes known is what the message has there.
  lemma TakesBytes(r: Receiver, pos: nat, m: SenderMessage, i: nat)
    requires r.Ok() && i in Known(Accept(r, pos, m).asm)
    ensures i in Known(r.asm) ==> ByteAt(Accept(r, pos, m).asm, i) == ByteAt(r.asm, i)
    ensures i !in Known(r.asm) ==>
              i in Span(Index(pos), m.payload) && ByteAt(Accept(r, pos, m).asm, i) == m.payload[i - Index(pos)]
  {
    hide Insert, Known;
    if Overlaps(r, pos, m) {
      InsertContents(r.asm, Index(pos), m.payload, r.fin || m.fin, i);
    }
  }

  // A FIN is noted if its number is not below the next one needed and the message begins where there is room.
  // A message of which neither is so for its last number leaves no trace.
  lemma NotesFinExactly(r: Receiver, pos: nat, m: SenderMessage)
    requires !r.asm.out.closed
    ensures var last := pos + m.SequenceLength() - 1;
            var room := r.asm.out.capacity - |r.asm.out.Buffered()|;
            && (Accept(r, pos, m).fin
                <==> r.fin || (m.fin && last > r.asm.Base() && pos <= r.asm.Base() + room))
            && (last <= r.asm.Base() || pos > r.asm.Base() + room ==> Accept(r, pos, m) == r)
  {
    hide Insert;
  }

  // --- What is advertised ---

  // The room left for bytes that are not read yet, as far as 16 bits can tell.
  lemma AdvertisesRoom(r: Receiver)
    ensures Acknowledge(r).windowSize == Min(r.asm.out.capacity - |r.asm.out.Buffered()|, 65535)
  {
  }

  // Whatever lies in the advertised window is taken whole, with its FIN; unless 16 bits are too few to tell the
  // room, nothing beyond the window is ever known.
  lemma AdvertisedIsTaken(r: Receiver, pos: nat, m: SenderMessage)
    requires r.Ok() && !r.asm.out.closed && (pos >= 1 || m.syn)
    requires pos + m.SequenceLength() <= r.NextNeeded() + Acknowledge(r).windowSize
    ensures Span(Index(pos), m.payload) <= Known(Accept(r, pos, m).asm)
    ensures m.fin && pos + m.SequenceLength() > r.NextNeeded() ==> Accept(r, pos, m).fin
    ensures Acknowledge(r).windowSize < 65535 ==>
              forall i <- Known(Accept(r, pos, m).asm) :: i + 1 < r.NextNeeded() + Acknowledge(r).windowSize
  {
    hide Insert;
    TakesExactly(r, pos, m);
    NotesFinExactly(r, pos, m);
    var span := Span(Index(pos), m.payload);
    assert forall i <- span :: i < r.asm.Edge();
  }

  // --- What is advertised over a whole run ---

  datatype ReceiverEvent = Arrives(m: SenderMessage) | Reads(len: nat)

  function Handle(r: Receiver, e: ReceiverEvent): Receiver
  {
    match e
    case Arrives(m) => Receive(r, m)
    case Reads(len) => r.(asm := r.asm.(out := r.asm.out.Pop(len)))
  }

  function HandleAll(r: Receiver, es: seq<ReceiverEvent>): Receiver
    decreases es
  {
    if es == [] then r else HandleAll(Handle(r, es[0]), es[1..])
  }

  function RightEdge(r: Receiver): nat
  {
    r.NextNeeded() + r.Window()
  }

  lemma HandleKeeps(r: Receiver, e: ReceiverEvent)
    requires r.Ok()
    ensures Handle(r, e).Ok()
    ensures r.NextNeeded() <= Handle(r, e).NextNeeded()
    ensures RightEdge(r) <= RightEdge(Handle(r, e))
  {
    if e.Arrives? {
      ReceiveKeepsOk(r, e.m);
    }
  }

  // Neither the acknowledged number nor the advertised right edge ever retreats.
  lemma {:induction false} EdgesNeverRetreat(r: Receiver, es: seq<ReceiverEvent>)
    requires r.Ok()
    ensures HandleAll(r, es).Ok()
    ensures r.NextNeeded() <= HandleAll(r, es).NextNeeded()
    ensures RightEdge(r) <= RightEdge(HandleAll(r, es))
    decreases es
  {
    if es != [] {
      HandleKeeps(r, es[0]);
      EdgesNeverRetreat(Handle(r, es[0]), es[1..]);
    }
  }
}
