// The flow-controlled byte stream (src/byte_stream.cc) and the helper that drains it
// (src/byte_stream_helpers.cc).
module ByteStreams {
  import opened Words

  // What a stream is: everything ever accepted, and how much of it has been popped.
  datatype StreamData = StreamData(
    capacity: nat,
    written: seq<Byte>,
    read: nat,
    closed: bool,
    error: bool)
  {
    predicate Fits()
    {
      read <= |written| && |written| - read <= capacity
    }

    function Buffered(): (s: seq<Byte>)
      requires Fits()
    {
      written[read..]
    }

    function Available(): nat
      requires Fits()
    {
      capacity - (|written| - read)
    }

    predicate Finished()
    {
      closed && |written| == read
    }

    function Push(data: seq<Byte>): Stream
      requires Fits()
    {
      this.(written := written + data[..Min(|data|, Available())])
    }

    function Pop(len: nat): Stream
      requires Fits()
    {
      if len > |written| - read then this.(error := true) else this.(read := read + len)
    }

    function Close(): Stream
      requires Fits()
    {
      this.(closed := true)
    }

    function SetError(): Stream
      requires Fits()
    {
      this.(error := true)
    }
  }

  type Stream = s: StreamData | s.Fits() witness StreamData(0, [], 0, false, false)

  function EmptyStream(capacity: nat): Stream
  {
    StreamData(capacity, [], 0, false, false)
  }

  // Flow control: what one side pushes comes out at the other in order, however pushes and pops
  // interleave, and the buffer never exceeds the capacity.
  datatype StreamOp = OpPush(data: seq<Byte>) | OpPop(len: nat)

  function Perform(s: Stream, op: StreamOp): Stream
  {
    match op
    case OpPush(data) => s.Push(data)
    case OpPop(len) => s.Pop(len)
  }

  function PerformAll(s: Stream, ops: seq<StreamOp>): Stream
    decreases ops
  {
    if ops == [] then s else PerformAll(Perform(s, ops[0]), ops[1..])
  }

  // The bytes a step hands to the reader, and the bytes it accepts from the writer.
  function Taken(s: Stream, op: StreamOp): seq<Byte>
  {
    var s' := Perform(s, op);
    s'.written[s.read..s'.read]
  }

  function Given(s: Stream, op: StreamOp): seq<Byte>
  {
    Perform(s, op).written[|s.written|..]
  }

  function Delivered(s: Stream, ops: seq<StreamOp>): seq<Byte>
    decreases ops
  {
    if ops == [] then [] else Taken(s, ops[0]) + Delivered(Perform(s, ops[0]), ops[1..])
  }

  function Accepted(s: Stream, ops: seq<StreamOp>): seq<Byte>
    decreases ops
  {
    if ops == [] then [] else Given(s, ops[0]) + Accepted(Perform(s, ops[0]), ops[1..])
  }

  lemma StepIsFifo(s: Stream, op: StreamOp)
    ensures s.Buffered() + Given(s, op) == Taken(s, op) + Perform(s, op).Buffered()
    ensures Perform(s, op).capacity == s.capacity
  {
  }

  // A push accepts the data from its beginning on, all of it unless the buffer is full then; a pop takes what
  // it asks for, or nothing and flags an error if there is less.
  lemma StepTakesAll(s: Stream, op: StreamOp)
    ensures var s' := Perform(s, op);
            match op
            case OpPush(data) =>
              && Given(s, op) <= data && (Given(s, op) == data || |s'.Buffered()| == s.capacity)
              && s'.error == s.error && s'.closed == s.closed
            case OpPop(len) =>
              && (if len <= |s.Buffered()| then |Taken(s, op)| == len else Taken(s, op) == [])
              && (s'.error <==> s.error || len > |s.Buffered()|) && s'.closed == s.closed
  {
  }

  lemma {:induction false} StreamIsFifo(s: Stream, ops: seq<StreamOp>)
    ensures s.Buffered() + Accepted(s, ops) == Delivered(s, ops) + PerformAll(s, ops).Buffered()
    ensures |PerformAll(s, ops).Buffered()| <= s.capacity
    decreases ops
  {
    if ops == [] {
      assert s.Buffered() + [] == [] + s.Buffered();
    } else {
      var s' := Perform(s, ops[0]);
      StepIsFifo(s, ops[0]);
      StreamIsFifo(s', ops[1..]);
      Splice(s.Buffered(), Given(s, ops[0]), Taken(s, ops[0]), s'.Buffered(),
             Accepted(s', ops[1..]), Delivered(s', ops[1..]), PerformAll(s', ops[1..]).Buffered());
    }
  }

  class ByteStream {
    const capacity: U64
    var stream: seq<Byte>
    var bytesRead: nat
    var bytesWrite: nat
    var error: bool
    var closed: bool
    ghost var written: seq<Byte>

    ghost predicate Valid()
      reads this
    {
      && |written| == bytesWrite
      && bytesRead <= bytesWrite
      && stream == written[bytesRead..]
      && |stream| <= capacity
    }

    ghost function Model(): (s: Stream)
      requires Valid()
      reads this
    {
      StreamData(capacity, written, bytesRead, closed, error)
    }

    constructor (capacity: U64)
      ensures Valid() && Model() == EmptyStream(capacity)
    {
      this.capacity := capacity;
      stream, bytesRead, bytesWrite, error, closed := [], 0, 0, false, false;
      written := [];
    }

    method Push(data: seq<Byte>)
      requires Valid()
      modifies this
      ensures Valid() && Model() == old(Model()).Push(data)
    {
      var lengthWrite := Min(|data|, capacity - |stream|);
      ghost var before := stream;
      for i := 0 to lengthWrite
        invariant stream == before + data[..i]
        invariant bytesRead == old(bytesRead) && bytesWrite == old(bytesWrite)
        invariant error == old(error) && closed == old(closed) && written == old(written)
      {
        stream := stream + [data[i]];
      }
      bytesWrite := bytesWrite + lengthWrite;
      written := written + data[..lengthWrite];
    }

    method Close()
      requires Valid()
      modifies this`closed
      ensures Valid() && Model() == old(Model()).Close()
    {
      closed := true;
    }

    method SetError()
      requires Valid()
      modifies this`error
      ensures Valid() && Model() == old(Model()).SetError()
    {
      error := true;
    }

    function AvailableCapacity(): (n: nat)
      requires Valid()
      reads this
      ensures n == Model().Available()
    {
      capacity - |stream|
    }

    function BytesBuffered(): (n: nat)
      requires Valid()
      reads this
      ensures n == |Model().Buffered()|
    {
      bytesWrite - bytesRead
    }

    predicate IsFinished()
      requires Valid()
      reads this
      ensures IsFinished() == Model().Finished()
    {
      closed && bytesWrite == bytesRead
    }

    function Peek(): (view: seq<Byte>)
      requires Valid()
      reads this
      ensures view == Model().Buffered()
    {
      stream
    }

    // Asking for more bytes than are buffered flags an error and pops nothing.
    method Pop(len: nat)
      requires Valid()
      modifies this
      ensures Valid() && Model() == old(Model()).Pop(len)
    {
      if len > |stream| {
        error := true;
        return;
      }
      stream := stream[len..];
      bytesRead := bytesRead + len;
    }
  }

  // Peeks and pops until len bytes were taken or the stream is empty.
  method Read(reader: ByteStream, len: nat) returns (out: seq<Byte>)
    requires reader.Valid()
    modifies reader
    ensures reader.Valid()
    ensures out == old(reader.Model()).Buffered()[..Min(len, |old(reader.Model()).Buffered()|)]
    ensures reader.Model() == old(reader.Model()).Pop(|out|)
  {
    out := [];
    ghost var before := reader.Model();
    while reader.BytesBuffered() != 0 && |out| < len
      invariant reader.Valid()
      invariant |out| <= |before.Buffered()| && |out| <= len
      invariant out == before.Buffered()[..|out|]
      invariant reader.Model() == before.Pop(|out|)
      decreases reader.BytesBuffered()
    {
      var view := reader.Peek();
      view := view[..Min(|view|, len - |out|)];
      out := out + view;
      reader.Pop(|view|);
    }
  }
}
