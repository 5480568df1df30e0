// Reading and writing integers over lists of buffers (util/parser.hh).
module Cursors {
  import opened Words
  import opened Buffers
  import opened BigEndian

  // What is left to read, and whether reading has failed.
  datatype Cursor = Cursor(rest: seq<Byte>, error: bool)

  // Reading an integer of the given width: the bytes are either all there or nothing is consumed.
  function Take(c: Cursor, width: nat, unread: nat): (r: (nat, Cursor))
    ensures unread < Pow256(width) ==> r.0 < Pow256(width)
    ensures !r.1.error ==> !c.error && |c.rest| == width + |r.1.rest|
  {
    if c.error || width > |c.rest| then (unread, c.(error := true)) else
    FromBytesBound(c.rest[..width]);
    (FromBytes(c.rest[..width]), Cursor(c.rest[width..], false))
  }

  // What was written is what is read.
  lemma TakeWritten(width: nat, v: nat, tail: seq<Byte>, unread: nat)
    requires v < Pow256(width)
    ensures Take(Cursor(ToBytes(width, v) + tail, false), width, unread) == (v, Cursor(tail, false))
  {
    var b := ToBytes(width, v);
    assert (b + tail)[..width] == b && (b + tail)[width..] == tail;
    FromToBytes(width, v);
  }

  // Writing what was read gives the bytes back.
  lemma WriteTaken(c: Cursor, width: nat, unread: nat)
    requires !c.error && width <= |c.rest|
    ensures var (v, next) := Take(c, width, unread);
            !next.error && |next.rest| == |c.rest| - width && ToBytes(width, v) + next.rest == c.rest
  {
    ToFromBytes(c.rest[..width]);
  }

  // A read in the middle of some bytes.
  lemma TakeAt(b: seq<Byte>, at: nat, width: nat, unread: nat)
    requires at + width <= |b|
    ensures Take(Cursor(b[at..], false), width, unread)
            == (FromBytes(b[at..at + width]), Cursor(b[at + width..], false))
  {
    assert b[at..][..width] == b[at..at + width];
    assert b[at..][width..] == b[at + width..];
  }

  lemma TakeByte(b: seq<Byte>, at: nat, unread: nat)
    requires at < |b|
    ensures Take(Cursor(b[at..], false), 1, unread) == (b[at], Cursor(b[at + 1..], false))
  {
    TakeAt(b, at, 1, unread);
    assert b[at..at + 1][..0] == [];
  }

  lemma TakeWord(b: seq<Byte>, at: nat, unread: nat)
    requires at + 1 < |b|
    ensures Take(Cursor(b[at..], false), 2, unread) == (Word(b[at], b[at + 1]), Cursor(b[at + 2..], false))
  {
    TakeAt(b, at, 2, unread);
    assert b[at..at + 2][..1] == [b[at]] && [b[at]][..0] == [];
    assert FromBytes([b[at]]) == b[at];
  }

  // The bytes of the buffers that are still unread, skip of the first one being consumed.
  function Unread(buffer: seq<seq<Byte>>, skip: nat): seq<Byte>
    requires buffer == [] ==> skip == 0
    requires buffer != [] ==> skip <= |buffer[0]|
  {
    if buffer == [] then [] else buffer[0][skip..] + Concat(buffer[1..])
  }

  // How many of them come before the first empty buffer.
  function Solid(buffer: seq<seq<Byte>>, skip: nat): (n: nat)
    requires buffer == [] ==> skip == 0
    requires buffer != [] ==> skip <= |buffer[0]|
    ensures n <= |Unread(buffer, skip)|
  {
    if buffer == [] || buffer[0] == [] then 0 else
    SolidConcat(buffer);
    |buffer[0]| - skip + Solid(buffer[1..], 0)
  }

  lemma SolidConcat(buffer: seq<seq<Byte>>)
    requires buffer != []
    ensures Unread(buffer[1..], 0) == Concat(buffer[1..])
  {
    var b := buffer[1..];
    if b != [] {
      assert b[0][0..] == b[0];
    }
  }

  // Dropping the consumed part of the first buffer.
  function Remaining(buffer: seq<seq<Byte>>, skip: nat): (chunks: seq<seq<Byte>>)
    requires buffer == [] ==> skip == 0
    requires buffer != [] ==> skip <= |buffer[0]|
    ensures Concat(chunks) == Unread(buffer, skip)
  {
    if buffer == [] then [] else
    var chunks := [buffer[0][skip..]] + buffer[1..];
    assert chunks[1..] == buffer[1..];
    chunks
  }
}

module Parsers {
  import opened Words
  import opened Buffers
  import opened Cursors

  class BufferList {
    var size: nat
    var buffer: seq<seq<Byte>>
    var skip: nat

    ghost predicate Placed()
      reads this
    {
      && (buffer == [] ==> skip == 0)
      && (buffer != [] ==> skip == 0 || skip < |buffer[0]|)
    }

    ghost predicate Valid()
      reads this
    {
      Placed() && size == |Unread(buffer, skip)|
    }

    ghost function Bytes(): seq<Byte>
      requires Valid()
      reads this
    {
      Unread(buffer, skip)
    }

    ghost function Readable(): nat
      requires Valid()
      reads this
    {
      Solid(buffer, skip)
    }

    constructor (buffers: seq<seq<Byte>>)
      ensures Valid() && Bytes() == Concat(buffers) && Readable() == Solid(buffers, 0)
    {
      size, buffer, skip := 0, [], 0;
      new;
      for i := 0 to |buffers|
        invariant buffer == buffers[..i] && skip == 0 && Valid()
      {
        Append(buffers[i]);
        assert buffers[..i + 1] == buffers[..i] + [buffers[i]];
      }
      assert buffers[..|buffers|] == buffers;
      UnreadAll(buffers);
    }

    constructor Copy(that: BufferList)
      requires that.Valid()
      ensures Valid() && Bytes() == that.Bytes() && Readable() == that.Readable()
    {
      size, buffer, skip := that.size, that.buffer, that.skip;
    }

    // The unread part of the first buffer; None where the source throws.
    function Peek(): (view: Option<seq<Byte>>)
      requires Valid()
      reads this
      ensures view.None? ==> Bytes() == []
      ensures view.Some? ==> view.value <= Bytes()
      ensures Readable() > 0 <==> view.Some? && view.value != []
    {
      if buffer == [] then None else Some(buffer[0][skip..])
    }

    method RemovePrefix(len: nat)
      requires Valid()
      modifies this
      ensures Valid() && Bytes() == old(Bytes())[Min(len, old(size))..]
      ensures len <= old(Readable()) ==> Readable() == old(Readable()) - len
    {
      hide Unread, Solid, Concat;
      ghost var bytes, solid := Bytes(), Readable();
      var left: nat := len;
      while left > 0 && buffer != []
        invariant Valid() && left <= len
        invariant bytes[Min(len, |bytes|)..] == Bytes()[Min(left, size)..]
        invariant len <= solid ==> Readable() == solid - (len - left)
        decreases |buffer|, left
      {
        DropStep(buffer, skip, left);
        var toPopNow := Min(left, |buffer[0]| - skip);
        skip := skip + toPopNow;
        left := left - toPopNow;
        size := size - toPopNow;
        if skip == |buffer[0]| {
          buffer := buffer[1..];
          skip := 0;
        }
      }
      EmptyUnread(buffer, skip);
    }

    // All that is left, buffer by buffer.
    method DumpAll() returns (out: seq<seq<Byte>>)
      requires Valid()
      ensures Concat(out) == Bytes()
      ensures out == if size == 0 then [] else Remaining(buffer, skip)
    {
      out := [];
      if size == 0 {
        return;
      }
      var first := buffer[0];
      if skip > 0 {
        first := first[skip..];
      }
      out := [first];
      for i := 1 to |buffer|
        invariant out == [first] + buffer[1..i]
      {
        out := out + [buffer[i]];
      }
      assert buffer[1..|buffer|] == buffer[1..];
      assert out == Remaining(buffer, skip);
    }

    // All that is left, in one buffer.
    method DumpJoined() returns (out: seq<Byte>)
      requires Valid()
      ensures out == Bytes()
    {
      var concat := DumpAll();
      if |concat| == 1 {
        ConcatOne(concat[0]);
        assert concat == [concat[0]];
        return concat[0];
      }
      out := [];
      for i := 0 to |concat|
        invariant out == Concat(concat[..i])
      {
        assert concat[..i + 1] == concat[..i] + [concat[i]];
        ConcatAppend(concat[..i], concat[i]);
        out := out + concat[i];
      }
      assert concat[..|concat|] == concat;
    }

    method Append(str: seq<Byte>)
      requires Valid()
      modifies this
      ensures Valid() && buffer == old(buffer) + [str] && skip == old(skip)
      ensures Bytes() == old(Bytes()) + str
    {
      UnreadAppend(buffer, skip, str);
      size := size + |str|;
      buffer := buffer + [str];
    }
  }

  lemma UnreadAll(buffers: seq<seq<Byte>>)
    ensures Unread(buffers, 0) == Concat(buffers)
  {
    if buffers != [] {
      assert buffers[0][0..] == buffers[0];
    }
  }

  lemma UnreadAppend(buffer: seq<seq<Byte>>, skip: nat, str: seq<Byte>)
    requires buffer == [] ==> skip == 0
    requires buffer != [] ==> skip <= |buffer[0]|
    ensures Unread(buffer + [str], skip) == Unread(buffer, skip) + str
  {
    ConcatOne(str);
    if buffer == [] {
      assert buffer + [str] == [str] && [str][1..] == [] && str[0..] == str;
    } else {
      assert (buffer + [str])[1..] == buffer[1..] + [str];
      ConcatAppend(buffer[1..], str);
    }
  }

  // One turn of remove_prefix: take what the first buffer gives, and leave it once it is used up.
  lemma DropStep(buffer: seq<seq<Byte>>, skip: nat, len: nat)
    requires buffer != [] && skip <= |buffer[0]|
    ensures var n := Min(len, |buffer[0]| - skip);
            var bytes := Unread(buffer, skip);
            var next := if skip + n == |buffer[0]| then Unread(buffer[1..], 0) else Unread(buffer, skip + n);
            && |next| == |bytes| - n
            && bytes[Min(len, |bytes|)..] == next[Min(len - n, |next|)..]
    ensures var n := Min(len, |buffer[0]| - skip);
            var next := if skip + n == |buffer[0]| then Solid(buffer[1..], 0) else Solid(buffer, skip + n);
            0 < len <= Solid(buffer, skip) ==> Solid(buffer, skip) == n + next
  {
    SolidConcat(buffer);
  }

  lemma EmptyUnread(buffer: seq<seq<Byte>>, skip: nat)
    requires buffer == [] ==> skip == 0
    requires buffer != [] ==> skip <= |buffer[0]|
    ensures buffer == [] ==> Unread(buffer, skip) == [] && Solid(buffer, skip) == 0
  {
  }
}

module Codecs {
  import opened Words
  import opened Buffers
  import opened BigEndian
  import opened Cursors
  import opened Parsers

  class Parser {
    const input: BufferList
    var error: bool

    ghost predicate Valid()
      reads this, input
    {
      input.Valid()
    }

    ghost function View(): Cursor
      requires Valid()
      reads this, input
    {
      Cursor(input.Bytes(), error)
    }

    // n bytes can be read without meeting an empty buffer, or the reading fails before that.
    ghost predicate Reaches(n: nat)
      requires Valid()
      reads this, input
    {
      error || Min(n, input.size) <= input.Readable()
    }

    constructor (buffers: seq<seq<Byte>>)
      ensures Valid() && fresh(input) && View() == Cursor(Concat(buffers), false)
      ensures input.Readable() == Solid(buffers, 0)
    {
      input := new BufferList(buffers);
      error := false;
    }

    constructor Copy(that: Parser)
      requires that.Valid()
      ensures Valid() && fresh(input) && View() == that.View()
    {
      input := new BufferList.Copy(that.input);
      error := that.error;
    }

    method CheckSize(size: nat)
      requires Valid()
      modifies this`error
      ensures error == (old(error) || size > |input.Bytes()|)
    {
      if size > input.size {
        error := true;
      }
    }

    method SetError()
      requires Valid()
      modifies this`error
      ensures Valid() && View() == old(View()).(error := true) && error
    {
      error := true;
    }

    // Reads a big-endian integer of the given width; unread is what the destination held before.
    method Integer(width: nat, unread: nat, ghost reach: nat) returns (out: nat)
      requires Valid() && width <= reach && Reaches(reach)
      modifies this`error, input
      ensures Valid() && (out, View()) == Take(old(View()), width, unread)
      ensures Reaches(reach - width)
    {
      hide BufferList.Valid, BufferList.Bytes, BufferList.Readable, FromBytes;
      SizeIsLength(input);
      CheckSize(width);
      if error {
        return unread;
      }
      out := ReadBytes(width);
      SizeIsLength(input);
    }

    method ReadBytes(width: nat) returns (out: nat)
      requires input.Valid() && width <= input.Readable()
      modifies input
      ensures input.Valid()
      ensures width <= |old(input.Bytes())| && input.Bytes() == old(input.Bytes())[width..]
      ensures input.Readable() == old(input.Readable()) - width
      ensures out == FromBytes(old(input.Bytes())[..width])
    {
      hide BufferList.Valid, BufferList.Bytes, BufferList.Readable;
      SizeIsLength(input);
      ghost var all, solid := input.Bytes(), input.Readable();
      out := 0;
      for i := 0 to width
        invariant input.Valid() && i <= |all|
        invariant input.Bytes() == all[i..] && input.Readable() == solid - i
        invariant out == FromBytes(all[..i])
      {
        SizeIsLength(input);
        var front := input.Peek();
        FromBytesStep(all, i);
        out := out * 0x100 + front.value[0];
        input.RemovePrefix(1);
      }
    }

    method RemovePrefix(n: nat)
      requires Valid()
      modifies input
      ensures Valid() && input.Bytes() == old(input.Bytes())[Min(n, |old(input.Bytes())|)..]
    {
      input.RemovePrefix(n);
    }

    method AllRemaining() returns (out: seq<seq<Byte>>)
      requires Valid()
      ensures Concat(out) == input.Bytes()
    {
      out := input.DumpAll();
    }

    method AllRemainingJoined() returns (out: seq<Byte>)
      requires Valid()
      ensures out == input.Bytes()
    {
      out := input.DumpJoined();
    }
  }

  lemma SizeIsLength(input: BufferList)
    requires input.Valid()
    ensures input.size == |input.Bytes()| && input.Readable() <= input.size
  {
  }

  lemma FromBytesStep(b: seq<Byte>, i: nat)
    requires i < |b|
    ensures FromBytes(b[..i + 1]) == FromBytes(b[..i]) * 0x100 + b[i]
  {
    assert b[..i + 1][..i] == b[..i];
  }

  class Serializer {
    var output: seq<seq<Byte>>
    var buffer: seq<Byte>

    // Everything written so far.
    ghost function Bytes(): seq<Byte>
      reads this
    {
      Concat(output) + buffer
    }

    constructor ()
      ensures output == [] && buffer == [] && Bytes() == []
    {
      output, buffer := [], [];
    }

    method Integer(width: nat, val: nat)
      modifies this`buffer
      ensures buffer == old(buffer) + ToBytes(width, val)
    {
      ghost var b := ToBytes(width, val);
      for i := 0 to width
        invariant buffer == old(buffer) + b[..i]
      {
        ByteAt(width, val, i);
        var byteVal: Byte := val / Pow256(width - i - 1) % 0x100;
        buffer := buffer + [byteVal];
        assert b[..i + 1] == b[..i] + [b[i]];
      }
      assert b[..width] == b;
    }

    // Starts a new buffer even when the current one is empty.
    method Flush()
      modifies this
      ensures output == old(output) + [old(buffer)] && buffer == []
      ensures Bytes() == old(Bytes())
    {
      ConcatAppend(output, buffer);
      output := output + [buffer];
      buffer := [];
    }

    method Buffer(buf: seq<Byte>)
      modifies this
      ensures output == old(output) + [old(buffer), buf] && buffer == []
      ensures Bytes() == old(Bytes()) + buf
    {
      Flush();
      ConcatAppend(output, buf);
      assert output + [buf] == old(output) + [old(buffer), buf];
      output := output + [buf];
    }

    method Buffers(bufs: seq<seq<Byte>>)
      modifies this
      ensures Bytes() == old(Bytes()) + Concat(bufs)
    {
      assert bufs[..0] == [];
      for i := 0 to |bufs|
        invariant Bytes() == old(Bytes()) + Concat(bufs[..i])
      {
        Buffer(bufs[i]);
        assert bufs[..i + 1] == bufs[..i] + [bufs[i]];
        ConcatAppend(bufs[..i], bufs[i]);
      }
      assert bufs[..|bufs|] == bufs;
    }

    method Output() returns (out: seq<seq<Byte>>)
      modifies this
      ensures out == old(output) + [old(buffer)] && Concat(out) == old(Bytes())
      ensures Bytes() == old(Bytes())
    {
      Flush();
      assert output == old(output) + [old(buffer)];
      ConcatAppend(old(output), old(buffer));
      return output;
    }
  }
}
