// The IPv4 header codec (util/ipv4_header.hh, util/ipv4_header.cc, section 3.1 of RFC 791).
module IPv4 {
  import opened Words
  import opened BigEndian
  import opened Checksum
  import opened Cursors

  const LENGTH: nat := 20

  datatype Header = Header(
    ver: U8, hlen: U8, tos: U8, len: U16, id: U16, df: bool, mf: bool, offset: U16,
    ttl: U8, proto: U8, cksum: U16, src: U32, dst: U32)
  {
    // The length of the header is sent in four bits, the fragment offset in thirteen.
    function FirstByte(): nat { ver * 0x10 + hlen % 0x10 }

    function FlagsAndOffset(): nat { Bit(df) * 0x4000 + Bit(mf) * 0x2000 + offset % 0x2000 }

    // The twenty bytes on the wire, followed by others.
    function Before(tail: seq<Byte>): seq<Byte>
    {
      ToBytes(1, FirstByte()) + (ToBytes(1, tos) + (ToBytes(2, len) + (ToBytes(2, id) +
      (ToBytes(2, FlagsAndOffset()) + (ToBytes(1, ttl) + (ToBytes(1, proto) + (ToBytes(2, cksum) +
      (ToBytes(4, src) + (ToBytes(4, dst) + tail)))))))))
    }

    function Encode(): seq<Byte> { Before([]) }

    // The checksum the other fields call for.
    function HeaderChecksum(): U16 { ValueOf(ByteSum(this.(cksum := 0).Encode(), false)) }

    function PayloadLength(): U16 { ToU16(len - 4 * hlen) }

    function PseudoChecksum(): U32
    {
      src / TWO16 + src % TWO16 + dst / TWO16 + dst % TWO16 + proto + PayloadLength()
    }
  }

  // The fields as they come out of the twenty bytes.
  function FromFields(first: nat, tos: U8, len: U16, id: U16, fo: nat, ttl: U8, proto: U8, cksum: U16,
                      src: U32, dst: U32): Header
    requires first < 0x100
  {
    Header(first / 0x10, first % 0x10, tos, len, id, fo / 0x4000 % 2 == 1, fo / 0x2000 % 2 == 1, fo % 0x2000,
           ttl, proto, cksum, src, dst)
  }

  // Reading the fields one after the other; a field that cannot be read keeps its old value.
  function ReadFields(c: Cursor, h: Header): (Header, Cursor)
  {
    Widths();
    var (first, c1) := Take(c, 1, 0);
    var (tos, c2) := Take(c1, 1, h.tos);
    var (len, c3) := Take(c2, 2, h.len);
    var (id, c4) := Take(c3, 2, h.id);
    var (fo, c5) := Take(c4, 2, 0);
    var (ttl, c6) := Take(c5, 1, h.ttl);
    var (proto, c7) := Take(c6, 1, h.proto);
    var (cksum, c8) := Take(c7, 2, h.cksum);
    var (src, c9) := Take(c8, 4, h.src);
    var (dst, c10) := Take(c9, 4, h.dst);
    (FromFields(first, tos, len, id, fo, ttl, proto, cksum, src, dst), c10)
  }

  // Parsing: options are skipped and the checksum field ends up as the computed one.
  function Parse(c: Cursor, old': Header): (Header, Cursor)
  {
    var (h, next) := ReadFields(c, old');
    if next.error || h.ver != 4 || h.hlen < 5 then (h, next.(error := true)) else
    var payload := next.rest[Min(4 * h.hlen - LENGTH, |next.rest|)..];
    (h.(cksum := h.HeaderChecksum()), Cursor(payload, h.cksum != h.HeaderChecksum()))
  }

  // --- Reading what was written ---

  // Only the high bits of a header length or fragment offset that does not fit are lost.
  lemma ReadWritten(h: Header, tail: seq<Byte>, old': Header)
    requires h.ver < 0x10
    ensures ReadFields(Cursor(h.Before(tail), false), old')
            == (h.(hlen := h.hlen % 0x10, offset := h.offset % 0x2000), Cursor(tail, false))
  {
    hide Take, ToBytes;
    Widths();
    var t10 := tail;
    var t9 := ToBytes(4, h.dst) + t10;
    var t8 := ToBytes(4, h.src) + t9;
    var t7 := ToBytes(2, h.cksum) + t8;
    var t6 := ToBytes(1, h.proto) + t7;
    var t5 := ToBytes(1, h.ttl) + t6;
    var t4 := ToBytes(2, h.FlagsAndOffset()) + t5;
    var t3 := ToBytes(2, h.id) + t4;
    var t2 := ToBytes(2, h.len) + t3;
    var t1 := ToBytes(1, h.tos) + t2;
    TakeWritten(1, h.FirstByte(), t1, 0);
    TakeWritten(1, h.tos, t2, old'.tos);
    TakeWritten(2, h.len, t3, old'.len);
    TakeWritten(2, h.id, t4, old'.id);
    TakeWritten(2, h.FlagsAndOffset(), t5, 0);
    TakeWritten(1, h.ttl, t6, old'.ttl);
    TakeWritten(1, h.proto, t7, old'.proto);
    TakeWritten(2, h.cksum, t8, old'.cksum);
    TakeWritten(4, h.src, t9, old'.src);
    TakeWritten(4, h.dst, t10, old'.dst);
  }

  // Parsing undoes serializing exactly for the headers that fit and carry the right checksum. One
  // that announces options must have nothing after it, because the options are never written.
  lemma ParseUndoesSerialize(h: Header, tail: seq<Byte>, old': Header)
    requires h.ver == 4
    ensures Parse(Cursor(h.Before(tail), false), old') == (h, Cursor(tail, false))
            <==> && 5 <= h.hlen < 0x10 && h.offset < 0x2000 && h.cksum == h.HeaderChecksum()
                 && (h.hlen == 5 || tail == [])
  {
    hide Header.Before, ReadFields, Header.HeaderChecksum;
    ReadWritten(h, tail, old');
    var (read, next) := ReadFields(Cursor(h.Before(tail), false), old');
    if 5 <= read.hlen && read.hlen > 5 && tail != [] {
      assert |tail[Min(4 * read.hlen - LENGTH, |tail|)..]| < |tail|;
    }
  }

  // The fields sit where section 3.1 of RFC 791 puts them.
  predicate InPlace(h: Header, b: seq<Byte>)
    requires |b| >= LENGTH
  {
    && h.ver == b[0] / 0x10 && h.hlen == b[0] % 0x10 && h.tos == b[1]
    && h.len == Word(b[2], b[3]) && h.id == Word(b[4], b[5])
    && (h.df <==> b[6] / 0x40 % 2 == 1) && (h.mf <==> b[6] / 0x20 % 2 == 1)
    && h.offset == Word(b[6] % 0x20, b[7])
    && h.ttl == b[8] && h.proto == b[9] && h.cksum == Word(b[10], b[11])
    && h.src == FromBytes(b[12..16]) && h.dst == FromBytes(b[16..20])
  }

  // What the fields are read from.
  function FieldsOf(b: seq<Byte>): Header
    requires |b| >= LENGTH
  {
    Widths();
    FromBytesBound(b[12..16]);
    FromBytesBound(b[16..20]);
    FromFields(b[0], b[1], Word(b[2], b[3]), Word(b[4], b[5]), Word(b[6], b[7]), b[8], b[9], Word(b[10], b[11]),
               FromBytes(b[12..16]), FromBytes(b[16..20]))
  }

  lemma FieldsInPlace(b: seq<Byte>, old': Header)
    requires |b| >= LENGTH
    ensures InPlace(ReadFields(Cursor(b, false), old').0, b)
  {
    ReadsInPlace(b, old');
    hide ReadFields, FromBytes, Word;
    FlagsInPlace(b[6], b[7]);
  }

  lemma ReadsInPlace(b: seq<Byte>, old': Header)
    requires |b| >= LENGTH
    ensures ReadFields(Cursor(b, false), old') == (FieldsOf(b), Cursor(b[LENGTH..], false))
  {
    hide Take, FromBytes, Word, FromFields;
    assert b[0..] == b;
    TakeByte(b, 0, 0);
    TakeByte(b, 1, old'.tos);
    TakeWord(b, 2, old'.len);
    TakeWord(b, 4, old'.id);
    TakeWord(b, 6, 0);
    TakeByte(b, 8, old'.ttl);
    TakeByte(b, 9, old'.proto);
    TakeWord(b, 10, old'.cksum);
    TakeAt(b, 12, 4, old'.src);
    TakeAt(b, 16, 4, old'.dst);
  }

  lemma FlagsInPlace(high: Byte, low: Byte)
    ensures var fo := Word(high, low);
            && fo / 0x4000 % 2 == high / 0x40 % 2 && fo / 0x2000 % 2 == high / 0x20 % 2
            && fo % 0x2000 == Word(high % 0x20, low)
  {
  }

  // --- Writing what was read ---

  // Twenty bytes are read in any case, and writing them back gives them again unless the reserved
  // bit in front of the flags was set.
  lemma WriteRead(b: seq<Byte>, old': Header)
    requires |b| >= LENGTH
    ensures var (h, next) := ReadFields(Cursor(b, false), old');
            && !next.error && next.rest == b[LENGTH..] && h.ver < 0x10 && h.hlen < 0x10
            && (h.Before(next.rest) == b <==> b[6] < 0x80)
  {
    hide Take, ToBytes, FromBytes;
    Widths();
    var c0 := Cursor(b, false);
    var (first, c1) := Take(c0, 1, 0);
    WriteTaken(c0, 1, 0);
    var (tos, c2) := Take(c1, 1, old'.tos);
    WriteTaken(c1, 1, old'.tos);
    var (len, c3) := Take(c2, 2, old'.len);
    WriteTaken(c2, 2, old'.len);
    var (id, c4) := Take(c3, 2, old'.id);
    WriteTaken(c3, 2, old'.id);
    var (fo, c5) := Take(c4, 2, 0);
    WriteTaken(c4, 2, 0);
    FlagBits(fo, c4.rest, c5.rest);
    assert c4.rest[0] == b[6];
    var (ttl, c6) := Take(c5, 1, old'.ttl);
    WriteTaken(c5, 1, old'.ttl);
    var (proto, c7) := Take(c6, 1, old'.proto);
    WriteTaken(c6, 1, old'.proto);
    var (cksum, c8) := Take(c7, 2, old'.cksum);
    WriteTaken(c7, 2, old'.cksum);
    var (src, c9) := Take(c8, 4, old'.src);
    WriteTaken(c8, 4, old'.src);
    var (dst, c10) := Take(c9, 4, old'.dst);
    WriteTaken(c9, 4, old'.dst);
    var h := FromFields(first, tos, len, id, fo, ttl, proto, cksum, src, dst);
    var low := ToBytes(2, h.FlagsAndOffset()) + c5.rest;
    assert h.Before(c10.rest)
           == ToBytes(1, first) + (ToBytes(1, tos) + (ToBytes(2, len) + (ToBytes(2, id) + low)));
    SameTail(ToBytes(1, first), ToBytes(1, tos), ToBytes(2, len), ToBytes(2, id), low, c4.rest);
  }

  lemma SameTail(a: seq<Byte>, b: seq<Byte>, c: seq<Byte>, d: seq<Byte>, x: seq<Byte>, y: seq<Byte>)
    ensures a + (b + (c + (d + x))) == a + (b + (c + (d + y))) <==> x == y
  {
    var s, t := a + (b + (c + (d + x))), a + (b + (c + (d + y)));
    var n := |a| + |b| + |c| + |d|;
    assert s[n..] == x && t[n..] == y;
  }

  lemma FlagBits(fo: nat, bytes: seq<Byte>, rest: seq<Byte>)
    requires fo < TWO16 && bytes == ToBytes(2, fo) + rest
    ensures var back := Bit(fo / 0x4000 % 2 == 1) * 0x4000 + Bit(fo / 0x2000 % 2 == 1) * 0x2000 + fo % 0x2000;
            ToBytes(2, back) + rest == bytes <==> bytes[0] < 0x80
  {
    hide ToBytes;
    var back := fo % 0x8000;
    FlagValue(fo);
    ByteAt(2, fo, 0);
    ByteAt(2, back, 0);
    assert bytes[0] == fo / 0x100;
    assert (ToBytes(2, back) + rest)[0] == back / 0x100;
  }

  lemma FlagValue(fo: nat)
    requires fo < TWO16
    ensures fo % 0x8000 == Bit(fo / 0x4000 % 2 == 1) * 0x4000 + Bit(fo / 0x2000 % 2 == 1) * 0x2000 + fo % 0x2000
    ensures fo % 0x8000 == if fo < 0x8000 then fo else fo - 0x8000
  {
  }

  // The pseudo-header's share of the TCP checksum is the sum of the twelve bytes RFC 9293 puts in it.
  lemma PseudoHeaderSum(h: Header)
    ensures h.PseudoChecksum()
            == ByteSum(ToBytes(4, h.src) + ToBytes(4, h.dst) + [0, h.proto] + ToBytes(2, h.PayloadLength()), false)
  {
    hide ToBytes, ByteSum;
    var s, d, p, n := ToBytes(4, h.src), ToBytes(4, h.dst), [0, h.proto], ToBytes(2, h.PayloadLength());
    ByteSumConcat(s + d + p, n, false);
    ByteSumConcat(s + d, p, false);
    ByteSumConcat(s, d, false);
    AddressSum(h.src);
    AddressSum(h.dst);
    WordBytes(h.PayloadLength());
    ByteSumOfWord(h.PayloadLength());
    WordBytes(h.proto);
    assert p == BytesOf16(h.proto);
    ByteSumOfWord(h.proto);
  }

  lemma AddressSum(a: U32)
    ensures ByteSum(ToBytes(4, a), false) == a / TWO16 + a % TWO16
  {
    var high, low := a / TWO16, a % TWO16;
    Halves(a);
    hide ToBytes, ByteSum;
    WordBytes(high);
    WordBytes(low);
    ByteSumConcat(ToBytes(2, high), ToBytes(2, low), false);
    ByteSumOfWord(high);
    ByteSumOfWord(low);
  }

  lemma Halves(a: U32)
    ensures ToBytes(4, a) == ToBytes(2, a / TWO16) + ToBytes(2, a % TWO16)
  {
    var low := a % TWO16;
    assert a / 0x100 / 0x100 == a / TWO16 && a % 0x100 == low % 0x100 && a / 0x100 % 0x100 == low / 0x100;
    assert ToBytes(3, a / 0x100) == ToBytes(2, a / TWO16) + [low / 0x100];
    WordBytes(low);
  }

  // --- Which bytes are accepted ---

  lemma BeforeIsEncode(h: Header, tail: seq<Byte>)
    ensures h.Before(tail) == h.Encode() + tail && |h.Encode()| == LENGTH
  {
    hide ToBytes;
  }

  // The checksum field sits ten bytes in.
  function Above(h: Header): seq<Byte>
  {
    ToBytes(1, h.FirstByte()) + (ToBytes(1, h.tos) + (ToBytes(2, h.len) + (ToBytes(2, h.id) +
    (ToBytes(2, h.FlagsAndOffset()) + (ToBytes(1, h.ttl) + ToBytes(1, h.proto))))))
  }

  function Below(h: Header): seq<Byte> { ToBytes(4, h.src) + (ToBytes(4, h.dst) + []) }

  lemma ChecksumInPlace(h: Header, w: U16)
    ensures |Above(h)| == 10
    ensures h.(cksum := w).Encode() == Above(h) + BytesOf16(w) + Below(h)
  {
    hide ToBytes;
    assert h.(cksum := w).FirstByte() == h.FirstByte();
    assert h.(cksum := w).FlagsAndOffset() == h.FlagsAndOffset();
    WordBytes(w);
  }

  lemma WordBytes(w: U16)
    ensures ToBytes(2, w) == BytesOf16(w)
  {
    assert ToBytes(1, w / 0x100) == ToBytes(0, 0) + [w / 0x100];
  }

  // The computed checksum is all ones only for an all-zero header.
  lemma HeaderChecksumNotOnes(h: Header)
    requires h.ver == 4
    ensures h.HeaderChecksum() != 0xffff
  {
    hide ToBytes, Fold;
    var b := h.(cksum := 0).Encode();
    BeforeIsEncode(h.(cksum := 0), []);
    FirstByteOf(h.(cksum := 0), []);
    FoldIsResidue(ByteSum(b, false));
  }

  lemma FirstByteOf(h: Header, tail: seq<Byte>)
    requires h.ver < 0x10
    ensures h.Before(tail)[0] == h.FirstByte()
  {
    ByteAt(1, h.FirstByte(), 0);
  }

  lemma StoredWord(h: Header)
    ensures |h.Encode()| == LENGTH
    ensures h.cksum == 0xffff <==> h.Encode()[10] == 0xff && h.Encode()[11] == 0xff
    ensures h.ver == 4 ==>
              (h.cksum == h.HeaderChecksum() <==> ValueOf(ByteSum(h.Encode(), false)) == 0 && h.cksum != 0xffff)
  {
    hide ToBytes, ValueOf, Header.Before, Header.Encode;
    ChecksumInPlace(h, 0);
    ChecksumInPlace(h, h.cksum);
    var b := h.Encode();
    BeforeIsEncode(h, []);
    assert h == h.(cksum := h.cksum);
    assert b[10] == BytesOf16(h.cksum)[0] && b[11] == BytesOf16(h.cksum)[1];
    OnlyStoredChecksumVerifies(0, Above(h), Below(h), h.cksum);
    if h.ver == 4 {
      HeaderChecksumNotOnes(h);
    }
  }

  lemma Nibbles(high: nat, low: nat)
    requires low < 0x10
    ensures (high * 0x10 + low % 0x10) / 0x10 == high && (high * 0x10 + low % 0x10) % 0x10 == low
  {
  }

  lemma ParseError(b: seq<Byte>, old': Header)
    ensures var (h, next) := ReadFields(Cursor(b, false), old');
            Parse(Cursor(b, false), old').1.error
            <==> next.error || h.ver != 4 || h.hlen < 5 || h.cksum != h.HeaderChecksum()
  {
    hide ReadFields, Header.HeaderChecksum;
  }

  lemma ShortFails(b: seq<Byte>, old': Header)
    requires |b| < LENGTH
    ensures Parse(Cursor(b, false), old').1.error
  {
    hide Take, Header.HeaderChecksum, FromFields;
  }

  // The bytes with the reserved bit in front of the flags cleared.
  function Unreserved(b: seq<Byte>): (u: seq<Byte>)
    requires |b| >= LENGTH
    ensures |u| == |b|
  {
    b[6 := b[6] % 0x80]
  }

  lemma ReservedBitUnread(b: seq<Byte>, old': Header)
    requires |b| >= LENGTH
    ensures ReadFields(Cursor(Unreserved(b), false), old') == ReadFields(Cursor(b, false), old')
  {
    var u := Unreserved(b);
    assert u[12..16] == b[12..16] && u[16..20] == b[16..20] && u[LENGTH..] == b[LENGTH..];
    ReadsInPlace(b, old');
    ReadsInPlace(u, old');
    hide ReadFields, FromBytes, Word;
    FlagsInPlace(b[6], b[7]);
    FlagsInPlace(u[6], u[7]);
    BitsBelow(b[6]);
  }

  lemma BitsBelow(x: Byte)
    ensures x % 0x80 / 0x40 % 2 == x / 0x40 % 2 && x % 0x80 / 0x20 % 2 == x / 0x20 % 2
    ensures x % 0x80 % 0x20 == x % 0x20
  {
  }

  // A header is accepted exactly when it is version 4, at least five words long, and its first five
  // words, the reserved bit aside, pass the check of RFC 791 - except that a stored checksum of 0xffff
  // is refused where 0 is meant. Fewer than twenty bytes are refused by ShortFails.
  lemma AcceptedExactly(b: seq<Byte>, old': Header)
    requires |b| >= LENGTH
    ensures !Parse(Cursor(b, false), old').1.error
            <==> && b[0] / 0x10 == 4 && b[0] % 0x10 >= 5 && ValueOf(ByteSum(Unreserved(b)[..LENGTH], false)) == 0
                 && (b[10] != 0xff || b[11] != 0xff)
  {
    hide Parse, ReadFields, ValueOf, ByteSum, Header.Before, Header.Encode, Header.HeaderChecksum, Header.FirstByte;
    var u := Unreserved(b);
    ReservedBitUnread(b, old');
    var (h, next) := ReadFields(Cursor(u, false), old');
    WriteRead(u, old');
    BeforeIsEncode(h, next.rest);
    assert u[..LENGTH] == h.Encode();
    FirstByteOf(h, next.rest);
    Nibbles(h.ver, h.hlen);
    assert u[0] / 0x10 == h.ver && u[0] % 0x10 == h.hlen by { FirstByteIs(h); }
    StoredWord(h);
    ParseError(b, old');
  }

  // What is accepted is read from its place, and what is left begins after the options.
  lemma AcceptedInPlace(b: seq<Byte>, old': Header)
    requires |b| >= LENGTH && !Parse(Cursor(b, false), old').1.error
    ensures var (h, next) := Parse(Cursor(b, false), old');
            InPlace(h, b) && next.rest == b[Min(4 * (b[0] % 0x10), |b|)..]
  {
    ReadsInPlace(b, old');
    FieldsInPlace(b, old');
    hide ReadFields, Header.HeaderChecksum, FromBytes, Word, FieldsOf;
    var n := b[0] % 0x10;
    assert b[LENGTH..][Min(4 * n - LENGTH, |b| - LENGTH)..] == b[Min(4 * n, |b|)..];
  }

  // So a header that passes the check of RFC 791 with the reserved bit set is always refused.
  lemma ReservedBitRefused(b: seq<Byte>, old': Header)
    requires |b| >= LENGTH && b[6] >= 0x80 && ValueOf(ByteSum(b[..LENGTH], false)) == 0
    ensures Parse(Cursor(b, false), old').1.error
  {
    hide Parse, ValueOf;
    AcceptedExactly(b, old');
    var u, pre, post := Unreserved(b), b[..6], b[8..LENGTH];
    assert b[..LENGTH] == pre + BytesOf16(Word(b[6], b[7])) + post;
    assert u[..LENGTH] == pre + BytesOf16(Word(u[6], u[7])) + post;
    OneWordErrorDetected(0, pre, Word(b[6], b[7]), Word(u[6], u[7]), post);
  }

  // One header that passes the check of RFC 791 and is refused: its checksum should be 0 and is 0xffff.
  const ONES: seq<Byte> := [0x45, 0, 0, 0, 0xba, 0xff, 0, 0, 0, 0, 0xff, 0xff, 0, 0, 0, 0, 0, 0, 0, 0]

  lemma OnesAreRefused(old': Header)
    ensures ValueOf(ByteSum(ONES, false)) == 0 && Parse(Cursor(ONES, false), old').1.error
  {
    hide Parse, ValueOf, ByteSum;
    assert ONES[..LENGTH] == ONES && Unreserved(ONES) == ONES;
    AcceptedExactly(ONES, old');
    SumOfOnes();
    Checksum.AcceptedExactly(0x1_fffe);
  }

  lemma SumOfOnes()
    ensures ByteSum(ONES, false) == 0x1_fffe
  {
    hide ByteSum;
    var zeros := [0, 0, 0, 0, 0, 0, 0, 0];
    var pre := [] + BytesOf16(0x4500) + [0, 0];
    var more := pre + BytesOf16(0xbaff) + [0, 0, 0, 0];
    assert ONES == more + BytesOf16(0xffff) + zeros;
    ByteSumAroundWord(more, 0xffff, zeros);
    ByteSumAroundWord(pre, 0xbaff, [0, 0, 0, 0]);
    ByteSumAroundWord([], 0x4500, [0, 0]);
    ZerosAddNothing([], false);
    ZerosAddNothing([0, 0], false);
    ZerosAddNothing([0, 0, 0, 0], false);
    ZerosAddNothing(zeros, false);
  }

  lemma {:induction false} ZerosAddNothing(b: seq<Byte>, odd: bool)
    requires forall i :: 0 <= i < |b| ==> b[i] == 0
    ensures ByteSum(b, odd) == 0
    decreases |b|
  {
    if b != [] {
      ZerosAddNothing(b[1..], !odd);
    }
  }

  lemma FirstByteIs(h: Header)
    ensures h.FirstByte() == h.ver * 0x10 + h.hlen % 0x10
  {
  }
}

module IPv4Headers {
  import opened Words
  import opened Buffers
  import opened BigEndian
  import opened Checksum
  import opened InternetChecksums
  import opened Cursors
  import opened Codecs
  import opened IPv4

  class IPv4Header {
    var ver: U8
    var hlen: U8
    var tos: U8
    var len: U16
    var id: U16
    var df: bool
    var mf: bool
    var offset: U16
    var ttl: U8
    var proto: U8
    var cksum: U16
    var src: U32
    var dst: U32

    function Fields(): Header
      reads this
    {
      Header(ver, hlen, tos, len, id, df, mf, offset, ttl, proto, cksum, src, dst)
    }

    constructor ()
      ensures Fields() == Header(4, 5, 0, 0, 0, true, false, 0, 128, 6, 0, 0, 0)
    {
      ver, hlen, tos, len, id, df, mf, offset := 4, 5, 0, 0, 0, true, false, 0;
      ttl, proto, cksum, src, dst := 128, 6, 0, 0, 0;
    }

    method Parse(parser: Parser)
      requires parser.Valid() && parser.Reaches(LENGTH)
      modifies this, parser`error, parser.input
      ensures parser.Valid()
      ensures (Fields(), parser.View()) == IPv4.Parse(old(parser.View()), old(Fields()))
    {
      hide Take, Header.HeaderChecksum, Fields, ReadFields;
      var h := ReadHeader(parser, Fields());
      SetFields(h);
      if ver != 4 || hlen < 5 {
        parser.SetError();
      }
      if parser.error {
        return;
      }
      parser.RemovePrefix(4 * hlen - LENGTH);
      var given := cksum;
      var ok := ComputeChecksum();
      if cksum != given {
        parser.SetError();
      }
    }

    method SetFields(h: Header)
      modifies this
      ensures Fields() == h && ver == h.ver && hlen == h.hlen && cksum == h.cksum
    {
      ver, hlen, tos, len, id, df, mf, offset, ttl, proto, cksum, src, dst :=
        h.ver, h.hlen, h.tos, h.len, h.id, h.df, h.mf, h.offset, h.ttl, h.proto, h.cksum, h.src, h.dst;
    }

    // Refuses to write any version but 4, where the source throws.
    method Serialize(serializer: Serializer) returns (ok: bool)
      modifies serializer`buffer
      ensures ok <==> ver == 4
      ensures serializer.buffer == old(serializer.buffer) + if ok then Fields().Encode() else []
    {
      ok := ver == 4;
      if ok {
        WriteHeader(Fields(), serializer);
      }
    }

    // Fails, like Serialize, on any version but 4; the checksum field is zero then.
    method ComputeChecksum() returns (ok: bool)
      modifies this`cksum
      ensures ok <==> ver == 4
      ensures Fields() == old(Fields()).(cksum := if ok then old(Fields()).HeaderChecksum() else 0)
      ensures cksum == Fields().cksum
    {
      cksum := 0;
      var s := new Serializer();
      ok := Serialize(s);
      if ok {
        hide ByteSum, Header.Encode, ValueOf;
        ConcatOne(s.buffer);
        HeaderSumFits(Fields());
        assert Fields() == old(Fields()).(cksum := 0);
        var check := new InternetChecksum(0);
        var out := s.Output();
        assert Concat(out) == Fields().Encode();
        check.AddAll(out);
        assert check.sum == ByteSum(Fields().Encode(), false);
        cksum := check.Value();
      }
    }

    method PayloadLength() returns (length: U16)
      ensures length == Fields().PayloadLength()
      ensures length + 4 * hlen == len <==> 4 * hlen <= len
    {
      length := ToU16(len - 4 * hlen);
    }

    method PseudoChecksum() returns (pcksum: U32)
      ensures pcksum == Fields().PseudoChecksum()
    {
      var length := PayloadLength();
      pcksum := src / TWO16 + src % TWO16;
      pcksum := pcksum + dst / TWO16 + dst % TWO16;
      pcksum := pcksum + proto;
      pcksum := pcksum + length;
    }
  }

  // The ten integers of a header, read one after the other.
  method ReadHeader(parser: Parser, h: Header) returns (r: Header)
    requires parser.Valid() && parser.Reaches(LENGTH)
    modifies parser`error, parser.input
    ensures parser.Valid()
    ensures (r, parser.View()) == ReadFields(old(parser.View()), h)
  {
    hide Take, Parser.View, Parser.Valid, Parser.Reaches;
    Widths();
    var first := parser.Integer(1, 0, 20);
    var tos := parser.Integer(1, h.tos, 19);
    var len := parser.Integer(2, h.len, 18);
    var id := parser.Integer(2, h.id, 16);
    var fo := parser.Integer(2, 0, 14);
    var ttl := parser.Integer(1, h.ttl, 12);
    var proto := parser.Integer(1, h.proto, 11);
    var cksum := parser.Integer(2, h.cksum, 10);
    var src := parser.Integer(4, h.src, 8);
    var dst := parser.Integer(4, h.dst, 4);
    r := Header(first / 0x10, first % 0x10, tos, len, id, fo / 0x4000 % 2 == 1, fo / 0x2000 % 2 == 1, fo % 0x2000,
                ttl, proto, cksum, src, dst);
  }

  method WriteHeader(h: Header, serializer: Serializer)
    modifies serializer`buffer
    ensures serializer.buffer == old(serializer.buffer) + h.Encode()
  {
    hide ToBytes, Header.Encode;
    WrittenInTurn(serializer.buffer, h);
    serializer.Integer(1, h.ver * 0x10 + h.hlen % 0x10);
    serializer.Integer(1, h.tos);
    serializer.Integer(2, h.len);
    serializer.Integer(2, h.id);
    serializer.Integer(2, Bit(h.df) * 0x4000 + Bit(h.mf) * 0x2000 + h.offset % 0x2000);
    serializer.Integer(1, h.ttl);
    serializer.Integer(1, h.proto);
    serializer.Integer(2, h.cksum);
    serializer.Integer(4, h.src);
    serializer.Integer(4, h.dst);
  }

  // A datagram is parsed as its header and the buffers that are left (util/ipv4_datagram.hh:16-20).
  method ParseDatagram(header: IPv4Header, parser: Parser) returns (payload: seq<seq<Byte>>)
    requires parser.Valid() && parser.Reaches(LENGTH)
    modifies header, parser`error, parser.input
    ensures parser.Valid()
    ensures (header.Fields(), parser.View()) == IPv4.Parse(old(parser.View()), old(header.Fields()))
    ensures Concat(payload) == parser.View().rest
  {
    hide IPv4.Parse, Concat;
    header.Parse(parser);
    payload := parser.AllRemaining();
  }

  // And serialized as its header and its payload (util/ipv4_datagram.hh:22-28).
  method SerializeDatagram(header: IPv4Header, payload: seq<seq<Byte>>, serializer: Serializer) returns (ok: bool)
    modifies serializer
    ensures ok <==> header.ver == 4
    ensures ok ==> serializer.Bytes() == old(serializer.Bytes()) + header.Fields().Before(Concat(payload))
  {
    hide Concat, Header.Before;
    ghost var before := serializer.Bytes();
    ok := header.Serialize(serializer);
    if ok {
      BeforeIsEncode(header.Fields(), Concat(payload));
      assert serializer.Bytes() == before + header.Fields().Encode();
      serializer.Buffers(payload);
    }
  }

  lemma HeaderSumFits(h: Header)
    ensures ToU32(0 + ByteSum(h.Encode(), false)) == ByteSum(h.Encode(), false)
  {
    hide Header.Encode, ByteSum;
    BeforeIsEncode(h, []);
    ByteSumBound(h.Encode(), false);
  }

  // Appending field after field is appending the nested encoding.
  lemma WrittenInTurn(buffer: seq<Byte>, h: Header)
    ensures buffer + ToBytes(1, h.FirstByte()) + ToBytes(1, h.tos) + ToBytes(2, h.len) + ToBytes(2, h.id)
            + ToBytes(2, h.FlagsAndOffset()) + ToBytes(1, h.ttl) + ToBytes(1, h.proto) + ToBytes(2, h.cksum)
            + ToBytes(4, h.src) + ToBytes(4, h.dst)
            == buffer + h.Encode()
  {
    hide ToBytes, Header.FirstByte, Header.FlagsAndOffset;
  }
}
