// The fixed-width unsigned integers the stack computes with, and a few shared helpers.
module Words {

  const TWO16: int := 0x1_0000
  const TWO31: int := 0x8000_0000
  const TWO32: int := 0x1_0000_0000
  const TWO64: int := 0x1_0000_0000_0000_0000

  type Byte = x: int | 0 <= x < 0x100
  type U8 = Byte
  type U16 = x: int | 0 <= x < 0x1_0000
  type U32 = x: int | 0 <= x < 0x1_0000_0000
  type U64 = x: int | 0 <= x < 0x1_0000_0000_0000_0000

  datatype Option<+T> = None | Some(value: T)

  function Min(a: int, b: int): int { if a < b then a else b }

  function Max(a: int, b: int): int { if a < b then b else a }

  // What a uint16_t, uint32_t or uint64_t holds after being assigned x.
  function ToU16(x: int): U16 { x % 0x1_0000 }

  function ToU32(x: int): U32 { x % 0x1_0000_0000 }

  function ToU64(x: int): U64 { x % 0x1_0000_0000_0000_0000 }

  // Two bytes, most significant first.
  function Word(high: Byte, low: Byte): U16 { 0x100 * high + low }

  // A bool in an integer context.
  function Bit(b: bool): nat { if b then 1 else 0 }

  // Two queues in a row: what is in the first and then goes in comes out, or is in the second.
  lemma Splice<T>(q: seq<T>, x: seq<T>, t: seq<T>, q': seq<T>, xs: seq<T>, ts: seq<T>, q'': seq<T>)
    requires q + x == t + q' && q' + xs == ts + q''
    ensures q + (x + xs) == (t + ts) + q''
  {
    assert q + (x + xs) == (q + x) + xs;
    assert (t + q') + xs == t + (q' + xs);
    assert t + (ts + q'') == (t + ts) + q'';
  }
}
