// Unsigned integers as big-endian bytes (util/parser.hh).
module BigEndian {
  import opened Words

  function Pow256(n: nat): (p: nat)
    ensures p > 0
  {
    if n == 0 then 1 else 0x100 * Pow256(n - 1)
  }

  lemma Widths()
    ensures Pow256(1) == 0x100 && Pow256(2) == TWO16 && Pow256(4) == TWO32 && Pow256(8) == TWO64
  {
    assert Pow256(3) == 0x100 * Pow256(2) && Pow256(5) == 0x100 * Pow256(4);
    assert Pow256(6) == 0x100 * Pow256(5) && Pow256(7) == 0x100 * Pow256(6);
  }

  // The value of a run of bytes, most significant first.
  function FromBytes(b: seq<Byte>): nat
  {
    if b == [] then 0 else 0x100 * FromBytes(b[..|b| - 1]) + b[|b| - 1]
  }

  // The low width bytes of v, most significant first.
  function ToBytes(width: nat, v: nat): (b: seq<Byte>)
    ensures |b| == width
  {
    if width == 0 then [] else var low: Byte := v % 0x100; ToBytes(width - 1, v / 0x100) + [low]
  }

  lemma {:induction false} FromBytesBound(b: seq<Byte>)
    ensures FromBytes(b) < Pow256(|b|)
  {
    if b != [] {
      FromBytesBound(b[..|b| - 1]);
    }
  }

  // Reading back what was written gives the value, as long as it fits.
  lemma {:induction false} FromToBytes(width: nat, v: nat)
    ensures FromBytes(ToBytes(width, v)) == v <==> v < Pow256(width)
  {
    if width > 0 {
      FromToBytes(width - 1, v / 0x100);
      var b := ToBytes(width, v);
      assert b[..|b| - 1] == ToBytes(width - 1, v / 0x100);
    } else {
      assert ToBytes(width, v) == [];
    }
  }

  lemma {:induction false} ToFromBytes(b: seq<Byte>)
    ensures ToBytes(|b|, FromBytes(b)) == b
  {
    if b != [] {
      ToFromBytes(b[..|b| - 1]);
      assert b == b[..|b| - 1] + [b[|b| - 1]];
    }
  }

  // Byte i, as a right shift and a cast produce it.
  lemma {:induction false} ByteAt(width: nat, v: nat, i: nat)
    requires i < width
    ensures ToBytes(width, v)[i] == v / Pow256(width - 1 - i) % 0x100
  {
    if i < width - 1 {
      ByteAt(width - 1, v / 0x100, i);
      DivDiv(v, Pow256(width - 2 - i));
    }
  }

  lemma DivDiv(v: nat, p: nat)
    requires p > 0
    ensures v / 0x100 / p == v / (0x100 * p)
  {
    var q, r := v / 0x100, v % 0x100;
    var s, t := q / p, q % p;
    assert v == 0x100 * (p * s + t) + r;
    assert v == (0x100 * p) * s + (0x100 * t + r);
    QuotientIs(v, 0x100 * p, s, 0x100 * t + r);
  }

  lemma QuotientIs(x: nat, d: nat, q: nat, r: nat)
    requires x == d * q + r && r < d
    ensures x / d == q
  {
    var k := x / d - q;
    assert d * k == r - x % d by {
      assert d * (x / d) + x % d == x;
    }
    ProductGrows(d, k);
  }

  lemma ProductGrows(d: int, k: int)
    requires d > 0
    ensures k > 0 ==> d * k >= d
    ensures k < 0 ==> d * k <= -d
  {
  }
}
