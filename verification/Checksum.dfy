// The internet checksum (util/checksum.hh, section 1 of RFC 1071).
module Checksum {
  import opened Words

  predicate IsOdd(n: nat) { n % 2 == 1 }

  // A byte counts as the high half of a word at an even position, as the low half at an odd one.
  function Weight(b: Byte, odd: bool): nat { if odd then b else 0x100 * b }

  // What a run of bytes adds to the sum; odd says whether the first byte is the low half of a word.
  function ByteSum(data: seq<Byte>, odd: bool): nat
  {
    if data == [] then 0 else Weight(data[0], odd) + ByteSum(data[1..], !odd)
  }

  // The carry is added back in until 16 bits are left.
  function Fold(x: nat): U16
  {
    if x <= 0xffff then x else Fold(x / 0x1_0000 + x % 0x1_0000)
  }

  function Complement(x: U16): U16 { 0xffff - x }

  // The checksum for an accumulated sum.
  function ValueOf(sum: nat): U16 { Complement(Fold(sum)) }

  // --- Splitting into buffers ---

  lemma {:induction false} ByteSumConcat(a: seq<Byte>, b: seq<Byte>, odd: bool)
    ensures ByteSum(a + b, odd) == ByteSum(a, odd) + ByteSum(b, odd != IsOdd(|a|))
    decreases |a|
  {
    if a == [] {
      assert a + b == b;
    } else {
      ByteSumConcat(a[1..], b, !odd);
      assert (a + b)[1..] == a[1..] + b;
    }
  }

  // At most half of 0xffff a byte on average, so 0x1_0000 bytes stay far from 32-bit overflow.
  lemma {:induction false} ByteSumBound(data: seq<Byte>, odd: bool)
    ensures 2 * ByteSum(data, odd) <= 0xffff * |data| + (if odd then 0 else 0xfe01)
    decreases |data|
  {
    if data != [] {
      ByteSumBound(data[1..], !odd);
    }
  }

  // --- What the fold computes ---

  // The representative of x modulo 2^16 - 1 in 1..2^16 - 1, or zero for zero.
  function Residue(x: nat): U16
  {
    if x == 0 then 0 else (x - 1) % 0xffff + 1
  }

  lemma ResidueIs(x: nat, r: U16, k: nat)
    requires r > 0 && x == r + 0xffff * k
    ensures Residue(x) == r
  {
    assert (x - 1) / 0xffff == k;
  }

  lemma ResidueOf(x: nat) returns (k: nat)
    ensures x == Residue(x) + 0xffff * k
    ensures Residue(x) == 0 <==> x == 0
  {
    k := if x == 0 then 0 else (x - 1) / 0xffff;
  }

  lemma {:induction false} FoldIsResidue(x: nat)
    ensures Fold(x) == Residue(x)
  {
    if x > 0xffff {
      var y := x / 0x1_0000 + x % 0x1_0000;
      FoldIsResidue(y);
      var k := ResidueOf(y);
      ResidueIs(x, Residue(y), k + x / 0x1_0000);
    }
  }

  // --- The sum of section 1 of RFC 1071 ---

  // One's complement addition: the carry out of bit 15 comes back in at bit 0.
  function OnesPlus(a: U16, b: U16): U16
  {
    if a + b > 0xffff then a + b - 0xffff else a + b
  }

  // The 16-bit words of the data, big end first, an odd last byte padded with zero.
  function WordsOf(data: seq<Byte>): seq<U16>
  {
    if data == [] then [] else
    if |data| == 1 then [Word(data[0], 0)] else [Word(data[0], data[1])] + WordsOf(data[2..])
  }

  function OnesSum(words: seq<U16>): U16
  {
    if words == [] then 0 else OnesPlus(words[0], OnesSum(words[1..]))
  }

  // Summing bytes in 32 bits and folding at the end is the one's complement sum of the words.
  lemma {:induction false} FoldIsOnesSum(data: seq<Byte>)
    ensures Fold(ByteSum(data, false)) == OnesSum(WordsOf(data))
    decreases |data|
  {
    FoldIsResidue(ByteSum(data, false));
    if |data| == 1 {
      assert data[1..] == [];
      assert WordsOf(data)[1..] == [];
    } else if |data| > 1 {
      FoldIsOnesSum(data[2..]);
      FoldIsResidue(ByteSum(data[2..], false));
      assert data[1..][1..] == data[2..];
      assert WordsOf(data)[1..] == WordsOf(data[2..]);
      ResiduePlus(Word(data[0], data[1]), ByteSum(data[2..], false));
    }
  }

  lemma ResiduePlus(w: U16, x: nat)
    ensures Residue(w + x) == OnesPlus(w, Residue(x))
  {
    var k := ResidueOf(x);
    if w + x > 0 {
      ResidueIs(w + x, OnesPlus(w, Residue(x)), if w + Residue(x) > 0xffff then k + 1 else k);
    }
  }

  // --- Verification ---

  // A sum is accepted (its checksum is zero) exactly when it is a positive multiple of 2^16 - 1.
  lemma AcceptedExactly(sum: nat)
    ensures ValueOf(sum) == 0 <==> sum > 0 && sum % 0xffff == 0
  {
    hide Fold;
    FoldIsResidue(sum);
    var k := ResidueOf(sum);
  }

  // Adding the checksum of a sum to that sum makes it acceptable.
  lemma AddingValueAccepts(sum: nat)
    ensures ValueOf(sum + ValueOf(sum)) == 0
  {
    hide Fold;
    FoldIsResidue(sum);
    var k := ResidueOf(sum);
    var total := sum + ValueOf(sum);
    assert total == 0xffff * (k + 1);
    ResidueIs(total, 0xffff, k);
    FoldIsResidue(total);
  }

  function BytesOf16(v: U16): (b: seq<Byte>)
    ensures |b| == 2
  {
    var low := v % 0x100;
    [v / 0x100, low]
  }

  lemma ByteSumOfWord(v: U16)
    ensures ByteSum(BytesOf16(v), false) == v
  {
    var b := BytesOf16(v);
    assert b[1..] == [b[1]] && b[1..][1..] == [];
    assert ByteSum(b[1..], true) == b[1];
  }

  // The sum of a message splits around a 16-bit field at an even offset.
  lemma ByteSumAroundWord(pre: seq<Byte>, v: U16, post: seq<Byte>)
    requires !IsOdd(|pre|)
    ensures ByteSum(pre + BytesOf16(v) + post, false) == ByteSum(pre, false) + v + ByteSum(post, false)
  {
    ByteSumConcat(pre + BytesOf16(v), post, false);
    ByteSumConcat(pre, BytesOf16(v), false);
    ByteSumOfWord(v);
  }

  // Storing the checksum computed over a zero field at an even offset makes the message verify,
  // whatever the initial sum.
  lemma StoredChecksumVerifies(init: nat, pre: seq<Byte>, post: seq<Byte>)
    requires !IsOdd(|pre|)
    ensures var v := ValueOf(init + ByteSum(pre + BytesOf16(0) + post, false));
            ValueOf(init + ByteSum(pre + BytesOf16(v) + post, false)) == 0
  {
    var sum := init + ByteSum(pre + BytesOf16(0) + post, false);
    var v := ValueOf(sum);
    ByteSumAroundWord(pre, 0, post);
    ByteSumAroundWord(pre, v, post);
    AddingValueAccepts(sum);
  }

  // Which values of that field verify: the computed one, and 0xffff in place of 0.
  lemma OnlyStoredChecksumVerifies(init: nat, pre: seq<Byte>, post: seq<Byte>, w: U16)
    requires !IsOdd(|pre|)
    ensures var v := ValueOf(init + ByteSum(pre + BytesOf16(0) + post, false));
            ValueOf(init + ByteSum(pre + BytesOf16(w) + post, false)) == 0 <==> w == v || (w == 0xffff && v == 0)
  {
    ByteSumAroundWord(pre, 0, post);
    ByteSumAroundWord(pre, w, post);
    OnlyValueAccepts(init + ByteSum(pre + BytesOf16(0) + post, false), w);
  }

  lemma OnlyValueAccepts(sum: nat, w: U16)
    ensures ValueOf(sum + w) == 0 <==> w == ValueOf(sum) || (w == 0xffff && ValueOf(sum) == 0)
  {
    hide Fold;
    FoldIsResidue(sum);
    FoldIsResidue(sum + w);
    ResiduePlus(w, sum);
    var k := ResidueOf(sum);
  }

  // Replacing one aligned word of an accepted message is noticed, unless the replacement swaps
  // the two zeros of one's complement.
  lemma OneWordErrorDetected(init: nat, pre: seq<Byte>, a: U16, b: U16, post: seq<Byte>)
    requires !IsOdd(|pre|)
    requires ValueOf(init + ByteSum(pre + BytesOf16(a) + post, false)) == 0
    ensures var damaged := init + ByteSum(pre + BytesOf16(b) + post, false);
            ValueOf(damaged) == 0 <==> a == b || (a == 0 && b == 0xffff) || (a == 0xffff && b == 0 && damaged > 0)
  {
    hide Fold;
    var rest := init + ByteSum(pre, false) + ByteSum(post, false);
    ByteSumAroundWord(pre, a, post);
    ByteSumAroundWord(pre, b, post);
    OnlyValueAccepts(rest, a);
    OnlyValueAccepts(rest, b);
    FoldIsResidue(rest);
    var k := ResidueOf(rest);
  }

  // --- 32-bit overflow ---

  // The accumulator is 32 bits wide. Losing its carries changes the checksum, because 2^32 is
  // one more than a multiple of 2^16 - 1: only a multiple of 2^16 - 1 lost carries goes unnoticed.
  lemma OverflowIsVisible(sum: nat)
    ensures ValueOf(ToU32(sum)) == ValueOf(sum)
            <==> sum < TWO32 || (sum / TWO32 % 0xffff == 0 && ToU32(sum) != 0)
  {
    hide Fold;
    FoldIsResidue(sum);
    FoldIsResidue(ToU32(sum));
    var lost := sum / TWO32;
    var k := ResidueOf(sum);
    var j := ResidueOf(ToU32(sum));
    assert sum == ToU32(sum) + lost + 0xffff * (0x1_0001 * lost);
    LostCarries(Residue(sum), Residue(ToU32(sum)), lost, 0x1_0001 * lost + j - k);
  }

  lemma LostCarries(r: U16, s: U16, lost: nat, d: int)
    requires r == s + lost + 0xffff * d
    ensures r == s ==> lost % 0xffff == 0
    ensures lost % 0xffff == 0 && s > 0 && r > 0 ==> r == s
  {
    if r == s {
      assert lost == 0xffff * -d;
    }
    if lost % 0xffff == 0 && s > 0 && r > 0 {
      assert r - s == 0xffff * (lost / 0xffff + d);
    }
  }
}

// The accumulating object.
module InternetChecksums {
  import opened Words
  import opened Buffers
  import opened Checksum

  class InternetChecksum {
    var sum: U32
    var parity: bool

    constructor (initial: U32)
      ensures sum == initial && !parity
    {
      sum, parity := initial, false;
    }

    method Add(data: seq<Byte>)
      modifies this
      ensures sum == ToU32(old(sum) + ByteSum(data, old(parity)))
      ensures parity == (old(parity) != IsOdd(|data|))
    {
      for i := 0 to |data|
        invariant parity == (old(parity) != IsOdd(i))
        invariant sum == ToU32(old(sum) + ByteSum(data[..i], old(parity)))
      {
        var val: U16 := data[i];
        if !parity {
          val := val * 0x100;
        }
        AddStep(data, i, old(parity));
        ToU32Plus(old(sum) + ByteSum(data[..i], old(parity)), val);
        sum := ToU32(sum + val);
        parity := !parity;
      }
      assert data[..|data|] == data;
    }

    // Adding a list of buffers is adding their bytes, wherever the cuts are.
    method AddAll(data: seq<seq<Byte>>)
      modifies this
      ensures sum == ToU32(old(sum) + ByteSum(Concat(data), old(parity)))
      ensures parity == (old(parity) != IsOdd(|Concat(data)|))
    {
      for i := 0 to |data|
        invariant parity == (old(parity) != IsOdd(|Concat(data[..i])|))
        invariant sum == ToU32(old(sum) + ByteSum(Concat(data[..i]), old(parity)))
      {
        AddAllStep(data, i, old(sum), old(parity));
        Add(data[i]);
      }
      assert data[..|data|] == data;
    }

    method Value() returns (value: U16)
      ensures value == ValueOf(sum)
    {
      var ret := sum;
      while ret > 0xffff
        invariant Fold(ret) == Fold(sum)
      {
        ret := ret / 0x1_0000 + ret % 0x1_0000;
      }
      value := Complement(ret);
    }
  }

  lemma ToU32Plus(x: int, y: int)
    ensures ToU32(ToU32(x) + y) == ToU32(x + y)
  {
  }

  lemma AddAllStep(data: seq<seq<Byte>>, i: nat, sum: nat, odd: bool)
    requires i < |data|
    ensures var done, parity := Concat(data[..i]), odd != IsOdd(|Concat(data[..i])|);
            && ToU32(ToU32(sum + ByteSum(done, odd)) + ByteSum(data[i], parity))
               == ToU32(sum + ByteSum(Concat(data[..i + 1]), odd))
            && (parity != IsOdd(|data[i]|)) == (odd != IsOdd(|Concat(data[..i + 1])|))
  {
    hide ByteSum, Concat;
    assert data[..i + 1] == data[..i] + [data[i]];
    ConcatAppend(data[..i], data[i]);
    ByteSumConcat(Concat(data[..i]), data[i], odd);
    ToU32Plus(sum + ByteSum(Concat(data[..i]), odd), ByteSum(data[i], odd != IsOdd(|Concat(data[..i])|)));
  }

  lemma AddStep(data: seq<Byte>, i: nat, odd: bool)
    requires i < |data|
    ensures ByteSum(data[..i + 1], odd)
            == ByteSum(data[..i], odd) + Weight(data[i], odd != IsOdd(i))
  {
    assert data[..i + 1] == data[..i] + [data[i]];
    ByteSumConcat(data[..i], [data[i]], odd);
    assert [data[i]][1..] == [];
    assert ByteSum([], true) == 0 && ByteSum([], false) == 0;
  }
}
