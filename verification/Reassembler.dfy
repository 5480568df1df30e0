// The reassembler as the program runs it: two parallel vectors that slide along the stream
// (src/reassembler.cc).
module Reassemblers {
  import opened Words
  import opened ByteStreams
  import opened Reassembly

  // The bytes the vectors hold: index base + k is known when flag[k] is set.
  function Stored(flag: seq<bool>, buffer: seq<Byte>, base: nat): map<nat, Byte>
    requires |flag| == |buffer|
  {
    map i: nat | base <= i < base + |flag| && IsIndex(i) && flag[i - base] :: buffer[i - base]
  }

  function Repeat<T>(x: T, n: nat): (s: seq<T>)
    ensures |s| == n && forall k :: 0 <= k < n ==> s[k] == x
  {
    seq(n, _ => x)
  }

  // A vector after erasing cnt elements at the front and appending as many blanks.
  function Slid<T>(s: seq<T>, cnt: nat, blank: T): (r: seq<T>)
    requires cnt <= |s|
    ensures |r| == |s|
  {
    s[cnt..] + Repeat(blank, cnt)
  }

  // The number of set flags.
  function SetFlags(flag: seq<bool>): nat
  {
    multiset(flag)[true]
  }

  lemma {:induction false} SetFlagsCountStored(flag: seq<bool>, buffer: seq<Byte>, base: nat)
    requires |flag| == |buffer|
    ensures |Stored(flag, buffer, base)| == SetFlags(flag)
    decreases |flag|
  {
    if |flag| == 0 {
      assert Stored(flag, buffer, base) == map[];
    } else {
      var n := |flag| - 1;
      SetFlagsCountStored(flag[..n], buffer[..n], base);
      assert flag == flag[..n] + [flag[n]];
      StoredLast(flag, buffer, base, n);
    }
  }

  lemma StoredLast(flag: seq<bool>, buffer: seq<Byte>, base: nat, n: nat)
    requires |flag| == |buffer| == n + 1
    ensures base + n !in Stored(flag[..n], buffer[..n], base)
    ensures Stored(flag, buffer, base).Keys ==
            if flag[n] then Stored(flag[..n], buffer[..n], base).Keys + {base + n}
            else Stored(flag[..n], buffer[..n], base).Keys
  {
  }

  // The vectors after data[from + j] was stored at offset lo + j, for every j < n whose flag was clear.
  ghost predicate Filled(flag: seq<bool>, buffer: seq<Byte>, flag0: seq<bool>, buffer0: seq<Byte>,
                         lo: nat, n: nat, data: seq<Byte>, from: nat)
    requires |flag| == |buffer| == |flag0| == |buffer0|
    requires from + n <= |data|
  {
    forall k :: 0 <= k < |flag| ==>
                  && flag[k] == (flag0[k] || lo <= k < lo + n)
                  && buffer[k] == if lo <= k < lo + n && !flag0[k] then data[from + (k - lo)] else buffer0[k]
  }

  // One iteration of a storing loop.
  lemma FillStep(flag: seq<bool>, buffer: seq<Byte>, flag0: seq<bool>, buffer0: seq<Byte>,
                 lo: nat, n: nat, data: seq<Byte>, from: nat)
    requires |flag| == |buffer| == |flag0| == |buffer0|
    requires from + n < |data| && lo + n < |flag|
    requires Filled(flag, buffer, flag0, buffer0, lo, n, data, from)
    ensures if flag[lo + n] then Filled(flag, buffer, flag0, buffer0, lo, n + 1, data, from)
            else
              && Filled(flag[lo + n := true], buffer[lo + n := data[from + n]], flag0, buffer0, lo, n + 1, data, from)
              && SetFlags(flag[lo + n := true]) == SetFlags(flag) + 1
  {
  }

  // How many bytes of the substring fall into the window.
  function FillCount(base: nat, edge: nat, first: nat, size: nat): nat
  {
    Max(0, Min(edge, first + size) - Max(base, first))
  }

  // Filling the vectors up to the window's edge is merging the clipped substring.
  lemma FilledIsMerged(flag: seq<bool>, buffer: seq<Byte>, flag0: seq<bool>, buffer0: seq<Byte>,
                       base: nat, edge: nat, first: nat, data: seq<Byte>)
    requires |flag| == |buffer| == |flag0| == |buffer0|
    requires base <= edge <= base + |flag|
    requires var n := FillCount(base, edge, first, |data|);
             if n == 0 then flag == flag0 && buffer == buffer0
             else Filled(flag, buffer, flag0, buffer0, Max(base, first) - base, n, data, Max(base, first) - first)
    ensures Stored(flag, buffer, base) == Clip(base, edge, first, data) + Stored(flag0, buffer0, base)
  {
    var left, clip, right := Stored(flag, buffer, base), Clip(base, edge, first, data), Stored(flag0, buffer0, base);
    forall i: nat
      ensures i in left <==> i in clip || i in right
      ensures i in left ==> left[i] == if i in right then right[i] else clip[i]
    {
      if base <= i < base + |flag| {
        var k := i - base;
        assert flag[k] == flag0[k] || FillCount(base, edge, first, |data|) > 0;
      }
    }
  }

  lemma {:induction false} RunLengthIs(known: map<nat, Byte>, i: nat, n: nat)
    requires forall k :: i <= k < i + n ==> k in known
    requires i + n !in known
    ensures RunLength(known, i) == n
    decreases n
  {
    if n > 0 {
      RunLengthIs(known, i + 1, n - 1);
    }
  }

  // The leading set flags mark the known run.
  lemma LeadingFlagsAreRun(flag: seq<bool>, buffer: seq<Byte>, base: nat, cnt: nat)
    requires cnt <= |flag| == |buffer|
    requires forall k :: 0 <= k < cnt ==> flag[k]
    requires cnt == |flag| || !flag[cnt]
    ensures Run(Stored(flag, buffer, base), base) == buffer[..cnt]
  {
    var known := Stored(flag, buffer, base);
    forall i | base <= i < base + cnt
      ensures i in known && known[i] == buffer[i - base]
    {
      assert flag[i - base];
    }
    RunLengthIs(known, base, cnt);
  }

  // Sliding the vectors by cnt forgets the indices before base + cnt.
  lemma SlideIsFrom(flag: seq<bool>, buffer: seq<Byte>, base: nat, cnt: nat)
    requires cnt <= |flag| == |buffer|
    ensures Stored(Slid(flag, cnt, false), Slid(buffer, cnt, 0), base + cnt)
            == From(Stored(flag, buffer, base), base + cnt)
  {
    var flag', buffer' := Slid(flag, cnt, false), Slid(buffer, cnt, 0);
    var slid, rest := Stored(flag', buffer', base + cnt), From(Stored(flag, buffer, base), base + cnt);
    forall i: nat
      ensures i in slid <==> i in rest
      ensures i in slid ==> slid[i] == rest[i]
    {
      if base + cnt <= i < base + |flag| {
        assert flag'[i - base - cnt] == flag[i - base];
        assert buffer'[i - base - cnt] == buffer[i - base];
      }
    }
  }

  lemma SlideCount(flag: seq<bool>, cnt: nat)
    requires cnt <= |flag|
    requires forall k :: 0 <= k < cnt ==> flag[k]
    ensures SetFlags(Slid(flag, cnt, false)) == SetFlags(flag) - cnt
  {
    assert flag == flag[..cnt] + flag[cnt..];
    AllOf(flag[..cnt], true);
    AllOf(Repeat(false, cnt), false);
  }

  lemma {:induction false} AllOf(s: seq<bool>, b: bool)
    requires forall k :: 0 <= k < |s| ==> s[k] == b
    ensures SetFlags(s) == if b then |s| else 0
    decreases |s|
  {
    if s != [] {
      var n := |s| - 1;
      AllOf(s[..n], b);
      assert s == s[..n] + [s[n]];
    }
  }

  // Flushing the leading set flags writes the known run and keeps the rest.
  lemma FlushIsSettle(flag: seq<bool>, buffer: seq<Byte>, base: nat, cnt: nat, known: map<nat, Byte>)
    requires |flag| == |buffer| && Stored(flag, buffer, base) == known
    requires cnt <= |flag| && (forall k :: 0 <= k < cnt ==> flag[k])
    requires cnt == |flag| || !flag[cnt]
    ensures Run(known, base) == buffer[..cnt] && cnt == |Run(known, base)|
    ensures Stored(Slid(flag, cnt, false), Slid(buffer, cnt, 0), base + cnt) == From(known, base + cnt)
    ensures From(known, base + cnt) == map[] <==> SetFlags(Slid(flag, cnt, false)) == 0
  {
    LeadingFlagsAreRun(flag, buffer, base, cnt);
    SlideIsFrom(flag, buffer, base, cnt);
    SetFlagsCountStored(Slid(flag, cnt, false), Slid(buffer, cnt, 0), base + cnt);
  }

  class Reassembler {
    var baseIndex: nat
    var unassembledSize: nat
    var buffer: seq<Byte>
    var flag: seq<bool>
    var eof: bool
    var initialized: bool

    // The output is the one stream that this reassembler writes; baseIndex counts its bytes.
    ghost predicate Valid(output: ByteStream)
      reads this, output
    {
      Consistent(output) && Model(output).Windowed()
    }

    ghost predicate Consistent(output: ByteStream)
      reads this, output
    {
      && output.Valid()
      && |flag| == |buffer|
      && baseIndex == output.bytesWrite
      && (if initialized then |flag| == output.capacity else flag == [] && output.stream == [])
      && unassembledSize == SetFlags(flag)
    }

    ghost function Model(output: ByteStream): Assembly
      requires output.Valid() && |flag| == |buffer|
      reads this, output
    {
      Assembly(Stored(flag, buffer, baseIndex), eof, output.Model())
    }

    constructor (ghost output: ByteStream)
      requires output.Valid() && output.bytesWrite == 0
      ensures Valid(output)
      ensures Model(output) == Assembly(map[], false, output.Model())
    {
      baseIndex, unassembledSize, buffer, flag, eof, initialized := 0, 0, [], [], false, false;
      new;
      assert Stored([], [], 0) == map[];
    }

    // The receiver only inserts substrings that begin inside the window or at its edge.
    method Insert(firstIndex: nat, data: seq<Byte>, isLastSubstring: bool, output: ByteStream)
      requires Valid(output)
      requires firstIndex <= baseIndex + output.AvailableCapacity()
      modifies this, output
      ensures Valid(output)
      ensures Model(output) == Reassembly.Insert(old(Model(output)), firstIndex, data, isLastSubstring)
    {
      hide SetFlags, Stored, Run, From, Merge;
      ghost var a := Model(output);
      Absorb(firstIndex, data, output);
      ghost var known := Stored(flag, buffer, baseIndex);
      MergeWindowed(a, firstIndex, data);
      RunFits(known, a.Base(), a.Edge());
      Release(isLastSubstring, output);
      assert Model(output) == Reassembly.Insert(a, firstIndex, data, isLastSubstring);
      InsertKeepsWindowed(a, firstIndex, data, isLastSubstring);
    }

    // Stores the substring.
    method Absorb(firstIndex: nat, data: seq<Byte>, output: ByteStream)
      requires Valid(output)
      requires firstIndex <= baseIndex + output.AvailableCapacity()
      modifies this`flag, this`buffer, this`unassembledSize, this`initialized
      ensures Consistent(output) && initialized
      ensures Stored(flag, buffer, baseIndex) == Merge(old(Model(output)), firstIndex, data)
    {
      hide SetFlags, Filled, Stored, Clip;
      ghost var edge := baseIndex + output.AvailableCapacity();
      if !initialized {
        Initialize(output);
      }
      ghost var flag0, buffer0 := flag, buffer;
      Store(firstIndex, data, output);
      FilledIsMerged(flag, buffer, flag0, buffer0, baseIndex, edge, firstIndex, data);
    }

    // Writes what has become contiguous, and closes the output if nothing is left to wait for.
    method Release(isLastSubstring: bool, output: ByteStream)
      requires Consistent(output) && initialized
      requires |Run(Stored(flag, buffer, baseIndex), baseIndex)| <= output.AvailableCapacity()
      modifies this, output
      ensures Consistent(output)
      ensures var known := old(Stored(flag, buffer, baseIndex));
              var run := Run(known, old(baseIndex));
              Model(output) == Settle(old(Model(output)), run, From(known, old(baseIndex) + |run|), isLastSubstring)
    {
      hide Stored, Slid, SetFlags, Run, From;
      ghost var flag1, buffer1, base1 := flag, buffer, baseIndex;
      ghost var cnt := Flush(output);
      FlushIsSettle(flag1, buffer1, base1, cnt, Stored(flag1, buffer1, base1));
      if isLastSubstring {
        eof := true;
      }
      if unassembledSize == 0 && eof {
        output.Close();
      }
    }

    method Initialize(output: ByteStream)
      requires Valid(output) && !initialized
      modifies this`flag, this`buffer, this`initialized
      ensures Valid(output) && initialized && Model(output) == old(Model(output))
    {
      flag := flag + Repeat(false, output.AvailableCapacity());
      buffer := buffer + Repeat(0, output.AvailableCapacity());
      initialized := true;
      AllOf(flag, false);
      assert Stored(flag, buffer, baseIndex) == map[] == old(Stored(flag, buffer, baseIndex));
    }

    // Stores the bytes of the substring that fall into the window and are not known yet.
    method Store(firstIndex: nat, data: seq<Byte>, output: ByteStream)
      requires output.Valid() && |flag| == |buffer| == output.capacity && unassembledSize == SetFlags(flag)
      requires firstIndex <= baseIndex + output.AvailableCapacity()
      modifies this`flag, this`buffer, this`unassembledSize
      ensures |flag| == |buffer| == output.capacity && unassembledSize == SetFlags(flag)
      ensures var start := Max(baseIndex, firstIndex);
              var n := FillCount(baseIndex, baseIndex + output.AvailableCapacity(), firstIndex, |data|);
              if n == 0 then flag == old(flag) && buffer == old(buffer)
              else Filled(flag, buffer, old(flag), old(buffer), start - baseIndex, n, data, start - firstIndex)
    {
      var startIndex := Max(baseIndex, firstIndex);
      var endIndex := Min(baseIndex + output.AvailableCapacity(), firstIndex + |data|);
      var len := ToU64(endIndex - startIndex);
      assert startIndex <= endIndex ==> len == endIndex - startIndex;
      if firstIndex > baseIndex {
        StoreLoop(firstIndex - baseIndex, Min(len, |data|), data, 0);
      } else if firstIndex + |data| > baseIndex {
        StoreLoop(0, Min(len, |flag|), data, baseIndex - firstIndex);
      }
    }

    // Both of insert's loops: data[from + i] goes to offset lo + i, for i below n.
    method StoreLoop(lo: nat, n: nat, data: seq<Byte>, from: nat)
      requires |flag| == |buffer| && unassembledSize == SetFlags(flag)
      requires lo + n <= |flag| && from + n <= |data|
      modifies this`flag, this`buffer, this`unassembledSize
      ensures |flag| == |buffer| == old(|flag|) && unassembledSize == SetFlags(flag)
      ensures Filled(flag, buffer, old(flag), old(buffer), lo, n, data, from)
      ensures n == 0 ==> flag == old(flag) && buffer == old(buffer)
    {
      ghost var flag0, buffer0 := flag, buffer;
      for i := 0 to n
        invariant |flag| == |buffer| == |flag0| && unassembledSize == SetFlags(flag)
        invariant Filled(flag, buffer, flag0, buffer0, lo, i, data, from)
      {
        FillStep(flag, buffer, flag0, buffer0, lo, i, data, from);
        if !flag[lo + i] {
          flag := flag[lo + i := true];
          buffer := buffer[lo + i := data[from + i]];
          unassembledSize := unassembledSize + 1;
        }
      }
    }

    // Writes the bytes of the leading set flags to the output and slides the vectors.
    method Flush(output: ByteStream) returns (cnt: nat)
      requires output.Valid() && |flag| == |buffer| && unassembledSize == SetFlags(flag)
      modifies this`flag, this`buffer, this`unassembledSize, this`baseIndex, output
      ensures cnt <= old(|flag|) && (forall k :: 0 <= k < cnt ==> old(flag)[k])
      ensures cnt == old(|flag|) || !old(flag)[cnt]
      ensures output.Valid() && output.Model() == old(output.Model()).Push(old(buffer)[..cnt])
      ensures flag == Slid(old(flag), cnt, false)
      ensures buffer == Slid(old(buffer), cnt, 0)
      ensures baseIndex == old(baseIndex) + cnt && unassembledSize == SetFlags(flag)
    {
      var tmp := [];
      cnt := 0;
      while cnt < |flag| && flag[cnt]
        invariant cnt <= |flag|
        invariant forall k :: 0 <= k < cnt ==> flag[k]
        invariant tmp == buffer[..cnt]
      {
        tmp := tmp + [buffer[cnt]];
        cnt := cnt + 1;
      }
      SlideCount(flag, cnt);
      if cnt != 0 {
        flag := Slid(flag, cnt, false);
        buffer := Slid(buffer, cnt, 0);
        output.Push(tmp);
        unassembledSize := unassembledSize - cnt;
        baseIndex := baseIndex + cnt;
      } else {
        assert Slid(flag, 0, false) == flag && Slid(buffer, 0, 0) == buffer;
        assert output.Model().written + [] == output.Model().written;
      }
    }

    // How many bytes are stored but not written yet.
    function BytesPending(): nat
      reads this
    {
      unassembledSize
    }

    lemma BytesPendingCounts(output: ByteStream)
      requires Valid(output)
      ensures BytesPending() == |Model(output).pending|
    {
      SetFlagsCountStored(flag, buffer, baseIndex);
    }
  }

  // The unsigned subtraction that bounds the storing loop: it stays within the window exactly
  // when the substring begins at or before the window's edge, or is empty.
  function LoopCount(base: nat, edge: nat, first: nat, size: nat): nat
  {
    Min(ToU64(Min(edge, first + size) - Max(base, first)), size)
  }

  lemma LoopStaysInWindow(base: nat, edge: nat, first: nat, size: nat)
    requires base <= edge && base < first
    requires first < TWO64 && size < TWO64 && first + size < TWO64
    ensures first + LoopCount(base, edge, first, size) <= Max(edge, first) <==> first <= edge || size == 0
  {
  }
}
