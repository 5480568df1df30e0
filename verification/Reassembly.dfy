// What reassembly means: a partial map from stream indices to bytes, of which the longest
// known run has already been written to the output (src/reassembler.hh:26-50).
module Reassembly {
  import opened Words
  import opened ByteStreams

  datatype Assembly = Assembly(pending: map<nat, Byte>, eof: bool, out: Stream)
  {
    // The index of the next byte the output needs.
    function Base(): nat { |out.written| }

    // The first index there is no room for.
    function Edge(): nat { Base() + out.Available() }

    // Every stored byte lies strictly inside the window.
    ghost predicate Windowed()
    {
      forall k <- pending :: Base() < k < Edge()
    }
  }

  // Every natural number is a stream index; the sets of indices below are described with it.
  predicate IsIndex(i: nat) { true }

  // The indices from lo on that are below hi.
  function Interval(lo: nat, hi: int): (s: set<nat>)
    ensures forall i: nat :: i in s <==> lo <= i < hi
  {
    set i: nat | lo <= i < hi && IsIndex(i)
  }

  // The part of a substring that is neither written already nor beyond the window.
  function Clip(base: nat, edge: nat, first: nat, data: seq<Byte>): map<nat, Byte>
  {
    map i: nat | Max(base, first) <= i < Min(edge, first + |data|) && IsIndex(i) :: data[i - first]
  }

  // Bytes that were stored first win.
  function Merge(a: Assembly, first: nat, data: seq<Byte>): map<nat, Byte>
  {
    Clip(a.Base(), a.Edge(), first, data) + a.pending
  }

  ghost function Beyond(known: map<nat, Byte>, i: nat): set<nat>
  {
    set k | k in known && i <= k
  }

  // How many consecutive indices from i on are known.
  function RunLength(known: map<nat, Byte>, i: nat): (n: nat)
    ensures forall k :: i <= k < i + n ==> k in known
    ensures i + n !in known
    decreases Beyond(known, i)
  {
    if i in known then
      assert Beyond(known, i) == Beyond(known, i + 1) + {i};
      1 + RunLength(known, i + 1)
    else 0
  }

  function Run(known: map<nat, Byte>, i: nat): seq<Byte>
  {
    seq(RunLength(known, i), k requires 0 <= k < RunLength(known, i) => known[i + k])
  }

  function From(known: map<nat, Byte>, i: nat): map<nat, Byte>
  {
    map k | k in known && i <= k :: known[k]
  }

  function Insert(a: Assembly, first: nat, data: seq<Byte>, last: bool): Assembly
  {
    var known := Merge(a, first, data);
    var run := Run(known, a.Base());
    Settle(a, run, From(known, a.Base() + |run|), last)
  }

  // Writes the known run, keeps the rest, and closes the output if nothing is left to wait for.
  function Settle(a: Assembly, run: seq<Byte>, rest: map<nat, Byte>, last: bool): Assembly
  {
    var eof := a.eof || last;
    var out := a.out.Push(run);
    Assembly(rest, eof, if rest == map[] && eof then out.Close() else out)
  }

  lemma MergeWindowed(a: Assembly, first: nat, data: seq<Byte>)
    requires a.Windowed()
    ensures forall k <- Merge(a, first, data) :: a.Base() <= k < a.Edge()
  {
  }

  lemma RunFits(known: map<nat, Byte>, base: nat, edge: nat)
    requires base <= edge
    requires forall k <- known :: k < edge
    ensures |Run(known, base)| <= edge - base
  {
    var n := RunLength(known, base);
    if n > 0 {
      assert base + n - 1 in known;
    }
  }

  // The output takes the whole flushed run, and the window invariant is kept.
  lemma InsertKeepsWindowed(a: Assembly, first: nat, data: seq<Byte>, last: bool)
    requires a.Windowed()
    ensures var known := Merge(a, first, data);
            var a' := Insert(a, first, data, last);
            && a'.Windowed()
            && a'.out.written == a.out.written + Run(known, a.Base())
            && a'.Edge() == a.Edge()
  {
    var known := Merge(a, first, data);
    var run := Run(known, a.Base());
    MergeWindowed(a, first, data);
    RunFits(known, a.Base(), a.Edge());
    assert run[..|run|] == run;
    assert a.Base() + |run| !in known;
  }

  // --- Substrings of one fixed string ---

  // What is known so far is part of the string s.
  ghost predicate Agrees(a: Assembly, s: seq<Byte>)
  {
    && a.out.written <= s
    && forall k <- a.pending :: k < |s| && a.pending[k] == s[k]
  }

  predicate PieceOf(first: nat, data: seq<Byte>, s: seq<Byte>)
  {
    first + |data| <= |s| && data == s[first..first + |data|]
  }

  // Every index whose byte has arrived.
  ghost function Known(a: Assembly): set<nat>
  {
    Interval(0, a.Base()) + a.pending.Keys
  }

  ghost function Span(first: nat, data: seq<Byte>): set<nat>
  {
    Interval(first, first + |data|)
  }

  // An insertion makes known exactly the part of the substring below the window's edge.
  lemma InsertKnown(a: Assembly, first: nat, data: seq<Byte>, last: bool)
    requires a.Windowed()
    ensures Known(Insert(a, first, data, last)) ==
            Known(a) + (set i | i in Span(first, data) && i < a.Edge())
  {
    InsertKeepsWindowed(a, first, data, last);
    var known := Merge(a, first, data);
    var a' := Insert(a, first, data, last);
    forall i: nat
      ensures i in Known(a') <==> i < a.Base() || i in known
    {
    }
  }

  // The byte known at an index, written or stored.
  ghost function ByteAt(a: Assembly, i: nat): Byte
    requires i in Known(a)
  {
    if i < a.Base() then a.out.written[i] else a.pending[i]
  }

  // The first write wins: an insertion changes no byte that was known, and every byte that becomes
  // known is the one the substring has there. This holds whatever the substring says.
  lemma InsertContents(a: Assembly, first: nat, data: seq<Byte>, last: bool, i: nat)
    requires a.Windowed() && i in Known(Insert(a, first, data, last))
    ensures i in Known(a) ==> ByteAt(Insert(a, first, data, last), i) == ByteAt(a, i)
    ensures i !in Known(a) ==>
              i in Span(first, data) && ByteAt(Insert(a, first, data, last), i) == data[i - first]
  {
    hide Run;
    var known := Merge(a, first, data);
    InsertKeepsWindowed(a, first, data, last);
    InsertKnown(a, first, data, last);
    if a.Base() <= i < Insert(a, first, data, last).Base() {
      RunIsKnown(known, a.Base(), i - a.Base());
    }
  }

  lemma RunIsKnown(known: map<nat, Byte>, base: nat, k: nat)
    requires k < |Run(known, base)|
    ensures base + k in known && Run(known, base)[k] == known[base + k]
  {
    var i := base + k;
    assert i in known;
  }

  // Every byte the window would take from the substring is the one the string s has there.
  predicate Fits(a: Assembly, first: nat, data: seq<Byte>, s: seq<Byte>)
  {
    var clip := Clip(a.Base(), a.Edge(), first, data);
    forall i <- clip :: i in a.pending || (i < |s| && clip[i] == s[i])
  }

  // What is known stays part of the string exactly if the substring fits.
  lemma InsertAgreesExactly(a: Assembly, first: nat, data: seq<Byte>, last: bool, s: seq<Byte>)
    requires a.Windowed() && Agrees(a, s)
    ensures Agrees(Insert(a, first, data, last), s) <==> Fits(a, first, data, s)
  {
    hide Insert, Agrees, Known, Clip;
    if Fits(a, first, data, s) {
      FittingAgrees(a, first, data, last, s);
    } else {
      var clip := Clip(a.Base(), a.Edge(), first, data);
      var i :| i in clip && i !in a.pending && !(i < |s| && clip[i] == s[i]);
      TakenFromData(a, first, data, last, i);
      if Agrees(Insert(a, first, data, last), s) {
        AgreesAt(Insert(a, first, data, last), s, i);
      }
    }
  }

  lemma TakenFromData(a: Assembly, first: nat, data: seq<Byte>, last: bool, i: nat)
    requires a.Windowed()
    requires i in Clip(a.Base(), a.Edge(), first, data) && i !in a.pending
    ensures i in Known(Insert(a, first, data, last))
    ensures ByteAt(Insert(a, first, data, last), i) == Clip(a.Base(), a.Edge(), first, data)[i]
  {
    hide Insert;
    InsertKnown(a, first, data, last);
    InsertContents(a, first, data, last, i);
  }

  lemma AgreesAt(a: Assembly, s: seq<Byte>, i: nat)
    requires Agrees(a, s) && i in Known(a)
    ensures i < |s| && ByteAt(a, i) == s[i]
  {
  }

  lemma FittingAgrees(a: Assembly, first: nat, data: seq<Byte>, last: bool, s: seq<Byte>)
    requires a.Windowed() && Agrees(a, s) && Fits(a, first, data, s)
    ensures Agrees(Insert(a, first, data, last), s)
  {
    var known := Merge(a, first, data);
    var run := Run(known, a.Base());
    InsertKeepsWindowed(a, first, data, last);
    assert forall k <- known :: k < |s| && known[k] == s[k];
    if run != [] {
      assert a.Base() + |run| - 1 in known;
    }
    assert forall k :: 0 <= k < |run| ==> run[k] == s[a.Base() + k];
  }

  // A piece of the string always fits.
  lemma InsertAgrees(a: Assembly, first: nat, data: seq<Byte>, last: bool, s: seq<Byte>)
    requires a.Windowed() && Agrees(a, s)
    requires data != [] ==> PieceOf(first, data, s)
    ensures Agrees(Insert(a, first, data, last), s)
  {
    hide Insert;
    PieceFits(a, first, data, s);
    FittingAgrees(a, first, data, last, s);
  }

  lemma PieceFits(a: Assembly, first: nat, data: seq<Byte>, s: seq<Byte>)
    requires data != [] ==> PieceOf(first, data, s)
    ensures Fits(a, first, data, s)
  {
  }

  // The output is always the longest known prefix.
  lemma BaseIsFirstUnknown(a: Assembly, n: nat)
    requires a.Windowed()
    requires forall i: nat :: i < n ==> i in Known(a)
    ensures n <= a.Base()
    ensures n !in Known(a) ==> n == a.Base()
  {
    assert a.Base() !in Known(a);
  }

  datatype Piece = Piece(first: nat, data: seq<Byte>, last: bool)

  function InsertAll(a: Assembly, ps: seq<Piece>): Assembly
  {
    if |ps| == 0 then a
    else
      var init := InsertAll(a, ps[..|ps| - 1]);
      Insert(init, ps[|ps| - 1].first, ps[|ps| - 1].data, ps[|ps| - 1].last)
  }

  ghost function Covered(ps: seq<Piece>): set<nat>
  {
    if |ps| == 0 then {} else Covered(ps[..|ps| - 1]) + Span(ps[|ps| - 1].first, ps[|ps| - 1].data)
  }

  ghost predicate PiecesOf(ps: seq<Piece>, s: seq<Byte>)
  {
    forall p <- ps :: PieceOf(p.first, p.data, s)
  }

  ghost predicate Below(ps: seq<Piece>, edge: nat)
  {
    forall p <- ps :: p.first + |p.data| <= edge
  }

  predicate HasLast(ps: seq<Piece>)
  {
    exists p <- ps :: p.last
  }

  lemma {:induction false} InsertAllKnown(a: Assembly, ps: seq<Piece>, s: seq<Byte>)
    requires a.Windowed() && Agrees(a, s)
    requires PiecesOf(ps, s) && Below(ps, a.Edge())
    ensures var a' := InsertAll(a, ps);
            && a'.Windowed() && Agrees(a', s) && a'.Edge() == a.Edge()
            && Known(a') == Known(a) + Covered(ps)
            && a'.eof == (a.eof || HasLast(ps))
  {
    hide Insert, Known, Agrees;
    if |ps| > 0 {
      var init, p := ps[..|ps| - 1], ps[|ps| - 1];
      assert ps == init + [p];
      InsertAllKnown(a, init, s);
      var b := InsertAll(a, init);
      assert p in ps;
      InsertKeepsWindowed(b, p.first, p.data, p.last);
      InsertAgrees(b, p.first, p.data, p.last, s);
      InsertKnown(b, p.first, p.data, p.last);
      InsertEof(b, p.first, p.data, p.last);
      assert (set i | i in Span(p.first, p.data) && i < b.Edge()) == Span(p.first, p.data);
      assert HasLast(ps) == (HasLast(init) || p.last);
    }
  }

  lemma InsertEof(a: Assembly, first: nat, data: seq<Byte>, last: bool)
    ensures Insert(a, first, data, last).eof == (a.eof || last)
  {
    hide Run;
  }

  // What is known determines everything that was reassembled.
  lemma KnownDetermines(a: Assembly, b: Assembly, s: seq<Byte>)
    requires a.Windowed() && b.Windowed() && Agrees(a, s) && Agrees(b, s)
    requires Known(a) == Known(b)
    ensures a.out.written == b.out.written && a.pending == b.pending
  {
    BaseIsFirstUnknown(a, a.Base());
    assert a.Base() !in Known(a);
    BaseIsFirstUnknown(b, a.Base());
    assert a.Base() == b.Base();
    forall k: nat
      ensures k in a.pending <==> k in b.pending
    {
      assert k in a.pending <==> k in Known(a) && k > a.Base();
      assert k in b.pending <==> k in Known(b) && k > b.Base();
    }
  }

  // Whatever the order, overlap or duplication of the pieces, the result depends only
  // on which indices they cover.
  lemma OrderIndependence(a: Assembly, ps: seq<Piece>, qs: seq<Piece>, s: seq<Byte>)
    requires a.Windowed() && Agrees(a, s)
    requires PiecesOf(ps, s) && Below(ps, a.Edge())
    requires PiecesOf(qs, s) && Below(qs, a.Edge())
    requires Covered(ps) == Covered(qs)
    ensures InsertAll(a, ps).out.written == InsertAll(a, qs).out.written
    ensures InsertAll(a, ps).pending == InsertAll(a, qs).pending
  {
    InsertAllKnown(a, ps, s);
    InsertAllKnown(a, qs, s);
    KnownDetermines(InsertAll(a, ps), InsertAll(a, qs), s);
  }

  // Pieces that cover the first n indices and miss the next one output exactly n bytes.
  lemma CoveredPrefixIsWritten(capacity: nat, ps: seq<Piece>, s: seq<Byte>, n: nat)
    requires PiecesOf(ps, s) && Below(ps, capacity)
    requires (forall i: nat :: i < n ==> i in Covered(ps)) && n !in Covered(ps)
    ensures n <= |s|
    ensures InsertAll(Assembly(map[], false, EmptyStream(capacity)), ps).out.written == s[..n]
  {
    var a := Assembly(map[], false, EmptyStream(capacity));
    InsertAllKnown(a, ps, s);
    BaseIsFirstUnknown(InsertAll(a, ps), n);
  }
}
