// When the reassembler closes its output. The flag that the last substring was seen is kept
// even if that substring was cut off at the window or was empty and out of order, so the output
// can close early; this module says exactly when it cannot.
module Closing {
  import opened Words
  import opened ByteStreams
  import opened Reassembly

  // Things that happen to an assembly after the last substring was seen: another piece
  // arrives, or the application reads.
  datatype Later = Arrive(first: nat, data: seq<Byte>) | Take(len: nat)

  function Resume(a: Assembly, l: Later): Assembly
  {
    match l
    case Arrive(first, data) => Insert(a, first, data, true)
    case Take(len) => a.(out := a.out.Pop(len))
  }

  function ResumeAll(a: Assembly, ls: seq<Later>): Assembly
    decreases ls
  {
    if ls == [] then a else ResumeAll(Resume(a, ls[0]), ls[1..])
  }

  // Only pieces of the stream s arrive; where an empty piece is placed does not matter.
  predicate PieceArrives(l: Later, s: seq<Byte>)
  {
    l.Arrive? && l.data != [] ==> PieceOf(l.first, l.data, s)
  }

  predicate Genuine(ls: seq<Later>, s: seq<Byte>)
  {
    forall l <- ls :: PieceArrives(l, s)
  }

  // The output has been closed if and only if it is complete.
  predicate ClosedAtEnd(a: Assembly, s: seq<Byte>)
  {
    a.out.closed <==> a.out.written == s
  }

  // The last byte of s was written, or waits in the window.
  predicate EndKnown(a: Assembly, s: seq<Byte>)
  {
    a.out.written == s || (s != [] && |s| - 1 in a.pending)
  }

  // What can be checked before the last substring is inserted: the stream is complete without
  // it, its last byte is stored already, or it carries its last byte and that byte fits.
  predicate FinSafe(a: Assembly, first: nat, data: seq<Byte>)
  {
    var end := first + |data|;
    || end <= a.Base()
    || end - 1 in a.pending
    || (data != [] && end <= a.Edge())
  }

  lemma InsertLast(a: Assembly, first: nat, data: seq<Byte>, s: seq<Byte>)
    requires a.Windowed() && Agrees(a, s) && !a.out.closed
    requires PieceOf(first, data, s) && first + |data| == |s|
    ensures FinSafe(a, first, data) <==> EndKnown(Insert(a, first, data, true), s)
    ensures EndKnown(Insert(a, first, data, true), s) ==> ClosedAtEnd(Insert(a, first, data, true), s)
  {
    var a' := Insert(a, first, data, true);
    InsertKeepsWindowed(a, first, data, true);
    InsertAgrees(a, first, data, true, s);
    InsertKnown(a, first, data, true);
    if s == [] {
      assert a'.out.written == [];
    } else {
      var z := |s| - 1;
      assert EndKnown(a', s) <==> z in Known(a');
      assert z in Known(a) <==> |s| <= a.Base() || z in a.pending;
      assert z in Span(first, data) <==> data != [];
    }
    Empties(a', s);
  }

  lemma Empties(a: Assembly, s: seq<Byte>)
    requires a.Windowed() && Agrees(a, s)
    ensures a.out.written == s ==> a.pending == map[]
    ensures EndKnown(a, s) && a.pending == map[] ==> a.out.written == s
  {
    if a.out.written == s {
      assert forall k :: k !in a.pending;
    }
  }

  lemma ResumeKeeps(a: Assembly, l: Later, s: seq<Byte>)
    requires a.Windowed() && Agrees(a, s)
    requires PieceArrives(l, s)
    ensures Resume(a, l).Windowed() && Agrees(Resume(a, l), s)
    ensures a.eof && EndKnown(a, s) && ClosedAtEnd(a, s) ==>
              Resume(a, l).eof && EndKnown(Resume(a, l), s) && ClosedAtEnd(Resume(a, l), s)
  {
    if l.Arrive? {
      InsertKeepsWindowed(a, l.first, l.data, true);
      InsertAgrees(a, l.first, l.data, true, s);
      InsertKeepsEnd(a, l.first, l.data, s);
    }
  }

  // Once the end is known, whatever keeps the contents right keeps the closing right.
  lemma InsertKeepsEnd(a: Assembly, first: nat, data: seq<Byte>, s: seq<Byte>)
    requires a.Windowed() && Agrees(a, s) && Agrees(Insert(a, first, data, true), s)
    ensures a.eof && EndKnown(a, s) && ClosedAtEnd(a, s) ==>
              var a' := Insert(a, first, data, true);
              a'.eof && EndKnown(a', s) && ClosedAtEnd(a', s)
  {
    var a' := Insert(a, first, data, true);
    InsertKeepsWindowed(a, first, data, true);
    InsertKnown(a, first, data, true);
    if s != [] {
      assert EndKnown(a, s) <==> |s| - 1 in Known(a);
      assert EndKnown(a', s) <==> |s| - 1 in Known(a');
    }
    Empties(a, s);
    Empties(a', s);
  }

  lemma {:induction false} ResumeAllKeeps(a: Assembly, ls: seq<Later>, s: seq<Byte>)
    requires a.Windowed() && Agrees(a, s) && Genuine(ls, s)
    requires a.eof && EndKnown(a, s) && ClosedAtEnd(a, s)
    ensures ClosedAtEnd(ResumeAll(a, ls), s)
    decreases ls
  {
    if ls != [] {
      assert ls[0] in ls;
      ResumeKeeps(a, ls[0], s);
      ResumeAllKeeps(Resume(a, ls[0]), ls[1..], s);
    }
  }

  lemma {:induction false} HasGreatest(s: set<nat>) returns (g: nat)
    requires s != {}
    ensures g in s && forall k <- s :: k <= g
  {
    var x :| x in s;
    g := x;
    if s != {x} {
      assert s - {x} != {};
      var h := HasGreatest(s - {x});
      g := Max(x, h);
      assert forall k <- s :: k == x || k in s - {x};
    }
  }

  lemma FillGaps(a: Assembly, g: nat, s: seq<Byte>)
    requires a.Windowed() && Agrees(a, s) && a.eof
    requires g in a.pending && forall k <- a.pending :: k <= g
    ensures var a' := Insert(a, a.Base(), s[a.Base()..g], true);
            a'.out.closed && a'.Base() == g + 1
  {
    var data := s[a.Base()..g];
    var a' := Insert(a, a.Base(), data, true);
    InsertKeepsWindowed(a, a.Base(), data, true);
    InsertKnown(a, a.Base(), data, true);
    assert g + 1 !in Known(a');
    BaseIsFirstUnknown(a', g + 1);
    assert forall k :: k !in a'.pending;
  }

  // If the end is not known, the piece that fills every gap closes the output too soon.
  lemma FillingGapsClosesEarly(a: Assembly, s: seq<Byte>) returns (ls: seq<Later>)
    requires a.Windowed() && Agrees(a, s) && a.eof && !EndKnown(a, s)
    requires a.pending == map[] ==> a.out.closed
    ensures Genuine(ls, s) && !ClosedAtEnd(ResumeAll(a, ls), s)
  {
    if a.pending == map[] {
      ls := [];
    } else {
      var g := HasGreatest(a.pending.Keys);
      FillGaps(a, g, s);
      ls := [Arrive(a.Base(), s[a.Base()..g])];
      assert ResumeAll(a, ls) == ResumeAll(Resume(a, ls[0]), []);
      assert |s| != g + 1;
    }
  }

  // The exact condition on the substring that ends the stream.
  lemma ClosesExactlyAtEnd(a: Assembly, first: nat, data: seq<Byte>, s: seq<Byte>)
    requires a.Windowed() && Agrees(a, s) && !a.out.closed
    requires PieceOf(first, data, s) && first + |data| == |s|
    ensures FinSafe(a, first, data) <==>
            forall ls | Genuine(ls, s) :: ClosedAtEnd(ResumeAll(Insert(a, first, data, true), ls), s)
  {
    var a' := Insert(a, first, data, true);
    InsertKeepsWindowed(a, first, data, true);
    InsertAgrees(a, first, data, true, s);
    InsertLast(a, first, data, s);
    if FinSafe(a, first, data) {
      forall ls | Genuine(ls, s)
        ensures ClosedAtEnd(ResumeAll(a', ls), s)
      {
        ResumeAllKeeps(a', ls, s);
      }
    } else {
      var ls := FillingGapsClosesEarly(a', s);
    }
  }

  // One input that fails: the stream is "x", and its empty end arrives first.
  lemma EmptyEndOutOfOrderClosesEarly()
    ensures var s := [120];
            var a := Insert(Assembly(map[], false, EmptyStream(10)), 1, [], true);
            PieceOf(1, [], s) && a.out.closed && a.out.written == []
  {
    var a := Assembly(map[], false, EmptyStream(10));
    assert Merge(a, 1, []) == map[];
    assert From(map[], 0) == map[];
  }
}
