// What every step of the sender keeps, and what that means over whole runs.
module SenderSafety {
  import opened Words
  import opened WrappingIntegers
  import opened ByteStreams
  import opened SenderModel

  // --- Contiguous messages ---

  // The messages cover the sequence numbers from lo up to hi, each exactly once.
  ghost predicate Tiles(gs: seq<Seg>, lo: int, hi: int)
  {
    && (if gs == [] then lo == hi else gs[0].pos == lo && gs[|gs| - 1].End() == hi)
    && (forall i :: 0 <= i < |gs| ==> gs[i].Len() > 0)
    && (forall i, j :: 0 <= i && j == i + 1 < |gs| ==> gs[i].End() == gs[j].pos)
  }

  lemma TilesAppend(gs: seq<Seg>, lo: int, hi: int, g: Seg)
    requires Tiles(gs, lo, hi) && g.pos == hi && g.Len() > 0
    ensures Tiles(gs + [g], lo, g.End())
  {
  }

  lemma {:induction false} TilesDrop(gs: seq<Seg>, lo: int, hi: int, n: nat)
    requires Tiles(gs, lo, hi) && n <= |gs|
    ensures Tiles(gs[n..], lo + TotalLen(gs[..n]), hi)
    ensures n < |gs| ==> gs[n].pos == lo + TotalLen(gs[..n])
    decreases n
  {
    if n == 0 {
      assert gs[0..] == gs && gs[..0] == [];
    } else {
      assert gs[1..][n - 1..] == gs[n..];
      assert gs[..n] == [gs[0]] + gs[1..][..n - 1];
      TilesTail(gs, lo, hi);
      hide Tiles;
      TilesDrop(gs[1..], gs[0].End(), hi, n - 1);
    }
  }

  lemma TilesTail(gs: seq<Seg>, lo: int, hi: int)
    requires Tiles(gs, lo, hi) && gs != []
    ensures gs[0].pos == lo && Tiles(gs[1..], gs[0].End(), hi)
  {
  }

  lemma {:induction false} TilesOrdered(gs: seq<Seg>, lo: int, hi: int, i: nat)
    requires Tiles(gs, lo, hi) && i < |gs|
    ensures lo <= gs[i].pos && gs[i].End() <= hi
    ensures forall j :: 0 <= j < i ==> gs[j].End() <= gs[i].pos
    decreases |gs|
  {
    if i > 0 {
      TilesOrdered(gs[1..], gs[0].End(), hi, i - 1);
      forall j | 0 <= j < i
        ensures gs[j].End() <= gs[i].pos
      {
        if j > 0 {
          assert gs[1..][j - 1] == gs[j];
        }
      }
    } else if |gs| > 1 {
      TilesOrdered(gs[1..], gs[0].End(), hi, 0);
      assert gs[1..][0].pos == gs[1].pos;
    }
  }

  // Every number in the covered range lies in one of the messages.
  lemma {:induction false} TilesFind(gs: seq<Seg>, lo: int, hi: int, q: int) returns (i: nat)
    requires Tiles(gs, lo, hi) && lo <= q < hi
    ensures i < |gs| && gs[i].pos <= q < gs[i].End()
    decreases |gs|
  {
    if q < gs[0].End() {
      i := 0;
    } else {
      i := TilesFind(gs[1..], gs[0].End(), hi, q);
      i := i + 1;
    }
  }

  function Payloads(gs: seq<Seg>): seq<Byte>
  {
    if gs == [] then [] else Payloads(gs[..|gs| - 1]) + gs[|gs| - 1].payload
  }

  lemma PayloadsAppend(gs: seq<Seg>, g: Seg)
    ensures Payloads(gs + [g]) == Payloads(gs) + g.payload
  {
    assert (gs + [g])[..|gs|] == gs;
  }

  // The messages in flight are the latest ones created.
  predicate IsSuffix(gs: seq<Seg>, all: seq<Seg>)
  {
    |gs| <= |all| && gs == all[|all| - |gs|..]
  }

  lemma SuffixAppend(gs: seq<Seg>, all: seq<Seg>, g: Seg)
    requires IsSuffix(gs, all)
    ensures IsSuffix(gs + [g], all + [g])
  {
  }

  // --- The invariant ---

  // A message that agrees with the stream, where read bytes of it have been sent.
  predicate SegOk(g: Seg, s: Sender, out: Stream)
  {
    && g.End() <= s.next
    && |g.payload| <= MAX_PAYLOAD_SIZE
    && (g.syn ==> g.pos == 0 && g.payload == [])
    && (!g.syn && g.Len() > 0 ==> g.pos >= 1)
    && (g.payload != [] ==> g.pos >= 1 && IsSlice(g.payload, out.written[..out.read], g.pos - 1))
    && (g.fin ==> s.fin && g.End() == s.next)
  }

  predicate IsSlice(piece: seq<Byte>, whole: seq<Byte>, at: nat)
  {
    at + |piece| <= |whole| && piece == whole[at..at + |piece|]
  }

  ghost predicate Ok(s: Sender, out: Stream)
  {
    && Counts(s, out)
    && Layout(s, out)
    && AllOk(s.queue, s, out)
    && AllOk(s.created, s, out)
  }

  // Sequence-space accounting: next counts the SYN, the bytes taken from the stream, and the FIN.
  predicate Counts(s: Sender, out: Stream)
  {
    && |out.written| + 2 < TWO64
    && s.inFlight <= s.next
    && s.next == Bit(s.syn) + out.read + Bit(s.fin)
    && (!s.syn ==> !s.fin && s.queue == [] && s.outstanding == [] && out.read == 0)
    && (s.fin ==> out.Finished())
    && (s.syn && !s.fin && !s.SynOutstanding() ==> s.windowSpace <= s.windowSize)
  }

  // The messages ever created cover [0, next) and carry the bytes taken from the stream; those
  // in flight are the latest of them and cover the numbers not acknowledged.
  ghost predicate Layout(s: Sender, out: Stream)
  {
    && Tiles(s.created, 0, s.next)
    && Tiles(s.outstanding, s.Unacked(), s.next)
    && IsSuffix(s.outstanding, s.created)
    && Payloads(s.created) == out.written[..out.read]
  }

  predicate AllOk(gs: seq<Seg>, s: Sender, out: Stream)
  {
    forall g <- gs :: SegOk(g, s, out)
  }

  // How many sequence numbers can still be created before another ack is accepted.
  function Budget(s: Sender): nat
  {
    if !s.syn then 2
    else if s.fin || s.SynOutstanding() then 0
    else if s.ZeroWindow() then 1
    else s.windowSpace
  }

  predicate WithinBudget(s: Sender)
  {
    s.inFlight + Budget(s) <= 65535 + s.zeroAcks
  }

  lemma InitOk(isn: U32, initialRto: U64, capacity: nat)
    ensures Ok(NewSender(isn, initialRto), EmptyStream(capacity))
    ensures WithinBudget(NewSender(isn, initialRto))
  {
  }

  // Sent messages stay good as the sender and the stream move on.
  predicate Extends(s: Sender, out: Stream, s': Sender, out': Stream)
  {
    && s.next <= s'.next
    && out.written <= out'.written
    && out.read <= out'.read
    && (s.fin ==> s'.fin && s'.next == s.next)
    && s.isn == s'.isn
    && (s.syn ==> s'.syn)
  }

  lemma NothingHappens(s: Sender, out: Stream)
    ensures Extends(s, out, s, out) && Appends(s, s)
  {
  }

  lemma ExtendsTransitive(a: Sender, x: Stream, b: Sender, y: Stream, c: Sender, z: Stream)
    requires Extends(a, x, b, y) && Extends(b, y, c, z)
    ensures Extends(a, x, c, z)
  {
  }

  lemma SegStaysOk(g: Seg, s: Sender, out: Stream, s': Sender, out': Stream)
    requires SegOk(g, s, out) && Extends(s, out, s', out')
    ensures SegOk(g, s', out')
  {
    assert out.written[..out.read] <= out'.written[..out'.read];
  }

  lemma AllStayOk(gs: seq<Seg>, s: Sender, out: Stream, s': Sender, out': Stream)
    requires AllOk(gs, s, out) && Extends(s, out, s', out')
    ensures AllOk(gs, s', out')
  {
    forall g <- gs
      ensures SegOk(g, s', out')
    {
      SegStaysOk(g, s, out, s', out');
    }
  }

  lemma AllOkAppend(gs: seq<Seg>, s: Sender, out: Stream, g: Seg)
    requires AllOk(gs, s, out) && SegOk(g, s, out)
    ensures AllOk(gs + [g], s, out)
  {
  }

  // --- Sending ---

  // s' is s after creating the message g out of the next bytes of the stream.
  predicate Creates(s: Sender, out: Stream, s': Sender, out': Stream, g: Seg)
  {
    && out'.written == out.written && out'.read == out.read + |g.payload|
    && s'.next == s.next + g.Len() && s'.inFlight == s.inFlight + g.Len()
    && s'.queue == s.queue + [g] && s'.outstanding == s.outstanding + [g] && s'.created == s.created + [g]
    && s'.isn == s.isn && s'.syn && s'.fin == g.fin && !s.fin
    && g.pos == s.next && g.Len() > 0 && g.syn == !s.syn && (g.syn ==> g.payload == [])
    && |g.payload| <= MAX_PAYLOAD_SIZE && IsSlice(g.payload, out'.written, out.read)
    && (g.fin ==> out'.Finished())
    && (s'.fin || s'.SynOutstanding() || s'.windowSpace <= s'.windowSize)
  }

  lemma NewSegOk(s: Sender, out: Stream, s': Sender, out': Stream, g: Seg)
    requires Counts(s, out)
    requires Creates(s, out, s', out', g)
    ensures SegOk(g, s', out')
    ensures out'.written[..out'.read] == out.written[..out.read] + g.payload
  {
  }

  lemma EmitLayout(s: Sender, out: Stream, s': Sender, out': Stream, g: Seg)
    requires Layout(s, out) && Creates(s, out, s', out', g)
    ensures Layout(s', out')
  {
    hide Tiles, Payloads, IsSuffix;
    TilesAppend(s.created, 0, s.next, g);
    TilesAppend(s.outstanding, s.Unacked(), s.next, g);
    SuffixAppend(s.outstanding, s.created, g);
    PayloadsAppend(s.created, g);
    assert out'.written[..out'.read] == out.written[..out.read] + g.payload;
  }

  lemma EmitSegs(s: Sender, out: Stream, s': Sender, out': Stream, g: Seg)
    requires Counts(s, out) && AllOk(s.queue, s, out) && AllOk(s.created, s, out)
    requires Creates(s, out, s', out', g)
    ensures Extends(s, out, s', out')
    ensures AllOk(s'.queue, s', out') && AllOk(s'.created, s', out')
  {
    hide SegOk, AllOk, IsSlice;
    NewSegOk(s, out, s', out', g);
    AllStayOk(s.queue, s, out, s', out');
    AllStayOk(s.created, s, out, s', out');
    AllOkAppend(s.queue, s', out', g);
    AllOkAppend(s.created, s', out', g);
  }

  lemma EmitCounts(s: Sender, out: Stream, s': Sender, out': Stream, g: Seg)
    requires Counts(s, out) && Creates(s, out, s', out', g)
    ensures Counts(s', out')
  {
    hide IsSlice;
  }

  // Creating one message keeps the invariant.
  lemma EmitOk(s: Sender, out: Stream, s': Sender, out': Stream, g: Seg)
    requires Ok(s, out) && Creates(s, out, s', out', g)
    ensures Ok(s', out') && Extends(s, out, s', out')
  {
    hide Counts, Layout, AllOk, Creates;
    EmitLayout(s, out, s', out', g);
    EmitSegs(s, out, s', out', g);
    EmitCounts(s, out, s', out', g);
  }

  lemma PushSynOk(s: Sender, out: Stream)
    requires Ok(s, out) && !s.syn
    ensures Ok(PushSyn(s, out), out) && Extends(s, out, PushSyn(s, out), out)
  {
    hide Layout, AllOk;
    EmitOk(s, out, PushSyn(s, out), out, Seg(s.next, true, [], out.Finished()));
  }

  lemma PushFinOk(s: Sender, out: Stream)
    requires Ok(s, out) && s.syn && !s.fin && out.Finished()
    ensures Ok(PushFin(s), out) && Extends(s, out, PushFin(s), out)
  {
    hide Layout, AllOk;
    EmitOk(s, out, PushFin(s), out, Seg(s.next, false, [], true));
  }

  lemma FillOnceCreates(s: Sender, out: Stream)
    requires s.syn && !s.fin && !s.SynOutstanding() && MayFill(s, out) && s.windowSpace <= s.windowSize
    ensures Creates(s, out, FillOnce(s, out), out.Pop(ReadSize(s, out)), NextSeg(s, out))
    ensures |NextSeg(s, out).payload| == ReadSize(s, out) > 0
    ensures ReadSize(s, out) <= Budget(s)
    ensures !FillOnce(s, out).SynOutstanding()
  {
  }

  lemma FillOnceBudget(s: Sender, out: Stream)
    requires s.syn && !s.fin && !s.SynOutstanding() && MayFill(s, out) && s.windowSpace <= s.windowSize
    ensures NextSeg(s, out).Len() + Budget(FillOnce(s, out)) <= Budget(s)
    ensures NextSeg(s, out).fin ==> |out.Pop(ReadSize(s, out)).Buffered()| == 0
    ensures !NextSeg(s, out).fin ==> NextSeg(s, out).Len() + Budget(FillOnce(s, out)) == Budget(s)
  {
    FillOnceCreates(s, out);
  }

  // Every message created on the way is queued for sending and kept until it is acknowledged.
  predicate Appends(s: Sender, s': Sender)
  {
    && s.created <= s'.created
    && s'.queue == s.queue + s'.created[|s.created|..]
    && s'.outstanding == s.outstanding + s'.created[|s.created|..]
    && s'.Unacked() == s.Unacked()
    && s'.zeroAcks == s.zeroAcks
  }

  lemma AppendsTransitive(a: Sender, b: Sender, c: Sender)
    requires Appends(a, b) && Appends(b, c)
    ensures Appends(a, c)
  {
    var x, y := b.created[|a.created|..], c.created[|b.created|..];
    assert b.created == a.created + x && c.created == b.created + y;
    assert c.created[|a.created|..] == x + y;
    assert (a.queue + x) + y == a.queue + (x + y);
    assert (a.outstanding + x) + y == a.outstanding + (x + y);
  }

  lemma CreatesAppends(s: Sender, out: Stream, s': Sender, out': Stream, g: Seg)
    requires Creates(s, out, s', out', g) && s'.zeroAcks == s.zeroAcks
    ensures Appends(s, s')
  {
  }

  // The draining loop: it keeps the invariant, stays within the budget, and sends all that the
  // budget allows.
  lemma {:induction false} FillOk(s: Sender, out: Stream)
    requires Ok(s, out) && s.syn && !s.fin && !s.SynOutstanding()
    ensures var (s', out') := Fill(s, out);
            && Ok(s', out') && Extends(s, out, s', out') && Appends(s, s')
            && s'.next + Budget(s') <= s.next + Budget(s)
            && out' == out.Pop(Min(|out.Buffered()|, Budget(s)))
    decreases |out.Buffered()|
  {
    hide Layout, AllOk, IsSlice, Appends, Extends, Creates;
    if MayFill(s, out) {
      FillOnceCreates(s, out);
      FillOnceBudget(s, out);
      var s1, out1 := FillOnce(s, out), out.Pop(ReadSize(s, out));
      EmitOk(s, out, s1, out1, NextSeg(s, out));
      CreatesAppends(s, out, s1, out1, NextSeg(s, out));
      if s1.fin {
        assert Fill(s1, out1) == (s1, out1);
      } else {
        FillOk(s1, out1);
        ExtendsTransitive(s, out, s1, out1, Fill(s1, out1).0, Fill(s1, out1).1);
        AppendsTransitive(s, s1, Fill(s1, out1).0);
      }
    } else {
      NothingHappens(s, out);
    }
  }

  // One push keeps the invariant, creates only what the budget allows, and takes exactly as
  // many bytes from the stream as it may send now.
  lemma PushOk(s: Sender, out: Stream)
    requires Ok(s, out)
    ensures var (s', out') := Push(s, out);
            && Ok(s', out') && Extends(s, out, s', out') && Appends(s, s')
            && s'.next + Budget(s') <= s.next + Budget(s)
            && out' == out.Pop(if s.syn then Min(|out.Buffered()|, Budget(s)) else 0)
  {
    hide Layout, AllOk;
    if !s.syn {
      PushSynOk(s, out);
    } else if !s.fin && !s.SynOutstanding() {
      if |out.Buffered()| > 0 {
        FillOk(s, out);
      } else if out.Finished() && (s.windowSpace > 0 || s.ZeroWindow()) {
        PushFinOk(s, out);
      }
    }
  }

  // What the messages of one push look like: all but the last one are full, and the last carries the FIN
  // if the stream is finished with it and a number is left. What is not spent stays in the budget.
  lemma {:induction false} FillSends(s: Sender, out: Stream)
    requires s.syn && !s.fin && !s.SynOutstanding() && s.windowSpace <= s.windowSize
    ensures var s' := Fill(s, out).0;
            && s'.syn && (s'.fin <==> out.closed && 0 < |out.Buffered()| < Budget(s))
            && s.created <= s'.created && AllButLastFull(s'.created[|s.created|..])
            && (!s'.fin ==> s'.next + Budget(s') == s.next + Budget(s))
    decreases |out.Buffered()|
  {
    if MayFill(s, out) {
      FillOnceCreates(s, out);
      FillOnceBudget(s, out);
      var s1, out1 := FillOnce(s, out), out.Pop(ReadSize(s, out));
      if s1.fin {
        assert Fill(s1, out1) == (s1, out1);
      } else {
        FillSends(s1, out1);
      }
    }
  }

  predicate AllButLastFull(gs: seq<Seg>)
  {
    forall i :: 0 <= i < |gs| - 1 ==> |gs[i].payload| == 1000
  }

  // A push makes the SYN first; after that it sends the FIN exactly if the stream is closed and the window
  // has a number left when all is sent.
  lemma PushSends(s: Sender, out: Stream)
    requires Ok(s, out)
    ensures var s' := Push(s, out).0;
            && s'.syn
            && (!s.syn ==> (s'.fin <==> out.closed && |out.Buffered()| == 0))
            && (s.syn && !s.fin && !s.SynOutstanding() ==> (s'.fin <==> out.closed && |out.Buffered()| < Budget(s)))
            && s.created <= s'.created && AllButLastFull(s'.created[|s.created|..])
            && (s.syn && !s'.fin ==> s'.next + Budget(s') == s.next + Budget(s))
  {
    hide Layout, AllOk, Fill;
    if s.syn && !s.fin && !s.SynOutstanding() && |out.Buffered()| > 0 {
      FillSends(s, out);
    }
  }

  lemma MaybeSendOk(s: Sender, out: Stream)
    requires Ok(s, out)
    ensures var (s', g) := MaybeSend(s);
            && Ok(s', out) && Extends(s, out, s', out)
            && (g.Some? ==> SegOk(g.value, s, out) && g.value in s.queue)
            && Budget(s') == Budget(s)
  {
    hide Tiles, Payloads, SegOk, IsSuffix;
    AllStayOk(s.queue, s, out, MaybeSend(s).0, out);
    AllStayOk(s.created, s, out, MaybeSend(s).0, out);
  }

  // --- Acknowledgments ---

  // The messages removed are exactly those that end at or below k.
  lemma AckedRemoves(gs: seq<Seg>, lo: int, hi: int, k: nat)
    requires Tiles(gs, lo, hi)
    ensures var n := AckedCount(gs, k);
            && (forall i :: 0 <= i < |gs| ==> (i < n <==> gs[i].End() <= k))
            && Tiles(gs[n..], lo + TotalLen(gs[..n]), hi)
            && lo + TotalLen(gs[..n]) <= Min(hi, Max(lo, k))
  {
    hide AckedCount, TotalLen;
    var n := AckedCount(gs, k);
    TilesDrop(gs, lo, hi, n);
    forall i | n <= i < |gs|
      ensures gs[i].End() > k
    {
      TilesOrdered(gs, lo, hi, i);
    }
    if n < |gs| {
      TilesOrdered(gs, lo, hi, n);
    }
    if n > 0 {
      AckedEnd(gs, lo, hi, n);
    } else {
      assert gs[..0] == [] && TotalLen([]) == 0 by { TotalLenEmpty(); }
    }
  }

  lemma TotalLenEmpty()
    ensures TotalLen([]) == 0
  {
  }

  lemma AckedEnd(gs: seq<Seg>, lo: int, hi: int, n: nat)
    requires Tiles(gs, lo, hi) && 0 < n <= |gs|
    ensures lo + TotalLen(gs[..n]) == gs[n - 1].End()
  {
    TilesDrop(gs, lo, hi, n);
    if n < |gs| {
      assert gs[n - 1].End() == gs[n].pos;
    }
  }

  // Taking messages out of the flight keeps the invariant, however many they are.
  lemma ReleasedOk(s: Sender, out: Stream, n: nat, w: U16)
    requires Ok(s, out) && n <= |s.outstanding|
    ensures var s' := Released(s, n, w);
            && Ok(s', out) && Extends(s, out, s', out)
            && s'.Unacked() == (if n == 0 then s.Unacked() else s.outstanding[n - 1].End()) >= s.Unacked()
            && s'.next == s.next && s'.created == s.created && s'.queue == s.queue
  {
    hide Tiles, Payloads, SegOk, AllOk, IsSuffix, TotalLen;
    ReleasedFlight(s, out, n);
    SuffixDrop(s.outstanding, s.created, n);
    AllStayOk(s.queue, s, out, Released(s, n, w), out);
    AllStayOk(s.created, s, out, Released(s, n, w), out);
  }

  // What is left tiles what remains in flight.
  lemma ReleasedFlight(s: Sender, out: Stream, n: nat)
    requires Ok(s, out) && n <= |s.outstanding|
    ensures TotalLen(s.outstanding[..n]) <= s.inFlight
    ensures Tiles(s.outstanding[n..], s.Unacked() + TotalLen(s.outstanding[..n]), s.next)
    ensures s.Unacked() + TotalLen(s.outstanding[..n]) == if n == 0 then s.Unacked() else s.outstanding[n - 1].End()
  {
    hide Payloads, SegOk, AllOk, IsSuffix, TotalLen;
    TilesDrop(s.outstanding, s.Unacked(), s.next, n);
    if n > 0 {
      AckedEnd(s.outstanding, s.Unacked(), s.next, n);
      TilesOrdered(s.outstanding, s.Unacked(), s.next, n - 1);
    } else {
      assert s.outstanding[..0] == [];
      TotalLenEmpty();
    }
  }

  // What may be sent before the next ack is fixed by the new window and the flight that is left.
  lemma ReleasedBudget(s: Sender, out: Stream, n: nat, w: U16)
    requires Ok(s, out) && n <= |s.outstanding|
    ensures var s' := Released(s, n, w);
            && s'.inFlight <= s.inFlight && (w == 0 ==> s'.ZeroWindow())
            && (s'.syn && !s'.fin && !s'.SynOutstanding() ==>
                  Budget(s') == if w == 0 then 1 else Max(0, w - s'.inFlight))
            && (WithinBudget(s) ==> WithinBudget(s'))
  {
    hide Tiles, Payloads, SegOk, AllOk, TotalLen;
    ReleasedFlight(s, out, n);
  }

  // An accepted ack with window w removes exactly the acknowledged messages, and fixes what may
  // be sent before the next one.
  lemma AckedBudget(s: Sender, out: Stream, k: nat, w: U16)
    requires Ok(s, out) && Acceptable(s, k)
    ensures var s' := Acked(s, k, w);
            && IsSuffix(s'.outstanding, s.outstanding)
            && (forall i :: 0 <= i < |s.outstanding| ==>
                  (i < |s.outstanding| - |s'.outstanding| <==> s.outstanding[i].End() <= k))
            && s'.inFlight <= s.inFlight
            && (s'.syn && !s'.fin && !s'.SynOutstanding() ==>
                  Budget(s') == if w == 0 then 1 else Max(0, w - s'.inFlight))
            && (WithinBudget(s) ==> WithinBudget(s'))
  {
    hide Tiles, Payloads, SegOk, AllOk, AckedCount, TotalLen, Budget, WithinBudget;
    AckedRemoves(s.outstanding, s.Unacked(), s.next, k);
    ReleasedBudget(s, out, AckedCount(s.outstanding, k), w);
  }

  // --- Acknowledgments as the program handles them ---

  // A message in flight is never found below its place, and exactly there as long as it is in reach
  // of the next number.
  lemma FoundAtOrAfter(s: Sender, out: Stream, i: nat)
    requires Ok(s, out) && i < |s.outstanding|
    ensures Found(s, s.outstanding[i]) >= s.outstanding[i].pos
    ensures Found(s, s.outstanding[i]) == s.outstanding[i].pos <==> InReach(s.outstanding[i].pos, s.next)
    ensures s.Unacked() == s.outstanding[0].pos <= s.outstanding[i].pos <= s.next
  {
    hide Unwrap, AllOk, IsSuffix, Payloads;
    TilesOrdered(s.outstanding, s.Unacked(), s.next, i);
    var g := s.outstanding[i];
    WrapRepresents(g.pos, s.isn);
    UnwrapIsNearest(g.Wire(s.isn).seqno, s.isn, s.next, g.pos);
    UnwrapWrap(g.pos, s.isn, s.next);
  }

  // So it never removes a message that is not acknowledged.
  lemma FoundCountSafe(s: Sender, out: Stream, k: nat)
    requires Ok(s, out)
    ensures FoundCount(s, s.outstanding, k) <= AckedCount(s.outstanding, k)
    ensures Accepts(s, k) ==> Acceptable(s, k)
  {
    hide Ok, Found, FoundCount, AckedCount;
    var a := AckedCount(s.outstanding, k);
    if a < |s.outstanding| {
      FoundAtOrAfter(s, out, a);
    }
    if s.outstanding != [] {
      FoundAtOrAfter(s, out, 0);
    }
  }

  // The first unacknowledged number can be told from its 32-bit form; at most 2^31 numbers in flight
  // are enough for that.
  predicate FlightInReach(s: Sender)
    requires s.inFlight <= s.next < TWO64
  {
    s.outstanding == [] || InReach(s.Unacked(), s.next)
  }

  lemma ShortFlightInReach(s: Sender, out: Stream)
    requires Ok(s, out) && s.inFlight <= TWO31
    ensures FlightInReach(s)
  {
  }

  // Handling wrapped acks is acting on the unbounded ones, exactly while the flight is in reach.
  lemma WrappedAcksExactly(s: Sender, out: Stream)
    requires Ok(s, out)
    ensures FlightInReach(s) <==> forall k: nat, w: U16 :: Handled(s, k, w) == Acked(s, k, w)
  {
    hide Ok, Found, FoundCount, AckedCount, TotalLen;
    NextFits(s, out);
    if FlightInReach(s) {
      forall k: nat, w: U16
        ensures Handled(s, k, w) == Acked(s, k, w)
      {
        HandledIsAcked(s, out, k, w);
      }
    } else {
      FoundAtOrAfter(s, out, 0);
      var k, w: U16 := s.outstanding[0].pos, if s.windowSize == 0 then 1 else 0;
      assert Acked(s, k, w).windowSize != Handled(s, k, w).windowSize;
    }
  }

  lemma NextFits(s: Sender, out: Stream)
    requires Ok(s, out)
    ensures s.inFlight <= s.next < TWO64
  {
  }

  lemma HandledIsAcked(s: Sender, out: Stream, k: nat, w: U16)
    requires Ok(s, out) && FlightInReach(s)
    ensures Handled(s, k, w) == Acked(s, k, w)
  {
    hide Ok, Found, FoundCount, AckedCount, Released;
    FoundIsAcked(s, out, k);
    if s.outstanding != [] {
      FoundAtOrAfter(s, out, 0);
    }
  }

  lemma FoundIsAcked(s: Sender, out: Stream, k: nat)
    requires Ok(s, out) && FlightInReach(s)
    ensures FoundCount(s, s.outstanding, k) == AckedCount(s.outstanding, k)
  {
    hide Ok, Found, FoundCount, AckedCount;
    FoundCountSafe(s, out, k);
    var n := FoundCount(s, s.outstanding, k);
    if n < |s.outstanding| {
      FoundAtOrAfter(s, out, n);
    }
  }

  // However many numbers are in flight, handling an ack keeps the invariant and moves the first
  // unacknowledged number to at most k.
  lemma HandledOk(s: Sender, out: Stream, k: nat, w: U16)
    requires Ok(s, out)
    ensures var s' := Handled(s, k, w);
            && Ok(s', out) && Extends(s, out, s', out)
            && s.Unacked() <= s'.Unacked() <= Max(s.Unacked(), k)
            && s'.next == s.next && s'.created == s.created && s'.queue == s.queue
            && (WithinBudget(s) ==> WithinBudget(s'))
  {
    hide Ok, Found, FoundCount, AckedCount, Released, Extends, WithinBudget;
    NothingHappens(s, out);
    if Accepts(s, k) {
      FoundCountSafe(s, out, k);
      ReleasedOk(s, out, FoundCount(s, s.outstanding, k), w);
      ReleasedBudget(s, out, FoundCount(s, s.outstanding, k), w);
    }
  }

  lemma SuffixDrop(gs: seq<Seg>, all: seq<Seg>, n: nat)
    requires IsSuffix(gs, all) && n <= |gs|
    ensures IsSuffix(gs[n..], all)
  {
  }

  // An ack of something not sent yet, or of something acknowledged before, changes nothing, however many
  // numbers are in flight.
  lemma UnacceptableAckIgnored(s: Sender, out: Stream, k: nat, w: U16)
    requires Ok(s, out)
    requires k > s.next || (s.outstanding != [] && k < s.Unacked())
    ensures Handled(s, k, w) == s
  {
    hide Ok, Found, FoundCount, Released;
    if s.outstanding != [] {
      FoundAtOrAfter(s, out, 0);
    }
  }
}
