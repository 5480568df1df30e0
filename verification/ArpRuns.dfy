// Whole runs of a network interface.
module ArpRuns {
  import opened Words
  import opened InterfaceModel
  import opened ArpSafety

  datatype Event = Send(dgram: Datagram, hop: U32) | Receive(frame: Frame) | Elapse(ms: U64) | Take

  function Next(s: Interface, e: Event): Interface
  {
    match e
    case Send(d, hop) => SendDatagram(s, d, hop)
    case Receive(f) => RecvFrame(s, f).0
    case Elapse(ms) => Tick(s, ms)
    case Take => MaybeSend(s).0
  }

  function Run(s: Interface, events: seq<Event>): Interface
    decreases |events|
  {
    if events == [] then s else Run(Next(s, events[0]), events[1..])
  }

  // No single tick may be so long that an age could wrap around.
  predicate ShortTicks(events: seq<Event>)
  {
    forall e :: e in events && e.Elapse? ==> e.ms <= TWO32 - CACHE_MS
  }

  lemma NextKeepsInv(s: Interface, events: seq<Event>)
    requires Inv(s) && ShortTicks(events) && events != []
    ensures Inv(Next(s, events[0])) && ShortTicks(events[1..])
  {
    hide Inv, SendDatagram, RecvFrame, Tick, MaybeSend, TickFits;
    match events[0] {
      case Send(d, hop) => SendKeepsInv(s, d, hop);
      case Receive(f) => RecvKeepsInv(s, f);
      case Elapse(ms) =>
        ShortTickFits(s, ms);
        TickKeepsInv(s, ms);
      case Take => TakeKeepsInv(s);
    }
    forall e | e in events[1..]
      ensures e in events
    {
    }
  }

  lemma {:induction false} RunKeepsInv(s: Interface, events: seq<Event>)
    requires Inv(s) && ShortTicks(events)
    ensures Inv(Run(s, events))
    decreases |events|
  {
    hide Inv, Next;
    if events != [] {
      NextKeepsInv(s, events);
      RunKeepsInv(Next(s, events[0]), events[1..]);
    }
  }

  lemma NewInterfaceInv(mac: Mac, ip: U32)
    ensures Inv(NewInterface(mac, ip))
  {
  }

  // Every frame ever queued is accounted for by an entry of the log.
  lemma {:induction false} FramesLogged(mac: Mac, ip: U32, log: seq<Entry>, f: Frame)
    requires f in Frames(mac, ip, log)
    ensures exists i :: 0 <= i < |log| && FrameOf(mac, ip, log[i]) == Some(f)
    decreases |log|
  {
    if FrameOf(mac, ip, Last(log)) == Some(f) {
      assert log[|log| - 1] == Last(log);
    } else {
      FramesLogged(mac, ip, Front(log), f);
      var i :| 0 <= i < |Front(log)| && FrameOf(mac, ip, Front(log)[i]) == Some(f);
      assert log[i] == Front(log)[i];
    }
  }

  ghost predicate FreshFrame(s: Interface, f: Frame)
  {
    exists i :: 0 <= i < |s.log| && s.log[i].what.Sent? && FreshAt(s.log, i)
                && f == Frame(s.log[i].what.mac, s.mac, true, Ip(s.log[i].what.dgram))
  }

  // Over any run with short ticks, no neighbour is both cached and pending, an address is cached exactly
  // while it was learned less than 30 seconds ago, and every IPv4 frame ever queued carries a datagram to
  // the address most recently learned for its next hop, less than 30 seconds before.
  lemma TablesAreSafe(mac: Mac, ip: U32, events: seq<Event>)
    requires ShortTicks(events)
    ensures var s := Run(NewInterface(mac, ip), events);
            && s.cache.Keys !! s.pending.Keys
            && (forall hop: U32 ::
                  hop in s.cache <==> LastLearned(s.log, hop).Some? && s.now - LastLearned(s.log, hop).value.0 < 30000)
            && (forall hop :: hop in s.cache ==> s.cache[hop].mac == LastLearned(s.log, hop).value.1)
            && (forall f :: f in s.taken + s.queue && f.ipv4 ==> FreshFrame(s, f))
  {
    var s := Run(NewInterface(mac, ip), events);
    NewInterfaceInv(mac, ip);
    RunKeepsInv(NewInterface(mac, ip), events);
    hide Run, Frames, LastLearned, Waiting, AskTimes, Balanced;
    forall hop: U32
      ensures !(hop in s.cache && hop in s.pending)
      ensures hop in s.cache <==> LastLearned(s.log, hop).Some? && s.now - LastLearned(s.log, hop).value.0 < 30000
      ensures hop in s.cache ==> s.cache[hop].mac == LastLearned(s.log, hop).value.1
    {
      assert CacheExact(s, hop) && PendingExact(s, hop);
    }
    forall f | f in s.taken + s.queue && f.ipv4
      ensures FreshFrame(s, f)
    {
      FramesLogged(s.mac, s.ip, s.log, f);
      var i :| 0 <= i < |s.log| && FrameOf(s.mac, s.ip, s.log[i]) == Some(f);
      assert s.log[i].what.Sent?;
    }
  }

  // Over any such run, while a datagram waits for a neighbour, it is the only one queued, and exactly
  // one request was made in its first five seconds: when it was queued.
  lemma OneRequestInFiveSeconds(mac: Mac, ip: U32, events: seq<Event>, hop: U32)
    requires ShortTicks(events)
    ensures var s := Run(NewInterface(mac, ip), events);
            && (hop in s.pending <==> Waiting(s.log, hop).Some?)
            && (hop in s.pending ==>
                  var (time, d) := Waiting(s.log, hop).value;
                  s.pending[hop].queue == [d] && OneEarlyRequest(AskTimes(s.log, hop), time))
  {
    NewInterfaceInv(mac, ip);
    RunKeepsInv(NewInterface(mac, ip), events);
    assert PendingExact(Run(NewInterface(mac, ip), events), hop);
  }

  // Over any such run, each datagram offered for a neighbour was sent, is waiting, or was lost.
  lemma EveryDatagramAccountedFor(mac: Mac, ip: U32, events: seq<Event>, hop: U32, d: Datagram)
    requires ShortTicks(events)
    ensures Balanced(Run(NewInterface(mac, ip), events), hop, d)
  {
    NewInterfaceInv(mac, ip);
    RunKeepsInv(NewInterface(mac, ip), events);
  }

  // Sending loses a datagram exactly when an earlier one is waiting for the same neighbour.
  lemma LostExactlyWhileWaiting(s: Interface, d: Datagram, hop: U32)
    requires Inv(s)
    ensures Count(SendDatagram(s, d, hop).log, hop, d, Dropped) == Count(s.log, hop, d, Dropped)
            <==> Waiting(s.log, hop).None?
  {
    hide Count, Waiting, AskTimes, LastLearned;
    assert CacheExact(s, hop) && PendingExact(s, hop);
    var offered := Entry(s.now, hop, Offered(d));
    CountsGrow(s.log, offered, hop, d);
    var log := s.log + [offered];
    if hop in s.cache {
      CountsGrow(log, Entry(s.now, hop, Sent(s.cache[hop].mac, d)), hop, d);
    } else if hop in s.pending {
      CountsGrow(log, Entry(s.now, hop, Lost(d)), hop, d);
      CountsGrow(log + [Entry(s.now, hop, Lost(d))], Entry(s.now, hop, Asked), hop, d);
    } else {
      CountsGrow(log, Entry(s.now, hop, Held(d)), hop, d);
      CountsGrow(log + [Entry(s.now, hop, Held(d))], Entry(s.now, hop, Asked), hop, d);
    }
  }

  // For instance: two datagrams for a new neighbour, then its reply. Only the first is ever sent.
  lemma SecondDatagramIsLost(mac: Mac, ip: U32, hop: U32, neighbour: Mac, first: Datagram, second: Datagram)
    ensures var reply := Frame(mac, neighbour, false, Arp(ArpMessage(false, neighbour, hop, mac, ip)));
            var s := Run(NewInterface(mac, ip), [Send(first, hop), Send(second, hop), Receive(reply)]);
            && s.pending == map[]
            && s.queue == [Frame(BROADCAST, mac, false, Arp(ArpMessage(true, mac, ip, 0, hop))),
                           Frame(neighbour, mac, true, Ip(first))]
  {
    var reply := Frame(mac, neighbour, false, Arp(ArpMessage(false, neighbour, hop, mac, ip)));
    var events := [Send(first, hop), Send(second, hop), Receive(reply)];
    var s0 := NewInterface(mac, ip);
    var s1 := Next(s0, events[0]);
    var s2 := Next(s1, events[1]);
    var s3 := Next(s2, events[2]);
    assert s2.pending == map[hop := Pending([first], 0)];
    FlushOne(s2.(cache := s2.cache[hop := Mapping(neighbour, 0)]).Do(hop, Learned(neighbour)), hop, neighbour, first);
    assert events[1..] == [events[1], events[2]] && events[1..][1..] == [events[2]];
    assert Run(s3, []) == s3;
    assert [events[2]][1..] == [];
    assert Run(s2, [events[2]]) == s3;
    assert Run(s1, events[1..]) == s3;
  }

  // A tick of 2^32 ms ages nothing: the mapping is still there, and still used.
  lemma LongTickKeepsMapping(s: Interface, hop: U32)
    requires Inv(s) && hop in s.cache
    ensures Tick(s, TWO32).cache == s.cache && !TickFits(s, TWO32)
  {
    forall ip: U32 | ip in s.cache
      ensures s.cache[ip].age < CACHE_MS
    {
      assert CacheExact(s, ip);
    }
  }

  // --- Two interfaces ---

  function Newest(s: Interface): Frame
    requires s.queue != []
  {
    s.queue[|s.queue| - 1]
  }

  // The exchange of RFC 826 between any two interfaces, whatever else they are doing: a datagram for
  // an unknown neighbour makes a request, the neighbour answers it and learns who asked, and the
  // answer sends the datagram to an address at which the neighbour takes it.
  lemma ExchangeDelivers(a: Interface, b: Interface, d: Datagram)
    requires Inv(a) && Inv(b) && b.ip !in a.cache && b.ip !in a.pending
    ensures var a1 := SendDatagram(a, d, b.ip);
            a1.queue != [] &&
            var b1 := RecvFrame(b, Newest(a1)).0;
            b1.queue != [] &&
            var a2 := RecvFrame(a1, Newest(b1)).0;
            && a2.queue != [] && RecvFrame(b1, Newest(a2)).1 == Some(d)
            && b.ip in a2.cache && a2.cache[b.ip] == Mapping(b.mac, 0) && b.ip !in a2.pending
            && a.ip in b1.cache && b1.cache[a.ip] == Mapping(a.mac, 0)
  {
    var a1 := SendDatagram(a, d, b.ip);
    assert Newest(a1) == RequestFrame(a.mac, a.ip, b.ip);
    assert a1.pending[b.ip].queue == [d];
    RequestIsAnswered(b, a.mac, a.ip);
    hide LastLearned, Waiting, AskTimes, Inv, SendDatagram;
    FlushOne(a1.(cache := a1.cache[b.ip := Mapping(b.mac, 0)]).Do(b.ip, Learned(b.mac)), b.ip, b.mac, d);
  }

  function RequestFrame(mac: Mac, ip: U32, target: U32): Frame
  {
    Frame(BROADCAST, mac, false, Arp(ArpMessage(true, mac, ip, 0, target)))
  }

  // A request for this interface's address is answered to the one who asked, who is learned.
  lemma RequestIsAnswered(s: Interface, mac: Mac, ip: U32)
    requires Inv(s)
    ensures var t := RecvFrame(s, RequestFrame(mac, ip, s.ip)).0;
            && t.queue != [] && Newest(t) == Frame(mac, s.mac, false, Arp(ArpMessage(false, s.mac, s.ip, mac, ip)))
            && t.mac == s.mac && t.ip == s.ip && ip in t.cache && t.cache[ip] == Mapping(mac, 0)
  {
    assert PendingExact(s, ip);
    hide LastLearned, Waiting, AskTimes, Inv;
    UpdateIs(s, ip, mac);
  }
}
