// How far apart the requests of a network interface are. The code means to leave five seconds after
// each, but counts from when the waiting datagram was queued and never starts over.
module ArpRequests {
  import opened Words
  import opened InterfaceModel
  import opened ArpSafety
  import opened ArpRuns

  // The times of all requests for an address.
  function Requests(log: seq<Entry>, ip: U32): seq<nat>
  {
    if log == [] then [] else
    Requests(Front(log), ip) + if Last(log).ip == ip && Last(log).what.Asked? then [Last(log).time] else []
  }

  predicate Spaced(times: seq<nat>)
  {
    forall i, j :: 0 <= i && j == i + 1 < |times| ==> times[j] - times[i] >= REQUEST_MS
  }

  // None is in the future, and one that no longer has a datagram waiting for it was answered.
  ghost predicate Settled(s: Interface, ip: U32)
  {
    var times := Requests(s.log, ip);
    times != [] ==>
      var latest := times[|times| - 1];
      latest <= s.now && (ip !in s.pending ==> LastLearned(s.log, ip).Some? && latest <= LastLearned(s.log, ip).value.0)
  }

  lemma RequestsGrow(log: seq<Entry>, e: Entry, ip: U32)
    ensures Requests(log + [e], ip)
            == Requests(log, ip) + if e.ip == ip && e.what.Asked? then [e.time] else []
  {
    assert Front(log + [e]) == log && Last(log + [e]) == e;
  }

  // Whether sending makes a request.
  predicate Asks(s: Interface, hop: U32)
  {
    hop !in s.cache && (hop in s.pending ==> s.pending[hop].age >= REQUEST_MS)
  }

  lemma SendAsks(s: Interface, d: Datagram, hop: U32, ip: U32)
    ensures Requests(SendDatagram(s, d, hop).log, ip)
            == Requests(s.log, ip) + if ip == hop && Asks(s, hop) then [s.now] else []
  {
    hide Requests;
    RequestsGrow(s.log, Entry(s.now, hop, Offered(d)), ip);
    var log := s.log + [Entry(s.now, hop, Offered(d))];
    if hop in s.cache {
      RequestsGrow(log, Entry(s.now, hop, Sent(s.cache[hop].mac, d)), ip);
    } else if hop in s.pending {
      RequestsGrow(log, Entry(s.now, hop, Lost(d)), ip);
      RequestsGrow(log + [Entry(s.now, hop, Lost(d))], Entry(s.now, hop, Asked), ip);
    } else {
      RequestsGrow(log, Entry(s.now, hop, Held(d)), ip);
      RequestsGrow(log + [Entry(s.now, hop, Held(d))], Entry(s.now, hop, Asked), ip);
    }
  }

  // What a caller can see before sending: either no request is due by the age of the waiting
  // datagram, or the last one was made five seconds ago.
  predicate SendsInTime(s: Interface, hop: U32)
  {
    hop in s.pending && s.pending[hop].age >= REQUEST_MS ==>
      var times := Requests(s.log, hop);
      times == [] || s.now - times[|times| - 1] >= REQUEST_MS
  }

  // Sending keeps the requests five seconds apart exactly then.
  lemma SendKeepsSpacingExactly(s: Interface, d: Datagram, hop: U32)
    requires Inv(s) && Settled(s, hop) && Spaced(Requests(s.log, hop))
    ensures Spaced(Requests(SendDatagram(s, d, hop).log, hop)) <==> SendsInTime(s, hop)
  {
    assert CacheExact(s, hop) && PendingExact(s, hop);
    hide Requests, LastLearned, Waiting, AskTimes;
    SendAsks(s, d, hop, hop);
    var times := Requests(s.log, hop);
    if Asks(s, hop) && times != [] {
      SpacedPlus(times, s.now);
    }
  }

  lemma SpacedPlus(times: seq<nat>, t: nat)
    requires Spaced(times) && times != []
    ensures Spaced(times + [t]) <==> t - times[|times| - 1] >= REQUEST_MS
  {
    var all := times + [t];
    if Spaced(all) {
      assert all[|times|] - all[|times| - 1] >= REQUEST_MS;
    }
  }

  // --- Over runs ---

  lemma SendKeepsSettled(s: Interface, d: Datagram, hop: U32, ip: U32)
    requires Settled(s, ip)
    ensures Settled(SendDatagram(s, d, hop), ip)
  {
    hide Requests, LastLearned, Waiting, AskTimes;
    SendAsks(s, d, hop, ip);
    SendLogs(s, d, hop, ip);
  }

  lemma UpdateKeepsRequests(s: Interface, about: U32, mac: Mac, ip: U32)
    requires PendingExact(s, about)
    ensures var t := UpdateMaps(s, about, mac);
            && Requests(t.log, ip) == Requests(s.log, ip) && t.now == s.now
            && (ip != about ==> LastLearned(t.log, ip) == LastLearned(s.log, ip))
            && (ip == about ==> LastLearned(t.log, ip) == Some((s.now, mac)) && ip !in t.pending)
            && (ip != about ==> (ip in t.pending <==> ip in s.pending))
  {
    hide Requests, LastLearned, Waiting, AskTimes;
    UpdateIs(s, about, mac);
    var learned := Entry(s.now, about, Learned(mac));
    RequestsGrow(s.log, learned, ip);
    LogGrows(s.log, learned, ip);
    if Waiting(s.log, about).Some? {
      var sent := Entry(s.now, about, Sent(mac, Waiting(s.log, about).value.1));
      RequestsGrow(s.log + [learned], sent, ip);
      LogGrows(s.log + [learned], sent, ip);
    }
  }

  lemma RecvKeepsRequests(s: Interface, f: Frame, ip: U32)
    requires Inv(s) && Settled(s, ip)
    ensures Settled(RecvFrame(s, f).0, ip) && Requests(RecvFrame(s, f).0.log, ip) == Requests(s.log, ip)
  {
    hide Requests, LastLearned, Waiting, AskTimes, UpdateMaps;
    if (f.dst == BROADCAST || f.dst == s.mac) && !f.ipv4 && f.payload.Arp? {
      var m := f.payload.message;
      assert PendingExact(s, m.senderIp);
      UpdateKeepsRequests(s, m.senderIp, m.senderMac, ip);
      var t := UpdateMaps(s, m.senderIp, m.senderMac);
      RequestsGrow(t.log, Entry(t.now, m.senderIp, Replied(m.senderMac)), ip);
      LogGrows(t.log, Entry(t.now, m.senderIp, Replied(m.senderMac)), ip);
    }
  }

  // The requests so far are never forgotten.
  lemma NextGrows(s: Interface, e: Event, ip: U32)
    requires Inv(s) && Settled(s, ip)
    ensures Settled(Next(s, e), ip)
    ensures Requests(s.log, ip) <= Requests(Next(s, e).log, ip)
    ensures !(e.Send? && e.hop == ip) ==> Requests(Next(s, e).log, ip) == Requests(s.log, ip)
  {
    hide Requests, LastLearned, SendDatagram, RecvFrame;
    match e
    case Send(d, hop) =>
      SendKeepsSettled(s, d, hop, ip);
      SendAsks(s, d, hop, ip);
    case Receive(f) => RecvKeepsRequests(s, f, ip);
    case Elapse(ms) =>
    case Take =>
  }

  // Every datagram for the neighbour is sent in time.
  predicate InTime(s: Interface, events: seq<Event>, hop: U32)
    decreases |events|
  {
    events == [] ||
    ((events[0].Send? && events[0].hop == hop ==> SendsInTime(s, hop)) && InTime(Next(s, events[0]), events[1..], hop))
  }

  lemma {:induction false} RunGrows(s: Interface, events: seq<Event>, ip: U32)
    requires Inv(s) && Settled(s, ip) && ShortTicks(events)
    ensures Requests(s.log, ip) <= Requests(Run(s, events).log, ip)
    decreases |events|
  {
    hide Inv, Settled, Requests, Next;
    if events != [] {
      NextGrows(s, events[0], ip);
      NextKeepsInv(s, events);
      RunGrows(Next(s, events[0]), events[1..], ip);
    }
  }

  lemma {:induction false} RunKeepsSpacingExactly(s: Interface, events: seq<Event>, hop: U32)
    requires Inv(s) && Settled(s, hop) && Spaced(Requests(s.log, hop)) && ShortTicks(events)
    ensures Spaced(Requests(Run(s, events).log, hop)) <==> InTime(s, events, hop)
    decreases |events|
  {
    hide Inv, Settled, Requests, SendsInTime, Spaced;
    if events != [] {
      var e, t := events[0], Next(s, events[0]);
      NextGrows(s, e, hop);
      NextKeepsInv(s, events);
      if e.Send? && e.hop == hop {
        SendKeepsSpacingExactly(s, e.dgram, hop);
      }
      if Spaced(Requests(t.log, hop)) {
        RunKeepsSpacingExactly(t, events[1..], hop);
      } else {
        RunGrows(t, events[1..], hop);
        PrefixSpaced(Requests(t.log, hop), Requests(Run(s, events).log, hop));
      }
    }
  }

  lemma PrefixSpaced(a: seq<nat>, b: seq<nat>)
    requires a <= b
    ensures Spaced(b) ==> Spaced(a)
  {
  }

  // In every run with short ticks, the requests for a neighbour are at least five seconds apart exactly
  // if every datagram for it is sent in time.
  lemma RequestsSpacedExactly(mac: Mac, ip: U32, events: seq<Event>, hop: U32)
    requires ShortTicks(events)
    ensures Spaced(Requests(Run(NewInterface(mac, ip), events).log, hop))
            <==> InTime(NewInterface(mac, ip), events, hop)
  {
    NewInterfaceInv(mac, ip);
    RunKeepsSpacingExactly(NewInterface(mac, ip), events, hop);
  }

  // For instance not here: five seconds after the first datagram, two more make a request each, in the
  // same millisecond.
  lemma TwoRequestsAtOnce(mac: Mac, ip: U32, hop: U32, d: Datagram)
    ensures var s := Run(NewInterface(mac, ip), [Send(d, hop), Elapse(5000), Send(d, hop), Send(d, hop)]);
            && s.now == 5000 && Requests(s.log, hop) == [0, 5000, 5000]
            && s.queue == [RequestFrame(mac, ip, hop), RequestFrame(mac, ip, hop), RequestFrame(mac, ip, hop)]
  {
    hide Requests, SendDatagram, Tick;
    var s0 := NewInterface(mac, ip);
    FiveSecondsIn(mac, ip, hop, d);
    TwoMore(Tick(SendDatagram(s0, d, hop), 5000), d, hop);
    FourSteps(s0, [Send(d, hop), Elapse(5000), Send(d, hop), Send(d, hop)]);
  }

  lemma TwoMore(s: Interface, d: Datagram, hop: U32)
    requires hop !in s.cache && hop in s.pending && s.pending[hop].age >= REQUEST_MS
    ensures var t := SendDatagram(SendDatagram(s, d, hop), d, hop);
            && t.now == s.now && Requests(t.log, hop) == Requests(s.log, hop) + [s.now, s.now]
            && t.queue == s.queue + [RequestFrame(s.mac, s.ip, hop), RequestFrame(s.mac, s.ip, hop)]
  {
    hide Requests, SendDatagram, RequestFrame;
    var r := SendDatagram(s, d, hop);
    SendAsks(s, d, hop, hop);
    SendAgain(s, d, hop);
    SendAsks(r, d, hop, hop);
    SendAgain(r, d, hop);
  }

  lemma FiveSecondsIn(mac: Mac, ip: U32, hop: U32, d: Datagram)
    ensures var s := Tick(SendDatagram(NewInterface(mac, ip), d, hop), 5000);
            && s.now == 5000 && s.mac == mac && s.ip == ip && Requests(s.log, hop) == [0]
            && s.queue == [RequestFrame(mac, ip, hop)]
            && hop !in s.cache && hop in s.pending && s.pending[hop].age == 5000
  {
    SendAsks(NewInterface(mac, ip), d, hop, hop);
    hide Requests;
    assert Requests([], hop) == [] by { NoRequests(hop); }
  }

  lemma NoRequests(ip: U32)
    ensures Requests([], ip) == []
  {
  }

  // While a datagram has been waiting for five seconds, each further one makes a request.
  lemma SendAgain(s: Interface, d: Datagram, hop: U32)
    requires hop !in s.cache && hop in s.pending && s.pending[hop].age >= REQUEST_MS
    ensures var t := SendDatagram(s, d, hop);
            && t.queue == s.queue + [RequestFrame(s.mac, s.ip, hop)] && t.pending == s.pending && t.cache == s.cache
            && t.mac == s.mac && t.ip == s.ip && t.now == s.now
  {
  }

  lemma FourSteps(s: Interface, events: seq<Event>)
    requires |events| == 4
    ensures Run(s, events) == Next(Next(Next(Next(s, events[0]), events[1]), events[2]), events[3])
  {
    hide Next;
    var s2 := Next(Next(s, events[0]), events[1]);
    assert events[1..][1..] == events[2..] && events[2..][1..] == events[3..] && events[3..][1..] == [];
    assert Run(Next(s, events[0]), events[1..]) == Run(s2, events[2..]);
    var s3 := Next(s2, events[2]);
    assert Run(s2, events[2..]) == Run(s3, events[3..]);
    assert Run(s3, events[3..]) == Run(Next(s3, events[3]), []);
  }
}
