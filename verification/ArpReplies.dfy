// What a network interface does with the frames it receives, and hands over, in every run: told from the
// events alone.
module ArpReplies {
  import opened Words
  import opened InterfaceModel
  import opened ArpSafety
  import opened ArpRuns

  // A frame for everyone or for this interface.
  predicate IsFor(mac: Mac, f: Frame)
  {
    f.dst in {BROADCAST, mac}
  }

  // The ARP message such a frame brings, and the datagram.
  function Message(mac: Mac, f: Frame): Option<ArpMessage>
  {
    if IsFor(mac, f) && !f.ipv4 && f.payload.Arp? then Some(f.payload.message) else None
  }

  function Carried(mac: Mac, f: Frame): seq<Datagram>
  {
    if IsFor(mac, f) && f.ipv4 && f.payload.Ip? then [f.payload.dgram] else []
  }

  // The answer to a request for this interface's address goes to the one who asked.
  function Answer(mac: Mac, ip: U32, m: ArpMessage): seq<Frame>
  {
    if m.request && m.targetIp == ip
    then [Frame(m.senderMac, mac, false, Arp(ArpMessage(false, mac, ip, m.senderMac, m.senderIp)))]
    else []
  }

  // The replies among some frames.
  function Replies(frames: seq<Frame>): seq<Frame>
  {
    if frames == [] then [] else
    var f := frames[|frames| - 1];
    Replies(frames[..|frames| - 1]) + if f.payload.Arp? && !f.payload.message.request then [f] else []
  }

  lemma {:induction false} RepliesSplit(a: seq<Frame>, b: seq<Frame>)
    ensures Replies(a + b) == Replies(a) + Replies(b)
    decreases |b|
  {
    if b == [] {
      assert a + b == a;
    } else {
      assert (a + b)[..|a + b| - 1] == a + b[..|b| - 1];
      RepliesSplit(a, b[..|b| - 1]);
    }
  }

  lemma RepliesNone()
    ensures Replies([]) == []
  {
  }

  lemma RepliesOne(f: Frame)
    ensures Replies([f]) == if f.payload.Arp? && !f.payload.message.request then [f] else []
  {
    assert [f][..0] == [];
  }

  // --- What the events call for ---

  function Called(mac: Mac, ip: U32, e: Event): seq<Frame>
  {
    if e.Receive? && Message(mac, e.frame).Some? then Answer(mac, ip, Message(mac, e.frame).value) else []
  }

  function AllCalled(mac: Mac, ip: U32, events: seq<Event>): seq<Frame>
  {
    if events == [] then [] else Called(mac, ip, events[0]) + AllCalled(mac, ip, events[1..])
  }

  function AllCarried(mac: Mac, events: seq<Event>): seq<Datagram>
  {
    if events == [] then [] else
    (if events[0].Receive? then Carried(mac, events[0].frame) else []) + AllCarried(mac, events[1..])
  }

  // --- What the interface gives ---

  function Given(s: Interface, e: Event): seq<Frame>
  {
    if e.Take? && MaybeSend(s).1.Some? then [MaybeSend(s).1.value] else []
  }

  function AllGiven(s: Interface, events: seq<Event>): seq<Frame>
    decreases |events|
  {
    if events == [] then [] else Given(s, events[0]) + AllGiven(Next(s, events[0]), events[1..])
  }

  function HandedUp(s: Interface, e: Event): seq<Datagram>
  {
    if e.Receive? && RecvFrame(s, e.frame).1.Some? then [RecvFrame(s, e.frame).1.value] else []
  }

  function AllHandedUp(s: Interface, events: seq<Event>): seq<Datagram>
    decreases |events|
  {
    if events == [] then [] else HandedUp(s, events[0]) + AllHandedUp(Next(s, events[0]), events[1..])
  }

  // --- Replies ---

  lemma {:induction false} FlushRepliesNothing(s: Interface, ip: U32, mac: Mac, queue: seq<Datagram>)
    returns (added: seq<Frame>)
    ensures var t := Flush(s, ip, mac, queue);
            && t.queue == s.queue + added && Replies(added) == []
            && t.taken == s.taken && t.mac == s.mac && t.ip == s.ip
    decreases |queue|
  {
    added := [];
    if queue != [] {
      var f := Frame(mac, s.mac, true, Ip(queue[0]));
      var rest := FlushRepliesNothing(s.Do(ip, Sent(mac, queue[0])), ip, mac, queue[1..]);
      added := [f] + rest;
      RepliesSplit([f], rest);
      RepliesOne(f);
    }
  }

  lemma UpdateRepliesNothing(s: Interface, ip: U32, mac: Mac) returns (added: seq<Frame>)
    ensures var t := UpdateMaps(s, ip, mac);
            && t.queue == s.queue + added && Replies(added) == []
            && t.taken == s.taken && t.mac == s.mac && t.ip == s.ip
  {
    hide Flush;
    added := [];
    if ip in s.pending {
      var l := s.(cache := s.cache[ip := Mapping(mac, 0)]).Do(ip, Learned(mac));
      added := FlushRepliesNothing(l, ip, mac, s.pending[ip].queue);
    }
  }

  lemma RecvReplies(s: Interface, f: Frame) returns (added: seq<Frame>)
    ensures var t := RecvFrame(s, f).0;
            && t.queue == s.queue + added && Replies(added) == Called(s.mac, s.ip, Receive(f))
            && t.taken == s.taken && t.mac == s.mac && t.ip == s.ip
  {
    hide UpdateMaps, Replies;
    added := [];
    RepliesNone();
    if Message(s.mac, f).Some? {
      var m := f.payload.message;
      added := UpdateRepliesNothing(s, m.senderIp, m.senderMac);
      var answer := Answer(s.mac, s.ip, m);
      RepliesSplit(added, answer);
      if answer != [] {
        RepliesOne(answer[0]);
      }
      added := added + answer;
    }
  }

  lemma SendRepliesNothing(s: Interface, d: Datagram, hop: U32) returns (added: seq<Frame>)
    ensures var t := SendDatagram(s, d, hop);
            && t.queue == s.queue + added && Replies(added) == []
            && t.taken == s.taken && t.mac == s.mac && t.ip == s.ip
  {
    var asked := RequestFrame(s.mac, s.ip, hop);
    added := if hop in s.cache then [Frame(s.cache[hop].mac, s.mac, true, Ip(d))]
             else if hop in s.pending && s.pending[hop].age < REQUEST_MS then []
             else [asked];
    hide Replies;
    RepliesNone();
    if added != [] {
      RepliesOne(added[0]);
    }
  }

  // A step queues the answers it calls for, and no other replies; frames are given from the front.
  lemma StepReplies(s: Interface, e: Event) returns (added: seq<Frame>)
    ensures var t := Next(s, e);
            && s.queue + added == Given(s, e) + t.queue && Replies(added) == Called(s.mac, s.ip, e)
            && t.taken == s.taken + Given(s, e) && t.mac == s.mac && t.ip == s.ip
  {
    hide Replies, SendDatagram, RecvFrame;
    RepliesNone();
    match e {
      case Send(d, hop) => added := SendRepliesNothing(s, d, hop);
      case Receive(f) => added := RecvReplies(s, f);
      case Elapse(ms) => added := [];
      case Take => added := [];
    }
  }

  lemma {:induction false} RunReplies(s: Interface, events: seq<Event>) returns (added: seq<Frame>)
    ensures s.queue + added == AllGiven(s, events) + Run(s, events).queue
    ensures Replies(added) == AllCalled(s.mac, s.ip, events)
    ensures Run(s, events).taken == s.taken + AllGiven(s, events)
    decreases |events|
  {
    hide Next, Given, Called, Replies;
    RepliesNone();
    added := [];
    if events != [] {
      var t := Next(s, events[0]);
      var first := StepReplies(s, events[0]);
      var rest := RunReplies(t, events[1..]);
      RepliesSplit(first, rest);
      added := first + rest;
      Splice(s.queue, first, Given(s, events[0]), t.queue, rest, AllGiven(t, events[1..]), Run(s, events).queue);
    }
  }

  // In every run, the ARP replies given to the network, followed by those still queued, are the answers to the
  // requests received for this interface's address: one for each, in order, and no others.
  lemma RepliesAnswerRequests(mac: Mac, ip: U32, events: seq<Event>)
    ensures var s0 := NewInterface(mac, ip);
            && Replies(AllGiven(s0, events) + Run(s0, events).queue) == AllCalled(mac, ip, events)
            && Run(s0, events).taken == AllGiven(s0, events)
  {
    hide Replies, AllGiven, AllCalled, Run;
    var added := RunReplies(NewInterface(mac, ip), events);
    assert [] + added == added;
  }

  // --- What is handed up, and what is not looked at ---

  lemma StepHandsUp(s: Interface, e: Event)
    ensures HandedUp(s, e) == (if e.Receive? then Carried(s.mac, e.frame) else [])
  {
    hide UpdateMaps;
  }

  lemma {:induction false} RunHandsUp(s: Interface, events: seq<Event>)
    ensures AllHandedUp(s, events) == AllCarried(s.mac, events)
    decreases |events|
  {
    hide Next, HandedUp, Carried;
    if events != [] {
      StepHandsUp(s, events[0]);
      var added := StepReplies(s, events[0]);
      RunHandsUp(Next(s, events[0]), events[1..]);
    }
  }

  // In every run, the datagrams handed up are those that arrive in IPv4 frames for this interface, in order.
  lemma HandsUpExactly(mac: Mac, ip: U32, events: seq<Event>)
    ensures AllHandedUp(NewInterface(mac, ip), events) == AllCarried(mac, events)
  {
    RunHandsUp(NewInterface(mac, ip), events);
  }

  // The events without the frames that are for others.
  function Own(mac: Mac, events: seq<Event>): seq<Event>
  {
    if events == [] then [] else
    (if events[0].Receive? && !IsFor(mac, events[0].frame) then [] else [events[0]]) + Own(mac, events[1..])
  }

  // Frames for others might as well not arrive.
  lemma {:induction false} ForeignFramesDoNothing(s: Interface, events: seq<Event>)
    ensures Run(s, events) == Run(s, Own(s.mac, events))
    decreases |events|
  {
    if events != [] {
      var e, own := events[0], Own(s.mac, events[1..]);
      var added := StepReplies(s, e);
      ForeignFramesDoNothing(Next(s, e), events[1..]);
      if e.Receive? && !IsFor(s.mac, e.frame) {
        assert Next(s, e) == s;
        assert Own(s.mac, events) == [] + own == own;
      } else {
        hide Next;
        assert ([e] + own)[1..] == own;
        assert Own(s.mac, events) == [e] + own;
      }
    }
  }

  // --- What is learned and offered ---

  // The part of the log that is not the interface's doing.
  function Inputs(log: seq<Entry>): seq<Entry>
  {
    if log == [] then [] else
    Inputs(Front(log)) + if Last(log).what.Learned? || Last(log).what.Offered? then [Last(log)] else []
  }

  // What the events tell the interface: each datagram to send, and whoever sends an ARP message.
  function Told(mac: Mac, now: nat, events: seq<Event>): seq<Entry>
    decreases |events|
  {
    if events == [] then [] else
    match events[0]
    case Send(d, hop) => [Entry(now, hop, Offered(d))] + Told(mac, now, events[1..])
    case Receive(f) =>
      (match Message(mac, f)
       case None => []
       case Some(m) => [Entry(now, m.senderIp, Learned(m.senderMac))]) + Told(mac, now, events[1..])
    case Elapse(ms) => Told(mac, now + ms, events[1..])
    case Take => Told(mac, now, events[1..])
  }

  lemma InputsGrow(log: seq<Entry>, e: Entry)
    ensures Inputs(log + [e]) == Inputs(log) + if e.what.Learned? || e.what.Offered? then [e] else []
  {
    assert Front(log + [e]) == log && Last(log + [e]) == e;
  }

  lemma {:induction false} FlushTellsNothing(s: Interface, ip: U32, mac: Mac, queue: seq<Datagram>)
    ensures Inputs(Flush(s, ip, mac, queue).log) == Inputs(s.log) && Flush(s, ip, mac, queue).now == s.now
    decreases |queue|
  {
    if queue != [] {
      InputsGrow(s.log, Entry(s.now, ip, Sent(mac, queue[0])));
      FlushTellsNothing(s.Do(ip, Sent(mac, queue[0])), ip, mac, queue[1..]);
    }
  }

  lemma UpdateTells(s: Interface, ip: U32, mac: Mac)
    ensures var t := UpdateMaps(s, ip, mac);
            Inputs(t.log) == Inputs(s.log) + [Entry(s.now, ip, Learned(mac))] && t.now == s.now
  {
    hide Flush, Inputs;
    InputsGrow(s.log, Entry(s.now, ip, Learned(mac)));
    if ip in s.pending {
      var l := s.(cache := s.cache[ip := Mapping(mac, 0)]).Do(ip, Learned(mac));
      FlushTellsNothing(l, ip, mac, s.pending[ip].queue);
    }
  }

  lemma RecvTells(s: Interface, f: Frame)
    ensures var t := RecvFrame(s, f).0;
            && Inputs(t.log) == Inputs(s.log) + (match Message(s.mac, f)
                                                 case None => []
                                                 case Some(m) => [Entry(s.now, m.senderIp, Learned(m.senderMac))])
            && t.now == s.now
  {
    hide UpdateMaps, Inputs;
    if Message(s.mac, f).Some? {
      var m := f.payload.message;
      var u := UpdateMaps(s, m.senderIp, m.senderMac);
      UpdateTells(s, m.senderIp, m.senderMac);
      InputsGrow(u.log, Entry(u.now, m.senderIp, Replied(m.senderMac)));
    }
  }

  lemma SendTells(s: Interface, d: Datagram, hop: U32)
    ensures var t := SendDatagram(s, d, hop);
            Inputs(t.log) == Inputs(s.log) + [Entry(s.now, hop, Offered(d))] && t.now == s.now
  {
    hide Inputs;
    InputsGrow(s.log, Entry(s.now, hop, Offered(d)));
    var log := s.log + [Entry(s.now, hop, Offered(d))];
    if hop in s.cache {
      InputsGrow(log, Entry(s.now, hop, Sent(s.cache[hop].mac, d)));
    } else if hop in s.pending {
      InputsGrow(log, Entry(s.now, hop, Lost(d)));
      InputsGrow(log + [Entry(s.now, hop, Lost(d))], Entry(s.now, hop, Asked));
    } else {
      InputsGrow(log, Entry(s.now, hop, Held(d)));
      InputsGrow(log + [Entry(s.now, hop, Held(d))], Entry(s.now, hop, Asked));
    }
  }

  lemma {:induction false} RunIsTold(s: Interface, events: seq<Event>)
    ensures Inputs(Run(s, events).log) == Inputs(s.log) + Told(s.mac, s.now, events)
    decreases |events|
  {
    hide Inputs, SendDatagram, RecvFrame, Message;
    if events != [] {
      match events[0] {
        case Send(d, hop) => SendTells(s, d, hop);
        case Receive(f) => RecvTells(s, f);
        case _ =>
      }
      var added := StepReplies(s, events[0]);
      RunIsTold(Next(s, events[0]), events[1..]);
    }
  }

  // In every run, the log has exactly the datagrams that were offered, and an address learned for every ARP
  // message for this interface, request or reply, whatever its target: each when it came.
  lemma LearnsExactly(mac: Mac, ip: U32, events: seq<Event>)
    ensures Inputs(Run(NewInterface(mac, ip), events).log) == Told(mac, 0, events)
  {
    RunIsTold(NewInterface(mac, ip), events);
  }
}
