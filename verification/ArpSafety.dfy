// What the ARP tables mean, in every run of a network interface.
module ArpSafety {
  import opened Words
  import opened InterfaceModel

  // --- Reading the log ---

  function Last(log: seq<Entry>): Entry
    requires log != []
  {
    log[|log| - 1]
  }

  function Front(log: seq<Entry>): seq<Entry>
    requires log != []
  {
    log[..|log| - 1]
  }

  // When an address was last learned, and which one.
  function LastLearned(log: seq<Entry>, ip: U32): Option<(nat, Mac)>
  {
    if log == [] then None else
    var e := Last(log);
    if e.ip == ip && e.what.Learned? then Some((e.time, e.what.mac)) else LastLearned(Front(log), ip)
  }

  // The datagram held since the address was last learned, and since when.
  function Waiting(log: seq<Entry>, ip: U32): Option<(nat, Datagram)>
  {
    if log == [] then None else
    var e := Last(log);
    if e.ip == ip && e.what.Learned? then None else
    if e.ip == ip && e.what.Held? then Some((e.time, e.what.dgram)) else Waiting(Front(log), ip)
  }

  // The times of the requests since then.
  function AskTimes(log: seq<Entry>, ip: U32): seq<nat>
  {
    if log == [] then [] else
    var e := Last(log);
    if e.ip == ip && e.what.Held? then [] else
    AskTimes(Front(log), ip) + if e.ip == ip && e.what.Asked? then [e.time] else []
  }

  datatype Fate = Taken | Released | Dropped

  function FateOf(w: What): Option<Fate>
  {
    match w
    case Offered(_) => Some(Taken)
    case Sent(_, _) => Some(Released)
    case Lost(_) => Some(Dropped)
    case _ => None
  }

  // How often a datagram for a neighbour met a given fate.
  function Count(log: seq<Entry>, ip: U32, d: Datagram, fate: Fate): nat
  {
    if log == [] then 0 else Count(Front(log), ip, d, fate) + Share(Last(log), ip, d, fate)
  }

  function Share(e: Entry, ip: U32, d: Datagram, fate: Fate): nat
  {
    if e.ip == ip && FateOf(e.what) == Some(fate) && e.what.dgram == d then 1 else 0
  }

  // The frames a log accounts for, in order.
  function Frames(mac: Mac, ip: U32, log: seq<Entry>): seq<Frame>
  {
    if log == [] then [] else
    var f := FrameOf(mac, ip, Last(log));
    Frames(mac, ip, Front(log)) + if f.Some? then [f.value] else []
  }

  // --- The invariant ---

  // The cache holds exactly the addresses learned less than 30 seconds ago.
  ghost predicate CacheExact(s: Interface, ip: U32)
  {
    match LastLearned(s.log, ip)
    case None => ip !in s.cache
    case Some((time, mac)) =>
      && time <= s.now
      && (ip in s.cache <==> s.now - time < CACHE_MS)
      && (ip in s.cache ==> s.cache[ip] == Mapping(mac, s.now - time))
  }

  // A neighbour is pending exactly while a datagram is held for it; the queue is that datagram, the
  // age counts from then in 32 bits, and the only request in the first five seconds was made then.
  ghost predicate PendingExact(s: Interface, ip: U32)
  {
    match Waiting(s.log, ip)
    case None => ip !in s.pending
    case Some((time, d)) =>
      && time <= s.now
      && ip in s.pending && s.pending[ip] == Pending([d], ToU32(s.now - time))
      && ip !in s.cache
      && OneEarlyRequest(AskTimes(s.log, ip), time)
  }

  ghost predicate OneEarlyRequest(times: seq<nat>, start: nat)
  {
    times != [] && times[0] == start && forall i :: 0 < i < |times| ==> times[i] >= start + 5000
  }

  // Every datagram offered has been sent, has been lost, or is waiting in the table.
  ghost predicate Balanced(s: Interface, ip: U32, d: Datagram)
  {
    Count(s.log, ip, d, Taken) == Count(s.log, ip, d, Released) + Count(s.log, ip, d, Dropped) + InTable(s, ip, d)
  }

  ghost function InTable(s: Interface, ip: U32, d: Datagram): nat
  {
    if ip in s.pending then multiset(s.pending[ip].queue)[d] else 0
  }

  // Every datagram sent went to the address last learned for its next hop, learned less than
  // 30 seconds before.
  ghost predicate SentFresh(log: seq<Entry>)
  {
    forall i :: 0 <= i < |log| && log[i].what.Sent? ==> FreshAt(log, i)
  }

  ghost predicate FreshAt(log: seq<Entry>, i: nat)
    requires i < |log| && log[i].what.Sent?
  {
    match LastLearned(log[..i], log[i].ip)
    case None => false
    case Some((time, mac)) => mac == log[i].what.mac && log[i].time - CACHE_MS < time <= log[i].time
  }

  ghost predicate Inv(s: Interface)
  {
    && (forall ip: U32 :: CacheExact(s, ip))
    && (forall ip: U32 :: PendingExact(s, ip))
    && (forall ip: U32, d :: Balanced(s, ip, d))
    && SentFresh(s.log)
    && s.taken + s.queue == Frames(s.mac, s.ip, s.log)
  }

  // --- One entry more ---

  lemma LogGrows(log: seq<Entry>, e: Entry, ip: U32)
    ensures LastLearned(log + [e], ip)
            == if e.ip == ip && e.what.Learned? then Some((e.time, e.what.mac)) else LastLearned(log, ip)
    ensures Waiting(log + [e], ip)
            == if e.ip == ip && e.what.Learned? then None else
               if e.ip == ip && e.what.Held? then Some((e.time, e.what.dgram)) else Waiting(log, ip)
    ensures AskTimes(log + [e], ip)
            == if e.ip == ip && e.what.Held? then [] else
               AskTimes(log, ip) + (if e.ip == ip && e.what.Asked? then [e.time] else [])
  {
    assert Front(log + [e]) == log && Last(log + [e]) == e;
  }

  lemma CountsGrow(log: seq<Entry>, e: Entry, ip: U32, d: Datagram)
    ensures Count(log + [e], ip, d, Taken) == Count(log, ip, d, Taken) + Share(e, ip, d, Taken)
    ensures Count(log + [e], ip, d, Released) == Count(log, ip, d, Released) + Share(e, ip, d, Released)
    ensures Count(log + [e], ip, d, Dropped) == Count(log, ip, d, Dropped) + Share(e, ip, d, Dropped)
  {
    assert Front(log + [e]) == log && Last(log + [e]) == e;
  }

  // The effect of one step on the logs of frames and of sent datagrams.
  lemma DoKeeps(s: Interface, neighbour: U32, what: What)
    requires s.taken + s.queue == Frames(s.mac, s.ip, s.log) && SentFresh(s.log)
    requires what.Sent? ==>
               var l := LastLearned(s.log, neighbour);
               l.Some? && l.value.1 == what.mac && s.now - CACHE_MS < l.value.0 <= s.now
    ensures var t := s.Do(neighbour, what);
            t.taken + t.queue == Frames(t.mac, t.ip, t.log) && SentFresh(t.log)
  {
    var e := Entry(s.now, neighbour, what);
    var log := s.log + [e];
    assert Front(log) == s.log && Last(log) == e;
    forall i | 0 <= i < |log| && log[i].what.Sent?
      ensures FreshAt(log, i)
    {
      if i < |s.log| {
        assert log[..i] == s.log[..i] && FreshAt(s.log, i);
      } else {
        assert log[..i] == s.log;
      }
    }
  }

  // --- What each operation keeps ---

  // What sending adds to the log, as far as one neighbour's tables are concerned.
  lemma SendLogs(s: Interface, d: Datagram, hop: U32, ip: U32)
    ensures var log := SendDatagram(s, d, hop).log;
            var unknown, waits := hop !in s.cache, hop in s.pending;
            && LastLearned(log, ip) == LastLearned(s.log, ip)
            && Waiting(log, ip) == (if ip == hop && unknown && !waits then Some((s.now, d)) else Waiting(s.log, ip))
            && AskTimes(log, ip)
               == (if ip != hop || !unknown then AskTimes(s.log, ip) else
                   if !waits then [s.now] else
                   AskTimes(s.log, ip) + if s.pending[hop].age >= REQUEST_MS then [s.now] else [])
  {
    hide LastLearned, Waiting, AskTimes;
    LogGrows(s.log, Entry(s.now, hop, Offered(d)), ip);
    var log := s.log + [Entry(s.now, hop, Offered(d))];
    if hop in s.cache {
      LogGrows(log, Entry(s.now, hop, Sent(s.cache[hop].mac, d)), ip);
    } else if hop in s.pending {
      LogGrows(log, Entry(s.now, hop, Lost(d)), ip);
      LogGrows(log + [Entry(s.now, hop, Lost(d))], Entry(s.now, hop, Asked), ip);
    } else {
      LogGrows(log, Entry(s.now, hop, Held(d)), ip);
      LogGrows(log + [Entry(s.now, hop, Held(d))], Entry(s.now, hop, Asked), ip);
    }
  }

  lemma SendKeepsTables(s: Interface, d: Datagram, hop: U32, ip: U32)
    requires CacheExact(s, ip) && PendingExact(s, ip)
    ensures var t := SendDatagram(s, d, hop);
            CacheExact(t, ip) && PendingExact(t, ip)
  {
    hide LastLearned, Waiting, AskTimes;
    SendLogs(s, d, hop, ip);
  }

  lemma SendKeepsBalance(s: Interface, d: Datagram, hop: U32, ip: U32, x: Datagram)
    requires Balanced(s, ip, x)
    ensures Balanced(SendDatagram(s, d, hop), ip, x)
  {
    hide Count;
    var offered := Entry(s.now, hop, Offered(d));
    CountsGrow(s.log, offered, ip, x);
    var log := s.log + [offered];
    if hop in s.cache {
      CountsGrow(log, Entry(s.now, hop, Sent(s.cache[hop].mac, d)), ip, x);
    } else if hop in s.pending {
      CountsGrow(log, Entry(s.now, hop, Lost(d)), ip, x);
      CountsGrow(log + [Entry(s.now, hop, Lost(d))], Entry(s.now, hop, Asked), ip, x);
    } else {
      CountsGrow(log, Entry(s.now, hop, Held(d)), ip, x);
      CountsGrow(log + [Entry(s.now, hop, Held(d))], Entry(s.now, hop, Asked), ip, x);
    }
  }

  lemma SendKeepsInv(s: Interface, d: Datagram, hop: U32)
    requires Inv(s)
    ensures Inv(SendDatagram(s, d, hop))
  {
    hide CacheExact, PendingExact, Balanced, SentFresh, Frames;
    forall ip: U32
      ensures CacheExact(SendDatagram(s, d, hop), ip) && PendingExact(SendDatagram(s, d, hop), ip)
    {
      SendKeepsTables(s, d, hop, ip);
    }
    forall ip: U32, x
      ensures Balanced(SendDatagram(s, d, hop), ip, x)
    {
      SendKeepsBalance(s, d, hop, ip, x);
    }
    SendKeepsFrames(s, d, hop);
  }

  lemma SendKeepsFrames(s: Interface, d: Datagram, hop: U32)
    requires s.taken + s.queue == Frames(s.mac, s.ip, s.log) && SentFresh(s.log) && CacheExact(s, hop)
    ensures var t := SendDatagram(s, d, hop);
            t.taken + t.queue == Frames(t.mac, t.ip, t.log) && SentFresh(t.log)
  {
    hide SentFresh, Frames, LastLearned;
    LogGrows(s.log, Entry(s.now, hop, Offered(d)), hop);
    DoKeeps(s, hop, Offered(d));
    var o := s.Do(hop, Offered(d));
    if hop in s.cache {
      DoKeeps(o, hop, Sent(s.cache[hop].mac, d));
    } else if hop in s.pending {
      DoKeeps(o, hop, Lost(d));
      DoKeeps(o.Do(hop, Lost(d)), hop, Asked);
    } else {
      var p := o.(pending := s.pending[hop := Pending([d], 0)]);
      DoKeeps(p, hop, Held(d));
      DoKeeps(p.Do(hop, Held(d)), hop, Asked);
    }
  }

  lemma FlushOne(s: Interface, ip: U32, mac: Mac, d: Datagram)
    ensures Flush(s, ip, mac, [d]) == s.Do(ip, Sent(mac, d))
  {
    assert [d][1..] == [];
    assert Flush(s.Do(ip, Sent(mac, d)), ip, mac, []) == s.Do(ip, Sent(mac, d));
  }

  // Under the invariant at most one datagram is flushed.
  lemma UpdateIs(s: Interface, ip: U32, mac: Mac)
    requires PendingExact(s, ip)
    ensures var l := s.(cache := s.cache[ip := Mapping(mac, 0)]).Do(ip, Learned(mac));
            UpdateMaps(s, ip, mac)
            == match Waiting(s.log, ip)
               case None => l
               case Some((_, d)) => l.Do(ip, Sent(mac, d)).(pending := s.pending - {ip})
  {
    if Waiting(s.log, ip).Some? {
      var queue := s.pending[ip].queue;
      assert queue == [Waiting(s.log, ip).value.1];
      FlushOne(s.(cache := s.cache[ip := Mapping(mac, 0)]).Do(ip, Learned(mac)), ip, mac, queue[0]);
    }
  }

  lemma UpdateKeepsTables(s: Interface, about: U32, mac: Mac, ip: U32)
    requires PendingExact(s, about) && CacheExact(s, ip) && PendingExact(s, ip)
    ensures var t := UpdateMaps(s, about, mac);
            CacheExact(t, ip) && PendingExact(t, ip)
  {
    hide LastLearned, Waiting, AskTimes;
    UpdateIs(s, about, mac);
    var learned := Entry(s.now, about, Learned(mac));
    LogGrows(s.log, learned, ip);
    if Waiting(s.log, about).Some? {
      LogGrows(s.log + [learned], Entry(s.now, about, Sent(mac, Waiting(s.log, about).value.1)), ip);
    }
  }

  lemma UpdateKeepsBalance(s: Interface, about: U32, mac: Mac, ip: U32, x: Datagram)
    requires PendingExact(s, about) && Balanced(s, ip, x)
    ensures Balanced(UpdateMaps(s, about, mac), ip, x)
  {
    hide Count, Waiting, AskTimes;
    UpdateIs(s, about, mac);
    var learned := Entry(s.now, about, Learned(mac));
    CountsGrow(s.log, learned, ip, x);
    if Waiting(s.log, about).Some? {
      var d := Waiting(s.log, about).value.1;
      CountsGrow(s.log + [learned], Entry(s.now, about, Sent(mac, d)), ip, x);
    }
  }

  lemma UpdateKeepsFrames(s: Interface, ip: U32, mac: Mac)
    requires s.taken + s.queue == Frames(s.mac, s.ip, s.log) && SentFresh(s.log) && PendingExact(s, ip)
    ensures var t := UpdateMaps(s, ip, mac);
            t.taken + t.queue == Frames(t.mac, t.ip, t.log) && SentFresh(t.log)
  {
    hide SentFresh, Frames, LastLearned, PendingExact;
    UpdateIs(s, ip, mac);
    var c := s.(cache := s.cache[ip := Mapping(mac, 0)]);
    DoKeeps(c, ip, Learned(mac));
    LogGrows(s.log, Entry(s.now, ip, Learned(mac)), ip);
    if Waiting(s.log, ip).Some? {
      DoKeeps(c.Do(ip, Learned(mac)), ip, Sent(mac, Waiting(s.log, ip).value.1));
    }
  }

  lemma UpdateKeepsInv(s: Interface, about: U32, mac: Mac)
    requires Inv(s)
    ensures Inv(UpdateMaps(s, about, mac))
  {
    hide CacheExact, PendingExact, Balanced, SentFresh, Frames, UpdateMaps;
    forall ip: U32
      ensures CacheExact(UpdateMaps(s, about, mac), ip) && PendingExact(UpdateMaps(s, about, mac), ip)
    {
      UpdateKeepsTables(s, about, mac, ip);
    }
    forall ip: U32, x
      ensures Balanced(UpdateMaps(s, about, mac), ip, x)
    {
      UpdateKeepsBalance(s, about, mac, ip, x);
    }
    UpdateKeepsFrames(s, about, mac);
  }

  lemma ReplyKeepsInv(s: Interface, about: U32, mac: Mac)
    requires Inv(s)
    ensures Inv(s.Do(about, Replied(mac)))
  {
    hide SentFresh, Frames, LastLearned, Waiting, AskTimes, Count;
    var t := s.Do(about, Replied(mac));
    forall ip: U32
      ensures CacheExact(t, ip) && PendingExact(t, ip)
    {
      assert CacheExact(s, ip) && PendingExact(s, ip);
      LogGrows(s.log, Entry(s.now, about, Replied(mac)), ip);
    }
    forall ip: U32, d
      ensures Balanced(t, ip, d)
    {
      assert Balanced(s, ip, d);
      CountsGrow(s.log, Entry(s.now, about, Replied(mac)), ip, d);
    }
    DoKeeps(s, about, Replied(mac));
  }

  lemma RecvKeepsInv(s: Interface, f: Frame)
    requires Inv(s)
    ensures Inv(RecvFrame(s, f).0)
  {
    hide Inv, UpdateMaps, Interface.Do;
    if (f.dst == BROADCAST || f.dst == s.mac) && !f.ipv4 && f.payload.Arp? {
      var m := f.payload.message;
      UpdateKeepsInv(s, m.senderIp, m.senderMac);
      ReplyKeepsInv(UpdateMaps(s, m.senderIp, m.senderMac), m.senderIp, m.senderMac);
    }
  }

  // --- The passage of time ---

  // A 32-bit age drops a mapping exactly when it is too old, unless a single tick is so long that the
  // age wraps past zero and comes out young.
  predicate TickFits(s: Interface, ms: U64)
  {
    forall ip :: ip in s.cache && s.cache[ip].age + ms >= CACHE_MS ==> ToU32(s.cache[ip].age + ms) >= CACHE_MS
  }

  lemma TickKeepsCacheExactly(s: Interface, ms: U64)
    requires Inv(s)
    ensures (forall ip: U32 :: CacheExact(Tick(s, ms), ip)) <==> TickFits(s, ms)
  {
    hide CacheExact;
    var t := Tick(s, ms);
    forall ip: U32
      ensures CacheExact(t, ip)
              <==> (ip in s.cache && s.cache[ip].age + ms >= CACHE_MS ==> ToU32(s.cache[ip].age + ms) >= CACHE_MS)
    {
      TickKeepsOneExactly(s, ms, ip);
    }
  }

  lemma TickKeepsOneExactly(s: Interface, ms: U64, ip: U32)
    requires CacheExact(s, ip)
    ensures CacheExact(Tick(s, ms), ip)
            <==> (ip in s.cache && s.cache[ip].age + ms >= CACHE_MS ==> ToU32(s.cache[ip].age + ms) >= CACHE_MS)
  {
    hide LastLearned;
  }

  // Any tick up to 2^32 - 30000 ms fits.
  lemma ShortTickFits(s: Interface, ms: U64)
    requires Inv(s) && ms <= TWO32 - CACHE_MS
    ensures TickFits(s, ms)
  {
    forall ip: U32 | ip in s.cache
      ensures s.cache[ip].age < CACHE_MS
    {
      assert CacheExact(s, ip);
    }
  }

  lemma TickKeepsInv(s: Interface, ms: U64)
    requires Inv(s) && TickFits(s, ms)
    ensures Inv(Tick(s, ms))
  {
    hide LastLearned, Waiting, AskTimes, Count, Frames, SentFresh;
    var t := Tick(s, ms);
    forall ip: U32
      ensures CacheExact(t, ip) && PendingExact(t, ip)
    {
      assert CacheExact(s, ip) && PendingExact(s, ip);
      AgePlus(s, ip, ms);
    }
    forall ip: U32, d
      ensures Balanced(t, ip, d)
    {
      assert Balanced(s, ip, d);
    }
  }

  lemma AgePlus(s: Interface, ip: U32, ms: U64)
    ensures match Waiting(s.log, ip)
            case None => true
            case Some((time, _)) => ToU32(ToU32(s.now - time) + ms) == ToU32(s.now + ms - time)
  {
  }

  lemma TakeKeepsInv(s: Interface)
    requires Inv(s)
    ensures Inv(MaybeSend(s).0)
  {
    hide LastLearned, Waiting, AskTimes, Count, Frames, SentFresh;
    var t := MaybeSend(s).0;
    forall ip: U32
      ensures CacheExact(t, ip) && PendingExact(t, ip)
    {
      assert CacheExact(s, ip) && PendingExact(s, ip);
    }
    forall ip: U32, d
      ensures Balanced(t, ip, d)
    {
      assert Balanced(s, ip, d);
    }
    assert t.taken + t.queue == s.taken + s.queue;
  }
}
