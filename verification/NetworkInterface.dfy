// The network interface object (src/network_interface.cc).
module NetworkInterfaces {
  import opened Words
  import opened InterfaceModel

  class NetworkInterface {
    const ethernetAddress: Mac
    const ipAddress: U32
    var maybeSendQueue: seq<Frame>
    var pending: map<U32, Pending>
    var cache: map<U32, Mapping>

    // What the object does not remember.
    ghost var now: nat
    ghost var taken: seq<Frame>
    ghost var log: seq<Entry>

    ghost function View(): Interface
      reads this
    {
      Interface(ethernetAddress, ipAddress, maybeSendQueue, cache, pending, now, taken, log)
    }

    constructor (ethernetAddress: Mac, ipAddress: U32)
      ensures View() == NewInterface(ethernetAddress, ipAddress)
    {
      this.ethernetAddress, this.ipAddress := ethernetAddress, ipAddress;
      maybeSendQueue, pending, cache := [], map[], map[];
      now, taken, log := 0, [], [];
    }

    // Queues the frame for something that happened, and notes it down.
    method Push(frame: Frame, ghost neighbour: U32, ghost what: What)
      requires FrameOf(ethernetAddress, ipAddress, Entry(now, neighbour, what)) == Some(frame)
      modifies this`maybeSendQueue, this`log
      ensures View() == old(View()).Do(neighbour, what)
    {
      maybeSendQueue := maybeSendQueue + [frame];
      log := log + [Entry(now, neighbour, what)];
    }

    ghost method Note(neighbour: U32, what: What)
      requires FrameOf(ethernetAddress, ipAddress, Entry(now, neighbour, what)) == None
      modifies this`log
      ensures View() == old(View()).Do(neighbour, what)
    {
      log := log + [Entry(now, neighbour, what)];
    }

    method SendDatagram(dgram: Datagram, nextHop: U32)
      modifies this
      ensures View() == InterfaceModel.SendDatagram(old(View()), dgram, nextHop)
    {
      hide Interface.Do;
      Note(nextHop, Offered(dgram));
      if nextHop in cache {
        var mac := cache[nextHop].mac;
        Push(MakeFrame(mac, true, Ip(dgram)), nextHop, Sent(mac, dgram));
      } else {
        var arpRequest := false;
        if nextHop in pending {
          // The datagram goes onto a copy of the queue, and the copy goes away.
          var copy := pending[nextHop].queue + [dgram];
          Note(nextHop, Lost(dgram));
          if pending[nextHop].age >= REQUEST_MS {
            arpRequest := true;
          }
        } else {
          pending := pending[nextHop := Pending([dgram], 0)];
          Note(nextHop, Held(dgram));
          arpRequest := true;
        }
        if arpRequest {
          var message := ArpMessage(true, ethernetAddress, ipAddress, 0, nextHop);
          Push(MakeFrame(BROADCAST, false, Arp(message)), nextHop, Asked);
        }
      }
    }

    function MakeFrame(dst: Mac, ipv4: bool, payload: Payload): Frame { Frame(dst, ethernetAddress, ipv4, payload) }

    method UpdateMaps(ip: U32, mac: Mac)
      modifies this
      ensures View() == InterfaceModel.UpdateMaps(old(View()), ip, mac)
    {
      hide Interface.Do, Flush;
      cache := cache[ip := Mapping(mac, 0)];
      Note(ip, Learned(mac));
      if ip in pending {
        SendHeld(ip, mac);
      }
      pending := pending - {ip};
    }

    method SendHeld(ip: U32, mac: Mac)
      requires ip in pending
      modifies this
      ensures cache == old(cache) && now == old(now) && pending == old(pending)[ip := old(pending)[ip].(queue := [])]
      ensures View().(pending := old(pending)) == Flush(old(View()), ip, mac, old(pending)[ip].queue)
    {
      while pending[ip].queue != []
        invariant cache == old(cache) && now == old(now) && taken == old(taken) && ip in pending
        invariant pending == old(pending)[ip := old(pending)[ip].(queue := pending[ip].queue)]
        invariant Flush(View().(pending := old(pending)), ip, mac, pending[ip].queue)
                  == Flush(old(View()), ip, mac, old(pending)[ip].queue)
        decreases |pending[ip].queue|
      {
        var dgram := pending[ip].queue[0];
        pending := pending[ip := pending[ip].(queue := pending[ip].queue[1..])];
        Push(MakeFrame(mac, true, Ip(dgram)), ip, Sent(mac, dgram));
      }
    }

    method RecvFrame(frame: Frame) returns (dgram: Option<Datagram>)
      modifies this
      ensures (View(), dgram) == InterfaceModel.RecvFrame(old(View()), frame)
    {
      hide Interface.Do, InterfaceModel.UpdateMaps;
      if frame.dst != BROADCAST && frame.dst != ethernetAddress {
        return None;
      }
      if frame.ipv4 {
        if frame.payload.Ip? {
          return Some(frame.payload.dgram);
        }
      } else if frame.payload.Arp? {
        var arp := frame.payload.message;
        UpdateMaps(arp.senderIp, arp.senderMac);
        if arp.request && arp.targetIp == ipAddress {
          var reply := ArpMessage(false, ethernetAddress, ipAddress, arp.senderMac, arp.senderIp);
          Push(MakeFrame(arp.senderMac, false, Arp(reply)), arp.senderIp, Replied(arp.senderMac));
        }
      }
      dgram := None;
    }

    method Tick(ms: U64)
      modifies this
      ensures View() == InterfaceModel.Tick(old(View()), ms)
    {
      hide ToU32;
      var expired := AgeCache(ms);
      AgePending(ms);
      Expire(expired);
      now := now + ms;
    }

    // Ages every mapping, and lists those that have become too old.
    method AgeCache(ms: U64) returns (expired: seq<U32>)
      modifies this`cache
      ensures cache == map ip | ip in old(cache) :: old(cache)[ip].(age := ToU32(old(cache)[ip].age + ms))
      ensures forall ip :: ip in expired <==> ip in cache && cache[ip].age >= CACHE_MS
    {
      hide ToU32;
      expired := [];
      var todo := cache.Keys;
      while todo != {}
        invariant cache.Keys == old(cache).Keys && todo <= cache.Keys
        invariant forall ip :: ip in cache ==>
                    cache[ip] == if ip in todo then old(cache)[ip] else Older(old(cache)[ip], ms)
        invariant forall ip :: ip in expired <==> ip in cache && ip !in todo && cache[ip].age >= CACHE_MS
        decreases todo
      {
        var ip :| ip in todo;
        todo := todo - {ip};
        cache := cache[ip := Older(cache[ip], ms)];
        if cache[ip].age >= CACHE_MS {
          expired := expired + [ip];
        }
      }
    }

    function Older(m: Mapping, ms: U64): Mapping { m.(age := ToU32(m.age + ms)) }

    method AgePending(ms: U64)
      modifies this`pending
      ensures pending == map ip | ip in old(pending) :: old(pending)[ip].(age := ToU32(old(pending)[ip].age + ms))
    {
      hide ToU32;
      var todo := pending.Keys;
      while todo != {}
        invariant pending.Keys == old(pending).Keys && todo <= pending.Keys
        invariant forall ip :: ip in pending ==>
                    pending[ip] == if ip in todo then old(pending)[ip]
                                   else old(pending)[ip].(age := ToU32(old(pending)[ip].age + ms))
        decreases todo
      {
        var ip :| ip in todo;
        todo := todo - {ip};
        pending := pending[ip := pending[ip].(age := ToU32(pending[ip].age + ms))];
      }
    }

    method Expire(expired: seq<U32>)
      modifies this`cache
      ensures cache == map ip | ip in old(cache) && ip !in expired :: old(cache)[ip]
    {
      var queue := expired;
      while queue != []
        invariant forall ip :: ip in queue ==> ip in expired
        invariant cache.Keys <= old(cache).Keys && forall ip :: ip in cache ==> cache[ip] == old(cache)[ip]
        invariant forall ip :: ip in old(cache) && ip !in cache ==> ip in expired
        invariant forall ip :: ip in expired && ip in cache ==> ip in queue
        decreases |queue|
      {
        var ip := queue[0];
        assert queue == [ip] + queue[1..];
        queue := queue[1..];
        cache := cache - {ip};
      }
    }

    method MaybeSend() returns (frame: Option<Frame>)
      modifies this
      ensures (View(), frame) == InterfaceModel.MaybeSend(old(View()))
    {
      if maybeSendQueue == [] {
        return None;
      }
      frame := Some(maybeSendQueue[0]);
      taken := taken + [maybeSendQueue[0]];
      maybeSendQueue := maybeSendQueue[1..];
    }
  }
}
