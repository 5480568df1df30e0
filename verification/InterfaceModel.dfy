// A network interface with its timed ARP tables (src/network_interface.cc, RFC 826), and the log of
// what it has done.
module InterfaceModel {
  import opened Words
  import IPv4

  // An Ethernet address, as a 48-bit number.
  type Mac = x: int | 0 <= x < 0x1_0000_0000_0000

  const BROADCAST: Mac := 0xffff_ffff_ffff
  const CACHE_MS: nat := 30000
  const REQUEST_MS: nat := 5000

  datatype Datagram = Datagram(header: IPv4.Header, payload: seq<Byte>)

  // A supported message is a request or a reply.
  datatype ArpMessage = ArpMessage(request: bool, senderMac: Mac, senderIp: U32, targetMac: Mac, targetIp: U32)

  // What the bytes of a frame parse as; an ARP message and a datagram never have the same bytes.
  datatype Payload = Ip(dgram: Datagram) | Arp(message: ArpMessage) | Unreadable

  datatype Frame = Frame(dst: Mac, src: Mac, ipv4: bool, payload: Payload)

  datatype Mapping = Mapping(mac: Mac, age: U32)

  datatype Pending = Pending(queue: seq<Datagram>, age: U32)

  datatype What =
    | Learned(mac: Mac)
    | Offered(dgram: Datagram)
    | Sent(mac: Mac, dgram: Datagram)
    | Held(dgram: Datagram)
    | Lost(dgram: Datagram)
    | Asked
    | Replied(mac: Mac)

  // Something that happened, and the IP address of the neighbour it was about.
  datatype Entry = Entry(time: nat, ip: U32, what: What)

  // The frame that something amounts to, if any, for the interface with the given addresses.
  function FrameOf(mac: Mac, ip: U32, e: Entry): Option<Frame>
  {
    match e.what
    case Sent(dst, d) => Some(Frame(dst, mac, true, Ip(d)))
    case Asked => Some(Frame(BROADCAST, mac, false, Arp(ArpMessage(true, mac, ip, 0, e.ip))))
    case Replied(dst) => Some(Frame(dst, mac, false, Arp(ArpMessage(false, mac, ip, dst, e.ip))))
    case _ => None
  }

  // The last three fields are history: the time that has passed, the frames already taken from the
  // queue, and the log.
  datatype Interface = Interface(
    mac: Mac, ip: U32, queue: seq<Frame>, cache: map<U32, Mapping>, pending: map<U32, Pending>,
    now: nat, taken: seq<Frame>, log: seq<Entry>)
  {
    // Something happens: it is logged, and its frame is queued.
    function Do(neighbour: U32, what: What): Interface
    {
      var e := Entry(now, neighbour, what);
      var f := FrameOf(mac, ip, e);
      this.(log := log + [e], queue := if f.Some? then queue + [f.value] else queue)
    }
  }

  function NewInterface(mac: Mac, ip: U32): Interface
  {
    Interface(mac, ip, [], map[], map[], 0, [], [])
  }

  // A datagram for an unknown neighbour starts a queue and a request. One that finds a queue already
  // there goes onto a copy of it.
  function SendDatagram(s: Interface, d: Datagram, hop: U32): Interface
  {
    var o := s.Do(hop, Offered(d));
    if hop in s.cache then o.Do(hop, Sent(s.cache[hop].mac, d)) else
    if hop in s.pending then
      var l := o.Do(hop, Lost(d));
      if s.pending[hop].age >= REQUEST_MS then l.Do(hop, Asked) else l
    else o.(pending := s.pending[hop := Pending([d], 0)]).Do(hop, Held(d)).Do(hop, Asked)
  }

  function Flush(s: Interface, ip: U32, mac: Mac, queue: seq<Datagram>): Interface
    decreases |queue|
  {
    if queue == [] then s else Flush(s.Do(ip, Sent(mac, queue[0])), ip, mac, queue[1..])
  }

  function UpdateMaps(s: Interface, ip: U32, mac: Mac): Interface
  {
    var l := s.(cache := s.cache[ip := Mapping(mac, 0)]).Do(ip, Learned(mac));
    if ip in s.pending then Flush(l, ip, mac, s.pending[ip].queue).(pending := s.pending - {ip}) else l
  }

  // Any type but IPv4 is taken for ARP.
  function RecvFrame(s: Interface, f: Frame): (Interface, Option<Datagram>)
  {
    if f.dst != BROADCAST && f.dst != s.mac then (s, None) else
    if f.ipv4 then (s, if f.payload.Ip? then Some(f.payload.dgram) else None) else
    if !f.payload.Arp? then (s, None) else
    var m := f.payload.message;
    var u := UpdateMaps(s, m.senderIp, m.senderMac);
    if m.request && m.targetIp == s.ip then
      (u.Do(m.senderIp, Replied(m.senderMac)), None)
    else (u, None)
  }

  // Ages are 32 bits wide; the elapsed time is not.
  function Tick(s: Interface, ms: U64): Interface
  {
    s.(cache := map ip | ip in s.cache && ToU32(s.cache[ip].age + ms) < CACHE_MS
                  :: s.cache[ip].(age := ToU32(s.cache[ip].age + ms)),
       pending := map ip | ip in s.pending :: s.pending[ip].(age := ToU32(s.pending[ip].age + ms)),
       now := s.now + ms)
  }

  function MaybeSend(s: Interface): (Interface, Option<Frame>)
  {
    if s.queue == [] then (s, None)
    else (s.(queue := s.queue[1..], taken := s.taken + [s.queue[0]]), Some(s.queue[0]))
  }
}
