/** A networked host as net/udp.c, net/ip.c and net/ethernet.c run it: header fields stored into packet buffers,
    frames handed to the network card, received frames taken apart in place. */
module Host {
  import opened Bytes
  import opened InternetChecksum
  import opened Arp
  import opened Wire

  const MAX_UDP_HANDLERS := 8
  const MAX_PACKET := 1500
  /** How often `ip_send` looks for a received frame after asking for an address. */
  const ARP_RETRIES := 10

  /** What sending and receiving changes, but for `ip_id_counter`. */
  datatype Traffic = Traffic(cache: Cache, sent: seq<seq<Byte>>, calls: seq<Call>)

  /** `htonl` */
  function Swap32(x: U32): U32 {
    x % 256 * 16777216 + x / 256 % 256 * 65536 + x / 65536 % 256 * 256 + x / 16777216
  }

  /** Storing a 16-bit field on a little-endian machine. */
  method Put16(buf: array<Byte>, at: nat, x: U16)
    requires at + 2 <= buf.Length
    modifies buf
    ensures buf[..] == old(buf[..])[..at] + [x % 256, x / 256] + old(buf[..])[at + 2..]
  {
    buf[at] := x % 256;
    buf[at + 1] := x / 256;
  }

  method Put32(buf: array<Byte>, at: nat, x: U32)
    requires at + 4 <= buf.Length
    modifies buf
    ensures buf[..] == old(buf[..])[..at] + [x % 256, x / 256 % 256, x / 65536 % 256, x / 16777216] + old(buf[..])[at + 4..]
  {
    buf[at] := x % 256;
    buf[at + 1] := x / 256 % 256;
    buf[at + 2] := x / 65536 % 256;
    buf[at + 3] := x / 16777216;
  }

  /** `memcpy` into a packet buffer. */
  method PutBytes(buf: array<Byte>, at: nat, data: seq<Byte>)
    requires at + |data| <= buf.Length
    modifies buf
    ensures buf[..] == old(buf[..])[..at] + data + old(buf[..])[at + |data|..]
  {
    ghost var b := buf[..];
    var i := 0;
    while i < |data|
      invariant 0 <= i <= |data|
      invariant buf[..] == b[..at] + data[..i] + b[at + i..]
    {
      buf[at + i] := data[i];
      assert data[..i + 1] == data[..i] + [data[i]];
      i := i + 1;
    }
    assert data[..|data|] == data;
  }

  /** `htons` and a native store together put network byte order into memory. */
  lemma SwappedStore16(x: U16)
    ensures [Swap16(x) % 256, Swap16(x) / 256] == Be16(x)
  {
  }

  lemma SwappedStore32(x: U32)
    ensures [Swap32(x) % 256, Swap32(x) / 256 % 256, Swap32(x) / 65536 % 256, Swap32(x) / 16777216] == Be32(x)
  {
    DivTwice(x);
    DivThrice(x);
    var a: nat, b: nat, c: nat, d: nat := x % 256, x / 256 % 256, x / 65536 % 256, x / 16777216;
    var y: nat := Swap32(x);
    assert y == 256 * (256 * (256 * a + b) + c) + d;
    LastDigit(256 * (256 * a + b) + c, d);
    LastDigit(256 * a + b, c);
    LastDigit(a, b);
    DivTwice(y);
    DivThrice(y);
  }

  lemma FlagBytes()
    ensures Be16(0x4000) == [0x40, 0]
  {
  }

  /** Bytes behind what is already written. */
  method Append(buf: array<Byte>, at: nat, data: seq<Byte>)
    requires at + |data| <= buf.Length
    modifies buf
    ensures buf[..at + |data|] == old(buf[..at]) + data
  {
    PutBytes(buf, at, data);
  }

  /** `field = htons(x)` behind what is already written. */
  method AppendBe16(buf: array<Byte>, at: nat, x: U16)
    requires at + 2 <= buf.Length
    modifies buf
    ensures buf[..at + 2] == old(buf[..at]) + Be16(x) && |Be16(x)| == 2
  {
    SwappedStore16(x);
    Put16(buf, at, Swap16(x));
  }

  /** `field = htonl(x)` behind what is already written. */
  method AppendBe32(buf: array<Byte>, at: nat, x: U32)
    requires at + 4 <= buf.Length
    modifies buf
    ensures buf[..at + 4] == old(buf[..at]) + Be32(x) && |Be32(x)| == 4
  {
    SwappedStore32(x);
    Put32(buf, at, Swap32(x));
  }

  class Host {
    var localIp: U32
    var localMac: Mac
    /** `ip_id_counter` */
    var ipId: U16
    const arp: ArpCache
    const udpHandlers: array<UdpHandler>
    /** Frames given to the network card. */
    var sent: seq<seq<Byte>>
    /** Handler calls made. */
    var calls: seq<Call>

    ghost predicate Valid() { arp.Valid() && udpHandlers.Length == MAX_UDP_HANDLERS }

    ghost function Now(): Traffic
      requires Valid()
      reads this, arp, arp.cache
    {
      Traffic(arp.State(), sent, calls)
    }

    constructor (ip: U32, mac: Mac)
      ensures Valid() && localIp == ip && localMac == mac && ipId == 1 && sent == [] && calls == []
      ensures forall i | 0 <= i < MAX_UDP_HANDLERS :: udpHandlers[i] == UdpHandler(0, 0)
    {
      localIp, localMac, ipId, sent, calls := ip, mac, 1, [], [];
      arp := new ArpCache();
      udpHandlers := new UdpHandler[MAX_UDP_HANDLERS](i => UdpHandler(0, 0));
    }

    /** `udp_register_handler`: the first slot with port 0, or nothing when all are taken. */
    method RegisterHandler(port: U16, callback: nat)
      requires Valid()
      modifies udpHandlers
      ensures (exists k | 0 <= k < MAX_UDP_HANDLERS :: old(udpHandlers[k]).port == 0 && udpHandlers[k] == UdpHandler(port, callback)
                 && (forall j | 0 <= j < k :: old(udpHandlers[j]).port != 0)
                 && (forall j | 0 <= j < MAX_UDP_HANDLERS && j != k :: udpHandlers[j] == old(udpHandlers[j])))
           || ((forall j | 0 <= j < MAX_UDP_HANDLERS :: old(udpHandlers[j]).port != 0) && udpHandlers[..] == old(udpHandlers[..]))
    {
      var i := 0;
      while i < MAX_UDP_HANDLERS
        invariant 0 <= i <= MAX_UDP_HANDLERS && udpHandlers[..] == old(udpHandlers[..])
        invariant forall j | 0 <= j < i :: old(udpHandlers[j]).port != 0
      {
        if udpHandlers[i].port == 0 {
          udpHandlers[i] := UdpHandler(port, callback);
          return;
        }
        i := i + 1;
      }
    }

    // -------------------------------------------------------------- sending

    /** `eth_send_frame` */
    method EthSendFrame(dst: Mac, ethType: U16, data: seq<Byte>)
      modifies this`sent
      ensures sent == old(sent) + if |data| > ETH_DATA_LEN then [] else [EthFrame(dst, localMac, ethType, data)]
      ensures |data| > 1500 ==> sent == old(sent)
      ensures |data| <= 1500 ==>
        var f := Latest(sent);
        && |sent| == |old(sent)| + 1 && sent[..|old(sent)|] == old(sent) && |f| == (if |data| < 46 then 60 else 14 + |data|)
        && f[0..6] == dst && f[6..12] == localMac && f[12..14] == [ethType / 256, ethType % 256] && f[14..14 + |data|] == data
    {
      FrameBytes(dst, localMac, ethType, data);
      hide Be16, Swap16;
      if |data| > ETH_DATA_LEN {
        return;
      }
      var frame := new Byte[1518](i => 0);
      Append(frame, 0, dst);
      Append(frame, 6, localMac);
      AppendBe16(frame, 12, ethType);
      Append(frame, ETH_HLEN, data);
      var frameLength := ETH_HLEN + |data|;
      ghost var padding := Zeros(MIN_FRAME - frameLength);
      assert frame[..frameLength] == dst + localMac + Be16(ethType) + data;
      if frameLength < MIN_FRAME {
        Append(frame, frameLength, Zeros(MIN_FRAME - frameLength));
        frameLength := MIN_FRAME;
      }
      assert frame[..frameLength] == dst + localMac + Be16(ethType) + data + padding;
      sent := sent + [frame[..frameLength]];
    }

    /** The header fields of `ip_send`, the checksum still zero. */
    method FillIpFields(packet: array<Byte>, total: U16, id: U16, protocol: Byte, dst: U32)
      requires packet.Length == MAX_PACKET
      modifies packet
      ensures packet[..IP_HEADER_MIN_LEN] == IpHeader(total, id, protocol, 0, 0, localIp, dst)
    {
      hide Swap16, Swap32, Be16, Be32;
      PutBytes(packet, 0, [0x45, 0]);
      assert packet[..2] == [0x45, 0];
      AppendBe16(packet, 2, total);
      AppendBe16(packet, 4, id);
      AppendBe16(packet, 6, 0x4000);
      PutBytes(packet, 8, [IP_DEFAULT_TTL, protocol, 0, 0]);
      AppendBe32(packet, 12, localIp);
      AppendBe32(packet, 16, dst);
      assert Be16(0x4000) == [0x40, 0] by { FlagBytes(); }
      assert packet[..20] == [0x45, 0] + Be16(total) + Be16(id) + [0x40, 0] + [IP_DEFAULT_TTL, protocol, 0, 0] + Be32(localIp) + Be32(dst);
    }

    method FillIpHeader(packet: array<Byte>, total: U16, id: U16, protocol: Byte, dst: U32)
      requires packet.Length == MAX_PACKET
      modifies packet
      ensures packet[..IP_HEADER_MIN_LEN] == SentHeader(total, id, protocol, localIp, dst)
    {
      hide Checksum, Swap16;
      FillIpFields(packet, total, id, protocol, dst);
      ghost var h := IpHeader(total, id, protocol, 0, 0, localIp, dst);
      assert |h| == IP_HEADER_MIN_LEN && packet[..IP_HEADER_MIN_LEN] == h;
      var c := IpChecksum(packet[..IP_HEADER_MIN_LEN]);
      Put16(packet, 10, Swap16(c));
      assert packet[..IP_HEADER_MIN_LEN] == h[..10] + [Swap16(c) % 256, Swap16(c) / 256] + h[12..];
    }

    /** The rounds in which `ip_send` waits for an answer: `arrivals[r]` is the frame that the card has in round `r`, or
        empty if it has none. */
    method AwaitAnswer(target: U32, arrivals: seq<seq<Byte>>)
      requires Valid() && |arrivals| == ARP_RETRIES && forall r | 0 <= r < ARP_RETRIES :: FrameReadable(localIp, arrivals[r])
      modifies this`sent, this`calls, arp.cache
      ensures Now() == Heard(localIp, localMac, arp.timer, udpHandlers[..], old(Now()), target, arrivals)
    {
      hide Received, Find, FrameReadable;
      ghost var before, handlers := Now(), udpHandlers[..];
      var r := 0;
      while r < ARP_RETRIES
        invariant 0 <= r <= ARP_RETRIES && udpHandlers[..] == handlers
        invariant Heard(localIp, localMac, arp.timer, handlers, before, target, arrivals)
               == Heard(localIp, localMac, arp.timer, handlers, Now(), target, arrivals[r..])
      {
        assert arrivals[r..][0] == arrivals[r] && arrivals[r..][1..] == arrivals[r + 1..];
        if |arrivals[r]| > 0 {
          EthReceiveFrame(arrivals[r]);
        }
        var answer := arp.Resolve(target);
        if answer.Known? {
          break;
        }
        r := r + 1;
      }
    }

    /** The part of `ip_send` after the packet is built: the next hop is resolved, asking for its address if need be, and
        the packet is sent to it. */
    method SendVia(target: U32, packet: seq<Byte>, arrivals: seq<seq<Byte>>)
      requires Valid() && |packet| <= MAX_PACKET
      requires |arrivals| == ARP_RETRIES && forall r | 0 <= r < ARP_RETRIES :: FrameReadable(localIp, arrivals[r])
      modifies this`sent, this`calls, arp.cache
      ensures Now() == Sent(localIp, localMac, arp.timer, udpHandlers[..], old(Now()), target, packet, arrivals)
    {
      hide EthFrame, Find, ArpPacket, Heard, FrameReadable;
      var answer := arp.Resolve(target);
      if answer.Unknown? {
        ArpSendRequest(target);
        AwaitAnswer(target, arrivals);
        answer := arp.Resolve(target);
        if answer.Unknown? {
          return;
        }
      }
      EthSendFrame(answer.mac, ETH_TYPE_IP, packet);
    }

    /** `ip_send`; `arrivals` is what the card receives while an address is being resolved. */
    method IpSend(dst: U32, protocol: Byte, data: seq<Byte>, arrivals: seq<seq<Byte>>)
      requires Valid() && IP_HEADER_MIN_LEN + |data| < 0x1_0000
      requires |arrivals| == ARP_RETRIES && forall r | 0 <= r < ARP_RETRIES :: FrameReadable(localIp, arrivals[r])
      modifies this`sent, this`ipId, this`calls, arp.cache
      ensures ipId == if IP_HEADER_MIN_LEN + |data| > MAX_PACKET then old(ipId) else (old(ipId) + 1) % 0x1_0000
      ensures Now() ==
        if IP_HEADER_MIN_LEN + |data| > MAX_PACKET then old(Now())
        else Sent(localIp, localMac, arp.timer, udpHandlers[..], old(Now()), NextHop(localIp, dst), IpPacket(old(ipId), protocol, localIp, dst, data), arrivals)
      ensures IP_HEADER_MIN_LEN + |data| <= MAX_PACKET ==>
        Addressed(old(Now()), Now(), localMac, NextHop(localIp, dst), IpPacket(old(ipId), protocol, localIp, dst, data))
    {
      hide SentHeader, Sent, FrameReadable, Addressed;
      var total := IP_HEADER_MIN_LEN + |data|;
      if total > MAX_PACKET {
        return;
      }
      var packet := new Byte[MAX_PACKET](i => 0);
      FillIpHeader(packet, total, ipId, protocol, dst);
      ghost var id := ipId;
      ipId := (ipId + 1) % 0x1_0000;
      ghost var header := packet[..IP_HEADER_MIN_LEN];
      PutBytes(packet, IP_HEADER_MIN_LEN, data);
      assert packet[..total] == header + data == IpPacket(id, protocol, localIp, dst, data);
      var gateway := localIp / 256 * 256 + 1;
      var target := if dst / 256 == localIp / 256 then dst else gateway;
      SentIsAddressed(localIp, localMac, arp.timer, udpHandlers[..], Now(), target, packet[..total], arrivals);
      SendVia(target, packet[..total], arrivals);
    }

    /** An ARP packet of RFC 826 for IPv4 over Ethernet. */
    method ArpSend(frameDst: Mac, oper: U16, tha: Mac, tpa: U32)
      modifies this`sent
      ensures sent == old(sent) + [EthFrame(frameDst, localMac, ETH_TYPE_ARP, ArpPacket(oper, localMac, localIp, tha, tpa))]
    {
      EthSendFrame(frameDst, ETH_TYPE_ARP, ArpPacket(oper, localMac, localIp, tha, tpa));
    }

    /** `arp_send_request` */
    method ArpSendRequest(target: U32)
      modifies this`sent
      ensures sent == old(sent) + [EthFrame(BROADCAST_MAC, localMac, ETH_TYPE_ARP, ArpPacket(1, localMac, localIp, NO_MAC, target))]
    {
      ArpSend(BROADCAST_MAC, 1, NO_MAC, target);
    }

    /** `udp_send`: payloads beyond 1472 bytes are dropped silently, below or in IP. */
    method UdpSend(dst: U32, srcPort: U16, dstPort: U16, data: seq<Byte>, arrivals: seq<seq<Byte>>)
      requires Valid() && UDP_HEADER_LEN + |data| < 0x1_0000
      requires |arrivals| == ARP_RETRIES && forall r | 0 <= r < ARP_RETRIES :: FrameReadable(localIp, arrivals[r])
      modifies this`sent, this`ipId, this`calls, arp.cache
      ensures ipId == if |data| > MAX_PAYLOAD then old(ipId) else (old(ipId) + 1) % 0x1_0000
      ensures Now() ==
        if |data| > MAX_PAYLOAD then old(Now())
        else Sent(localIp, localMac, arp.timer, udpHandlers[..], old(Now()), NextHop(localIp, dst),
                  IpPacket(old(ipId), IP_PROTO_UDP, localIp, dst, UdpDatagram(srcPort, dstPort, data)), arrivals)
      ensures |data| <= MAX_PAYLOAD ==>
        Addressed(old(Now()), Now(), localMac, NextHop(localIp, dst), IpPacket(old(ipId), IP_PROTO_UDP, localIp, dst, UdpDatagram(srcPort, dstPort, data)))
    {
      hide EthFrame, IpPacket, Find, Be16, Sent, FrameReadable, Addressed;
      var packet := new Byte[MAX_PACKET](i => 0);
      var total := UDP_HEADER_LEN + |data|;
      if total > MAX_PACKET {
        return;
      }
      assert packet[..0] == [];
      AppendBe16(packet, 0, srcPort);
      AppendBe16(packet, 2, dstPort);
      AppendBe16(packet, 4, total);
      Append(packet, 6, [0, 0]);
      Append(packet, UDP_HEADER_LEN, data);
      assert packet[..total] == UdpDatagram(srcPort, dstPort, data);
      IpSend(dst, IP_PROTO_UDP, packet[..total], arrivals);
    }

    // -------------------------------------------------------------- receiving

    /** `udp_receive` */
    method UdpReceive(src: U32, data: seq<Byte>, length: U16)
      requires Valid() && Readable(data, length)
      modifies this`calls
      ensures calls == old(calls) + ReceiveUdp(udpHandlers[..], src, data, length)
    {
      hide Dispatch;
      if length < UDP_HEADER_LEN {
        return;
      }
      var srcPort := FromBe16(data, 0);
      var dstPort := FromBe16(data, 2);
      var udpLength := FromBe16(data, 4);
      if udpLength > length || udpLength < UDP_HEADER_LEN {
        return;
      }
      var payload := data[UDP_HEADER_LEN..udpLength];
      ghost var u := UdpContent(srcPort, dstPort, payload);
      ghost var handlers := udpHandlers[..];
      var i := 0;
      while i < MAX_UDP_HANDLERS
        invariant 0 <= i <= MAX_UDP_HANDLERS && calls == old(calls) && udpHandlers[..] == handlers
        invariant Dispatch(handlers, src, u, i) == Dispatch(handlers, src, u)
      {
        DispatchStep(handlers, src, u, i);
        if udpHandlers[i].port == dstPort && udpHandlers[i].callback != 0 {
          calls := calls + [Call(udpHandlers[i].callback, src, srcPort, payload)];
          return;
        }
        i := i + 1;
      }
      DispatchStep(handlers, src, u, i);
    }

    /** `ip_receive`; it subtracts the header length from the total length without checking that it can. */
    method IpReceive(data: seq<Byte>)
      requires Valid() && PacketReadable(localIp, data)
      modifies this`calls
      ensures calls == old(calls) + ReceiveIp(localIp, udpHandlers[..], data)
    {
      hide ReceiveUdp, Readable;
      if |data| < IP_HEADER_MIN_LEN {
        return;
      }
      var version := data[0] / 16;
      if version != 4 {
        return;
      }
      var ihl := data[0] % 16 * 4;
      if ihl < IP_HEADER_MIN_LEN || ihl > |data| {
        return;
      }
      var totalLength := FromBe16(data, 2);
      if totalLength > |data| {
        return;
      }
      var dstIp := FromBe32(data, 16);
      if dstIp != localIp && dstIp != BROADCAST_IP {
        return;
      }
      var payload := data[ihl..];
      var payloadLength := if totalLength >= ihl then totalLength - ihl else 0x1_0000 + totalLength - ihl;
      var srcIp := FromBe32(data, 12);
      if data[9] == IP_PROTO_UDP {
        UdpReceive(srcIp, payload, payloadLength);
      }
    }

    /** `arp_receive`: every well-formed ARP packet teaches the sender's address; requests for us are answered. */
    method ArpReceive(data: seq<Byte>)
      requires Valid()
      modifies this`sent, arp.cache
      ensures arp.State() == Learned(old(arp.State()), arp.timer, data)
      ensures sent == old(sent) + Replies(localIp, localMac, data)
      ensures |data| >= 28 && data[..8] == [0, 1, 8, 0, data[4], data[5], 0, 1] && FromBe32(data, 24) == localIp ==>
        && |sent| == |old(sent)| + 1 && |Latest(sent)| == 60 && Latest(sent)[0..6] == data[8..14] && Latest(sent)[6..12] == localMac
        && Latest(sent)[12..14] == [0x08, 0x06]
    {
      hide EthFrame, ArpPacket, Added;
      if |data| >= 28 {
        FrameBytes(data[8..14], localMac, ETH_TYPE_ARP, ArpPacket(2, localMac, localIp, data[8..14], FromBe32(data, 14)));
      }
      if |data| < 28 {
        return;
      }
      if FromBe16(data, 0) != 1 || FromBe16(data, 2) != ETH_TYPE_IP {
        return;
      }
      var senderIp := FromBe32(data, 14);
      var targetIp := FromBe32(data, 24);
      var sha: Mac := data[8..14];
      arp.AddEntry(senderIp, sha);
      if FromBe16(data, 6) == 1 && targetIp == localIp {
        ArpSend(sha, 2, sha, senderIp);
      }
    }

    /** `eth_receive_frame` */
    method EthReceiveFrame(frame: seq<Byte>)
      requires Valid()
      requires FrameReadable(localIp, frame)
      modifies this`calls, this`sent, arp.cache
      ensures Now() == Received(localIp, localMac, arp.timer, udpHandlers[..], old(Now()), frame)
    {
      hide ReceiveIp, PacketReadable, Learned, Replies;
      if |frame| < ETH_HLEN {
        return;
      }
      var ethType := FromBe16(frame, 12);
      var payload := frame[ETH_HLEN..];
      if ethType == ETH_TYPE_ARP {
        ArpReceive(payload);
      } else if ethType == ETH_TYPE_IP {
        IpReceive(payload);
      }
    }
  }

  /** The last of some frames. */
  function Latest(frames: seq<seq<Byte>>): seq<Byte> { if frames == [] then [] else frames[|frames| - 1] }

  const BROADCAST_MAC: Mac := [0xFF, 0xFF, 0xFF, 0xFF, 0xFF, 0xFF]
  const NO_MAC: Mac := [0, 0, 0, 0, 0, 0]

  function ArpPacket(oper: U16, sha: Mac, spa: U32, tha: Mac, tpa: U32): (p: seq<Byte>)
    ensures |p| == 28
  {
    Be16(1) + Be16(ETH_TYPE_IP) + [6, 4] + Be16(oper) + sha + Be32(spa) + tha + Be32(tpa)
  }

  /** Ethernet and IPv4, and long enough. */
  predicate IsArp(data: seq<Byte>) {
    |data| >= 28 && FromBe16(data, 0) == 1 && FromBe16(data, 2) == ETH_TYPE_IP
  }

  /** The cache after an ARP packet: its sender is known. */
  function Learned(es: Cache, now: U32, data: seq<Byte>): Cache {
    if IsArp(data) then Added(es, now, FromBe32(data, 14), data[8..14]) else es
  }

  /** The frames that answer an ARP packet: a reply to its sender if it asks for our address. */
  function Replies(ip: U32, mac: Mac, data: seq<Byte>): seq<seq<Byte>> {
    if IsArp(data) && FromBe16(data, 6) == 1 && FromBe32(data, 24) == ip then
      [EthFrame(data[8..14], mac, ETH_TYPE_ARP, ArpPacket(2, mac, ip, data[8..14], FromBe32(data, 14)))]
    else []
  }

  /** What a received frame does: an ARP packet teaches an address and may be answered, a datagram calls a handler. */
  function Received(ip: U32, mac: Mac, now: U32, handlers: seq<UdpHandler>, before: Traffic, frame: seq<Byte>): Traffic
    requires FrameReadable(ip, frame)
  {
    if |frame| >= ETH_HLEN && FromBe16(frame, 12) == ETH_TYPE_ARP then
      before.(cache := Learned(before.cache, now, frame[ETH_HLEN..]), sent := before.sent + Replies(ip, mac, frame[ETH_HLEN..]))
    else before.(calls := before.calls + ReceiveFrame(ip, handlers, frame))
  }

  /** Frames are taken one a round until the address of `target` is known; an empty one stands for none. */
  function Heard(ip: U32, mac: Mac, now: U32, handlers: seq<UdpHandler>, before: Traffic, target: U32, arrivals: seq<seq<Byte>>): Traffic
    requires forall r | 0 <= r < |arrivals| :: FrameReadable(ip, arrivals[r])
    decreases |arrivals|
  {
    if arrivals == [] then before
    else
      var after := if arrivals[0] == [] then before else Received(ip, mac, now, handlers, before, arrivals[0]);
      if Find(after.cache, target).Known? then after else Heard(ip, mac, now, handlers, after, target, arrivals[1..])
  }

  function Request(ip: U32, mac: Mac, target: U32): seq<Byte> {
    EthFrame(BROADCAST_MAC, mac, ETH_TYPE_ARP, ArpPacket(1, mac, ip, NO_MAC, target))
  }

  /** Sending `packet` by way of `hop`: at once when its address is known, else after asking for it, if it is heard. */
  function Sent(ip: U32, mac: Mac, now: U32, handlers: seq<UdpHandler>, before: Traffic, hop: U32, packet: seq<Byte>,
                arrivals: seq<seq<Byte>>): Traffic
    requires forall r | 0 <= r < |arrivals| :: FrameReadable(ip, arrivals[r])
  {
    var ready := if Find(before.cache, hop).Known? then before
                 else Heard(ip, mac, now, handlers, before.(sent := before.sent + [Request(ip, mac, hop)]), hop, arrivals);
    match Find(ready.cache, hop)
    case Unknown => ready
    case Known(to) => ready.(sent := ready.sent + [EthFrame(to, mac, ETH_TYPE_IP, packet)])
  }

  /** Nothing received. */
  function Silence(): seq<seq<Byte>> { seq<seq<Byte>>(ARP_RETRIES, r => []) }

  /** A frame of host `mac` to everybody that asks for something. */
  ghost predicate Asks(mac: Mac, frame: seq<Byte>) {
    |frame| == 60 && frame[0..6] == [0xFF, 0xFF, 0xFF, 0xFF, 0xFF, 0xFF] && frame[6..12] == mac && frame[12..14] == [0x08, 0x06]
  }

  /** A frame from `mac` to `dst` with an IP packet. */
  ghost predicate Carries(dst: Mac, mac: Mac, packet: seq<Byte>, frame: seq<Byte>) {
    && |frame| >= 14 + |packet| && frame[0..6] == dst && frame[6..12] == mac && frame[12..14] == [0x08, 0x00]
    && frame[14..14 + |packet|] == packet
  }

  /** In bytes, what has been sent from `before` to `after`: if the hardware address of the next hop was unknown, first a
      frame that asks for it; and if it is known afterwards, last a frame to that address with the packet. */
  ghost predicate Addressed(before: Traffic, after: Traffic, mac: Mac, hop: U32, packet: seq<Byte>) {
    var n, m := |before.sent|, |after.sent|;
    && m >= n && after.sent[..n] == before.sent
    && (Find(before.cache, hop).Unknown? ==> m > n && Asks(mac, after.sent[n]))
    && (Find(after.cache, hop).Known? ==> m > n && Carries(Find(after.cache, hop).mac, mac, packet, after.sent[m - 1]))
  }

  lemma RequestAsks(ip: U32, mac: Mac, hop: U32)
    ensures Asks(mac, Request(ip, mac, hop))
  {
    hide ArpPacket;
    FrameBytes(BROADCAST_MAC, mac, ETH_TYPE_ARP, ArpPacket(1, mac, ip, NO_MAC, hop));
    hide EthFrame;
  }

  lemma FrameCarries(dst: Mac, mac: Mac, packet: seq<Byte>)
    ensures Carries(dst, mac, packet, EthFrame(dst, mac, ETH_TYPE_IP, packet))
  {
    FrameBytes(dst, mac, ETH_TYPE_IP, packet);
    hide EthFrame;
  }

  lemma {:induction false} HeardOnlySends(ip: U32, mac: Mac, now: U32, handlers: seq<UdpHandler>, before: Traffic, target: U32, arrivals: seq<seq<Byte>>)
    requires forall r | 0 <= r < |arrivals| :: FrameReadable(ip, arrivals[r])
    ensures var after := Heard(ip, mac, now, handlers, before, target, arrivals);
      |after.sent| >= |before.sent| && after.sent[..|before.sent|] == before.sent
    decreases |arrivals|
  {
    hide FrameReadable, Learned, Replies, Wire.ReceiveFrame, Find, FromBe16;
    if arrivals != [] {
      var after := if arrivals[0] == [] then before else Received(ip, mac, now, handlers, before, arrivals[0]);
      HeardOnlySends(ip, mac, now, handlers, after, target, arrivals[1..]);
    }
  }

  lemma SentIsAddressed(ip: U32, mac: Mac, now: U32, handlers: seq<UdpHandler>, before: Traffic, hop: U32, packet: seq<Byte>, arrivals: seq<seq<Byte>>)
    requires forall r | 0 <= r < |arrivals| :: FrameReadable(ip, arrivals[r])
    ensures Addressed(before, Sent(ip, mac, now, handlers, before, hop, packet, arrivals), mac, hop, packet)
  {
    hide FrameReadable, Find, EthFrame, Heard, Request, Asks, Carries;
    var asked := before.(sent := before.sent + [Request(ip, mac, hop)]);
    var after := Sent(ip, mac, now, handlers, before, hop, packet, arrivals);
    RequestAsks(ip, mac, hop);
    HeardOnlySends(ip, mac, now, handlers, asked, hop, arrivals);
    if Find(after.cache, hop).Known? {
      FrameCarries(Find(after.cache, hop).mac, mac, packet);
    }
    if Find(before.cache, hop).Unknown? {
      var heard := Heard(ip, mac, now, handlers, asked, hop, arrivals);
      assert heard.sent[|before.sent|] == heard.sent[..|asked.sent|][|before.sent|] == Request(ip, mac, hop);
      assert heard.sent[..|before.sent|] == heard.sent[..|asked.sent|][..|before.sent|];
    }
  }

  lemma ArpFields(oper: U16, sha: Mac, spa: U32, tha: Mac, tpa: U32, padding: seq<Byte>)
    ensures var p := ArpPacket(oper, sha, spa, tha, tpa) + padding;
      IsArp(p) && FromBe16(p, 6) == oper && p[8..14] == sha && FromBe32(p, 14) == spa && FromBe32(p, 24) == tpa
  {
    var p := ArpPacket(oper, sha, spa, tha, tpa) + padding;
    assert p[0..2] == Be16(1) && p[2..4] == Be16(ETH_TYPE_IP) && p[6..8] == Be16(oper);
    assert p[8..14] == sha && p[14..18] == Be32(spa) && p[24..28] == Be32(tpa);
    Be16RoundTrip(1, p, 0);
    Be16RoundTrip(ETH_TYPE_IP, p, 2);
    Be16RoundTrip(oper, p, 6);
    Be32RoundTrip(spa, p, 14);
    Be32RoundTrip(tpa, p, 24);
  }

  /** An ARP packet in bytes (RFC 826): Ethernet and IPv4, address lengths 6 and 4, the operation, sender and target. */
  lemma ArpBytes(oper: U16, sha: Mac, spa: U32, tha: Mac, tpa: U32)
    ensures ArpPacket(oper, sha, spa, tha, tpa) == [0, 1, 8, 0, 6, 4, oper / 256, oper % 256] + sha + Be32(spa) + tha + Be32(tpa)
  {
  }

  /** What is too short, or not about IPv4 over Ethernet, is ignored. */
  lemma OtherArpIgnored(es: Cache, now: U32, ip: U32, mac: Mac, data: seq<Byte>)
    requires |data| < 28 || data[0..4] != [0, 1, 8, 0]
    ensures Learned(es, now, data) == es && Replies(ip, mac, data) == []
  {
    hide FromBe16;
    if |data| >= 28 {
      SameHalf(data, 0, 1);
      SameHalf(data, 2, 0x0800);
      assert data[0..4] == data[0..2] + data[2..4];
    }
  }

  /** So are frames of other types, and what is no frame. */
  lemma OtherFramesIgnored(ip: U32, mac: Mac, now: U32, handlers: seq<UdpHandler>, before: Traffic, frame: seq<Byte>)
    requires |frame| < 14 || (frame[12..14] != [0x08, 0x00] && frame[12..14] != [0x08, 0x06])
    ensures FrameReadable(ip, frame) && Received(ip, mac, now, handlers, before, frame) == before
  {
    hide FromBe16;
    if |frame| >= 14 {
      SameHalf(frame, 12, 0x0800);
      SameHalf(frame, 12, 0x0806);
    }
    assert before.calls + [] == before.calls;
  }

  /** A frame carrying an ARP packet teaches its receiver the sender's binding, and is answered if it is a request
      for the receiver's address. */
  lemma ArpFrame(dst: Mac, src: Mac, oper: U16, spa: U32, tha: Mac, tpa: U32, es: Cache, now: U32, ip: U32, mac: Mac)
    ensures var f := EthFrame(dst, src, ETH_TYPE_ARP, ArpPacket(oper, src, spa, tha, tpa));
      && |f| >= ETH_HLEN && FromBe16(f, 12) == ETH_TYPE_ARP
      && Learned(es, now, f[ETH_HLEN..]) == Added(es, now, spa, src)
      && Replies(ip, mac, f[ETH_HLEN..]) == if oper == 1 && tpa == ip then [EthFrame(src, mac, ETH_TYPE_ARP, ArpPacket(2, mac, ip, src, spa))] else []
  {
    hide EthFrame, ArpPacket, Added, IsArp, FromBe16, FromBe32, Zeros;
    var p := ArpPacket(oper, src, spa, tha, tpa);
    FrameRoundTrip(dst, src, ETH_TYPE_ARP, p);
    ArpFields(oper, src, spa, tha, tpa, Zeros(MIN_FRAME - ETH_HLEN - |p|));
  }

  /** A frame that a host's network card passes on: its address or everybody's is in front. */
  predicate ForHost(mac: Mac, frame: seq<Byte>) {
    |frame| >= 6 && (frame[0..6] == mac || frame[0..6] == [0xFF, 0xFF, 0xFF, 0xFF, 0xFF, 0xFF])
  }

  /** The wire: a frame reaches a host if it is for that host. */
  method Deliver(to: Host, frame: seq<Byte>)
    requires to.Valid() && FrameReadable(to.localIp, frame)
    modifies to`calls, to`sent, to.arp.cache
    ensures to.Now() ==
      if ForHost(to.localMac, frame) then Received(to.localIp, to.localMac, to.arp.timer, to.udpHandlers[..], old(to.Now()), frame) else old(to.Now())
  {
    hide FrameReadable, Received;
    if |frame| >= 6 && (frame[0..6] == to.localMac || frame[0..6] == BROADCAST_MAC) {
      to.EthReceiveFrame(frame);
    }
  }

  lemma DispatchStep(handlers: seq<UdpHandler>, src: U32, u: UdpContent, i: nat)
    requires i <= |handlers|
    ensures Dispatch(handlers, src, u, i) ==
      if i == |handlers| then []
      else if handlers[i].port == u.dstPort && handlers[i].callback != 0 then
        [Call(handlers[i].callback, src, u.srcPort, u.payload)]
      else Dispatch(handlers, src, u, i + 1)
  {
  }

  /** A received datagram for this host changes nothing but the calls. */
  lemma ReceivedDatagram(now: U32, before: Traffic, mac: Mac, src: Mac, id: U16, from: U32, ip: U32, srcPort: U16, dstPort: U16, data: seq<Byte>,
                         handlers: seq<UdpHandler>)
    requires |data| <= MAX_PAYLOAD
    ensures var frame := EthFrame(mac, src, ETH_TYPE_IP, IpPacket(id, IP_PROTO_UDP, from, ip, UdpDatagram(srcPort, dstPort, data)));
      && FrameReadable(ip, frame)
      && forall mine: Mac :: Received(ip, mine, now, handlers, before, frame)
           == before.(calls := before.calls + Dispatch(handlers, from, UdpContent(srcPort, dstPort, data)))
  {
    hide EthFrame, IpPacket, UdpDatagram, Dispatch, Wire.ReceiveFrame, FrameReadable, FromBe16;
    DatagramLength(srcPort, dstPort, data);
    var p := IpPacket(id, IP_PROTO_UDP, from, ip, UdpDatagram(srcPort, dstPort, data));
    FrameRoundTrip(mac, src, ETH_TYPE_IP, p);
    EncapsulationRoundTrip(mac, src, id, from, ip, srcPort, dstPort, data, handlers);
  }

  /** A received request for this host's address teaches the sender's and is answered. */
  lemma ReceivedRequest(now: U32, before: Traffic, ip: U32, mac: Mac, from: U32, src: Mac, handlers: seq<UdpHandler>)
    ensures var frame := Request(from, src, ip);
      && FrameReadable(ip, frame)
      && Received(ip, mac, now, handlers, before, frame)
           == before.(cache := Added(before.cache, now, from, src), sent := before.sent + [Reply(ip, mac, from, src)])
  {
    hide EthFrame, ArpPacket, Added, Learned, Replies, FromBe16;
    ArpFrame(BROADCAST_MAC, src, 1, from, NO_MAC, ip, before.cache, now, ip, mac);
  }

  /** A received answer teaches the answerer's address. */
  lemma ReceivedReply(now: U32, before: Traffic, ip: U32, mac: Mac, b: U32, bMac: Mac, handlers: seq<UdpHandler>)
    ensures var frame := Reply(b, bMac, ip, mac);
      && FrameReadable(ip, frame)
      && Received(ip, mac, now, handlers, before, frame) == before.(cache := Added(before.cache, now, b, bMac))
  {
    hide EthFrame, ArpPacket, Added, Learned, Replies, FromBe16;
    ArpFrame(mac, bMac, 2, b, mac, ip, before.cache, now, ip, mac);
  }

  /** Whom requests and answers are for. */
  lemma ArpReaches(ip: U32, mac: Mac, target: U32, other: Mac)
    ensures ForHost(other, Request(ip, mac, target)) && Reply(ip, mac, target, other)[0..6] == other && ForHost(other, Reply(ip, mac, target, other))
  {
    hide ArpPacket;
    FrameBytes(BROADCAST_MAC, mac, ETH_TYPE_ARP, ArpPacket(1, mac, ip, NO_MAC, target));
    FrameBytes(other, mac, ETH_TYPE_ARP, ArpPacket(2, mac, ip, other, target));
  }

  /** Address resolution between two hosts: after a request and its reply each knows the other's address. */
  method ResolveAddress(a: Host, b: Host)
    requires a.Valid() && b.Valid() && a != b && a.arp != b.arp && a.arp.cache != b.arp.cache && a.udpHandlers != b.udpHandlers
    modifies a`sent, a`calls, a.arp.cache, b`sent, b`calls, b.arp.cache
    ensures Find(a.arp.State(), b.localIp) == Known(b.localMac) && Find(b.arp.State(), a.localIp) == Known(a.localMac)
    ensures a.calls == old(a.calls) && b.calls == old(b.calls)
    ensures |a.sent| == |old(a.sent)| + 1 && |b.sent| == |old(b.sent)| + 1
  {
    hide EthFrame, ArpPacket, Added, Find, Received, FrameReadable, ForHost;
    ReceivedRequest(b.arp.timer, b.Now(), b.localIp, b.localMac, a.localIp, a.localMac, b.udpHandlers[..]);
    AddedIsFound(b.arp.State(), b.arp.timer, a.localIp, a.localMac);
    ArpReaches(a.localIp, a.localMac, b.localIp, b.localMac);
    a.ArpSendRequest(b.localIp);
    Deliver(b, a.sent[|a.sent| - 1]);
    ReceivedReply(a.arp.timer, a.Now(), a.localIp, a.localMac, b.localIp, b.localMac, a.udpHandlers[..]);
    AddedIsFound(a.arp.State(), a.arp.timer, b.localIp, b.localMac);
    ArpReaches(b.localIp, b.localMac, a.localIp, a.localMac);
    Deliver(a, b.sent[|b.sent| - 1]);
  }

  /** Two hosts, one frame: what `a` sends to `b`'s IP address, `b` hands to its first handler for the port, if the address
      that `a` has for the next hop is that of `b` or everybody's. */
  method Exchange(a: Host, b: Host, srcPort: U16, dstPort: U16, data: seq<Byte>)
    requires a.Valid() && b.Valid() && a != b && a.arp != b.arp && a.arp.cache != b.arp.cache && a.udpHandlers != b.udpHandlers
    requires |data| <= MAX_PAYLOAD && Find(a.arp.State(), NextHop(a.localIp, b.localIp)).Known?
    modifies a`sent, a`ipId, a`calls, a.arp.cache, b`calls, b`sent, b.arp.cache
    ensures var mac := Find(old(a.arp.State()), NextHop(a.localIp, b.localIp)).mac;
      b.calls == old(b.calls) +
        if mac == b.localMac || mac == [0xFF, 0xFF, 0xFF, 0xFF, 0xFF, 0xFF] then Dispatch(b.udpHandlers[..], a.localIp, UdpContent(srcPort, dstPort, data))
        else []
  {
    hide EthFrame, IpPacket, UdpDatagram, Dispatch, Received, Find, FrameReadable;
    ghost var mac := Find(a.arp.State(), NextHop(a.localIp, b.localIp)).mac;
    ReceivedDatagram(b.arp.timer, b.Now(), mac, a.localMac, a.ipId, a.localIp, b.localIp, srcPort, dstPort, data, b.udpHandlers[..]);
    assert forall r | 0 <= r < ARP_RETRIES :: FrameReadable(a.localIp, Silence()[r]) by { SilenceIsReadable(a.localIp); }
    a.UdpSend(b.localIp, srcPort, dstPort, data, Silence());
    var frame := a.sent[|a.sent| - 1];
    Deliver(b, frame);
  }

  lemma SilenceIsReadable(ip: U32)
    ensures forall r | 0 <= r < ARP_RETRIES :: FrameReadable(ip, Silence()[r])
  {
  }

  /** An address that has just been added is found, whatever is in the cache. */
  lemma AddedIsFound(es: Cache, now: U32, ip: U32, mac: Mac)
    ensures Find(Added(es, now, ip, mac), ip) == Known(mac)
  {
    hide Stop, Match, Oldest;
    var k, r := Stop(es, ip), Added(es, now, ip, mac);
    var at := if k < ARP_CACHE_SIZE then k else Oldest(es, ARP_CACHE_SIZE).0;
    assert r[at].valid && r[at].ip == ip && r[at].mac == mac;
    assert Match(r, ip) == at;
  }

  /** The answer of `b` to a request of `a`. */
  function Reply(b: U32, bMac: Mac, a: U32, aMac: Mac): seq<Byte> {
    EthFrame(aMac, bMac, ETH_TYPE_ARP, ArpPacket(2, bMac, b, aMac, a))
  }

  /** Silence, then the answer: the answer is heard. */
  lemma {:induction false} HeardReply(ip: U32, mac: Mac, now: U32, handlers: seq<UdpHandler>, before: Traffic, b: U32, bMac: Mac,
                                      arrivals: seq<seq<Byte>>, r: nat)
    requires forall j | 0 <= j < |arrivals| :: FrameReadable(ip, arrivals[j])
    requires r < |arrivals| && arrivals[r] == Reply(b, bMac, ip, mac) && forall j | 0 <= j < r :: arrivals[j] == []
    requires Find(before.cache, b) == Unknown
    ensures Heard(ip, mac, now, handlers, before, b, arrivals) == before.(cache := Added(before.cache, now, b, bMac))
    ensures Find(Added(before.cache, now, b, bMac), b) == Known(bMac)
    decreases r
  {
    hide EthFrame, ArpPacket, Added, Find, Learned, Replies, FrameReadable, ReceiveFrame, FromBe16;
    AddedIsFound(before.cache, now, b, bMac);
    if r == 0 {
      ArpFrame(mac, bMac, 2, b, mac, ip, before.cache, now, ip, mac);
    } else {
      HeardReply(ip, mac, now, handlers, before, b, bMac, arrivals[1..], r - 1);
    }
  }

  /** First contact of two hosts on one network: `a` asks for the address of `b`, in some round hears the answer that `b`
      gives, and then sends its datagram, which `b` hands to its first handler for the port. */
  method FirstContact(a: Host, b: Host, srcPort: U16, dstPort: U16, data: seq<Byte>, arrivals: seq<seq<Byte>>, ghost r: nat)
    requires a.Valid() && b.Valid() && a != b && a.arp != b.arp && a.arp.cache != b.arp.cache && a.udpHandlers != b.udpHandlers
    requires |data| <= MAX_PAYLOAD && a.localIp / 256 == b.localIp / 256 && Find(a.arp.State(), b.localIp) == Unknown
    requires |arrivals| == ARP_RETRIES && forall j | 0 <= j < ARP_RETRIES :: FrameReadable(a.localIp, arrivals[j])
    requires r < ARP_RETRIES && arrivals[r] == Reply(b.localIp, b.localMac, a.localIp, a.localMac) && forall j | 0 <= j < r :: arrivals[j] == []
    modifies a`sent, a`ipId, a`calls, a.arp.cache, b`calls, b`sent, b.arp.cache
    ensures b.sent == old(b.sent) + [arrivals[r]]
    ensures b.calls == old(b.calls) + Dispatch(b.udpHandlers[..], a.localIp, UdpContent(srcPort, dstPort, data))
    ensures Find(a.arp.State(), b.localIp) == Known(b.localMac) && Find(b.arp.State(), a.localIp) == Known(a.localMac)
    ensures |a.sent| == |old(a.sent)| + 2 && a.calls == old(a.calls)
  {
    hide EthFrame, ArpPacket, IpPacket, UdpDatagram, Dispatch, Received, Find, Added, Heard, FrameReadable, Request, Reply;
    ghost var before, start := a.Now(), b.Now();
    ghost var request := Request(a.localIp, a.localMac, b.localIp);
    HeardReply(a.localIp, a.localMac, a.arp.timer, a.udpHandlers[..], before.(sent := before.sent + [request]), b.localIp, b.localMac, arrivals, r);
    ReceivedRequest(b.arp.timer, start, b.localIp, b.localMac, a.localIp, a.localMac, b.udpHandlers[..]);
    AddedIsFound(start.cache, b.arp.timer, a.localIp, a.localMac);
    ghost var met := Received(b.localIp, b.localMac, b.arp.timer, b.udpHandlers[..], start, request);
    ReceivedDatagram(b.arp.timer, met, b.localMac, a.localMac, a.ipId, a.localIp, b.localIp, srcPort, dstPort, data, b.udpHandlers[..]);
    a.UdpSend(b.localIp, srcPort, dstPort, data, arrivals);
    assert b.Now() == start;
    Deliver(b, a.sent[|a.sent| - 2]);
    Deliver(b, a.sent[|a.sent| - 1]);
  }
}
