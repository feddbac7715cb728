/** Frame formats of net/ethernet.c, net/ip.c and net/udp.c: what goes on the wire and what a receiver makes of it. */
module Wire {
  import opened Bytes
  import opened InternetChecksum
  import opened Arp

  const ETH_HLEN := 14
  const ETH_DATA_LEN := 1500
  const ETH_TYPE_ARP: U16 := 0x0806
  const ETH_TYPE_IP: U16 := 0x0800
  const IP_HEADER_MIN_LEN := 20
  const IP_DEFAULT_TTL: Byte := 64
  const IP_PROTO_UDP: Byte := 17
  const UDP_HEADER_LEN := 8
  const MIN_FRAME := 60
  const MAX_PAYLOAD := 1472
  const BROADCAST_IP: U32 := 0xFFFF_FFFF

  /** Network byte order. */
  function Be16(x: U16): seq<Byte> { [x / 256, x % 256] }
  function Be32(x: U32): seq<Byte> { [x / 16777216, x / 65536 % 256, x / 256 % 256, x % 256] }

  function FromBe16(bs: seq<Byte>, at: nat): U16
    requires at + 2 <= |bs|
  {
    var hi: int, lo: int := bs[at], bs[at + 1];
    256 * hi + lo
  }

  function FromBe32(bs: seq<Byte>, at: nat): U32
    requires at + 4 <= |bs|
  {
    var a: int, b: int, c: int, d: int := bs[at], bs[at + 1], bs[at + 2], bs[at + 3];
    16777216 * a + 65536 * b + 256 * c + d
  }

  // ---------------------------------------------------------------- sending

  /** RFC 768 header, checksum 0, then the data. */
  function UdpDatagram(srcPort: U16, dstPort: U16, data: seq<Byte>): seq<Byte>
    requires UDP_HEADER_LEN + |data| < 0x1_0000
  {
    Be16(srcPort) + Be16(dstPort) + Be16(UDP_HEADER_LEN + |data|) + [0, 0] + data
  }

  /** Section 3.1 of RFC 791, without options, with the two checksum bytes given. */
  function IpHeader(total: U16, id: U16, protocol: Byte, c0: Byte, c1: Byte, src: U32, dst: U32): seq<Byte> {
    [0x45, 0] + Be16(total) + Be16(id) + [0x40, 0, IP_DEFAULT_TTL, protocol, c0, c1] + Be32(src) + Be32(dst)
  }

  /** The header as sent: the native checksum, byte-swapped. */
  function SentHeader(total: U16, id: U16, protocol: Byte, src: U32, dst: U32): seq<Byte> {
    var c := Swap16(Checksum(IpHeader(total, id, protocol, 0, 0, src, dst)));
    IpHeader(total, id, protocol, c % 256, c / 256, src, dst)
  }

  function IpPacket(id: U16, protocol: Byte, src: U32, dst: U32, payload: seq<Byte>): seq<Byte>
    requires IP_HEADER_MIN_LEN + |payload| < 0x1_0000
  {
    SentHeader(IP_HEADER_MIN_LEN + |payload|, id, protocol, src, dst) + payload
  }

  function Zeros(n: int): seq<Byte> { seq<Byte>(if n < 0 then 0 else n, k => 0) }

  /** Short frames are padded with zeros to 60 bytes. */
  function EthFrame(dst: Mac, src: Mac, ethType: U16, payload: seq<Byte>): seq<Byte> {
    dst + src + Be16(ethType) + payload + Zeros(MIN_FRAME - ETH_HLEN - |payload|)
  }

  /** On the local /24 the destination itself, otherwise host 1 of the local network. */
  function NextHop(local: U32, dst: U32): U32 { if dst / 256 == local / 256 then dst else local / 256 * 256 + 1 }

  // ---------------------------------------------------------------- receiving

  datatype Option<T> = None | Some(value: T)

  /** What `ip_receive` passes on: the buffer after the header, and how much of it it takes to be payload. */
  datatype IpContent = IpContent(protocol: Byte, src: U32, rest: seq<Byte>, length: U16)
  datatype UdpContent = UdpContent(srcPort: U16, dstPort: U16, payload: seq<Byte>)

  /** The header length field, in bytes. */
  function HeaderLength(data: seq<Byte>): nat
    requires data != []
  {
    data[0] % 16 * 4
  }

  /** Total length less header length in 16 bits; it wraps when the total does not even cover the header. */
  function PayloadLength(total: U16, header: nat): U16
    requires header < 0x1_0000
  {
    if total >= header then total - header else 0x1_0000 + total - header
  }

  function ParseIp(local: U32, data: seq<Byte>): Option<IpContent> {
    if |data| < IP_HEADER_MIN_LEN || data[0] / 16 != 4 then None
    else if HeaderLength(data) < IP_HEADER_MIN_LEN || HeaderLength(data) > |data| || FromBe16(data, 2) > |data| then None
    else if FromBe32(data, 16) != local && FromBe32(data, 16) != BROADCAST_IP then None
    else Some(IpContent(data[9], FromBe32(data, 12), data[HeaderLength(data)..], PayloadLength(FromBe16(data, 2), HeaderLength(data))))
  }

  /** Reading a datagram of the given length stays inside the buffer. */
  predicate Readable(rest: seq<Byte>, length: U16) {
    length >= UDP_HEADER_LEN ==> |rest| >= UDP_HEADER_LEN && (FromBe16(rest, 4) <= |rest| || FromBe16(rest, 4) > length)
  }

  /** So does reading the datagram inside a packet, if the packet is for this host and carries one. */
  predicate PacketReadable(local: U32, data: seq<Byte>) {
    match ParseIp(local, data)
    case None => true
    case Some(c) => c.protocol == IP_PROTO_UDP ==> Readable(c.rest, c.length)
  }

  /** The checks of `ip_receive` let a datagram through that cannot be read exactly when the total length does not cover
      the header and the bytes behind the header do not hold the datagram that its own length field announces. */
  lemma ReadableExactly(local: U32, data: seq<Byte>)
    requires ParseIp(local, data).Some? && ParseIp(local, data).value.protocol == IP_PROTO_UDP
    ensures var header, total := HeaderLength(data), FromBe16(data, 2);
      var rest := data[header..];
      PacketReadable(local, data) <==>
        || total >= header
        || (|rest| >= UDP_HEADER_LEN && (FromBe16(rest, 4) <= |rest| || FromBe16(rest, 4) > 0x1_0000 + total - header))
  {
    hide FromBe32;
  }

  /** Such packets exist: a bare header for UDP with total length 0. */
  function ShortPacket(src: U32, local: U32): seq<Byte> { IpHeader(0, 0, IP_PROTO_UDP, 0, 0, src, local) }

  lemma ShortPacketUnreadable(src: U32, local: U32)
    ensures var p := ShortPacket(src, local);
      && ParseIp(local, p) == Some(IpContent(IP_PROTO_UDP, src, [], 0x1_0000 - IP_HEADER_MIN_LEN))
      && !PacketReadable(local, p)
  {
    var p := ShortPacket(src, local);
    HeaderFields(0, 0, IP_PROTO_UDP, 0, 0, src, local, []);
    assert p + [] == p;
    assert p[IP_HEADER_MIN_LEN..] == [];
  }

  function ParseUdp(rest: seq<Byte>, length: U16): Option<UdpContent>
    requires Readable(rest, length)
  {
    if length < UDP_HEADER_LEN then None
    else if FromBe16(rest, 4) > length || FromBe16(rest, 4) < UDP_HEADER_LEN then None
    else Some(UdpContent(FromBe16(rest, 0), FromBe16(rest, 2), rest[UDP_HEADER_LEN..FromBe16(rest, 4)]))
  }

  /** A registered handler; callback 0 is the null pointer. */
  datatype UdpHandler = UdpHandler(port: U16, callback: nat)

  /** A call of a handler. */
  datatype Call = Call(callback: nat, src: U32, srcPort: U16, payload: seq<Byte>)

  /** The first handler for a port, as a list of at most one call. */
  function Dispatch(handlers: seq<UdpHandler>, src: U32, u: UdpContent, i: nat := 0): seq<Call>
    requires i <= |handlers|
    decreases |handlers| - i
  {
    if i == |handlers| then []
    else if handlers[i].port == u.dstPort && handlers[i].callback != 0 then
      [Call(handlers[i].callback, src, u.srcPort, u.payload)]
    else Dispatch(handlers, src, u, i + 1)
  }

  function ReceiveUdp(handlers: seq<UdpHandler>, src: U32, rest: seq<Byte>, length: U16): seq<Call>
    requires Readable(rest, length)
  {
    match ParseUdp(rest, length)
    case None => []
    case Some(u) => Dispatch(handlers, src, u)
  }

  function ReceiveIp(local: U32, handlers: seq<UdpHandler>, data: seq<Byte>): seq<Call>
    requires PacketReadable(local, data)
  {
    match ParseIp(local, data)
    case None => []
    case Some(c) => if c.protocol == IP_PROTO_UDP then ReceiveUdp(handlers, c.src, c.rest, c.length) else []
  }

  /** The frame is not an IP packet, or one whose datagram, if it is for this host, can be read. */
  predicate FrameReadable(local: U32, frame: seq<Byte>) {
    |frame| < ETH_HLEN || FromBe16(frame, 12) != ETH_TYPE_IP || PacketReadable(local, frame[ETH_HLEN..])
  }

  /** The handler calls that one frame causes. */
  function ReceiveFrame(local: U32, handlers: seq<UdpHandler>, frame: seq<Byte>): seq<Call>
    requires FrameReadable(local, frame)
  {
    if |frame| < ETH_HLEN || FromBe16(frame, 12) != ETH_TYPE_IP then []
    else ReceiveIp(local, handlers, frame[ETH_HLEN..])
  }

  // ---------------------------------------------------------------- round trip

  lemma Be16RoundTrip(x: U16, bs: seq<Byte>, at: nat)
    requires at + 2 <= |bs| && bs[at..at + 2] == Be16(x)
    ensures FromBe16(bs, at) == x
  {
    assert bs[at] == bs[at..at + 2][0] && bs[at + 1] == bs[at..at + 2][1];
  }

  lemma Be32RoundTrip(x: U32, bs: seq<Byte>, at: nat)
    requires at + 4 <= |bs| && bs[at..at + 4] == Be32(x)
    ensures FromBe32(bs, at) == x
  {
    var w := bs[at..at + 4];
    assert bs[at] == w[0] && bs[at + 1] == w[1] && bs[at + 2] == w[2] && bs[at + 3] == w[3];
    var q: nat := x / 256;
    assert x / 65536 == q / 256 && x / 16777216 == q / 256 / 256;
  }

  lemma UdpRoundTrip(srcPort: U16, dstPort: U16, data: seq<Byte>, padding: seq<Byte>)
    requires UDP_HEADER_LEN + |data| < 0x1_0000
    ensures var rest, length := UdpDatagram(srcPort, dstPort, data) + padding, UDP_HEADER_LEN + |data|;
      Readable(rest, length) && ParseUdp(rest, length) == Some(UdpContent(srcPort, dstPort, data))
  {
    var u := UdpDatagram(srcPort, dstPort, data) + padding;
    assert u[0..2] == Be16(srcPort) && u[2..4] == Be16(dstPort) && u[4..6] == Be16(UDP_HEADER_LEN + |data|);
    Be16RoundTrip(srcPort, u, 0);
    Be16RoundTrip(dstPort, u, 2);
    Be16RoundTrip(UDP_HEADER_LEN + |data|, u, 4);
    assert u[UDP_HEADER_LEN..UDP_HEADER_LEN + |data|] == data;
  }

  /** Bytes after the total length, such as frame padding, are not counted as payload. */
  lemma IpRoundTrip(id: U16, protocol: Byte, src: U32, dst: U32, payload: seq<Byte>, padding: seq<Byte>)
    requires IP_HEADER_MIN_LEN + |payload| < 0x1_0000
    ensures var p := IpPacket(id, protocol, src, dst, payload) + padding;
      && |p| >= IP_HEADER_MIN_LEN && HeaderLength(p) == IP_HEADER_MIN_LEN && FromBe16(p, 2) == IP_HEADER_MIN_LEN + |payload|
      && ParseIp(dst, p) == Some(IpContent(protocol, src, payload + padding, |payload|))
  {
    hide Checksum, Swap16;
    var c := Swap16(Checksum(IpHeader(IP_HEADER_MIN_LEN + |payload|, id, protocol, 0, 0, src, dst)));
    HeaderFields(IP_HEADER_MIN_LEN + |payload|, id, protocol, c % 256, c / 256, src, dst, payload + padding);
    var h := SentHeader(IP_HEADER_MIN_LEN + |payload|, id, protocol, src, dst);
    var p := IpPacket(id, protocol, src, dst, payload) + padding;
    assert p == h + (payload + padding);
    assert p[IP_HEADER_MIN_LEN..] == payload + padding;
  }

  lemma HeaderFields(total: U16, id: U16, protocol: Byte, c0: Byte, c1: Byte, src: U32, dst: U32, rest: seq<Byte>)
    ensures var p := IpHeader(total, id, protocol, c0, c1, src, dst) + rest;
      && |p| == IP_HEADER_MIN_LEN + |rest| && p[0] == 0x45 && FromBe16(p, 2) == total && p[9] == protocol
      && FromBe32(p, 12) == src && FromBe32(p, 16) == dst
  {
    var p := IpHeader(total, id, protocol, c0, c1, src, dst) + rest;
    assert p[2..4] == Be16(total) && p[12..16] == Be32(src) && p[16..20] == Be32(dst);
    Be16RoundTrip(total, p, 2);
    Be32RoundTrip(src, p, 12);
    Be32RoundTrip(dst, p, 16);
  }

  lemma FrameRoundTrip(dst: Mac, src: Mac, ethType: U16, payload: seq<Byte>)
    ensures var f := EthFrame(dst, src, ethType, payload);
      && |f| >= MIN_FRAME && FromBe16(f, 12) == ethType
      && f[ETH_HLEN..] == payload + Zeros(MIN_FRAME - ETH_HLEN - |payload|)
  {
    var f := EthFrame(dst, src, ethType, payload);
    assert f[12..14] == Be16(ethType);
    Be16RoundTrip(ethType, f, 12);
  }

  /** A frame byte by byte: who it is for, who it is from, its type, its payload and padding up to 60 bytes. */
  lemma FrameBytes(dst: Mac, src: Mac, ethType: U16, payload: seq<Byte>)
    ensures var f := EthFrame(dst, src, ethType, payload);
      && |f| == (if |payload| < 46 then 60 else 14 + |payload|)
      && f[0..6] == dst && f[6..12] == src && f[12] == ethType / 256 && f[13] == ethType % 256 && f[14..14 + |payload|] == payload
      && forall k | 14 + |payload| <= k < |f| :: f[k] == 0
  {
  }

  /** Encapsulation round trip: the frame of a UDP datagram, padded or not, calls on the host that owns the
      destination address the first handler for the port with the sender's address and port and exactly its data. */
  lemma EncapsulationRoundTrip(dstMac: Mac, srcMac: Mac, id: U16, src: U32, dst: U32, srcPort: U16, dstPort: U16,
                               data: seq<Byte>, handlers: seq<UdpHandler>)
    requires |data| <= MAX_PAYLOAD
    ensures var frame := EthFrame(dstMac, srcMac, ETH_TYPE_IP, IpPacket(id, IP_PROTO_UDP, src, dst, UdpDatagram(srcPort, dstPort, data)));
      FrameReadable(dst, frame) && ReceiveFrame(dst, handlers, frame) == Dispatch(handlers, src, UdpContent(srcPort, dstPort, data))
  {
    hide Checksum, IpPacket, UdpDatagram, EthFrame, ParseIp, ParseUdp, Dispatch, FromBe16, Zeros, Readable, HeaderLength;
    var u := UdpDatagram(srcPort, dstPort, data);
    assert |u| == UDP_HEADER_LEN + |data| by { DatagramLength(srcPort, dstPort, data); }
    var p := IpPacket(id, IP_PROTO_UDP, src, dst, u);
    var padding := Zeros(MIN_FRAME - ETH_HLEN - |p|);
    FrameRoundTrip(dstMac, srcMac, ETH_TYPE_IP, p);
    IpRoundTrip(id, IP_PROTO_UDP, src, dst, u, padding);
    UdpRoundTrip(srcPort, dstPort, data, padding);
    assert PacketReadable(dst, p + padding);
  }

  lemma DatagramLength(srcPort: U16, dstPort: U16, data: seq<Byte>)
    requires UDP_HEADER_LEN + |data| < 0x1_0000
    ensures |UdpDatagram(srcPort, dstPort, data)| == UDP_HEADER_LEN + |data|
  {
  }

  /** Dispatch calls the first matching handler and nobody else. */
  lemma {:induction false} DispatchIsFirst(handlers: seq<UdpHandler>, src: U32, u: UdpContent, i: nat, k: nat)
    requires i <= k < |handlers| && handlers[k].port == u.dstPort && handlers[k].callback != 0
    requires forall j | i <= j < k :: handlers[j].port != u.dstPort || handlers[j].callback == 0
    ensures Dispatch(handlers, src, u, i) == [Call(handlers[k].callback, src, u.srcPort, u.payload)]
    decreases k - i
  {
    if i < k {
      DispatchIsFirst(handlers, src, u, i + 1, k);
    }
  }

  /** The header as sent passes the receiver's own checksum exactly when the two checksum bytes are equal. */
  lemma SentHeaderVerifies(total: U16, id: U16, protocol: Byte, src: U32, dst: U32)
    ensures var c := Checksum(IpHeader(total, id, protocol, 0, 0, src, dst));
      Checksum(SentHeader(total, id, protocol, src, dst)) == 0 <==> c % 256 == c / 256
  {
    hide Checksum, Swap16;
    var h: seq<Byte> := IpHeader(total, id, protocol, 0, 0, src, dst);
    var c := Swap16(Checksum(h));
    var c0: Byte, c1: Byte := c % 256, c / 256;
    SwappedVerifies(h, 5);
    assert h[10 := c0][11 := c1] == SentHeader(total, id, protocol, src, dst);
  }

  // ---------------------------------------------------------------- what is refused

  /** Which packets `ip_receive` takes, byte by byte: version 4, a header of at least 20 bytes inside the packet, a total length
      inside it, and this host's address or the broadcast as destination. */
  lemma AcceptedExactly(local: U32, data: seq<Byte>)
    ensures ParseIp(local, data).Some? <==>
      && |data| >= 20 && 0x45 <= data[0] <= 0x4F && (data[0] - 0x40) * 4 <= |data| && 256 * data[2] + data[3] <= |data|
      && (data[16..20] == Be32(local) || data[16..20] == [0xFF, 0xFF, 0xFF, 0xFF])
  {
    hide Be32, FromBe32;
    if |data| >= 20 {
      SameWord(data, 16, local);
      SameWord(data, 16, BROADCAST_IP);
      assert Be32(BROADCAST_IP) == [0xFF, 0xFF, 0xFF, 0xFF] by { AllOnes(); }
    }
  }

  lemma AllOnes()
    ensures Be32(0xFFFF_FFFF) == [0xFF, 0xFF, 0xFF, 0xFF]
  {
  }

  lemma SameWord(data: seq<Byte>, at: nat, x: U32)
    requires at + 4 <= |data|
    ensures FromBe32(data, at) == x <==> data[at..at + 4] == Be32(x)
  {
    var q: nat := x / 256;
    assert x / 65536 == q / 256 && x / 16777216 == q / 256 / 256;
    if FromBe32(data, at) == x {
      var a: int, b: int, c: int, d: int := data[at], data[at + 1], data[at + 2], data[at + 3];
      assert x == 256 * (256 * (256 * a + b) + c) + d;
      assert x % 256 == d && q == 256 * (256 * a + b) + c;
      assert q % 256 == c && q / 256 == 256 * a + b;
    } else if data[at..at + 4] == Be32(x) {
      Be32RoundTrip(x, data, at);
    }
  }

  lemma SameHalf(data: seq<Byte>, at: nat, x: U16)
    requires at + 2 <= |data|
    ensures FromBe16(data, at) == x <==> data[at..at + 2] == [x / 256, x % 256]
  {
    var a: int, b: int := data[at], data[at + 1];
    assert data[at..at + 2] == [a, b];
  }

  /** In particular a packet built for another host is dropped. */
  lemma ForOthersDropped(local: U32, id: U16, protocol: Byte, src: U32, dst: U32, payload: seq<Byte>, padding: seq<Byte>, handlers: seq<UdpHandler>)
    requires IP_HEADER_MIN_LEN + |payload| < 0x1_0000 && dst != local && dst != 0xFFFF_FFFF
    ensures var p := IpPacket(id, protocol, src, dst, payload) + padding;
      ParseIp(local, p) == None && PacketReadable(local, p) && ReceiveIp(local, handlers, p) == []
  {
    hide Checksum, Swap16;
    var c := Swap16(Checksum(IpHeader(IP_HEADER_MIN_LEN + |payload|, id, protocol, 0, 0, src, dst)));
    HeaderFields(IP_HEADER_MIN_LEN + |payload|, id, protocol, c % 256, c / 256, src, dst, payload + padding);
    assert IpPacket(id, protocol, src, dst, payload) + padding == SentHeader(IP_HEADER_MIN_LEN + |payload|, id, protocol, src, dst) + (payload + padding);
  }

  /** Which datagrams `udp_receive` takes: the length field says at least 8, and no more than there is. */
  lemma DatagramAcceptedExactly(rest: seq<Byte>, length: U16)
    requires Readable(rest, length)
    ensures length < 8 ==> ParseUdp(rest, length) == None
    ensures length >= 8 ==> |rest| >= 8 && (ParseUdp(rest, length).Some? <==> 8 <= 256 * rest[4] + rest[5] <= length)
  {
  }

  /** Without a handler for its port a datagram calls nobody. */
  lemma {:induction false} NoHandler(handlers: seq<UdpHandler>, src: U32, u: UdpContent, i: nat)
    requires i <= |handlers| && forall j | i <= j < |handlers| :: handlers[j].port != u.dstPort || handlers[j].callback == 0
    ensures Dispatch(handlers, src, u, i) == []
    decreases |handlers| - i
  {
    if i < |handlers| {
      NoHandler(handlers, src, u, i + 1);
    }
  }

  /** The next hop in bytes: an address that shares the first three with the host is reached directly, any other through the
      host numbered 1 on the host's network. */
  lemma NextHopBytes(local: U32, dst: U32)
    ensures var l, d, hop := Be32(local), Be32(dst), Be32(NextHop(local, dst));
      hop == if d[0] == l[0] && d[1] == l[1] && d[2] == l[2] then d else [l[0], l[1], l[2], 1]
  {
    hide Be32;
    var gateway := local / 256 * 256 + 1;
    SameNetwork(local, dst);
    SameNetwork(local, gateway);
    assert gateway / 256 == local / 256 && gateway % 256 == 1;
  }

  /** Two addresses agree in their first three bytes exactly when they agree up to the last. */
  lemma SameNetwork(x: U32, y: U32)
    ensures |Be32(x)| == 4 && |Be32(y)| == 4 && Be32(y)[3] == y % 256
    ensures x / 256 == y / 256 <==> Be32(x)[0] == Be32(y)[0] && Be32(x)[1] == Be32(y)[1] && Be32(x)[2] == Be32(y)[2]
  {
    Thirds(x);
    Thirds(y);
  }

  lemma Thirds(x: U32)
    ensures var q := x / 256; Be32(x) == [q / 256 / 256, q / 256 % 256, q % 256, x % 256]
    ensures var q := x / 256; q == 256 * (256 * (q / 256 / 256) + q / 256 % 256) + q % 256
  {
    var q: nat := x / 256;
    assert x / 65536 == q / 256 && x / 16777216 == q / 256 / 256;
  }

  // ---------------------------------------------------------------- one frame, byte by byte

  lemma SumStep(b: seq<Byte>, k: nat)
    requires k + 2 <= |b|
    ensures Sum(b[k..]) == b[k] + 256 * b[k + 1] + Sum(b[k + 2..])
  {
    assert b[k..][2..] == b[k + 2..];
  }

  lemma SumOfTwenty(b: seq<Byte>)
    requires |b| == 20
    ensures var low: nat, high: nat := 0, 0;
      && low + b[0] + b[2] + b[4] + b[6] + b[8] + b[10] + b[12] + b[14] + b[16] + b[18]
         + 256 * (high + b[1] + b[3] + b[5] + b[7] + b[9] + b[11] + b[13] + b[15] + b[17] + b[19]) == Sum(b)
  {
    hide Sum;
    SumStep(b, 0);
    SumStep(b, 2);
    SumStep(b, 4);
    SumStep(b, 6);
    SumStep(b, 8);
    SumStep(b, 10);
    SumStep(b, 12);
    SumStep(b, 14);
    SumStep(b, 16);
    SumStep(b, 18);
    assert b[0..] == b;
    NoBytes(b[20..]);
  }

  /** The checksum of the header below: the code stores BD 22, where RFC 1071 asks for 22 BD. */
  lemma ExampleChecksum(h: seq<Byte>)
    requires h == [0x45, 0x00, 0x00, 0x1E, 0x00, 0x01, 0x40, 0x00, 0x40, 0x11, 0x00, 0x00, 0x0A, 0x00, 0x02, 0x0F, 0x0A, 0x00, 0x02, 0x03]
    ensures Checksum(h) == 0xBD22
  {
    hide Sum, Fold;
    SumOfTwenty(h);
    assert Sum(h) == 0x42dd;
    FoldIs(Sum(h));
  }

  lemma NoBytes(b: seq<Byte>)
    requires b == []
    ensures Sum(b) == 0
  {
  }

  lemma ExampleFields(c0: Byte, c1: Byte)
    ensures IpHeader(30, 1, 17, c0, c1, 0x0A00_020F, 0x0A00_0203)
         == [0x45, 0x00, 0x00, 0x1E, 0x00, 0x01, 0x40, 0x00, 0x40, 0x11, c0, c1, 0x0A, 0x00, 0x02, 0x0F, 0x0A, 0x00, 0x02, 0x03]
  {
  }

  /** The header of the datagram below, as sent. */
  lemma ExampleHeader()
    ensures SentHeader(30, 1, 17, 0x0A00_020F, 0x0A00_0203)
         == [0x45, 0x00, 0x00, 0x1E, 0x00, 0x01, 0x40, 0x00, 0x40, 0x11, 0xBD, 0x22, 0x0A, 0x00, 0x02, 0x0F, 0x0A, 0x00, 0x02, 0x03]
  {
    hide Checksum, IpHeader;
    ExampleFields(0, 0);
    ExampleChecksum(IpHeader(30, 1, 17, 0, 0, 0x0A00_020F, 0x0A00_0203));
    ExampleFields(0xBD, 0x22);
  }

  /** The datagram `hi` from port 1024 of 10.0.2.15 to port 53 of 10.0.2.3, on the wire. */
  lemma DatagramOnTheWire(dst: Mac, src: Mac)
    ensures EthFrame(dst, src, ETH_TYPE_IP, IpPacket(1, IP_PROTO_UDP, 0x0A00_020F, 0x0A00_0203, UdpDatagram(1024, 53, [0x68, 0x69])))
         == dst + src + [0x08, 0x00]
          + [0x45, 0x00, 0x00, 0x1E, 0x00, 0x01, 0x40, 0x00, 0x40, 0x11, 0xBD, 0x22, 0x0A, 0x00, 0x02, 0x0F, 0x0A, 0x00, 0x02, 0x03]
          + [0x04, 0x00, 0x00, 0x35, 0x00, 0x0A, 0x00, 0x00, 0x68, 0x69]
          + [0, 0, 0, 0, 0, 0, 0, 0, 0, 0, 0, 0, 0, 0, 0, 0]
  {
    hide SentHeader;
    ExampleHeader();
    var u := UdpDatagram(1024, 53, [0x68, 0x69]);
    assert u == [0x04, 0x00, 0x00, 0x35, 0x00, 0x0A, 0x00, 0x00, 0x68, 0x69];
    assert Zeros(16) == [0, 0, 0, 0, 0, 0, 0, 0, 0, 0, 0, 0, 0, 0, 0, 0];
  }
}
