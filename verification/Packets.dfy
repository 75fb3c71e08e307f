/** UDP in IP in Ethernet: what is put on the wire, and what a receiver takes from it. */
module Packets {
  import opened Arithmetic
  import opened Bytes
  import opened Wrappers
  import opened InternetChecksum

  const ETHERNET_HEADER := 14
  const IP_HEADER := 20
  const UDP_HEADER := 8
  const MTU := 1500
  const FRAME_SIZE := 1514
  const ETHERTYPE_IP: uint16 := 0x0800
  const PROTOCOL_UDP: byte := 17

  type mac = s: seq<byte> | |s| == 6 witness [0, 0, 0, 0, 0, 0]
  type ip = s: seq<byte> | |s| == 4 witness [0, 0, 0, 0]

  datatype Interface = Interface(macAddr: mac, ipAddr: ip)

  /** A datagram as the receiver reports it; Overrun when the lengths in it exceed the buffers. */
  datatype Received = Rejected | Overrun | Datagram(srcPort: uint16, destPort: uint16, data: seq<byte>)

  // ---------------------------------------------------------------- byte order

  /** A 16-bit field as the machine stores it. */
  function Field(x: uint16): (b: seq<byte>)
    ensures |b| == 2
  {
    [x % 0x100, x / 0x100]
  }

  function LoadField(s: seq<byte>, i: nat): uint16
    requires i + 2 <= |s|
  {
    s[i] as int + 0x100 * s[i + 1] as int
  }

  lemma FieldRead(s: seq<byte>, i: nat, x: uint16)
    requires i + 2 <= |s| && s[i..i + 2] == Field(x)
    ensures LoadField(s, i) == x
  {
    assert s[i] == s[i..i + 2][0] && s[i + 1] == s[i..i + 2][1];
  }

  /** htons and ntohs are the same exchange of bytes, and undo each other. */
  lemma SwapTwice(x: uint16)
    ensures Swapped(Swapped(x)) == x
  {
    var h, l := x / 0x100, x % 0x100;
    assert Swapped(x) == 0x100 * l + h;
    ModIs(Swapped(x), 0x100, l, h);
  }

  /** A swapped field is stored most significant byte first. */
  lemma NetworkOrder(x: uint16)
    ensures Field(Swapped(x)) == [x / 0x100, x % 0x100]
  {
    ModIs(Swapped(x), 0x100, x % 0x100, x / 0x100);
  }

  /** htonl: the four bytes in reverse order. */
  function Reversed(x: uint32): uint32 {
    x % 0x100 * 0x100_0000 + x / 0x100 % 0x100 * 0x1_0000 + x / 0x1_0000 % 0x100 * 0x100 + x / 0x100_0000
  }

  lemma ReverseTwice(x: uint32)
    ensures Reversed(Reversed(x)) == x
  {
    var a: byte, b: byte, c: byte, d: byte := x % 0x100, x / 0x100 % 0x100, x / 0x1_0000 % 0x100, x / 0x100_0000;
    FourBytes(a, b, c, d);
    FromBytes(x);
    hide Reversed;
    assert Reversed(x) == a * 0x100_0000 + b * 0x1_0000 + c * 0x100 + d by { ReversedIs(x); }
    ReversedIs(Reversed(x));
  }

  lemma ReversedIs(x: uint32)
    ensures Reversed(x) ==
            x % 0x100 * 0x100_0000 + x / 0x100 % 0x100 * 0x1_0000 + x / 0x1_0000 % 0x100 * 0x100 + x / 0x100_0000
  {
  }

  lemma FromBytes(x: uint32)
    ensures x == x / 0x100_0000 * 0x100_0000 + x / 0x1_0000 % 0x100 * 0x1_0000 + x / 0x100 % 0x100 * 0x100 + x % 0x100
  {
  }

  lemma FourBytes(a: byte, b: byte, c: byte, d: byte)
    ensures var r := a * 0x100_0000 + b * 0x1_0000 + c * 0x100 + d;
            r % 0x100 == d && r / 0x100 % 0x100 == c && r / 0x1_0000 % 0x100 == b && r / 0x100_0000 == a
  {
    var r := a * 0x100_0000 + b * 0x1_0000 + c * 0x100 + d;
    ModIs(r, 0x100, a * 0x1_0000 + b * 0x100 + c, d);
    ModIs(a * 0x1_0000 + b * 0x100 + c, 0x100, a * 0x100 + b, c);
    ModIs(r, 0x1_0000, a * 0x100 + b, c * 0x100 + d);
    ModIs(a * 0x100 + b, 0x100, a, b);
    ModIs(r, 0x100_0000, a, b * 0x1_0000 + c * 0x100 + d);
  }

  // ---------------------------------------------------------------- sending

  function EthernetFrame(iface: Interface, dest: mac, ethertype: uint16, payload: seq<byte>): seq<byte> {
    dest + iface.macAddr + Field(Swapped(ethertype)) + payload
  }

  /** The IP header with its checksum field zero. */
  function BareHeader(iface: Interface, dest: ip, protocol: byte, totalLength: uint16): (h: seq<byte>)
    ensures |h| == IP_HEADER
  {
    [0x45, 0] + Field(Swapped(totalLength)) + Field(Swapped(0x1234)) + Field(Swapped(0x4000))
    + [64, protocol, 0, 0] + iface.ipAddr + dest
  }

  function IpHeader(iface: Interface, dest: ip, protocol: byte, totalLength: uint16): (h: seq<byte>)
    ensures |h| == IP_HEADER
  {
    var h := BareHeader(iface, dest, protocol, totalLength);
    Stored(h, 10, Checksum(h))
  }

  function NextHop(dest: ip): mac {
    if dest == [255, 255, 255, 255] then [0xFF, 0xFF, 0xFF, 0xFF, 0xFF, 0xFF]
    else [0x52, 0x54, 0x00, 0x12, 0x35, 0x00]
  }

  function UdpHeader(srcPort: uint16, destPort: uint16, length: uint16): (h: seq<byte>)
    ensures |h| == UDP_HEADER
  {
    Field(Swapped(srcPort)) + Field(Swapped(destPort)) + Field(Swapped(length)) + [0, 0]
  }

  /** Frames longer than the payload limit are refused; `len` is what sixteen bits keep of the size. */
  function EthernetSend(iface: Interface, dest: mac, ethertype: uint16, payload: seq<byte>, len: uint16): Option<seq<byte>>
    requires len <= |payload|
  {
    if len > MTU then None else Some(EthernetFrame(iface, dest, ethertype, payload[..len]))
  }

  function IpSend(iface: Interface, dest: ip, protocol: byte, payload: seq<byte>, len: uint16): Option<seq<byte>>
    requires len <= |payload|
  {
    var packet := IpHeader(iface, dest, protocol, (IP_HEADER + len) % 0x1_0000) + payload[..len];
    EthernetSend(iface, NextHop(dest), ETHERTYPE_IP, packet, |packet| % 0x1_0000)
  }

  function UdpSend(iface: Interface, dest: ip, srcPort: uint16, destPort: uint16, data: seq<byte>): Option<seq<byte>>
    requires |data| <= 0xFFFF
  {
    var packet := UdpHeader(srcPort, destPort, (UDP_HEADER + |data|) % 0x1_0000) + data;
    IpSend(iface, dest, PROTOCOL_UDP, packet, |packet| % 0x1_0000)
  }

  // ---------------------------------------------------------------- every byte of a frame

  /** The two bytes of a number, most significant first. */
  function Big(x: uint16): seq<byte> {
    [x / 256, x % 256]
  }

  lemma HeaderBytes(iface: Interface, dest: ip, protocol: byte, totalLength: uint16)
    ensures var front := [69, 0] + Big(totalLength) + [18, 52, 64, 0, 64, protocol];
            var c := Checksum(front + [0, 0] + iface.ipAddr + dest);
            IpHeader(iface, dest, protocol, totalLength) == front + [c % 256, c / 256] + iface.ipAddr + dest
  {
    NetworkOrder(totalLength);
    NetworkOrder(0x1234);
    NetworkOrder(0x4000);
    hide Swapped, Field;
    var front := [69, 0] + Big(totalLength) + [18, 52, 64, 0, 64, protocol];
    assert BareHeader(iface, dest, protocol, totalLength) == front + [0, 0] + iface.ipAddr + dest;
  }

  lemma UdpHeaderBytes(srcPort: uint16, destPort: uint16, length: uint16)
    ensures UdpHeader(srcPort, destPort, length) == Big(srcPort) + Big(destPort) + Big(length) + [0, 0]
  {
    NetworkOrder(srcPort);
    NetworkOrder(destPort);
    NetworkOrder(length);
    hide Swapped, Field;
  }

  /** The 14 bytes in front of an IP packet: the router's hardware address, or for the broadcast address all ones, then the sender's, then the type. */
  function LinkBytes(iface: Interface, dest: ip): (b: seq<byte>)
    ensures |b| == 14
  {
    (if dest == [255, 255, 255, 255] then [255, 255, 255, 255, 255, 255] else [82, 84, 0, 18, 53, 0]) + iface.macAddr + [8, 0]
  }

  /** The 28 bytes in front of the data, for a total length of `total`: both headers as the standards lay them out, with a UDP checksum of zero. */
  function HeadBytes(iface: Interface, dest: ip, srcPort: uint16, destPort: uint16, total: uint16, length: uint16): (b: seq<byte>)
    ensures |b| == 28
  {
    var front := [69, 0] + Big(total) + [18, 52, 64, 0, 64, 17];
    var c := Checksum(front + [0, 0] + iface.ipAddr + dest);
    front + [c % 256, c / 256] + iface.ipAddr + dest + Big(srcPort) + Big(destPort) + Big(length) + [0, 0]
  }

  /**
   The frame of a datagram, byte by byte, for data of every length: what sixteen bits keep of the total
   length says how much of the packet is sent, and whether it is sent.
   */
  lemma FrameBytes(iface: Interface, dest: ip, srcPort: uint16, destPort: uint16, data: seq<byte>)
    requires |data| <= 0xFFFF
    ensures var total := (28 + |data|) % 0x1_0000;
            UdpSend(iface, dest, srcPort, destPort, data) ==
              if total > 1500 then None
              else Some(LinkBytes(iface, dest) + (HeadBytes(iface, dest, srcPort, destPort, total, (8 + |data|) % 0x1_0000) + data)[..total])
  {
    var total, length := (28 + |data|) % 0x1_0000, (8 + |data|) % 0x1_0000;
    TotalLength(|data|);
    HeadIs(iface, dest, srcPort, destPort, total, length);
    LinkIs(iface, dest);
    hide HeadBytes, UdpHeader, IpHeader, LinkBytes, NextHop, Checksum, Field, Swapped;
    var header, ipHeader := UdpHeader(srcPort, destPort, length), IpHeader(iface, dest, PROTOCOL_UDP, total);
    assert ipHeader + (header + data) == ipHeader + header + data;
    CutPacket(ipHeader, header + data, length, total);
  }

  lemma TotalLength(n: nat)
    ensures (IP_HEADER + (8 + n) % 0x1_0000) % 0x1_0000 == (28 + n) % 0x1_0000
  {
  }

  /** What sixteen bits keep of a packet's length says how much of it is sent. */
  lemma CutPacket(header: seq<byte>, payload: seq<byte>, len: nat, total: nat)
    requires |header| == IP_HEADER && len == |payload| % 0x1_0000 && total == (IP_HEADER + len) % 0x1_0000
    ensures var packet := header + payload[..len];
            |packet| % 0x1_0000 == total <= |packet| && packet[..total] == (header + payload)[..total]
  {
  }

  lemma HeadIs(iface: Interface, dest: ip, srcPort: uint16, destPort: uint16, total: uint16, length: uint16)
    ensures HeadBytes(iface, dest, srcPort, destPort, total, length) ==
            IpHeader(iface, dest, PROTOCOL_UDP, total) + UdpHeader(srcPort, destPort, length)
  {
    HeaderBytes(iface, dest, PROTOCOL_UDP, total);
    UdpHeaderBytes(srcPort, destPort, length);
    hide UdpHeader, IpHeader, Checksum;
  }

  lemma LinkIs(iface: Interface, dest: ip)
    ensures NextHop(dest) + iface.macAddr + Field(Swapped(ETHERTYPE_IP)) == LinkBytes(iface, dest)
  {
    NetworkOrder(ETHERTYPE_IP);
  }

  // ---------------------------------------------------------------- receiving

  /** The header with its checksum field cleared, as the receiver recomputes the checksum. */
  function Cleared(header: seq<byte>): (h: seq<byte>)
    requires |header| == IP_HEADER
    ensures |h| == IP_HEADER
  {
    Stored(header, 10, 0)
  }

  /** The bytes behind the IP header, by the header's length field. */
  function PayloadLength(header: seq<byte>): uint16
    requires |header| == IP_HEADER
  {
    (Swapped(LoadField(header, 2)) - IP_HEADER) % 0x1_0000
  }

  /** `residue` is what the receiver's payload buffer happens to hold before the payload is copied to its front. */
  function UdpReceive(frame: seq<byte>, residue: seq<byte>): Received
    requires |frame| == FRAME_SIZE && |residue| == MTU
  {
    var payload := frame[ETHERNET_HEADER..];
    var header := payload[..IP_HEADER];
    if Swapped(LoadField(frame, 12)) != ETHERTYPE_IP then Rejected
    else if LoadField(header, 10) != Checksum(Cleared(header)) then Rejected
    else
      var len := PayloadLength(header);
      if len > MTU - IP_HEADER then Overrun
      else if header[9] != PROTOCOL_UDP then Rejected
      else UdpExtract(payload[IP_HEADER..][..len] + residue[len..])
  }

  function UdpLength(body: seq<byte>): uint16
    requires |body| >= UDP_HEADER
  {
    (Swapped(LoadField(body, 4)) - UDP_HEADER) % 0x1_0000
  }

  function UdpExtract(body: seq<byte>): Received
    requires |body| == MTU
  {
    var len := UdpLength(body);
    if len > |body| - UDP_HEADER then Overrun
    else Datagram(Swapped(LoadField(body, 0)), Swapped(LoadField(body, 2)), body[UDP_HEADER..UDP_HEADER + len])
  }

  // ---------------------------------------------------------------- what a receiver reads from its own buffer

  /** The length field, most significant byte first. */
  function LengthField(body: seq<byte>): uint16
    requires |body| >= 6
  {
    0x100 * body[4] as int + body[5] as int
  }

  /** A length that makes the receiver copy beyond its payload buffer. */
  predicate Overlong(length: uint16) {
    length < UDP_HEADER || length > MTU
  }

  /** Every length that may stand in the header of this payload leaves the bytes behind the payload out. */
  predicate Settled(payload: seq<byte>) {
    if |payload| >= 6 then
      var length := LengthField(payload);
      Overlong(length) || length == UDP_HEADER || length <= |payload|
    else |payload| == 5 && 0x100 * payload[4] as int > MTU
  }

  /** Extraction in terms of the bytes of the header. */
  lemma ExtractFields(body: seq<byte>)
    requires |body| == MTU
    ensures var length := LengthField(body);
            UdpExtract(body) ==
              if Overlong(length) then Overrun
              else Datagram(Swapped(LoadField(body, 0)), Swapped(LoadField(body, 2)), body[UDP_HEADER..length])
  {
    var length := LengthField(body);
    var hi, lo := body[4] as int, body[5] as int;
    ModIs(hi + 0x100 * lo, 0x100, lo, hi);
    assert Swapped(LoadField(body, 4)) == length;
  }

  /** The payload settles the datagram whatever is behind it. */
  lemma SettledSame(payload: seq<byte>, a: seq<byte>, b: seq<byte>)
    requires |payload + a| == |payload + b| == MTU && Settled(payload)
    ensures UdpExtract(payload + a) == UdpExtract(payload + b)
  {
    var x, y := payload + a, payload + b;
    ExtractFields(x);
    ExtractFields(y);
    assert forall k | 0 <= k < |payload| :: x[k] == payload[k] == y[k];
    hide UdpExtract, Swapped;
    if |payload| >= 6 && !Overlong(LengthField(payload)) {
      assert x[UDP_HEADER..LengthField(payload)] == y[UDP_HEADER..LengthField(payload)];
    }
  }

  /** Bytes behind a payload that are all alike, but for a length field. */
  function Behind(payload: seq<byte>, fill: byte, length: byte): (a: seq<byte>)
    requires |payload| <= MTU
    ensures |a| == MTU - |payload|
  {
    seq(MTU - |payload|, k requires 0 <= k < MTU - |payload| => if |payload| + k == 4 then 0 else if |payload| + k == 5 then length else fill)
  }

  /** Otherwise two contents of the buffer give different datagrams. */
  lemma UnsettledDiffer(payload: seq<byte>)
    requires |payload| <= MTU && !Settled(payload)
    ensures exists a: seq<byte>, b: seq<byte> | |a| == |b| == MTU - |payload| :: UdpExtract(payload + a) != UdpExtract(payload + b)
  {
    var n := |payload|;
    if n >= 6 {
      var length := LengthField(payload);
      var a, b := Behind(payload, 0, 0), Behind(payload, 1, 0);
      var x, y := payload + a, payload + b;
      ExtractFields(x);
      ExtractFields(y);
      assert LengthField(x) == LengthField(y) == length;
      hide UdpExtract, Swapped;
      var k := if n < UDP_HEADER then UDP_HEADER else n;
      assert k < length && x[k] == 0 && y[k] == 1;
      assert x[UDP_HEADER..length][k - UDP_HEADER] == 0 && y[UDP_HEADER..length][k - UDP_HEADER] == 1;
    } else {
      var low: byte := if n == 5 && payload[4] > 0 then 0 else UDP_HEADER;
      var high: byte := if n == 5 && payload[4] == 5 then 255 else if n == 5 && payload[4] > 0 then 1 else 0;
      DifferentLengths(payload, low, high);
    }
  }

  lemma DifferentLengths(payload: seq<byte>, low: byte, high: byte)
    requires |payload| <= 5
    requires var top := if |payload| == 5 then payload[4] as int else 0;
             && !Overlong(0x100 * top + low) && low != high
    ensures UdpExtract(payload + Behind(payload, 0, low)) != UdpExtract(payload + Behind(payload, 0, high))
  {
    var top := if |payload| == 5 then payload[4] as int else 0;
    var x, y := payload + Behind(payload, 0, low), payload + Behind(payload, 0, high);
    ExtractFields(x);
    ExtractFields(y);
    assert x[4] == y[4] == top && x[5] == low && y[5] == high;
    hide UdpExtract, Swapped;
    var p, q := 0x100 * top + low, 0x100 * top + high;
    assert LengthField(x) == p && LengthField(y) == q;
    if !Overlong(q) { assert |x[UDP_HEADER..p]| != |y[UDP_HEADER..q]|; }
  }

  /** What the receiver's buffer held before goes unseen exactly when the payload settles the datagram. */
  lemma ResidueUnseenIff(payload: seq<byte>)
    requires |payload| <= MTU
    ensures (forall a: seq<byte>, b: seq<byte> | |a| == |b| == MTU - |payload| :: UdpExtract(payload + a) == UdpExtract(payload + b)) <==>
            Settled(payload)
  {
    hide UdpExtract, Settled;
    if Settled(payload) {
      forall a: seq<byte>, b: seq<byte> | |a| == |b| == MTU - |payload| ensures UdpExtract(payload + a) == UdpExtract(payload + b) {
        SettledSame(payload, a, b);
      }
    } else {
      UnsettledDiffer(payload);
    }
  }

  /** The frame is taken for an IP packet with UDP in it, and its payload length fits. */
  predicate HandedOn(frame: seq<byte>)
    requires |frame| == FRAME_SIZE
  {
    var header := frame[ETHERNET_HEADER..][..IP_HEADER];
    && Swapped(LoadField(frame, 12)) == ETHERTYPE_IP
    && LoadField(header, 10) == Checksum(Cleared(header))
    && PayloadLength(header) <= MTU - IP_HEADER
    && header[9] == PROTOCOL_UDP
  }

  function IpPayload(frame: seq<byte>): seq<byte>
    requires |frame| == FRAME_SIZE && HandedOn(frame)
  {
    frame[ETHERNET_HEADER + IP_HEADER..][..PayloadLength(frame[ETHERNET_HEADER..][..IP_HEADER])]
  }

  lemma ReceiveExtracts(frame: seq<byte>, residue: seq<byte>)
    requires |frame| == FRAME_SIZE && HandedOn(frame) && |residue| == MTU
    ensures |IpPayload(frame)| <= MTU && UdpReceive(frame, residue) == UdpExtract(IpPayload(frame) + residue[|IpPayload(frame)|..])
  {
    assert frame[ETHERNET_HEADER..][IP_HEADER..] == frame[ETHERNET_HEADER + IP_HEADER..];
  }

  /** A frame gives the same result whatever the receiver's buffer held exactly when it is not handed on or its payload settles the datagram. */
  lemma FrameResidueUnseenIff(frame: seq<byte>)
    requires |frame| == FRAME_SIZE
    ensures (forall r: seq<byte>, s: seq<byte> | |r| == |s| == MTU :: UdpReceive(frame, r) == UdpReceive(frame, s)) <==>
            (HandedOn(frame) ==> Settled(IpPayload(frame)))
  {
    if HandedOn(frame) {
      var payload := IpPayload(frame);
      var n := |payload|;
      hide UdpReceive, UdpExtract, Settled, HandedOn, IpPayload;
      forall r: seq<byte> | |r| == MTU ensures UdpReceive(frame, r) == UdpExtract(payload + r[n..]) { ReceiveExtracts(frame, r); }
      assert n <= MTU by { ReceiveExtracts(frame, seq(MTU, _ => 0)); }
      if Settled(payload) {
        forall r: seq<byte>, s: seq<byte> | |r| == |s| == MTU ensures UdpReceive(frame, r) == UdpReceive(frame, s) {
          SettledSame(payload, r[n..], s[n..]);
        }
      } else {
        UnsettledDiffer(payload);
        var a: seq<byte>, b: seq<byte> :| |a| == |b| == MTU - n && UdpExtract(payload + a) != UdpExtract(payload + b);
        var front := seq(n, _ => 0);
        assert (front + a)[n..] == a && (front + b)[n..] == b;
        assert UdpReceive(frame, front + a) != UdpReceive(frame, front + b);
      }
    }
  }

  // ---------------------------------------------------------------- round trip

  lemma HeaderAccepted(iface: Interface, dest: ip, protocol: byte, totalLength: uint16)
    ensures var h := IpHeader(iface, dest, protocol, totalLength);
            && LoadField(h, 10) == Checksum(Cleared(h))
            && Swapped(LoadField(h, 2)) == totalLength
            && h[9] == protocol
            && Checksum(h) == 0
  {
    var b := BareHeader(iface, dest, protocol, totalLength);
    var h := IpHeader(iface, dest, protocol, totalLength);
    assert b[10] == b[11] == 0;
    assert Cleared(h) == b;
    StoredVerifies(b, 10);
    assert h[2..4] == b[2..4] == Field(Swapped(totalLength));
    assert h[2] == Field(Swapped(totalLength))[0] && h[3] == Field(Swapped(totalLength))[1];
    SwapTwice(totalLength);
  }

  lemma UdpHeaderRead(srcPort: uint16, destPort: uint16, length: uint16, rest: seq<byte>)
    ensures var s := UdpHeader(srcPort, destPort, length) + rest;
            && Swapped(LoadField(s, 0)) == srcPort
            && Swapped(LoadField(s, 2)) == destPort
            && Swapped(LoadField(s, 4)) == length
  {
    SwapTwice(srcPort);
    SwapTwice(destPort);
    SwapTwice(length);
  }

  /** What fits a frame is accepted, and the frame carries all of it. */
  lemma UdpSendFits(iface: Interface, dest: ip, srcPort: uint16, destPort: uint16, data: seq<byte>)
    requires |data| <= MTU - IP_HEADER - UDP_HEADER
    ensures UdpSend(iface, dest, srcPort, destPort, data) ==
            Some(EthernetFrame(iface, NextHop(dest), ETHERTYPE_IP,
              IpHeader(iface, dest, PROTOCOL_UDP, IP_HEADER + UDP_HEADER + |data|)
              + (UdpHeader(srcPort, destPort, UDP_HEADER + |data|) + data)))
  {
    hide UdpHeader, IpHeader, Field, Swapped;
    var udp := UdpHeader(srcPort, destPort, UDP_HEADER + |data|) + data;
    var packet := IpHeader(iface, dest, PROTOCOL_UDP, IP_HEADER + |udp|) + udp;
    assert udp[..|udp|] == udp && packet[..|packet|] == packet;
  }

  /** Whatever follows the frame in the receive buffer and whatever the payload buffer held, what was sent is what is received. */
  lemma UdpRoundTrip(iface: Interface, dest: ip, srcPort: uint16, destPort: uint16, data: seq<byte>, tail: seq<byte>, residue: seq<byte>)
    requires |residue| == MTU
    requires |data| <= MTU - IP_HEADER - UDP_HEADER
    requires |tail| == MTU - IP_HEADER - UDP_HEADER - |data|
    ensures var r := UdpSend(iface, dest, srcPort, destPort, data);
            && r.Some? && |r.value + tail| == FRAME_SIZE
            && UdpReceive(r.value + tail, residue) == Datagram(srcPort, destPort, data)
  {
    hide UdpHeader, IpHeader, Field, Swapped, Cleared, Checksum;
    UdpSendFits(iface, dest, srcPort, destPort, data);
    var frame := UdpSend(iface, dest, srcPort, destPort, data).value;
    var header := IpHeader(iface, dest, PROTOCOL_UDP, IP_HEADER + UDP_HEADER + |data|);
    var udpHeader := UdpHeader(srcPort, destPort, UDP_HEADER + |data|);
    var buffer := frame + tail;
    HeaderAccepted(iface, dest, PROTOCOL_UDP, IP_HEADER + UDP_HEADER + |data|);
    UdpHeaderRead(srcPort, destPort, UDP_HEADER + |data|, data + residue[UDP_HEADER + |data|..]);
    SwapTwice(ETHERTYPE_IP);
    assert buffer[12..14] == Field(Swapped(ETHERTYPE_IP));
    FieldRead(buffer, 12, Swapped(ETHERTYPE_IP));
    assert buffer[ETHERNET_HEADER..][..IP_HEADER] == header;
    assert buffer[ETHERNET_HEADER..][IP_HEADER..][..UDP_HEADER + |data|] == udpHeader + data;
    assert udpHeader + data + residue[UDP_HEADER + |data|..] == udpHeader + (data + residue[UDP_HEADER + |data|..]);
  }

  /**
   A send is accepted exactly when the datagram fits a frame or its length has wrapped around
   sixteen bits; in the second case the frame is too short to hold the data.
   */
  lemma UdpSendAcceptedIff(iface: Interface, dest: ip, srcPort: uint16, destPort: uint16, data: seq<byte>)
    requires |data| <= 0xFFFF
    ensures var r := UdpSend(iface, dest, srcPort, destPort, data);
            && (r.Some? <==> |data| <= 1472 || |data| >= 65508)
            && (r.Some? && |data| >= 65508 ==> |r.value| <= ETHERNET_HEADER + IP_HEADER + UDP_HEADER)
  {
    var udp := UDP_HEADER + |data|;
    var len := udp % 0x1_0000;
    if udp < 0x1_0000 { SmallMod(udp, 0x1_0000); } else { ModIs(udp, 0x1_0000, 1, udp - 0x1_0000); }
    var total := IP_HEADER + len;
    if total < 0x1_0000 { SmallMod(total, 0x1_0000); } else { ModIs(total, 0x1_0000, 1, total - 0x1_0000); }
  }

  /** An IP packet for UDP without a payload is handed on: ports, length and data are all read from what the buffer held. */
  lemma EmptyPayloadReceived(iface: Interface, dest: ip, tail: seq<byte>, residue: seq<byte>)
    requires |tail| == MTU - IP_HEADER && |residue| == MTU
    ensures var r := IpSend(iface, dest, PROTOCOL_UDP, [], 0);
            && r.Some? && |r.value + tail| == FRAME_SIZE
            && HandedOn(r.value + tail) && !Settled(IpPayload(r.value + tail))
            && UdpReceive(r.value + tail, residue) == UdpExtract(residue)
  {
    hide IpHeader, Field, Swapped, Cleared, Checksum;
    var header := IpHeader(iface, dest, PROTOCOL_UDP, IP_HEADER);
    assert header + [] == header && header[..IP_HEADER] == header;
    var frame := IpSend(iface, dest, PROTOCOL_UDP, [], 0).value;
    var buffer := frame + tail;
    HeaderAccepted(iface, dest, PROTOCOL_UDP, IP_HEADER);
    SwapTwice(ETHERTYPE_IP);
    assert buffer[12..14] == Field(Swapped(ETHERTYPE_IP));
    FieldRead(buffer, 12, Swapped(ETHERTYPE_IP));
    assert buffer[ETHERNET_HEADER..][..IP_HEADER] == header;
    ReceiveExtracts(buffer, residue);
    assert IpPayload(buffer) == [] && [] + residue[0..] == residue;
  }
}
