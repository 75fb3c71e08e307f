/** The send and receive calls of the network stack, layer by layer, over the buffers they copy between. */
module KernelNetstack {
  import opened Bytes
  import opened Wrappers
  import opened InternetChecksum
  import opened Packets

  /** An interface with its driver: what was handed to the send function, and what the receive function delivers. */
  class NetworkInterface {
    const macAddr: mac
    const ipAddr: ip
    const sends: bool
    const receives: bool
    var sent: seq<seq<byte>>
    var answer: int
    var incoming: seq<byte>
    var status: int

    constructor (m: mac, i: ip, s: bool, r: bool)
      ensures macAddr == m && ipAddr == i && sends == s && receives == r && sent == []
    {
      macAddr, ipAddr, sends, receives := m, i, s, r;
      sent, answer, incoming, status := [], 0, [], -1;
    }

    function Settings(): Interface {
      Interface(macAddr, ipAddr)
    }

    method SendPacket(data: array<byte>, size: nat) returns (r: int)
      requires size <= data.Length
      modifies this`sent
      ensures sent == old(sent) + [data[..size]] && r == answer
    {
      sent := sent + [data[..size]];
      r := answer;
    }

    /** The driver fills as much of the buffer as it has bytes for. */
    method ReceivePacket(buffer: array<byte>) returns (r: int)
      modifies buffer
      ensures buffer[..] == Delivered(incoming, old(buffer[..])) && r == status
    {
      var n := if |incoming| < buffer.Length then |incoming| else buffer.Length;
      CopyBytes(buffer, 0, incoming[..n]);
      r := status;
    }
  }

  /** A buffer with the driver's bytes at its front. */
  function Delivered(incoming: seq<byte>, buffer: seq<byte>): (r: seq<byte>)
    ensures |r| == |buffer|
  {
    if |incoming| < |buffer| then incoming + buffer[|incoming|..] else incoming[..|buffer|]
  }

  /** memory_copy into a buffer. */
  method CopyBytes(dest: array<byte>, at: nat, src: seq<byte>)
    requires at + |src| <= dest.Length
    modifies dest
    ensures dest[..] == old(dest[..at]) + src + old(dest[at + |src|..])
  {
    for i := 0 to |src|
      invariant forall k | 0 <= k < i :: dest[at + k] == src[k]
      invariant forall k | 0 <= k < dest.Length && !(at <= k < at + i) :: dest[k] == old(dest[k])
    {
      dest[at + i] := src[i];
    }
  }

  // ---------------------------------------------------------------- sending

  /** What a send call hands to the driver, and what it answers. */
  twostate predicate Sends(iface: NetworkInterface?, frame: Option<seq<byte>>, r: int)
    reads iface
  {
    if iface == null then r == -1
    else if iface.sends && frame.Some? then iface.sent == old(iface.sent) + [frame.value] && r == iface.answer
    else iface.sent == old(iface.sent) && r == -1
  }

  method EthernetSendFrame(iface: NetworkInterface?, dest: array?<byte>, ethertype: uint16, payload: array?<byte>, len: uint16)
    returns (r: int)
    requires dest != null ==> dest.Length == 6
    requires payload != null ==> len <= payload.Length
    modifies iface
    ensures Sends(iface, if iface == null || dest == null || payload == null then None
                         else EthernetSend(iface.Settings(), dest[..], ethertype, payload[..], len), r)
    ensures iface != null ==> iface.answer == old(iface.answer) && iface.incoming == old(iface.incoming) && iface.status == old(iface.status)
  {
    if iface == null || dest == null || payload == null || len > MTU { return -1; }
    var frame := new byte[FRAME_SIZE](_ => 0);
    CopyBytes(frame, 0, dest[..]);
    CopyBytes(frame, 6, iface.macAddr);
    CopyBytes(frame, 12, Field(Swapped(ethertype)));
    CopyBytes(frame, ETHERNET_HEADER, payload[..len]);
    assert frame[..ETHERNET_HEADER + len] == EthernetFrame(iface.Settings(), dest[..], ethertype, payload[..len]);
    if iface.sends {
      r := iface.SendPacket(frame, FRAME_SIZE - MTU + len);
    } else {
      r := -1;
    }
  }

  /** The header with its checksum stored in it. */
  method BuildIpHeader(iface: Interface, dest: ip, protocol: byte, totalLength: uint16) returns (header: array<byte>)
    ensures fresh(header) && header[..] == IpHeader(iface, dest, protocol, totalLength)
  {
    var bare := BareHeader(iface, dest, protocol, totalLength);
    hide BareHeader, Checksum;
    header := new byte[IP_HEADER](_ => 0);
    CopyBytes(header, 0, bare);
    assert header[..] == bare;
    var checksum := IpChecksum(header[..]);
    header[10], header[11] := checksum % 0x100, checksum / 0x100;
    assert header[..] == Stored(bare, 10, checksum);
  }

  method ChooseHop(dest: ip) returns (hop: array<byte>)
    ensures fresh(hop) && hop[..] == NextHop(dest)
  {
    hop := new byte[6](_ => 0xFF);
    if dest[0] != 255 || dest[1] != 255 || dest[2] != 255 || dest[3] != 255 {
      CopyBytes(hop, 0, [0x52, 0x54, 0x00, 0x12, 0x35, 0x00]);
    }
  }

  method IpSendPacket(iface: NetworkInterface?, dest: array?<byte>, protocol: byte, payload: array?<byte>, len: uint16)
    returns (r: int)
    requires dest != null ==> dest.Length == 4
    requires payload != null ==> len <= payload.Length
    modifies iface
    ensures Sends(iface, if iface == null || dest == null || payload == null then None
                         else IpSend(iface.Settings(), dest[..], protocol, payload[..], len), r)
    ensures iface != null ==> iface.answer == old(iface.answer) && iface.incoming == old(iface.incoming) && iface.status == old(iface.status)
  {
    if iface == null || dest == null || payload == null { return -1; }
    var header := BuildIpHeader(iface.Settings(), dest[..], protocol, (IP_HEADER + len) % 0x1_0000);
    var packet := new byte[IP_HEADER + len](_ => 0);
    CopyBytes(packet, 0, header[..]);
    CopyBytes(packet, IP_HEADER, payload[..len]);
    assert packet[..] == header[..] + payload[..len];
    var hop := ChooseHop(dest[..]);
    hide IpHeader, NextHop, Field, Swapped;
    r := EthernetSendFrame(iface, hop, ETHERTYPE_IP, packet, packet.Length % 0x1_0000);
  }

  method UdpSendPacket(iface: NetworkInterface?, dest: array?<byte>, srcPort: uint16, destPort: uint16, data: array?<byte>, len: uint16)
    returns (r: int)
    requires dest != null ==> dest.Length == 4
    requires data != null ==> len <= data.Length
    modifies iface
    ensures Sends(iface, if iface == null || dest == null || data == null then None
                         else UdpSend(iface.Settings(), dest[..], srcPort, destPort, data[..len]), r)
  {
    if iface == null || dest == null || data == null { return -1; }
    var packet := new byte[UDP_HEADER + len](_ => 0);
    CopyBytes(packet, 0, UdpHeader(srcPort, destPort, (UDP_HEADER + len) % 0x1_0000));
    CopyBytes(packet, UDP_HEADER, data[..len]);
    assert packet[..] == UdpHeader(srcPort, destPort, (UDP_HEADER + len) % 0x1_0000) + data[..len];
    r := IpSendPacket(iface, dest, PROTOCOL_UDP, packet, packet.Length % 0x1_0000);
  }

  // ---------------------------------------------------------------- receiving

  /** The driver delivers a frame. */
  predicate Receives(iface: NetworkInterface?)
    reads iface
  {
    iface != null && iface.receives && iface.status >= 0
  }

  method EthernetReceiveFrame(iface: NetworkInterface?, frame: array<byte>) returns (r: int)
    requires frame.Length == FRAME_SIZE
    modifies frame
    ensures r >= 0 <==> Receives(iface)
    ensures iface != null && iface.receives ==> r == iface.status
    ensures frame[..] == if iface != null && iface.receives then Delivered(iface.incoming, old(frame[..])) else old(frame[..])
  {
    if iface == null { return -1; }
    if iface.receives {
      r := iface.ReceivePacket(frame);
    } else {
      r := -1;
    }
  }

  lemma LengthKept(header: seq<byte>)
    requires |header| == IP_HEADER
    ensures PayloadLength(Cleared(header)) == PayloadLength(header)
  {
  }

  /** The IP header out of the frame with its checksum cleared, and whether the checksum was right. */
  method TakeHeader(frame: array<byte>, header: array<byte>) returns (ok: bool)
    requires frame.Length == FRAME_SIZE && header.Length == IP_HEADER && header != frame
    modifies header
    ensures var h := frame[ETHERNET_HEADER..][..IP_HEADER];
            header[..] == Cleared(h) && (ok <==> LoadField(h, 10) == Checksum(Cleared(h)))
  {
    hide Checksum;
    ghost var h := frame[ETHERNET_HEADER..][..IP_HEADER];
    CopyBytes(header, 0, frame[ETHERNET_HEADER..ETHERNET_HEADER + IP_HEADER]);
    assert header[..] == h;
    var checksum := LoadField(header[..], 10);
    header[10], header[11] := 0, 0;
    assert header[..] == Cleared(h);
    var calculated := IpChecksum(header[..]);
    ok := checksum == calculated;
  }

  /** What the IP layer hands on: nothing, a payload longer than the frame, or the length of the payload. */
  datatype IpResult = NoPacket | TooLong | Payload(length: nat)

  method IpReceivePacket(iface: NetworkInterface?, header: array<byte>, payload: array<byte>) returns (r: IpResult, ghost content: seq<byte>)
    requires header.Length == IP_HEADER && payload.Length == MTU && header != payload
    modifies header, payload
    ensures |content| == FRAME_SIZE && (Receives(iface) ==> exists b: seq<byte> | |b| == FRAME_SIZE :: content == Delivered(iface.incoming, b))
    ensures var h := content[ETHERNET_HEADER..][..IP_HEADER];
            var accepted := Receives(iface) && Swapped(LoadField(content, 12)) == ETHERTYPE_IP && LoadField(h, 10) == Checksum(Cleared(h));
            && (r == NoPacket <==> !accepted)
            && (r == TooLong <==> accepted && PayloadLength(h) > MTU - IP_HEADER)
            && (r.Payload? ==>
                  && r.length == PayloadLength(h) && header[..] == Cleared(h)
                  && payload[..] == content[ETHERNET_HEADER..][IP_HEADER..][..r.length] + old(payload[r.length..]))
  {
    var frame := new byte[FRAME_SIZE];
    ghost var before := frame[..];
    var received := EthernetReceiveFrame(iface, frame);
    content := frame[..];
    assert Receives(iface) ==> content == Delivered(iface.incoming, before);
    if received < 0 { return NoPacket, content; }
    if Swapped(LoadField(frame[..], 12)) != ETHERTYPE_IP { return NoPacket, content; }
    ghost var h := content[ETHERNET_HEADER..][..IP_HEADER];
    var ok := TakeHeader(frame, header);
    hide Checksum, Cleared, Swapped, LoadField, Delivered;
    if !ok { return NoPacket, content; }
    var len := PayloadLength(header[..]);
    LengthKept(h);
    if len > MTU - IP_HEADER { return TooLong, content; }
    CopyBytes(payload, 0, frame[ETHERNET_HEADER + IP_HEADER..][..len]);
    r := Payload(len);
  }

  /** Header and data out of the payload buffer, as far as the header's length says. */
  method TakeDatagram(payload: array<byte>, header: array<byte>, data: array<byte>) returns (r: Received)
    requires payload.Length == MTU && header.Length == UDP_HEADER
    requires header != data && header != payload && data != payload
    modifies header, data
    ensures var u := UdpExtract(payload[..]); r == if u.Datagram? && |u.data| > data.Length then Overrun else u
    ensures r.Datagram? ==>
              && Swapped(LoadField(header[..], 0)) == r.srcPort && Swapped(LoadField(header[..], 2)) == r.destPort
              && |r.data| <= data.Length && data[..] == r.data + old(data[|r.data|..])
  {
    hide Swapped, LoadField;
    CopyBytes(header, 0, payload[..UDP_HEADER]);
    CopiedHeader(payload[..], header[..]);
    var len := (Swapped(LoadField(header[..], 4)) - UDP_HEADER) % 0x1_0000;
    if len > MTU - UDP_HEADER || len > data.Length { return Overrun; }
    CopyBytes(data, 0, payload[UDP_HEADER..][..len]);
    r := Datagram(Swapped(LoadField(header[..], 0)), Swapped(LoadField(header[..], 2)), payload[UDP_HEADER..][..len]);
  }

  lemma ClearedKeeps(header: seq<byte>, k: nat)
    requires |header| == IP_HEADER && k < IP_HEADER && k != 10 && k != 11
    ensures Cleared(header)[k] == header[k]
  {
  }

  /** The fields of a header copied to a buffer of its own. */
  lemma CopiedHeader(body: seq<byte>, header: seq<byte>)
    requires |body| == MTU && header == body[..UDP_HEADER]
    ensures LoadField(header, 0) == LoadField(body, 0) && LoadField(header, 2) == LoadField(body, 2) && LoadField(header, 4) == LoadField(body, 4)
  {
  }

  /** `residue` is what the payload buffer on the stack held. */
  method UdpReceivePacket(iface: NetworkInterface?, header: array<byte>, data: array<byte>)
    returns (r: Received, ghost frame: seq<byte>, ghost residue: seq<byte>)
    requires header.Length == UDP_HEADER && header != data
    modifies header, data
    ensures |frame| == FRAME_SIZE && |residue| == MTU
    ensures Receives(iface) ==> exists b: seq<byte> | |b| == FRAME_SIZE :: frame == Delivered(iface.incoming, b)
    ensures var u := UdpReceive(frame, residue);
            r == if !Receives(iface) then Rejected else if u.Datagram? && |u.data| > data.Length then Overrun else u
    ensures r.Datagram? ==>
              && Swapped(LoadField(header[..], 0)) == r.srcPort && Swapped(LoadField(header[..], 2)) == r.destPort
              && |r.data| <= data.Length && data[..] == r.data + old(data[|r.data|..])
  {
    var ipHeader := new byte[IP_HEADER](_ => 0);
    var payload := new byte[MTU];
    residue := payload[..];
    var ip;
    ip, frame := IpReceivePacket(iface, ipHeader, payload);
    hide Checksum, Cleared, Swapped, LoadField, Delivered;
    if ip == NoPacket { return Rejected, frame, residue; }
    if ip == TooLong { return Overrun, frame, residue; }
    assert ipHeader[9] == frame[ETHERNET_HEADER..][..IP_HEADER][9] by { assert ipHeader[..][9] == ipHeader[9]; ClearedKeeps(frame[ETHERNET_HEADER..][..IP_HEADER], 9); }
    if ipHeader[9] != PROTOCOL_UDP { return Rejected, frame, residue; }
    r := TakeDatagram(payload, header, data);
  }

  /** A frame handed to one driver and delivered by another brings the datagram, whatever the two buffers on the stack held. */
  lemma WireRoundTrip(iface: Interface, dest: ip, srcPort: uint16, destPort: uint16, data: seq<byte>, buffer: seq<byte>, residue: seq<byte>)
    requires |data| <= MTU - IP_HEADER - UDP_HEADER && |buffer| == FRAME_SIZE && |residue| == MTU
    ensures var r := UdpSend(iface, dest, srcPort, destPort, data);
            && r.Some? && |r.value| <= FRAME_SIZE
            && UdpReceive(Delivered(r.value, buffer), residue) == Datagram(srcPort, destPort, data)
  {
    var n := ETHERNET_HEADER + IP_HEADER + UDP_HEADER + |data|;
    UdpSendFits(iface, dest, srcPort, destPort, data);
    UdpRoundTrip(iface, dest, srcPort, destPort, data, buffer[n..], residue);
    hide UdpReceive, UdpHeader, IpHeader, UdpSend;
    var frame := EthernetFrame(iface, NextHop(dest), ETHERTYPE_IP,
      IpHeader(iface, dest, PROTOCOL_UDP, IP_HEADER + UDP_HEADER + |data|) + (UdpHeader(srcPort, destPort, UDP_HEADER + |data|) + data));
    assert |frame| == n && Delivered(frame, buffer) == frame + buffer[n..];
  }
}
