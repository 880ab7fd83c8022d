/** The byte layouts of the frames code/src/net.c builds, and what its parsers read back from them. */
module Frames {
  import opened Bytes
  import opened ArpCache
  import Checksum

  const ETH_LEN: nat := 14
  const ARP_LEN: nat := 28
  const IP_LEN: nat := 20
  const ICMP_LEN: nat := 8
  const UDP_LEN: nat := 8

  const ETH_TYPE_IP: u16 := 0x0800
  const ETH_TYPE_ARP: u16 := 0x0806
  const ARP_OP_REQ: u16 := 1
  const ARP_OP_REPLY: u16 := 2
  const IP_PROTO_ICMP: u8 := 1
  const IP_PROTO_UDP: u8 := 17
  const ICMP_ECHO_REQUEST: u8 := 8
  const ICMP_ECHO_REPLY: u8 := 0

  const BROADCAST_IP: u32 := 0xFFFF_FFFF
  const BROADCAST_MAC: Mac := [0xFF, 0xFF, 0xFF, 0xFF, 0xFF, 0xFF]
  const ZERO_MAC: Mac := [0, 0, 0, 0, 0, 0]

  /** The largest payload `ip_send` can place in its 1500-byte frame. */
  const MAX_PAYLOAD: nat := 1500 - ETH_LEN - IP_LEN

  // ---- Layouts ---------------------------------------------------------------------------------

  function EthHeader(dst: Mac, src: Mac, etype: u16): (b: seq<u8>)
    ensures |b| == ETH_LEN
  {
    dst + src + Be16(etype)
  }

  function ArpPacket(oper: u16, sha: Mac, spa: u32, tha: Mac, tpa: u32): (b: seq<u8>)
    ensures |b| == ARP_LEN
  {
    Be16(1) + Be16(ETH_TYPE_IP) + [6, 4] + Be16(oper) + sha + Be32(spa) + tha + Be32(tpa)
  }

  function ArpFrame(dst: Mac, oper: u16, sha: Mac, spa: u32, tha: Mac, tpa: u32): (b: seq<u8>)
    ensures |b| == ETH_LEN + ARP_LEN
  {
    EthHeader(dst, sha, ETH_TYPE_ARP) + ArpPacket(oper, sha, spa, tha, tpa)
  }

  /** The IPv4 header with its checksum field still zero. */
  function BareIpHeader(total: u16, proto: u8, src: u32, dst: u32): (b: seq<u8>)
    ensures |b| == IP_LEN
  {
    [0x45, 0] + Be16(total) + Be16(1) + [0, 0] + [64, proto] + [0, 0] + Be32(src) + Be32(dst)
  }

  function IpHeader(total: u16, proto: u8, src: u32, dst: u32): (b: seq<u8>)
    ensures |b| == IP_LEN
  {
    var h := BareIpHeader(total, proto, src, dst);
    Checksum.StoreWord(h, 10, Checksum.Sum(h))
  }

  function IpFrame(dstMac: Mac, srcMac: Mac, src: u32, dst: u32, proto: u8, payload: seq<u8>): (b: seq<u8>)
    requires |payload| <= MAX_PAYLOAD
    ensures |b| == ETH_LEN + IP_LEN + |payload|
  {
    EthHeader(dstMac, srcMac, ETH_TYPE_IP) + IpHeader(IP_LEN + |payload|, proto, src, dst) + payload
  }

  /** `msg` with its ICMP checksum field filled in. */
  function WithIcmpChecksum(msg: seq<u8>): (b: seq<u8>)
    requires |msg| >= ICMP_LEN
    ensures |b| == |msg|
  {
    Checksum.StoreWord(msg, 2, Checksum.Sum(msg))
  }

  /** The message `icmp_send_echo` sends. */
  function EchoRequest(seqNo: u16): (b: seq<u8>)
    ensures |b| == ICMP_LEN + 8
  {
    WithIcmpChecksum([ICMP_ECHO_REQUEST, 0, 0, 0] + Be16(0x4D4F) + Be16(seqNo) + [0, 0, 0, 0, 0, 0, 0, 0])
  }

  /** The message `icmp_handle` answers `msg` with: its first 64 bytes turned into a reply. */
  function EchoReply(msg: seq<u8>): (b: seq<u8>)
    requires |msg| >= ICMP_LEN
    ensures |b| == if |msg| > 64 then 64 else |msg|
  {
    var m := if |msg| > 64 then msg[..64] else msg;
    WithIcmpChecksum(m[0 := ICMP_ECHO_REPLY][2 := 0][3 := 0])
  }

  function UdpDatagram(srcPort: u16, dstPort: u16, data: seq<u8>): (b: seq<u8>)
    requires |data| <= 512
    ensures |b| == UDP_LEN + |data|
  {
    Be16(srcPort) + Be16(dstPort) + Be16(UDP_LEN + |data|) + [0, 0] + data
  }

  // ---- Parsing ---------------------------------------------------------------------------------

  datatype Dispatch = Dropped | Delivered(proto: u8, src: u32, start: nat, len: u16)

  /** What `ip_handle` makes of the packet at `at` of which `len` bytes were received: which protocol
      handler gets which bytes. The length handed on comes from the header alone. */
  function IpDispatch(pkt: seq<u8>, at: nat, len: u16, myIp: u32): Dispatch
    requires at + IP_LEN <= |pkt|
  {
    var ihl := pkt[at] % 16 * 4;
    if len < IP_LEN || ihl < 20 || Get32(pkt, at + 16) != myIp then Dropped
    else if pkt[at + 9] == IP_PROTO_ICMP || pkt[at + 9] == IP_PROTO_UDP then
      Delivered(pkt[at + 9], Get32(pkt, at + 12), at + ihl, (Get16(pkt, at + 2) - ihl) % 0x1_0000)
    else Dropped
  }

  /** The handler stays inside the received bytes exactly for headers whose total length lies between the
      header length and the number of bytes received; `ip_handle` does not check that. */
  lemma DeliveredInsideIff(pkt: seq<u8>, at: nat, len: u16, myIp: u32)
    requires at + IP_LEN <= |pkt| && len <= 1500 && IpDispatch(pkt, at, len, myIp).Delivered?
    ensures var d := IpDispatch(pkt, at, len, myIp);
            d.start + d.len <= at + len <==> pkt[at] % 16 * 4 <= Get16(pkt, at + 2) <= len
  {
    var ihl, total := pkt[at] % 16 * 4, Get16(pkt, at + 2);
    if total < ihl {
      assert (total - ihl) % 0x1_0000 == total - ihl + 0x1_0000;
    } else {
      assert (total - ihl) % 0x1_0000 == total - ihl;
    }
  }

  /** A header that announces more than was received is handed on with that length. */
  lemma OverlongHeaderIsDelivered()
    ensures var pkt := [0x45, 0, 0x05, 0xDC, 0, 1, 0, 0, 64, 17, 0, 0, 10, 0, 2, 2, 10, 0, 2, 15];
            |pkt| == 20 && IpDispatch(pkt, 0, 20, 0x0A00_020F) == Delivered(IP_PROTO_UDP, 0x0A00_0202, 20, 1480)
  {
    var pkt: seq<u8> := [0x45, 0, 0x05, 0xDC, 0, 1, 0, 0, 64, 17, 0, 0, 10, 0, 2, 2, 10, 0, 2, 15];
    assert Get16(pkt, 2) == 1500 && Get32(pkt, 12) == 0x0A00_0202 && Get32(pkt, 16) == 0x0A00_020F;
  }

  lemma GetPut32(x: u32)
    ensures Get32(Be32(x), 0) == x
  {
    SplitU32(x);
  }

  lemma ArpPacketFields(a: seq<u8>, oper: u16, sha: Mac, spa: u32, tha: Mac, tpa: u32)
    requires a == ArpPacket(oper, sha, spa, tha, tpa)
    ensures Get16(a, 0) == 1 && Get16(a, 2) == ETH_TYPE_IP && a[4] == 6 && a[5] == 4 && Get16(a, 6) == oper
    ensures a[8..14] == sha && Get32(a, 14) == spa && a[18..24] == tha && Get32(a, 24) == tpa
  {
    assert a[..2] == Be16(1) && a[2..4] == Be16(ETH_TYPE_IP) && a[6..8] == Be16(oper);
    assert a[14..18] == Be32(spa) && a[24..28] == Be32(tpa);
    assert Get32(a, 14) == Get32(a[14..18], 0) && Get32(a, 24) == Get32(a[24..28], 0);
    assert Get16(a, 6) == Get16(a[6..8], 0);
    GetPut32(spa);
    GetPut32(tpa);
  }

  /** Every field of an ARP frame sits where the parsers and RFC 826 look for it, whatever follows. */
  lemma ArpFields(pkt: seq<u8>, dst: Mac, oper: u16, sha: Mac, spa: u32, tha: Mac, tpa: u32)
    requires ArpFrame(dst, oper, sha, spa, tha, tpa) <= pkt
    ensures pkt[..6] == dst && pkt[6..12] == sha && Get16(pkt, 12) == ETH_TYPE_ARP
    ensures Get16(pkt, 14) == 1 && Get16(pkt, 16) == ETH_TYPE_IP && pkt[18] == 6 && pkt[19] == 4 && Get16(pkt, 20) == oper
    ensures pkt[22..28] == sha && Get32(pkt, 28) == spa && pkt[32..38] == tha && Get32(pkt, 38) == tpa
  {
    var f, a := ArpFrame(dst, oper, sha, spa, tha, tpa), ArpPacket(oper, sha, spa, tha, tpa);
    ArpPacketFields(a, oper, sha, spa, tha, tpa);
    assert f[14..] == a;
    assert forall i :: 0 <= i < ARP_LEN ==> pkt[14 + i] == f[14 + i] == a[i];
    assert pkt[22..28] == a[8..14] && pkt[32..38] == a[18..24];
    assert pkt[..14] == f[..14] == EthHeader(dst, sha, ETH_TYPE_ARP);
    EthFields(pkt, dst, sha, ETH_TYPE_ARP);
  }

  lemma EthFields(pkt: seq<u8>, dst: Mac, src: Mac, etype: u16)
    requires |pkt| >= ETH_LEN && pkt[..14] == EthHeader(dst, src, etype)
    ensures pkt[..6] == dst && pkt[6..12] == src && Get16(pkt, 12) == etype
  {
    var e := EthHeader(dst, src, etype);
    assert e[..6] == dst && e[6..12] == src && e[12..14] == Be16(etype);
    assert pkt[..6] == pkt[..14][..6] && pkt[6..12] == pkt[..14][6..12] && pkt[12..14] == pkt[..14][12..14];
    assert pkt[12] == pkt[12..14][0] && pkt[13] == pkt[12..14][1];
  }

  lemma IpHeaderFields(h: seq<u8>, total: u16, proto: u8, src: u32, dst: u32)
    requires h == IpHeader(total, proto, src, dst)
    ensures h[0] == 0x45 && h[1] == 0 && Get16(h, 2) == total && Get16(h, 4) == 1 && Get16(h, 6) == 0
    ensures h[8] == 64 && h[9] == proto && Get32(h, 12) == src && Get32(h, 16) == dst
    ensures Checksum.Sum(h) == 0
  {
    var b := BareIpHeader(total, proto, src, dst);
    assert h[2..4] == b[2..4] == Be16(total);
    assert h[4..6] == b[4..6] == Be16(1);
    assert h[12..16] == b[12..16] == Be32(src);
    assert h[16..20] == b[16..20] == Be32(dst);
    assert Get32(h, 12) == Get32(h[12..16], 0) && Get32(h, 16) == Get32(h[16..20], 0);
    assert Get16(h, 2) == Get16(h[2..4], 0) && Get16(h, 4) == Get16(h[4..6], 0);
    GetPut32(src);
    GetPut32(dst);
    Checksum.StoredChecksumVerifies(b, 10);
  }

  /** Every field of an IP frame sits where the parsers look for it and the header verifies, whatever follows. */
  lemma IpFields(pkt: seq<u8>, dstMac: Mac, srcMac: Mac, src: u32, dst: u32, proto: u8, payload: seq<u8>)
    requires |payload| <= MAX_PAYLOAD && IpFrame(dstMac, srcMac, src, dst, proto, payload) <= pkt
    ensures pkt[..6] == dstMac && pkt[6..12] == srcMac && Get16(pkt, 12) == ETH_TYPE_IP
    ensures pkt[14] == 0x45 && pkt[23] == proto
    ensures Get16(pkt, 16) == IP_LEN + |payload| && Get32(pkt, 26) == src && Get32(pkt, 30) == dst
    ensures pkt[34..34 + |payload|] == payload
    ensures Checksum.Sum(pkt[14..34]) == 0
  {
    var f := IpFrame(dstMac, srcMac, src, dst, proto, payload);
    var h := IpHeader(IP_LEN + |payload|, proto, src, dst);
    assert forall i :: 0 <= i < |f| ==> pkt[i] == f[i];
    assert pkt[..14] == f[..14] == EthHeader(dstMac, srcMac, ETH_TYPE_IP);
    EthFields(pkt, dstMac, srcMac, ETH_TYPE_IP);
    assert f[14..34] == h && f[34..] == payload;
    assert pkt[14..34] == h;
    IpHeaderFields(h, IP_LEN + |payload|, proto, src, dst);
    assert forall i :: 0 <= i < IP_LEN ==> pkt[14 + i] == h[i];
  }

  /** `ip_send` then `eth_process` and `ip_handle`: the receiver's handler gets exactly the payload, its
      length and the sender's address, whatever padding follows the frame. */
  lemma IpRoundTrip(pkt: seq<u8>, len: u16, dstMac: Mac, srcMac: Mac, src: u32, dst: u32, proto: u8, payload: seq<u8>)
    requires |payload| <= MAX_PAYLOAD && IpFrame(dstMac, srcMac, src, dst, proto, payload) <= pkt
    requires ETH_LEN + IP_LEN + |payload| <= ETH_LEN + len <= |pkt|
    ensures proto == IP_PROTO_ICMP || proto == IP_PROTO_UDP ==>
              && IpDispatch(pkt, ETH_LEN, len, dst) == Delivered(proto, src, ETH_LEN + IP_LEN, |payload|)
              && pkt[ETH_LEN + IP_LEN..ETH_LEN + IP_LEN + |payload|] == payload
    ensures forall me: u32 :: me != dst || (proto != IP_PROTO_ICMP && proto != IP_PROTO_UDP) ==>
              IpDispatch(pkt, ETH_LEN, len, me) == Dropped
  {
    IpFields(pkt, dstMac, srcMac, src, dst, proto, payload);
    assert (IP_LEN + |payload| - 20) % 0x1_0000 == |payload|;
  }

  /** An echo request keeps its identifier, sequence number and data in the reply, which is a reply and
      verifies. The data kept is the first 56 bytes. */
  lemma EchoReplyOf(msg: seq<u8>)
    requires |msg| >= ICMP_LEN
    ensures var r := EchoReply(msg);
            && r[0] == ICMP_ECHO_REPLY && r[1] == msg[1]
            && Get16(r, 4) == Get16(msg, 4) && Get16(r, 6) == Get16(msg, 6)
            && r[8..] == msg[8..|r|]
            && Checksum.Sum(r) == 0
  {
    var m := if |msg| > 64 then msg[..64] else msg;
    var bare := m[0 := ICMP_ECHO_REPLY][2 := 0][3 := 0];
    Checksum.StoredChecksumVerifies(bare, 2);
    assert EchoReply(msg)[4..] == bare[4..] == m[4..];
  }

  lemma UdpFields(srcPort: u16, dstPort: u16, data: seq<u8>)
    requires |data| <= 512
    ensures var d := UdpDatagram(srcPort, dstPort, data);
            && Get16(d, 0) == srcPort && Get16(d, 2) == dstPort && Get16(d, 4) == |d| && Get16(d, 6) == 0
            && d[8..] == data
  {
    var d := UdpDatagram(srcPort, dstPort, data);
    assert d[..2] == Be16(srcPort) && d[2..4] == Be16(dstPort) && d[4..6] == Be16(|d|);
    assert Get16(d, 0) == Get16(d[..2], 0) && Get16(d, 2) == Get16(d[2..4], 0) && Get16(d, 4) == Get16(d[4..6], 0);
  }

  lemma EchoRequestFields(seqNo: u16)
    ensures var m := EchoRequest(seqNo);
            && m[0] == ICMP_ECHO_REQUEST && m[1] == 0
            && Get16(m, 4) == 0x4D4F && Get16(m, 6) == seqNo
            && (forall i :: 8 <= i < 16 ==> m[i] == 0)
            && Checksum.Sum(m) == 0
  {
    var bare := [ICMP_ECHO_REQUEST, 0, 0, 0] + Be16(0x4D4F) + Be16(seqNo) + [0, 0, 0, 0, 0, 0, 0, 0];
    Checksum.StoredChecksumVerifies(bare, 2);
    assert EchoRequest(seqNo)[4..] == bare[4..];
    assert bare[4..6] == Be16(0x4D4F) && bare[6..8] == Be16(seqNo);
    NetworkOrder(seqNo, 0);
    NetworkOrder(0x4D4F, 0);
    assert Get16(bare, 4) == Get16(bare[4..6], 0) && Get16(bare, 6) == Get16(bare[6..8], 0);
  }
}
