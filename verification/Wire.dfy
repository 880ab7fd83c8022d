/** The bytes on the wire, written out, and what a host does with any frame, told by its bytes. */
module Wire {
  import opened Bytes
  import opened ArpCache
  import opened Frames
  import opened HostSpec
  import Checksum

  /** Most significant byte first. */
  function Pair(x: u16): (b: seq<u8>)
    ensures |b| == 2
  {
    [x / 256, x % 256]
  }

  function Quad(x: u32): (b: seq<u8>)
    ensures |b| == 4
  {
    [x / 0x100_0000, x / 0x1_0000 % 0x100, x / 0x100 % 0x100, x % 0x100]
  }

  // ---- What is sent ----------------------------------------------------------------------------

  /** RFC 826: an ARP packet for Ethernet and IPv4, byte by byte. */
  lemma ArpBytes(to: Mac, oper: u16, sha: Mac, spa: u32, tha: Mac, tpa: u32)
    ensures ArpFrame(to, oper, sha, spa, tha, tpa)
         == to + sha + [8, 6] + ([0, 1, 8, 0, 6, 4] + Pair(oper) + sha + Quad(spa) + tha + Quad(tpa))
  {
    var head := Be16(1) + Be16(ETH_TYPE_IP) + [6, 4];
    assert head == [0, 1, 8, 0, 6, 4];
    assert EthHeader(to, sha, ETH_TYPE_ARP) == to + sha + [8, 6];
  }

  /** RFC 791: the frame around a payload of up to 1466 bytes, byte by byte, with a header that verifies. */
  lemma IpBytes(to: Mac, srcMac: Mac, src: u32, dst: u32, proto: u8, payload: seq<u8>)
    requires |payload| <= 1466
    ensures var f := IpFrame(to, srcMac, src, dst, proto, payload);
            && |f| == 34 + |payload| && f[..14] == to + srcMac + [8, 0]
            && f[14..24] == [0x45, 0] + Pair(20 + |payload|) + [0, 1, 0, 0, 64, proto]
            && f[26..30] == Quad(src) && f[30..34] == Quad(dst) && f[34..] == payload
            && Checksum.Sum(f[14..34]) == 0
  {
    var f, n := IpFrame(to, srcMac, src, dst, proto, payload), 20 + |payload|;
    var h := IpHeader(n, proto, src, dst);
    assert f[..14] == EthHeader(to, srcMac, ETH_TYPE_IP) == to + srcMac + [8, 0];
    assert f[14..34] == h && f[34..] == payload;
    assert f[14..24] == h[..10] && f[26..30] == h[12..16] && f[30..34] == h[16..20];
    HeaderBytes(n, proto, src, dst);
    Checksum.StoredChecksumVerifies(BareIpHeader(n, proto, src, dst), 10);
  }

  lemma HeaderBytes(total: u16, proto: u8, src: u32, dst: u32)
    ensures var h := IpHeader(total, proto, src, dst);
            && h[..10] == [0x45, 0] + Pair(total) + [0, 1, 0, 0, 64, proto]
            && h[12..16] == Quad(src) && h[16..20] == Quad(dst)
  {
    var b, h := BareIpHeader(total, proto, src, dst), IpHeader(total, proto, src, dst);
    assert b[..10] == [0x45, 0] + Pair(total) + [0, 1, 0, 0, 64, proto];
    assert b[12..16] == Quad(src) && b[16..20] == Quad(dst);
    assert h[..10] == b[..10] && h[12..] == b[12..];
  }

  /** RFC 792: the echo request for a sequence number, and the reply to any message, byte by byte. */
  lemma EchoBytes(seqNo: u16, msg: seq<u8>)
    requires |msg| >= 8
    ensures var m := EchoRequest(seqNo);
            |m| == 16 && m[..2] == [8, 0] && m[4..] == [0x4D, 0x4F] + Pair(seqNo) + [0, 0, 0, 0, 0, 0, 0, 0] && Checksum.Sum(m) == 0
    ensures var r := EchoReply(msg);
            && |r| == (if |msg| > 64 then 64 else |msg|) && r[..2] == [0, msg[1]] && r[4..] == msg[4..|r|]
            && Checksum.Sum(r) == 0
  {
    EchoRequestFields(seqNo);
    var bare := [8, 0, 0, 0] + Be16(0x4D4F) + Be16(seqNo) + [0, 0, 0, 0, 0, 0, 0, 0];
    assert EchoRequest(seqNo)[4..] == bare[4..] == [0x4D, 0x4F] + Pair(seqNo) + [0, 0, 0, 0, 0, 0, 0, 0];
    EchoReplyOf(msg);
    var m := if |msg| > 64 then msg[..64] else msg;
    assert EchoReply(msg)[4..] == m[4..];
  }

  /** RFC 768: the datagram around up to 512 bytes, byte by byte; a checksum of zero stands for none. */
  lemma UdpBytes(srcPort: u16, dstPort: u16, data: seq<u8>)
    requires |data| <= 512
    ensures UdpDatagram(srcPort, dstPort, data) == Pair(srcPort) + Pair(dstPort) + Pair(8 + |data|) + [0, 0] + data
  {
  }

  // ---- What is done with a frame ---------------------------------------------------------------

  /** The frame is copied over the front of `pkt_buf`, and nothing else happens. */
  ghost predicate OnlyTaken(h: Host, f: Frame, polls: Polls) {
    EthProcess(Received(h, f), |f|, polls) == Outcome(h.(pkt := f + h.pkt[|f|..]), polls, true)
  }

  lemma Fronts(h: Host, f: Frame)
    ensures forall i :: 0 <= i < |f| ==> Received(h, f).pkt[i] == f[i]
    ensures forall i, j :: 0 <= i <= j <= |f| ==> Received(h, f).pkt[i..j] == f[i..j]
  {
  }

  lemma QuadRead(b: seq<u8>, i: nat, x: u32)
    requires i + 4 <= |b|
    ensures b[i..i + 4] == Quad(x) <==> Get32(b, i) == x
  {
    SplitU32(x);
    var y := Get32(b, i);
    if y == x {
      QuadOf(b[i] as int, b[i + 1] as int, b[i + 2] as int, b[i + 3] as int);
      assert b[i..i + 4] == Quad(y);
    }
    if b[i..i + 4] == Quad(x) {
      assert forall k :: 0 <= k < 4 ==> b[i + k] == Quad(x)[k];
    }
  }

  lemma QuadOf(a: u8, b: u8, c: u8, d: u8)
    ensures Quad(0x100_0000 * a + 0x1_0000 * b + 0x100 * c + d) == [a, b, c, d]
  {
    var x := 0x100_0000 * a + 0x1_0000 * b + 0x100 * c + d;
    assert x / 0x100 == 0x1_0000 * a + 0x100 * b + c;
    assert x / 0x1_0000 == 0x100 * a + b;
  }

  /** Frames that are too short or neither ARP nor IPv4, and ARP packets cut short, are ignored. */
  lemma OtherFramesIgnored(h: Host, f: Frame, polls: Polls)
    requires || |f| < 14
             || (f[12..14] != [8, 6] && f[12..14] != [8, 0])
             || (f[12..14] == [8, 6] && |f| < 42)
    ensures OnlyTaken(h, f, polls)
  {
    if |f| >= 14 {
      TypeRead(h, f);
    }
  }

  lemma TypeRead(h: Host, f: Frame)
    requires |f| >= 14
    ensures Get16(Received(h, f).pkt, 12) == 0x0806 <==> f[12..14] == [8, 6]
    ensures Get16(Received(h, f).pkt, 12) == 0x0800 <==> f[12..14] == [8, 0]
  {
    assert Received(h, f).pkt[12] == f[12] && Received(h, f).pkt[13] == f[13];
    PairRead(f, 12, 8, 6);
    PairRead(f, 12, 8, 0);
  }

  lemma PairRead(b: seq<u8>, i: nat, high: u8, low: u8)
    requires i + 2 <= |b|
    ensures b[i..i + 2] == [high, low] <==> Get16(b, i) == 256 * high + low
  {
    if b[i..i + 2] == [high, low] {
      assert b[i] == b[i..i + 2][0] && b[i + 1] == b[i..i + 2][1];
    }
  }

  /** An ARP packet of any kind teaches its sender's address; a request for the host's own address is answered
      to its sender, and nothing else is. */
  lemma ArpHandledIff(h: Host, f: Frame, spa: u32, polls: Polls)
    requires |f| >= 42 && f[12..14] == [8, 6] && f[28..32] == Quad(spa)
    ensures var sha: Mac := f[22..28];
            var learned := h.(pkt := f + h.pkt[|f|..], cache := Insert(h.cache, spa, sha));
            EthProcess(Received(h, f), |f|, polls) ==
            Outcome(if h.nic && f[20..22] == [0, 1] && f[38..42] == Quad(h.ip)
                    then learned.(sent := h.sent + [ArpFrame(sha, 2, h.mac, h.ip, sha, spa)]) else learned, polls, true)
  {
    var r := Received(h, f);
    Fronts(h, f);
    TypeRead(h, f);
    QuadRead(r.pkt, 28, spa);
    QuadRead(r.pkt, 38, h.ip);
    PairRead(r.pkt, 20, 0, 1);
    assert r.pkt[38..42] == f[38..42] && r.pkt[28..32] == f[28..32] && r.pkt[20..22] == f[20..22];
    assert EthProcess(r, |f|, polls) == Outcome(ArpHandle(r, |f| - 14), polls, true);
  }

  /** IPv4 packets that are cut short, have a header of less than five words, are for another address, or carry
      neither ICMP nor UDP, are ignored; so, in the end, are UDP datagrams. */
  lemma OtherPacketsIgnored(h: Host, f: Frame, polls: Polls)
    requires |f| >= 14 && f[12..14] == [8, 0]
    requires |f| < 34 || f[14] % 16 < 5 || f[30..34] != Quad(h.ip) || f[23] != 1
    ensures OnlyTaken(h, f, polls)
  {
    var r := Received(h, f);
    Fronts(h, f);
    TypeRead(h, f);
    if |f| >= 34 {
      QuadRead(r.pkt, 30, h.ip);
      assert r.pkt[30..34] == f[30..34];
    }
    assert EthProcess(r, |f|, polls) == IpHandle(r, |f| - 14, polls);
  }

  /** Length and total length of an IPv4 header in bytes. */
  function HeaderLength(p: seq<u8>): nat
    requires |p| >= 34
  {
    4 * (p[14] % 16)
  }

  function TotalLength(p: seq<u8>): nat
    requires |p| >= 34
  {
    256 * (p[16] as int) + p[17] as int
  }

  /** An ICMP packet for the host goes to the ICMP handler with what lies behind its header, options and all,
      as long as the header announces. */
  lemma IcmpPacketsHandled(h: Host, f: Frame, src: u32, polls: Polls)
    requires |f| >= 34 && f[12..14] == [8, 0] && HeaderLength(f) >= 20 && f[30..34] == Quad(h.ip) && f[23] == 1
    requires f[26..30] == Quad(src)
    ensures EthProcess(Received(h, f), |f|, polls)
         == IcmpHandle(Received(h, f), src, 14 + HeaderLength(f), (TotalLength(f) - HeaderLength(f)) % 0x1_0000, polls)
  {
    var r := Received(h, f);
    Fronts(h, f);
    assert r.pkt[30..34] == f[30..34] && r.pkt[26..30] == f[26..30];
    IcmpDispatched(r, |f| - 14, src);
    IcmpDelivered(r, |f|, src, 14 + HeaderLength(f), (TotalLength(f) - HeaderLength(f)) % 0x1_0000, polls);
  }

  lemma IcmpDispatched(r: Host, len: u16, src: u32)
    requires len >= 20 && HeaderLength(r.pkt) >= 20 && r.pkt[30..34] == Quad(r.ip) && r.pkt[23] == 1 && r.pkt[26..30] == Quad(src)
    ensures IpDispatch(r.pkt, 14, len, r.ip)
         == Delivered(1, src, 14 + HeaderLength(r.pkt), (TotalLength(r.pkt) - HeaderLength(r.pkt)) % 0x1_0000)
  {
    QuadRead(r.pkt, 30, r.ip);
    QuadRead(r.pkt, 26, src);
  }

  lemma IcmpDelivered(r: Host, len: u16, src: u32, start: nat, plen: u16, polls: Polls)
    requires len >= 14 && r.pkt[12] == 8 && r.pkt[13] == 0 && start <= 74
    requires IpDispatch(r.pkt, 14, len - 14, r.ip) == Delivered(1, src, start, plen)
    ensures EthProcess(r, len, polls) == IcmpHandle(r, src, start, plen, polls)
  {
    assert EthProcess(r, len, polls) == IpHandle(r, len - 14, polls);
  }

  /** The handler ignores messages of less than eight bytes and those that are neither request nor reply; it
      answers a request from its first 64 bytes, and of a reply notes the sequence number. */
  lemma IcmpHandledBy(r: Host, src: u32, start: nat, len: u16, polls: Polls)
    requires start <= 74
    ensures len < 8 || r.pkt[start] !in {0, 8} ==> IcmpHandle(r, src, start, len, polls) == Outcome(r, polls, true)
    ensures len >= 8 && r.pkt[start] == 8 ==>
              IcmpHandle(r, src, start, len, polls)
              == IpSend(r, src, 1, EchoReply(r.pkt[start..start + if len > 64 then 64 else len]), polls)
    ensures len >= 8 && r.pkt[start] == 0 ==>
              IcmpHandle(r, src, start, len, polls)
              == Outcome(r.(echo := true, lastSeq := 256 * (r.pkt[start + 6] as int) + r.pkt[start + 7] as int), polls, true)
  {
  }
}
