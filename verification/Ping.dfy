/** Ping end to end (RFC 792, Echo or Echo Reply Message) between two hosts running the code. */
module Ping {
  import opened Bytes
  import opened ArpCache
  import opened Frames
  import opened HostSpec
  import Checksum

  /** What fits behind a 50-byte echo frame or a 42-byte ARP frame in the 1514 bytes the driver accepts. */
  const MAX_IP_PAD: nat := 1514 - 50
  const MAX_ARP_PAD: nat := 1514 - 42

  /** Where an IP frame addressed to the host puts an ICMP message. */
  lemma MessageReceived(h: Host, f: Frame, to: Mac, srcMac: Mac, src: u32, msg: seq<u8>, polls: Polls)
    requires ICMP_LEN <= |msg| <= MAX_PAYLOAD
    requires IpFrame(to, srcMac, src, h.ip, IP_PROTO_ICMP, msg) <= f
    ensures var r := Received(h, f);
            && r.pkt[34..34 + |msg|] == msg
            && EthProcess(r, |f|, polls) == IcmpHandle(r, src, 34, |msg|, polls)
  {
    var r := Received(h, f);
    IpFields(r.pkt, to, srcMac, src, h.ip, IP_PROTO_ICMP, msg);
    IpRoundTrip(r.pkt, |f| - ETH_LEN, to, srcMac, src, h.ip, IP_PROTO_ICMP, msg);
    assert EthProcess(r, |f|, polls) == IpHandle(r, |f| - ETH_LEN, polls);
    assert IpHandle(r, |f| - ETH_LEN, polls) == IcmpHandle(r, src, 34, |msg|, polls);
  }

  lemma ReplyToPrefix(msg: seq<u8>)
    requires |msg| >= ICMP_LEN
    ensures var n := if |msg| > 64 then 64 else |msg|; EchoReply(msg[..n]) == EchoReply(msg)
  {
    var n := if |msg| > 64 then 64 else |msg|;
    assert msg[..n][..n] == msg[..n];
    if |msg| <= 64 { assert msg[..n] == msg; }
  }

  /** An echo request addressed to the host, whatever its length and padding, is answered by `ip_send` of
      its reply to the sender. */
  lemma RequestIsAnswered(h: Host, f: Frame, to: Mac, srcMac: Mac, src: u32, msg: seq<u8>, polls: Polls)
    requires ICMP_LEN <= |msg| <= MAX_PAYLOAD && msg[0] == ICMP_ECHO_REQUEST
    requires IpFrame(to, srcMac, src, h.ip, IP_PROTO_ICMP, msg) <= f
    ensures EthProcess(Received(h, f), |f|, polls) == IpSend(Received(h, f), src, IP_PROTO_ICMP, EchoReply(msg), polls)
  {
    MessageReceived(h, f, to, srcMac, src, msg, polls);
    RequestHandled(Received(h, f), src, msg, polls);
  }

  lemma RequestHandled(r: Host, src: u32, msg: seq<u8>, polls: Polls)
    requires ICMP_LEN <= |msg| <= MAX_PAYLOAD && msg[0] == ICMP_ECHO_REQUEST && r.pkt[34..34 + |msg|] == msg
    ensures IcmpHandle(r, src, 34, |msg|, polls) == IpSend(r, src, IP_PROTO_ICMP, EchoReply(msg), polls)
  {
    var n := if |msg| > 64 then 64 else |msg|;
    ReplyToPrefix(msg);
    assert r.pkt[34] == r.pkt[34..34 + |msg|][0];
    assert r.pkt[34..34 + n] == r.pkt[34..34 + |msg|][..n];
  }

  /** An echo reply addressed to the host sets `icmp_echo_received` and `icmp_last_seq` and nothing else. */
  lemma ReplyIsNoted(h: Host, f: Frame, to: Mac, srcMac: Mac, src: u32, msg: seq<u8>, polls: Polls)
    requires ICMP_LEN <= |msg| <= MAX_PAYLOAD && msg[0] == ICMP_ECHO_REPLY
    requires IpFrame(to, srcMac, src, h.ip, IP_PROTO_ICMP, msg) <= f
    ensures EthProcess(Received(h, f), |f|, polls)
         == Outcome(Received(h, f).(echo := true, lastSeq := Get16(msg, 6)), polls, true)
  {
    var r := Received(h, f);
    MessageReceived(h, f, to, srcMac, src, msg, polls);
    var m := r.pkt[34..34 + |msg|];
    assert r.pkt[34] == m[0] && r.pkt[40] == m[6] && r.pkt[41] == m[7];
  }

  /** One waiting frame: `net_poll` is `eth_process` of it. */
  lemma PollOne(h: Host, f: Frame)
    requires EthProcess(Received(h, f), |f|, []).rest == []
    ensures NetPoll(h, [Some(f)]).host == EthProcess(Received(h, f), |f|, []).host
    ensures NetPoll(h, [Some(f)]).rest == []
  {
    assert [Some(f)][1..] == [];
    var e := EthProcess(Received(h, f), |f|, []);
    assert NetPoll(e.host, e.rest) == Outcome(e.host, [], true);
  }

  /** The message `b` sends back keeps identifier, sequence number and data, is a reply, and verifies. */
  ghost predicate Echoes(reply: seq<u8>, request: seq<u8>) {
    && |reply| == |request| >= ICMP_LEN
    && reply[0] == ICMP_ECHO_REPLY && reply[1] == request[1]
    && Get16(reply, 4) == Get16(request, 4) && Get16(reply, 6) == Get16(request, 6)
    && reply[8..] == request[8..]
    && Checksum.Sum(reply) == 0
  }

  lemma RequestPolled(b: Host, f: Frame, toB: Mac, srcMac: Mac, src: u32, msg: seq<u8>, toA: Mac)
    requires ICMP_LEN <= |msg| <= MAX_PAYLOAD && msg[0] == ICMP_ECHO_REQUEST
    requires IpFrame(toB, srcMac, src, b.ip, IP_PROTO_ICMP, msg) <= f && Resolve(b, src) == Some(toA)
    ensures NetPoll(b, [Some(f)]).host == Emit(Received(b, f), IpFrame(toA, b.mac, b.ip, src, IP_PROTO_ICMP, EchoReply(msg)))
  {
    RequestIsAnswered(b, f, toB, srcMac, src, msg, []);
    PollOne(b, f);
  }

  lemma ReplyPolled(a: Host, f: Frame, toA: Mac, srcMac: Mac, src: u32, msg: seq<u8>)
    requires ICMP_LEN <= |msg| <= MAX_PAYLOAD && msg[0] == ICMP_ECHO_REPLY
    requires IpFrame(toA, srcMac, src, a.ip, IP_PROTO_ICMP, msg) <= f
    ensures NetPoll(a, [Some(f)]).host == Received(a, f).(echo := true, lastSeq := Get16(msg, 6))
  {
    ReplyIsNoted(a, f, toA, srcMac, src, msg, []);
    PollOne(a, f);
  }

  /** Addresses resolved on both sides: the request reaches `b`, the reply comes back, and `a` notes
      exactly the sequence number it sent, for every number, address pair and padding. */
  lemma PingResolved(a: Host, b: Host, seqNo: u16, toB: Mac, toA: Mac, pad1: seq<u8>, pad2: seq<u8>)
    requires Resolve(a, b.ip) == Some(toB) && Resolve(b, a.ip) == Some(toA)
    requires |pad1| <= MAX_IP_PAD && |pad2| <= MAX_IP_PAD
    ensures var msg := EchoRequest(seqNo);
            var req := IpFrame(toB, a.mac, a.ip, b.ip, 1, msg);
            var rep := IpFrame(toA, b.mac, b.ip, a.ip, 1, EchoReply(msg));
            && Echoes(EchoReply(msg), msg) && Checksum.Sum(msg) == 0
            && IcmpSendEcho(a, b.ip, seqNo, []) == Outcome(Emit(a, req), [], a.nic)
            && NetPoll(b, [Some(req + pad1)]).host == Emit(Received(b, req + pad1), rep)
            && NetPoll(Emit(a, req), [Some(rep + pad2)]).host
               == Received(Emit(a, req), rep + pad2).(echo := true, lastSeq := seqNo)
  {
    var msg := EchoRequest(seqNo);
    var req := IpFrame(toB, a.mac, a.ip, b.ip, IP_PROTO_ICMP, msg);
    var rep := IpFrame(toA, b.mac, b.ip, a.ip, IP_PROTO_ICMP, EchoReply(msg));
    EchoRequestFields(seqNo);
    EchoReplyOf(msg);
    RequestPolled(b, req + pad1, toB, a.mac, a.ip, msg, toA);
    ReplyPolled(Emit(a, req), rep + pad2, toA, b.mac, b.ip, EchoReply(msg));
  }

  lemma ArpProcessed(r: Host, len: u16)
    requires len >= ETH_LEN && Get16(r.pkt, 12) == ETH_TYPE_ARP
    ensures EthProcess(r, len, []) == Outcome(ArpHandle(r, len - ETH_LEN), [], true)
  {
  }

  lemma ArpRequestHandled(r: Host, len: u16, sha: Mac, spa: u32)
    requires len >= ARP_LEN && r.pkt[22..28] == sha && Get32(r.pkt, 28) == spa && Get16(r.pkt, 20) == ARP_OP_REQ
    ensures var learned := r.(cache := Insert(r.cache, spa, sha));
            ArpHandle(r, len) ==
            if Get32(r.pkt, 38) == r.ip then Emit(learned, ArpFrame(sha, ARP_OP_REPLY, r.mac, r.ip, sha, spa)) else learned
  {
  }

  /** Any ARP request makes the host learn its sender, in any state, and exactly the owner of the address
      asked for answers, to the asker. */
  lemma ArpIsAnswered(b: Host, f: Frame, dst: Mac, sha: Mac, spa: u32, tha: Mac, target: u32)
    requires ArpFrame(dst, ARP_OP_REQ, sha, spa, tha, target) <= f
    ensures NetPoll(b, [Some(f)]).rest == []
    ensures var learned := Received(b, f).(cache := Insert(b.cache, spa, sha));
            NetPoll(b, [Some(f)]).host ==
            if target == b.ip then Emit(learned, ArpFrame(sha, ARP_OP_REPLY, b.mac, b.ip, sha, spa)) else learned
  {
    var r := Received(b, f);
    ArpFields(r.pkt, dst, ARP_OP_REQ, sha, spa, tha, target);
    ArpRequestHandled(r, |f| - ETH_LEN, sha, spa);
    ArpProcessed(r, |f|);
    PollOne(b, f);
  }

  lemma ArpReplyIsLearned(a: Host, f: Frame, dst: Mac, sha: Mac, spa: u32, tha: Mac, tpa: u32)
    requires ArpFrame(dst, ARP_OP_REPLY, sha, spa, tha, tpa) <= f
    ensures NetPoll(a, [Some(f)]).rest == []
    ensures NetPoll(a, [Some(f)]).host == Received(a, f).(cache := Insert(a.cache, spa, sha))
  {
    var r := Received(a, f);
    ArpFields(r.pkt, dst, ARP_OP_REPLY, sha, spa, tha, tpa);
    ArpProcessed(r, |f|);
    PollOne(a, f);
  }

  /** An echo request waits for the answer and goes to the interface that answered. */
  lemma SentOnAnswer(a: Host, dst: u32, mac: Mac, seqNo: u16, f: Frame, to: Mac, tha: Mac, tpa: u32, a0: Host)
    requires a.nic && dst != BROADCAST_IP && Lookup(a.cache, dst) == None
    requires ArpFrame(to, ARP_OP_REPLY, mac, dst, tha, tpa) <= f
    requires a0 == Received(Ask(a, dst), f).(cache := Insert(a.cache, dst, mac))
    ensures Lookup(a0.cache, dst) == Some(mac)
    ensures IcmpSendEcho(a, dst, seqNo, [Some(f)])
         == Outcome(Emit(a0, IpFrame(mac, a.mac, a.ip, dst, IP_PROTO_ICMP, EchoRequest(seqNo))), [], true)
  {
    AwaitsAnswer(a, dst, mac, f, to, tha, tpa);
  }

  /** Nothing resolved: `a` has never heard of `b`, and `b`'s cache is arbitrary. The request `a` broadcasts
      makes `b` learn `a`, the answer arriving while `ip_send` waits makes `a` learn `b`, and the echo
      request, its reply and the noted sequence number follow, each frame addressed to the right MAC. */
  lemma PingFromNothing(a: Host, b: Host, seqNo: u16, pad0: seq<u8>, pad1: seq<u8>, pad2: seq<u8>, pad3: seq<u8>)
    requires a.nic && b.nic && a.ip != BROADCAST_IP && b.ip != BROADCAST_IP && Lookup(a.cache, b.ip) == None
    requires |pad0| <= MAX_ARP_PAD && |pad1| <= MAX_ARP_PAD && |pad2| <= MAX_IP_PAD && |pad3| <= MAX_IP_PAD
    ensures var ask := ArpFrame(BROADCAST_MAC, ARP_OP_REQ, a.mac, a.ip, ZERO_MAC, b.ip);
            var answer := ArpFrame(a.mac, ARP_OP_REPLY, b.mac, b.ip, a.mac, a.ip);
            var msg := EchoRequest(seqNo);
            var req := IpFrame(b.mac, a.mac, a.ip, b.ip, 1, msg);
            var rep := IpFrame(a.mac, b.mac, b.ip, a.ip, 1, EchoReply(msg));
            var b1 := NetPoll(b, [Some(ask + pad0)]).host;
            var a1 := IcmpSendEcho(a, b.ip, seqNo, [Some(answer + pad1)]);
            var b2 := NetPoll(b1, [Some(req + pad2)]).host;
            var a2 := NetPoll(a1.host, [Some(rep + pad3)]).host;
            && b1.sent == b.sent + [answer]
            && a1.ok && a1.host.sent == a.sent + [ask] + [req]
            && b2.sent == b1.sent + [rep]
            && a2.echo && a2.lastSeq == seqNo && a2.sent == a1.host.sent
  {
    var ask := ArpFrame(BROADCAST_MAC, ARP_OP_REQ, a.mac, a.ip, ZERO_MAC, b.ip);
    var answer := ArpFrame(a.mac, ARP_OP_REPLY, b.mac, b.ip, a.mac, a.ip);
    var msg := EchoRequest(seqNo);
    var req := IpFrame(b.mac, a.mac, a.ip, b.ip, IP_PROTO_ICMP, msg);
    var rep := IpFrame(a.mac, b.mac, b.ip, a.ip, IP_PROTO_ICMP, EchoReply(msg));
    ArpIsAnswered(b, ask + pad0, BROADCAST_MAC, a.mac, a.ip, ZERO_MAC, b.ip);
    LatestBindingHits(b.cache, a.ip, a.mac);
    var b1 := NetPoll(b, [Some(ask + pad0)]).host;
    var a0 := Received(Ask(a, b.ip), answer + pad1).(cache := Insert(a.cache, b.ip, b.mac));
    SentOnAnswer(a, b.ip, b.mac, seqNo, answer + pad1, a.mac, a.mac, a.ip, a0);
    PingResolved(a0, b1, seqNo, b.mac, a.mac, pad2, pad3);
  }

  /** The waiting loop of `ip_send` ends with the first answer. */
  lemma AwaitsAnswer(a: Host, dst: u32, mac: Mac, f: Frame, to: Mac, tha: Mac, tpa: u32)
    requires ArpFrame(to, ARP_OP_REPLY, mac, dst, tha, tpa) <= f
    ensures var asked := Ask(a, dst);
            var done := Received(asked, f).(cache := Insert(a.cache, dst, mac));
            Await(asked, dst, [Some(f)], WAIT) == Outcome(done, [], true) && Lookup(done.cache, dst) == Some(mac)
  {
    var asked := Ask(a, dst);
    ArpReplyIsLearned(asked, f, to, mac, dst, tha, tpa);
    LatestBindingHits(a.cache, dst, mac);
  }

  /** `udp_send` refuses more than 512 bytes; otherwise, the destination resolved, its one frame reaches the
      UDP handler of the host addressed, and only there, with sender, ports, length and data intact. */
  lemma UdpArrives(a: Host, dst: u32, srcPort: u16, dstPort: u16, data: seq<u8>, to: Mac, pkt: seq<u8>, len: u16)
    requires Resolve(a, dst) == Some(to)
    ensures |data| > 512 ==> UdpSend(a, dst, srcPort, dstPort, data, []) == Outcome(a, [], false)
    ensures |data| <= 512 ==>
              var d := UdpDatagram(srcPort, dstPort, data);
              var f := IpFrame(to, a.mac, a.ip, dst, 17, d);
              && UdpSend(a, dst, srcPort, dstPort, data, []) == Outcome(Emit(a, f), [], a.nic)
              && (f <= pkt && |f| <= ETH_LEN + len <= |pkt| ==>
                    && IpDispatch(pkt, ETH_LEN, len, dst) == Delivered(17, a.ip, 34, UDP_LEN + |data|)
                    && pkt[34..34 + |d|] == d
                    && Get16(d, 0) == srcPort && Get16(d, 2) == dstPort && Get16(d, 4) == |d| && d[8..] == data
                    && forall me: u32 :: me != dst ==> IpDispatch(pkt, ETH_LEN, len, me) == Dropped)
  {
    if |data| <= 512 {
      var d := UdpDatagram(srcPort, dstPort, data);
      UdpFields(srcPort, dstPort, data);
      if IpFrame(to, a.mac, a.ip, dst, 17, d) <= pkt && ETH_LEN + IP_LEN + |d| <= ETH_LEN + len <= |pkt| {
        IpRoundTrip(pkt, len, to, a.mac, a.ip, dst, 17, d);
      }
    }
  }
}
