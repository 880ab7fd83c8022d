/** The network code of code/src/net.c in place: the methods take frames from the receive ring, fill packet
    buffers byte by byte, scan and update the cache array, and are proved to do what `HostSpec` says. */
module NetStack {
  import opened Bytes
  import opened ArpCache
  import opened Frames
  import opened HostSpec
  import Checksum
  import RxRing

  const TX_BUF_SIZE: nat := 1536

  /** What one call of `rtl_recv` does to a host that is going to find `found`. */
  ghost predicate OnePoll(h: Host, found: Polls, h': Host, len: u16, rest: Polls) {
    if found == [] || found[0].None? then len == 0 && h' == h && rest == (if found == [] then [] else found[1..])
    else len == |found[0].value| && h' == Received(h, found[0].value) && rest == found[1..]
  }

  /** What is left of `net_poll` after `rtl_recv` has returned `len`. */
  function Polling(h: Host, len: u16, found: Polls): Outcome {
    if len == 0 then Outcome(h, found, true)
    else var e := HostSpec.EthProcess(h, len, found); HostSpec.NetPoll(e.host, e.rest)
  }

  lemma PollStep(h: Host, found: Polls, h': Host, len: u16, rest: Polls)
    requires OnePoll(h, found, h', len, rest)
    ensures HostSpec.NetPoll(h, found) == Polling(h', len, rest)
    ensures |rest| <= |found| && (len > 0 ==> |rest| < |found|)
  {
  }

  /** Overwriting the two checksum bytes behind `front` changes just them. */
  lemma ChecksumStored(before: seq<u8>, after: seq<u8>, front: seq<u8>, bare: seq<u8>, sum: u16)
    requires |bare| == IP_LEN && |front| + IP_LEN <= |before| == |after| && before[..|front| + IP_LEN] == front + bare
    requires after[..|front| + 12] == before[..|front| + 10] + Le16(sum)
    requires forall i :: |front| + 12 <= i < |after| ==> after[i] == before[i]
    ensures after[..|front| + IP_LEN] == front + Checksum.StoreWord(bare, 10, sum)
  {
    var n, stored := |front|, front + Checksum.StoreWord(bare, 10, sum);
    forall i | 0 <= i < n + IP_LEN
      ensures after[i] == stored[i]
    {
      assert before[i] == (front + bare)[i];
      if i < n + 10 {
        assert after[..n + 12][i] == before[..n + 10][i];
      } else if i < n + 12 {
        assert after[..n + 12][i] == Le16(sum)[i - n - 10];
      }
    }
  }

  lemma AwaitStep(h: Host, dst: u32, found: Polls, wait: nat, h': Host, rest: Polls)
    requires wait > 0 && HostSpec.NetPoll(h, found).host == h' && HostSpec.NetPoll(h, found).rest == rest
    ensures |rest| <= |found|
    ensures Await(h, dst, found, wait) ==
            if Lookup(h'.cache, dst).Some? then Outcome(h', rest, true) else Await(h', dst, rest, wait - 1)
  {
  }

  class NetStack {
    /** Whether a card was found: `net_iobase` is not zero. */
    const nic: bool
    const mac: Mac
    const ip: u32
    const arpCache: array<ArpEntry>
    const pktBuf: array<u8>
    const ring: RxRing.RxRing
    var sent: seq<seq<u8>>
    var echoReceived: bool
    var lastSeq: u16

    ghost predicate Valid() {
      arpCache.Length == CACHE_SIZE && pktBuf.Length == PKT_BUF_SIZE
    }

    ghost function State(): Host
      requires Valid()
      reads this, arpCache, pktBuf
    {
      Host(nic, mac, ip, arpCache[..], sent, echoReceived, lastSeq, pktBuf[..])
    }

    ghost predicate Ready()
      reads this, ring, ring.buf
    {
      Valid() && ring.Valid() && ring.buf != pktBuf
    }

    /** What `rtl_recv` finds from now on: the frames pending in the ring and, at the polls after those, what
        the card does meanwhile: `Some` frame for one that arrives, `None` for nothing. */
    ghost function Incoming(late: Polls): Polls
      requires Ready()
      reads this, ring, ring.buf
    {
      RxRing.EncodedSendable(RxRing.Unrolled(ring.buf[..], ring.rxCur, ring.used), ring.pending);
      Finding(ring.pending) + late
    }

    /** `arp_cache_init` on zeroed memory, with an empty ring. */
    constructor (nic: bool, mac: Mac, ip: u32)
      ensures Ready() && fresh(arpCache) && fresh(pktBuf) && fresh(ring) && fresh(ring.buf) && ring.pending == []
      ensures this.nic == nic && this.mac == mac && this.ip == ip && sent == [] && Empty(arpCache[..])
    {
      this.nic, this.mac, this.ip := nic, mac, ip;
      arpCache := new ArpEntry[CACHE_SIZE](_ => ArpEntry(0, ZERO_MAC, false));
      pktBuf := new u8[PKT_BUF_SIZE](_ => 0);
      ring := new RxRing.RxRing();
      sent, echoReceived, lastSeq := [], false, 0;
    }

    /** `net_send`, the transmitted frame being appended to `sent`. */
    method NetSend(frame: array<u8>, len: u16) returns (ok: bool)
      requires Valid() && len <= frame.Length
      modifies this`sent
      ensures ok == (nic && len <= 1536)
      ensures sent == if ok then old(sent) + [frame[..len]] else old(sent)
      ensures State() == if len <= TX_BUF_SIZE then Emit(old(State()), frame[..len]) else old(State())
    {
      if !nic || len > TX_BUF_SIZE {
        return false;
      }
      sent := sent + [frame[..len]];
      return true;
    }

    /** `eth_build` */
    method EthBuild(buf: array<u8>, dst: Mac, etype: u16) returns (off: nat)
      requires ETH_LEN <= buf.Length
      modifies buf
      ensures off == ETH_LEN && buf[..ETH_LEN] == EthHeader(dst, mac, etype)
      ensures forall i :: ETH_LEN <= i < buf.Length ==> buf[i] == old(buf[i])
    {
      Put(buf, 0, dst);
      Put(buf, 6, mac);
      NetworkOrder(etype, 0);
      Put(buf, 12, Le16(Htons(etype)));
      assert buf[..14] == dst + mac + Be16(etype);
      return ETH_LEN;
    }

    /** The first four fields of an ARP packet. */
    method BuildArpHead(frame: array<u8>, off: nat, oper: u16)
      requires off + 8 <= frame.Length
      modifies frame
      ensures frame[..off + 8] == old(frame[..off]) + (Be16(1) + Be16(ETH_TYPE_IP) + [6, 4] + Be16(oper))
    {
      NetworkOrder16(1);
      NetworkOrder16(ETH_TYPE_IP);
      NetworkOrder16(oper);
      Put(frame, off, Le16(Htons(1)));
      Put(frame, off + 2, Le16(Htons(ETH_TYPE_IP)));
      Put(frame, off + 4, [6, 4]);
      Put(frame, off + 6, Le16(Htons(oper)));
    }

    /** A hardware and a protocol address of an ARP packet. */
    method BuildArpPair(frame: array<u8>, off: nat, ha: Mac, pa: u32)
      requires off + 10 <= frame.Length
      modifies frame
      ensures frame[..off + 10] == old(frame[..off]) + (ha + Be32(pa))
    {
      NetworkOrder32(pa);
      Put(frame, off, ha);
      Put(frame, off + 6, Le32(Htonl(pa)));
      assert frame[..off + 10] == old(frame[..off]) + ha + Be32(pa);
    }

    /** The four addresses of an ARP packet. */
    method BuildArpTail(frame: array<u8>, off: nat, tha: Mac, tpa: u32)
      requires off + 20 <= frame.Length
      modifies frame
      ensures frame[..off + 20] == old(frame[..off]) + (mac + Be32(ip) + tha + Be32(tpa))
    {
      ghost var mine, theirs := mac + Be32(ip), tha + Be32(tpa);
      BuildArpPair(frame, off, mac, ip);
      BuildArpPair(frame, off + 10, tha, tpa);
      assert mine + theirs == mac + Be32(ip) + tha + Be32(tpa);
      assert frame[..off + 20] == old(frame[..off]) + mine + theirs;
    }

    /** The ARP packet `arp_send_request` and `arp_handle` fill in behind the Ethernet header. */
    method BuildArpPacket(frame: array<u8>, off: nat, oper: u16, tha: Mac, tpa: u32)
      requires off + ARP_LEN <= frame.Length
      modifies frame
      ensures frame[..off + ARP_LEN] == old(frame[..off]) + ArpPacket(oper, mac, ip, tha, tpa)
    {
      ghost var head := Be16(1) + Be16(ETH_TYPE_IP) + [6, 4] + Be16(oper);
      ghost var tail := mac + Be32(ip) + tha + Be32(tpa);
      BuildArpHead(frame, off, oper);
      BuildArpTail(frame, off + 8, tha, tpa);
      assert ArpPacket(oper, mac, ip, tha, tpa) == head + tail;
      assert frame[..off + 28] == old(frame[..off]) + head + tail;
    }

    /** Build an ARP frame and send it. */
    method SendArp(dst: Mac, oper: u16, tha: Mac, tpa: u32)
      requires Valid()
      modifies this`sent
      ensures State() == Emit(old(State()), ArpFrame(dst, oper, mac, ip, tha, tpa))
    {
      var frame := new u8[ETH_LEN + ARP_LEN];
      var off := EthBuild(frame, dst, ETH_TYPE_ARP);
      BuildArpPacket(frame, off, oper, tha, tpa);
      var _ := NetSend(frame, off + ARP_LEN);
    }

    /** `arp_send_request` */
    method ArpSendRequest(target: u32)
      requires Valid()
      modifies this`sent
      ensures State() == Ask(old(State()), target)
    {
      SendArp(BROADCAST_MAC, ARP_OP_REQ, ZERO_MAC, target);
    }

    /** A field of `pkt_buf` read through the packed struct and converted by `ntohs` or `ntohl`. */
    function Field16(at: nat): (r: u16)
      requires Valid() && at + 2 <= PKT_BUF_SIZE
      reads pktBuf
      ensures r == Get16(pktBuf[..], at)
    {
      Get16(pktBuf[at..at + 2], 0)
    }

    function Field32(at: nat): (r: u32)
      requires Valid() && at + 4 <= PKT_BUF_SIZE
      reads pktBuf
      ensures r == Get32(pktBuf[..], at)
    {
      Get32(pktBuf[at..at + 4], 0)
    }

    /** `arp_handle` */
    method ArpHandle(len: u16)
      requires Valid()
      modifies this`sent, arpCache
      ensures State() == HostSpec.ArpHandle(old(State()), len)
    {
      if len < ARP_LEN {
        return;
      }
      var senderIp := Field32(28);
      var sha: Mac := pktBuf[22..28];
      ArpCacheInsert(arpCache, senderIp, sha);
      if Field16(20) == ARP_OP_REQ {
        var targetIp := Field32(38);
        if targetIp != ip {
          return;
        }
        SendArp(sha, ARP_OP_REPLY, sha, senderIp);
      }
    }

    /** The first eight bytes of the IP header. */
    method BuildIpHead(frame: array<u8>, off: nat, total: u16)
      requires off + IP_LEN <= frame.Length
      modifies frame
      ensures frame[..off + 8] == old(frame[..off]) + ([0x45, 0] + Be16(total) + Be16(1) + [0, 0])
    {
      NetworkOrder16(total);
      NetworkOrder16(1);
      Put(frame, off, [0x45, 0]);
      Put(frame, off + 2, Le16(Htons(total)));
      Put(frame, off + 4, Le16(Htons(1)));
      Put(frame, off + 6, [0, 0]);
    }

    /** The IP header with a zero checksum. */
    method BuildBareIpHeader(frame: array<u8>, off: nat, total: u16, proto: u8, dst: u32)
      requires off + IP_LEN <= frame.Length
      modifies frame
      ensures frame[..off + IP_LEN] == old(frame[..off]) + BareIpHeader(total, proto, ip, dst)
    {
      BuildIpHead(frame, off, total);
      NetworkOrder32(ip);
      NetworkOrder32(dst);
      Put(frame, off + 8, [64, proto]);
      Put(frame, off + 10, [0, 0]);
      Put(frame, off + 12, Le32(Htonl(ip)));
      Put(frame, off + 16, Le32(Htonl(dst)));
      ghost var head := [0x45, 0] + Be16(total) + Be16(1) + [0, 0];
      assert frame[..off + IP_LEN] == old(frame[..off]) + (head + [64, proto] + [0, 0] + Be32(ip) + Be32(dst));
    }

    /** The IP header `ip_send` fills in behind the Ethernet header, its checksum last. */
    method BuildIpHeader(frame: array<u8>, off: nat, total: u16, proto: u8, dst: u32)
      requires off + IP_LEN <= frame.Length
      modifies frame
      ensures frame[..off + IP_LEN] == old(frame[..off]) + IpHeader(total, proto, ip, dst)
    {
      ghost var front, bare := frame[..off], BareIpHeader(total, proto, ip, dst);
      BuildBareIpHeader(frame, off, total, proto, dst);
      assert frame[..off] == front && frame[off..off + IP_LEN] == bare;
      var sum := Checksum.IpChecksum(frame, off, IP_LEN);
      ghost var before := frame[..];
      Put(frame, off + 10, Le16(sum));
      ChecksumStored(before, frame[..], front, bare, sum);
    }

    /** The part of `ip_send` that builds the frame and sends it. */
    method BuildAndSend(to: Mac, dst: u32, proto: u8, payload: array<u8>, plen: u16) returns (ok: bool)
      requires Valid() && plen <= payload.Length && plen <= MAX_PAYLOAD
      modifies this`sent
      ensures ok == nic && State() == Transmit(old(State()), to, dst, proto, payload[..plen])
    {
      var total: u16 := IP_LEN + plen;
      var frame := new u8[1500](_ => 0);
      var off := EthBuild(frame, to, ETH_TYPE_IP);
      BuildIpHeader(frame, off, total, proto, dst);
      MemCopy(frame, off + IP_LEN, payload, 0, plen);
      assert frame[..off + total] == IpFrame(to, mac, ip, dst, proto, payload[..plen]);
      ok := NetSend(frame, off + total);
    }

    /** `ip_send` */
    method IpSend(dst: u32, proto: u8, payload: array<u8>, plen: u16, polls: Polls) returns (ok: bool, rest: Polls)
      requires Ready() && plen <= payload.Length && plen <= MAX_PAYLOAD && payload != pktBuf && payload != ring.buf
      modifies this, arpCache, pktBuf, ring, ring.buf
      ensures Ready() && payload[..] == old(payload[..])
      ensures var o := HostSpec.IpSend(old(State()), dst, proto, old(payload[..plen]), old(Incoming(polls)));
              State() == o.host && ok == o.ok && Incoming(rest) == o.rest
      decreases |Incoming(polls)|, 3, 0
    {
      rest := polls;
      var to: Mac := BROADCAST_MAC;
      if dst != BROADCAST_IP {
        var hit := ArpLookup(arpCache, dst);
        if hit.None? {
          ArpSendRequest(dst);
          rest := Wait(dst, polls);
          hit := ArpLookup(arpCache, dst);
          if hit.None? {
            return false, rest;
          }
        }
        to := hit.value;
      }
      ok := BuildAndSend(to, dst, proto, payload, plen);
    }

    /** The waiting loop of `ip_send`. */
    method Wait(dst: u32, polls: Polls) returns (rest: Polls)
      requires Ready()
      modifies this, arpCache, pktBuf, ring, ring.buf
      ensures Ready()
      ensures State() == Await(old(State()), dst, old(Incoming(polls)), WAIT).host
      ensures Incoming(rest) == Await(old(State()), dst, old(Incoming(polls)), WAIT).rest
      decreases |Incoming(polls)|, 2
    {
      ghost var h, all := State(), Incoming(polls);
      var wait := WAIT;
      rest := polls;
      while wait > 0
        invariant Ready() && |Incoming(rest)| <= |all|
        invariant Await(h, dst, all, WAIT) == Await(State(), dst, Incoming(rest), wait)
        decreases wait
      {
        ghost var h', found := State(), Incoming(rest);
        wait := wait - 1;
        rest := NetPoll(rest);
        AwaitStep(h', dst, found, wait + 1, State(), Incoming(rest));
        var hit := ArpLookup(arpCache, dst);
        if hit.Some? {
          return;
        }
      }
    }

    /** The card writes a frame, with any status and CRC. */
    method CardWrites(frame: Frame)
      requires Ready() && ring.pending == []
      modifies ring, ring.buf
      ensures Ready() && ring.pending == [frame]
    {
      var status: u16 := *;
      var crc := new u8[4];
      ring.Arrive(frame, status, crc[..]);
    }

    /** `rtl_recv` into `pkt_buf`, whose older bytes stay behind the frame. */
    method RtlRecv(polls: Polls) returns (len: u16, rest: Polls)
      requires Ready()
      modifies pktBuf, ring, ring.buf
      ensures Ready()
      ensures OnePoll(old(State()), old(Incoming(polls)), State(), len, Incoming(rest))
      ensures len <= 1514 && pktBuf[len..] == old(pktBuf[len..])
    {
      rest := polls;
      if ring.used == 0 && polls != [] {
        rest := polls[1..];
        if polls[0].Some? {
          CardWrites(polls[0].value);
        }
      }
      len := TakeOldest();
    }

    /** `rtl_recv` on the ring as it is. */
    method TakeOldest() returns (len: u16)
      requires Ready()
      modifies pktBuf, ring
      ensures Ready() && len <= 1514 && pktBuf[len..] == old(pktBuf[len..])
      ensures old(ring.pending) == [] ==> len == 0 && State() == old(State()) && ring.pending == []
      ensures old(ring.pending) != [] ==>
                var f := old(ring.pending)[0];
                && 1 <= |f| <= 1514 && len == |f| && ring.pending == old(ring.pending)[1..]
                && State() == Received(old(State()), f)
    {
      len := ring.Recv(pktBuf);
      assert pktBuf[..] == pktBuf[..len] + pktBuf[len..];
    }

    /** `net_poll`; if nothing arrives meanwhile, exactly the frames pending are handled, in arrival order, and
        the ring is left empty. */
    method NetPoll(polls: Polls) returns (rest: Polls)
      requires Ready()
      modifies this, arpCache, pktBuf, ring, ring.buf
      ensures Ready()
      ensures State() == HostSpec.NetPoll(old(State()), old(Incoming(polls))).host
      ensures Incoming(rest) == HostSpec.NetPoll(old(State()), old(Incoming(polls))).rest
      ensures polls == [] ==> ring.pending == [] && rest == []
      decreases |Incoming(polls)|, 1
    {
      ghost var h, all := State(), Incoming(polls);
      if polls == [] { NetPollFindsAll(h, all); }
      var len;
      len, rest := RtlRecv(polls);
      PollStep(h, all, State(), len, Incoming(rest));
      while len > 0
        invariant Ready() && |Incoming(rest)| <= |all| && (len > 0 ==> |Incoming(rest)| < |all|)
        invariant HostSpec.NetPoll(h, all) == Polling(State(), len, Incoming(rest))
        decreases len > 0, |Incoming(rest)|
      {
        rest := EthProcess(len, rest);
        ghost var h', found := State(), Incoming(rest);
        len, rest := RtlRecv(rest);
        PollStep(h', found, State(), len, Incoming(rest));
      }
    }

    /** `eth_process` on `pkt_buf` */
    method EthProcess(len: u16, polls: Polls) returns (rest: Polls)
      requires Ready()
      modifies this, arpCache, pktBuf, ring, ring.buf
      ensures Ready()
      ensures var o := HostSpec.EthProcess(old(State()), len, old(Incoming(polls)));
              State() == o.host && Incoming(rest) == o.rest
      decreases |Incoming(polls)|, 6
    {
      rest := polls;
      if len < ETH_LEN {
        return;
      }
      var etype := Field16(12);
      if etype == ETH_TYPE_ARP {
        ArpHandle(len - ETH_LEN);
      } else if etype == ETH_TYPE_IP {
        rest := IpHandle(len - ETH_LEN, polls);
      }
    }

    /** The checks `ip_handle` makes before it hands the payload on. */
    method ParseIp(len: u16) returns (d: Dispatch)
      requires Valid()
      ensures d == IpDispatch(pktBuf[..], ETH_LEN, len, ip)
    {
      if len < IP_LEN {
        return Dropped;
      }
      var ihl := pktBuf[14] % 16 * 4;
      if ihl < 20 {
        return Dropped;
      }
      var dstIp := Field32(30);
      if dstIp != ip {
        return Dropped;
      }
      var plen: u16 := (Field16(16) - ihl) % 0x1_0000;
      var srcIp := Field32(26);
      if pktBuf[23] == IP_PROTO_ICMP || pktBuf[23] == IP_PROTO_UDP {
        return Delivered(pktBuf[23], srcIp, ETH_LEN + ihl, plen);
      }
      return Dropped;
    }

    /** `ip_handle` */
    method IpHandle(len: u16, polls: Polls) returns (rest: Polls)
      requires Ready()
      modifies this, arpCache, pktBuf, ring, ring.buf
      ensures Ready()
      ensures var o := HostSpec.IpHandle(old(State()), len, old(Incoming(polls)));
              State() == o.host && Incoming(rest) == o.rest
      decreases |Incoming(polls)|, 5
    {
      rest := polls;
      var d := ParseIp(len);
      match d {
        case Delivered(proto, src, start, plen) =>
          if proto == IP_PROTO_ICMP {
            rest := IcmpHandle(src, start, plen, polls);
          }
        case Dropped =>
      }
    }

    /** The local buffer in which `icmp_handle` turns a request of `n` bytes into its reply. */
    method BuildReply(start: nat, n: u16) returns (reply: array<u8>)
      requires Valid() && start + n <= PKT_BUF_SIZE && ICMP_LEN <= n <= 64
      ensures fresh(reply) && reply.Length == 64
      ensures reply[..n] == EchoReply(pktBuf[start..start + n])
    {
      reply := new u8[64];
      MemCopy(reply, 0, pktBuf, start, n);
      ghost var bare := pktBuf[start..start + n][0 := ICMP_ECHO_REPLY][2 := 0][3 := 0];
      reply[0] := ICMP_ECHO_REPLY;
      reply[2], reply[3] := 0, 0;
      assert reply[..n] == bare;
      var sum := Checksum.IpChecksum(reply, 0, n);
      reply[2], reply[3] := sum % 256, sum / 256;
      assert reply[..n] == Checksum.StoreWord(bare, 2, sum);
    }

    /** The answer to an echo request of `n` bytes. */
    method AnswerEcho(src: u32, start: nat, n: u16, polls: Polls) returns (rest: Polls)
      requires Ready() && start + n <= PKT_BUF_SIZE && ICMP_LEN <= n <= 64
      modifies this, arpCache, pktBuf, ring, ring.buf
      ensures Ready()
      ensures var h := old(State());
              var o := HostSpec.IpSend(h, src, IP_PROTO_ICMP, EchoReply(h.pkt[start..start + n]), old(Incoming(polls)));
              State() == o.host && Incoming(rest) == o.rest
      decreases |Incoming(polls)|, 3, 1
    {
      ghost var message := pktBuf[..][start..start + n];
      assert message == pktBuf[start..start + n];
      var reply := BuildReply(start, n);
      var _, left := IpSend(src, IP_PROTO_ICMP, reply, n, polls);
      rest := left;
    }

    /** What an echo reply leaves behind. */
    method NoteReply(start: nat)
      requires Valid() && start <= ETH_LEN + 60
      modifies this`echoReceived, this`lastSeq
      ensures State() == old(State()).(echo := true, lastSeq := Get16(old(State()).pkt, start + 6))
    {
      echoReceived := true;
      lastSeq := Field16(start + 6);
    }

    /** `icmp_handle` on the message at `start` in `pkt_buf` */
    method IcmpHandle(src: u32, start: nat, len: u16, polls: Polls) returns (rest: Polls)
      requires Ready() && start <= ETH_LEN + 60
      modifies this, arpCache, pktBuf, ring, ring.buf
      ensures Ready()
      ensures var o := HostSpec.IcmpHandle(old(State()), src, start, len, old(Incoming(polls)));
              State() == o.host && Incoming(rest) == o.rest
      decreases |Incoming(polls)|, 4
    {
      rest := polls;
      ghost var h := State();
      assert h.pkt[start] == pktBuf[start];
      if len < ICMP_LEN {
        return;
      }
      if pktBuf[start] == ICMP_ECHO_REQUEST {
        var n: u16 := if len > 64 then 64 else len;
        rest := AnswerEcho(src, start, n, polls);
      } else if pktBuf[start] == ICMP_ECHO_REPLY {
        NoteReply(start);
      }
    }

    /** The local buffer in which `icmp_send_echo` builds its request. */
    method BuildRequest(seqNo: u16) returns (payload: array<u8>)
      ensures fresh(payload) && payload[..] == EchoRequest(seqNo)
    {
      var n: u16 := ICMP_LEN + 8;
      payload := new u8[n](_ => 0);
      NetworkOrder(0x4D4F, 0);
      NetworkOrder(seqNo, 0);
      Put(payload, 0, [ICMP_ECHO_REQUEST, 0, 0, 0]);
      Put(payload, 4, Le16(Htons(0x4D4F)));
      Put(payload, 6, Le16(Htons(seqNo)));
      ghost var bare := [ICMP_ECHO_REQUEST, 0, 0, 0] + Be16(0x4D4F) + Be16(seqNo) + [0, 0, 0, 0, 0, 0, 0, 0];
      assert payload[..8] == bare[..8];
      assert payload[..n] == bare;
      var sum := Checksum.IpChecksum(payload, 0, n);
      payload[2], payload[3] := sum % 256, sum / 256;
      assert payload[..n] == payload[..] == EchoRequest(seqNo);
    }

    /** `icmp_send_echo` */
    method IcmpSendEcho(dst: u32, seqNo: u16, polls: Polls) returns (rest: Polls)
      requires Ready()
      modifies this, arpCache, pktBuf, ring, ring.buf
      ensures Ready()
      ensures var o := HostSpec.IcmpSendEcho(old(State()), dst, seqNo, old(Incoming(polls)));
              State() == o.host && Incoming(rest) == o.rest
    {
      var n: u16 := ICMP_LEN + 8;
      var payload := BuildRequest(seqNo);
      assert payload[..n] == payload[..];
      var _, left := IpSend(dst, IP_PROTO_ICMP, payload, n, polls);
      rest := left;
    }

    /** `udp_send` */
    method UdpSend(dst: u32, srcPort: u16, dstPort: u16, data: array<u8>, dlen: u16, polls: Polls) returns (ok: bool, rest: Polls)
      requires Ready() && dlen <= data.Length
      modifies this, arpCache, pktBuf, ring, ring.buf
      ensures Ready()
      ensures var o := HostSpec.UdpSend(old(State()), dst, srcPort, dstPort, old(data[..dlen]), old(Incoming(polls)));
              State() == o.host && ok == o.ok && Incoming(rest) == o.rest
    {
      if dlen > 512 {
        return false, polls;
      }
      var udpLen: u16 := UDP_LEN + dlen;
      var buf := new u8[UDP_LEN + 512];
      NetworkOrder(srcPort, 0);
      NetworkOrder(dstPort, 0);
      NetworkOrder(udpLen, 0);
      Put(buf, 0, Le16(Htons(srcPort)));
      Put(buf, 2, Le16(Htons(dstPort)));
      Put(buf, 4, Le16(Htons(udpLen)));
      Put(buf, 6, [0, 0]);
      MemCopy(buf, UDP_LEN, data, 0, dlen);
      assert buf[..udpLen] == UdpDatagram(srcPort, dstPort, data[..dlen]);
      ok, rest := IpSend(dst, IP_PROTO_UDP, buf, udpLen, polls);
    }
  }
}
