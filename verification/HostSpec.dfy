/** What one host's network code (code/src/net.c) does to its state, as functions.

    `Polls` is the list of results `rtl_recv` returns from now on, `None` being "nothing waiting".
    `ip_send` waits for an ARP reply by polling, and polling handles frames, whose handlers may send in
    turn: the functions are mutually recursive exactly as the C functions are, and every one of them
    returns the polls it left over. After the last of them nothing is waiting any more. */
module HostSpec {
  import opened Bytes
  import opened ArpCache
  import opened Frames

  const PKT_BUF_SIZE: nat := 1518

  type PktBuf = p: seq<u8> | |p| == PKT_BUF_SIZE witness seq(PKT_BUF_SIZE, _ => 0)
  type Frame = f: seq<u8> | 1 <= |f| <= 1514 witness [0]
  type Polls = seq<Option<Frame>>

  /** How often the waiting loop of `ip_send` polls. */
  const WAIT: nat := 500_000

  /** Whether a card was found (`net_iobase`), `net_mac`, `net_ip`, `arp_cache`, the frames handed to `net_send`
      so far, `icmp_echo_received`, `icmp_last_seq` and the scratch buffer `pkt_buf`. */
  datatype Host = Host(nic: bool, mac: Mac, ip: u32, cache: Cache, sent: seq<seq<u8>>, echo: bool, lastSeq: u16, pkt: PktBuf)

  /** The polls that find the given frames. */
  function Finding(frames: seq<seq<u8>>): (p: Polls)
    requires forall i :: 0 <= i < |frames| ==> 1 <= |frames[i]| <= 1514
    ensures |p| == |frames| && forall i :: 0 <= i < |p| ==> p[i] == Some(frames[i])
  {
    seq(|frames|, i requires 0 <= i < |frames| => Some(frames[i]))
  }

  datatype Outcome = Outcome(host: Host, rest: Polls, ok: bool)

  /** `net_send` of a frame that fits a transmit buffer: refused without a card. */
  function Emit(h: Host, frame: seq<u8>): Host {
    if h.nic then h.(sent := h.sent + [frame]) else h
  }

  /** `arp_send_request` */
  function Ask(h: Host, target: u32): Host {
    Emit(h, ArpFrame(BROADCAST_MAC, ARP_OP_REQ, h.mac, h.ip, ZERO_MAC, target))
  }

  /** `arp_handle` on the packet in `pkt_buf` behind the Ethernet header. */
  function ArpHandle(h: Host, len: u16): Host {
    if len < ARP_LEN then h
    else
      var sha: Mac := h.pkt[22..28];
      var spa := Get32(h.pkt, 28);
      var learned := h.(cache := Insert(h.cache, spa, sha));
      if Get16(h.pkt, 20) == ARP_OP_REQ && Get32(h.pkt, 38) == h.ip then
        Emit(learned, ArpFrame(sha, ARP_OP_REPLY, h.mac, h.ip, sha, spa))
      else learned
  }

  /** The frame `ip_send` emits once the destination is resolved. */
  function Transmit(h: Host, to: Mac, dst: u32, proto: u8, payload: seq<u8>): Host
    requires |payload| <= MAX_PAYLOAD
  {
    Emit(h, IpFrame(to, h.mac, h.ip, dst, proto, payload))
  }

  function Resolve(h: Host, dst: u32): Option<Mac> {
    if dst == BROADCAST_IP then Some(BROADCAST_MAC) else Lookup(h.cache, dst)
  }

  /** `ip_send` */
  function IpSend(h: Host, dst: u32, proto: u8, payload: seq<u8>, polls: Polls): (o: Outcome)
    requires |payload| <= MAX_PAYLOAD
    ensures |o.rest| <= |polls|
    decreases |polls|, 3
  {
    match Resolve(h, dst)
    case Some(to) => Outcome(Transmit(h, to, dst, proto, payload), polls, h.nic)
    case None =>
      var w := Await(Ask(h, dst), dst, polls, WAIT);
      match Lookup(w.host.cache, dst)
      case Some(to) => Outcome(Transmit(w.host, to, dst, proto, payload), w.rest, w.host.nic)
      case None => Outcome(w.host, w.rest, false)
  }

  /** The waiting loop of `ip_send`: poll until the address is known, at most `wait` times. */
  function Await(h: Host, dst: u32, polls: Polls, wait: nat): (o: Outcome)
    ensures |o.rest| <= |polls|
    decreases |polls|, 2, wait
  {
    if wait == 0 then Outcome(h, polls, false)
    else
      var p := NetPoll(h, polls);
      if Lookup(p.host.cache, dst).Some? then p.(ok := true) else Await(p.host, dst, p.rest, wait - 1)
  }

  /** `net_poll` */
  function NetPoll(h: Host, polls: Polls): (o: Outcome)
    ensures |o.rest| <= |polls| && (polls != [] ==> |o.rest| < |polls|)
    decreases |polls|, 1
  {
    if polls == [] then Outcome(h, [], true)
    else if polls[0].None? then Outcome(h, polls[1..], true)
    else
      var e := EthProcess(Received(h, polls[0].value), |polls[0].value|, polls[1..]);
      NetPoll(e.host, e.rest)
  }

  /** The frame is copied over the front of `pkt_buf`; older bytes stay behind it. */
  function Received(h: Host, frame: Frame): Host {
    h.(pkt := frame + h.pkt[|frame|..])
  }

  /** `eth_process` on the first `len` bytes of `pkt_buf`. */
  function EthProcess(h: Host, len: u16, polls: Polls): (o: Outcome)
    ensures |o.rest| <= |polls|
    decreases |polls|, 6
  {
    if len < ETH_LEN then Outcome(h, polls, true)
    else if Get16(h.pkt, 12) == ETH_TYPE_ARP then Outcome(ArpHandle(h, len - ETH_LEN), polls, true)
    else if Get16(h.pkt, 12) == ETH_TYPE_IP then IpHandle(h, len - ETH_LEN, polls)
    else Outcome(h, polls, true)
  }

  /** `ip_handle`; `udp_handle` has no effect. */
  function IpHandle(h: Host, len: u16, polls: Polls): (o: Outcome)
    ensures |o.rest| <= |polls|
    decreases |polls|, 5
  {
    match IpDispatch(h.pkt, ETH_LEN, len, h.ip)
    case Delivered(proto, src, start, plen) =>
      if proto == IP_PROTO_ICMP then IcmpHandle(h, src, start, plen, polls) else Outcome(h, polls, true)
    case Dropped => Outcome(h, polls, true)
  }

  /** `icmp_handle` on the message of announced length `len` at `start` in `pkt_buf`. At most 64 bytes of
      it are read, so whatever length a header announces the handler stays inside `pkt_buf`. */
  function IcmpHandle(h: Host, src: u32, start: nat, len: u16, polls: Polls): (o: Outcome)
    requires start <= ETH_LEN + 60
    ensures |o.rest| <= |polls|
    decreases |polls|, 4
  {
    if len < ICMP_LEN then Outcome(h, polls, true)
    else if h.pkt[start] == ICMP_ECHO_REQUEST then
      var n := if len > 64 then 64 else len;
      IpSend(h, src, IP_PROTO_ICMP, EchoReply(h.pkt[start..start + n]), polls)
    else if h.pkt[start] == ICMP_ECHO_REPLY then
      Outcome(h.(echo := true, lastSeq := Get16(h.pkt, start + 6)), polls, true)
    else Outcome(h, polls, true)
  }

  /** `icmp_send_echo` */
  function IcmpSendEcho(h: Host, dst: u32, seqNo: u16, polls: Polls): Outcome {
    IpSend(h, dst, IP_PROTO_ICMP, EchoRequest(seqNo), polls)
  }

  /** `udp_send` */
  function UdpSend(h: Host, dst: u32, srcPort: u16, dstPort: u16, data: seq<u8>, polls: Polls): Outcome {
    if |data| > 512 then Outcome(h, polls, false)
    else IpSend(h, dst, IP_PROTO_UDP, UdpDatagram(srcPort, dstPort, data), polls)
  }

  // ---- Elementary actions ----------------------------------------------------------------------

  /** What a host can do between two points where other hosts may act: take in one frame, broadcast an ARP
      request, or emit one IP frame to an address it can resolve. */
  datatype Action = TakeIn(frame: Frame) | AskFor(target: u32) | SendTo(dst: u32, proto: u8, payload: seq<u8>)

  /** The effect of taking in one frame, the answer to an echo request excepted: that is a `SendTo`. */
  function TakeInEffect(h: Host, frame: Frame): Host {
    var r := Received(h, frame);
    if |frame| < ETH_LEN then r
    else if Get16(r.pkt, 12) == ETH_TYPE_ARP then ArpHandle(r, |frame| - ETH_LEN)
    else if Get16(r.pkt, 12) == ETH_TYPE_IP then
      match IpDispatch(r.pkt, ETH_LEN, |frame| - ETH_LEN, r.ip)
      case Delivered(proto, _, start, plen) =>
        if proto == IP_PROTO_ICMP && plen >= ICMP_LEN && r.pkt[start] == ICMP_ECHO_REPLY
        then r.(echo := true, lastSeq := Get16(r.pkt, start + 6)) else r
      case Dropped => r
    else r
  }

  function Act(h: Host, a: Action): Host {
    match a
    case TakeIn(frame) => TakeInEffect(h, frame)
    case AskFor(target) => Ask(h, target)
    case SendTo(dst, proto, payload) =>
      if |payload| > MAX_PAYLOAD then h
      else match Resolve(h, dst)
           case Some(to) => Transmit(h, to, dst, proto, payload)
           case None => h
  }

  function ActAll(h: Host, actions: seq<Action>): Host
    decreases |actions|
  {
    if actions == [] then h else ActAll(Act(h, actions[0]), actions[1..])
  }

  lemma {:induction false} ActAllAppend(h: Host, xs: seq<Action>, ys: seq<Action>)
    ensures ActAll(h, xs + ys) == ActAll(ActAll(h, xs), ys)
    decreases |xs|
  {
    if xs == [] {
      assert xs + ys == ys;
    } else {
      ActAllAppend(Act(h, xs[0]), xs[1..], ys);
      assert (xs + ys)[1..] == xs[1..] + ys;
    }
  }

  /** The frames a run takes in, in order. */
  function Taken(run: seq<Action>): seq<Frame> {
    if run == [] then [] else TakenBy(run[0]) + Taken(run[1..])
  }

  function TakenBy(a: Action): seq<Frame> {
    if a.TakeIn? then [a.frame] else []
  }

  /** The frames among the polls, in order. */
  function Polled(polls: Polls): seq<Frame> {
    if polls == [] then [] else FrameOf(polls[0]) + Polled(polls[1..])
  }

  function FrameOf(poll: Option<Frame>): seq<Frame> {
    if poll.Some? then [poll.value] else []
  }

  lemma AppendAssociates<T>(a: seq<T>, b: seq<T>, c: seq<T>)
    ensures a + (b + c) == (a + b) + c
  {
  }

  lemma {:induction false} TakenAppend(xs: seq<Action>, ys: seq<Action>)
    ensures Taken(xs + ys) == Taken(xs) + Taken(ys)
  {
    if xs == [] {
      assert xs + ys == ys;
    } else {
      TakenAppend(xs[1..], ys);
      assert (xs + ys)[0] == xs[0] && (xs + ys)[1..] == xs[1..] + ys;
      AppendAssociates(TakenBy(xs[0]), Taken(xs[1..]), Taken(ys));
    }
  }

  lemma {:induction false} PolledAppend(xs: Polls, ys: Polls)
    ensures Polled(xs + ys) == Polled(xs) + Polled(ys)
  {
    if xs == [] {
      assert xs + ys == ys;
    } else {
      PolledAppend(xs[1..], ys);
      assert (xs + ys)[0] == xs[0] && (xs + ys)[1..] == xs[1..] + ys;
      AppendAssociates(FrameOf(xs[0]), Polled(xs[1..]), Polled(ys));
    }
  }

  lemma ActAllOne(h: Host, a: Action)
    ensures ActAll(h, [a]) == Act(h, a)
    ensures Taken([a]) == TakenBy(a)
  {
    assert [a][1..] == [];
  }

  /** One run after another. */
  lemma RunAppend(h: Host, xs: seq<Action>, ys: seq<Action>)
    ensures ActAll(h, xs + ys) == ActAll(ActAll(h, xs), ys)
    ensures Taken(xs + ys) == Taken(xs) + Taken(ys)
  {
    ActAllAppend(h, xs, ys);
    TakenAppend(xs, ys);
  }

  /** Every call of the host's code, nested polls and all, is a run of elementary actions that takes in exactly
      the frames of the polls it uses up, each once and in order: so a network of hosts interleaving elementary
      actions covers every interleaving of the real calls. */
  lemma {:induction false} IpSendIsRun(h: Host, dst: u32, proto: u8, payload: seq<u8>, polls: Polls)
    returns (run: seq<Action>, used: Polls)
    requires |payload| <= MAX_PAYLOAD
    ensures ActAll(h, run) == IpSend(h, dst, proto, payload, polls).host
    ensures polls == used + IpSend(h, dst, proto, payload, polls).rest && Taken(run) == Polled(used)
    decreases |polls|, 3
  {
    var send := SendTo(dst, proto, payload);
    if Resolve(h, dst).Some? {
      run, used := [send], [];
      ActAllOne(h, send);
    } else {
      var w;
      w, used := AwaitIsRun(Ask(h, dst), dst, polls, WAIT);
      run := [AskFor(dst)] + w;
      assert run[1..] == w;
      var after := ActAll(h, run);
      if Lookup(after.cache, dst).Some? {
        RunAppend(h, run, [send]);
        ActAllOne(after, send);
        run := run + [send];
      }
    }
  }

  lemma UsedAppend(polls: Polls, used: Polls, more: Polls, left: Polls, rest: Polls)
    requires polls == used + left && left == more + rest
    ensures polls == used + more + rest && Polled(used + more) == Polled(used) + Polled(more)
  {
    PolledAppend(used, more);
  }

  lemma {:induction false} AwaitIsRun(h: Host, dst: u32, polls: Polls, wait: nat) returns (run: seq<Action>, used: Polls)
    ensures ActAll(h, run) == Await(h, dst, polls, wait).host
    ensures polls == used + Await(h, dst, polls, wait).rest && Taken(run) == Polled(used)
    decreases |polls|, 2, wait
  {
    if wait == 0 {
      run, used := [], [];
    } else {
      run, used := NetPollIsRun(h, polls);
      var p := NetPoll(h, polls);
      if Lookup(p.host.cache, dst).None? {
        var more, usedMore := AwaitIsRun(p.host, dst, p.rest, wait - 1);
        RunAppend(h, run, more);
        UsedAppend(polls, used, usedMore, p.rest, Await(p.host, dst, p.rest, wait - 1).rest);
        run, used := run + more, used + usedMore;
      }
    }
  }

  /** One poll that found a frame, those its handling used up, and the ones after that. */
  lemma UsedUp(polls: Polls, f: Frame, used: Polls, more: Polls, rest: Polls)
    requires polls != [] && polls[0] == Some(f) && polls[1..] == used + (more + rest)
    ensures polls == [Some(f)] + used + more + rest
    ensures Polled([Some(f)] + used + more) == [f] + Polled(used) + Polled(more)
  {
    assert polls == [polls[0]] + polls[1..];
    PolledAppend([Some(f)] + used, more);
    assert ([Some(f)] + used)[1..] == used;
  }

  lemma {:induction false} NetPollIsRun(h: Host, polls: Polls) returns (run: seq<Action>, used: Polls)
    ensures ActAll(h, run) == NetPoll(h, polls).host
    ensures polls == used + NetPoll(h, polls).rest && Taken(run) == Polled(used)
    decreases |polls|, 1
  {
    if polls == [] {
      run, used := [], [];
    } else if polls[0].None? {
      run, used := [], [None];
    } else {
      var f := polls[0].value;
      run, used := EthProcessIsRun(h, f, polls[1..]);
      var e := EthProcess(Received(h, f), |f|, polls[1..]);
      var more, usedMore := NetPollIsRun(e.host, e.rest);
      RunAppend(h, run, more);
      UsedUp(polls, f, used, usedMore, NetPoll(e.host, e.rest).rest);
      run, used := run + more, [Some(f)] + used + usedMore;
    }
  }

  datatype Answer = Answer(dst: u32, message: seq<u8>)

  /** The echo reply the host sends to the first `len` bytes of `pkt_buf`, if they are a request to it. */
  function AnswerTo(h: Host, len: u16): (a: Option<Answer>)
    ensures a.Some? ==> |a.value.message| <= MAX_PAYLOAD
  {
    if len < ETH_LEN || Get16(h.pkt, 12) != ETH_TYPE_IP then None
    else
      match IpDispatch(h.pkt, ETH_LEN, len - ETH_LEN, h.ip)
      case Delivered(proto, src, start, plen) =>
        if proto == IP_PROTO_ICMP && plen >= ICMP_LEN && h.pkt[start] == ICMP_ECHO_REQUEST then
          var n := if plen > 64 then 64 else plen;
          Some(Answer(src, EchoReply(h.pkt[start..start + n])))
        else None
      case Dropped => None
  }

  /** Handling a frame is taking it in and sending the answer, if there is one. */
  lemma EthProcessSplits(h: Host, f: Frame, polls: Polls)
    ensures var r, o := Received(h, f), EthProcess(Received(h, f), |f|, polls);
            match AnswerTo(r, |f|)
            case Some(a) => Act(h, TakeIn(f)) == r && o == IpSend(r, a.dst, IP_PROTO_ICMP, a.message, polls)
            case None => o.host == Act(h, TakeIn(f)) && o.rest == polls
  {
    var r := Received(h, f);
    if |f| >= ETH_LEN && Get16(r.pkt, 12) == ETH_TYPE_IP {
      assert EthProcess(r, |f|, polls) == IpHandle(r, |f| - ETH_LEN, polls);
      match IpDispatch(r.pkt, ETH_LEN, |f| - ETH_LEN, r.ip) {
        case Delivered(proto, src, start, len) =>
          if proto == IP_PROTO_ICMP {
            assert IpHandle(r, |f| - ETH_LEN, polls) == IcmpHandle(r, src, start, len, polls);
          }
        case Dropped =>
      }
    }
  }

  /** With nothing but frames to find, `net_poll` finds them all. */
  lemma {:induction false} NetPollFindsAll(h: Host, polls: Polls)
    requires forall i :: 0 <= i < |polls| ==> polls[i].Some?
    ensures NetPoll(h, polls).rest == []
    decreases |polls|
  {
    if polls != [] {
      var f := polls[0].value;
      var run, used := EthProcessIsRun(h, f, polls[1..]);
      var e := EthProcess(Received(h, f), |f|, polls[1..]);
      forall i | 0 <= i < |e.rest|
        ensures e.rest[i].Some?
      {
        assert e.rest[i] == polls[1..][|used| + i];
      }
      NetPollFindsAll(e.host, e.rest);
    }
  }

  lemma {:induction false} EthProcessIsRun(h: Host, f: Frame, polls: Polls) returns (run: seq<Action>, used: Polls)
    ensures ActAll(h, run) == EthProcess(Received(h, f), |f|, polls).host
    ensures polls == used + EthProcess(Received(h, f), |f|, polls).rest && Taken(run) == [f] + Polled(used)
    decreases |polls|, 6
  {
    run, used := [TakeIn(f)], [];
    ActAllOne(h, TakeIn(f));
    EthProcessSplits(h, f, polls);
    var answer := AnswerTo(Received(h, f), |f|);
    if answer.Some? {
      var more, usedMore := IpSendIsRun(Received(h, f), answer.value.dst, IP_PROTO_ICMP, answer.value.message, polls);
      RunAppend(h, run, more);
      run, used := run + more, usedMore;
    }
  }
}
