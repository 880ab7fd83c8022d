/** Any number of hosts running the code on one wire. A frame once sent may arrive never, once or many
    times, at any host, in any order, and with any padding behind it. */
module Network {
  import opened Bytes
  import opened ArpCache
  import opened Frames
  import opened HostSpec

  type Net = seq<Host>

  ghost predicate DistinctIps(n: Net) {
    forall i, j :: 0 <= i < j < |n| ==> n[i].ip != n[j].ip
  }

  ghost predicate Initial(n: Net) {
    DistinctIps(n) && forall i :: 0 <= i < |n| ==> n[i].sent == [] && Empty(n[i].cache)
  }

  /** `f` is a frame some host has sent, with padding. */
  ghost predicate OnWire(n: Net, f: Frame) {
    exists j, k :: 0 <= j < |n| && 0 <= k < |n[j].sent| && n[j].sent[k] <= f
  }

  ghost predicate Enabled(n: Net, a: Action) {
    a.TakeIn? ==> OnWire(n, a.frame)
  }

  ghost predicate Step(n: Net, n': Net) {
    exists i, a :: 0 <= i < |n| && Enabled(n, a) && n' == n[i := Act(n[i], a)]
  }

  ghost predicate Run(trace: seq<Net>) {
    && trace != [] && Initial(trace[0])
    && forall k :: 0 <= k < |trace| - 1 ==> Step(trace[k], trace[k + 1])
  }

  /** Some host owns `ip`, and every host that does has the address `mac`. */
  ghost predicate TrueBinding(n: Net, ip: u32, mac: Mac) {
    && (exists j :: 0 <= j < |n| && n[j].ip == ip)
    && (forall j :: 0 <= j < |n| && n[j].ip == ip ==> n[j].mac == mac)
  }

  // ---- Safety ----------------------------------------------------------------------------------

  /** An ARP packet states a true binding of its sender. */
  ghost predicate TruthfulArp(n: Net, g: seq<u8>) {
    |g| >= ETH_LEN + ARP_LEN && Get16(g, 12) == ETH_TYPE_ARP ==> TrueBinding(n, Get32(g, 28), g[22..28])
  }

  /** An IP frame to one host is addressed to the interface of the host that owns its destination. */
  ghost predicate WellAddressed(n: Net, g: seq<u8>) {
    |g| >= ETH_LEN + IP_LEN && Get16(g, 12) == ETH_TYPE_IP && Get32(g, 30) != BROADCAST_IP ==>
      TrueBinding(n, Get32(g, 30), g[..6])
  }

  ghost predicate TrueCache(n: Net, c: Cache) {
    forall s :: 0 <= s < CACHE_SIZE && c[s].valid ==> TrueBinding(n, c[s].ip, c[s].mac)
  }

  ghost predicate Safe(n: Net) {
    forall i :: 0 <= i < |n| ==>
      && TrueCache(n, n[i].cache)
      && forall k :: 0 <= k < |n[i].sent| ==> TruthfulArp(n, n[i].sent[k]) && WellAddressed(n, n[i].sent[k])
  }

  // ---- The inductive invariant -----------------------------------------------------------------

  ghost predicate IsArpOf(h: Host, g: seq<u8>) {
    exists dst, oper, tha, tpa :: g == ArpFrame(dst, oper, h.mac, h.ip, tha, tpa)
  }

  ghost predicate IsIpOf(n: Net, h: Host, g: seq<u8>) {
    exists to, dst, proto, payload ::
      |payload| <= MAX_PAYLOAD && g == IpFrame(to, h.mac, h.ip, dst, proto, payload) && (dst == BROADCAST_IP || TrueBinding(n, dst, to))
  }

  ghost predicate Genuine(n: Net, h: Host, g: seq<u8>) {
    IsArpOf(h, g) || IsIpOf(n, h, g)
  }

  ghost predicate GoodHost(n: Net, h: Host) {
    TrueCache(n, h.cache) && forall k :: 0 <= k < |h.sent| ==> Genuine(n, h, h.sent[k])
  }

  ghost predicate Inv(n: Net) {
    DistinctIps(n) && forall i :: 0 <= i < |n| ==> GoodHost(n, n[i])
  }

  lemma InitialInv(n: Net)
    requires Initial(n)
    ensures Inv(n)
  {
  }

  lemma {:induction false} LookupEntry(c: Cache, ip: u32, i: nat)
    requires i <= CACHE_SIZE && LookupFrom(c, ip, i).Some?
    ensures exists s :: 0 <= s < CACHE_SIZE && c[s].valid && c[s].ip == ip && c[s].mac == LookupFrom(c, ip, i).value
    decreases CACHE_SIZE - i
  {
    if !(c[i].valid && c[i].ip == ip) {
      LookupEntry(c, ip, i + 1);
    }
  }

  lemma OwnBinding(n: Net, i: nat)
    requires DistinctIps(n) && i < |n|
    ensures TrueBinding(n, n[i].ip, n[i].mac)
  {
  }

  /** `f` is a frame some host of the network may send, now or later, with padding. */
  ghost predicate Credible(n: Net, f: Frame) {
    exists j, g :: 0 <= j < |n| && Genuine(n, n[j], g) && g <= f
  }

  /** Whatever a host finds on the wire while others go on is credible already before. */
  lemma OnWireIsCredible(n: Net, m: Net, f: Frame)
    requires SameAddresses(n, m) && Inv(m) && OnWire(m, f)
    ensures Credible(n, f)
  {
    var j, k :| 0 <= j < |m| && 0 <= k < |m[j].sent| && m[j].sent[k] <= f;
    assert GoodHost(m, m[j]);
    GenuineStays(m, n, m[j], n[j], m[j].sent[k]);
  }

  /** A credible ARP packet names its true sender. */
  lemma CredibleArpIsTrue(n: Net, f: Frame, pkt: seq<u8>)
    requires DistinctIps(n) && Credible(n, f) && f <= pkt
    requires |f| >= ETH_LEN + ARP_LEN && Get16(pkt, 12) == ETH_TYPE_ARP
    ensures TrueBinding(n, Get32(pkt, 28), pkt[22..28])
  {
    var j, g :| 0 <= j < |n| && Genuine(n, n[j], g) && g <= f;
    assert g <= pkt;
    if IsIpOf(n, n[j], g) {
      var to, dst, proto, payload :| |payload| <= MAX_PAYLOAD && g == IpFrame(to, n[j].mac, n[j].ip, dst, proto, payload);
      IpFields(pkt, to, n[j].mac, n[j].ip, dst, proto, payload);
    } else {
      var dst, oper, tha, tpa :| g == ArpFrame(dst, oper, n[j].mac, n[j].ip, tha, tpa);
      ArpFields(pkt, dst, oper, n[j].mac, n[j].ip, tha, tpa);
      OwnBinding(n, j);
    }
  }

  lemma InsertKeepsTrue(n: Net, c: Cache, ip: u32, mac: Mac)
    requires TrueCache(n, c) && TrueBinding(n, ip, mac)
    ensures TrueCache(n, Insert(c, ip, mac))
  {
  }

  lemma TakeInKeepsHost(n: Net, h: Host, f: Frame)
    requires DistinctIps(n) && GoodHost(n, h) && Credible(n, f)
    ensures GoodHost(n, TakeInEffect(h, f))
  {
    var r, h' := Received(h, f), TakeInEffect(h, f);
    if |f| >= ETH_LEN + ARP_LEN && Get16(r.pkt, 12) == ETH_TYPE_ARP {
      CredibleArpIsTrue(n, f, r.pkt);
      var sha: Mac, spa := r.pkt[22..28], Get32(r.pkt, 28);
      InsertKeepsTrue(n, h.cache, spa, sha);
      assert IsArpOf(h, ArpFrame(sha, ARP_OP_REPLY, h.mac, h.ip, sha, spa));
      SentOneMore(n, h, h', ArpFrame(sha, ARP_OP_REPLY, h.mac, h.ip, sha, spa));
    } else {
      assert h'.sent == h.sent && h'.cache == h.cache;
      SentOneMore(n, h, h', []);
    }
  }

  lemma SentOneMore(n: Net, h: Host, h': Host, g: seq<u8>)
    requires GoodHost(n, h) && h'.mac == h.mac && h'.ip == h.ip
    requires h'.sent == h.sent || (h'.sent == h.sent + [g] && Genuine(n, h, g))
    ensures forall k :: 0 <= k < |h'.sent| ==> Genuine(n, h', h'.sent[k])
  {
    forall k | 0 <= k < |h'.sent|
      ensures Genuine(n, h', h'.sent[k])
    {
      if k < |h.sent| {
        assert h'.sent[k] == h.sent[k];
      }
      GenuineStays(n, n, h, h', h'.sent[k]);
    }
  }

  lemma ResolvesTrue(n: Net, h: Host, dst: u32)
    requires GoodHost(n, h) && Resolve(h, dst).Some? && dst != BROADCAST_IP
    ensures TrueBinding(n, dst, Resolve(h, dst).value)
  {
    LookupEntry(h.cache, dst, 0);
  }

  lemma SendKeepsHost(n: Net, h: Host, dst: u32, proto: u8, payload: seq<u8>)
    requires GoodHost(n, h) && |payload| <= MAX_PAYLOAD && Resolve(h, dst).Some?
    ensures GoodHost(n, Transmit(h, Resolve(h, dst).value, dst, proto, payload))
  {
    var to := Resolve(h, dst).value;
    if dst != BROADCAST_IP {
      ResolvesTrue(n, h, dst);
    }
    var g := IpFrame(to, h.mac, h.ip, dst, proto, payload);
    assert IsIpOf(n, h, g);
    SentOneMore(n, h, Transmit(h, to, dst, proto, payload), g);
  }

  /** One action leaves the acting host good and its addresses as they were. */
  lemma ActKeepsHost(n: Net, h: Host, a: Action)
    requires DistinctIps(n) && GoodHost(n, h) && (a.TakeIn? ==> Credible(n, a.frame))
    ensures GoodHost(n, Act(h, a)) && Act(h, a).ip == h.ip && Act(h, a).mac == h.mac
  {
    match a {
      case TakeIn(f) =>
        TakeInKeepsHost(n, h, f);
      case AskFor(target) =>
        var g := ArpFrame(BROADCAST_MAC, ARP_OP_REQ, h.mac, h.ip, ZERO_MAC, target);
        assert IsArpOf(h, g);
        SentOneMore(n, h, Ask(h, target), g);
      case SendTo(dst, proto, payload) =>
        if |payload| <= MAX_PAYLOAD && Resolve(h, dst).Some? {
          SendKeepsHost(n, h, dst, proto, payload);
        }
    }
  }

  lemma GenuineStays(n: Net, n': Net, h: Host, h': Host, g: seq<u8>)
    requires SameAddresses(n, n') && h.mac == h'.mac && h.ip == h'.ip && Genuine(n, h, g)
    ensures Genuine(n', h', g)
  {
    if IsArpOf(h, g) {
      var dst, oper, tha, tpa :| g == ArpFrame(dst, oper, h.mac, h.ip, tha, tpa);
      assert IsArpOf(h', g);
    } else {
      var to, dst, proto, payload :|
        |payload| <= MAX_PAYLOAD && g == IpFrame(to, h.mac, h.ip, dst, proto, payload) && (dst == BROADCAST_IP || TrueBinding(n, dst, to));
      assert dst == BROADCAST_IP || TrueBinding(n', dst, to);
      assert IsIpOf(n', h', g);
    }
  }

  ghost predicate SameAddresses(n: Net, n': Net) {
    |n| == |n'| && forall i :: 0 <= i < |n| ==> n[i].ip == n'[i].ip && n[i].mac == n'[i].mac
  }

  lemma GoodHostStays(n: Net, n': Net, h: Host)
    requires SameAddresses(n, n') && GoodHost(n, h)
    ensures GoodHost(n', h)
  {
    forall k | 0 <= k < |h.sent|
      ensures Genuine(n', h, h.sent[k])
    {
      GenuineStays(n, n', h, h, h.sent[k]);
    }
    forall s | 0 <= s < CACHE_SIZE && h.cache[s].valid
      ensures TrueBinding(n', h.cache[s].ip, h.cache[s].mac)
    {
      assert TrueBinding(n, h.cache[s].ip, h.cache[s].mac);
    }
  }

  lemma ActKeepsInv(n: Net, i: nat, a: Action)
    requires Inv(n) && i < |n| && Enabled(n, a)
    ensures Inv(n[i := Act(n[i], a)])
  {
    if a.TakeIn? { OnWireIsCredible(n, n, a.frame); }
    ActKeepsHost(n, n[i], a);
    HostFits(n, n, i, Act(n[i], a));
  }

  lemma InvIsSafe(n: Net)
    requires Inv(n)
    ensures Safe(n)
  {
    forall i, k | 0 <= i < |n| && 0 <= k < |n[i].sent|
      ensures TruthfulArp(n, n[i].sent[k]) && WellAddressed(n, n[i].sent[k])
    {
      var h, g := n[i], n[i].sent[k];
      assert Genuine(n, h, g);
      if IsArpOf(h, g) {
        var dst, oper, tha, tpa :| g == ArpFrame(dst, oper, h.mac, h.ip, tha, tpa);
        ArpFields(g, dst, oper, h.mac, h.ip, tha, tpa);
        OwnBinding(n, i);
      } else {
        var to, dst, proto, payload :|
          |payload| <= MAX_PAYLOAD && g == IpFrame(to, h.mac, h.ip, dst, proto, payload) && (dst == BROADCAST_IP || TrueBinding(n, dst, to));
        IpFields(g, to, h.mac, h.ip, dst, proto, payload);
      }
    }
  }

  /** ARP safety: in every state of every run, with frames lost, duplicated, reordered and padded, every
      ARP packet on the wire and every cache entry is a true binding, and every IP frame sent to a single
      address carries the MAC of the host that owns it. */
  lemma {:induction false} EveryRunIsSafe(trace: seq<Net>)
    requires Run(trace)
    ensures Inv(trace[|trace| - 1]) && Safe(trace[|trace| - 1])
    decreases |trace|
  {
    if |trace| == 1 {
      InitialInv(trace[0]);
    } else {
      var m := |trace| - 2;
      EveryRunIsSafe(trace[..m + 1]);
      assert Step(trace[m], trace[m + 1]);
      var i, a :| 0 <= i < |trace[m]| && Enabled(trace[m], a) && trace[m + 1] == trace[m][i := Act(trace[m][i], a)];
      ActKeepsInv(trace[m], i, a);
    }
    InvIsSafe(trace[|trace| - 1]);
  }

  // ---- Whole calls -----------------------------------------------------------------------------

  lemma {:induction false} RunKeepsHost(n: Net, h: Host, actions: seq<Action>)
    requires DistinctIps(n) && GoodHost(n, h)
    requires forall f :: f in Taken(actions) ==> Credible(n, f)
    ensures var h' := ActAll(h, actions); GoodHost(n, h') && h'.ip == h.ip && h'.mac == h.mac
    decreases |actions|
  {
    if actions != [] {
      ActKeepsHost(n, h, actions[0]);
      RunKeepsHost(n, Act(h, actions[0]), actions[1..]);
    }
  }

  lemma {:induction false} PolledIn(polls: Polls, f: Frame)
    requires f in Polled(polls)
    ensures Some(f) in polls
  {
    if polls[0] != Some(f) {
      PolledIn(polls[1..], f);
    }
  }

  /** All frames among the polls are credible. */
  ghost predicate CrediblePolls(n: Net, polls: Polls) {
    forall p :: p in polls && p.Some? ==> Credible(n, p.value)
  }

  /** A whole `ip_send` of any host, with everything it handles while it waits for a reply, the answer to its
      own request and whatever else others send meanwhile included: its state fits every state `m` the
      network has got to by then, and what it sent to a single address goes to that address's owner. */
  lemma IpSendIsSafe(n: Net, m: Net, i: nat, dst: u32, proto: u8, payload: seq<u8>, polls: Polls)
    requires Inv(n) && i < |n| && |payload| <= MAX_PAYLOAD && CrediblePolls(n, polls)
    requires SameAddresses(n, m) && Inv(m)
    ensures var o := IpSend(n[i], dst, proto, payload, polls);
            && Inv(m[i := o.host])
            && (o.ok && dst != BROADCAST_IP ==>
                  exists to :: TrueBinding(n, dst, to) && o.host.sent != []
                               && o.host.sent[|o.host.sent| - 1] == IpFrame(to, n[i].mac, n[i].ip, dst, proto, payload))
  {
    var o := IpSend(n[i], dst, proto, payload, polls);
    var run, used := IpSendIsRun(n[i], dst, proto, payload, polls);
    UsedAreCredible(n, polls, used, o.rest);
    RunKeepsHost(n, n[i], run);
    HostFits(n, m, i, o.host);
    if o.ok && dst != BROADCAST_IP {
      if Lookup(n[i].cache, dst).Some? {
        ResolvesTrue(n, n[i], dst);
      } else {
        AwaitedIsTrue(n, n[i], dst, polls, WAIT);
      }
    }
  }

  lemma UsedAreCredible(n: Net, polls: Polls, used: Polls, rest: Polls)
    requires CrediblePolls(n, polls) && polls == used + rest
    ensures forall f :: f in Polled(used) ==> Credible(n, f)
  {
    forall f | f in Polled(used)
      ensures Credible(n, f)
    {
      PolledIn(used, f);
      assert Some(f) in polls;
    }
  }

  lemma HostFits(n: Net, m: Net, i: nat, h: Host)
    requires SameAddresses(n, m) && Inv(m) && i < |n| && GoodHost(n, h) && h.ip == n[i].ip && h.mac == n[i].mac
    ensures Inv(m[i := h])
  {
    var m' := m[i := h];
    forall j | 0 <= j < |m'|
      ensures GoodHost(m', m'[j])
    {
      if j == i {
        GoodHostStays(n, m', h);
      } else {
        GoodHostStays(m, m', m[j]);
      }
    }
  }

  /** What the waiting loop of `ip_send` found is the address of the destination's owner. */
  lemma AwaitedIsTrue(n: Net, h: Host, dst: u32, polls: Polls, wait: nat)
    requires DistinctIps(n) && GoodHost(n, h) && dst != BROADCAST_IP && CrediblePolls(n, polls)
    ensures var w := Await(Ask(h, dst), dst, polls, wait).host;
            && w.ip == h.ip && w.mac == h.mac
            && (Lookup(w.cache, dst).Some? ==> TrueBinding(n, dst, Lookup(w.cache, dst).value))
  {
    var w := Await(Ask(h, dst), dst, polls, wait);
    ActKeepsHost(n, h, AskFor(dst));
    var run, used := AwaitIsRun(Ask(h, dst), dst, polls, wait);
    UsedAreCredible(n, polls, used, w.rest);
    RunKeepsHost(n, Ask(h, dst), run);
    if Lookup(w.host.cache, dst).Some? {
      ResolvesTrue(n, w.host, dst);
    }
  }
}
