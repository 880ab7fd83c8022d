/** A whole `ip_send`, poll by poll: how long it waits for an address, what it sends and which polls it
    leaves alone. Numbers and bytes are those on the wire. */
module Waiting {
  import opened Bytes
  import opened ArpCache
  import opened Frames
  import opened HostSpec

  const ALL_ONES: Mac := [255, 255, 255, 255, 255, 255]
  const ALL_ZERO: Mac := [0, 0, 0, 0, 0, 0]

  /** `k` polls that find nothing. */
  function Quiet(k: nat): Polls {
    seq(k, _ => None)
  }

  lemma QuietHead(k: nat, later: Polls)
    requires k > 0
    ensures (Quiet(k) + later)[0] == None && (Quiet(k) + later)[1..] == Quiet(k - 1) + later
  {
  }

  /** A poll that finds nothing uses up one turn of the wait and nothing else. */
  lemma {:induction false} QuietPolls(h: Host, dst: u32, k: nat, later: Polls, wait: nat)
    requires Lookup(h.cache, dst) == None && k <= wait
    ensures Await(h, dst, Quiet(k) + later, wait) == Await(h, dst, later, wait - k)
    decreases k
  {
    if k == 0 {
      assert Quiet(0) + later == later;
    } else {
      QuietHead(k, later);
      assert NetPoll(h, Quiet(k) + later) == Outcome(h, Quiet(k - 1) + later, true);
      QuietPolls(h, dst, k - 1, later, wait - 1);
    }
  }

  /** `f` is an ARP reply that says `dst` has the address `mac`. */
  ghost predicate Answers(f: Frame, dst: u32, mac: Mac) {
    exists to, tha, tpa :: ArpFrame(to, 2, mac, dst, tha, tpa) <= f
  }

  lemma AnswerIsLearned(h: Host, f: Frame, dst: u32, mac: Mac, polls: Polls)
    requires Answers(f, dst, mac)
    ensures EthProcess(Received(h, f), |f|, polls) == Outcome(Received(h, f).(cache := Insert(h.cache, dst, mac)), polls, true)
  {
    var to, tha, tpa :| ArpFrame(to, 2, mac, dst, tha, tpa) <= f;
    var r := Received(h, f);
    ArpFields(r.pkt, to, 2, mac, dst, tha, tpa);
    assert EthProcess(r, |f|, polls) == Outcome(ArpHandle(r, |f| - ETH_LEN), polls, true);
  }

  /** What is left of the polls once a frame was found and the next poll found nothing. */
  function AfterQuiet(later: Polls): Polls {
    if later == [] then [] else later[1..]
  }

  lemma AnswerPolled(h: Host, f: Frame, dst: u32, mac: Mac, later: Polls)
    requires Answers(f, dst, mac) && (later == [] || later[0] == None)
    ensures NetPoll(h, [Some(f)] + later) ==
            Outcome(Received(h, f).(cache := Insert(h.cache, dst, mac)), AfterQuiet(later), true)
  {
    AnswerIsLearned(h, f, dst, mac, later);
    assert ([Some(f)] + later)[1..] == later;
  }

  /** The wait ends with the answer, and the address is then known. */
  lemma AnswerEndsWait(h: Host, f: Frame, dst: u32, mac: Mac, later: Polls, wait: nat)
    requires Answers(f, dst, mac) && (later == [] || later[0] == None) && wait > 0
    ensures var known := Received(h, f).(cache := Insert(h.cache, dst, mac));
            Await(h, dst, [Some(f)] + later, wait) == Outcome(known, AfterQuiet(later), true) && Lookup(known.cache, dst) == Some(mac)
  {
    AnswerPolled(h, f, dst, mac, later);
    LatestBindingHits(h.cache, dst, mac);
  }

  lemma AnsweredInTime(h: Host, dst: u32, k: nat, wait: nat, f: Frame, mac: Mac, later: Polls)
    requires Lookup(h.cache, dst) == None && k < wait && Answers(f, dst, mac) && (later == [] || later[0] == None)
    ensures var known := Received(h, f).(cache := Insert(h.cache, dst, mac));
            && Await(h, dst, Quiet(k) + ([Some(f)] + later), wait) == Outcome(known, AfterQuiet(later), true)
            && Lookup(known.cache, dst) == Some(mac)
  {
    QuietPolls(h, dst, k, [Some(f)] + later, wait);
    AnswerEndsWait(h, f, dst, mac, later, wait - k);
  }

  /** Up to 499999 polls that find nothing, then the answer: the request and the packet, addressed to the
      answering interface, are sent, the call succeeds, and every later poll is left alone. */
  lemma SendsAfterQuietPolls(h: Host, dst: u32, proto: u8, payload: seq<u8>, k: nat, f: Frame, mac: Mac, later: Polls)
    requires h.nic && dst != 0xFFFF_FFFF && Lookup(h.cache, dst) == None && |payload| <= 1466
    requires k < 500_000 && Answers(f, dst, mac) && (later == [] || later[0] == None)
    ensures var o := IpSend(h, dst, proto, payload, Quiet(k) + ([Some(f)] + later));
            && o.ok && o.rest == AfterQuiet(later)
            && o.host.sent == h.sent + [ArpFrame(ALL_ONES, 1, h.mac, h.ip, ALL_ZERO, dst)]
                                     + [IpFrame(mac, h.mac, h.ip, dst, proto, payload)]
  {
    AnsweredInTime(Ask(h, dst), dst, k, WAIT, f, mac, later);
  }

  /** After 500000 polls that find nothing the call fails; only the request was sent, and every later poll is
      left alone. */
  lemma GivesUpAfterQuietPolls(h: Host, dst: u32, proto: u8, payload: seq<u8>, later: Polls)
    requires h.nic && dst != 0xFFFF_FFFF && Lookup(h.cache, dst) == None && |payload| <= 1466
    ensures IpSend(h, dst, proto, payload, Quiet(500_000) + later)
         == Outcome(h.(sent := h.sent + [ArpFrame(ALL_ONES, 1, h.mac, h.ip, ALL_ZERO, dst)]), later, false)
  {
    QuietPolls(Ask(h, dst), dst, 500_000, later, 500_000);
  }

  /** A packet to 255.255.255.255 goes out at once, to the address of six 0xFF bytes; no address is looked up
      and no poll made. */
  lemma BroadcastIsSentAtOnce(h: Host, proto: u8, payload: seq<u8>, polls: Polls)
    requires h.nic && |payload| <= 1466
    ensures IpSend(h, 0xFFFF_FFFF, proto, payload, polls)
         == Outcome(h.(sent := h.sent + [IpFrame(ALL_ONES, h.mac, h.ip, 0xFFFF_FFFF, proto, payload)]), polls, true)
  {
  }

  /** So does a packet to an address in the cache, to the MAC found there. */
  lemma KnownIsSentAtOnce(h: Host, dst: u32, mac: Mac, proto: u8, payload: seq<u8>, polls: Polls)
    requires h.nic && dst != 0xFFFF_FFFF && Lookup(h.cache, dst) == Some(mac) && |payload| <= 1466
    ensures IpSend(h, dst, proto, payload, polls)
         == Outcome(h.(sent := h.sent + [IpFrame(mac, h.mac, h.ip, dst, proto, payload)]), polls, true)
  {
  }

  lemma {:induction false} SilentRun(h: Host, actions: seq<Action>)
    requires !h.nic
    ensures ActAll(h, actions).sent == h.sent
    decreases |actions|
  {
    if actions != [] {
      SilentRun(Act(h, actions[0]), actions[1..]);
    }
  }

  /** Without a card nothing is ever sent, and every `ip_send` fails. */
  lemma NothingSentWithoutCard(h: Host, dst: u32, proto: u8, payload: seq<u8>, polls: Polls)
    requires !h.nic && |payload| <= 1466
    ensures var o := IpSend(h, dst, proto, payload, polls); !o.ok && o.host.sent == h.sent
  {
    var run, used := IpSendIsRun(h, dst, proto, payload, polls);
    SilentRun(h, run);
    if Resolve(h, dst) == None {
      var waited, usedWaiting := AwaitIsRun(Ask(h, dst), dst, polls, WAIT);
      CardStays(Ask(h, dst), waited);
    }
  }

  lemma {:induction false} CardStays(h: Host, actions: seq<Action>)
    ensures ActAll(h, actions).nic == h.nic
    decreases |actions|
  {
    if actions != [] {
      CardStays(Act(h, actions[0]), actions[1..]);
    }
  }
}
