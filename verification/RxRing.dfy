/** The receive ring shared by the RTL8139 card and the driver (`rtl_recv` and the loop of `net_poll`).

    The card appends records (4-byte header, frame, 4-byte CRC, padded to a DWORD) and the driver
    consumes them, both modulo the size of the driver's buffer. */
module RxRing {
  import opened Bytes

  const RX_BUF_SIZE: nat := 32 * 1024 + 16 + 1500
  const MAX_FRAME: nat := 1514

  function Align4(n: nat): (r: nat)
    ensures n <= r < n + 4 && r % 4 == 0
  {
    (n + 3) / 4 * 4
  }

  /** Ring bytes taken by a frame: header, data and CRC, rounded up to a DWORD. */
  function SlotSize(len: nat): nat {
    Align4(len + 8)
  }

  /** The frame length a record's length field announces, 0 for a record the driver rejects. */
  function AcceptedLength(pktLen: u16): nat {
    if 5 <= pktLen <= MAX_FRAME + 4 then pktLen - 4 else 0
  }

  predicate Sendable(frame: seq<u8>) {
    1 <= |frame| <= MAX_FRAME
  }

  // ---- The ring seen as a straight log ---------------------------------------------------------

  /** The ring position `i` bytes past `start`. */
  function Wrap(start: nat, i: nat): nat {
    if start + i < RX_BUF_SIZE then start + i else start + i - RX_BUF_SIZE
  }

  /** The `n` ring bytes from `start` on, unrolled past the end of the buffer. */
  function Unrolled(ring: seq<u8>, start: nat, n: nat): (log: seq<u8>)
    requires |ring| == RX_BUF_SIZE && start < RX_BUF_SIZE && n <= RX_BUF_SIZE
    ensures |log| == n
  {
    seq(n, i requires 0 <= i < n => ring[Wrap(start, i)])
  }

  /** `log` is exactly the records of `frames`, in order; CRC and padding bytes are arbitrary. */
  ghost predicate Encodes(log: seq<u8>, frames: seq<seq<u8>>) {
    if frames == [] then log == []
    else
      var f := frames[0];
      && Sendable(f)
      && SlotSize(|f|) <= |log|
      && Word(log, 2) == |f| + 4
      && log[4..4 + |f|] == f
      && Encodes(log[SlotSize(|f|)..], frames[1..])
  }

  lemma {:induction false} EncodesAppend(log: seq<u8>, frames: seq<seq<u8>>, slot: seq<u8>, f: seq<u8>)
    requires Encodes(log, frames) && Encodes(slot, [f])
    ensures Encodes(log + slot, frames + [f])
  {
    if frames == [] {
      assert log + slot == slot && frames + [f] == [f];
    } else {
      var g := frames[0];
      var n := SlotSize(|g|);
      EncodesAppend(log[n..], frames[1..], slot, f);
      assert (log + slot)[n..] == log[n..] + slot;
      assert (frames + [f])[1..] == frames[1..] + [f];
      assert (log + slot)[4..4 + |g|] == log[4..4 + |g|];
    }
  }

  /** One record on its own. */
  lemma EncodesOne(slot: seq<u8>, f: seq<u8>)
    requires Sendable(f) && |slot| == SlotSize(|f|)
    requires Word(slot, 2) == |f| + 4 && slot[4..4 + |f|] == f
    ensures Encodes(slot, [f])
  {
    assert [f][1..] == [];
    assert slot[SlotSize(|f|)..] == [];
  }

  lemma UnrolledDrop(ring: seq<u8>, start: nat, n: nat, k: nat)
    requires |ring| == RX_BUF_SIZE && start < RX_BUF_SIZE && k <= n <= RX_BUF_SIZE
    requires start + k < 2 * RX_BUF_SIZE
    ensures Unrolled(ring, start, n)[k..] == Unrolled(ring, Wrap(start, k), n - k)
  {
    forall i | 0 <= i < n - k
      ensures Wrap(start, k + i) == Wrap(Wrap(start, k), i)
    {
    }
  }

  /** Overwriting ring bytes from the end of the log on extends the log and keeps what was there. */
  lemma UnrolledExtend(ring: seq<u8>, after: seq<u8>, start: nat, n: nat, at: nat, k: nat)
    requires |ring| == |after| == RX_BUF_SIZE && start < RX_BUF_SIZE && n + k <= RX_BUF_SIZE && at == Wrap(start, n)
    requires forall i :: k <= i < RX_BUF_SIZE ==> after[Wrap(at, i)] == ring[Wrap(at, i)]
    ensures Unrolled(after, start, n + k) == Unrolled(ring, start, n) + Unrolled(after, at, k)
  {
    forall i | 0 <= i < n
      ensures after[Wrap(start, i)] == ring[Wrap(start, i)]
    {
      assert Wrap(at, RX_BUF_SIZE - n + i) == Wrap(start, i);
    }
    forall i | 0 <= i < k
      ensures Wrap(start, n + i) == Wrap(at, i)
    {
    }
  }

  /** `used` unread bytes from `cur` on hold exactly the pending frames. */
  ghost predicate Queued(ring: seq<u8>, cur: nat, used: nat, frames: seq<seq<u8>>)
    requires |ring| == RX_BUF_SIZE && cur < RX_BUF_SIZE
  {
    && used <= RX_BUF_SIZE
    && Encodes(Unrolled(ring, cur, used), frames)
    && (used == 0 <==> frames == [])
  }

  lemma RecordFields(status: u16, f: seq<u8>, crc: seq<u8>)
    requires Sendable(f) && |crc| == 4
    ensures var r := Le16(status) + Le16(|f| + 4) + f + crc;
            |r| == |f| + 8 && Word(r, 2) == |f| + 4 && r[4..4 + |f|] == f
  {
    var r := Le16(status) + Le16(|f| + 4) + f + crc;
    assert r[2..4] == Le16(|f| + 4);
    assert r[2] == r[2..4][0] && r[3] == r[2..4][1];
  }

  lemma RecordEncodes(slot: seq<u8>, record: seq<u8>, f: seq<u8>)
    requires Sendable(f) && |slot| == SlotSize(|f|) && |record| == |f| + 8 && record == slot[..|record|]
    requires Word(record, 2) == |f| + 4 && record[4..4 + |f|] == f
    ensures Encodes(slot, [f])
  {
    assert slot[4..4 + |f|] == record[4..4 + |f|];
    EncodesOne(slot, f);
  }

  lemma SlotStarts(ring: seq<u8>, at: nat, k: nat, record: seq<u8>)
    requires |ring| == RX_BUF_SIZE && at < RX_BUF_SIZE && |record| <= k <= RX_BUF_SIZE
    requires forall j :: 0 <= j < |record| ==> ring[Wrap(at, j)] == record[j]
    ensures record == Unrolled(ring, at, k)[..|record|]
  {
    var slot := Unrolled(ring, at, k);
    assert forall j :: 0 <= j < |record| ==> slot[j] == ring[Wrap(at, j)];
  }

  /** A record written behind the unread bytes, the rest of the ring being kept, joins the queue last. */
  lemma Enqueued(ring: seq<u8>, after: seq<u8>, cur: nat, used: nat, at: nat, frames: seq<seq<u8>>, record: seq<u8>, f: seq<u8>)
    requires |ring| == |after| == RX_BUF_SIZE && cur < RX_BUF_SIZE
    requires Queued(ring, cur, used, frames) && at == Wrap(cur, used)
    requires Sendable(f) && used + SlotSize(|f|) <= RX_BUF_SIZE
    requires |record| == |f| + 8 && Word(record, 2) == |f| + 4 && record[4..4 + |f|] == f
    requires forall j :: 0 <= j < |record| ==> after[Wrap(at, j)] == record[j]
    requires forall j :: |record| <= j < RX_BUF_SIZE ==> after[Wrap(at, j)] == ring[Wrap(at, j)]
    ensures Queued(after, cur, used + SlotSize(|f|), frames + [f])
  {
    var k := SlotSize(|f|);
    var slot := Unrolled(after, at, k);
    SlotStarts(after, at, k, record);
    RecordEncodes(slot, record, f);
    UnrolledExtend(ring, after, cur, used, at, k);
    QueuedGrows(after, cur, used, Unrolled(ring, cur, used), frames, slot, f);
  }

  lemma QueuedGrows(after: seq<u8>, cur: nat, used: nat, log: seq<u8>, frames: seq<seq<u8>>, slot: seq<u8>, f: seq<u8>)
    requires |after| == RX_BUF_SIZE && cur < RX_BUF_SIZE && used + |slot| <= RX_BUF_SIZE
    requires Encodes(log, frames) && Encodes(slot, [f])
    requires Unrolled(after, cur, used + |slot|) == log + slot
    ensures Queued(after, cur, used + |slot|, frames + [f])
  {
    EncodesAppend(log, frames, slot, f);
  }

  /** The oldest record gives its frame's length and bytes, and skipping it leaves the later frames queued. */
  lemma Dequeued(ring: seq<u8>, cur: nat, used: nat, frames: seq<seq<u8>>)
    requires |ring| == RX_BUF_SIZE && cur <= RX_BUF_SIZE - 4
    requires frames != [] && Queued(ring, cur, used, frames)
    ensures var f := frames[0];
            && Sendable(f) && SlotSize(|f|) <= used
            && Word(ring, cur + 2) == |f| + 4
            && Unrolled(ring, cur, 4 + |f|)[4..] == f
            && Queued(ring, Wrap(cur, SlotSize(|f|)), used - SlotSize(|f|), frames[1..])
  {
    var f := frames[0];
    var log, k := Unrolled(ring, cur, used), SlotSize(|frames[0]|);
    assert Word(log, 2) == Word(ring, cur + 2);
    assert Unrolled(ring, cur, 4 + |f|)[4..] == log[4..4 + |f|];
    UnrolledDrop(ring, cur, used, k);
    EmptyIff(log[k..], frames[1..]);
  }

  lemma EmptyIff(log: seq<u8>, frames: seq<seq<u8>>)
    requires Encodes(log, frames)
    ensures log == [] <==> frames == []
  {
  }

  lemma {:induction false} EncodedSendable(log: seq<u8>, frames: seq<seq<u8>>)
    requires Encodes(log, frames)
    ensures forall i :: 0 <= i < |frames| ==> Sendable(frames[i])
    decreases |frames|
  {
    if frames != [] {
      EncodedSendable(log[SlotSize(|frames[0]|)..], frames[1..]);
      assert frames == [frames[0]] + frames[1..];
    }
  }

  lemma WrapIsModulo(cur: nat, step: nat)
    requires cur % 4 == 0 && step % 4 == 0 && cur < RX_BUF_SIZE && cur + step < 2 * RX_BUF_SIZE
    ensures (cur + step) % RX_BUF_SIZE == Wrap(cur, step) && Wrap(cur, step) % 4 == 0 && Wrap(cur, step) <= RX_BUF_SIZE - 4
  {
  }

  /** Where the driver reads next after a record of `len` frame bytes, or a rejected one. */
  function NextCursor(cur: u16, len: nat): int {
    (cur + (if len == 0 then 4 else len + 8) + 3) / 4 * 4 % 34284
  }

  lemma NextCursorIs(cur: u16)
    requires cur % 4 == 0 && cur <= RX_BUF_SIZE - 4
    ensures NextCursor(cur, 0) == Wrap(cur, 4)
    ensures forall len: nat :: 0 < len <= MAX_FRAME ==> NextCursor(cur, len) == Wrap(cur, SlotSize(len))
  {
    forall len: nat | len <= MAX_FRAME
      ensures NextCursor(cur, len) == Wrap(cur, if len == 0 then 4 else SlotSize(len))
    {
      CursorAfter(cur, len);
    }
  }

  lemma CursorAfter(cur: u16, len: nat)
    requires cur % 4 == 0 && cur <= RX_BUF_SIZE - 4 && len <= MAX_FRAME
    ensures NextCursor(cur, len) == Wrap(cur, if len == 0 then 4 else SlotSize(len))
  {
    var step := if len == 0 then 4 else len + 8;
    RoundedUp(cur / 4, step + 3);
    WrapIsModulo(cur, Align4(step));
  }

  lemma RoundedUp(k: nat, n: nat)
    ensures (4 * k + n) / 4 * 4 == 4 * k + n / 4 * 4
  {
    Quarters(k, n);
  }

  lemma Quarters(k: nat, n: nat)
    ensures (4 * k + n) / 4 == k + n / 4
  {
  }

  class RxRing {
    const buf: array<u8>
    /** `rx_cur`, the software read pointer, and the last value written to the CAPR register. */
    var rxCur: u16
    var capr: u16
    /** The card's count of unread bytes; the RXBUFEMPTY bit is `used == 0`. */
    var used: nat
    ghost var pending: seq<seq<u8>>
    ghost var arrived: seq<seq<u8>>
    ghost var delivered: seq<seq<u8>>

    /** What the driver relies on whatever bytes the ring holds. */
    ghost predicate CursorOk()
      reads this
    {
      buf.Length == RX_BUF_SIZE && rxCur % 4 == 0 && rxCur <= RX_BUF_SIZE - 4
    }

    /** The ring refines a queue: every frame that ever arrived was delivered or is pending, in order,
        and the unread bytes are the records of the pending frames. */
    ghost predicate Valid()
      reads this, buf
    {
      && CursorOk()
      && Queued(buf[..], rxCur, used, pending)
      && arrived == delivered + pending
    }

    constructor ()
      ensures Valid() && fresh(buf)
      ensures pending == arrived == delivered == [] && rxCur == 0
    {
      buf := new u8[RX_BUF_SIZE];
      rxCur, capr, used := 0, 0, 0;
      pending, arrived, delivered := [], [], [];
    }

    /** The card's bus writes, wrapping at the end of the buffer. */
    method WriteRecord(at: nat, record: seq<u8>)
      requires CursorOk() && at < RX_BUF_SIZE && |record| <= RX_BUF_SIZE
      modifies buf
      ensures forall j :: 0 <= j < |record| ==> buf[Wrap(at, j)] == record[j]
      ensures forall j :: |record| <= j < RX_BUF_SIZE ==> buf[Wrap(at, j)] == old(buf[..])[Wrap(at, j)]
    {
      ghost var before := buf[..];
      for i := 0 to |record|
        invariant forall j :: 0 <= j < i ==> buf[Wrap(at, j)] == record[j]
        invariant forall j :: i <= j < RX_BUF_SIZE ==> buf[Wrap(at, j)] == before[Wrap(at, j)]
      {
        buf[Wrap(at, i)] := record[i];
      }
    }

    /** The card writes a record behind the unread bytes; it never overfills the ring. */
    method Arrive(frame: seq<u8>, status: u16, crc: seq<u8>)
      requires Valid() && Sendable(frame) && |crc| == 4
      requires used + SlotSize(|frame|) <= RX_BUF_SIZE
      modifies this`used, this`pending, this`arrived, buf
      ensures Valid() && rxCur == old(rxCur)
      ensures pending == old(pending) + [frame] && arrived == old(arrived) + [frame] && delivered == old(delivered)
      ensures used == old(used) + SlotSize(|frame|)
    {
      RecordFields(status, frame, crc);
      var record := Le16(status) + Le16(|frame| + 4) + frame + crc;
      var at := Wrap(rxCur, used);
      ghost var before := buf[..];
      WriteRecord(at, record);
      Enqueued(before, buf[..], rxCur, used, at, pending, record, frame);
      used := used + SlotSize(|frame|);
      pending, arrived := pending + [frame], arrived + [frame];
    }

    /** The driver moves its read pointer and tells the card, which drops that many unread bytes. */
    method Advance(step: nat)
      requires CursorOk() && step % 4 == 0 && rxCur + step < 2 * RX_BUF_SIZE
      requires rxCur + step < 0x1_0000
      modifies this`rxCur, this`capr, this`used
      ensures CursorOk() && rxCur == Wrap(old(rxCur), step) && capr == (rxCur - 16) % 0x1_0000
      ensures used == if step <= old(used) then old(used) - step else 0
    {
      WrapIsModulo(rxCur, step);
      rxCur := rxCur + step;
      rxCur := rxCur % RX_BUF_SIZE;
      capr := (rxCur - 16) % 0x1_0000;
      used := if step <= used then used - step else 0;
    }

    /** The copy of `rtl_recv`, in one piece or around the end of the ring. */
    method CopyOut(out: array<u8>, dataLen: u16)
      requires CursorOk() && out != buf && out.Length >= MAX_FRAME && dataLen <= MAX_FRAME
      modifies out
      ensures out[..dataLen] == Unrolled(buf[..], rxCur, 4 + dataLen)[4..]
      ensures out[dataLen..] == old(out[dataLen..])
    {
      if rxCur + 4 + dataLen <= RX_BUF_SIZE {
        MemCopy(out, 0, buf, rxCur + 4, dataLen);
      } else {
        var first: u16 := RX_BUF_SIZE - rxCur - 4;
        var second: u16 := dataLen - first;
        MemCopy(out, 0, buf, rxCur + 4, first);
        MemCopy(out, first, buf, 0, second);
      }
    }

    /** The part of `rtl_recv` that accepts a record: copy the frame out and step over the record. */
    method Accept(out: array<u8>, pktLen: u16, dataLen: u16)
      requires CursorOk() && out != buf && out.Length >= MAX_FRAME
      requires 1 <= dataLen <= MAX_FRAME && pktLen == dataLen + 4
      modifies this, out
      ensures CursorOk() && arrived == old(arrived) && out[dataLen..] == old(out[dataLen..]) && capr == (rxCur - 16) % 0x1_0000
      ensures out[..dataLen] == Unrolled(buf[..], old(rxCur), 4 + dataLen)[4..]
      ensures rxCur == Wrap(old(rxCur), SlotSize(dataLen))
      ensures old(Valid()) && old(pending) != [] && |old(pending)[0]| == dataLen ==>
                && Valid() && out[..dataLen] == old(pending)[0]
                && pending == old(pending)[1..] && delivered == old(delivered) + [old(pending)[0]]
    {
      ghost var ring, frames, cur, unread := buf[..], pending, rxCur, used;
      ghost var fifo := Valid() && frames != [] && |frames[0]| == dataLen;
      CopyOut(out, dataLen);
      Advance(Align4(pktLen + 4));
      assert buf[..] == ring;
      if fifo {
        Dequeued(ring, cur, unread, frames);
        delivered, pending := delivered + [frames[0]], frames[1..];
        assert frames == [frames[0]] + pending;
      }
    }

    /** The length field of the record at the cursor. */
    method HeaderLength() returns (pktLen: u16)
      requires CursorOk()
      ensures pktLen == Word(buf[..], rxCur + 2)
      ensures Valid() && pending != [] ==> pktLen == |pending[0]| + 4 && Sendable(pending[0])
    {
      if Valid() && pending != [] {
        Dequeued(buf[..], rxCur, used, pending);
      }
      pktLen := buf[rxCur + 2] as int + 256 * (buf[rxCur + 3] as int);
    }

    /** `rtl_recv`. The first group of promises holds for arbitrary ring bytes; the second says that
        on a ring the card filled, it takes the oldest frame, byte for byte, exactly once. */
    method Recv(out: array<u8>) returns (len: u16)
      requires CursorOk() && out != buf && out.Length >= MAX_FRAME
      modifies this, out
      ensures CursorOk() && len <= MAX_FRAME && arrived == old(arrived) && out[len..] == old(out[len..])
      ensures old(used) == 0 ==> len == 0 && rxCur == old(rxCur) && used == 0
      ensures old(used) > 0 ==> len == AcceptedLength(Word(buf[..], old(rxCur) + 2))
      ensures old(used) > 0 && len == 0 ==> rxCur == Wrap(old(rxCur), 4)
      ensures len > 0 ==> out[..len] == Unrolled(buf[..], old(rxCur), 4 + len)[4..] && rxCur == Wrap(old(rxCur), SlotSize(len))
      ensures old(used) > 0 ==>
                var n := buf[old(rxCur) + 2] as int + 256 * (buf[old(rxCur) + 3] as int);
                && len == (if 5 <= n <= 1518 then n - 4 else 0)
                && rxCur == NextCursor(old(rxCur), len) && capr == (rxCur - 16) % 0x1_0000
      ensures old(Valid()) && old(pending) == [] ==> Valid() && len == 0 && pending == [] && delivered == old(delivered)
      ensures old(Valid()) && old(pending) != [] ==>
                && Valid() && len > 0 && out[..len] == old(pending)[0]
                && pending == old(pending)[1..] && delivered == old(delivered) + [old(pending)[0]]
    {
      if used == 0 {
        return 0;
      }
      NextCursorIs(rxCur);
      var pktLen := HeaderLength();
      var dataLen: u16 := (pktLen as int - 4) % 0x1_0000;
      if dataLen == 0 || dataLen > MAX_FRAME {
        Advance(4);
        return 0;
      }
      Accept(out, pktLen, dataLen);
      return dataLen;
    }

    /** The loop of `net_poll`: everything pending is handed on, in arrival order, and the ring is left empty. */
    method Drain(out: array<u8>) returns (frames: seq<seq<u8>>)
      requires Valid() && out != buf && out.Length >= MAX_FRAME
      modifies this, out
      ensures Valid() && pending == [] && used == 0
      ensures frames == old(pending) && delivered == arrived == old(arrived)
    {
      frames := [];
      var len := Recv(out);
      while len > 0
        invariant Valid() && 0 <= len <= MAX_FRAME && arrived == old(arrived)
        invariant len > 0 ==> frames + [out[..len]] + pending == old(pending)
        invariant len == 0 ==> frames == old(pending) && pending == [] && used == 0
        decreases len > 0, |pending|
      {
        frames := frames + [out[..len]];
        len := Recv(out);
      }
    }
  }
}
