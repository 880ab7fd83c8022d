/** The internet checksum of code/src/net.c (RFC 1071). */
module Checksum {
  import opened Bytes

  /** Sum of the little-endian 16-bit words, a trailing byte counting as the low byte of a last word. */
  function WordSum(d: seq<u8>): nat {
    if |d| == 0 then 0
    else if |d| == 1 then d[0]
    else Word(d, 0) + WordSum(d[2..])
  }

  /** Carries folded back until the sum fits in 16 bits. */
  function Fold(s: nat): u16 {
    if s < 0x1_0000 then s else Fold(s % 0x1_0000 + s / 0x1_0000)
  }

  function Sum(d: seq<u8>): u16 {
    0xFFFF - Fold(WordSum(d))
  }

  /** `ip_checksum`: the accumulator is a `u32`, so every addition below is also the proof that no
      buffer whose length fits in 16 bits overflows it. */
  method IpChecksum(data: array<u8>, start: nat, len: u16) returns (r: u16)
    requires start + len <= data.Length
    ensures r == Sum(data[start..start + len])
  {
    var p, left: u16 := start, len;
    var sum: u32 := 0;
    ghost var end := start + len;
    while left > 1
      invariant p + left == end
      invariant sum + WordSum(data[p..end]) == WordSum(data[start..end])
      invariant sum <= 0xFFFF * (p - start)
    {
      assert data[p..end][2..] == data[p + 2..end];
      sum := sum + (data[p] as int + 256 * (data[p + 1] as int));
      p, left := p + 2, left - 2;
    }
    if left > 0 {
      assert data[p..end] == [data[p]];
      sum := sum + data[p];
    } else {
      assert data[p..end] == [];
    }
    assert sum == WordSum(data[start..end]);
    while sum / 0x1_0000 > 0
      invariant Fold(sum) == Fold(WordSum(data[start..end]))
      decreases sum
    {
      sum := sum % 0x1_0000 + sum / 0x1_0000;
    }
    r := 0xFFFF - sum;
  }

  /** The example of RFC 1071, section 3: on the wire its checksum is 0x22 0x0D. A trailing byte counts as the
      first of its word. */
  lemma Examples()
    ensures Sum([0x00, 0x01, 0xF2, 0x03, 0xF4, 0xF5, 0xF6, 0xF7]) == 0x0D22 && Le16(0x0D22) == [0x22, 0x0D]
    ensures Sum([]) == 0xFFFF && Sum([0x45]) == 0xFFBA && Sum([0x01, 0x02, 0x03]) == 0xFDFB
  {
    var d: seq<u8> := [0x00, 0x01, 0xF2, 0x03, 0xF4, 0xF5, 0xF6, 0xF7];
    assert d[2..] == [0xF2, 0x03, 0xF4, 0xF5, 0xF6, 0xF7];
    assert d[2..][2..] == [0xF4, 0xF5, 0xF6, 0xF7];
    assert d[2..][2..][2..] == [0xF6, 0xF7];
    assert d[2..][2..][2..][2..] == [];
    assert WordSum(d) == 0x1_F2DC;
    assert Fold(0x1_F2DC) == 0xF2DD;
    var odd: seq<u8> := [0x01, 0x02, 0x03];
    assert odd[2..] == [0x03];
  }

  // ---- One's-complement arithmetic is arithmetic modulo 65535 --------------------------------

  /** Folding keeps the residue modulo 65535 and picks its representative in 1..65535. */
  lemma {:induction false} FoldQuotient(s: nat) returns (q: nat)
    requires s > 0
    ensures s == 0xFFFF * q + Fold(s) && Fold(s) >= 1
  {
    if s < 0x1_0000 {
      q := 0;
    } else {
      q := FoldQuotient(s % 0x1_0000 + s / 0x1_0000);
      q := q + s / 0x1_0000;
    }
  }

  lemma QuotientUnique(q: int, r: int, p: int, t: int)
    requires 0xFFFF * q + r == 0xFFFF * p + t
    requires 1 <= r <= 0xFFFF && 1 <= t <= 0xFFFF
    ensures q == p && r == t
  {
  }

  /** Two sums fold alike exactly when they are congruent modulo 65535 and both or neither is zero. */
  lemma FoldIffCongruent(s: nat, t: nat)
    ensures Fold(s) == Fold(t) <==> (s == 0 <==> t == 0) && exists k: int :: s == t + 0xFFFF * k
  {
    if s > 0 && t > 0 {
      var q := FoldQuotient(s);
      var p := FoldQuotient(t);
      if Fold(s) == Fold(t) {
        assert s == t + 0xFFFF * (q - p);
      }
      if exists k: int :: s == t + 0xFFFF * k {
        var k: int :| s == t + 0xFFFF * k;
        QuotientUnique(q, Fold(s), p + k, Fold(t));
      }
    } else if s > 0 {
      var q := FoldQuotient(s);
    } else if t > 0 {
      var q := FoldQuotient(t);
    } else {
      assert s == t + 0xFFFF * 0;
    }
  }

  lemma VerifyingQuotient(d: seq<u8>) returns (m: nat)
    requires Sum(d) == 0
    ensures m > 0 && WordSum(d) == 0xFFFF * m
  {
    m := FoldQuotient(WordSum(d));
    m := m + 1;
  }

  lemma MultipleVerifies(d: seq<u8>, m: int)
    requires m > 0 && WordSum(d) == 0xFFFF * m
    ensures Sum(d) == 0
  {
    var q := FoldQuotient(WordSum(d));
    QuotientUnique(q, Fold(WordSum(d)), m - 1, 0xFFFF);
  }

  /** A buffer verifies exactly when its words sum to a positive multiple of 65535. */
  lemma VerifiesIff(d: seq<u8>)
    ensures Sum(d) == 0 <==> exists m: int :: m > 0 && WordSum(d) == 0xFFFF * m
  {
    if Sum(d) == 0 {
      var m := VerifyingQuotient(d);
    }
    if exists m: int :: m > 0 && WordSum(d) == 0xFFFF * m {
      var m: int :| m > 0 && WordSum(d) == 0xFFFF * m;
      MultipleVerifies(d, m);
    }
  }

  // ---- Storing the checksum -------------------------------------------------------------------

  function StoreWord(d: seq<u8>, k: nat, w: u16): (r: seq<u8>)
    requires k + 2 <= |d|
    ensures |r| == |d|
  {
    d[k := w % 256][k + 1 := w / 256]
  }

  lemma {:induction false} WordSumStore(d: seq<u8>, k: nat, w: u16)
    requires k % 2 == 0 && k + 2 <= |d|
    ensures WordSum(StoreWord(d, k, w)) == WordSum(d) - Word(d, k) + w
  {
    var e := StoreWord(d, k, w);
    if k == 0 {
      assert e[2..] == d[2..];
    } else {
      assert e[2..] == StoreWord(d[2..], k - 2, w);
      WordSumStore(d[2..], k - 2, w);
    }
  }

  /** RFC 1071, section 1: a message that carries its own checksum in a field that was zero when it
      was summed verifies. Any length, odd included; the field lies at an even offset. */
  lemma StoredChecksumVerifies(d: seq<u8>, k: nat)
    requires k % 2 == 0 && k + 2 <= |d| && Word(d, k) == 0
    ensures Sum(StoreWord(d, k, Sum(d))) == 0
  {
    var s, e := WordSum(d), StoreWord(d, k, Sum(d));
    WordSumStore(d, k, Sum(d));
    if s > 0 {
      var q := FoldQuotient(s);
      MultipleVerifies(e, q + 1);
    } else {
      MultipleVerifies(e, 1);
    }
  }

  /** Replacing the contribution `v` by `w` in a verifying sum. */
  lemma ReplacedInSum(s: nat, v: u16, w: u16, m: nat)
    requires s == 0xFFFF * m && v <= s && m > 0
    ensures (exists n: int :: n > 0 && s - v + w == 0xFFFF * n) <==>
            w == v || (w == 0 && v == 0xFFFF && s > 0xFFFF) || (w == 0xFFFF && v == 0)
  {
    if w == v {
      assert s - v + w == 0xFFFF * m;
    } else if w == 0 && v == 0xFFFF && s > 0xFFFF {
      assert s - v + w == 0xFFFF * (m - 1);
    } else if w == 0xFFFF && v == 0 {
      assert s - v + w == 0xFFFF * (m + 1);
    }
  }

  lemma {:induction false} WordWithinSum(d: seq<u8>, k: nat)
    requires k % 2 == 0 && k + 2 <= |d|
    ensures Word(d, k) <= WordSum(d)
  {
    if k > 0 {
      WordWithinSum(d[2..], k - 2);
    }
  }

  /** What a receiver cannot detect: overwriting one word of a verifying buffer goes unnoticed exactly
      when nothing changed, or 0x0000 and 0xFFFF were exchanged and some word is still nonzero. */
  lemma CorruptionUndetectedIff(d: seq<u8>, k: nat, w: u16)
    requires k % 2 == 0 && k + 2 <= |d| && Sum(d) == 0
    ensures Sum(StoreWord(d, k, w)) == 0 <==>
            w == Word(d, k) || (w == 0 && Word(d, k) == 0xFFFF && WordSum(d) > 0xFFFF) || (w == 0xFFFF && Word(d, k) == 0)
  {
    WordSumStore(d, k, w);
    WordWithinSum(d, k);
    var m := VerifyingQuotient(d);
    ReplacedInSum(WordSum(d), Word(d, k), w, m);
    VerifiesIff(StoreWord(d, k, w));
  }

  // ---- Byte-order independence ----------------------------------------------------------------

  /** The same sum taken over network-order words, as RFC 1071 words it. */
  function NetworkSum(d: seq<u8>): nat {
    if |d| == 0 then 0
    else if |d| == 1 then 256 * d[0]
    else Get16(d, 0) + NetworkSum(d[2..])
  }

  lemma {:induction false} NetworkSumCongruent(d: seq<u8>)
    ensures (NetworkSum(d) == 0) == (WordSum(d) == 0)
    ensures exists k: int :: 256 * WordSum(d) == NetworkSum(d) + 0xFFFF * k
  {
    if |d| == 0 {
      assert 256 * WordSum(d) == NetworkSum(d) + 0xFFFF * 0;
    } else if |d| == 1 {
      assert 256 * WordSum(d) == NetworkSum(d) + 0xFFFF * 0;
    } else {
      NetworkSumCongruent(d[2..]);
      var k: int :| 256 * WordSum(d[2..]) == NetworkSum(d[2..]) + 0xFFFF * k;
      assert 256 * WordSum(d) == NetworkSum(d) + 0xFFFF * (k + d[1]);
    }
  }

  /** Scaling a sum by 256 swaps the bytes of its fold. */
  lemma FoldScaled(s: nat, n: nat, k: int)
    requires s > 0 && n > 0 && 256 * s == n + 0xFFFF * k
    ensures Fold(n) == Htons(Fold(s))
  {
    var q := FoldQuotient(s);
    var p := FoldQuotient(n);
    var f := Fold(s);
    HtonsScales(f);
    QuotientUnique(p, Fold(n), 256 * q + f / 256 - k, Htons(f));
  }

  lemma NetworkFold(d: seq<u8>)
    ensures Fold(NetworkSum(d)) == Htons(Fold(WordSum(d)))
  {
    var s, n := WordSum(d), NetworkSum(d);
    NetworkSumCongruent(d);
    if s > 0 {
      var k: int :| 256 * s == n + 0xFFFF * k;
      FoldScaled(s, n, k);
    }
  }

  /** RFC 1071, section 2(B): the checksum computed from raw little-endian loads is, byte for byte in
      memory, the checksum computed from network-order words. Any length. */
  lemma ByteOrderIndependent(d: seq<u8>)
    ensures 0xFFFF - Fold(NetworkSum(d)) == Htons(Sum(d))
    ensures Le16(Sum(d)) == Be16(0xFFFF - Fold(NetworkSum(d)))
  {
    NetworkFold(d);
    HtonsComplement(Fold(WordSum(d)));
    HtonsTwice(Sum(d));
  }

  lemma HtonsScales(f: u16)
    ensures 256 * f == Htons(f) + 0xFFFF * (f / 256)
    ensures f > 0 ==> Htons(f) > 0
  {
  }

  lemma HtonsTwice(x: u16)
    ensures Le16(x) == Be16(Htons(x))
  {
  }

  lemma HtonsComplement(f: u16)
    ensures Htons(0xFFFF - f) == 0xFFFF - Htons(f)
  {
    assert f == 256 * (f / 256) + f % 256;
    assert 0xFFFF - f == 256 * (255 - f / 256) + (255 - f % 256);
  }

  function SwapPairs(d: seq<u8>): (r: seq<u8>)
    requires |d| % 2 == 0
    ensures |r| == |d|
  {
    if d == [] then [] else [d[1], d[0]] + SwapPairs(d[2..])
  }

  lemma {:induction false} SwapPairsSum(d: seq<u8>)
    requires |d| % 2 == 0
    ensures WordSum(SwapPairs(d)) == NetworkSum(d)
  {
    if d != [] {
      assert SwapPairs(d)[2..] == SwapPairs(d[2..]);
      SwapPairsSum(d[2..]);
    }
  }

  /** Swapping the bytes of every word of the message swaps the bytes of its checksum. */
  lemma SwapCommutes(d: seq<u8>)
    requires |d| % 2 == 0
    ensures Sum(SwapPairs(d)) == Htons(Sum(d))
  {
    SwapPairsSum(d);
    ByteOrderIndependent(d);
  }
}
