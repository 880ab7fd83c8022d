/** `parse_ip` and `kprint_ip` of code/src/net.c. */
module IpText {
  import opened Bytes

  function IsDigit(c: char): bool {
    '0' <= c <= '9'
  }

  function Digit(c: char): nat
    requires IsDigit(c)
  {
    c as int - '0' as int
  }

  // ---- Reference meaning -----------------------------------------------------------------------

  /** The segments of `s` between dots. */
  function Split(s: string): (r: seq<string>)
    ensures |r| >= 1
  {
    if s == "" then [""]
    else
      var r, c := Split(s[..|s| - 1]), s[|s| - 1];
      if c == '.' then r + [""] else r[|r| - 1 := r[|r| - 1] + [c]]
  }

  predicate AllDigits(s: string) {
    forall i :: 0 <= i < |s| ==> IsDigit(s[i])
  }

  /** The decimal value of a run of digits; the empty run counts as 0. */
  function Value(s: string): nat
    requires AllDigits(s)
  {
    if s == "" then 0 else Value(s[..|s| - 1]) * 10 + Digit(s[|s| - 1])
  }

  predicate Octet(s: string) {
    AllDigits(s) && Value(s) <= 255
  }

  /** The dotted quads `parse_ip` accepts: four runs of digits, possibly empty, of value at most 255. */
  predicate DottedQuad(s: string) {
    var r := Split(s);
    |r| == 4 && forall i :: 0 <= i < 4 ==> Octet(r[i])
  }

  function Address(s: string): (ip: u32)
    requires DottedQuad(s)
  {
    var r := Split(s);
    0x100_0000 * Value(r[0]) + 0x1_0000 * Value(r[1]) + 0x100 * Value(r[2]) + Value(r[3])
  }

  // ---- The parser ------------------------------------------------------------------------------

  /** Big-endian combination of the octets completed so far. */
  function Combine(octets: seq<nat>): nat {
    if octets == [] then 0 else 0x100 * Combine(octets[..|octets| - 1]) + octets[|octets| - 1]
  }

  function Values(r: seq<string>): seq<nat>
    requires forall i :: 0 <= i < |r| ==> AllDigits(r[i])
  {
    seq(|r|, i requires 0 <= i < |r| => Value(r[i]))
  }

  /** The state of the parser after a prefix: the finished segments and the one under way. */
  ghost predicate Parsed(prefix: string, ip: nat, dots: nat, octet: nat) {
    var r := Split(prefix);
    && dots == |r| - 1 && dots <= 3
    && (forall i :: 0 <= i < |r| ==> Octet(r[i]))
    && octet == Value(r[dots])
    && ip == Combine(Values(r[..dots]))
    && ip < Power256(dots)
  }

  function Power256(n: nat): nat {
    if n == 0 then 1 else 0x100 * Power256(n - 1)
  }

  lemma SplitSnoc(s: string, c: char)
    ensures Split(s + [c]) ==
            if c == '.' then Split(s) + [""]
            else var r := Split(s); r[|r| - 1 := r[|r| - 1] + [c]]
  {
    assert (s + [c])[..|s|] == s;
  }

  /** A segment that has gone wrong stays wrong, and a fifth segment never goes away. */
  lemma {:induction false} BadStaysBad(s: string, rest: string)
    requires |Split(s)| > 4 || exists i :: 0 <= i < |Split(s)| && !Octet(Split(s)[i])
    ensures !DottedQuad(s + rest)
    decreases |rest|
  {
    if rest == "" {
      assert s + rest == s;
    } else {
      var c := rest[0];
      SplitSnoc(s, c);
      var r, r' := Split(s), Split(s + [c]);
      if i :| 0 <= i < |r| && !Octet(r[i]) {
        if i < |r| - 1 || c == '.' {
          assert r'[i] == r[i];
        } else {
          OctetPrefix(r[i], c);
          assert r'[i] == r[i] + [c];
        }
      }
      BadStaysBad(s + [c], rest[1..]);
      assert s + [c] + rest[1..] == s + rest;
    }
  }

  lemma OctetPrefix(s: string, c: char)
    requires !Octet(s)
    ensures !Octet(s + [c])
  {
    if AllDigits(s + [c]) {
      assert (s + [c])[..|s|] == s;
      assert forall i :: 0 <= i < |s| ==> s[i] == (s + [c])[i];
    }
  }

  lemma SegmentSnoc(seg: string, c: char)
    requires AllDigits(seg) && IsDigit(c)
    ensures AllDigits(seg + [c]) && Value(seg + [c]) == Value(seg) * 10 + Digit(c)
  {
    assert (seg + [c])[..|seg|] == seg;
  }

  /** One digit extends the segment under way. */
  lemma DigitStep(s: string, ip: nat, dots: nat, octet: nat, c: char)
    requires Parsed(s, ip, dots, octet) && IsDigit(c)
    ensures octet * 10 + Digit(c) <= 255 ==> Parsed(s + [c], ip, dots, octet * 10 + Digit(c))
    ensures octet * 10 + Digit(c) > 255 ==> exists i :: 0 <= i < |Split(s + [c])| && !Octet(Split(s + [c])[i])
  {
    SplitSnoc(s, c);
    var r, r' := Split(s), Split(s + [c]);
    SegmentSnoc(r[dots], c);
    assert r'[dots] == r[dots] + [c] && r'[..dots] == r[..dots];
    if octet * 10 + Digit(c) > 255 {
      assert !Octet(r'[dots]);
    } else {
      forall i | 0 <= i < |r'|
        ensures Octet(r'[i])
      {
        if i < dots { assert r'[i] == r[i]; }
      }
    }
  }

  /** A dot closes the segment under way. */
  lemma DotStep(s: string, ip: nat, dots: nat, octet: nat)
    requires Parsed(s, ip, dots, octet)
    ensures |Split(s + ['.'])| == dots + 2
    ensures dots < 3 ==> Parsed(s + ['.'], 0x100 * ip + octet, dots + 1, 0)
  {
    SplitSnoc(s, '.');
    var r, r' := Split(s), Split(s + ['.']);
    assert r' == r + [""] && r'[..dots + 1] == r;
    assert Values(r)[..dots] == Values(r[..dots]);
  }

  /** Anything else spoils the segment under way. */
  lemma OtherStep(s: string, c: char)
    requires !IsDigit(c) && c != '.'
    ensures exists i :: 0 <= i < |Split(s + [c])| && !Octet(Split(s + [c])[i])
  {
    SplitSnoc(s, c);
    var r' := Split(s + [c]);
    assert !IsDigit(r'[|r'| - 1][|r'[|r'| - 1]| - 1]);
    assert !Octet(r'[|r'| - 1]);
  }

  lemma ParsedEnd(s: string, ip: nat, dots: nat, octet: nat)
    requires Parsed(s, ip, dots, octet)
    ensures DottedQuad(s) <==> dots == 3
    ensures dots == 3 ==> Address(s) == 0x100 * ip + octet
  {
    var r := Split(s);
    if dots == 3 {
      var v := Values(r[..3]);
      assert v == [Value(r[0]), Value(r[1]), Value(r[2])];
      assert v[..2] == [v[0], v[1]] && v[..2][..1] == [v[0]] && [v[0]][..0] == [];
      assert Combine(v) == 0x100 * Combine(v[..2]) + v[2];
      assert Combine(v[..2]) == 0x100 * Combine([v[0]]) + v[1];
      assert Combine([v[0]]) == v[0];
    }
  }

  /** `parse_ip`: it accepts exactly the dotted quads and returns their address. The `u32` variables prove
      that neither `octet` nor `ip` ever overflows. */
  method ParseIp(s: string) returns (result: Option<u32>)
    ensures result.Some? <==> DottedQuad(s)
    ensures result.Some? ==> result.value == Address(s)
  {
    var ip: u32, dots, octet: u32 := 0, 0, 0;
    var i := 0;
    assert Parsed("", 0, 0, 0);
    while i < |s|
      invariant 0 <= i <= |s| && 0 <= dots <= 3 && 0 <= octet <= 255
      invariant Parsed(s[..i], ip, dots, octet)
    {
      var c := s[i];
      assert s[..i] + [c] == s[..i + 1] && s[..i + 1] + s[i + 1..] == s;
      PowerBounds(dots);
      if IsDigit(c) {
        DigitStep(s[..i], ip, dots, octet, c);
        octet := octet * 10 + Digit(c);
        if octet > 255 {
          BadStaysBad(s[..i + 1], s[i + 1..]);
          return None;
        }
      } else if c == '.' {
        DotStep(s[..i], ip, dots, octet);
        ip := ip * 0x100 + octet;
        octet := 0;
        dots := dots + 1;
        if dots > 3 {
          BadStaysBad(s[..i + 1], s[i + 1..]);
          return None;
        }
      } else {
        OtherStep(s[..i], c);
        BadStaysBad(s[..i + 1], s[i + 1..]);
        return None;
      }
      i := i + 1;
    }
    assert s[..i] == s;
    ParsedEnd(s, ip, dots, octet);
    if dots != 3 {
      return None;
    }
    PowerBounds(dots);
    ip := ip * 0x100 + octet;
    return Some(ip);
  }

  lemma PowerBounds(n: nat)
    requires n <= 3
    ensures Power256(n) <= 0x100_0000
  {
    assert Power256(1) == 0x100 && Power256(2) == 0x1_0000 && Power256(3) == 0x100 * Power256(2);
  }

  // ---- The printer -----------------------------------------------------------------------------

  function Char(d: nat): char
    requires d < 10
  {
    '0' + d as char
  }

  /** Decimal digits without leading zeros. */
  function Decimal(v: nat): string {
    if v < 10 then [Char(v)] else Decimal(v / 10) + [Char(v % 10)]
  }

  function Dotted(ip: u32): string {
    Decimal(ip / 0x100_0000) + "." + Decimal(ip / 0x1_0000 % 0x100) + "." + Decimal(ip / 0x100 % 0x100) + "." + Decimal(ip % 0x100)
  }

  function Reversed(s: string): string {
    if s == "" then "" else Reversed(s[1..]) + [s[0]]
  }

  lemma {:induction false} ReversedSnoc(s: string, c: char)
    ensures Reversed(s + [c]) == [c] + Reversed(s)
  {
    if s == "" {
      assert "" + [c] == [c] && [c][1..] == "";
    } else {
      ReversedSnoc(s[1..], c);
      assert (s + [c])[1..] == s[1..] + [c];
    }
  }

  /** The printing loop of `kprint_dec`. */
  method PrintBackwards(buf: array<char>, n: nat) returns (out: string)
    requires n <= buf.Length
    ensures out == Reversed(buf[..n])
  {
    out := "";
    var i := n;
    assert "" + Reversed(buf[..n]) == Reversed(buf[..n]);
    while i > 0
      invariant 0 <= i <= n
      invariant out + Reversed(buf[..i]) == Reversed(buf[..n])
    {
      i := i - 1;
      ReversedSnoc(buf[..i], buf[i]);
      assert buf[..i + 1] == buf[..i] + [buf[i]];
      out := out + [buf[i]];
    }
  }

  /** What is printed once `w` remains and the digits in `done` were produced. */
  function Remaining(w: nat, done: string): string {
    (if w == 0 then "" else Decimal(w)) + Reversed(done)
  }

  lemma DigitProduced(w: nat, done: string)
    requires w > 0
    ensures Remaining(w / 10, done + [Char(w % 10)]) == Remaining(w, done)
  {
    var d := Char(w % 10);
    ReversedSnoc(done, d);
    var head := if w / 10 == 0 then "" else Decimal(w / 10);
    assert Decimal(w) == head + [d];
    assert head + [d] + Reversed(done) == head + ([d] + Reversed(done));
  }

  /** `kprint_dec`: digits are produced last first into a 12-character buffer and printed back to front. */
  method KprintDec(v: u32) returns (out: string)
    ensures out == Decimal(v)
  {
    if v == 0 {
      return "0";
    }
    var buf := new char[12](_ => '\0');
    var i, w: u32 := 0, v;
    ghost var ten := 1;
    assert Remaining(w, buf[..0]) == Decimal(v);
    while w > 0
      invariant 0 <= i <= 10 && 0 <= w
      invariant Remaining(w, buf[..i]) == Decimal(v)
      invariant ten == Power10(i) && w * ten <= v
      decreases w
    {
      DigitsBound(i, w, ten);
      DigitProduced(w, buf[..i]);
      ghost var before := buf[..i];
      buf[i] := Char(w % 10);
      assert buf[..i + 1] == before + [buf[i]];
      TenTimes(w, ten, v);
      i, ten := i + 1, 10 * ten;
      w := w / 10;
    }
    out := PrintBackwards(buf, i);
    assert Remaining(0, buf[..i]) == Reversed(buf[..i]);
  }

  function Power10(n: nat): nat {
    if n == 0 then 1 else 10 * Power10(n - 1)
  }

  /** Ten digits are enough for 32 bits. */
  lemma DigitsBound(i: nat, w: u32, ten: nat)
    requires i <= 10 && ten == Power10(i) && w > 0 && w * ten < 0x1_0000_0000
    ensures i < 10
  {
    TenDigits();
    assert w * ten >= 1 * ten;
  }

  lemma TenDigits()
    ensures Power10(10) == 10_000_000_000
  {
    assert Power10(5) == 100_000;
    assert Power10(10) == 100_000 * Power10(5);
  }

  lemma TenTimes(w: nat, ten: nat, v: nat)
    requires w * ten <= v
    ensures (w / 10) * (10 * ten) <= v
  {
    var q := w / 10;
    assert w == 10 * q + w % 10;
    assert q * (10 * ten) == (10 * q) * ten;
    assert (10 * q) * ten <= w * ten;
  }

  /** `kprint_ip` */
  method KprintIp(ip: u32) returns (out: string)
    ensures out == Dotted(ip)
  {
    var a := KprintDec(ip / 0x100_0000 % 0x100);
    var b := KprintDec(ip / 0x1_0000 % 0x100);
    var c := KprintDec(ip / 0x100 % 0x100);
    var d := KprintDec(ip % 0x100);
    out := a + "." + b + "." + c + "." + d;
  }

  // ---- Round trips -----------------------------------------------------------------------------

  lemma {:induction false} DecimalValue(v: nat)
    ensures AllDigits(Decimal(v)) && Value(Decimal(v)) == v && Decimal(v) != ""
  {
    if v < 10 {
      assert Decimal(v)[..0] == "";
    } else {
      DecimalValue(v / 10);
      assert Decimal(v)[..|Decimal(v)| - 1] == Decimal(v / 10);
    }
  }

  lemma {:induction false} SplitDigits(a: string)
    requires AllDigits(a)
    ensures Split(a) == [a]
  {
    if a != "" {
      SplitDigits(a[..|a| - 1]);
      assert a == a[..|a| - 1] + [a[|a| - 1]];
    }
  }

  lemma BehindDot(s: string, h: string, c: char)
    ensures s + "." + (h + [c]) == s + "." + h + [c]
  {
  }

  lemma {:induction false} SplitSegment(s: string, a: string)
    requires AllDigits(a)
    ensures Split(s + "." + a) == Split(s) + [a]
    decreases |a|
  {
    if a == "" {
      assert s + "." + a == s + ['.'];
      SplitSnoc(s, '.');
    } else {
      var h, c := a[..|a| - 1], a[|a| - 1];
      assert a == h + [c];
      SplitSegment(s, h);
      SplitSnoc(s + "." + h, c);
      BehindDot(s, h, c);
    }
  }

  lemma SplitFour(a: string, b: string, c: string, d: string)
    requires AllDigits(a) && AllDigits(b) && AllDigits(c) && AllDigits(d)
    ensures Split(a + "." + b + "." + c + "." + d) == [a, b, c, d]
  {
    SplitDigits(a);
    SplitSegment(a, b);
    SplitSegment(a + "." + b, c);
    SplitSegment(a + "." + b + "." + c, d);
  }

  /** The printed form of four numbers splits into them. */
  lemma SplitDecimals(a: nat, b: nat, c: nat, d: nat)
    ensures Split(Decimal(a) + "." + Decimal(b) + "." + Decimal(c) + "." + Decimal(d))
         == [Decimal(a), Decimal(b), Decimal(c), Decimal(d)]
  {
    DecimalValue(a);
    DecimalValue(b);
    DecimalValue(c);
    DecimalValue(d);
    SplitFour(Decimal(a), Decimal(b), Decimal(c), Decimal(d));
  }

  lemma SplitDotted(ip: u32)
    ensures Split(Dotted(ip)) ==
            [Decimal(ip / 0x100_0000), Decimal(ip / 0x1_0000 % 0x100), Decimal(ip / 0x100 % 0x100), Decimal(ip % 0x100)]
  {
    SplitDecimals(ip / 0x100_0000, ip / 0x1_0000 % 0x100, ip / 0x100 % 0x100, ip % 0x100);
  }

  /** `parse_ip` reads back what `kprint_ip` printed, for every address. */
  lemma PrintThenParse(ip: u32)
    ensures DottedQuad(Dotted(ip)) && Address(Dotted(ip)) == ip
  {
    SplitDotted(ip);
    DecimalValue(ip / 0x100_0000);
    DecimalValue(ip / 0x1_0000 % 0x100);
    DecimalValue(ip / 0x100 % 0x100);
    DecimalValue(ip % 0x100);
    SplitU32(ip);
  }

  predicate Canonical(s: string) {
    s != "" && (s[0] == '0' ==> |s| == 1)
  }

  lemma {:induction false} CanonicalDecimal(s: string)
    requires AllDigits(s)
    ensures Canonical(s) <==> Decimal(Value(s)) == s
    ensures s != "" && s[0] != '0' ==> Value(s) > 0
    decreases |s|
  {
    if s == "" {
      DecimalValue(0);
    } else {
      var h, c := s[..|s| - 1], s[|s| - 1];
      CanonicalDecimal(h);
      assert Char(Digit(c)) == c;
      if h == "" {
        assert s == [c];
      } else {
        assert s == h + [c] && s[0] == h[0];
        if h[0] == '0' {
          DecimalHead(Value(s));
        } else {
          assert Value(s) / 10 == Value(h) && Value(s) % 10 == Digit(c);
        }
      }
    }
  }

  lemma {:induction false} DecimalHead(v: nat)
    ensures Canonical(Decimal(v))
  {
    if v >= 10 {
      DecimalHead(v / 10);
      DecimalValue(v / 10);
      assert Decimal(v)[0] == Decimal(v / 10)[0];
    }
  }

  lemma DottedIs(ip: u32, a: nat, b: nat, c: nat, d: nat)
    requires ip / 0x100_0000 == a && ip / 0x1_0000 % 0x100 == b && ip / 0x100 % 0x100 == c && ip % 0x100 == d
    ensures Dotted(ip) == Decimal(a) + "." + Decimal(b) + "." + Decimal(c) + "." + Decimal(d)
  {
  }

  lemma SplitOfPrinted(s: string, r: seq<string>)
    requires DottedQuad(s) && r == Split(s)
    ensures Split(Dotted(Address(s))) == [Decimal(Value(r[0])), Decimal(Value(r[1])), Decimal(Value(r[2])), Decimal(Value(r[3]))]
  {
    var a, b, c, d := Value(r[0]), Value(r[1]), Value(r[2]), Value(r[3]);
    Octets(Address(s), a, b, c, d);
    DottedIs(Address(s), a, b, c, d);
    SplitDecimals(a, b, c, d);
  }

  /** Two texts are equal exactly when they split into the same segments. */
  lemma SameIfSameSplit(s: string, t: string)
    ensures s == t <==> Split(s) == Split(t)
  {
    JoinSplit(s);
    JoinSplit(t);
  }

  lemma SameFour(r: seq<string>, q: seq<string>)
    requires |r| == |q| == 4 && r[0] == q[0] && r[1] == q[1] && r[2] == q[2] && r[3] == q[3]
    ensures r == q
  {
  }

  /** Printing gives an accepted text back exactly when every segment is nonempty without leading zeros. */
  lemma ParseThenPrint(s: string)
    requires DottedQuad(s)
    ensures Dotted(Address(s)) == s <==> forall i :: 0 <= i < 4 ==> Canonical(Split(s)[i])
  {
    var r, q := Split(s), Split(Dotted(Address(s)));
    SplitOfPrinted(s, r);
    SameIfSameSplit(Dotted(Address(s)), s);
    SegmentsCanonical(r, q);
  }

  lemma SegmentsCanonical(r: seq<string>, q: seq<string>)
    requires |r| == 4 && forall i :: 0 <= i < 4 ==> AllDigits(r[i])
    requires q == [Decimal(Value(r[0])), Decimal(Value(r[1])), Decimal(Value(r[2])), Decimal(Value(r[3]))]
    ensures q == r <==> forall i :: 0 <= i < 4 ==> Canonical(r[i])
  {
    CanonicalDecimal(r[0]);
    CanonicalDecimal(r[1]);
    CanonicalDecimal(r[2]);
    CanonicalDecimal(r[3]);
    if forall i :: 0 <= i < 4 ==> Canonical(r[i]) {
      SameFour(q, r);
    }
  }

  lemma Octets(ip: u32, a: nat, b: nat, c: nat, d: nat)
    requires a <= 255 && b <= 255 && c <= 255 && d <= 255 && ip == 0x100_0000 * a + 0x1_0000 * b + 0x100 * c + d
    ensures ip / 0x100_0000 == a && ip / 0x1_0000 % 0x100 == b && ip / 0x100 % 0x100 == c && ip % 0x100 == d
  {
    assert ip / 0x100 == 0x1_0000 * a + 0x100 * b + c;
    assert ip / 0x1_0000 == 0x100 * a + b;
  }

  function Join(r: seq<string>): string
    requires |r| >= 1
  {
    if |r| == 1 then r[0] else Join(r[..|r| - 1]) + "." + r[|r| - 1]
  }

  lemma JoinNew(r: seq<string>)
    requires |r| >= 1
    ensures Join(r + [""]) == Join(r) + "."
  {
    assert (r + [""])[..|r|] == r;
  }

  lemma JoinExtend(r: seq<string>, c: char)
    requires |r| >= 1
    ensures Join(r[|r| - 1 := r[|r| - 1] + [c]]) == Join(r) + [c]
  {
    var n := |r| - 1;
    var x := r[n] + [c];
    assert r[n := x][..n] == r[..n];
    if n > 0 {
      assert Join(r[..n]) + "." + x == Join(r[..n]) + "." + r[n] + [c];
    }
  }

  lemma {:induction false} JoinSplit(s: string)
    ensures Join(Split(s)) == s
  {
    if s != "" {
      var h, c := s[..|s| - 1], s[|s| - 1];
      JoinSplit(h);
      JoinNew(Split(h));
      JoinExtend(Split(h), c);
      assert s == h + [c];
    }
  }

  // ---- Texts written out -----------------------------------------------------------------------

  /** Decimal digits: one for a number below ten, and one more for every further place. */
  lemma DigitsOf(v: nat, d: nat)
    requires d < 10
    ensures Decimal(d) == ["0123456789"[d]]
    ensures v > 0 ==> Decimal(10 * v + d) == Decimal(v) + ["0123456789"[d]]
  {
    assert Char(d) == "0123456789"[d];
  }

  lemma OctetsRead(ip: u32, a: nat, b: nat, c: nat, d: nat, s: string)
    requires ip / 0x100_0000 == a && ip / 0x1_0000 % 0x100 == b && ip / 0x100 % 0x100 == c && ip % 0x100 == d
    requires s == Decimal(a) + "." + Decimal(b) + "." + Decimal(c) + "." + Decimal(d)
    ensures Dotted(ip) == s && DottedQuad(s) && Address(s) == ip
  {
    DottedIs(ip, a, b, c, d);
    PrintThenParse(ip);
  }

  /** The most significant octet is printed first, and read first. */
  lemma OctetsInOrder(ip: u32, a: nat, b: nat, c: nat, d: nat, s: string)
    requires a <= 255 && b <= 255 && c <= 255 && d <= 255 && ip == 0x100_0000 * a + 0x1_0000 * b + 0x100 * c + d
    requires s == Decimal(a) + "." + Decimal(b) + "." + Decimal(c) + "." + Decimal(d)
    ensures Dotted(ip) == s && DottedQuad(s) && Address(s) == ip
  {
    Octets(ip, a, b, c, d);
    OctetsRead(ip, a, b, c, d, s);
  }

  lemma {:induction false} TwoDigits(tens: nat, ones: nat)
    requires 0 < tens < 10 && ones < 10
    ensures Decimal(10 * tens + ones) == ["0123456789"[tens], "0123456789"[ones]]
  {
    DigitsOf(0, tens);
    DigitsOf(tens, ones);
  }

  /** The address the kernel uses for itself. */
  lemma OwnAddress()
    ensures Dotted(0x0A00_020F) == "10.0.2.15" && DottedQuad("10.0.2.15") && Address("10.0.2.15") == 0x0A00_020F
  {
    TwoDigits(1, 0);
    TwoDigits(1, 5);
    DigitsOf(0, 0);
    DigitsOf(0, 2);
    assert "10" + "." + "0" + "." + "2" + "." + "15" == "10.0.2.15";
    OctetsInOrder(0x0A00_020F, 10, 0, 2, 15, "10.0.2.15");
  }

  lemma SegmentsRead(s: string, a: string, b: string, c: string, d: string, r: seq<string>)
    requires AllDigits(a) && AllDigits(b) && AllDigits(c) && AllDigits(d) && r == [a, b, c, d] && Split(s) == r
    ensures DottedQuad(s) <==> Value(a) <= 255 && Value(b) <= 255 && Value(c) <= 255 && Value(d) <= 255
    ensures DottedQuad(s) ==> Address(s) == 0x100_0000 * Value(a) + 0x1_0000 * Value(b) + 0x100 * Value(c) + Value(d)
  {
    if DottedQuad(s) {
      assert Octet(r[0]) && Octet(r[1]) && Octet(r[2]) && Octet(r[3]);
    }
  }

  lemma FourSegments(a: string, b: string, c: string, d: string, s: string)
    requires AllDigits(a) && AllDigits(b) && AllDigits(c) && AllDigits(d) && s == a + "." + b + "." + c + "." + d
    ensures DottedQuad(s) <==> Value(a) <= 255 && Value(b) <= 255 && Value(c) <= 255 && Value(d) <= 255
    ensures DottedQuad(s) ==> Address(s) == 0x100_0000 * Value(a) + 0x1_0000 * Value(b) + 0x100 * Value(c) + Value(d)
  {
    SplitFour(a, b, c, d);
    SegmentsRead(s, a, b, c, d, [a, b, c, d]);
  }

  /** The value of a numeral grows by ten and the next digit. */
  lemma ValueOf(s: string, c: char, t: string)
    requires AllDigits(s) && '0' <= c <= '9' && t == s + [c]
    ensures AllDigits(t) && Value(t) == 10 * Value(s) + (c as int - '0' as int)
  {
    SegmentSnoc(s, c);
  }

  lemma OneDigit(c: char, t: string)
    requires '0' <= c <= '9' && t == [c]
    ensures AllDigits(t) && Value(t) == c as int - '0' as int
  {
    var empty := t[..0];
    assert t == empty + [c];
    ValueOf(empty, c, t);
  }

  /** Empty segments are read as zero, */
  lemma EmptySegments()
    ensures DottedQuad("...") && Address("...") == 0
  {
    assert Value("") == 0 && "" + "." + "" + "." + "" + "." + "" == "...";
    FourSegments("", "", "", "", "...");
  }

  /** leading zeros are skipped, */
  lemma LeadingZeros()
    ensures DottedQuad("01.2.3.4") && Address("01.2.3.4") == 0x0102_0304
  {
    OneDigit('0', "0");
    ValueOf("0", '1', "01");
    OneDigit('2', "2");
    OneDigit('3', "3");
    OneDigit('4', "4");
    assert "01" + "." + "2" + "." + "3" + "." + "4" == "01.2.3.4";
    FourSegments("01", "2", "3", "4", "01.2.3.4");
  }

  /** 256 is too much for an octet, */
  lemma TooLarge()
    ensures !DottedQuad("256.0.0.1")
  {
    OneDigit('0', "0");
    OneDigit('1', "1");
    OneDigit('2', "2");
    ValueOf("2", '5', "25");
    ValueOf("25", '6', "256");
    assert "256" + "." + "0" + "." + "0" + "." + "1" == "256.0.0.1";
    FourSegments("256", "0", "0", "1", "256.0.0.1");
  }

  /** and three segments are too few. */
  lemma TooFew()
    ensures !DottedQuad("1.2.3")
  {
    OneDigit('1', "1");
    OneDigit('2', "2");
    OneDigit('3', "3");
    SplitDigits("1");
    SplitSegment("1", "2");
    assert "1" + "." + "2" == "1.2" && "1.2" + "." + "3" == "1.2.3";
    SplitSegment("1.2", "3");
  }
}
