/** Machine words and their byte layouts.

    The C integer types are subset types of `int`: every assignment to one of them is a proof
    that the value fits, and the places where C wraps around are written out with `%`. */
module Bytes {
  type u8 = x: int | 0 <= x < 0x100
  type u16 = x: int | 0 <= x < 0x1_0000
  type u32 = x: int | 0 <= x < 0x1_0000_0000

  datatype Option<+T> = None | Some(value: T)

  /** The two bytes a little-endian CPU stores for a 16-bit value. */
  function Le16(x: u16): (b: seq<u8>)
    ensures |b| == 2
  {
    [x % 256, x / 256]
  }

  /** The raw 16-bit load of a little-endian CPU. */
  function Word(b: seq<u8>, i: nat): u16
    requires i + 2 <= |b|
  {
    b[i] as int + 256 * (b[i + 1] as int)
  }

  function Htons(x: u16): u16 {
    (x % 256) * 256 + x / 256
  }

  function Htonl(x: u32): u32 {
    (x % 0x100) * 0x100_0000 + (x / 0x100 % 0x100) * 0x1_0000 + (x / 0x1_0000 % 0x100) * 0x100 + x / 0x100_0000
  }

  /** Network order: most significant byte first. */
  function Be16(x: u16): (b: seq<u8>)
    ensures |b| == 2
  {
    [x / 256, x % 256]
  }

  function Be32(x: u32): (b: seq<u8>)
    ensures |b| == 4
  {
    [x / 0x100_0000, x / 0x1_0000 % 0x100, x / 0x100 % 0x100, x % 0x100]
  }

  function Get16(b: seq<u8>, i: nat): u16
    requires i + 2 <= |b|
  {
    256 * (b[i] as int) + b[i + 1] as int
  }

  function Get32(b: seq<u8>, i: nat): u32
    requires i + 4 <= |b|
  {
    0x100_0000 * (b[i] as int) + 0x1_0000 * (b[i + 1] as int) + 0x100 * (b[i + 2] as int) + b[i + 3] as int
  }

  /** The four bytes a little-endian CPU stores for a 32-bit value. */
  function Le32(x: u32): (b: seq<u8>)
    ensures |b| == 4
  {
    [x % 0x100, x / 0x100 % 0x100, x / 0x1_0000 % 0x100, x / 0x100_0000]
  }

  lemma SplitU32(x: u32)
    ensures x == (x / 0x100_0000) * 0x100_0000 + (x / 0x1_0000 % 0x100) * 0x1_0000 + (x / 0x100 % 0x100) * 0x100 + x % 0x100
  {
    var a := x / 0x100;
    var b := a / 0x100;
    assert x == 0x100 * a + x % 0x100;
    assert a == 0x100 * b + a % 0x100;
    assert b == x / 0x1_0000;
    assert b == 0x100 * (b / 0x100) + b % 0x100;
    assert b / 0x100 == x / 0x100_0000;
  }

  lemma NetworkOrder16(h: u16)
    ensures Le16(Htons(h)) == Be16(h) && Get16(Be16(h), 0) == h
  {
  }

  lemma NetworkOrder32(w: u32)
    ensures Le32(Htonl(w)) == Be32(w) && Get32(Be32(w), 0) == w
  {
    SplitU32(w);
    var y := Htonl(w);
    var a, b, c, d := w % 0x100, w / 0x100 % 0x100, w / 0x1_0000 % 0x100, w / 0x100_0000;
    assert y == ((a * 0x100 + b) * 0x100 + c) * 0x100 + d;
    assert y / 0x100 == (a * 0x100 + b) * 0x100 + c;
    assert y / 0x1_0000 == y / 0x100 / 0x100 == a * 0x100 + b;
    assert y / 0x100_0000 == y / 0x1_0000 / 0x100 == a;
    assert Le32(y) == [d, c, b, a];
  }

  /** Storing `htons(x)` or `htonl(x)` on this CPU lays the value out in network order, and loading
      network-order bytes gives the value back. */
  lemma NetworkOrder(h: u16, w: u32)
    ensures Le16(Htons(h)) == Be16(h) && Get16(Be16(h), 0) == h
    ensures Le32(Htonl(w)) == Be32(w) && Get32(Be32(w), 0) == w
  {
    NetworkOrder16(h);
    NetworkOrder32(w);
  }

  /** `memcpy_n` between two distinct buffers. */
  method MemCopy(dst: array<u8>, d: nat, src: array<u8>, s: nat, n: u16)
    requires dst != src && d + n <= dst.Length && s + n <= src.Length
    modifies dst
    ensures dst[..] == old(dst[..d]) + src[s..s + n] + old(dst[d + n..])
  {
    var i := 0;
    while i < n
      invariant 0 <= i <= n
      invariant dst[..d] == old(dst[..d])
      invariant dst[d..d + i] == src[s..s + i]
      invariant dst[d + i..] == old(dst[d + i..])
    {
      dst[d + i] := src[s + i];
      assert src[s..s + i + 1] == src[s..s + i] + [src[s + i]];
      assert dst[d..d + i + 1] == dst[d..d + i] + [dst[d + i]];
      i := i + 1;
    }
    assert dst[..] == dst[..d] + dst[d..d + n] + dst[d + n..];
  }

  /** Writes `bytes` into `buf` from `off` on. */
  method Put(buf: array<u8>, off: nat, bytes: seq<u8>)
    requires off + |bytes| <= buf.Length
    modifies buf
    ensures buf[..off + |bytes|] == old(buf[..off]) + bytes
    ensures forall i :: off + |bytes| <= i < buf.Length ==> buf[i] == old(buf[i])
  {
    for i := 0 to |bytes|
      invariant buf[..off + i] == old(buf[..off]) + bytes[..i]
      invariant forall j :: off + i <= j < buf.Length ==> buf[j] == old(buf[j])
    {
      ghost var done := buf[..off + i];
      buf[off + i] := bytes[i];
      assert buf[..off + i + 1] == done + [bytes[i]];
    }
  }
}
