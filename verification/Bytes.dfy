/** Bytes and little-endian numbers of fixed width. */
module Bytes {
  type Byte = x: int | 0 <= x < 256

  /** Truncation to an unsigned 16-bit number (`as u16`, or a wrapping sum). */
  function Wrap16(n: nat): (r: nat)
    ensures r < 0x1_0000
  {
    n % 0x1_0000
  }

  /** Truncation to an unsigned 32-bit number. */
  function Wrap32(n: nat): (r: nat)
    ensures r < 0x1_0000_0000
  {
    n % 0x1_0000_0000
  }

  /** `n.to_le_bytes()` of a `k`-byte unsigned integer; higher bits are cut off. */
  function LittleEndian(n: nat, k: nat): (b: seq<Byte>)
    ensures |b| == k
    decreases k
  {
    if k == 0 then [] else [n % 256] + LittleEndian(n / 256, k - 1)
  }

  function FromLittleEndian(b: seq<Byte>): nat {
    if b == [] then 0 else b[0] + 256 * FromLittleEndian(b[1..])
  }

  lemma Unfold2(n: nat)
    ensures LittleEndian(n, 2) == [n % 256, n / 256 % 256]
  {
    assert LittleEndian(n / 256, 1) == [n / 256 % 256] + LittleEndian(n / 256 / 256, 0);
  }

  lemma Unfold4(n: nat)
    ensures LittleEndian(n, 4)
         == [n % 256, n / 256 % 256, n / 0x1_0000 % 256, n / 0x100_0000 % 256]
  {
    Unfold2(n / 0x1_0000);
    assert n / 256 / 256 == n / 0x1_0000 && n / 0x1_0000 / 256 == n / 0x100_0000;
    assert LittleEndian(n / 256, 3) == [n / 256 % 256] + LittleEndian(n / 256 / 256, 2);
  }

  lemma Sum2(b: seq<Byte>)
    requires |b| == 2
    ensures FromLittleEndian(b) == b[0] + 256 * (b[1] as int)
  {
    assert b[1..][1..] == [];
    assert FromLittleEndian(b[1..]) == b[1] + 256 * FromLittleEndian([]);
  }

  lemma Sum4(b: seq<Byte>)
    requires |b| == 4
    ensures FromLittleEndian(b)
         == b[0] + 256 * (b[1] as int) + 0x1_0000 * (b[2] as int) + 0x100_0000 * (b[3] as int)
  {
    var c := b[2..];
    assert b[1..][1..] == c;
    Sum2(c);
    assert FromLittleEndian(b[1..]) == b[1] + 256 * FromLittleEndian(c);
  }

  lemma RoundTrip2(n: nat)
    ensures FromLittleEndian(LittleEndian(n, 2)) == Wrap16(n)
  {
    Unfold2(n);
    Sum2(LittleEndian(n, 2));
  }

  lemma RoundTrip4(n: nat)
    ensures FromLittleEndian(LittleEndian(n, 4)) == Wrap32(n)
  {
    hide LittleEndian, FromLittleEndian;
    Unfold4(n);
    Sum4(LittleEndian(n, 4));
    FourDigits(n);
  }

  lemma FourDigits(n: nat)
    ensures n % 256 + 256 * (n / 256 % 256) + 0x1_0000 * (n / 0x1_0000 % 256) + 0x100_0000 * (n / 0x100_0000 % 256)
         == Wrap32(n)
  {
    var a, b, c := n / 256, n / 0x1_0000, n / 0x100_0000;
    assert a / 256 == b && b / 256 == c;
    assert n == n % 256 + 256 * (a % 256) + 0x1_0000 * (b % 256) + 0x100_0000 * c;
    Remainder32(n, c / 256, n % 256 + 256 * (a % 256) + 0x1_0000 * (b % 256) + 0x100_0000 * (c % 256));
  }

  /** Only the low bits reach the bytes. */
  lemma Cut2(n: nat)
    ensures LittleEndian(Wrap16(n), 2) == LittleEndian(n, 2)
  {
    Unfold2(n);
    Unfold2(Wrap16(n));
    LowDigits(n, Wrap16(n), n / 0x1_0000);
  }

  lemma Cut4(n: nat)
    ensures LittleEndian(Wrap32(n), 4) == LittleEndian(n, 4)
  {
    Unfold4(n);
    Unfold4(Wrap32(n));
    Digits4(n, Wrap32(n), n / 0x1_0000_0000);
  }

  lemma Digits4(n: nat, m: nat, q: nat)
    requires n == q * 0x1_0000_0000 + m
    ensures n % 256 == m % 256 && n / 256 % 256 == m / 256 % 256
    ensures n / 0x1_0000 % 256 == m / 0x1_0000 % 256
    ensures n / 0x100_0000 % 256 == m / 0x100_0000 % 256
  {
    LowDigits(n, m, q * 0x1_0000);
    LowDigits(n / 0x1_0000, m / 0x1_0000, q);
    assert n / 0x1_0000 / 256 == n / 0x100_0000 && m / 0x1_0000 / 256 == m / 0x100_0000;
  }

  lemma ByteOf(n: nat, m: nat, q: nat)
    requires n == 256 * q + m
    ensures n % 256 == m % 256
  {
  }

  lemma LowDigits(n: nat, m: nat, q: nat)
    requires n == q * 0x1_0000 + m
    ensures n % 256 == m % 256 && n / 256 % 256 == m / 256 % 256
  {
    ByteOf(n, m, 256 * q);
    ByteOf(n / 256, m / 256, q);
  }

  lemma AddWraps(a: nat, b: nat)
    ensures Wrap16(Wrap16(a) + b) == Wrap16(a + b)
    ensures Wrap32(Wrap32(a) + b) == Wrap32(a + b)
  {
    var x, y := Wrap16(a) + b, Wrap32(a) + b;
    Remainder16(a + b, a / 0x1_0000 + x / 0x1_0000, x % 0x1_0000);
    Remainder32(a + b, a / 0x1_0000_0000 + y / 0x1_0000_0000, y % 0x1_0000_0000);
  }

  lemma Remainder16(n: nat, q: nat, r: nat)
    requires r < 0x1_0000 && n == q * 0x1_0000 + r
    ensures Wrap16(n) == r
  {
  }

  lemma Remainder32(n: nat, q: nat, r: nat)
    requires r < 0x1_0000_0000 && n == q * 0x1_0000_0000 + r
    ensures Wrap32(n) == r
  {
  }
}
