/** The table-driven CRC-32 of the archive export, against the bit-serial definition.

    A 32-bit register is the sequence of its bits, least significant first, so that
    `c >> 1` is `Shift(c, 1)` and `c & 1 != 0` is `c[0]`. */
module Crc32 {
  import opened Bytes

  type Bits = seq<bool>

  const WIDTH: nat := 32

  predicate IsWord(c: Bits) { |c| == WIDTH }

  type Word = c: Bits | IsWord(c) witness Zeros(WIDTH)

  function Zeros(n: nat): (z: Bits)
    ensures |z| == n && forall i :: 0 <= i < n ==> !z[i]
  {
    seq(n, i => false)
  }

  function Xor(a: Bits, b: Bits): (r: Bits)
    requires |a| == |b|
    ensures |r| == |a| && forall i :: 0 <= i < |a| ==> r[i] == (a[i] != b[i])
  {
    seq(|a|, i requires 0 <= i < |a| => a[i] != b[i])
  }

  /** Logical shift to the right by `n`. */
  function Shift(c: Bits, n: nat): (r: Bits)
    requires n <= |c|
    ensures |r| == |c|
  {
    c[n..] + Zeros(n)
  }

  /** The `k` low bits of a number. */
  function BitsOf(n: nat, k: nat): (b: Bits)
    ensures |b| == k
    decreases k
  {
    if k == 0 then [] else [n % 2 == 1] + BitsOf(n / 2, k - 1)
  }

  function Value(b: Bits): nat {
    if b == [] then 0 else (if b[0] then 1 else 0) + 2 * Value(b[1..])
  }

  function Pow2(n: nat): (p: nat)
    ensures p > 0
  {
    if n == 0 then 1 else 2 * Pow2(n - 1)
  }

  lemma {:induction false} ValueBound(b: Bits)
    ensures Value(b) < Pow2(|b|)
  {
    if b != [] {
      ValueBound(b[1..]);
    }
  }

  lemma Pow2Values()
    ensures Pow2(8) == 256 && Pow2(31) == 0x8000_0000 && Pow2(32) == 0x1_0000_0000
  {
    assert Pow2(4) == 16;
    assert Pow2(8) == 256;
    assert Pow2(12) == 0x1000;
    assert Pow2(16) == 0x1_0000;
    assert Pow2(20) == 0x10_0000;
    assert Pow2(24) == 0x100_0000;
    assert Pow2(28) == 0x1000_0000;
  }

  lemma {:induction false} BitsOfValue(b: Bits)
    ensures BitsOf(Value(b), |b|) == b
  {
    if b != [] {
      BitsOfValue(b[1..]);
      assert Value(b) / 2 == Value(b[1..]);
      assert b == [b[0]] + b[1..];
    }
  }

  // ---------------------------------------------------------------- reference

  /** The reflected generator polynomial (section 8 of RFC 1952). */
  const POLYNOMIAL: Word := BitsOf(0xEDB88320, WIDTH)

  function Ones(n: nat): (b: Bits)
    ensures |b| == n && forall i :: 0 <= i < n ==> b[i]
  {
    seq(n, i => true)
  }

  const ONES: Word := Ones(WIDTH)

  /** One message bit enters the shift register. */
  function ShiftIn(c: Word, bit: bool): Word {
    if c[0] != bit then Xor(Shift(c, 1), POLYNOMIAL) else Shift(c, 1)
  }

  /** The register after a whole bit stream. */
  function Serial(c: Word, stream: Bits): Word
    decreases |stream|
  {
    if stream == [] then c else Serial(ShiftIn(c, stream[0]), stream[1..])
  }

  /** The message as a bit stream, each byte from its low end. */
  function Stream(data: seq<Byte>): (b: Bits)
    ensures |b| == 8 * |data|
  {
    if data == [] then [] else BitsOf(data[0], 8) + Stream(data[1..])
  }

  /** CRC-32 one bit at a time: register preset to ones, complemented at the end. */
  function Reference(data: seq<Byte>): Word {
    Xor(Serial(ONES, Stream(data)), ONES)
  }

  lemma OneBit(n: nat, k: nat)
    ensures BitsOf(n, k + 1) == [n % 2 == 1] + BitsOf(n / 2, k)
  {
  }

  lemma FourBits(n: nat, k: nat)
    ensures BitsOf(n, k + 4) == [n % 2 == 1, n / 2 % 2 == 1, n / 4 % 2 == 1, n / 8 % 2 == 1] + BitsOf(n / 16, k)
  {
    hide BitsOf;
    OneBit(n, k + 3);
    OneBit(n / 2, k + 2);
    OneBit(n / 4, k + 1);
    OneBit(n / 8, k);
    assert n / 2 / 2 == n / 4 && n / 4 / 2 == n / 8 && n / 8 / 2 == n / 16;
  }

  /** Two hexadecimal digits of a word. */
  lemma TwoDigits(high: nat, low: nat, rest: nat, k: nat)
    requires high < 16 && low < 16
    ensures BitsOf(256 * rest + 16 * high + low, k + 8)
         == [low % 2 == 1, low / 2 % 2 == 1, low / 4 % 2 == 1, low / 8 % 2 == 1,
             high % 2 == 1, high / 2 % 2 == 1, high / 4 % 2 == 1, high / 8 % 2 == 1] + BitsOf(rest, k)
  {
    hide BitsOf;
    var n := 256 * rest + 16 * high + low;
    FourBits(n, k + 4);
    FourBits(n / 16, k);
    LowDigit(n, 16 * rest + high, low);
    LowDigit(n / 16, rest, high);
  }

  lemma LowDigit(n: nat, q: nat, d: nat)
    requires n == 16 * q + d && d < 16
    ensures n / 16 == q && n % 2 == d % 2 && n / 2 % 2 == d / 2 % 2 && n / 4 % 2 == d / 4 % 2 && n / 8 % 2 == d / 8 % 2
  {
    Halved(n, 8 * q, d);
    Halved(n / 2, 4 * q, d / 2);
    Halved(n / 4, 2 * q, d / 4);
    Halved(n / 8, q, d / 8);
    assert n / 2 / 2 == n / 4 && n / 4 / 2 == n / 8 && d / 2 / 2 == d / 4 && d / 4 / 2 == d / 8;
  }

  lemma Halved(n: nat, q: nat, d: nat)
    requires n == 2 * q + d
    ensures n % 2 == d % 2 && n / 2 == q + d / 2
  {
  }

  /** The powers in the generator of section 8 of RFC 1952 (ISO 3309) below the 32nd. */
  const POWERS: set<nat> := {0, 1, 2, 4, 5, 7, 8, 10, 11, 12, 16, 22, 23, 26}

  /** The generator is that polynomial, its highest power in the lowest bit. */
  lemma GeneratorIs(i: nat)
    requires i < WIDTH
    ensures POLYNOMIAL[31 - i] <==> i in POWERS
  {
    hide BitsOf;
    TwoDigits(0x2, 0x0, 0xEDB883, 24);
    TwoDigits(0x8, 0x3, 0xEDB8, 16);
    TwoDigits(0xB, 0x8, 0xED, 8);
    TwoDigits(0xE, 0xD, 0, 0);
  }

  /** The register starts with all bits set, and the checksum is its complement. */
  lemma PresetAndComplement(data: seq<Byte>, i: nat)
    requires i < WIDTH
    ensures ONES[i] && Reference(data)[i] == !Serial(ONES, Stream(data))[i]
  {
    hide Serial, Stream;
  }

  // -------------------------------------------------------------------- code

  /** One turn of the inner loop that fills the table. */
  function BitStep(c: Word): Word {
    if c[0] then Xor(POLYNOMIAL, Shift(c, 1)) else Shift(c, 1)
  }

  function Steps(c: Word, n: nat): Word {
    if n == 0 then c else BitStep(Steps(c, n - 1))
  }

  function Entry(k: nat): Word {
    Steps(BitsOf(k, WIDTH), 8)
  }

  /** The lookup table: entry k is byte k after eight bit steps. */
  method FillTable() returns (table: array<Word>)
    ensures fresh(table) && table.Length == 256
    ensures forall k :: 0 <= k < 256 ==> table[k] == Entry(k)
  {
    hide BitsOf, BitStep;
    table := new Word[256];
    for i := 0 to 256
      invariant forall k :: 0 <= k < i ==> table[k] == Entry(k)
    {
      var c: Word := BitsOf(i, WIDTH);
      for n := 0 to 8
        invariant c == Steps(BitsOf(i, WIDTH), n)
      {
        c := BitStep(c);
      }
      table[i] := c;
    }
  }

  /** `crc32`: one lookup per byte. */
  method Compute(data: seq<Byte>) returns (crc: Word)
    ensures crc == Reference(data)
  {
    hide BitsOf, Serial, Stream, Value, Entry;
    var table := FillTable();
    crc := ONES;
    StreamEmpty();
    for j := 0 to |data|
      invariant crc == Serial(ONES, Stream(data[..j]))
      invariant forall k :: 0 <= k < 256 ==> table[k] == Entry(k)
    {
      StreamSnoc(data[..j], data[j]);
      assert data[..j] + [data[j]] == data[..j + 1];
      SerialConcat(ONES, Stream(data[..j]), BitsOf(data[j], 8));
      ByteByTable(crc, data[j]);
      var slot := Value(Xor(crc, BitsOf(data[j], WIDTH))[..8]);
      assert Serial(ONES, Stream(data[..j + 1])) == Serial(crc, BitsOf(data[j], 8));
      crc := Xor(table[slot], Shift(crc, 8));
    }
    assert data[..|data|] == data;
    crc := Xor(crc, ONES);
  }

  lemma StreamEmpty()
    ensures Serial(ONES, Stream([])) == ONES
  {
  }

  // -------------------------------------------------------- table = bit steps

  lemma StepXor(a: Word, b: Word)
    ensures BitStep(Xor(a, b)) == Xor(BitStep(a), BitStep(b))
  {
    assert Shift(Xor(a, b), 1) == Xor(Shift(a, 1), Shift(b, 1));
  }

  /** The register step is linear over GF(2). */
  lemma {:induction false} StepsXor(a: Word, b: Word, n: nat)
    ensures Steps(Xor(a, b), n) == Xor(Steps(a, n), Steps(b, n))
  {
    if n > 0 {
      StepsXor(a, b, n - 1);
      StepXor(Steps(a, n - 1), Steps(b, n - 1));
    }
  }

  /** While the low bits are clear, a step only shifts. */
  lemma {:induction false} StepsOfRaised(y: Word, n: nat)
    requires n <= WIDTH && forall i :: 0 <= i < n ==> !y[i]
    ensures Steps(y, n) == Shift(y, n)
  {
    if n == 0 {
      assert Shift(y, 0) == y;
    } else {
      StepsOfRaised(y, n - 1);
      RaisedStep(y, n - 1);
    }
  }

  lemma RaisedStep(y: Word, n: nat)
    requires n < WIDTH && !y[n]
    ensures BitStep(Shift(y, n)) == Shift(y, n + 1)
  {
    hide Xor;
    assert Shift(Shift(y, n), 1) == Shift(y, n + 1);
  }

  /** Eight bit steps are one lookup on the low byte and a shift by a byte. */
  lemma EightSteps(x: Word)
    ensures Value(x[..8]) < 256
    ensures Steps(x, 8) == Xor(Entry(Value(x[..8])), Shift(x, 8))
  {
    var low, high := x[..8] + Zeros(24), Zeros(8) + x[8..];
    assert Xor(low, high) == x;
    StepsXor(low, high, 8);
    StepsOfRaised(high, 8);
    assert Shift(high, 8) == Shift(x, 8);
    LowByteIndex(x[..8]);
  }

  lemma LowByteIndex(b: Bits)
    requires |b| == 8
    ensures Value(b) < 256 && BitsOf(Value(b), WIDTH) == b + Zeros(24)
  {
    ValueBound(b);
    Pow2Values();
    BitsOfValue(b);
    BitsOfSmall(Value(b), 8, 24);
  }

  lemma {:induction false} BitsOfSmall(n: nat, k: nat, m: nat)
    requires n < Pow2(k)
    ensures BitsOf(n, k + m) == BitsOf(n, k) + Zeros(m)
    decreases k + m
  {
    if k > 0 {
      BitsOfSmall(n / 2, k - 1, m);
    } else if m > 0 {
      BitsOfSmall(0, 0, m - 1);
      assert [false] + Zeros(m - 1) == Zeros(m);
    }
  }

  lemma {:induction false} StepsFront(x: Word, n: nat)
    requires n > 0
    ensures Steps(x, n) == Steps(BitStep(x), n - 1)
  {
    if n > 1 {
      StepsFront(x, n - 1);
    }
  }

  lemma ShiftInStep(c: Word, m: Word)
    ensures Xor(ShiftIn(c, m[0]), Shift(m, 1)) == BitStep(Xor(c, m))
  {
    assert Xor(Shift(c, 1), Shift(m, 1)) == Shift(Xor(c, m), 1);
  }

  /** Feeding up to a word of bits one by one is mixing them in first and stepping. */
  lemma {:induction false} SerialSteps(c: Word, b: Bits)
    requires |b| <= WIDTH
    ensures Serial(c, b) == Steps(Xor(c, b + Zeros(WIDTH - |b|)), |b|)
    decreases |b|
  {
    var padded := b + Zeros(WIDTH - |b|);
    if b == [] {
      assert Xor(c, padded) == c;
    } else {
      hide BitStep, ShiftIn, Xor;
      ShiftInStep(c, padded);
      assert b[1..] + Zeros(WIDTH - |b| + 1) == Shift(padded, 1);
      SerialSteps(ShiftIn(c, b[0]), b[1..]);
      StepsFront(Xor(c, padded), |b|);
    }
  }

  lemma ByteByTable(c: Word, b: Byte)
    ensures var x := Xor(c, BitsOf(b, WIDTH));
            && Value(x[..8]) < 256
            && Serial(c, BitsOf(b, 8)) == Xor(Entry(Value(x[..8])), Shift(c, 8))
  {
    hide BitsOf, Steps, Serial, Value;
    var wide := BitsOf(b, WIDTH);
    ByteWord(b);
    SerialSteps(c, BitsOf(b, 8));
    EightSteps(Xor(c, wide));
    assert Shift(Xor(c, wide), 8) == Shift(c, 8);
  }

  lemma ByteWord(b: Byte)
    ensures BitsOf(b, WIDTH) == BitsOf(b, 8) + Zeros(24)
  {
    Pow2Values();
    BitsOfSmall(b, 8, 24);
  }

  lemma {:induction false} SerialConcat(c: Word, a: Bits, b: Bits)
    ensures Serial(c, a + b) == Serial(Serial(c, a), b)
    decreases |a|
  {
    if a == [] {
      assert a + b == b;
    } else {
      assert (a + b)[1..] == a[1..] + b;
      SerialConcat(ShiftIn(c, a[0]), a[1..], b);
    }
  }

  lemma {:induction false} StreamSnoc(data: seq<Byte>, x: Byte)
    ensures Stream(data + [x]) == Stream(data) + BitsOf(x, 8)
  {
    if data == [] {
      assert Stream([x]) == BitsOf(x, 8) + Stream([x][1..]);
    } else {
      assert (data + [x])[1..] == data[1..] + [x];
      StreamSnoc(data[1..], x);
    }
  }

  // ------------------------------------------------------- what a CRC is for

  lemma {:induction false} TopBit(n: nat, k: nat)
    requires k > 0 && Pow2(k - 1) <= n < Pow2(k)
    ensures BitsOf(n, k)[k - 1]
    decreases k
  {
    if k > 1 {
      TopBit(n / 2, k - 1);
    }
  }

  lemma StepInjective(a: Word, b: Word)
    requires BitStep(a) == BitStep(b)
    ensures a == b
  {
    Pow2Values();
    TopBit(0xEDB88320, WIDTH);
    assert BitStep(a)[31] == a[0] && BitStep(b)[31] == b[0];
    forall i | 1 <= i < 32
      ensures a[i] == b[i]
    {
      assert BitStep(a)[i - 1] == BitStep(b)[i - 1];
      assert Shift(a, 1)[i - 1] == a[i] && Shift(b, 1)[i - 1] == b[i];
    }
  }

  lemma {:induction false} StepsInjective(a: Word, b: Word, n: nat)
    requires Steps(a, n) == Steps(b, n)
    ensures a == b
  {
    if n > 0 {
      StepInjective(Steps(a, n - 1), Steps(b, n - 1));
      StepsInjective(a, b, n - 1);
    }
  }

  lemma ShiftInIsStep(a: Word, bit: bool)
    ensures ShiftIn(a, bit) == Steps(Xor(a, [bit] + Zeros(31)), 1)
  {
    hide Xor, Shift, BitStep, ShiftIn, Steps;
    SerialSteps(a, [bit]);
    OneShift(a, bit);
  }

  lemma OneShift(a: Word, bit: bool)
    ensures Serial(a, [bit]) == ShiftIn(a, bit)
  {
    hide ShiftIn;
    assert [bit][1..] == [];
  }

  lemma ShiftInInjective(a: Word, b: Word, bit: bool)
    requires ShiftIn(a, bit) == ShiftIn(b, bit)
    ensures a == b
  {
    hide Xor, Shift, BitStep, ShiftIn, Steps, Serial;
    var pad := [bit] + Zeros(31);
    ShiftInIsStep(a, bit);
    ShiftInIsStep(b, bit);
    StepsInjective(Xor(a, pad), Xor(b, pad), 1);
    XorCancel(a, b, pad);
  }

  lemma {:induction false} SerialInjective(a: Word, b: Word, stream: Bits)
    requires Serial(a, stream) == Serial(b, stream)
    ensures a == b
    decreases |stream|
  {
    hide ShiftIn;
    if stream != [] {
      SerialInjective(ShiftIn(a, stream[0]), ShiftIn(b, stream[0]), stream[1..]);
      ShiftInInjective(a, b, stream[0]);
    }
  }

  lemma XorCancel(a: Bits, b: Bits, m: Bits)
    requires |a| == |b| == |m| && Xor(a, m) == Xor(b, m)
    ensures a == b
  {
    forall i | 0 <= i < |a|
      ensures a[i] == b[i]
    {
      assert Xor(a, m)[i] == Xor(b, m)[i];
    }
  }

  /** Bursts of at most 32 bits that leave the register the same are the same. */
  lemma BurstSeparates(c: Word, v: Bits, w: Bits)
    requires |v| == |w| <= WIDTH && Serial(c, v) == Serial(c, w)
    ensures v == w
  {
    var pad := Zeros(WIDTH - |v|);
    SerialSteps(c, v);
    SerialSteps(c, w);
    StepsInjective(Xor(c, v + pad), Xor(c, w + pad), |v|);
    assert Xor(v + pad, c) == Xor(c, v + pad) && Xor(w + pad, c) == Xor(c, w + pad);
    XorCancel(v + pad, w + pad, c);
    assert v == (v + pad)[..|v|] && w == (w + pad)[..|v|];
  }

  /** Any damage confined to 32 consecutive bits changes the checksum. */
  lemma BurstDetected(x: seq<Byte>, y: seq<Byte>, before: Bits, v: Bits, w: Bits, after: Bits)
    requires Stream(x) == before + v + after && Stream(y) == before + w + after
    requires |v| == |w| <= WIDTH && v != w
    ensures Reference(x) != Reference(y)
  {
    if Reference(x) == Reference(y) {
      var c := Serial(ONES, before);
      SerialConcat(ONES, before + v, after);
      SerialConcat(ONES, before + w, after);
      SerialConcat(ONES, before, v);
      SerialConcat(ONES, before, w);
      XorCancel(Serial(Serial(c, v), after), Serial(Serial(c, w), after), ONES);
      SerialInjective(Serial(c, v), Serial(c, w), after);
      BurstSeparates(c, v, w);
    }
  }
}
