/** UTF-8: `String` to bytes, and `String::from_utf8_lossy` back. */
module Utf8 {
  import opened Bytes

  const REPLACEMENT: char := '\U{FFFD}'

  function EncodeChar(c: char): (b: seq<Byte>)
    ensures 1 <= |b| <= 4
  {
    var n := c as int;
    if n < 0x80 then [n]
    else if n < 0x800 then [0xC0 + n / 64, 0x80 + n % 64]
    else if n < 0x1_0000 then [0xE0 + n / 4096, 0x80 + n / 64 % 64, 0x80 + n % 64]
    else [0xF0 + n / 0x4_0000, 0x80 + n / 4096 % 64, 0x80 + n / 64 % 64, 0x80 + n % 64]
  }

  function Encode(s: string): seq<Byte> {
    if s == "" then [] else EncodeChar(s[0]) + Encode(s[1..])
  }

  /** `str::len`. */
  function Len(s: string): nat {
    |Encode(s)|
  }

  /** The byte at `i`, zero past the end (zero never continues a sequence). */
  function Get(b: seq<Byte>, i: nat): Byte {
    if i < |b| then b[i] else 0
  }

  predicate Continues(x: Byte) { 0x80 <= x < 0xC0 }

  /** The second byte may not make a short form too long, a surrogate, or too large. */
  predicate SecondOk(first: Byte, second: Byte) {
    && Continues(second)
    && (first == 0xE0 ==> second >= 0xA0)
    && (first == 0xED ==> second < 0xA0)
    && (first == 0xF0 ==> second >= 0x90)
    && (first == 0xF4 ==> second < 0x90)
  }

  /** The next character and how many bytes it takes; a broken sequence gives one
      replacement character for its valid beginning. */
  function DecodeOne(b: seq<Byte>): (r: (char, nat))
    requires b != []
    ensures 1 <= r.1 <= 4 && r.1 <= |b|
  {
    var b0, b1, b2, b3 := b[0] as int, Get(b, 1) as int, Get(b, 2) as int, Get(b, 3) as int;
    if b0 < 0x80 then (b0 as char, 1)
    else if b0 < 0xC2 || b0 > 0xF4 || !SecondOk(b0, b1) then (REPLACEMENT, 1)
    else if b0 < 0xE0 then (((b0 - 0xC0) * 64 + (b1 - 0x80)) as char, 2)
    else if !Continues(b2) then (REPLACEMENT, 2)
    else if b0 < 0xF0 then (((b0 - 0xE0) * 4096 + (b1 - 0x80) * 64 + (b2 - 0x80)) as char, 3)
    else if !Continues(b3) then (REPLACEMENT, 3)
    else (((b0 - 0xF0) * 0x4_0000 + (b1 - 0x80) * 4096 + (b2 - 0x80) * 64 + (b3 - 0x80)) as char, 4)
  }

  /** `String::from_utf8_lossy`. */
  function Decode(b: seq<Byte>): string {
    if b == [] then ""
    else
      var (c, n) := DecodeOne(b);
      [c] + Decode(b[n..])
  }

  lemma CharRoundTrip(c: char, rest: seq<Byte>)
    ensures DecodeOne(EncodeChar(c) + rest) == (c, |EncodeChar(c)|)
  {
    var n := c as int;
    var b := EncodeChar(c) + rest;
    if n < 0x80 {
    } else if n < 0x800 {
      assert b[0] == 0xC0 + n / 64 && b[1] == 0x80 + n % 64;
    } else if n < 0x1_0000 {
      assert b[0] == 0xE0 + n / 4096 && b[1] == 0x80 + n / 64 % 64 && b[2] == 0x80 + n % 64;
      Digits3(n);
    } else {
      assert b[0] == 0xF0 + n / 0x4_0000 && b[1] == 0x80 + n / 4096 % 64;
      assert b[2] == 0x80 + n / 64 % 64 && b[3] == 0x80 + n % 64;
      Digits4(n);
    }
  }

  lemma Digits3(n: nat)
    requires 0x800 <= n < 0x1_0000 && !(0xD800 <= n < 0xE000)
    ensures n == n / 4096 * 4096 + n / 64 % 64 * 64 + n % 64
    ensures SecondOk(0xE0 + n / 4096, 0x80 + n / 64 % 64)
  {
    assert n / 64 == n / 4096 * 64 + n / 64 % 64;
  }

  lemma Digits4(n: nat)
    requires 0x1_0000 <= n < 0x11_0000
    ensures n == n / 0x4_0000 * 0x4_0000 + n / 4096 % 64 * 4096 + n / 64 % 64 * 64 + n % 64
    ensures SecondOk(0xF0 + n / 0x4_0000, 0x80 + n / 4096 % 64)
  {
    assert n / 64 == n / 4096 * 64 + n / 64 % 64;
    assert n / 4096 == n / 0x4_0000 * 64 + n / 4096 % 64;
  }

  /** Only the one encoding of a character is read as it: no long forms, no surrogates. */
  lemma OnlyEncodedIsRead(b: seq<Byte>)
    requires b != []
    ensures var (c, n) := DecodeOne(b); c == REPLACEMENT || b[..n] == EncodeChar(c)
  {
    var (c, n) := DecodeOne(b);
    var b0, b1, b2, b3 := b[0] as int, Get(b, 1) as int, Get(b, 2) as int, Get(b, 3) as int;
    if c != REPLACEMENT && n > 1 {
      assert b[..n] == [b[0], b[1]] + b[2..n];
      if n == 2 {
        Split(c as int, b0 - 0xC0, b1 - 0x80);
        assert b[..2] == [b[0], b[1]];
      } else if n == 3 {
        Split(c as int, (b0 - 0xE0) * 64 + (b1 - 0x80), b2 - 0x80);
        Split(c as int / 64, b0 - 0xE0, b1 - 0x80);
        assert c as int / 64 / 64 == c as int / 4096;
        assert b[..3] == [b[0], b[1], b[2]];
      } else {
        Split(c as int, ((b0 - 0xF0) * 64 + (b1 - 0x80)) * 64 + (b2 - 0x80), b3 - 0x80);
        Split(c as int / 64, (b0 - 0xF0) * 64 + (b1 - 0x80), b2 - 0x80);
        Split(c as int / 4096, b0 - 0xF0, b1 - 0x80);
        assert c as int / 64 / 64 == c as int / 4096 && c as int / 4096 / 64 == c as int / 0x4_0000;
        assert b[..4] == [b[0], b[1], b[2], b[3]];
      }
    }
  }

  lemma Split(n: nat, q: nat, r: nat)
    requires n == 64 * q + r && r < 64
    ensures n / 64 == q && n % 64 == r
  {
  }

  lemma NothingIsEmpty()
    ensures Decode([]) == "" && Encode("") == []
  {
  }

  /** Decoding starts afresh after any run of whole characters. */
  lemma {:induction false} DecodeAfter(s: string, rest: seq<Byte>)
    ensures Decode(Encode(s) + rest) == s + Decode(rest)
  {
    if s == "" {
      assert Encode(s) + rest == rest;
    } else {
      hide EncodeChar, DecodeOne;
      var head := EncodeChar(s[0]);
      assert Encode(s) + rest == head + (Encode(s[1..]) + rest);
      CharRoundTrip(s[0], Encode(s[1..]) + rest);
      assert (Encode(s) + rest)[|head|..] == Encode(s[1..]) + rest;
      DecodeAfter(s[1..], rest);
    }
  }

  /** Text survives the trip through its bytes. */
  lemma RoundTrip(s: string)
    ensures Decode(Encode(s)) == s
  {
    DecodeAfter(s, []);
    assert Encode(s) + [] == Encode(s);
  }

  lemma {:induction false} EncodeConcat(s: string, t: string)
    ensures Encode(s + t) == Encode(s) + Encode(t)
  {
    if s == "" {
      assert s + t == t;
    } else {
      assert (s + t)[1..] == s[1..] + t;
      EncodeConcat(s[1..], t);
    }
  }

  // ------------------------------------------------- cuts inside characters

  /** Position `i` of the bytes is `j` bytes into character `k`, or between two. */
  predicate FallsAt(s: string, i: nat, k: nat, j: nat) {
    && i <= |Encode(s)| && k <= |s| && i == |Encode(s[..k])| + j
    && (j == 0 ==> Encode(s)[..i] == Encode(s[..k]) && Encode(s)[i..] == Encode(s[k..]))
    && (j > 0 ==>
          && k < |s| && j < |EncodeChar(s[k])|
          && Encode(s)[..i] == Encode(s[..k]) + EncodeChar(s[k])[..j]
          && Encode(s)[i..] == EncodeChar(s[k])[j..] + Encode(s[k + 1..]))
  }

  lemma InFirst(s: string, i: nat)
    requires s != "" && i < |EncodeChar(s[0])|
    ensures FallsAt(s, i, 0, i)
  {
    hide EncodeChar;
    var head, all := EncodeChar(s[0]), Encode(s);
    assert s[..0] == "" && s[0..] == s;
    assert all[..i] == [] + head[..i] && all[i..] == head[i..] + Encode(s[1..]);
  }

  lemma InOthers(s: string, i: nat, k: nat, j: nat)
    requires s != "" && FallsAt(s[1..], i, k, j)
    ensures FallsAt(s, |EncodeChar(s[0])| + i, k + 1, j)
  {
    hide EncodeChar, Encode;
    var head, t := EncodeChar(s[0]), s[1..];
    EncodeHead(s);
    EncodeHead(s[..k + 1]);
    assert s[..k + 1][1..] == t[..k] && s[..k + 1][0] == s[0] && t[k..] == s[k + 1..];
    BothParts(head, Encode(t), i);
    if j > 0 {
      assert t[k] == s[k + 1] && t[k + 1..] == s[k + 2..];
      assert head + (Encode(t[..k]) + EncodeChar(t[k])[..j]) == (head + Encode(t[..k])) + EncodeChar(t[k])[..j];
    }
  }

  lemma EncodeHead(s: string)
    requires s != ""
    ensures Encode(s) == EncodeChar(s[0]) + Encode(s[1..])
  {
    hide EncodeChar;
  }

  lemma BothParts(a: seq<Byte>, b: seq<Byte>, i: nat)
    requires i <= |b|
    ensures (a + b)[..|a| + i] == a + b[..i] && (a + b)[|a| + i..] == b[i..]
  {
  }

  /** Where position `i` of the bytes falls. */
  lemma {:induction false} Locate(s: string, i: nat) returns (k: nat, j: nat)
    requires i <= |Encode(s)|
    ensures FallsAt(s, i, k, j)
  {
    hide EncodeChar, FallsAt, Encode;
    if s == "" {
      NothingIsEmpty();
      k, j := 0, 0;
      assert FallsAt(s, i, k, j) by {
        NothingFalls();
      }
    } else {
      EncodeHead(s);
      var n := |EncodeChar(s[0])|;
      if i < n {
        k, j := 0, i;
        InFirst(s, i);
      } else {
        k, j := Locate(s[1..], i - n);
        InOthers(s, i - n, k, j);
        k := k + 1;
      }
    }
  }

  lemma NothingFalls()
    ensures FallsAt("", 0, 0, 0)
  {
    NothingIsEmpty();
  }

  /** The beginning of a cut character decodes to one replacement, and its other bytes all
      continue a sequence. */
  lemma CutCharacter(c: char, j: nat)
    requires 0 < j < |EncodeChar(c)|
    ensures Decode(EncodeChar(c)[..j]) == [REPLACEMENT]
    ensures forall x :: x in EncodeChar(c)[j..] ==> Continues(x)
  {
    var n := c as int;
    var b := EncodeChar(c)[..j];
    CharRoundTrip(c, []);
    assert EncodeChar(c) + [] == EncodeChar(c);
    assert DecodeOne(b) == (REPLACEMENT, j);
    assert b[j..] == [];
    assert Decode([]) == "";
  }

  /** Bytes that only continue a sequence decode to one replacement each. */
  lemma {:induction false} StrayBytes(t: seq<Byte>, rest: seq<Byte>)
    requires forall x :: x in t ==> Continues(x)
    ensures |Decode(t + rest)| == |t| + |Decode(rest)|
  {
    if t == [] {
      assert t + rest == rest;
    } else {
      assert t[0] in t;
      assert DecodeOne(t + rest) == (REPLACEMENT, 1);
      assert (t + rest)[1..] == t[1..] + rest;
      StrayBytes(t[1..], rest);
    }
  }

  /** What a cut costs: a cut inside a character makes the decoded text longer. */
  lemma CutLength(s: string, i: nat, k: nat, j: nat)
    requires i <= |Encode(s)| && 0 < j && k < |s| && j < |EncodeChar(s[k])|
    requires Encode(s)[..i] == Encode(s[..k]) + EncodeChar(s[k])[..j]
    requires Encode(s)[i..] == EncodeChar(s[k])[j..] + Encode(s[k + 1..])
    ensures |Decode(Encode(s)[..i])| == k + 1 && |Decode(Encode(s)[i..])| >= |s| - k
  {
    hide Encode, EncodeChar, Decode;
    CutCharacter(s[k], j);
    DecodeAfter(s[..k], EncodeChar(s[k])[..j]);
    StrayBytes(EncodeChar(s[k])[j..], Encode(s[k + 1..]));
    RoundTrip(s[k + 1..]);
  }

  /** Decoding the two parts of a cut text on their own gives the text exactly when the cut
      is between two characters. */
  lemma CutKeepsTextIff(s: string, i: nat)
    requires i <= |Encode(s)|
    ensures Decode(Encode(s)[..i]) + Decode(Encode(s)[i..]) == s
       <==> exists k :: 0 <= k <= |s| && i == |Encode(s[..k])|
  {
    hide Encode, EncodeChar, Decode;
    var k, j := Locate(s, i);
    if j == 0 {
      RoundTrip(s[..k]);
      RoundTrip(s[k..]);
      assert s[..k] + s[k..] == s;
    } else {
      CutLength(s, i, k, j);
      forall m | 0 <= m <= |s|
        ensures i != |Encode(s[..m])|
      {
        Grows(s, m, k);
        Grows(s, k + 1, m);
        NextWidth(s, k);
      }
    }
  }

  lemma NextWidth(s: string, k: nat)
    requires k < |s|
    ensures |Encode(s[..k + 1])| == |Encode(s[..k])| + |EncodeChar(s[k])|
  {
    hide EncodeChar;
    assert s[..k + 1] == s[..k] + [s[k]];
    EncodeConcat(s[..k], [s[k]]);
    assert Encode([s[k]]) == EncodeChar(s[k]) + [];
  }

  lemma {:induction false} Grows(s: string, j: nat, k: nat)
    requires j <= |s| && k <= |s|
    ensures j <= k ==> |Encode(s[..j])| <= |Encode(s[..k])|
    decreases k
  {
    hide Encode;
    if j < k {
      NextWidth(s, k - 1);
      Grows(s, j, k - 1);
    }
  }
}
