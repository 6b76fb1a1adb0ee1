/** The string operations of Rust's standard library that the parsers use. */
module Text {
  datatype Option<+T> = None | Some(value: T)

  function OrElse<T>(a: Option<T>, b: Option<T>): Option<T> {
    if a.Some? then a else b
  }

  /** `char::is_whitespace` (the Unicode property White_Space). */
  predicate IsWhitespace(c: char) {
    var n := c as int;
    || 9 <= n <= 13 || n == 0x20 || n == 0x85 || n == 0xA0 || n == 0x1680
    || 0x2000 <= n <= 0x200A || n == 0x2028 || n == 0x2029 || n == 0x202F || n == 0x205F || n == 0x3000
  }

  /** `char::is_control` (the Unicode category Cc). */
  predicate IsControl(c: char) {
    c as int < 0x20 || 0x7F <= c as int < 0xA0
  }

  function TrimStart(s: string): (r: string)
    ensures |r| <= |s| && r == s[|s| - |r|..]
    ensures r != "" ==> !IsWhitespace(r[0])
    ensures forall i :: 0 <= i < |s| - |r| ==> IsWhitespace(s[i])
  {
    if s != "" && IsWhitespace(s[0]) then TrimStart(s[1..]) else s
  }

  function TrimEnd(s: string): (r: string)
    ensures |r| <= |s| && r == s[..|r|]
    ensures r != "" ==> !IsWhitespace(r[|r| - 1])
    ensures forall i :: |r| <= i < |s| ==> IsWhitespace(s[i])
  {
    if s != "" && IsWhitespace(s[|s| - 1]) then TrimEnd(s[..|s| - 1]) else s
  }

  function Trim(s: string): (r: string)
    ensures |r| <= |s|
    ensures r != "" ==> !IsWhitespace(r[0]) && !IsWhitespace(r[|r| - 1])
  {
    TrimEnd(TrimStart(s))
  }

  /** Neither end is white space. */
  predicate Trimmed(s: string) {
    s != "" ==> !IsWhitespace(s[0]) && !IsWhitespace(s[|s| - 1])
  }

  lemma TrimTrimmed(s: string)
    requires Trimmed(s)
    ensures Trim(s) == s
  {
  }

  predicate Blank(s: string) {
    forall c :: c in s ==> IsWhitespace(c)
  }

  lemma TrimBlank(s: string)
    ensures Trim(s) == "" <==> Blank(s)
  {
    var t := TrimStart(s);
    var r := TrimEnd(t);
    if r == "" {
      assert t == "";
      assert forall i :: 0 <= i < |s| ==> IsWhitespace(s[i]);
    } else {
      assert t[0] in s && !IsWhitespace(t[0]);
    }
  }

  lemma Halves(s: string, i: nat)
    requires i <= |s|
    ensures s[..i] + s[i..] == s
  {
  }

  lemma SliceIsBlank(s: string, i: nat)
    requires i <= |s| && forall j :: i <= j < |s| ==> IsWhitespace(s[j])
    ensures Blank(s[i..])
  {
    hide IsWhitespace;
  }

  /** Trimming takes white space off both ends and nothing else. */
  lemma TrimParts(s: string) returns (p: string, q: string)
    ensures s == p + Trim(s) + q && Blank(p) && Blank(q)
  {
    hide TrimStart, TrimEnd, IsWhitespace;
    var t := TrimStart(s);
    var r := TrimEnd(t);
    p, q := s[..|s| - |t|], t[|r|..];
    Halves(s, |s| - |t|);
    Halves(t, |r|);
    assert p + (r + q) == p + r + q;
    SliceIsBlank(t, |r|);
  }

  lemma NothingIsBlank()
    ensures Blank("")
  {
  }

  lemma BlankConcat(a: string, b: string)
    requires Blank(a) && Blank(b)
    ensures Blank(a + b)
  {
  }

  lemma TrimUnique(p: string, t: string, q: string)
    requires Blank(p) && Blank(q) && Trimmed(t)
    ensures Trim(p + t + q) == t
  {
    hide TrimStart, TrimEnd, IsWhitespace;
    if t == "" {
      BlankConcat(p, q);
      assert p + t + q == p + q;
      TrimBlank(p + q);
    } else {
      StartUnique(p, t + q);
      assert p + (t + q) == p + t + q;
      EndUnique(t, q);
    }
  }

  lemma {:induction false} StartUnique(p: string, t: string)
    requires Blank(p) && t != "" && !IsWhitespace(t[0])
    ensures TrimStart(p + t) == t
    decreases |p|
  {
    if p == "" {
      assert p + t == t;
    } else {
      assert p[0] in p;
      assert (p + t)[1..] == p[1..] + t;
      StartUnique(p[1..], t);
    }
  }

  lemma {:induction false} EndUnique(t: string, q: string)
    requires Blank(q) && t != "" && !IsWhitespace(t[|t| - 1])
    ensures TrimEnd(t + q) == t
    decreases |q|
  {
    if q == "" {
      assert t + q == t;
    } else {
      var n := |q| - 1;
      assert q[n] in q;
      assert (t + q)[..|t + q| - 1] == t + q[..n];
      EndUnique(t, q[..n]);
    }
  }

  /** The first position of `c`, or the length. */
  function Find(s: string, c: char): (i: nat)
    ensures i <= |s| && (i < |s| ==> s[i] == c)
    ensures forall j :: 0 <= j < i ==> s[j] != c
  {
    if s == "" || s[0] == c then 0 else 1 + Find(s[1..], c)
  }

  function SplitOnce(s: string, c: char): Option<(string, string)> {
    var i := Find(s, c);
    if i == |s| then None else Some((s[..i], s[i + 1..]))
  }

  /** `s.split(c)`. */
  function Split(s: string, c: char): (r: seq<string>)
    ensures |r| >= 1 && forall p :: p in r ==> c !in p
    decreases |s|
  {
    var i := Find(s, c);
    if i == |s| then [s] else [s[..i]] + Split(s[i + 1..], c)
  }

  lemma FindAt(s: string, c: char, i: nat)
    requires i <= |s| && (i < |s| ==> s[i] == c)
    requires forall j :: 0 <= j < i ==> s[j] != c
    ensures Find(s, c) == i
  {
  }

  lemma FindAppend(s: string, t: string, c: char)
    ensures Find(s + t, c) == if Find(s, c) < |s| then Find(s, c) else |s| + Find(t, c)
  {
    var i := Find(s, c);
    if i < |s| {
      assert (s + t)[i] == c;
      FindAt(s + t, c, i);
    } else {
      var k := Find(t, c);
      assert k < |t| ==> (s + t)[|s| + k] == t[k];
      forall j | 0 <= j < |s| + k
        ensures (s + t)[j] != c
      {
        assert j >= |s| ==> (s + t)[j] == t[j - |s|];
      }
      FindAt(s + t, c, |s| + k);
    }
  }

  /** Up to the first separator the pieces are the pieces of what follows it. */
  lemma SplitStep(s: string, c: char, t: string)
    requires c !in s
    ensures Split(s + [c] + t, c) == [s] + Split(t, c)
    ensures Split(s, c) == [s]
  {
    var all := s + [c] + t;
    assert all[|s|] == c;
    assert forall j :: 0 <= j < |s| ==> all[j] == s[j];
    FindAt(all, c, |s|);
    assert all[..|s|] == s && all[|s| + 1..] == t;
    FindAt(s, c, |s|);
  }

  lemma {:induction false} SplitConcat(a: string, b: string, c: char)
    ensures Split(a + [c] + b, c) == Split(a, c) + Split(b, c)
    decreases |a|
  {
    hide Split;
    var i := Find(a, c);
    if i == |a| {
      SplitStep(a, c, b);
    } else {
      var head, tail := a[..i], a[i + 1..];
      assert a == head + [c] + tail;
      assert a + [c] + b == head + [c] + (tail + [c] + b);
      SplitStep(head, c, tail);
      SplitStep(head, c, tail + [c] + b);
      SplitConcat(tail, b, c);
    }
  }

  predicate Contains(s: string, p: string) {
    exists i :: 0 <= i <= |s| && p <= s[i..]
  }

  function AsciiLowerChar(c: char): char {
    if 'A' <= c <= 'Z' then (c as int + 32) as char else c
  }

  /** `to_ascii_lowercase`. */
  function AsciiLower(s: string): (r: string)
    ensures |r| == |s| && forall i :: 0 <= i < |s| ==> r[i] == AsciiLowerChar(s[i])
  {
    if s == "" then "" else [AsciiLowerChar(s[0])] + AsciiLower(s[1..])
  }

  /** The same text but for the case of ASCII letters. */
  predicate SameButCase(a: string, b: string) {
    && |a| == |b|
    && forall i :: 0 <= i < |a| ==>
      || a[i] == b[i]
      || ('A' <= a[i] <= 'Z' && b[i] as int == a[i] as int + 32)
      || ('A' <= b[i] <= 'Z' && a[i] as int == b[i] as int + 32)
  }

  lemma LowerIff(a: string, b: string)
    ensures AsciiLower(a) == AsciiLower(b) <==> SameButCase(a, b)
  {
    hide AsciiLower;
    if AsciiLower(a) == AsciiLower(b) {
      forall i | 0 <= i < |a|
        ensures AsciiLowerChar(a[i]) == AsciiLowerChar(b[i])
      {
        assert AsciiLower(a)[i] == AsciiLower(b)[i];
      }
    }
  }
}
