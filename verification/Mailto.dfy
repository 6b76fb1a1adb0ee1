/** Percent-decoding and the mailto URI of an unsubscribe offer (section 2.1 of RFC 3986,
    section 2 of RFC 6068). */
module Mailto {
  import opened Bytes
  import opened Text
  import Utf8

  // -------------------------------------------------------- percent-decoding

  /** `(c as char).to_digit(16)`; 16 for "no digit". */
  function Digit(c: Byte): (d: nat)
    ensures d <= 16
  {
    if 0x30 <= c <= 0x39 then c - 0x30
    else if 0x41 <= c <= 0x46 then c - 0x41 + 10
    else if 0x61 <= c <= 0x66 then c - 0x61 + 10
    else 16
  }

  /** The bytes an escaped byte string stands for; a broken escape stands for itself. */
  function Unescaped(b: seq<Byte>): (r: seq<Byte>)
    ensures |r| <= |b|
  {
    if b == [] then []
    else if b[0] == 0x25 && |b| >= 3 && Digit(b[1]) < 16 && Digit(b[2]) < 16
    then [Digit(b[1]) * 16 + Digit(b[2])] + Unescaped(b[3..])
    else [b[0]] + Unescaped(b[1..])
  }

  /** `prozent_decodieren`. */
  function PercentDecode(s: string): string {
    Utf8.Decode(Unescaped(Utf8.Encode(s)))
  }

  /** The decoding loop. */
  method DecodeBytes(b: seq<Byte>) returns (out: seq<Byte>)
    ensures out == Unescaped(b)
  {
    hide Digit, Unescaped;
    out := [];
    var i := 0;
    assert b[0..] == b;
    while i < |b|
      invariant 0 <= i <= |b|
      invariant out + Unescaped(b[i..]) == Unescaped(b)
      decreases |b| - i
    {
      UnescapedAt(b, i);
      if b[i] == 0x25 && i + 3 <= |b| {
        if Digit(b[i + 1]) < 16 && Digit(b[i + 2]) < 16 {
          out := out + [Digit(b[i + 1]) * 16 + Digit(b[i + 2])];
          i := i + 3;
          continue;
        }
      }
      out := out + [b[i]];
      i := i + 1;
    }
    UnescapedEnd(b[|b|..]);
  }

  lemma UnescapedEnd(b: seq<Byte>)
    requires b == []
    ensures Unescaped(b) == []
  {
  }

  lemma UnescapedAt(b: seq<Byte>, i: nat)
    requires i < |b|
    ensures Unescaped(b[i..])
         == if b[i] == 0x25 && i + 3 <= |b| && Digit(b[i + 1]) < 16 && Digit(b[i + 2]) < 16
            then [Digit(b[i + 1]) * 16 + Digit(b[i + 2])] + Unescaped(b[i + 3..])
            else [b[i]] + Unescaped(b[i + 1..])
  {
    hide Digit;
    assert b[i..][1..] == b[i + 1..];
    assert i + 3 <= |b| ==> b[i..][3..] == b[i + 3..];
  }

  // ------------------------------------------------------------------- code

  datatype Mail = Mail(an: string, betreff: string, text: string)

  /** `uri.get(n..)`: from byte `n` on, if that is between two characters. */
  function FromByte(s: string, n: nat): Option<string>
    decreases |s|
  {
    if n == 0 then Some(s)
    else if s == "" || n < |Utf8.EncodeChar(s[0])| then None
    else FromByte(s[1..], n - |Utf8.EncodeChar(s[0])|)
  }

  /** One plain address, nothing that could smuggle in a header or a second one. */
  predicate Admissible(an: string) {
    && an != "" && '@' in an && ',' !in an
    && forall c :: c in an ==> !IsWhitespace(c) && !IsControl(c)
  }

  function Replace(s: string, from: char, to: char): (r: string)
    ensures |r| == |s| && forall i :: 0 <= i < |s| ==> r[i] == if s[i] == from then to else s[i]
  {
    seq(|s|, i requires 0 <= i < |s| => if s[i] == from then to else s[i])
  }

  /** Control characters other than LF are dropped. */
  function Printable(s: string): (r: string)
    ensures forall c :: c in r ==> c in s && (!IsControl(c) || c == '\n')
  {
    if s == "" then ""
    else (if !IsControl(s[0]) || s[0] == '\n' then [s[0]] else "") + Printable(s[1..])
  }

  /** One `key=value` pair of the query. */
  function Apply(m: Mail, pair: string): Mail {
    match SplitOnce(pair, '=')
    case None => m
    case Some((k, raw)) =>
      var v := Printable(PercentDecode(Replace(raw, '+', ' ')));
      if AsciiLower(k) == "subject" && Trim(v) != "" then m.(betreff := Replace(v, '\n', ' '))
      else if AsciiLower(k) == "body" && Trim(v) != "" then m.(text := v)
      else m
  }

  function ApplyAll(m: Mail, pairs: seq<string>): Mail
    decreases |pairs|
  {
    if pairs == [] then m else ApplyAll(Apply(m, pairs[0]), pairs[1..])
  }

  /** Address and query of what follows "mailto:". */
  function Halves(rest: string): (string, string) {
    match SplitOnce(rest, '?')
    case Some(halves) => halves
    case None => (rest, "")
  }

  function ParseRest(rest: string): Option<Mail> {
    var an := Trim(PercentDecode(Halves(rest).0));
    if !Admissible(an) then None
    else Some(ApplyAll(Mail(an, "unsubscribe", "unsubscribe"), Split(Halves(rest).1, '&')))
  }

  function Parse(uri: string): Option<Mail> {
    match FromByte(uri, 7)
    case None => None
    case Some(rest) => ParseRest(rest)
  }

  /** `mailto_lesen`. */
  method Read(uri: string) returns (m: Option<Mail>)
    ensures m == Parse(uri)
  {
    hide PercentDecode, Admissible, Apply, FromByte, Trim, Split, SplitOnce;
    var rest := FromByte(uri, 7);
    if rest.None? {
      return None;
    }
    var adresse, abfrage := rest.value, "";
    var cut := SplitOnce(rest.value, '?');
    if cut.Some? {
      adresse, abfrage := cut.value.0, cut.value.1;
    }
    var an := Trim(PercentDecode(adresse));
    if !Admissible(an) {
      return None;
    }
    var mail := Mail(an, "unsubscribe", "unsubscribe");
    var pairs := Split(abfrage, '&');
    ghost var start := mail;
    for i := 0 to |pairs|
      invariant ApplyAll(mail, pairs[i..]) == ApplyAll(start, pairs)
    {
      assert pairs[i..][1..] == pairs[i + 1..];
      mail := Apply(mail, pairs[i]);
    }
    m := Some(mail);
  }

  // ------------------------------------------------------------- no smuggling

  /** Nothing a header line could be broken with. */
  predicate HeaderSafe(m: Mail) {
    && Admissible(m.an)
    && (forall c :: c in m.betreff ==> !IsControl(c))
    && (forall c :: c in m.text ==> !IsControl(c) || c == '\n')
    && !Blank(m.betreff) && !Blank(m.text)
  }

  lemma ValueSafe(raw: string)
    ensures var v := Printable(raw);
            Trim(v) != "" ==>
              && !Blank(v) && !Blank(Replace(v, '\n', ' '))
              && (forall c :: c in v ==> !IsControl(c) || c == '\n')
              && (forall c :: c in Replace(v, '\n', ' ') ==> !IsControl(c))
  {
    hide Trim, Blank, Printable, IsControl;
    var v := Printable(raw);
    TrimBlank(v);
    if Trim(v) != "" {
      SubjectHasNoControl(v);
      SubjectNotBlank(v);
    }
  }

  lemma SubjectHasNoControl(v: string)
    requires forall c :: c in v ==> !IsControl(c) || c == '\n'
    ensures forall c :: c in Replace(v, '\n', ' ') ==> !IsControl(c)
  {
    var subject := Replace(v, '\n', ' ');
    forall c | c in subject
      ensures !IsControl(c)
    {
      var i :| 0 <= i < |subject| && subject[i] == c;
      assert v[i] in v;
    }
  }

  lemma SubjectNotBlank(v: string)
    requires !Blank(v)
    ensures !Blank(Replace(v, '\n', ' '))
  {
    var subject := Replace(v, '\n', ' ');
    var i :| 0 <= i < |v| && !IsWhitespace(v[i]);
    assert subject[i] in subject;
  }

  lemma ApplySafe(m: Mail, pair: string)
    requires HeaderSafe(m)
    ensures HeaderSafe(Apply(m, pair)) && Apply(m, pair).an == m.an
  {
    hide Admissible, Blank, Printable, PercentDecode, Trim, SplitOnce, IsControl, AsciiLower;
    match SplitOnce(pair, '=')
    case None =>
    case Some((k, raw)) => ValueSafe(PercentDecode(Replace(raw, '+', ' ')));
  }

  lemma {:induction false} ApplyAllSafe(m: Mail, pairs: seq<string>)
    requires HeaderSafe(m)
    ensures HeaderSafe(ApplyAll(m, pairs)) && ApplyAll(m, pairs).an == m.an
    decreases |pairs|
  {
    hide HeaderSafe;
    if pairs != [] {
      ApplySafe(m, pairs[0]);
      ApplyAllSafe(Apply(m, pairs[0]), pairs[1..]);
    }
  }

  lemma StartSafe(m: Mail)
    requires Admissible(m.an) && m.betreff == m.text == "unsubscribe"
    ensures HeaderSafe(m)
  {
    hide Admissible;
    assert 'u' in m.betreff && 'u' in m.text && !IsWhitespace('u');
    assert forall c :: c in "unsubscribe" ==> !IsControl(c);
  }

  /** A URI is read exactly when what stands before the query decodes to one plain address: with
      an "@", and without comma, white space or control character. */
  lemma ReadIff(uri: string)
    ensures var rest := FromByte(uri, 7);
            Parse(uri).Some? <==>
            && rest.Some?
            && var an := Trim(PercentDecode(Halves(rest.value).0));
               '@' in an && forall c :: c in an ==> c != ',' && !IsWhitespace(c) && !IsControl(c)
  {
    hide PercentDecode, FromByte, Halves, Trim, IsWhitespace, IsControl, ApplyAll, Split;
  }

  /** Whatever the URI says, the mail goes to one plain address, its subject holds no
      control character and its text none but LF; neither is blank. */
  lemma ReadIsSafe(uri: string)
    ensures Parse(uri).Some? ==>
      var m := Parse(uri).value;
      && HeaderSafe(m)
      && '@' in m.an && (forall c :: c in m.an ==> c != ',' && c != ' ' && c != '\t' && c != '\r' && c != '\n')
      && (forall c :: c in m.betreff ==> 0x20 <= c as int < 0x7F || c as int >= 0xA0)
      && (forall c :: c in m.text ==> c == '\n' || 0x20 <= c as int < 0x7F || c as int >= 0xA0)
      && Trim(m.betreff) != "" && Trim(m.text) != ""
  {
    hide ApplyAll, PercentDecode, FromByte, Halves, Trim, Split, Admissible, HeaderSafe;
    if Parse(uri).Some? {
      var rest := FromByte(uri, 7).value;
      var m := Mail(Trim(PercentDecode(Halves(rest).0)), "unsubscribe", "unsubscribe");
      StartSafe(m);
      ApplyAllSafe(m, Split(Halves(rest).1, '&'));
      SafeMeans(Parse(uri).value);
    }
  }

  lemma SafeMeans(m: Mail)
    requires HeaderSafe(m)
    ensures '@' in m.an && forall c :: c in m.an ==> c != ',' && c != ' ' && c != '\t' && c != '\r' && c != '\n'
    ensures forall c :: c in m.betreff ==> 0x20 <= c as int < 0x7F || c as int >= 0xA0
    ensures forall c :: c in m.text ==> c == '\n' || 0x20 <= c as int < 0x7F || c as int >= 0xA0
    ensures Trim(m.betreff) != "" && Trim(m.text) != ""
  {
    hide Trim;
    assert IsControl('\r') && IsControl('\n') && IsControl('\0') && IsWhitespace(' ') && IsWhitespace('\t');
    TrimBlank(m.betreff);
    TrimBlank(m.text);
  }

  // -------------------------------------------------------------- round trip

  function HexDigit(d: nat): Byte
    requires d < 16
  {
    if d < 10 then 0x30 + d else 0x41 + d - 10
  }

  /** `qchar` of section 2 of RFC 6068: what may stand for itself in a mailto URI. */
  predicate QChar(x: Byte) {
    || 0x41 <= x <= 0x5A || 0x61 <= x <= 0x7A || 0x30 <= x <= 0x39 || x == 0x2D || x == 0x2E || x == 0x5F || x == 0x7E
    || x == 0x21 || x == 0x24 || 0x27 <= x <= 0x2C || x == 0x3A || x == 0x3B || x == 0x40
  }

  const PLUS: Byte := 0x2B

  /** An encoder: `literal` are those of these bytes that it chooses to leave as they are. */
  function Escaped(b: seq<Byte>, literal: Byte -> bool): string {
    if b == [] then ""
    else (if literal(b[0]) && QChar(b[0]) then [b[0] as char]
          else ['%', HexDigit(b[0] / 16) as char, HexDigit(b[0] % 16) as char])
         + Escaped(b[1..], literal)
  }

  function PercentEncode(s: string, literal: Byte -> bool): string {
    Escaped(Utf8.Encode(s), literal)
  }

  /** Characters that may stand for themselves, and '%'. */
  predicate Plain(s: string) {
    forall c :: c in s ==> c as int < 0x80 && (QChar(c as int) || c == '%')
  }

  lemma {:induction false} EscapedPlain(b: seq<Byte>, literal: Byte -> bool)
    ensures Plain(Escaped(b, literal))
  {
    if b != [] {
      EscapedPlain(b[1..], literal);
    }
  }

  lemma AsciiByte(c: char, rest: string)
    requires c as int < 0x80
    ensures Utf8.Encode([c] + rest) == [c as int] + Utf8.Encode(rest)
  {
    assert ([c] + rest)[1..] == rest;
  }

  /** Decoding undoes encoding, byte for byte. */
  lemma {:induction false} UnescapedEscaped(b: seq<Byte>, literal: Byte -> bool)
    ensures Unescaped(Utf8.Encode(Escaped(b, literal))) == b
  {
    hide Utf8.Encode, Utf8.EncodeChar;
    if b == [] {
      Utf8.NothingIsEmpty();
    } else {
      var x, tail := b[0], Escaped(b[1..], literal);
      UnescapedEscaped(b[1..], literal);
      if literal(x) && QChar(x) {
        AsciiByte(x as char, tail);
        assert ([x] + Utf8.Encode(tail))[1..] == Utf8.Encode(tail);
      } else {
        EscapeOne(x, tail);
        var e: seq<Byte> := [0x25, HexDigit(x / 16), HexDigit(x % 16)] + Utf8.Encode(tail);
        assert e[3..] == Utf8.Encode(tail);
        assert Digit(HexDigit(x / 16)) * 16 + Digit(HexDigit(x % 16)) == x;
      }
    }
  }

  lemma EscapeOne(x: Byte, tail: string)
    ensures Utf8.Encode(['%', HexDigit(x / 16) as char, HexDigit(x % 16) as char] + tail)
         == [0x25, HexDigit(x / 16), HexDigit(x % 16)] + Utf8.Encode(tail)
  {
    var h, l := HexDigit(x / 16) as char, HexDigit(x % 16) as char;
    assert ['%', h, l] + tail == ['%'] + ([h] + ([l] + tail));
    AsciiByte('%', [h] + ([l] + tail));
    AsciiByte(h, [l] + tail);
    AsciiByte(l, tail);
  }

  /** A hexadecimal digit in upper or in lower case. */
  predicate IsHex(h: Byte, d: nat) {
    d < 16 && (h == HexDigit(d) || (d >= 10 && h == HexDigit(d) + 0x20))
  }

  /** An escape is read in either case (section 2.1 of RFC 3986), and only hexadecimal digits
      make one. */
  lemma EscapeIff(h: Byte, l: Byte, rest: seq<Byte>)
    ensures forall a, b :: IsHex(h, a) && IsHex(l, b) ==>
      Unescaped([0x25, h, l] + rest) == [16 * a + b] + Unescaped(rest)
    ensures !((exists a :: IsHex(h, a)) && exists b :: IsHex(l, b)) ==>
      Unescaped([0x25, h, l] + rest) == [0x25] + Unescaped([h, l] + rest)
  {
    var e := [0x25, h, l] + rest;
    assert e[3..] == rest && e[1..] == [h, l] + rest;
    forall x: Byte
      ensures Digit(x) < 16 <==> exists a :: IsHex(x, a)
    {
      if Digit(x) < 16 {
        assert IsHex(x, Digit(x));
      }
    }
  }

  /** Every "+" a space. */
  function Spaced(b: seq<Byte>): seq<Byte> {
    if b == [] then [] else [if b[0] == PLUS then 0x20 else b[0]] + Spaced(b[1..])
  }

  lemma {:induction false} SpacedConcat(a: seq<Byte>, b: seq<Byte>)
    ensures Spaced(a + b) == Spaced(a) + Spaced(b)
  {
    if a == [] {
      assert a + b == b;
    } else {
      assert (a + b)[1..] == a[1..] + b;
      SpacedConcat(a[1..], b);
    }
  }

  lemma SpacedCharacter(c: char)
    ensures Spaced(Utf8.EncodeChar(c)) == Utf8.EncodeChar(if c == '+' then ' ' else c)
  {
    var e := Utf8.EncodeChar(c);
    if |e| > 1 {
      assert forall i :: 0 <= i < |e| ==> e[i] >= 0x80;
    }
    NoPlus(e);
  }

  lemma {:induction false} NoPlus(b: seq<Byte>)
    ensures PLUS !in b ==> Spaced(b) == b
  {
    if b != [] {
      NoPlus(b[1..]);
    }
  }

  lemma ReplaceStep(s: string, from: char, to: char)
    requires s != ""
    ensures Replace(s, from, to) == [if s[0] == from then to else s[0]] + Replace(s[1..], from, to)
  {
  }

  lemma {:induction false} SpacedText(s: string)
    ensures Spaced(Utf8.Encode(s)) == Utf8.Encode(Replace(s, '+', ' '))
  {
    hide Utf8.EncodeChar, Utf8.Encode, Spaced, Replace;
    if s == "" {
      Utf8.NothingIsEmpty();
      NoPlus([]);
      assert Replace(s, '+', ' ') == "";
    } else {
      var r := Replace(s, '+', ' ');
      ReplaceStep(s, '+', ' ');
      Utf8.EncodeHead(s);
      Utf8.EncodeHead(r);
      SpacedConcat(Utf8.EncodeChar(s[0]), Utf8.Encode(s[1..]));
      SpacedCharacter(s[0]);
      SpacedText(s[1..]);
      assert r[1..] == Replace(s[1..], '+', ' ');
    }
  }

  lemma EscapedStep(b: seq<Byte>, literal: Byte -> bool)
    requires b != []
    ensures var x := b[0];
            Replace(Escaped(b, literal), '+', ' ')
            == (if literal(x) && QChar(x) then [if x == PLUS then ' ' else x as char]
                else ['%', HexDigit(x / 16) as char, HexDigit(x % 16) as char])
               + Replace(Escaped(b[1..], literal), '+', ' ')
  {
    HexIsNoPlus(b[0]);
  }

  lemma SpacedStep(b: seq<Byte>)
    requires b != []
    ensures Spaced(b) == [if b[0] == PLUS then 0x20 else b[0]] + Spaced(b[1..])
  {
  }

  /** Decoding with every "+" read as a space: those left as they are become spaces. */
  lemma {:induction false} UnescapedSpaced(b: seq<Byte>, literal: Byte -> bool)
    ensures Unescaped(Utf8.Encode(Replace(Escaped(b, literal), '+', ' '))) == if literal(PLUS) then Spaced(b) else b
  {
    if b == [] {
      Utf8.NothingIsEmpty();
      assert Replace(Escaped(b, literal), '+', ' ') == "";
    } else {
      hide Utf8.Encode, Unescaped, Escaped, Replace, Spaced, HexDigit, Digit;
      var x, tail := b[0], Replace(Escaped(b[1..], literal), '+', ' ');
      UnescapedSpaced(b[1..], literal);
      EscapedStep(b, literal);
      SpacedStep(b);
      if literal(x) && QChar(x) {
        PlainByte(if x == PLUS then 0x20 else x, tail);
      } else {
        EscapedByte(x, tail);
      }
    }
  }

  lemma PlainByte(x: Byte, tail: string)
    requires x < 0x80 && x != 0x25
    ensures Unescaped(Utf8.Encode([x as char] + tail)) == [x] + Unescaped(Utf8.Encode(tail))
  {
    hide Utf8.Encode, Digit;
    AsciiByte(x as char, tail);
    assert ([x] + Utf8.Encode(tail))[1..] == Utf8.Encode(tail);
  }

  lemma HexIsNoPlus(x: Byte)
    ensures HexDigit(x / 16) as char != '+' && HexDigit(x % 16) as char != '+'
  {
  }

  lemma EscapedByte(x: Byte, tail: string)
    ensures Unescaped(Utf8.Encode(['%', HexDigit(x / 16) as char, HexDigit(x % 16) as char] + tail))
         == [x] + Unescaped(Utf8.Encode(tail))
  {
    hide Utf8.Encode;
    EscapeOne(x, tail);
    var e: seq<Byte> := [0x25, HexDigit(x / 16), HexDigit(x % 16)] + Utf8.Encode(tail);
    assert e[3..] == Utf8.Encode(tail);
    assert Digit(HexDigit(x / 16)) * 16 + Digit(HexDigit(x % 16)) == x;
  }

  /** What a value of the query is read as. */
  function AsRead(v: string, literal: Byte -> bool): string {
    if literal(PLUS) then Replace(v, '+', ' ') else v
  }

  lemma DecodeSpaced(v: string, literal: Byte -> bool)
    ensures PercentDecode(Replace(PercentEncode(v, literal), '+', ' ')) == AsRead(v, literal)
  {
    hide Utf8.Encode, Utf8.Decode, Unescaped, Escaped, Spaced, Replace;
    UnescapedSpaced(Utf8.Encode(v), literal);
    SpacedText(v);
    Utf8.RoundTrip(AsRead(v, literal));
  }

  /** `prozent_decodieren` inverts every percent-encoder, on all text. */
  lemma DecodeEncode(s: string, literal: Byte -> bool)
    ensures PercentDecode(PercentEncode(s, literal)) == s
  {
    UnescapedEscaped(Utf8.Encode(s), literal);
    Utf8.RoundTrip(s);
  }

  // ------------------------------------------------------------ never growing

  /** A text as the decoder reads it: escaped bytes and characters left as they are. */
  datatype Token = Escape(x: Byte) | Raw(c: char)

  predicate IsEscape(s: string) {
    && |s| >= 3 && s[0] == '%' && s[1] as int < 0x80 && s[2] as int < 0x80
    && Digit(s[1] as int) < 16 && Digit(s[2] as int) < 16
  }

  function Tokens(s: string): seq<Token> {
    if s == "" then []
    else if IsEscape(s) then [Escape(Digit(s[1] as int) * 16 + Digit(s[2] as int))] + Tokens(s[3..])
    else [Raw(s[0])] + Tokens(s[1..])
  }

  function BytesOf(ts: seq<Token>): seq<Byte> {
    if ts == [] then []
    else (match ts[0] case Escape(x) => [x] case Raw(c) => Utf8.EncodeChar(c)) + BytesOf(ts[1..])
  }

  /** How many bytes the tokens take before decoding. */
  function Cost(ts: seq<Token>): nat {
    if ts == [] then 0
    else (match ts[0] case Escape(_) => 3 case Raw(c) => |Utf8.EncodeChar(c)|) + Cost(ts[1..])
  }

  lemma {:induction false} UnescapedPlain(x: seq<Byte>, rest: seq<Byte>)
    requires 0x25 !in x
    ensures Unescaped(x + rest) == x + Unescaped(rest)
  {
    hide Digit;
    if x == [] {
      assert x + rest == rest;
    } else {
      assert x[0] in x && (x + rest)[1..] == x[1..] + rest;
      UnescapedPlain(x[1..], rest);
    }
  }

  /** A character other than '%' keeps its bytes; its first byte is ASCII only if it is. */
  lemma CharBytes(c: char)
    ensures c != '%' ==> 0x25 !in Utf8.EncodeChar(c)
    ensures c as int < 0x80 ==> Utf8.EncodeChar(c) == [c as int]
    ensures c as int >= 0x80 ==> forall x :: x in Utf8.EncodeChar(c) ==> x >= 0x80
    ensures !Utf8.Continues(Utf8.EncodeChar(c)[0])
  {
  }

  lemma BigDigits(x: Byte)
    ensures x >= 0x80 ==> Digit(x) == 16
  {
  }

  lemma OneByteFirst(b: seq<Byte>, c: seq<Byte>, rest: seq<Byte>)
    requires b == c + rest
    ensures |c| == 1 ==> b[1..] == rest
  {
  }

  /** The decoder's test on bytes is the test on characters. */
  lemma EscapeSeen(s: string)
    requires s != "" && s[0] == '%'
    ensures var b := Utf8.Encode(s);
            && b != [] && b[0] == 0x25 && b[1..] == Utf8.Encode(s[1..])
            && (IsEscape(s) <==> |b| >= 3 && Digit(b[1]) < 16 && Digit(b[2]) < 16)
            && (IsEscape(s) ==> b[1] == s[1] as int && b[2] == s[2] as int && b[3..] == Utf8.Encode(s[3..]))
  {
    hide Utf8.Encode, Utf8.EncodeChar, Digit;
    var b := Utf8.Encode(s);
    Utf8.EncodeHead(s);
    CharBytes(s[0]);
    assert b[1..] == Utf8.Encode(s[1..]);
    if |s| >= 2 {
      Utf8.EncodeHead(s[1..]);
      CharBytes(s[1]);
      assert s[1..][0] == s[1] && s[1..][1..] == s[2..];
      var c1 := Utf8.EncodeChar(s[1]);
      assert b[1] == c1[0] && c1[0] in c1;
      BigDigits(b[1]);
      if s[1] as int < 0x80 {
        assert b[2..] == Utf8.Encode(s[2..]);
        if |s| >= 3 {
          Utf8.EncodeHead(s[2..]);
          CharBytes(s[2]);
          assert s[2..][0] == s[2] && s[2..][1..] == s[3..];
          var c2 := Utf8.EncodeChar(s[2]);
          assert b[2] == b[2..][0] == c2[0] && c2[0] in c2;
          BigDigits(b[2]);
          OneByteFirst(b[2..], c2, Utf8.Encode(s[3..]));
          assert b[2..][1..] == b[3..];
        } else {
          Utf8.NothingIsEmpty();
          assert s[2..] == "";
        }
      }
    } else {
      Utf8.NothingIsEmpty();
      assert s[1..] == "";
    }
  }

  /** The decoded bytes are those of the tokens. */
  lemma {:induction false} UnescapedTokens(s: string)
    ensures Unescaped(Utf8.Encode(s)) == BytesOf(Tokens(s)) && Cost(Tokens(s)) == Utf8.Len(s)
  {
    hide Utf8.Encode, Utf8.EncodeChar, Digit, IsEscape;
    if s == "" {
      Utf8.NothingIsEmpty();
    } else {
      var b := Utf8.Encode(s);
      Utf8.EncodeHead(s);
      CharBytes(s[0]);
      if s[0] == '%' {
        EscapeSeen(s);
      }
      if IsEscape(s) {
        EscapeShape(s);
        UnescapedTokens(s[3..]);
        assert |b| == 3 + |b[3..]|;
      } else {
        UnescapedTokens(s[1..]);
        if s[0] == '%' {
          assert Unescaped(b) == [0x25] + Unescaped(b[1..]);
        } else {
          UnescapedPlain(Utf8.EncodeChar(s[0]), Utf8.Encode(s[1..]));
        }
      }
    }
  }

  lemma EscapeShape(s: string)
    requires IsEscape(s)
    ensures |s| >= 3 && s[0] == '%'
  {
  }

  lemma FirstByte(ts: seq<Token>)
    requires ts != []
    ensures BytesOf(ts) != [] && (ts[0].Raw? ==> !Utf8.Continues(BytesOf(ts)[0]))
  {
    hide Utf8.EncodeChar;
    if ts[0].Raw? {
      CharBytes(ts[0].c);
      assert BytesOf(ts)[0] == Utf8.EncodeChar(ts[0].c)[0];
    }
  }

  /** Bytes that only continue a sequence come from escapes: a character left as it is
      starts with another byte. */
  lemma {:induction false} ContinuedByEscapes(ts: seq<Token>, n: nat)
    requires n <= |BytesOf(ts)| && forall i :: 0 <= i < n ==> Utf8.Continues(BytesOf(ts)[i])
    ensures n <= |ts| && BytesOf(ts)[n..] == BytesOf(ts[n..]) && Cost(ts) == 3 * n + Cost(ts[n..])
    decreases n
  {
    hide Utf8.EncodeChar;
    if n == 0 {
      assert ts[0..] == ts;
    } else {
      var b := BytesOf(ts);
      FirstByte(ts);
      assert b[1..] == BytesOf(ts[1..]);
      assert forall i :: 0 <= i < n - 1 ==> BytesOf(ts[1..])[i] == b[i + 1];
      ContinuedByEscapes(ts[1..], n - 1);
      assert ts[1..][n - 1..] == ts[n..] && b[n..] == b[1..][n - 1..];
    }
  }

  /** What one step of the lossy decoder reads: the bytes after the first continue, and the
      character is not more than three times as long as what was read. */
  lemma DecodeOneBound(b: seq<Byte>)
    requires b != []
    ensures var (c, n) := Utf8.DecodeOne(b);
            && n <= |b| && |Utf8.EncodeChar(c)| <= 3 * n
            && forall i :: 1 <= i < n ==> Utf8.Continues(b[i])
  {
  }

  /** Lossy decoding of the tokens' bytes takes no more bytes than the tokens did. */
  lemma {:induction false} DecodedCost(ts: seq<Token>)
    ensures Utf8.Len(Utf8.Decode(BytesOf(ts))) <= Cost(ts)
    decreases |ts|
  {
    hide Utf8.Encode, Utf8.EncodeChar, Utf8.DecodeOne;
    var b := BytesOf(ts);
    if ts == [] {
      Utf8.NothingIsEmpty();
    } else if ts[0].Raw? {
      var c := ts[0].c;
      Utf8.DecodeAfter([c], BytesOf(ts[1..]));
      Utf8.NothingIsEmpty();
      Utf8.EncodeHead([c]);
      assert [c][1..] == "" && Utf8.EncodeChar(c) + [] == Utf8.EncodeChar(c);
      Utf8.EncodeHead([c] + Utf8.Decode(BytesOf(ts[1..])));
      assert ([c] + Utf8.Decode(BytesOf(ts[1..])))[1..] == Utf8.Decode(BytesOf(ts[1..]));
      DecodedCost(ts[1..]);
    } else {
      DecodeOneBound(b);
      var (c, n) := Utf8.DecodeOne(b);
      assert b[1..] == BytesOf(ts[1..]);
      assert forall i :: 0 <= i < n - 1 ==> BytesOf(ts[1..])[i] == b[i + 1];
      ContinuedByEscapes(ts[1..], n - 1);
      assert ts[1..][n - 1..] == ts[n..] && b[n..] == b[1..][n - 1..];
      DecodedCost(ts[n..]);
      Utf8.EncodeHead([c] + Utf8.Decode(b[n..]));
      assert ([c] + Utf8.Decode(b[n..]))[1..] == Utf8.Decode(b[n..]);
    }
  }

  /** `prozent_decodieren` never makes its input longer: not even where broken escapes decode
      to replacement characters of three bytes each. */
  lemma DecodeNeverGrows(s: string)
    ensures Utf8.Len(PercentDecode(s)) <= Utf8.Len(s)
  {
    UnescapedTokens(s);
    DecodedCost(Tokens(s));
  }

  function Print(m: Mail, literal: Byte -> bool): string {
    "mailto:" + PercentEncode(m.an, literal)
    + "?subject=" + PercentEncode(m.betreff, literal)
    + "&body=" + PercentEncode(m.text, literal)
  }

  lemma PrintableKeeps(s: string)
    requires forall c :: c in s ==> !IsControl(c) || c == '\n'
    ensures Printable(s) == s
  {
  }

  lemma NoReplace(s: string, from: char, to: char)
    requires from !in s
    ensures Replace(s, from, to) == s
  {
    assert forall i :: 0 <= i < |s| ==> s[i] in s;
  }

  /** The value stored for a printed one: where only spaces are left, the default stays. */
  function Stored(v: string, literal: Byte -> bool, default: string): string {
    if Blank(AsRead(v, literal)) then default else AsRead(v, literal)
  }

  lemma ApplyPrinted(m: Mail, key: string, v: string, literal: Byte -> bool)
    requires key == "subject" || key == "body"
    requires forall c :: c in v ==> !IsControl(c) || c == '\n'
    requires key == "subject" ==> '\n' !in v
    ensures Apply(m, key + "=" + PercentEncode(v, literal))
         == if key == "subject" then m.(betreff := Stored(v, literal, m.betreff))
            else m.(text := Stored(v, literal, m.text))
  {
    hide PercentEncode, PercentDecode, Blank, Replace;
    var e := PercentEncode(v, literal);
    var pair := key + "=" + e;
    FindAt(pair, '=', |key|);
    assert pair[..|key|] == key && pair[|key| + 1..] == e;
    DecodeSpaced(v, literal);
    var r := AsRead(v, literal);
    ReadCharacters(v, literal);
    PrintableKeeps(r);
    TrimBlank(r);
    if key == "subject" {
      NoReplace(r, '\n', ' ');
    }
    LowerKeys();
  }

  lemma ReadCharacters(v: string, literal: Byte -> bool)
    ensures forall c :: c in AsRead(v, literal) ==> c in v || (c == ' ' && !IsControl(c))
  {
    var r := AsRead(v, literal);
    forall c | c in r && c !in v
      ensures c == ' '
    {
      var i :| 0 <= i < |r| && r[i] == c;
      assert v[i] in v;
    }
  }

  /** The keys of the query count in any letter case. */
  lemma KeysInAnyCase(m: Mail, k: string, key: string, raw: string)
    requires SameButCase(k, key) && (key == "subject" || key == "body")
    ensures Apply(m, k + "=" + raw) == Apply(m, key + "=" + raw)
  {
    hide Trim, Printable, PercentDecode, Replace, AsciiLower;
    assert forall i :: 0 <= i < |key| ==> 'a' <= key[i] <= 'z';
    assert forall i :: 0 <= i < |k| ==> k[i] != '=';
    LowerIff(k, key);
    CutAt(k, raw);
    CutAt(key, raw);
  }

  lemma CutAt(k: string, raw: string)
    requires '=' !in k
    ensures SplitOnce(k + "=" + raw, '=') == Some((k, raw))
  {
    var pair := k + "=" + raw;
    FindAt(pair, '=', |k|);
    assert pair[..|k|] == k && pair[|k| + 1..] == raw;
  }

  lemma LowerKeys()
    ensures AsciiLower("subject") == "subject" && AsciiLower("body") == "body"
  {
  }

  lemma EncodedPlain(s: string, literal: Byte -> bool)
    ensures Plain(PercentEncode(s, literal))
    ensures var e := PercentEncode(s, literal); '&' !in e && '=' !in e && '?' !in e
  {
    EscapedPlain(Utf8.Encode(s), literal);
  }

  lemma FromByte7(rest: string)
    ensures FromByte("mailto:" + rest, 7) == Some(rest)
  {
    var u := "mailto:" + rest;
    assert u[1..][1..][1..][1..][1..][1..][1..] == rest;
    assert FromByte(u[1..][1..][1..][1..][1..][1..], 1) == Some(rest);
    assert FromByte(u[1..][1..][1..][1..][1..], 2) == Some(rest);
    assert FromByte(u[1..][1..][1..][1..], 3) == Some(rest);
    assert FromByte(u[1..][1..][1..], 4) == Some(rest);
    assert FromByte(u[1..][1..], 5) == Some(rest);
    assert FromByte(u[1..], 6) == Some(rest);
  }

  lemma PrintedShape(a: string, s: string, t: string)
    ensures "mailto:" + a + "?subject=" + s + "&body=" + t
         == "mailto:" + (a + "?" + (("subject" + "=" + s) + "&" + ("body" + "=" + t)))
  {
    assert "?subject=" == "?" + ("subject" + "=") && "&body=" == "&" + ("body" + "=");
  }

  lemma PrintedHalves(a: string, q: string)
    requires '?' !in a
    ensures Halves(a + "?" + q) == (a, q)
  {
    var rest := a + "?" + q;
    FindAt(rest, '?', |a|);
    assert rest[..|a|] == a && rest[|a| + 1..] == q;
  }

  lemma PrintedPairs(subject: string, body: string)
    requires '&' !in subject && '&' !in body
    ensures Split(subject + "&" + body, '&') == [subject, body]
  {
    SplitStep(subject, '&', body);
    SplitStep(body, '&', "");
  }

  /** The mail as it is read back. */
  function ReadBack(m: Mail, literal: Byte -> bool): Mail {
    Mail(m.an, Stored(m.betreff, literal, "unsubscribe"), Stored(m.text, literal, "unsubscribe"))
  }

  lemma PrintedQuery(m: Mail, literal: Byte -> bool)
    requires HeaderSafe(m)
    ensures var s, t := PercentEncode(m.betreff, literal), PercentEncode(m.text, literal);
            && '&' !in "subject" + "=" + s && '&' !in "body" + "=" + t
            && ApplyAll(Mail(m.an, "unsubscribe", "unsubscribe"), ["subject" + "=" + s, "body" + "=" + t])
               == ReadBack(m, literal)
  {
    hide PercentEncode, Apply, Admissible, Blank, Stored;
    var s, t := PercentEncode(m.betreff, literal), PercentEncode(m.text, literal);
    EncodedPlain(m.betreff, literal);
    EncodedPlain(m.text, literal);
    assert '\n' !in m.betreff by {
      assert IsControl('\n');
    }
    var start := Mail(m.an, "unsubscribe", "unsubscribe");
    var m1, m2 := start.(betreff := Stored(m.betreff, literal, "unsubscribe")), ReadBack(m, literal);
    ApplyPrinted(start, "subject", m.betreff, literal);
    ApplyPrinted(m1, "body", m.text, literal);
    var pairs := ["subject" + "=" + s, "body" + "=" + t];
    assert Apply(start, pairs[0]) == m1 && Apply(m1, pairs[1]) == m2;
    assert pairs[1..] == ["body" + "=" + t] && pairs[1..][1..] == [];
    assert ApplyAll(m1, pairs[1..]) == ApplyAll(m2, []);
  }

  lemma PrintedIsRead(m: Mail, literal: Byte -> bool)
    requires HeaderSafe(m)
    ensures Parse(Print(m, literal)) == Some(ReadBack(m, literal))
  {
    hide PercentEncode, PercentDecode, Apply, ApplyAll, Admissible, Halves, Split, FromByte, Trim;
    var a, s, t := PercentEncode(m.an, literal), PercentEncode(m.betreff, literal), PercentEncode(m.text, literal);
    var subject, body := "subject" + "=" + s, "body" + "=" + t;
    PrintedShape(a, s, t);
    FromByte7(a + "?" + (subject + "&" + body));
    EncodedPlain(m.an, literal);
    PrintedHalves(a, subject + "&" + body);
    DecodeEncode(m.an, literal);
    AdmissibleTrimmed(m.an);
    PrintedQuery(m, literal);
    PrintedPairs(subject, body);
  }

  lemma StoredIff(v: string, literal: Byte -> bool)
    requires !Blank(v)
    ensures Stored(v, literal, "unsubscribe") == v <==> !(literal(PLUS) && '+' in v)
  {
    var r := Replace(v, '+', ' ');
    if '+' in v {
      var i :| 0 <= i < |v| && v[i] == '+';
      assert r[i] == ' ';
      assert '+' !in "unsubscribe";
    } else {
      NoReplace(v, '+', ' ');
    }
  }

  /** A printed mail, whatever characters a mailto URI may leave as they are, comes back
      unchanged exactly when no "+" of subject or text is left as it is: these are read as
      spaces. */
  lemma RoundTripIff(m: Mail, literal: Byte -> bool)
    requires HeaderSafe(m)
    ensures Parse(Print(m, literal)) == Some(m) <==> !(literal(PLUS) && ('+' in m.betreff || '+' in m.text))
  {
    hide Parse, Print, Admissible, Blank, Stored;
    PrintedIsRead(m, literal);
    StoredIff(m.betreff, literal);
    StoredIff(m.text, literal);
  }

  lemma AdmissibleTrimmed(an: string)
    requires Admissible(an)
    ensures Trim(an) == an
  {
    assert an[0] in an && an[|an| - 1] in an;
    TrimTrimmed(an);
  }
}
