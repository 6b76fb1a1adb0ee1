/** What a mail's List-Unsubscribe header offers (RFC 2369, RFC 8058). */
module Unsubscribe {
  import opened Text
  import Mailto

  datatype Offer = Offer(einKlick: Option<string>, mail: Option<Mailto.Mail>, link: Option<string>)

  const NOTHING: Offer := Offer(None, None, None)

  // ------------------------------------------------------------ header field

  /** `trim_end_matches('\r')`. */
  function StripCrs(s: string): (r: string)
    ensures |r| <= |s| && r == s[..|r|]
  {
    if s != "" && s[|s| - 1] == '\r' then StripCrs(s[..|s| - 1]) else s
  }

  predicate Folded(line: string) {
    line != "" && (line[0] == ' ' || line[0] == '\t')
  }

  /** The value, if the line is this field (names compare without case). */
  function ValueOf(line: string, name: string): Option<string> {
    match SplitOnce(line, ':')
    case None => None
    case Some((n, v)) => if AsciiLower(Trim(n)) == AsciiLower(name) then Some(Trim(v)) else None
  }

  /** The field's unfolded value from its own value and the lines after it. */
  function Unfold(value: string, lines: seq<string>): string
    decreases |lines|
  {
    if lines == [] then value
    else
      var line := StripCrs(lines[0]);
      if line == "" || !Folded(line) then value
      else Unfold(value + " " + Trim(line), lines[1..])
  }

  /** The first field of this name in the header block. */
  function FieldIn(lines: seq<string>, name: string): Option<string> {
    if lines == [] then None
    else
      var line := StripCrs(lines[0]);
      if line == "" then None
      else match ValueOf(line, name)
        case None => FieldIn(lines[1..], name)
        case Some(v) => Some(Unfold(v, lines[1..]))
  }

  /** `feld`. */
  method Field(kopf: string, name: string) returns (wert: Option<string>)
    ensures wert == FieldIn(Split(kopf, '\n'), name)
  {
    hide ValueOf, Trim, StripCrs, Split;
    wert := None;
    var lines := Split(kopf, '\n');
    for i := 0 to |lines|
      invariant FieldIn(lines, name)
             == match wert case None => FieldIn(lines[i..], name) case Some(w) => Some(Unfold(w, lines[i..]))
    {
      var zeile := StripCrs(lines[i]);
      assert lines[i..][1..] == lines[i + 1..];
      if zeile == "" {
        break;
      }
      if wert.Some? {
        if Folded(zeile) {
          wert := Some(wert.value + " " + Trim(zeile));
          continue;
        }
        break;
      }
      var v := ValueOf(zeile, name);
      if v.Some? {
        wert := v;
      }
    }
  }

  // ------------------------------------------------------------------- offer

  function WithoutSpaces(s: string): string {
    if s == "" then "" else (if s[0] == ' ' then "" else [s[0]]) + WithoutSpaces(s[1..])
  }

  const LIST: string := "List-Unsubscribe"
  const POST: string := "List-Unsubscribe-Post"

  predicate IsOneClick(post: Option<string>) {
    post.Some? && AsciiLower(WithoutSpaces(post.value)) == AsciiLower("List-Unsubscribe=One-Click")
  }

  /** The trimmed URIs in angle brackets. */
  function Bracketed(parts: seq<string>): seq<string> {
    if parts == [] then []
    else
      (match SplitOnce(parts[0], '>') case None => [] case Some((uri, _)) => [Trim(uri)])
      + Bracketed(parts[1..])
  }

  function Uris(value: string): seq<string> {
    Bracketed(Split(value, '<')[1..])
  }

  predicate IsMailto(uri: string) { "mailto:" <= AsciiLower(uri) }
  predicate IsHttps(uri: string) { "https://" <= AsciiLower(uri) }
  predicate IsHttp(uri: string) { "http://" <= AsciiLower(uri) }
  predicate IsWebPage(uri: string) { IsHttps(uri) || IsHttp(uri) }

  function Take(o: Offer, uri: string, oneClick: bool): Offer {
    if IsMailto(uri) then if o.mail.None? then o.(mail := Mailto.Parse(uri)) else o
    else if IsHttps(uri) then
      if oneClick && o.einKlick.None? then o.(einKlick := Some(uri))
      else if o.link.None? then o.(link := Some(uri))
      else o
    else if IsHttp(uri) && o.link.None? then o.(link := Some(uri))
    else o
  }

  function TakeAll(o: Offer, uris: seq<string>, oneClick: bool): Offer
    decreases |uris|
  {
    if uris == [] then o else TakeAll(Take(o, uris[0], oneClick), uris[1..], oneClick)
  }

  function OfferIn(lines: seq<string>): Offer {
    match FieldIn(lines, LIST)
    case None => NOTHING
    case Some(v) => TakeAll(NOTHING, Uris(v), IsOneClick(FieldIn(lines, POST)))
  }

  /** `angebot_lesen`. */
  method Read(kopf: string) returns (a: Offer)
    ensures a == OfferIn(Split(kopf, '\n'))
  {
    hide FieldIn, Take, Split, Trim, SplitOnce, IsOneClick;
    a := NOTHING;
    var liste := Field(kopf, LIST);
    if liste.None? {
      return;
    }
    var post := Field(kopf, POST);
    var oneClick := IsOneClick(post);
    var parts := Split(liste.value, '<');
    for i := 1 to |parts|
      invariant TakeAll(NOTHING, Bracketed(parts[1..]), oneClick)
             == TakeAll(a, Bracketed(parts[i..]), oneClick)
    {
      assert parts[i..][1..] == parts[i + 1..];
      var cut := SplitOnce(parts[i], '>');
      assert [] + Bracketed(parts[i + 1..]) == Bracketed(parts[i + 1..]);
      if cut.None? {
        continue;
      }
      var uri := Trim(cut.value.0);
      assert ([uri] + Bracketed(parts[i + 1..]))[1..] == Bracketed(parts[i + 1..]);
      a := Take(a, uri, oneClick);
    }
    assert parts[|parts|..] == [];
  }

  // ------------------------------------------------ only the header block counts

  function HeaderBlock(lines: seq<string>): seq<string> {
    if lines == [] || StripCrs(lines[0]) == "" then [] else [lines[0]] + HeaderBlock(lines[1..])
  }

  lemma {:induction false} UnfoldInBlock(value: string, lines: seq<string>)
    ensures Unfold(value, lines) == Unfold(value, HeaderBlock(lines))
    decreases |lines|
  {
    hide Trim, StripCrs;
    if lines != [] && StripCrs(lines[0]) != "" {
      assert HeaderBlock(lines)[1..] == HeaderBlock(lines[1..]);
      UnfoldInBlock(value + " " + Trim(StripCrs(lines[0])), lines[1..]);
    }
  }

  lemma {:induction false} FieldInBlock(lines: seq<string>, name: string)
    ensures FieldIn(lines, name) == FieldIn(HeaderBlock(lines), name)
  {
    hide Trim, StripCrs, ValueOf;
    if lines != [] && StripCrs(lines[0]) != "" {
      assert HeaderBlock(lines)[1..] == HeaderBlock(lines[1..]);
      FieldInBlock(lines[1..], name);
      match ValueOf(StripCrs(lines[0]), name)
      case None =>
      case Some(v) => UnfoldInBlock(v, lines[1..]);
    }
  }

  /** `s` consists of CRs only. */
  predicate OnlyCrs(s: string) {
    forall c :: c in s ==> c == '\r'
  }

  lemma StripOnlyCrs(s: string)
    ensures StripCrs(s) == "" <==> OnlyCrs(s)
  {
    LastNotCr(s);
    var r := StripCrs(s);
    assert r != "" ==> r[|r| - 1] in s;
    assert r == "" ==> forall c :: c in s ==> c == '\r';
  }

  lemma LastNotCr(s: string)
    ensures var r := StripCrs(s); r != "" ==> r[|r| - 1] != '\r'
    ensures forall i :: |StripCrs(s)| <= i < |s| ==> s[i] == '\r'
  {
  }

  lemma {:induction false} BlockEnds(a: seq<string>, e: string, b: seq<string>)
    requires StripCrs(e) == ""
    ensures HeaderBlock(a + [e] + b) == HeaderBlock(a)
    decreases |a|
  {
    hide StripCrs;
    if a == [] {
      assert (a + [e] + b)[0] == e;
    } else {
      assert (a + [e] + b)[1..] == a[1..] + [e] + b;
      BlockEnds(a[1..], e, b);
    }
  }

  /** Text after the first empty line never changes the offer. */
  lemma BodyIsIgnored(header: string, empty: string, body: string)
    requires OnlyCrs(empty)
    ensures OfferIn(Split(header + "\n" + empty + "\n" + body, '\n')) == OfferIn(Split(header, '\n'))
  {
    hide FieldIn, Split, TakeAll, Uris, IsOneClick, HeaderBlock;
    StripOnlyCrs(empty);
    var all := Split(header + "\n" + empty + "\n" + body, '\n');
    SplitConcat(header + "\n" + empty, body, '\n');
    SplitConcat(header, empty, '\n');
    SplitStep(empty, '\n', "");
    assert all == Split(header, '\n') + [empty] + Split(body, '\n');
    BlockEnds(Split(header, '\n'), empty, Split(body, '\n'));
    SameBlockSameOffer(all, Split(header, '\n'));
  }

  lemma SameBlockSameOffer(a: seq<string>, b: seq<string>)
    requires HeaderBlock(a) == HeaderBlock(b)
    ensures OfferIn(a) == OfferIn(b)
  {
    hide FieldIn, TakeAll, Uris, IsOneClick, HeaderBlock;
    FieldInBlock(a, LIST);
    FieldInBlock(b, LIST);
    FieldInBlock(a, POST);
    FieldInBlock(b, POST);
  }

  // ------------------------------------------- URIs inside a longer value

  /** Every bracket that opens is closed again. */
  predicate Closed(v: string) {
    forall i :: 0 <= i < |v| && v[i] == '<' ==> '>' in v[i..]
  }

  lemma UrisPlain(v: string)
    requires '<' !in v
    ensures Uris(v) == [] && Bracketed(Split(v, '<')) == Bracketed([v])
  {
    SplitStep(v, '<', "");
  }

  lemma UrisOpen(head: string, tail: string)
    requires '<' !in head
    ensures Uris(head + "<" + tail) == Bracketed(Split(tail, '<'))
    ensures Bracketed(Split(head + "<" + tail, '<')) == Bracketed([head]) + Bracketed(Split(tail, '<'))
  {
    hide Split;
    SplitStep(head, '<', tail);
    var parts := [head] + Split(tail, '<');
    assert parts[1..] == Split(tail, '<');
    assert Bracketed([head]) == (match SplitOnce(head, '>') case None => [] case Some((uri, _)) => [Trim(uri)]) + [];
  }

  lemma CutFirst(v: string) returns (head: string, tail: string)
    requires '<' in v
    ensures v == head + "<" + tail && '<' !in head
  {
    var i := Find(v, '<');
    head, tail := v[..i], v[i + 1..];
  }

  lemma BracketedHead(a: string, b: string)
    requires '>' in a
    ensures Bracketed([a + b]) == Bracketed([a])
  {
    FindAppend(a, b, '>');
    var i := Find(a, '>');
    assert (a + b)[..i] == a[..i];
    assert [a + b][1..] == [] && [a][1..] == [];
  }

  lemma {:induction false} InnerConcat(a: string, b: string)
    requires Closed("<" + a)
    ensures Bracketed(Split(a + b, '<')) == Bracketed(Split(a, '<')) + Uris(b)
    decreases |a|
  {
    hide Split, Bracketed, Uris;
    var full := "<" + a;
    if '<' !in a {
      assert full[0..] == full && '>' in a;
      UrisPlain(a);
      if '<' !in b {
        UrisPlain(a + b);
        UrisPlain(b);
        BracketedHead(a, b);
      } else {
        var h, t := CutFirst(b);
        assert a + b == (a + h) + "<" + t;
        UrisOpen(a + h, t);
        UrisOpen(h, t);
        BracketedHead(a, h);
      }
    } else {
      var h, t := CutFirst(a);
      assert a + b == h + "<" + (t + b);
      UrisOpen(h, t + b);
      UrisOpen(h, t);
      assert Closed("<" + t) by {
        assert full[1 + |h|..] == "<" + t;
        forall i | 0 <= i < |"<" + t| && ("<" + t)[i] == '<'
          ensures '>' in ("<" + t)[i..]
        {
          assert full[1 + |h| + i] == '<' && full[1 + |h| + i..] == ("<" + t)[i..];
        }
      }
      InnerConcat(t, b);
    }
  }

  /** Cutting a value outside the brackets cuts its URI list. */
  lemma UrisConcat(a: string, b: string)
    requires Closed(a)
    ensures Uris(a + b) == Uris(a) + Uris(b)
  {
    hide Split, Bracketed, Uris;
    if '<' !in a {
      UrisPlain(a);
      if '<' !in b {
        UrisPlain(a + b);
        UrisPlain(b);
      } else {
        var h, t := CutFirst(b);
        assert a + b == (a + h) + "<" + t;
        UrisOpen(a + h, t);
        UrisOpen(h, t);
      }
    } else {
      var h, t := CutFirst(a);
      assert a + b == h + "<" + (t + b);
      UrisOpen(h, t + b);
      UrisOpen(h, t);
      assert Closed("<" + t) by {
        forall i | 0 <= i < |"<" + t| && ("<" + t)[i] == '<'
          ensures '>' in ("<" + t)[i..]
        {
          assert a[|h| + i] == '<' && a[|h| + i..] == ("<" + t)[i..];
        }
      }
      InnerConcat(t, b);
    }
  }

  // ------------------------------------------------------------------ folding

  lemma BlankHasNoBracket(s: string)
    requires Blank(s)
    ensures '<' !in s && '>' !in s
  {
    assert !IsWhitespace('<') && !IsWhitespace('>');
  }

  lemma ClosedTrim(v: string)
    requires Closed(v)
    ensures Closed(Trim(v))
  {
    hide Trim, Blank;
    var p, q := TrimParts(v);
    BlankHasNoBracket(q);
    ClosedMiddle(p, Trim(v), q);
  }

  lemma ClosedMiddle(p: string, m: string, q: string)
    requires Closed(p + m + q) && '>' !in q
    ensures Closed(m)
  {
    var v := p + m + q;
    forall i | 0 <= i < |m| && m[i] == '<'
      ensures '>' in m[i..]
    {
      assert v[|p| + i] == '<';
      assert v[|p| + i..] == m[i..] + q;
    }
  }

  /** Folding a value at white space outside the brackets keeps its URIs. */
  lemma FoldedValue(v: string, s: string, y: string, rest: string)
    requires Closed(v) && Blank(s)
    ensures Uris(Trim(v + s + y) + rest) == Uris(Trim(v) + " " + Trim(s + y) + rest)
  {
    hide Uris, Trim, Blank, Closed;
    var p, q := TrimParts(v);
    var p', q' := TrimParts(y);
    var m, n := Trim(v), Trim(y);
    ClosedTrim(v);
    BlankConcat(s, p');
    assert s + y == (s + p') + n + q';
    TrimUnique(s + p', n, q');
    UrisConcat(m, " " + (n + rest));
    assert m + (" " + (n + rest)) == m + " " + n + rest;
    SpaceIsBlank(" ");
    BlankPrefix(" ", n + rest);
    if n == "" {
      assert v + s + y == p + m + (q + ((s + p') + q'));
      BlankConcat(s + p', q');
      BlankConcat(q, (s + p') + q');
      TrimUnique(p, m, q + ((s + p') + q'));
      UrisConcat(m, n + rest);
      assert m + (n + rest) == m + rest && n + rest == rest;
    } else if m == "" {
      BlankConcat(p, q);
      BlankConcat(p + q, s + p');
      assert v + s + y == ((p + q) + (s + p')) + n + q';
      TrimUnique((p + q) + (s + p'), n, q');
      assert m + (n + rest) == n + rest;
      UrisConcat(m, n + rest);
    } else {
      var gap := q + (s + p');
      BlankConcat(q, s + p');
      var t := m + gap + n;
      assert t[0] == m[0] && t[|t| - 1] == n[|n| - 1];
      assert v + s + y == p + t + q';
      TrimUnique(p, t, q');
      assert t + rest == m + (gap + (n + rest));
      UrisConcat(m, gap + (n + rest));
      BlankPrefix(gap, n + rest);
    }
  }

  lemma BlankPrefix(ws: string, v: string)
    requires Blank(ws)
    ensures Uris(ws + v) == Uris(v)
  {
    hide Uris;
    BlankHasNoBracket(ws);
    UrisConcat(ws, v);
    UrisPlain(ws);
  }

  lemma {:induction false} UnfoldAppends(v: string, lines: seq<string>)
    ensures Unfold(v, lines) == v + Unfold("", lines)
    decreases |lines|
  {
    hide Trim, StripCrs;
    if lines == [] || StripCrs(lines[0]) == "" || !Folded(StripCrs(lines[0])) {
      assert v + "" == v;
    } else {
      var w := " " + Trim(StripCrs(lines[0]));
      UnfoldAppends(v + " " + Trim(StripCrs(lines[0])), lines[1..]);
      UnfoldAppends("" + " " + Trim(StripCrs(lines[0])), lines[1..]);
      assert v + " " + Trim(StripCrs(lines[0])) == v + w && "" + " " + Trim(StripCrs(lines[0])) == w;
      assert (v + w) + Unfold("", lines[1..]) == v + (w + Unfold("", lines[1..]));
    }
  }

  /** A run of spaces and tabs. */
  predicate FoldingSpace(s: string) {
    s != "" && forall c :: c in s ==> c == ' ' || c == '\t'
  }

  lemma {:induction false} StripCrsTail(a: string, b: string)
    requires a != "" && a[|a| - 1] != '\r'
    ensures StripCrs(a + b) == a + StripCrs(b)
    decreases |b|
  {
    if b == "" {
      assert a + b == a;
    } else if b[|b| - 1] == '\r' {
      assert (a + b)[..|a + b| - 1] == a + b[..|b| - 1];
      StripCrsTail(a, b[..|b| - 1]);
    }
  }

  /** Cutting at a line that starts a field of its own leaves everything before alone. */
  lemma {:induction false} UnfoldStops(v: string, pre: seq<string>, a: seq<string>, b: seq<string>)
    requires a != [] && b != [] && !Folded(StripCrs(a[0])) && !Folded(StripCrs(b[0]))
    ensures Unfold(v, pre + a) == Unfold(v, pre + b)
    decreases |pre|
  {
    hide Trim, StripCrs, Folded;
    if pre == [] {
      assert pre + a == a && pre + b == b;
    } else {
      assert (pre + a)[1..] == pre[1..] + a && (pre + b)[1..] == pre[1..] + b;
      var line := StripCrs(pre[0]);
      assert (pre + a)[0] == pre[0] && (pre + b)[0] == pre[0];
      if line != "" && Folded(line) {
        UnfoldStops(v + " " + Trim(line), pre[1..], a, b);
      }
    }
  }

  /** Two continuations read alike after the same lines, if one of them is reached. */
  lemma {:induction false} SameAfter(pre: seq<string>, a: seq<string>, b: seq<string>, name: string)
    requires a != [] && b != [] && !Folded(StripCrs(a[0])) && !Folded(StripCrs(b[0]))
    ensures || FieldIn(pre + a, name) == FieldIn(pre + b, name)
            || (FieldIn(pre + a, name) == FieldIn(a, name) && FieldIn(pre + b, name) == FieldIn(b, name))
    decreases |pre|
  {
    hide Trim, StripCrs, Folded, ValueOf, Unfold;
    if pre == [] {
      assert pre + a == a && pre + b == b;
    } else {
      assert (pre + a)[1..] == pre[1..] + a && (pre + b)[1..] == pre[1..] + b;
      assert (pre + a)[0] == pre[0] && (pre + b)[0] == pre[0];
      match ValueOf(StripCrs(pre[0]), name)
      case None => SameAfter(pre[1..], a, b, name);
      case Some(v) => UnfoldStops(v, pre[1..], a, b);
    }
  }

  /** The first line of a List-Unsubscribe field, up to `x`, is folded before `s`: the rest
      moves to a continuation line. `v` is the value as far as `x` goes. */
  predicate FoldHere(x: string, v: string, s: string, y: string) {
    && x != "" && !Folded(x) && x[|x| - 1] != '\r'
    && SplitOnce(x, ':').Some? && SplitOnce(x, ':').value.1 == v
    && ValueOf(x, LIST).Some?
    && Closed(v)
    && FoldingSpace(s)
    // the continuation line must not look like the other sought field
    && ValueOf(StripCrs(s + y), POST).None?
  }

  lemma ValueOfLonger(x: string, z: string, name: string)
    requires SplitOnce(x, ':').Some?
    ensures SplitOnce(x + z, ':') == Some((SplitOnce(x, ':').value.0, SplitOnce(x, ':').value.1 + z))
    ensures ValueOf(x + z, name).Some? <==> ValueOf(x, name).Some?
    ensures ValueOf(x + z, name).Some? ==> ValueOf(x + z, name).value == Trim(SplitOnce(x, ':').value.1 + z)
    ensures ValueOf(x, name).Some? ==> ValueOf(x, name).value == Trim(SplitOnce(x, ':').value.1)
  {
    hide Trim, AsciiLower;
    FindAppend(x, z, ':');
    var i := Find(x, ':');
    assert (x + z)[..i] == x[..i] && (x + z)[i + 1..] == x[i + 1..] + z;
  }

  lemma OtherName(x: string)
    requires ValueOf(x, LIST).Some?
    ensures ValueOf(x, POST).None?
  {
    hide Trim;
    assert |AsciiLower(LIST)| == 16 && |AsciiLower(POST)| == 21;
  }

  lemma FoldAtField(x: string, v: string, s: string, y: string, cr: string, post: seq<string>)
    requires FoldHere(x, v, s, y) && OnlyCrs(cr)
    ensures var a, b := [x + s + y] + post, [x + cr, s + y] + post;
            && !Folded(StripCrs(a[0])) && !Folded(StripCrs(b[0]))
            && FieldIn(a, LIST).Some? && FieldIn(b, LIST).Some?
            && Uris(FieldIn(a, LIST).value) == Uris(FieldIn(b, LIST).value)
            && FieldIn(a, POST) == FieldIn(b, POST)
  {
    hide Uris, Trim, StripCrs, ValueOf, Closed;
    var a, b := [x + s + y] + post, [x + cr, s + y] + post;
    var y' := StripCrs(y);
    assert s[|s| - 1] in s;
    StripCrsTail(s, y);
    assert x + s + y == (x + s) + y;
    StripCrsTail(x + s, y);
    assert (x + s) + y' == x + (s + y');
    StripCrsTail(x, cr);
    StripOnlyCrs(cr);
    assert x + "" == x;
    assert a[1..] == post && b[1..] == [s + y] + post && b[1..][1..] == post;
    ValueOfLonger(x, s + y', LIST);
    ValueOfLonger(x, s + y', POST);
    OtherName(x);
    SpaceIsBlank(s);
    assert Folded(s + y') by { assert s[0] in s; }
    var tail := Unfold("", post);
    UnfoldAppends(Trim(v + (s + y')), post);
    UnfoldAppends(Trim(v) + " " + Trim(s + y'), post);
    assert v + s + y' == v + (s + y');
    FoldedValue(v, s, y', tail);
    assert Unfold(Trim(v), b[1..]) == Unfold(Trim(v) + " " + Trim(s + y'), post);
  }

  lemma SpaceIsBlank(s: string)
    requires FoldingSpace(s)
    ensures Blank(s)
  {
  }

  /** Folding the List-Unsubscribe field at white space between its URIs never changes the
      offer, whatever stands before and after it. */
  lemma FoldingKeepsOffer(pre: seq<string>, x: string, v: string, s: string, y: string, cr: string, post: seq<string>)
    requires FoldHere(x, v, s, y) && OnlyCrs(cr)
    ensures OfferIn(pre + ([x + s + y] + post)) == OfferIn(pre + ([x + cr, s + y] + post))
  {
    hide FieldIn, TakeAll, Uris, IsOneClick, FoldHere;
    FoldAtField(x, v, s, y, cr, post);
    var a, b := [x + s + y] + post, [x + cr, s + y] + post;
    SameAfter(pre, a, b, LIST);
    SameAfter(pre, a, b, POST);
  }

  // ------------------------------------------------------- what is selected

  function First(uris: seq<string>, p: string -> bool): Option<string> {
    if uris == [] then None else if p(uris[0]) then Some(uris[0]) else First(uris[1..], p)
  }

  /** The first mailto URI that names an admissible address. */
  function FirstMail(uris: seq<string>): Option<Mailto.Mail> {
    if uris == [] then None
    else if IsMailto(uris[0]) && Mailto.Parse(uris[0]).Some? then Mailto.Parse(uris[0])
    else FirstMail(uris[1..])
  }

  /** Without the one https URI that serves the one-click request. */
  function WithoutOneClick(uris: seq<string>, oneClick: bool): seq<string> {
    if uris == [] || !oneClick then uris
    else if IsHttps(uris[0]) then uris[1..]
    else [uris[0]] + WithoutOneClick(uris[1..], oneClick)
  }

  lemma Kinds(uri: string)
    ensures !(IsMailto(uri) && IsHttps(uri)) && !(IsMailto(uri) && IsHttp(uri)) && !(IsHttps(uri) && IsHttp(uri))
  {
    var l := AsciiLower(uri);
    if IsMailto(uri) {
      assert l[0] == 'm';
    }
    if IsHttps(uri) {
      assert l[0] == 'h' && l[4] == 's';
    }
    if IsHttp(uri) {
      assert l[0] == 'h' && l[4] == ':';
    }
  }

  lemma {:induction false} Selection(o: Offer, uris: seq<string>, oneClick: bool)
    ensures TakeAll(o, uris, oneClick) == Offer(
        OrElse(o.einKlick, if oneClick then First(uris, IsHttps) else None),
        OrElse(o.mail, FirstMail(uris)),
        OrElse(o.link, First(WithoutOneClick(uris, oneClick && o.einKlick.None?), IsWebPage)))
    decreases |uris|
  {
    hide IsMailto, IsHttps, IsHttp, Mailto.Parse;
    if uris != [] {
      var u := uris[0];
      Kinds(u);
      Selection(Take(o, u, oneClick), uris[1..], oneClick);
      var w := WithoutOneClick(uris, oneClick && o.einKlick.None?);
      if w != uris[1..] {
        assert w[0] == u;
        assert w[1..] == WithoutOneClick(uris[1..], oneClick && o.einKlick.None?);
      }
    }
  }

  /** The one-click URL is the first https URI and only with the Post header; the mail is
      the first readable mailto; the link is the first other web page. */
  lemma OfferMeaning(lines: seq<string>, list: string)
    requires FieldIn(lines, LIST) == Some(list)
    ensures var oneClick := IsOneClick(FieldIn(lines, POST));
            OfferIn(lines) == Offer(
              if oneClick then First(Uris(list), IsHttps) else None,
              FirstMail(Uris(list)),
              First(WithoutOneClick(Uris(list), oneClick), IsWebPage))
  {
    hide FieldIn, Uris, IsOneClick, First, FirstMail, WithoutOneClick, TakeAll;
    Selection(NOTHING, Uris(list), IsOneClick(FieldIn(lines, POST)));
  }

  // --------------------------------------------------------------- round trip

  function Render(uris: seq<string>): string {
    if uris == [] then ""
    else "<" + uris[0] + ">" + if |uris| == 1 then "" else ", " + Render(uris[1..])
  }

  predicate Printable(uri: string) {
    Trimmed(uri) && '<' !in uri && '>' !in uri
  }

  /** White space inside the brackets does not belong to the URI. */
  lemma PaddedUri(p: string, uri: string, q: string, after: string)
    requires Printable(uri) && Blank(p) && Blank(q) && '<' !in after
    ensures Uris("<" + (p + uri + q) + ">" + after) == [uri]
  {
    hide Uris, Split, Trim, Find, Trimmed, Blank;
    BlankHasNoBracket(p);
    BlankHasNoBracket(q);
    var padded := p + uri + q;
    var inner := padded + ">" + after;
    assert "<" + padded + ">" + after == "" + "<" + inner;
    UrisOpen("", inner);
    SplitStep(inner, '<', "");
    FindAt(inner, '>', |padded|);
    assert inner[..|padded|] == padded;
    TrimUnique(p, uri, q);
    assert [inner][1..] == [];
  }

  lemma UrisOne(uri: string, after: string)
    requires Printable(uri) && '<' !in after
    ensures Uris("<" + uri + ">" + after) == [uri]
  {
    hide Uris, Split, Trim, Find, Printable;
    var inner := uri + ">" + after;
    assert "<" + uri + ">" + after == "" + "<" + inner;
    UrisOpen("", inner);
    InnerOne(uri, after);
  }

  lemma InnerOne(uri: string, after: string)
    requires Printable(uri) && '<' !in after
    ensures Bracketed(Split(uri + ">" + after, '<')) == [uri]
  {
    hide Split, Trim, Find, Trimmed;
    var inner := uri + ">" + after;
    SplitStep(inner, '<', "");
    FindAt(inner, '>', |uri|);
    assert inner[..|uri|] == uri;
    TrimTrimmed(uri);
    assert [inner][1..] == [];
  }

  lemma ClosedOne(uri: string, after: string)
    requires Printable(uri) && '<' !in after
    ensures Closed("<" + uri + ">" + after)
  {
    hide Trimmed;
    var inner := uri + ">" + after;
    var all := "<" + uri + ">" + after;
    assert all[1 + |uri|] == '>' && all[0..] == all;
    forall i | 1 <= i < |all|
      ensures all[i] != '<'
    {
      assert all[i] == inner[i - 1];
    }
  }

  /** A printed list of URIs reads back as that list. */
  lemma {:induction false} RenderRead(uris: seq<string>)
    requires forall u :: u in uris ==> Printable(u)
    ensures Uris(Render(uris)) == uris
  {
    hide Uris, Printable, Closed;
    if uris == [] {
      UrisPlain("");
    } else {
      assert uris[0] in uris;
      if |uris| == 1 {
        UrisOne(uris[0], "");
        assert Render(uris) == "<" + uris[0] + ">" + "";
      } else {
        UrisOne(uris[0], ", ");
        ClosedOne(uris[0], ", ");
        RenderRead(uris[1..]);
        var head := "<" + uris[0] + ">" + ", ";
        assert Render(uris) == head + Render(uris[1..]);
        UrisConcat(head, Render(uris[1..]));
      }
    }
  }

  lemma {:induction false} RenderEnds(uris: seq<string>)
    requires uris != []
    ensures var r := Render(uris); r != "" && r[0] == '<' && r[|r| - 1] == '>'
  {
    if |uris| > 1 {
      RenderEnds(uris[1..]);
    }
  }

  lemma PrintedLine(uris: seq<string>)
    requires uris != []
    ensures var line := LIST + ": " + Render(uris);
            StripCrs(line) == line && line != "" && ValueOf(line, LIST) == Some(Render(uris))
  {
    hide Render, Trim, Split, AsciiLower;
    RenderEnds(uris);
    var r := Render(uris);
    var line := LIST + ": " + r;
    assert line[|line| - 1] == '>';
    FindAt(line, ':', |LIST|);
    assert line[..|LIST|] == LIST && line[|LIST| + 1..] == " " + r;
    TrimTrimmed(LIST);
    SpaceIsBlank(" ");
    TrimUnique(" ", r, "");
    assert " " + r + "" == " " + r;
  }

  /** A printed List-Unsubscribe header reads back: the first URI of each kind is offered,
      the one-click request only with the Post header. */
  lemma PrintedHeaderIsRead(uris: seq<string>, rest: seq<string>)
    requires uris != [] && forall u :: u in uris ==> Printable(u)
    requires rest == [] || StripCrs(rest[0]) == "" || !Folded(StripCrs(rest[0]))
    ensures var lines := [LIST + ": " + Render(uris)] + rest;
            var oneClick := IsOneClick(FieldIn(lines, POST));
            OfferIn(lines) == Offer(
              if oneClick then First(uris, IsHttps) else None,
              FirstMail(uris),
              First(WithoutOneClick(uris, oneClick), IsWebPage))
  {
    hide Render, StripCrs, ValueOf, Uris, OfferIn, First, FirstMail, WithoutOneClick, IsOneClick, Printable;
    var lines := [LIST + ": " + Render(uris)] + rest;
    PrintedLine(uris);
    assert lines[0] == LIST + ": " + Render(uris) && lines[1..] == rest;
    assert FieldIn(lines, LIST) == Some(Render(uris));
    RenderRead(uris);
    OfferMeaning(lines, Render(uris));
  }

  // ----------------------------------------------------- the one-click request

  lemma {:induction false} WithoutSpacesConcat(a: string, b: string)
    ensures WithoutSpaces(a + b) == WithoutSpaces(a) + WithoutSpaces(b)
    ensures forall c: char :: WithoutSpaces([c]) == if c == ' ' then "" else [c]
  {
    forall c: char
      ensures WithoutSpaces([c]) == if c == ' ' then "" else [c]
    {
      assert [c][1..] == "";
    }
    if a == "" {
      assert a + b == b;
    } else {
      assert (a + b)[1..] == a[1..] + b;
      WithoutSpacesConcat(a[1..], b);
    }
  }

  /** The value that asks for one-click, in any letter case and with any spaces. */
  lemma OneClickIff(v: string)
    ensures IsOneClick(Some(v)) <==> SameButCase(WithoutSpaces(v), "List-Unsubscribe=One-Click")
    ensures !IsOneClick(None)
  {
    LowerIff(WithoutSpaces(v), "List-Unsubscribe=One-Click");
  }

  /** Schemes count in any letter case. */
  lemma SchemesIff(uri: string)
    ensures IsMailto(uri) <==> |uri| >= 7 && SameButCase(uri[..7], "mailto:")
    ensures IsHttps(uri) <==> |uri| >= 8 && SameButCase(uri[..8], "https://")
    ensures IsHttp(uri) <==> |uri| >= 7 && SameButCase(uri[..7], "http://")
  {
    PrefixIff(uri, "mailto:");
    PrefixIff(uri, "https://");
    PrefixIff(uri, "http://");
  }

  lemma PrefixIff(uri: string, scheme: string)
    requires forall c :: c in scheme ==> !('A' <= c <= 'Z')
    ensures scheme <= AsciiLower(uri) <==> |uri| >= |scheme| && SameButCase(uri[..|scheme|], scheme)
  {
    hide AsciiLower;
    assert forall i :: 0 <= i < |scheme| ==> scheme[i] in scheme;
    assert AsciiLower(scheme) == scheme;
    if |uri| >= |scheme| {
      LowerIff(uri[..|scheme|], scheme);
      assert AsciiLower(uri[..|scheme|]) == AsciiLower(uri)[..|scheme|];
    }
  }

  lemma PostLine(name: string, v: string)
    requires SameButCase(name, POST) && Trimmed(v) && v != ""
    ensures var line := name + ": " + v;
            StripCrs(line) == line && line != "" && !Folded(line)
            && ValueOf(line, POST) == Some(v) && ValueOf(line, LIST) == None
  {
    hide Trim, Split, AsciiLower, IsWhitespace;
    var line := name + ": " + v;
    LettersAndDashes(name);
    LowerIff(name, POST);
    CrIsWhitespace();
    assert line[|line| - 1] == v[|v| - 1] && v[|v| - 1] != '\r';
    FindAt(line, ':', |name|);
    assert line[..|name|] == name && line[|name| + 1..] == " " + v;
    TrimTrimmed(name);
    SpaceIsBlank(" ");
    NothingIsBlank();
    TrimUnique(" ", v, "");
    assert " " + v + "" == " " + v;
    assert |AsciiLower(LIST)| == 16 && |AsciiLower(name)| == 21;
  }

  lemma CrIsWhitespace()
    ensures IsWhitespace('\r')
  {
  }

  lemma LettersAndDashes(name: string)
    requires SameButCase(name, POST)
    ensures |name| == 21 && ':' !in name && Trimmed(name) && name[0] != ' ' && name[0] != '\t'
  {
    assert forall i :: 0 <= i < |POST| ==> POST[i] == '-' || 'A' <= POST[i] <= 'Z' || 'a' <= POST[i] <= 'z';
    assert forall i :: 0 <= i < |name| ==> name[i] == '-' || 'A' <= name[i] <= 'Z' || 'a' <= name[i] <= 'z';
  }

  /** A printed header with the Post field (section 3.1 of RFC 8058), its name and its value in
      any letter case and the value with any spaces: the first https URI is offered for
      one-click, and with any other value none is. */
  lemma OneClickIsOffered(uris: seq<string>, name: string, v: string, rest: seq<string>)
    requires uris != [] && forall u :: u in uris ==> Printable(u)
    requires SameButCase(name, POST) && Trimmed(v) && v != ""
    requires rest == [] || StripCrs(rest[0]) == "" || !Folded(StripCrs(rest[0]))
    ensures var oneClick := SameButCase(WithoutSpaces(v), "List-Unsubscribe=One-Click");
            OfferIn([LIST + ": " + Render(uris), name + ": " + v] + rest) == Offer(
              if oneClick then First(uris, IsHttps) else None,
              FirstMail(uris),
              First(WithoutOneClick(uris, oneClick), IsWebPage))
  {
    hide Render, StripCrs, OfferIn, First, FirstMail, WithoutOneClick, IsOneClick, Printable, WithoutSpaces,
      SameButCase, Folded, Trimmed, FieldIn;
    var more := [name + ": " + v] + rest;
    assert [LIST + ": " + Render(uris), name + ": " + v] + rest == [LIST + ": " + Render(uris)] + more;
    PostLine(name, v);
    assert more[0] == name + ": " + v;
    PrintedHeaderIsRead(uris, more);
    PostIsFound(uris, name, v, rest);
    OneClickIff(v);
  }

  lemma PostIsFound(uris: seq<string>, name: string, v: string, rest: seq<string>)
    requires uris != [] && SameButCase(name, POST) && Trimmed(v) && v != ""
    requires rest == [] || StripCrs(rest[0]) == "" || !Folded(StripCrs(rest[0]))
    ensures FieldIn([LIST + ": " + Render(uris)] + ([name + ": " + v] + rest), POST) == Some(v)
  {
    hide Render, StripCrs, ValueOf, SameButCase, Folded, Trimmed;
    var line, post := LIST + ": " + Render(uris), name + ": " + v;
    PostLine(name, v);
    PrintedLine(uris);
    OtherName(line);
    var more := [post] + rest;
    assert more[0] == post && more[1..] == rest && ([line] + more)[1..] == more;
    assert FieldIn(more, POST) == Some(Unfold(v, rest)) == Some(v);
  }

  /** Without the Post field nothing is offered for one-click. */
  lemma {:induction false} NoPostNoOneClick(lines: seq<string>)
    requires forall l :: l in lines ==> ValueOf(StripCrs(l), POST).None?
    ensures FieldIn(lines, POST) == None && OfferIn(lines).einKlick == None
  {
    hide ValueOf, StripCrs, Uris, First, FirstMail, WithoutOneClick, TakeAll;
    NoSuchField(lines, POST);
    match FieldIn(lines, LIST)
    case None =>
    case Some(v) => OfferMeaning(lines, v);
  }

  lemma {:induction false} NoSuchField(lines: seq<string>, name: string)
    requires forall l :: l in lines ==> ValueOf(StripCrs(l), name).None?
    ensures FieldIn(lines, name) == None
  {
    hide ValueOf, StripCrs;
    if lines != [] {
      assert lines[0] in lines;
      NoSuchField(lines[1..], name);
    }
  }
}
