/** Reassembly of the model's event stream from network chunks. */
module StreamLines {
  import opened Bytes
  import opened Text
  import Utf8

  /** What the caller sees: a piece of text, or an error (buffer overflow, no connection, a
      refusal, a connection that broke). */
  datatype Item = Content(text: string) | BufferExceeded | SendFailed | Refused | Broken

  /** The JSON layer: the contents a trimmed line carries (none for broken JSON). */
  type Parser = string -> seq<string>

  const MAX_BUF: nat := 1_048_576

  /** `trim_start_matches("data: ")`. */
  function StripData(line: string): string {
    if "data: " <= line then StripData(line[6..]) else line
  }

  datatype Drained = Drained(rest: string, items: seq<Item>, done: bool)

  function Contents(texts: seq<string>): (r: seq<Item>)
    ensures |r| == |texts|
  {
    seq(|texts|, i requires 0 <= i < |texts| => Content(texts[i]))
  }

  /** What one complete line yields; `done` after `[DONE]`. */
  function LineItems(line: string, parse: Parser): (seq<Item>, bool) {
    var trimmed := Trim(StripData(line));
    if trimmed == "" then ([], false)
    else if trimmed == "[DONE]" then ([], true)
    else (Contents(parse(trimmed)), false)
  }

  /** All complete lines of `text`, up to `[DONE]`, and the unfinished end. */
  function Drain(text: string, parse: Parser): Drained
    decreases |text|
  {
    var pos := Find(text, '\n');
    if pos == |text| then Drained(text, [], false)
    else
      var line := LineItems(text[..pos], parse);
      if line.1 then Drained(text[pos + 1..], line.0, true)
      else Prefixed(line.0, Drain(text[pos + 1..], parse))
  }

  function Prefixed(items: seq<Item>, d: Drained): Drained {
    d.(items := items + d.items)
  }

  /** The chunk loop as a function of the buffer and the chunks still to come. */
  function Stream(buffer: string, chunks: seq<seq<Byte>>, parse: Parser): seq<Item>
    decreases |chunks|
  {
    if chunks == [] then []
    else
      var filled := buffer + Utf8.Decode(chunks[0]);
      if Utf8.Len(filled) > MAX_BUF then [BufferExceeded]
      else
        var d := Drain(filled, parse);
        if d.done then d.items else d.items + Stream(d.rest, chunks[1..], parse)
  }

  /** The chunk loop ends the whole stream: after `[DONE]` or an overflow. */
  predicate Stopped(buffer: string, chunks: seq<seq<Byte>>, parse: Parser)
    decreases |chunks|
  {
    chunks != [] &&
    var filled := buffer + Utf8.Decode(chunks[0]);
    Utf8.Len(filled) > MAX_BUF || Drain(filled, parse).done || Stopped(Drain(filled, parse).rest, chunks[1..], parse)
  }

  /** `stream_completion`, one successful response. */
  method Reassemble(chunks: seq<seq<Byte>>, parse: Parser) returns (items: seq<Item>, stopped: bool)
    ensures items == Stream("", chunks, parse) && stopped == Stopped("", chunks, parse)
  {
    hide Drain, Stream, Stopped, Utf8.Len, Utf8.Decode;
    items, stopped := [], true;
    var buffer := "";
    assert chunks[0..] == chunks;
    for k := 0 to |chunks|
      invariant items + Stream(buffer, chunks[k..], parse) == Stream("", chunks, parse)
      invariant Stopped(buffer, chunks[k..], parse) == Stopped("", chunks, parse) && stopped
    {
      StreamStep(buffer, chunks, k, parse);
      buffer := buffer + Utf8.Decode(chunks[k]);
      if Utf8.Len(buffer) > MAX_BUF {
        items := items + [BufferExceeded];
        return;
      }
      var d := DrainBuffer(buffer, parse);
      items := items + d.items;
      if d.done {
        return;
      }
      buffer := d.rest;
    }
    StreamEnd(buffer, chunks, parse);
    stopped := false;
  }

  lemma StreamStep(buffer: string, chunks: seq<seq<Byte>>, k: nat, parse: Parser)
    requires k < |chunks|
    ensures var filled := buffer + Utf8.Decode(chunks[k]);
            var d := Drain(filled, parse);
            Stream(buffer, chunks[k..], parse)
            == if Utf8.Len(filled) > MAX_BUF then [BufferExceeded]
               else if d.done then d.items
               else d.items + Stream(d.rest, chunks[k + 1..], parse)
    ensures var filled := buffer + Utf8.Decode(chunks[k]);
            var d := Drain(filled, parse);
            Stopped(buffer, chunks[k..], parse)
            == (Utf8.Len(filled) > MAX_BUF || d.done || Stopped(d.rest, chunks[k + 1..], parse))
  {
    hide Drain, Utf8.Len, Utf8.Decode;
    assert chunks[k..][1..] == chunks[k + 1..];
  }

  lemma StreamEnd(buffer: string, chunks: seq<seq<Byte>>, parse: Parser)
    ensures Stream(buffer, chunks[|chunks|..], parse) == [] && !Stopped(buffer, chunks[|chunks|..], parse)
  {
  }

  /** The inner loop: cut complete lines off the buffer. */
  method DrainBuffer(filled: string, parse: Parser) returns (d: Drained)
    ensures d == Drain(filled, parse)
  {
    hide LineItems, Trim, StripData, Find, Drain, Contents;
    var buffer, items := filled, [];
    var pos := Find(buffer, '\n');
    assert [] + Drain(filled, parse).items == Drain(filled, parse).items;
    while pos < |buffer|
      invariant pos == Find(buffer, '\n')
      invariant Drain(filled, parse) == Prefixed(items, Drain(buffer, parse))
      decreases |buffer|
    {
      var line := buffer[..pos];
      Unfold(buffer, parse);
      buffer := buffer[pos + 1..];
      pos := Find(buffer, '\n');
      var trimmed := Trim(StripData(line));
      LineCases(line, parse);
      if trimmed == "" {
        continue;
      }
      if trimmed == "[DONE]" {
        return Drained(buffer, items, true);
      }
      items := items + Contents(parse(trimmed));
    }
    Unfold(buffer, parse);
    d := Drained(buffer, items, false);
  }

  lemma LineCases(line: string, parse: Parser)
    ensures var trimmed := Trim(StripData(line));
            && (trimmed == "" ==> LineItems(line, parse) == ([], false))
            && (trimmed == "[DONE]" ==> LineItems(line, parse) == ([], true))
            && (trimmed != "" && trimmed != "[DONE]" ==>
                 LineItems(line, parse) == (Contents(parse(trimmed)), false))
  {
  }

  lemma Unfold(text: string, parse: Parser)
    ensures var pos := Find(text, '\n');
            Drain(text, parse) ==
              if pos == |text| then Drained(text, [], false)
              else if LineItems(text[..pos], parse).1
              then Drained(text[pos + 1..], LineItems(text[..pos], parse).0, true)
              else Prefixed(LineItems(text[..pos], parse).0, Drain(text[pos + 1..], parse))
  {
    hide LineItems, Find, Prefixed;
  }

  // --------------------------------------------------- chunks do not matter

  function Join(texts: seq<string>): string {
    if texts == [] then "" else texts[0] + Join(texts[1..])
  }

  function Encoded(texts: seq<string>): (r: seq<seq<Byte>>)
    ensures |r| == |texts|
  {
    if texts == [] then [] else [Utf8.Encode(texts[0])] + Encoded(texts[1..])
  }

  /** The whole text split once. */
  function Batch(text: string, parse: Parser): seq<Item> {
    Drain(text, parse).items
  }

  /** Draining in two parts is draining the whole. */
  lemma {:induction false} DrainConcat(a: string, b: string, parse: Parser)
    ensures var d, whole := Drain(a, parse), Drain(a + b, parse);
            if d.done then whole.done && whole.items == d.items
            else var e := Drain(d.rest + b, parse);
                 whole == e.(items := d.items + e.items)
    decreases |a|
  {
    hide LineItems, Drain;
    var pos := Find(a, '\n');
    FindAppend(a, b, '\n');
    Unfold(a, parse);
    Unfold(a + b, parse);
    if pos == |a| {
      assert [] + Drain(a + b, parse).items == Drain(a + b, parse).items;
    } else {
      assert (a + b)[..pos] == a[..pos];
      assert (a + b)[pos + 1..] == a[pos + 1..] + b;
      var (items, done) := LineItems(a[..pos], parse);
      if !done {
        DrainConcat(a[pos + 1..], b, parse);
        var d := Drain(a[pos + 1..], parse);
        if !d.done {
          var e := Drain(d.rest + b, parse);
          assert items + (d.items + e.items) == (items + d.items) + e.items;
        }
      }
    }
  }

  /** No buffer along the way is too long: the unfinished end of what came before a chunk
      together with that chunk, unless `[DONE]` came first. */
  predicate FitsBuffer(before: string, texts: seq<string>, parse: Parser)
    decreases |texts|
  {
    hide Drain, Utf8.Len;
    texts == [] || Drain(before, parse).done
    || (&& Utf8.Len(Drain(before, parse).rest + texts[0]) <= MAX_BUF
        && FitsBuffer(before + texts[0], texts[1..], parse))
  }

  lemma {:induction false} StreamIsBatch(before: string, texts: seq<string>, parse: Parser)
    requires !Drain(before, parse).done
    ensures var rest := Drain(before, parse).rest;
            var items := Drain(before, parse).items + Stream(rest, Encoded(texts), parse);
            && (FitsBuffer(before, texts, parse) ==> items == Batch(before + Join(texts), parse))
            && (!FitsBuffer(before, texts, parse) ==>
                 |items| > 0 && items[|items| - 1] == BufferExceeded
                 && items[..|items| - 1] <= Batch(before + Join(texts), parse))
    decreases |texts|
  {
    hide Drain, Utf8.Len, Utf8.Decode, Utf8.Encode;
    var d := Drain(before, parse);
    if texts == [] {
      assert before + Join(texts) == before;
      assert d.items + [] == d.items;
    } else {
      var t := texts[0];
      Utf8.RoundTrip(t);
      var filled := d.rest + t;
      DrainConcat(before, t, parse);
      var e := Drain(filled, parse);
      var next := Drain(before + t, parse);
      assert before + Join(texts) == (before + t) + Join(texts[1..]);
      DrainConcat(before + t, Join(texts[1..]), parse);
      if Utf8.Len(filled) > MAX_BUF {
        DrainConcat(before, Join(texts), parse);
        assert Stream(d.rest, Encoded(texts), parse) == [BufferExceeded];
      } else if e.done {
        assert FitsBuffer(before + t, texts[1..], parse);
      } else {
        StreamIsBatch(before + t, texts[1..], parse);
        var tail := Stream(e.rest, Encoded(texts)[1..], parse);
        assert d.items + (e.items + tail) == (d.items + e.items) + tail;
      }
    }
  }

  /** For chunks cut between characters, the stream yields what splitting the whole text
      once yields, exactly as long as no buffer overflows. */
  lemma ChunksDoNotMatter(texts: seq<string>, parse: Parser)
    ensures Stream("", Encoded(texts), parse) == Batch(Join(texts), parse) <==> FitsBuffer("", texts, parse)
  {
    hide Stream, FitsBuffer, Drain, Join;
    DrainNothing(parse);
    StreamIsBatch("", texts, parse);
    assert "" + Join(texts) == Join(texts);
    var items := Stream("", Encoded(texts), parse);
    assert [] + items == items;
    DrainHasNoError(Join(texts), parse);
    assert !FitsBuffer("", texts, parse) ==> items[|items| - 1] in items;
  }

  lemma DrainNothing(parse: Parser)
    ensures Drain("", parse) == Drained("", [], false)
  {
  }

  lemma LineHasNoError(line: string, parse: Parser)
    ensures forall item :: item in LineItems(line, parse).0 ==> item.Content?
  {
    hide Trim, StripData;
  }

  /** Two ways of cutting the same text give the same stream. */
  lemma AnyTwoChunkings(a: seq<string>, b: seq<string>, parse: Parser)
    requires Join(a) == Join(b)
    requires FitsBuffer("", a, parse) && FitsBuffer("", b, parse)
    ensures Stream("", Encoded(a), parse) == Stream("", Encoded(b), parse)
  {
    ChunksDoNotMatter(a, parse);
    ChunksDoNotMatter(b, parse);
  }

  // -------------------------------------------------- what a server prints

  /** A line of the event stream: a payload after "data: ", or none, and the white space before
      the line feed (a CR, say). */
  datatype Line = Line(payload: Option<string>, end: string)

  predicate IsPayload(p: string) {
    p != "" && Trimmed(p) && '\n' !in p && p != "[DONE]"
  }

  predicate Printable(lines: seq<Line>) {
    forall l :: l in lines ==>
      && Blank(l.end) && '\n' !in l.end
      && (l.payload.Some? ==> IsPayload(l.payload.value) && !("data: " <= l.payload.value + l.end))
  }

  function LineText(l: Line): string {
    (match l.payload case Some(p) => "data: " + p case None => "") + l.end
  }

  function LineContents(l: Line, parse: Parser): seq<Item> {
    match l.payload case Some(p) => Contents(parse(p)) case None => []
  }

  function Printed(lines: seq<Line>): string {
    if lines == [] then ""
    else LineText(lines[0]) + "\n" + Printed(lines[1..])
  }

  function PayloadItems(lines: seq<Line>, parse: Parser): seq<Item> {
    if lines == [] then []
    else LineContents(lines[0], parse) + PayloadItems(lines[1..], parse)
  }

  lemma DataLine(p: string, end: string, parse: Parser)
    requires p != "" && Trimmed(p) && Blank(end) && !("data: " <= p + end)
    ensures LineItems("data: " + p + end, parse)
         == if p == "[DONE]" then ([], true) else (Contents(parse(p)), false)
  {
    hide Trim, Blank;
    var line := "data: " + p + end;
    assert line[6..] == p + end;
    assert StripData(line) == StripData(p + end) == p + end;
    NothingIsBlank();
    TrimUnique("", p, end);
    assert "" + p + end == p + end;
  }

  lemma EmptyLine(end: string, parse: Parser)
    requires Blank(end)
    ensures LineItems(end, parse) == ([], false)
  {
    TrimBlank(end);
    assert end != "" ==> end[0] in end;
  }

  lemma OneLine(line: string, rest: string, parse: Parser)
    requires '\n' !in line
    ensures Drain(line + "\n" + rest, parse)
         == if LineItems(line, parse).1 then Drained(rest, LineItems(line, parse).0, true)
            else Prefixed(LineItems(line, parse).0, Drain(rest, parse))
  {
    hide LineItems, Drain, Prefixed;
    var text := line + "\n" + rest;
    assert text[|line|] == '\n' && forall j :: 0 <= j < |line| ==> text[j] == line[j];
    FindAt(text, '\n', |line|);
    assert text[..|line|] == line && text[|line| + 1..] == rest;
    Unfold(text, parse);
  }

  lemma PrintedLine(l: Line, rest: string, parse: Parser)
    requires Printable([l])
    ensures Drain(LineText(l) + "\n" + rest, parse) == Prefixed(LineContents(l, parse), Drain(rest, parse))
  {
    hide LineItems, Drain, Blank, Trimmed, Prefixed;
    assert l in [l];
    OneLine(LineText(l), rest, parse);
    match l.payload
    case Some(p) => DataLine(p, l.end, parse);
    case None =>
      assert "" + l.end == l.end;
      EmptyLine(l.end, parse);
  }

  lemma PrintedStep(lines: seq<Line>, t: string, parse: Parser)
    requires lines != []
    ensures Printed(lines) + t == LineText(lines[0]) + "\n" + (Printed(lines[1..]) + t)
    ensures PayloadItems(lines, parse) == LineContents(lines[0], parse) + PayloadItems(lines[1..], parse)
  {
  }

  lemma PrefixedTwice(a: seq<Item>, b: seq<Item>, d: Drained)
    ensures Prefixed(a, Prefixed(b, d)) == Prefixed(a + b, d) && Prefixed([], d) == d
  {
    assert a + (b + d.items) == (a + b) + d.items && [] + d.items == d.items;
  }

  /** Printed lines give the contents of their payloads, in order, and then what follows. */
  lemma {:induction false} PrintedIsDrained(lines: seq<Line>, t: string, parse: Parser)
    requires Printable(lines)
    ensures Drain(Printed(lines) + t, parse) == Prefixed(PayloadItems(lines, parse), Drain(t, parse))
    decreases |lines|
  {
    if lines == [] {
      hide Drain, Prefixed;
      assert Printed(lines) + t == t;
      PrefixedTwice([], [], Drain(t, parse));
    } else {
      hide Drain, Prefixed, Printed, PayloadItems, LineText, LineContents, IsPayload, Blank;
      assert lines[0] in lines;
      PrintedStep(lines, t, parse);
      PrintedLine(lines[0], Printed(lines[1..]) + t, parse);
      PrintedIsDrained(lines[1..], t, parse);
      PrefixedTwice(LineContents(lines[0], parse), PayloadItems(lines[1..], parse), Drain(t, parse));
    }
  }

  /** Whether the stream was stopped can be read off the whole text. */
  lemma {:induction false} StoppedIff(before: string, texts: seq<string>, parse: Parser)
    requires !Drain(before, parse).done
    ensures Stopped(Drain(before, parse).rest, Encoded(texts), parse)
       <==> !FitsBuffer(before, texts, parse) || Drain(before + Join(texts), parse).done
    decreases |texts|
  {
    hide Drain, Utf8.Len, Utf8.Decode, Utf8.Encode;
    if texts == [] {
      assert before + Join(texts) == before;
    } else {
      var t := texts[0];
      Utf8.RoundTrip(t);
      DrainConcat(before, t, parse);
      assert before + Join(texts) == (before + t) + Join(texts[1..]);
      DrainConcat(before + t, Join(texts[1..]), parse);
      if !Drain(before + t, parse).done {
        StoppedIff(before + t, texts[1..], parse);
      }
    }
  }

  /** What a server prints is what the caller sees: the contents of the payloads, in order, and
      the stream is stopped by `[DONE]`, however the text is cut between characters, as long as
      no buffer overflows. */
  lemma PrintedStreamIsRead(lines: seq<Line>, end: string, rest: string, texts: seq<string>, parse: Parser)
    requires Printable(lines) && Blank(end) && '\n' !in end
    requires Join(texts) == Printed(lines) + ("data: [DONE]" + end + "\n" + rest) && FitsBuffer("", texts, parse)
    ensures Stream("", Encoded(texts), parse) == PayloadItems(lines, parse) && Stopped("", Encoded(texts), parse)
  {
    hide Stream, Stopped, FitsBuffer, Drain, Join, LineItems, Printable, Blank;
    var last := "data: [DONE]" + end;
    var t := last + "\n" + rest;
    assert "data: " + "[DONE]" + end == last && ("[DONE]" + end)[0] == '[';
    DataLine("[DONE]", end, parse);
    OneLine(last, rest, parse);
    PrintedIsDrained(lines, t, parse);
    ChunksDoNotMatter(texts, parse);
    DrainNothing(parse);
    StoppedIff("", texts, parse);
    assert "" + Join(texts) == Join(texts);
    assert PayloadItems(lines, parse) + [] == PayloadItems(lines, parse);
  }

  // --------------------------------------------- chunks cut anywhere at all

  function Concat(chunks: seq<seq<Byte>>): seq<Byte> {
    if chunks == [] then [] else chunks[0] + Concat(chunks[1..])
  }

  /** What each chunk decodes to on its own. */
  function Texts(chunks: seq<seq<Byte>>): (r: seq<string>)
    ensures |r| == |chunks|
  {
    if chunks == [] then [] else [Utf8.Decode(chunks[0])] + Texts(chunks[1..])
  }

  /** The chunk is text by itself: no character is cut at its ends. */
  predicate Whole(chunk: seq<Byte>) {
    Utf8.Encode(Utf8.Decode(chunk)) == chunk
  }

  /** Chunks of stray bytes and a text never decode to fewer characters than these, and to
      more where a character of the text is cut. */
  lemma {:induction false} DecodedLength(chunks: seq<seq<Byte>>, t: seq<Byte>, s: string)
    requires Concat(chunks) == t + Utf8.Encode(s) && forall x :: x in t ==> Utf8.Continues(x)
    ensures |Join(Texts(chunks))| >= |t| + |s|
    decreases |chunks|
  {
    hide Utf8.Encode, Utf8.EncodeChar, Utf8.Decode;
    var e := Utf8.Encode(s);
    if chunks == [] {
      assert |t + e| == 0;
      Utf8.RoundTrip(s);
      Utf8.NothingIsEmpty();
    } else {
      var c, rest := chunks[0], Concat(chunks[1..]);
      Parts(c, rest, t + e);
      if |c| <= |t| {
        assert (t + e)[..|c|] == t[..|c|] && (t + e)[|c|..] == t[|c|..] + e;
        Utf8.StrayBytes(c, []);
        assert c + [] == c;
        Utf8.NothingIsEmpty();
        DecodedLength(chunks[1..], t[|c|..], s);
      } else {
        var i := |c| - |t|;
        assert (t + e)[..|c|] == t + e[..i] && (t + e)[|c|..] == e[i..];
        Utf8.StrayBytes(t, e[..i]);
        var k, j := Utf8.Locate(s, i);
        if j == 0 {
          Utf8.RoundTrip(s[..k]);
          assert rest == [] + Utf8.Encode(s[k..]);
          DecodedLength(chunks[1..], [], s[k..]);
        } else {
          Utf8.CutLength(s, i, k, j);
          Utf8.CutCharacter(s[k], j);
          DecodedLength(chunks[1..], Utf8.EncodeChar(s[k])[j..], s[k + 1..]);
        }
      }
    }
  }

  lemma Parts(x: seq<Byte>, y: seq<Byte>, z: seq<Byte>)
    requires x + y == z
    ensures z[..|x|] == x && z[|x|..] == y
  {
  }

  /** Chunks of a text's bytes, decoded one by one, give the text back exactly when every
      chunk is text by itself. */
  lemma {:induction false} ChunksKeepTextIff(chunks: seq<seq<Byte>>, s: string)
    requires Concat(chunks) == Utf8.Encode(s)
    ensures Join(Texts(chunks)) == s <==> forall c :: c in chunks ==> Whole(c)
    decreases |chunks|
  {
    hide Utf8.Encode, Utf8.EncodeChar, Utf8.Decode, Whole, Join, Texts, Concat;
    ChunkStep(chunks);
    if chunks == [] {
      Utf8.RoundTrip(s);
      Utf8.NothingIsEmpty();
    } else {
      var c, rest := chunks[0], Concat(chunks[1..]);
      Parts(c, rest, Utf8.Encode(s));
      var k, j := Utf8.Locate(s, |c|);
      if j == 0 {
        WholeText(c, s[..k]);
        ChunksKeepTextIff(chunks[1..], s[k..]);
        SameAfterPrefix(s[..k], Join(Texts(chunks[1..])), s[k..]);
        Halves(s, k);
      } else {
        CutNotWhole(c, s, k, j);
        Utf8.CutLength(s, |c|, k, j);
        Utf8.CutCharacter(s[k], j);
        DecodedLength(chunks[1..], Utf8.EncodeChar(s[k])[j..], s[k + 1..]);
      }
    }
  }

  lemma ChunkStep(chunks: seq<seq<Byte>>)
    ensures chunks == [] ==> Concat(chunks) == [] && Join(Texts(chunks)) == ""
    ensures chunks != [] ==> Concat(chunks) == chunks[0] + Concat(chunks[1..])
    ensures chunks != [] ==> Join(Texts(chunks)) == Utf8.Decode(chunks[0]) + Join(Texts(chunks[1..]))
    ensures chunks != [] ==> forall c :: c in chunks <==> c == chunks[0] || c in chunks[1..]
  {
    hide Utf8.Decode;
    if chunks != [] {
      assert Texts(chunks)[1..] == Texts(chunks[1..]);
    }
  }

  lemma SameAfterPrefix(p: string, x: string, y: string)
    ensures p + x == p + y <==> x == y
  {
    assert (p + x)[|p|..] == x && (p + y)[|p|..] == y;
  }

  lemma WholeText(c: seq<Byte>, s: string)
    requires c == Utf8.Encode(s)
    ensures Whole(c) && Utf8.Decode(c) == s
  {
    Utf8.RoundTrip(s);
  }

  lemma CutNotWhole(c: seq<Byte>, s: string, k: nat, j: nat)
    requires k < |s| && 0 < j < |Utf8.EncodeChar(s[k])|
    requires c == Utf8.Encode(s[..k]) + Utf8.EncodeChar(s[k])[..j]
    ensures !Whole(c)
  {
    hide Utf8.Encode, Utf8.EncodeChar, Utf8.Decode;
    Utf8.CutCharacter(s[k], j);
    Utf8.DecodeAfter(s[..k], Utf8.EncodeChar(s[k])[..j]);
    Utf8.EncodeConcat(s[..k], [Utf8.REPLACEMENT]);
    NotReplacement(s[k], j);
    var p := Utf8.Encode(s[..k]);
    Parts(p, Utf8.EncodeChar(s[k])[..j], c);
    Parts(p, Utf8.Encode([Utf8.REPLACEMENT]), p + Utf8.Encode([Utf8.REPLACEMENT]));
    assert Utf8.Decode(c) == s[..k] + [Utf8.REPLACEMENT];
  }

  lemma NotReplacement(c: char, j: nat)
    requires 0 < j < |Utf8.EncodeChar(c)|
    ensures Utf8.EncodeChar(c)[..j] != Utf8.Encode([Utf8.REPLACEMENT])
  {
    var r := [Utf8.REPLACEMENT];
    assert r[1..] == "" && Utf8.Encode(r) == Utf8.EncodeChar(r[0]) + [];
    assert |Utf8.EncodeChar(r[0])| == 3;
    if j == 3 {
      assert Utf8.EncodeChar(c)[..j][0] >= 0xF0 && Utf8.EncodeChar(r[0])[0] == 0xEF;
    }
  }

  /** However the bytes are cut, the stream is that of the chunks' own texts. */
  lemma {:induction false} StreamOfTexts(buffer: string, chunks: seq<seq<Byte>>, parse: Parser)
    ensures Stream(buffer, chunks, parse) == Stream(buffer, Encoded(Texts(chunks)), parse)
    decreases |chunks|
  {
    hide Drain, Utf8.Len, Utf8.Decode, Utf8.Encode;
    if chunks != [] {
      Utf8.RoundTrip(Utf8.Decode(chunks[0]));
      var d := Drain(buffer + Utf8.Decode(chunks[0]), parse);
      StreamOfTexts(d.rest, chunks[1..], parse);
    }
  }

  /** For a text sent in any chunks: the stream splits the text that the chunks decode to,
      exactly as long as no buffer overflows, and that is the text sent exactly when every
      chunk is text by itself. */
  lemma AnyChunks(chunks: seq<seq<Byte>>, s: string, parse: Parser)
    requires Concat(chunks) == Utf8.Encode(s)
    ensures Stream("", chunks, parse) == Batch(Join(Texts(chunks)), parse) <==> FitsBuffer("", Texts(chunks), parse)
    ensures Join(Texts(chunks)) == s <==> forall c :: c in chunks ==> Whole(c)
  {
    hide Stream, FitsBuffer, Batch, Join, Texts, Concat, Whole;
    StreamOfTexts("", chunks, parse);
    ChunksDoNotMatter(Texts(chunks), parse);
    ChunksKeepTextIff(chunks, s);
  }

  /** A chunk that ends inside a character loses it: each half becomes a replacement
      character, so the same bytes in one chunk give another line. */
  lemma CutInsideCharacter()
    ensures exists head: seq<Byte>, tail: seq<Byte>, parse: Parser ::
              Stream("", [head, tail], parse) != Stream("", [head + tail], parse)
  {
    hide Drain, Utf8.Len, Utf8.Decode, Stream;
    var parse: Parser := line => [line];
    var r := [Utf8.REPLACEMENT];
    HalvesDecoded();
    LineOf("ü", parse);
    LineOf(r + r, parse);
    OneChunk([0xC3, 0xBC, 0x0A], "ü" + "\n", Drained("", [Content("ü")], false), parse);
    TwoChunks(r, r + "\n", Drained("", [Content(r + r)], false), parse);
    var head: seq<Byte>, tail: seq<Byte> := [0xC3], [0xBC, 0x0A];
    assert head + tail == [0xC3, 0xBC, 0x0A];
    assert Stream("", [head, tail], parse) != Stream("", [head + tail], parse);
  }

  lemma HalvesDecoded()
    ensures Utf8.Decode([0xC3]) == [Utf8.REPLACEMENT]
    ensures Utf8.Decode([0xBC, 0x0A]) == [Utf8.REPLACEMENT] + "\n"
    ensures Utf8.Decode([0xC3, 0xBC, 0x0A]) == "ü" + "\n"
  {
    var whole: seq<Byte>, tail: seq<Byte>, last: seq<Byte> := [0xC3, 0xBC, 0x0A], [0xBC, 0x0A], [0x0A];
    assert Utf8.Decode([]) == "" && last[1..] == [];
    assert Utf8.DecodeOne(last) == ('\n', 1);
    assert Utf8.Decode(last) == "\n";
    assert tail[1..] == last && whole[2..] == last;
    assert Utf8.DecodeOne([0xC3]) == (Utf8.REPLACEMENT, 1) && [0xC3][1..] == [];
    assert Utf8.DecodeOne(tail) == (Utf8.REPLACEMENT, 1);
    assert Utf8.DecodeOne(whole) == ('ü', 2);
  }

  lemma OneChunk(chunk: seq<Byte>, text: string, d: Drained, parse: Parser)
    requires Utf8.Decode(chunk) == text && Utf8.Len(text) <= MAX_BUF
    requires Drain(text, parse) == d && !d.done
    ensures Stream("", [chunk], parse) == d.items
  {
    hide Drain, Utf8.Len, Utf8.Decode;
    assert "" + text == text && [chunk][1..] == [];
    assert d.items + [] == d.items;
  }

  lemma TwoChunks(first: string, second: string, d: Drained, parse: Parser)
    requires first == [Utf8.REPLACEMENT] && second == first + "\n"
    requires Utf8.Decode([0xC3]) == first && Utf8.Decode([0xBC, 0x0A]) == second
    requires Drain(first + first + "\n", parse) == d && !d.done
    requires Utf8.Len(first + first + "\n") <= MAX_BUF
    ensures Stream("", [[0xC3], [0xBC, 0x0A]], parse) == d.items
  {
    hide Drain, Utf8.Len, Utf8.Decode, LineItems;
    assert first + second == first + first + "\n" && "" + first == first;
    var chunks: seq<seq<Byte>> := [[0xC3], [0xBC, 0x0A]];
    assert chunks[1..] == [[0xBC, 0x0A]] && chunks[1..][1..] == [];
    ShortLen();
    Unfold(first, parse);
    assert Stream(first, chunks[1..], parse) == d.items + [];
    assert [] + (d.items + []) == d.items;
  }

  lemma ShortLen()
    ensures Utf8.Len([Utf8.REPLACEMENT]) <= MAX_BUF
  {
    var r := [Utf8.REPLACEMENT];
    assert r[1..] == "";
    assert Utf8.Encode(r) == Utf8.EncodeChar(r[0]) + [];
  }

  lemma LineOf(line: string, parse: Parser)
    requires 1 <= |line| <= 2 && Trimmed(line) && '\n' !in line && parse(line) == [line]
    ensures Drain(line + "\n", parse) == Drained("", [Content(line)], false)
    ensures Utf8.Len(line + "\n") <= 12
  {
    hide LineItems, Drain, Prefixed, Utf8.Len, Trim;
    var text := line + "\n";
    FindAt(text, '\n', |line|);
    assert text[..|line|] == line && text[|line| + 1..] == "";
    Unfold(text, parse);
    DrainNothing(parse);
    PlainLine(line, parse);
    LenAtMost(text);
    PrefixedIs([Content(line)], Drained("", [], false));
  }

  lemma PrefixedIs(items: seq<Item>, d: Drained)
    ensures Prefixed(items, d) == d.(items := items + d.items)
  {
  }

  lemma PlainLine(line: string, parse: Parser)
    requires 1 <= |line| <= 2 && Trimmed(line) && parse(line) == [line]
    ensures LineItems(line, parse) == ([Content(line)], false)
  {
    hide Trim;
    TrimTrimmed(line);
    assert Contents([line]) == [Content(line)];
  }

  lemma {:induction false} LenAtMost(text: string)
    ensures Utf8.Len(text) <= 4 * |text|
  {
    if text != "" {
      LenAtMost(text[1..]);
    }
  }

  // ------------------------------------------------------------------ retries

  /** One request: no connection, "too many requests", another refusal, or an answer whose
      chunks may end in a broken connection. */
  datatype Attempt = NoAnswer | TooMany | Rejected | Answer(chunks: seq<seq<Byte>>, broken: bool)

  /** What the caller sees from attempt `n` on. */
  function Responses(attempts: nat -> Attempt, n: nat, maxRetries: nat, parse: Parser): seq<Item>
    decreases maxRetries + 1 - n
  {
    if n > maxRetries then []
    else match attempts(n)
      case NoAnswer => if n < maxRetries then Responses(attempts, n + 1, maxRetries, parse) else [SendFailed]
      case TooMany => Responses(attempts, n + 1, maxRetries, parse)
      case Rejected => [Refused]
      case Answer(chunks, broken) =>
        Stream("", chunks, parse)
        + if Stopped("", chunks, parse) || !broken then []
          else if n < maxRetries then Responses(attempts, n + 1, maxRetries, parse)
          else [Broken]
  }

  /** `stream_completion`, all its attempts. */
  method StreamCompletion(attempts: nat -> Attempt, maxRetries: nat, parse: Parser) returns (items: seq<Item>)
    ensures items == Responses(attempts, 0, maxRetries, parse)
  {
    hide Stream, Stopped;
    items := [];
    for attempt := 0 to maxRetries + 1
      invariant items + Responses(attempts, attempt, maxRetries, parse) == Responses(attempts, 0, maxRetries, parse)
    {
      match attempts(attempt)
      case NoAnswer =>
        if attempt < maxRetries {
          continue;
        }
        items := items + [SendFailed];
        return;
      case TooMany =>
        continue;
      case Rejected =>
        items := items + [Refused];
        return;
      case Answer(chunks, broken) =>
        var more, stopped := Reassemble(chunks, parse);
        items := items + more;
        if stopped || !broken {
          return;
        }
        if attempt < maxRetries {
          continue;
        }
        items := items + [Broken];
        return;
    }
  }

  /** An attempt that is followed by another one while there are any left. */
  predicate Retried(a: Attempt, parse: Parser) {
    match a
    case Answer(chunks, broken) => broken && !Stopped("", chunks, parse)
    case Rejected => false
    case _ => true
  }

  lemma {:induction false} NoErrorUnlessStopped(buffer: string, chunks: seq<seq<Byte>>, parse: Parser)
    requires !Stopped(buffer, chunks, parse)
    ensures forall item :: item in Stream(buffer, chunks, parse) ==> item.Content?
    decreases |chunks|
  {
    hide Drain, Utf8.Len, Utf8.Decode;
    if chunks != [] {
      var filled := buffer + Utf8.Decode(chunks[0]);
      DrainHasNoError(filled, parse);
      NoErrorUnlessStopped(Drain(filled, parse).rest, chunks[1..], parse);
    }
  }

  lemma {:induction false} DrainHasNoError(text: string, parse: Parser)
    ensures forall item :: item in Drain(text, parse).items ==> item.Content?
    decreases |text|
  {
    hide LineItems, Drain;
    Unfold(text, parse);
    var pos := Find(text, '\n');
    if pos < |text| {
      LineHasNoError(text[..pos], parse);
      DrainHasNoError(text[pos + 1..], parse);
    }
  }

  /** The complete lines of a text. */
  function CompleteLines(text: string): seq<string>
    decreases |text|
  {
    var pos := Find(text, '\n');
    if pos == |text| then [] else [text[..pos]] + CompleteLines(text[pos + 1..])
  }

  /** No complete line has arrived that carries content. */
  predicate Quiet(chunks: seq<seq<Byte>>, parse: Parser) {
    forall line :: line in CompleteLines(Join(Texts(chunks))) ==> LineItems(line, parse).0 == []
  }

  lemma {:induction false} QuietText(text: string, parse: Parser)
    requires !Drain(text, parse).done
    ensures Drain(text, parse).items == [] <==>
            forall line :: line in CompleteLines(text) ==> LineItems(line, parse).0 == []
    decreases |text|
  {
    hide LineItems, Drain;
    Unfold(text, parse);
    var pos := Find(text, '\n');
    if pos < |text| {
      QuietText(text[pos + 1..], parse);
    }
  }

  /** While nothing has stopped the stream, it yields what splitting all decoded text yields. */
  lemma {:induction false} UnstoppedIsBatch(before: string, chunks: seq<seq<Byte>>, parse: Parser)
    requires !Drain(before, parse).done && !Stopped(Drain(before, parse).rest, chunks, parse)
    ensures var d, whole := Drain(before, parse), Drain(before + Join(Texts(chunks)), parse);
            !whole.done && whole.items == d.items + Stream(d.rest, chunks, parse)
    decreases |chunks|
  {
    hide Drain, Utf8.Len, Utf8.Decode;
    var d := Drain(before, parse);
    ChunkStep(chunks);
    if chunks == [] {
      assert before + "" == before && d.items + [] == d.items;
    } else {
      var t := Utf8.Decode(chunks[0]);
      DrainConcat(before, t, parse);
      assert before + Join(Texts(chunks)) == (before + t) + Join(Texts(chunks[1..]));
      UnstoppedIsBatch(before + t, chunks[1..], parse);
      var e := Drain(d.rest + t, parse);
      assert d.items + (e.items + Stream(e.rest, chunks[1..], parse))
          == (d.items + e.items) + Stream(e.rest, chunks[1..], parse);
    }
  }

  lemma NothingStreamedIff(chunks: seq<seq<Byte>>, parse: Parser)
    requires !Stopped("", chunks, parse)
    ensures Stream("", chunks, parse) == [] <==> Quiet(chunks, parse)
  {
    hide Stream, Stopped, Drain, CompleteLines, LineItems, Join, Texts;
    DrainNothing(parse);
    UnstoppedIsBatch("", chunks, parse);
    var text := Join(Texts(chunks));
    assert "" + text == text && [] + Stream("", chunks, parse) == Stream("", chunks, parse);
    QuietText(text, parse);
  }

  /** An answer that ends the stream: complete, or stopped on the way. */
  predicate Ends(a: Attempt, parse: Parser) {
    a.Answer? && (!a.broken || Stopped("", a.chunks, parse))
  }

  /** What one attempt shows the caller before it is over. */
  function Sent(a: Attempt, parse: Parser): seq<Item> {
    if a.Answer? then Stream("", a.chunks, parse) else []
  }

  lemma OneAttempt(attempts: nat -> Attempt, n: nat, maxRetries: nat, parse: Parser)
    requires n <= maxRetries
    ensures Ends(attempts(n), parse) ==> Responses(attempts, n, maxRetries, parse) == Sent(attempts(n), parse)
    ensures n < maxRetries && Retried(attempts(n), parse) ==>
      Responses(attempts, n, maxRetries, parse)
      == Sent(attempts(n), parse) + Responses(attempts, n + 1, maxRetries, parse)
  {
    hide Stream, Stopped;
    var items := Sent(attempts(n), parse);
    assert items + [] == items;
    assert [] + Responses(attempts, n + 1, maxRetries, parse) == Responses(attempts, n + 1, maxRetries, parse);
  }

  /** Some attempt, after none but retried ones, ended the stream with its answer. */
  predicate Answered(attempts: nat -> Attempt, n: nat, maxRetries: nat, parse: Parser) {
    exists m :: n <= m <= maxRetries && Ends(attempts(m), parse)
             && forall k :: n <= k < m ==> Retried(attempts(k), parse)
  }

  lemma AnsweredStep(attempts: nat -> Attempt, n: nat, maxRetries: nat, parse: Parser)
    requires n <= maxRetries
    ensures Answered(attempts, n, maxRetries, parse) <==>
            || Ends(attempts(n), parse)
            || (Retried(attempts(n), parse) && Answered(attempts, n + 1, maxRetries, parse))
  {
    hide Ends, Retried;
    if Answered(attempts, n + 1, maxRetries, parse) && Retried(attempts(n), parse) {
      var m :| n + 1 <= m <= maxRetries && Ends(attempts(m), parse)
            && forall k :: n + 1 <= k < m ==> Retried(attempts(k), parse);
      assert forall k :: n <= k < m ==> Retried(attempts(k), parse);
    }
  }

  predicate AllContent(items: seq<Item>) {
    forall item :: item in items ==> item.Content?
  }

  lemma SentIsContent(a: Attempt, parse: Parser)
    requires Retried(a, parse)
    ensures AllContent(Sent(a, parse)) && !Ends(a, parse)
  {
    hide Stream, Stopped;
    if a.Answer? {
      NoErrorUnlessStopped("", a.chunks, parse);
    }
  }

  lemma AllContentConcat(a: seq<Item>, b: seq<Item>)
    ensures AllContent(a + b) <==> AllContent(a) && AllContent(b)
  {
    assert forall item :: item in a + b <==> item in a || item in b;
  }

  /** How the last attempt ends the loop, if it is not an answer that ends the stream. */
  lemma LastAttempt(attempts: nat -> Attempt, n: nat, parse: Parser)
    requires !Ends(attempts(n), parse)
    ensures AllContent(Responses(attempts, n, n, parse)) <==> attempts(n).TooMany?
  {
    hide Stream, Stopped;
    var seen := Responses(attempts, n, n, parse);
    if !attempts(n).TooMany? {
      assert !seen[|seen| - 1].Content?;
      assert seen[|seen| - 1] in seen;
    }
  }

  lemma RejectedAttempt(attempts: nat -> Attempt, n: nat, maxRetries: nat, parse: Parser)
    requires n <= maxRetries && !Ends(attempts(n), parse) && !Retried(attempts(n), parse)
    ensures !AllContent(Responses(attempts, n, maxRetries, parse))
  {
    hide Stream, Stopped;
    assert Refused in Responses(attempts, n, maxRetries, parse);
  }

  /** The caller sees neither an error nor an answer that ended the stream, exactly when every
      attempt was one to be retried and the last one met "too many requests". */
  lemma {:induction false} EndsSilentlyIff(attempts: nat -> Attempt, n: nat, maxRetries: nat, parse: Parser)
    requires n <= maxRetries
    ensures AllContent(Responses(attempts, n, maxRetries, parse)) && !Answered(attempts, n, maxRetries, parse)
       <==> attempts(maxRetries).TooMany? && forall k :: n <= k < maxRetries ==> Retried(attempts(k), parse)
    decreases maxRetries - n
  {
    hide Stream, Stopped, Responses, Answered, AllContent, Sent;
    var a := attempts(n);
    AnsweredStep(attempts, n, maxRetries, parse);
    OneAttempt(attempts, n, maxRetries, parse);
    if Ends(a, parse) {
    } else if n == maxRetries {
      LastAttempt(attempts, n, parse);
      assert !Answered(attempts, n + 1, maxRetries, parse) by {
        NoneAnswered(attempts, maxRetries, parse);
      }
    } else if Retried(a, parse) {
      SentIsContent(a, parse);
      AllContentConcat(Sent(a, parse), Responses(attempts, n + 1, maxRetries, parse));
      EndsSilentlyIff(attempts, n + 1, maxRetries, parse);
    } else {
      RejectedAttempt(attempts, n, maxRetries, parse);
    }
  }

  lemma NoneAnswered(attempts: nat -> Attempt, maxRetries: nat, parse: Parser)
    ensures !Answered(attempts, maxRetries + 1, maxRetries, parse)
  {
  }

  lemma SentNothingIff(a: Attempt, parse: Parser)
    requires Retried(a, parse)
    ensures Sent(a, parse) == [] <==> (a.Answer? ==> Quiet(a.chunks, parse))
  {
    hide Stream, Stopped, Quiet;
    if a.Answer? {
      NothingStreamedIff(a.chunks, parse);
    }
  }

  lemma Prepended(more: seq<Item>, seen: seq<Item>, answer: seq<Item>)
    requires |seen| >= |answer| && seen[|seen| - |answer|..] == answer
    ensures (more + seen)[|more + seen| - |answer|..] == answer
    ensures more + seen == answer <==> more == [] && seen == answer
  {
    assert (more + seen)[|more + seen| - |answer|..] == seen[|seen| - |answer|..];
    assert more == [] ==> more + seen == seen;
  }

  /** After attempts to be retried and one that ends the stream, the caller has seen that
      answer and nothing else exactly when none of the broken ones had brought a line with
      content. */
  lemma {:induction false} SentOnceIff(attempts: nat -> Attempt, n: nat, m: nat, maxRetries: nat, parse: Parser)
    requires n <= m <= maxRetries && Ends(attempts(m), parse)
    requires forall k :: n <= k < m ==> Retried(attempts(k), parse)
    ensures var answer := Stream("", attempts(m).chunks, parse);
            var seen := Responses(attempts, n, maxRetries, parse);
            && |seen| >= |answer| && seen[|seen| - |answer|..] == answer
            && (seen == answer <==>
                forall k :: n <= k < m && attempts(k).Answer? ==> Quiet(attempts(k).chunks, parse))
    decreases m - n
  {
    hide Stream, Responses, Quiet, Retried;
    OneAttempt(attempts, n, maxRetries, parse);
    if n < m {
      SentOnceIff(attempts, n + 1, m, maxRetries, parse);
      SentNothingIff(attempts(n), parse);
      var seen := Responses(attempts, n + 1, maxRetries, parse);
      Prepended(Sent(attempts(n), parse), seen, Stream("", attempts(m).chunks, parse));
    }
  }

  lemma {:induction false} StreamGrows(buffer: string, a: seq<seq<Byte>>, b: seq<seq<Byte>>, parse: Parser)
    requires !Stopped(buffer, a, parse)
    ensures Stream(buffer, a, parse) <= Stream(buffer, a + b, parse)
    decreases |a|
  {
    hide Drain, Utf8.Len, Utf8.Decode;
    if a != [] {
      assert (a + b)[1..] == a[1..] + b && (a + b)[0] == a[0];
      var d := Drain(buffer + Utf8.Decode(a[0]), parse);
      StreamGrows(d.rest, a[1..], b, parse);
    }
  }

  /** When a connection breaks and the next attempt brings the whole answer, everything sent
      before is sent again: the caller sees it twice. */
  lemma RetryRepeats(a: seq<seq<Byte>>, b: seq<seq<Byte>>, attempts: nat -> Attempt, maxRetries: nat, parse: Parser)
    requires maxRetries >= 1 && !Stopped("", a, parse)
    requires attempts(0) == Answer(a, true) && attempts(1) == Answer(a + b, false)
    ensures Responses(attempts, 0, maxRetries, parse) == Stream("", a, parse) + Stream("", a + b, parse)
    ensures Stream("", a, parse) <= Stream("", a + b, parse)
  {
    hide Stream, Stopped;
    StreamGrows("", a, b, parse);
    assert Responses(attempts, 1, maxRetries, parse) == Stream("", a + b, parse) + [];
  }
}
