/** Splitting an mbox file into its messages (Appendix A of RFC 4155). */
module Mbox {
  import opened Text

  // ------------------------------------------------------------------- code

  /** A line ending is LF or CRLF. */
  function StripCr(line: string): string {
    if line != "" && line[|line| - 1] == '\r' then line[..|line| - 1] else line
  }

  /** `str::lines`: a last line without LF keeps everything; no empty last line. */
  function Lines(s: string): (r: seq<string>)
    ensures forall l :: l in r ==> '\n' !in l
    decreases |s|
  {
    var i := Find(s, '\n');
    if s == "" then []
    else if i == |s| then [s]
    else [StripCr(s[..i])] + Lines(s[i + 1..])
  }

  predicate IsSeparator(line: string) { "From " <= line }

  function Unescape(line: string): string {
    if line != "" && line[0] == '>' && "From " <= line[1..] then line[1..] else line
  }

  /** The messages of the lines, before and inside the first message. */
  function Messages(lines: seq<string>): seq<string> {
    if lines == [] then []
    else if IsSeparator(lines[0]) then Inside("", lines[1..])
    else Messages(lines[1..])
  }

  function Inside(current: string, lines: seq<string>): seq<string>
    decreases |lines|
  {
    if lines == [] then [current]
    else if IsSeparator(lines[0]) then [current] + Inside("", lines[1..])
    else Inside(current + Unescape(lines[0]) + "\n", lines[1..])
  }

  method Split(content: string) returns (messages: seq<string>)
    ensures messages == Messages(Lines(content))
  {
    messages := [];
    var current := "";
    var inMessage := false;
    var lines := Lines(content);
    for i := 0 to |lines|
      invariant messages + (if inMessage then Inside(current, lines[i..]) else Messages(lines[i..]))
             == Messages(lines)
    {
      var line := lines[i];
      assert lines[i..][1..] == lines[i + 1..];
      if "From " <= line {
        if inMessage {
          messages := messages + [current];
          current := "";
        }
        current := "";
        inMessage := true;
        continue;
      }
      if inMessage {
        if line != "" && line[0] == '>' && "From " <= line[1..] {
          current := current + line[1..];
        } else {
          current := current + line;
        }
        current := current + "\n";
      }
    }
    if inMessage {
      messages := messages + [current];
    }
  }

  // ------------------------------------------------------------------ counts

  function Separators(lines: seq<string>): nat {
    if lines == [] then 0
    else (if IsSeparator(lines[0]) then 1 else 0) + Separators(lines[1..])
  }

  lemma {:induction false} InsideCount(current: string, lines: seq<string>)
    ensures |Inside(current, lines)| == 1 + Separators(lines)
    decreases |lines|
  {
    if lines != [] {
      InsideCount("", lines[1..]);
      InsideCount(current + Unescape(lines[0]) + "\n", lines[1..]);
    }
  }

  /** Whatever the input, there are as many messages as lines that start "From ". */
  lemma {:induction false} MessageCount(lines: seq<string>)
    ensures |Messages(lines)| == Separators(lines)
  {
    if lines != [] {
      InsideCount("", lines[1..]);
      MessageCount(lines[1..]);
    }
  }

  // -------------------------------------------------------------- round trip

  /** Lines with their LF. */
  function Unlines(lines: seq<string>): string {
    if lines == [] then "" else lines[0] + "\n" + Unlines(lines[1..])
  }

  /** A message is the lines it consists of, none with an LF inside. */
  predicate IsMessage(lines: seq<string>) {
    forall l :: l in lines ==> '\n' !in l
  }

  function Escape(line: string): string {
    if IsSeparator(line) then ">" + line else line
  }

  function EscapeAll(lines: seq<string>): (r: seq<string>)
    ensures |r| == |lines| && forall i :: 0 <= i < |r| ==> r[i] == Escape(lines[i])
  {
    seq(|lines|, i requires 0 <= i < |lines| => Escape(lines[i]))
  }

  /** The specification writer: one separator line per message, "From " lines escaped. */
  function Write(separator: string, messages: seq<seq<string>>): string {
    if messages == [] then ""
    else separator + "\n" + Unlines(EscapeAll(messages[0])) + Write(separator, messages[1..])
  }

  /** What reading back makes of one written line. */
  function ReadBack(line: string): string {
    Unescape(StripCr(Escape(line)))
  }

  function ReadBackAll(lines: seq<string>): (r: seq<string>)
    ensures |r| == |lines| && forall i :: 0 <= i < |r| ==> r[i] == ReadBack(lines[i])
  {
    seq(|lines|, i requires 0 <= i < |lines| => ReadBack(lines[i]))
  }

  lemma LinesStep(line: string, rest: string)
    requires '\n' !in line
    ensures Lines(line + "\n" + rest) == [StripCr(line)] + Lines(rest)
  {
    var s := line + "\n" + rest;
    assert s[|line|] == '\n';
    assert forall j :: 0 <= j < |line| ==> s[j] == line[j];
    FindAt(s, '\n', |line|);
    assert s[..|line|] == line && s[|line| + 1..] == rest;
  }

  /** Each line without one CR at its end. */
  function Stripped(lines: seq<string>): seq<string> {
    if lines == [] then [] else [StripCr(lines[0])] + Stripped(lines[1..])
  }

  lemma OneUnterminated(last: string)
    requires '\n' !in last && last != ""
    ensures Lines(last) == [last]
  {
    FindAt(last, '\n', |last|);
  }

  /** A last line without LF is kept as it is, CR included. */
  lemma {:induction false} LastLineIsKept(lines: seq<string>, last: string)
    requires IsMessage(lines) && '\n' !in last && last != ""
    ensures Lines(Unlines(lines) + last) == Stripped(lines) + [last]
    decreases |lines|
  {
    hide StripCr, Lines;
    if lines == [] {
      assert Unlines(lines) + last == last && Stripped(lines) + [last] == [last];
      OneUnterminated(last);
    } else {
      assert lines[0] in lines;
      LastLineIsKept(lines[1..], last);
      LinesStep(lines[0], Unlines(lines[1..]) + last);
      assert Unlines(lines) + last == lines[0] + "\n" + (Unlines(lines[1..]) + last);
      assert Stripped(lines) + [last] == [StripCr(lines[0])] + (Stripped(lines[1..]) + [last]);
    }
  }

  lemma {:induction false} InsideRead(current: string, lines: seq<string>, rest: string)
    requires IsMessage(lines)
    ensures Inside(current, Lines(Unlines(EscapeAll(lines)) + rest))
         == Inside(current + Unlines(ReadBackAll(lines)), Lines(rest))
    decreases |lines|
  {
    hide StripCr, Unescape, Lines, Escape;
    var e := EscapeAll(lines);
    if lines == [] {
      assert Unlines(e) + rest == rest && current + "" == current;
    } else {
      var tail := Unlines(EscapeAll(lines[1..])) + rest;
      assert e[1..] == EscapeAll(lines[1..]);
      assert Unlines(e) + rest == e[0] + "\n" + tail;
      assert lines[0] in lines;
      EscapedLine(lines[0]);
      LinesStep(e[0], tail);
      var next := current + ReadBack(lines[0]) + "\n";
      assert ([StripCr(e[0])] + Lines(tail))[1..] == Lines(tail);
      InsideRead(next, lines[1..], rest);
      assert ReadBackAll(lines)[1..] == ReadBackAll(lines[1..]);
      assert next + Unlines(ReadBackAll(lines[1..])) == current + Unlines(ReadBackAll(lines));
    }
  }

  lemma EscapedLine(line: string)
    requires '\n' !in line
    ensures '\n' !in Escape(line) && !IsSeparator(StripCr(Escape(line)))
  {
    if IsSeparator(line) {
      assert StripCr(Escape(line))[0] == '>';
    } else {
      assert StripCr(line) <= line;
    }
  }

  function ReadBackMessages(messages: seq<seq<string>>): (r: seq<string>)
    ensures |r| == |messages|
    ensures forall i :: 0 <= i < |r| ==> r[i] == Unlines(ReadBackAll(messages[i]))
  {
    seq(|messages|, i requires 0 <= i < |messages| => Unlines(ReadBackAll(messages[i])))
  }

  lemma {:induction false} WriteRead(separator: string, messages: seq<seq<string>>)
    requires IsSeparator(separator) && '\n' !in separator
    requires forall m :: m in messages ==> IsMessage(m)
    ensures Messages(Lines(Write(separator, messages))) == ReadBackMessages(messages)
    ensures forall current :: Inside(current, Lines(Write(separator, messages)))
              == [current] + ReadBackMessages(messages)
    decreases |messages|
  {
    hide StripCr, Unescape, Lines, Escape, Unlines, Inside, Messages;
    NoLines();
    InsideStep([]);
    if messages != [] {
      var body := Unlines(EscapeAll(messages[0]));
      var rest := Write(separator, messages[1..]);
      WriteRead(separator, messages[1..]);
      assert Write(separator, messages) == separator + "\n" + (body + rest);
      LinesStep(separator, body + rest);
      StrippedSeparator(separator);
      assert messages[0] in messages;
      InsideRead("", messages[0], rest);
      var first := "" + Unlines(ReadBackAll(messages[0]));
      assert first == Unlines(ReadBackAll(messages[0]));
      var lines := Lines(Write(separator, messages));
      assert lines[1..] == Lines(body + rest);
      assert Inside("", lines[1..]) == [first] + ReadBackMessages(messages[1..]);
      InsideStep(lines);
    }
  }

  /** One line further, whatever message is being collected. */
  lemma InsideStep(lines: seq<string>)
    ensures lines == [] ==> Messages(lines) == [] && forall current :: Inside(current, lines) == [current]
    ensures lines != [] && IsSeparator(lines[0]) ==>
      && Messages(lines) == Inside("", lines[1..])
      && forall current :: Inside(current, lines) == [current] + Inside("", lines[1..])
  {
  }

  lemma NoLines()
    ensures Lines("") == []
  {
  }

  lemma StrippedSeparator(separator: string)
    requires IsSeparator(separator)
    ensures IsSeparator(StripCr(separator))
  {
    assert separator[4] == ' ';
  }

  /** Only a leading ">From " or a CR before the LF is not kept by the format. */
  predicate Kept(line: string) {
    !(">From " <= line) && (line == "" || line[|line| - 1] != '\r')
  }

  lemma ReadBackKept(line: string)
    ensures ReadBack(line) == line <==> Kept(line)
  {
    var e := Escape(line);
    if line != "" && line[|line| - 1] == '\r' {
      assert |StripCr(e)| < |e|;
      assert IsSeparator(line) ==> "From " <= StripCr(e)[1..] by {
        if IsSeparator(line) {
          assert line[4] == ' ';
          assert StripCr(e)[1..] == line[..|line| - 1];
        }
      }
    } else {
      assert StripCr(e) == e;
      if IsSeparator(line) {
        assert e[1..] == line && line[0] == 'F';
      } else if ">From " <= line {
        assert "From " <= line[1..];
      }
    }
  }

  lemma {:induction false} UnlinesInjective(a: seq<string>, b: seq<string>)
    requires IsMessage(a) && IsMessage(b) && Unlines(a) == Unlines(b)
    ensures a == b
    decreases |a|
  {
    if a != [] && b != [] {
      assert a[0] in a && b[0] in b;
      var s := Unlines(a);
      assert s[|a[0]|] == '\n' && s[|b[0]|] == '\n';
      assert forall j :: 0 <= j < |a[0]| ==> s[j] == a[0][j];
      assert forall j :: 0 <= j < |b[0]| ==> s[j] == b[0][j];
      FindAt(s, '\n', |a[0]|);
      FindAt(s, '\n', |b[0]|);
      assert a[0] == s[..|a[0]|] == b[0];
      assert Unlines(a[1..]) == s[|a[0]| + 1..] == Unlines(b[1..]);
      UnlinesInjective(a[1..], b[1..]);
    }
  }

  lemma ReadBackNoLf(line: string)
    requires '\n' !in line
    ensures '\n' !in ReadBack(line)
  {
  }

  predicate AllKept(messages: seq<seq<string>>) {
    forall m, l :: m in messages && l in m ==> Kept(l)
  }

  /** Writing and splitting again returns exactly the messages, if and only if no line
      starts ">From " or ends with a CR. */
  lemma RoundTripIff(separator: string, messages: seq<seq<string>>)
    requires IsSeparator(separator) && '\n' !in separator
    requires forall m :: m in messages ==> IsMessage(m)
    ensures var back := Messages(Lines(Write(separator, messages)));
            && |back| == |messages|
            && ((forall i :: 0 <= i < |messages| ==> back[i] == Unlines(messages[i]))
                <==> AllKept(messages))
  {
    hide ReadBack, Kept;
    WriteRead(separator, messages);
    var back := Messages(Lines(Write(separator, messages)));
    forall i | 0 <= i < |messages|
      ensures back[i] == Unlines(messages[i]) <==> forall l :: l in messages[i] ==> Kept(l)
    {
      assert messages[i] in messages;
      MessageKept(messages[i]);
    }
    if forall i :: 0 <= i < |messages| ==> back[i] == Unlines(messages[i]) {
      forall m, l | m in messages && l in m
        ensures Kept(l)
      {
        var i :| 0 <= i < |messages| && messages[i] == m;
        assert back[i] == Unlines(messages[i]);
      }
    }
  }

  lemma MessageKept(m: seq<string>)
    requires IsMessage(m)
    ensures Unlines(ReadBackAll(m)) == Unlines(m) <==> forall l :: l in m ==> Kept(l)
  {
    hide ReadBack, Kept;
    var r := ReadBackAll(m);
    forall i | 0 <= i < |m|
      ensures (r[i] == m[i] <==> Kept(m[i])) && '\n' !in r[i]
    {
      assert m[i] in m;
      ReadBackKept(m[i]);
      ReadBackNoLf(m[i]);
    }
    if Unlines(r) == Unlines(m) {
      UnlinesInjective(r, m);
    }
    if forall l :: l in m ==> Kept(l) {
      assert forall i :: 0 <= i < |m| ==> m[i] in m;
      assert r == m;
    }
  }
}
