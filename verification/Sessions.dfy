/** The bounded chat transcript: truncating at every append loses nothing compared with
    truncating the whole transcript once. */
module Sessions {
  import Utf8

  datatype Message = Message(role: string, text: string, planIds: seq<string>, ts: string)

  const MAX_ROUNDS: nat := 20
  const MAX_CHARS: nat := 6000
  const MAX_MSG_CHARS: nat := 2000

  /** One oversized message is cut to its first 2000 characters and marked. */
  function Clamp(m: Message): Message {
    if |m.text| > MAX_MSG_CHARS
    then m.(text := m.text[..MAX_MSG_CHARS] + "…[gekürzt]")
    else m
  }

  /** The budget counts bytes (`String::len`). */
  function Size(ms: seq<Message>): nat {
    if ms == [] then 0 else Utf8.Len(ms[0].text) + Size(ms[1..])
  }

  function LastRounds(ms: seq<Message>): seq<Message> {
    if |ms| > MAX_ROUNDS then ms[|ms| - MAX_ROUNDS..] else ms
  }

  /** Drop the oldest until the budget holds or one is left. */
  function Shrink(ms: seq<Message>): seq<Message> {
    if Size(ms) <= MAX_CHARS || |ms| <= 1 then ms else Shrink(ms[1..])
  }

  /** `ai_sessions`, one session's row. */
  class Session {
    var messages: seq<Message>

    constructor ()
      ensures messages == []
    {
      messages := [];
    }

    /** `append_message`. */
    method Append(msg: Message)
      modifies this
      ensures messages == Shrink(LastRounds(old(messages) + [Clamp(msg)]))
    {
      hide Utf8.Len, Clamp;
      var msgs := messages;
      msgs := msgs + [Clamp(msg)];
      if |msgs| > MAX_ROUNDS {
        msgs := msgs[|msgs| - MAX_ROUNDS..];
      }
      ghost var all := msgs;
      var total := Total(msgs);
      if total > MAX_CHARS {
        var overflow := total - MAX_CHARS;
        while overflow > 0 && |msgs| > 1
          invariant |msgs| >= 1 && Shrink(msgs) == Shrink(all)
          invariant overflow == if Size(msgs) > MAX_CHARS then Size(msgs) - MAX_CHARS else 0
          decreases |msgs|
        {
          var first := Utf8.Len(msgs[0].text);
          msgs := msgs[1..];
          overflow := if overflow > first then overflow - first else 0;
        }
      }
      messages := msgs;
    }
  }

  /** `msgs.iter().map(|m| m.text.len()).sum()`. */
  method Total(ms: seq<Message>) returns (total: nat)
    ensures total == Size(ms)
  {
    hide Utf8.Len;
    total := 0;
    for i := 0 to |ms|
      invariant total + Size(ms[i..]) == Size(ms)
    {
      assert ms[i..][1..] == ms[i + 1..];
      total := total + Utf8.Len(ms[i].text);
    }
  }

  // --------------------------------------------------------- the batch form

  /** A suffix is allowed: at most 20 messages and 6000 bytes. */
  predicate Allowed(ms: seq<Message>) {
    |ms| <= MAX_ROUNDS && Size(ms) <= MAX_CHARS
  }

  function Suffix(all: seq<Message>, k: nat): seq<Message>
    requires k <= |all|
  {
    all[|all| - k..]
  }

  /** `kept` is the longest allowed suffix, or the last message alone when even that one
      exceeds the budget. */
  ghost predicate LongestSuffix(all: seq<Message>, kept: seq<Message>) {
    && |kept| <= |all| && kept == Suffix(all, |kept|)
    && (all != [] ==> kept != [])
    && (Allowed(kept) || |kept| == 1)
    && forall k :: |kept| < k <= |all| ==> !Allowed(Suffix(all, k))
  }

  lemma {:induction false} SizeConcat(a: seq<Message>, b: seq<Message>)
    ensures Size(a + b) == Size(a) + Size(b)
  {
    hide Utf8.Len;
    if a == [] {
      assert a + b == b;
    } else {
      assert (a + b)[1..] == a[1..] + b;
      SizeConcat(a[1..], b);
    }
  }

  lemma LongestSuffixUnique(all: seq<Message>, a: seq<Message>, b: seq<Message>)
    requires LongestSuffix(all, a) && LongestSuffix(all, b)
    ensures a == b
  {
  }

  lemma {:induction false} ShrinkIsLongest(all: seq<Message>, ms: seq<Message>)
    requires |ms| <= |all| && ms == Suffix(all, |ms|) && |ms| <= MAX_ROUNDS
    requires all != [] ==> ms != []
    requires forall k :: |ms| < k <= |all| ==> !Allowed(Suffix(all, k))
    ensures LongestSuffix(all, Shrink(ms))
    decreases |ms|
  {
    if Size(ms) > MAX_CHARS && |ms| > 1 {
      assert ms[1..] == Suffix(all, |ms| - 1);
      ShrinkIsLongest(all, ms[1..]);
    }
  }

  /** Truncating once: the code's own steps on the whole transcript. */
  lemma BatchIsLongest(all: seq<Message>)
    ensures LongestSuffix(all, Shrink(LastRounds(all)))
  {
    ShrinkIsLongest(all, LastRounds(all));
  }

  /** One append keeps the stored list the longest suffix of everything said. */
  lemma AppendKeepsLongest(all: seq<Message>, stored: seq<Message>, m: Message)
    requires LongestSuffix(all, stored)
    ensures LongestSuffix(all + [m], Shrink(LastRounds(stored + [m])))
  {
    var next, now := all + [m], stored + [m];
    var ms := LastRounds(now);
    assert ms == Suffix(next, |ms|);
    forall k | |ms| < k <= |next|
      ensures !Allowed(Suffix(next, k))
    {
      if k <= MAX_ROUNDS {
        var old_ := Suffix(all, k - 1);
        assert Suffix(next, k) == old_ + [m];
        SizeConcat(old_, [m]);
        assert !Allowed(old_);
      }
    }
    ShrinkIsLongest(next, ms);
  }

  /** All messages of a run, clamped. */
  function Clamped(said: seq<Message>): (c: seq<Message>)
    ensures |c| == |said| && forall i :: 0 <= i < |said| ==> c[i] == Clamp(said[i])
  {
    if said == [] then []
    else Clamped(said[..|said| - 1]) + [Clamp(said[|said| - 1])]
  }

  /** The stored list after appending one by one. */
  function Stored(said: seq<Message>): seq<Message> {
    if said == [] then []
    else Shrink(LastRounds(Stored(said[..|said| - 1]) + [Clamp(said[|said| - 1])]))
  }

  /** After any run of appends the stored list is what truncating the whole clamped
      transcript once would keep. */
  lemma {:induction false} IncrementalIsBatch(said: seq<Message>)
    ensures LongestSuffix(Clamped(said), Stored(said))
    ensures Stored(said) == Shrink(LastRounds(Clamped(said)))
  {
    hide Clamp, Shrink, LastRounds, LongestSuffix;
    if said == [] {
      EmptyLongest();
    } else {
      var n := |said| - 1;
      IncrementalIsBatch(said[..n]);
      AppendKeepsLongest(Clamped(said[..n]), Stored(said[..n]), Clamp(said[n]));
    }
    BatchIsLongest(Clamped(said));
    LongestSuffixUnique(Clamped(said), Stored(said), Shrink(LastRounds(Clamped(said))));
  }

  predicate IsSaid(m: Message, original: Message) {
    if |original.text| <= 2000 then m == original
    else m == original.(text := m.text) && m.text == original.text[..2000] + "…[gekürzt]"
  }

  /** What is stored was said: a message of at most 2000 characters as it was, a longer one cut to
      its first 2000 and marked. */
  lemma StoredWasSaid(said: seq<Message>, m: Message)
    requires m in Stored(said)
    ensures exists i :: 0 <= i < |said| && IsSaid(m, said[i])
  {
    hide Stored, Shrink, LastRounds, LongestSuffix, Clamped, Clamp, IsSaid;
    IncrementalIsBatch(said);
    var i := InSuffix(Clamped(said), Stored(said), m);
    ClampIsSaid(said[i]);
  }

  lemma InSuffix(all: seq<Message>, kept: seq<Message>, m: Message) returns (i: nat)
    requires LongestSuffix(all, kept) && m in kept
    ensures i < |all| && all[i] == m
  {
    hide Allowed;
    var k :| 0 <= k < |kept| && kept[k] == m;
    i := |all| - |kept| + k;
  }

  lemma ClampIsSaid(m: Message)
    ensures IsSaid(Clamp(m), m)
  {
  }

  lemma EmptyLongest()
    ensures LongestSuffix([], [])
  {
  }

  // ------------------------------------------------------- bytes or characters

  /** What the comment on the budget speaks of. */
  function Characters(ms: seq<Message>): nat {
    if ms == [] then 0 else |ms[0].text| + Characters(ms[1..])
  }

  predicate AllowedByCharacters(ms: seq<Message>) {
    |ms| <= MAX_ROUNDS && Characters(ms) <= MAX_CHARS
  }

  function ShrinkByCharacters(ms: seq<Message>): seq<Message> {
    if Characters(ms) <= MAX_CHARS || |ms| <= 1 then ms else ShrinkByCharacters(ms[1..])
  }

  /** The longest suffix that a budget of characters allows, or the last message. */
  ghost predicate LongestByCharacters(all: seq<Message>, kept: seq<Message>) {
    && |kept| <= |all| && kept == Suffix(all, |kept|)
    && (all != [] ==> kept != [])
    && (AllowedByCharacters(kept) || |kept| == 1)
    && forall k :: |kept| < k <= |all| ==> !AllowedByCharacters(Suffix(all, k))
  }

  lemma {:induction false} ShrinkByCharactersIsLongest(all: seq<Message>, ms: seq<Message>)
    requires |ms| <= |all| && ms == Suffix(all, |ms|) && |ms| <= MAX_ROUNDS
    requires all != [] ==> ms != []
    requires forall k :: |ms| < k <= |all| ==> !AllowedByCharacters(Suffix(all, k))
    ensures LongestByCharacters(all, ShrinkByCharacters(ms))
    decreases |ms|
  {
    if Characters(ms) > MAX_CHARS && |ms| > 1 {
      assert ms[1..] == Suffix(all, |ms| - 1);
      ShrinkByCharactersIsLongest(all, ms[1..]);
    }
  }

  lemma {:induction false} CharactersTakeBytes(ms: seq<Message>)
    ensures Characters(ms) <= Size(ms)
  {
    hide Utf8.Len;
    if ms != [] {
      TextTakesBytes(ms[0].text);
      CharactersTakeBytes(ms[1..]);
    }
  }

  lemma {:induction false} TextTakesBytes(s: string)
    ensures |s| <= Utf8.Len(s)
  {
    hide Utf8.EncodeChar;
    if s != "" {
      TextTakesBytes(s[1..]);
    }
  }

  /** The budget counts bytes. After any run the stored list is what a budget of as many
      characters would keep exactly when that fits the budget in bytes too, or is a single
      message. */
  lemma BytesKeepAsMuchIff(said: seq<Message>)
    ensures var all := Clamped(said);
            var meant := ShrinkByCharacters(LastRounds(all));
            && LongestByCharacters(all, meant)
            && (Stored(said) == meant <==> Size(meant) <= MAX_CHARS || |meant| <= 1)
  {
    hide Clamped, Stored, Shrink, ShrinkByCharacters, Utf8.Len, Size, Characters;
    var all := Clamped(said);
    var meant := ShrinkByCharacters(LastRounds(all));
    IncrementalIsBatch(said);
    ShrinkByCharactersIsLongest(all, LastRounds(all));
    if Size(meant) <= MAX_CHARS || |meant| <= 1 {
      Nothing();
      forall k | |meant| < k <= |all|
        ensures !Allowed(Suffix(all, k))
      {
        CharactersTakeBytes(Suffix(all, k));
      }
      assert LongestSuffix(all, meant);
      LongestSuffixUnique(all, meant, Stored(said));
    }
  }

  function Umlauts(n: nat): (s: string)
    ensures |s| == n
  {
    if n == 0 then "" else "\U{fc}" + Umlauts(n - 1)
  }

  lemma {:induction false} UmlautsTakeTwoBytes(n: nat)
    ensures Utf8.Len(Umlauts(n)) == 2 * n
  {
    if n > 0 {
      assert Umlauts(n)[1..] == Umlauts(n - 1);
      UmlautsTakeTwoBytes(n - 1);
    }
  }

  /** Two messages of 2000 umlauts are 4000 characters, but only the second one is stored. */
  lemma UmlautsLoseAMessage(a: Message, b: Message)
    requires a.text == b.text == Umlauts(2000)
    ensures Characters([a, b]) == 4000 && Stored([a, b]) == [b]
    ensures ShrinkByCharacters(LastRounds(Clamped([a, b]))) == [a, b]
  {
    hide Utf8.Len, Umlauts, Stored, Clamped, Size, Characters;
    UmlautsTakeTwoBytes(2000);
    Measures([], a);
    Measures([], b);
    Measures([a], b);
    assert [] + [a] == [a] && [] + [b] == [b] && [a] + [b] == [a, b];
    Snoc([], a);
    Snoc([a], b);
    Nothing();
    assert [a, b][1..] == [b];
  }

  lemma Measures(ms: seq<Message>, m: Message)
    ensures Size(ms + [m]) == Size(ms) + Utf8.Len(m.text) && Characters(ms + [m]) == Characters(ms) + |m.text|
  {
    hide Utf8.Len;
    SizeConcat(ms, [m]);
    CharactersConcat(ms, [m]);
    assert [m][1..] == [];
  }

  lemma {:induction false} CharactersConcat(a: seq<Message>, b: seq<Message>)
    ensures Characters(a + b) == Characters(a) + Characters(b)
  {
    if a == [] {
      assert a + b == b;
    } else {
      assert (a + b)[1..] == a[1..] + b;
      CharactersConcat(a[1..], b);
    }
  }

  lemma Snoc(said: seq<Message>, m: Message)
    ensures Stored(said + [m]) == Shrink(LastRounds(Stored(said) + [Clamp(m)]))
    ensures Clamped(said + [m]) == Clamped(said) + [Clamp(m)]
  {
    hide Clamp, Shrink, LastRounds;
    assert (said + [m])[..|said|] == said;
  }

  lemma Nothing()
    ensures Stored([]) == [] && Clamped([]) == [] && Size([]) == 0 && Characters([]) == 0
  {
  }
}
