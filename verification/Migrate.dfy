/** Copying a folder in batches that can be called again until nothing is missing. */
module Migrate {
  import opened Text

  datatype Report = Report(copied: nat, failed: nat, batchDone: bool)

  datatype Outcome = Outcome(copied: seq<nat>, failed: nat, batchDone: bool)

  /** One call's loop over the server's numbers, `n` mails having been copied so far. */
  function Pass(todo: seq<nat>, have: set<nat>, limit: Option<nat>, works: nat -> bool, n: nat): Outcome
    decreases |todo|
  {
    if todo == [] then Outcome([], 0, true)
    else if todo[0] in have then Pass(todo[1..], have, limit, works, n)
    else
      var ok := works(todo[0]);
      var now, bad, n' := if ok then [todo[0]] else [], if ok then 0 else 1, if ok then n + 1 else n;
      if limit.Some? && n' >= limit.value then Outcome(now, bad, false)
      else
        var rest := Pass(todo[1..], have, limit, works, n');
        Outcome(now + rest.copied, bad + rest.failed, rest.batchDone)
  }

  function Elems(s: seq<nat>): set<nat> {
    set u | u in s
  }

  lemma PassStep(todo: seq<nat>, have: set<nat>, limit: Option<nat>, works: nat -> bool, n: nat)
    requires todo != []
    ensures var o := Pass(todo, have, limit, works, n);
            var u, rest := todo[0], todo[1..];
            && (u in have ==> o == Pass(rest, have, limit, works, n))
            && (u !in have && works(u) ==>
                  if limit.Some? && n + 1 >= limit.value then o == Outcome([u], 0, false)
                  else
                    var r := Pass(rest, have, limit, works, n + 1);
                    o == Outcome([u] + r.copied, r.failed, r.batchDone))
            && (u !in have && !works(u) ==>
                  if limit.Some? && n >= limit.value then o == Outcome([], 1, false)
                  else var r := Pass(rest, have, limit, works, n); o == Outcome(r.copied, r.failed + 1, r.batchDone))
  {
    if todo[0] !in have && !works(todo[0]) {
      var r := Pass(todo[1..], have, limit, works, n);
      assert [] + r.copied == r.copied;
    }
  }

  lemma PassEnd(todo: seq<nat>, have: set<nat>, limit: Option<nat>, works: nat -> bool, n: nat)
    requires todo == []
    ensures Pass(todo, have, limit, works, n) == Outcome([], 0, true)
  {
  }

  /** The target folder's rows. */
  class Folder {
    var uids: seq<nat>

    constructor ()
      ensures uids == []
    {
      uids := [];
    }

    /** `copy_folder_limited`. `server` is None where the folder cannot be selected; `works`
        tells which mails can be copied in this call. */
    method Copy(server: Option<seq<nat>>, limit: Option<nat>, works: nat -> bool) returns (report: Report)
      modifies this
      ensures server.None? ==> uids == old(uids) && report == Report(0, 0, true)
      ensures server.Some? ==>
        var o := Pass(server.value, Elems(old(uids)), limit, works, 0);
        uids == old(uids) + o.copied && report == Report(|o.copied|, o.failed, o.batchDone)
    {
      hide Pass;
      report := Report(0, 0, true);
      if server.None? {
        return;
      }
      var existing := Elems(uids);
      ghost var o := Pass(server.value, existing, limit, works, 0);
      ghost var brought: seq<nat> := [];
      for i := 0 to |server.value|
        invariant report.batchDone && uids == old(uids) + brought && |brought| == report.copied
        invariant var rest := Pass(server.value[i..], existing, limit, works, report.copied);
                  && o.copied == brought + rest.copied
                  && o.failed == report.failed + rest.failed
                  && o.batchDone == rest.batchDone
      {
        var uid := server.value[i];
        assert server.value[i..][1..] == server.value[i + 1..];
        PassStep(server.value[i..], existing, limit, works, report.copied);
        if uid in existing {
          continue;
        }
        if works(uid) {
          uids := uids + [uid];
          brought := brought + [uid];
          report := report.(copied := report.copied + 1);
        } else {
          report := report.(failed := report.failed + 1);
        }
        if limit.Some? && report.copied >= limit.value {
          report := report.(batchDone := false);
          return;
        }
      }
      PassEnd(server.value[|server.value|..], existing, limit, works, report.copied);
    }
  }

  // ---------------------------------------------------------- what a call does

  function Missing(server: seq<nat>, have: set<nat>): (r: seq<nat>)
    ensures |r| <= |server|
    ensures forall u :: u in r <==> u in server && u !in have
  {
    if server == [] then []
    else (if server[0] in have then [] else [server[0]]) + Missing(server[1..], have)
  }

  function Working(uids: seq<nat>, works: nat -> bool): (r: seq<nat>)
    ensures |r| <= |uids|
    ensures forall u :: u in r <==> u in uids && works(u)
  {
    if uids == [] then []
    else (if works(uids[0]) then [uids[0]] else []) + Working(uids[1..], works)
  }

  predicate Distinct(s: seq<nat>) {
    forall i, j :: 0 <= i < j < |s| ==> s[i] != s[j]
  }

  function UpTo(s: seq<nat>, limit: Option<nat>): seq<nat> {
    if limit.Some? && limit.value < |s| then s[..limit.value] else s
  }

  /** A call with a positive limit, or none, copies the missing mails that can be copied, in
      the server's order, up to the limit; it says it is not done exactly when it reached the
      limit, and when it is done everything else missing was counted as failed. */
  lemma {:induction false} CallCopies(todo: seq<nat>, have: set<nat>, limit: Option<nat>, works: nat -> bool, n: nat)
    requires limit.Some? ==> n < limit.value
    ensures var o := Pass(todo, have, limit, works, n);
            var m := Missing(todo, have);
            var w := Working(m, works);
            var left := if limit.Some? then Some(limit.value - n) else None;
            && o.copied == UpTo(w, left)
            && (o.batchDone <==> (limit.Some? ==> |w| < limit.value - n))
            && (o.batchDone ==> o.failed == |m| - |w|)
    decreases |todo|
  {
    hide Missing, Working;
    MissingStep(todo, have);
    WorkingStep(Missing(todo, have), works);
    if todo != [] {
      if todo[0] in have {
        CallCopies(todo[1..], have, limit, works, n);
      } else {
        var ok := works(todo[0]);
        assert ([todo[0]] + Missing(todo[1..], have))[1..] == Missing(todo[1..], have);
        if !(limit.Some? && ok && n + 1 >= limit.value) {
          CallCopies(todo[1..], have, limit, works, if ok then n + 1 else n);
        }
      }
    }
  }

  lemma MissingStep(todo: seq<nat>, have: set<nat>)
    ensures todo == [] ==> Missing(todo, have) == []
    ensures todo != [] && todo[0] in have ==> Missing(todo, have) == Missing(todo[1..], have)
    ensures todo != [] && todo[0] !in have ==> Missing(todo, have) == [todo[0]] + Missing(todo[1..], have)
  {
  }

  lemma WorkingStep(m: seq<nat>, works: nat -> bool)
    ensures m == [] ==> Working(m, works) == []
    ensures m != [] && works(m[0]) ==> Working(m, works) == [m[0]] + Working(m[1..], works)
    ensures m != [] && !works(m[0]) ==> Working(m, works) == Working(m[1..], works)
  {
  }

  /** With limit 0 a call tries exactly one missing mail and never says it is done while one
      is missing: it changes nothing, however often it is repeated, exactly when the first
      missing mail cannot be copied. */
  lemma {:induction false} LimitZero(server: seq<nat>, have: set<nat>, works: nat -> bool)
    ensures var o := Pass(server, have, Some(0), works, 0);
            var m := Missing(server, have);
            && (o.batchDone <==> m == [])
            && (!o.batchDone ==> (o.copied == [] <==> !works(m[0])) && |o.copied| + o.failed == 1)
            && (o.batchDone ==> o.copied == [])
  {
    if server != [] && server[0] in have {
      assert Missing(server, have) == Missing(server[1..], have);
      LimitZero(server[1..], have, works);
    }
  }

  // -------------------------------------------------------------- repeated calls

  /** The target's rows after calls with a positive limit, one per round. */
  function After(rows: seq<nat>, server: seq<nat>, limit: nat, rounds: seq<nat -> bool>): seq<nat>
    decreases |rounds|
  {
    if rounds == [] then rows
    else After(rows + Pass(server, Elems(rows), Some(limit), rounds[0], 0).copied, server, limit, rounds[1..])
  }

  /** No call of these reports that it is done. */
  predicate Undone(rows: seq<nat>, server: seq<nat>, limit: nat, rounds: seq<nat -> bool>)
    decreases |rounds|
  {
    rounds == [] ||
    (var o := Pass(server, Elems(rows), Some(limit), rounds[0], 0);
     !o.batchDone && Undone(rows + o.copied, server, limit, rounds[1..]))
  }

  lemma {:induction false} WorkingDistinct(m: seq<nat>, works: nat -> bool)
    requires Distinct(m)
    ensures Distinct(Working(m, works))
  {
    if m != [] {
      assert m[0] !in m[1..];
      WorkingDistinct(m[1..], works);
    }
  }

  lemma {:induction false} MissingDistinct(server: seq<nat>, have: set<nat>)
    requires Distinct(server)
    ensures Distinct(Missing(server, have))
  {
    if server != [] {
      assert server[0] !in server[1..];
      MissingDistinct(server[1..], have);
    }
  }

  lemma {:induction false} DistinctCount(s: seq<nat>)
    requires Distinct(s)
    ensures |Elems(s)| == |s|
  {
    if s != [] {
      DistinctCount(s[1..]);
      assert s[0] !in s[1..];
      assert Elems(s) == {s[0]} + Elems(s[1..]);
    }
  }

  lemma PrefixDistinct(s: seq<nat>, limit: Option<nat>)
    requires Distinct(s)
    ensures Distinct(UpTo(s, limit)) && Elems(UpTo(s, limit)) <= Elems(s)
  {
  }

  /** What one call brings is new, on the server and brought once. */
  lemma CallBrings(server: seq<nat>, have: set<nat>, limit: Option<nat>, works: nat -> bool)
    requires Distinct(server) && (limit.Some? ==> limit.value >= 1)
    ensures var c := Pass(server, have, limit, works, 0).copied;
            && Distinct(c) && Elems(c) <= Elems(server) - have
            && |Missing(server, have + Elems(c))| == |Missing(server, have)| - |c|
  {
    hide Pass, Missing, Working, UpTo, Distinct;
    var c := Pass(server, have, limit, works, 0).copied;
    var m := Missing(server, have);
    CallCopies(server, have, limit, works, 0);
    MissingDistinct(server, have);
    MissingDistinct(server, have + Elems(c));
    WorkingDistinct(m, works);
    PrefixDistinct(Working(m, works), limit);
    DistinctCount(c);
    DistinctCount(m);
    DistinctCount(Missing(server, have + Elems(c)));
    assert Elems(m) == Elems(server) - have;
    assert Elems(Missing(server, have + Elems(c))) == Elems(m) - Elems(c);
  }

  /** No mail is ever copied twice, over any number of calls. */
  lemma {:induction false} NeverCopiedTwice(rows: seq<nat>, server: seq<nat>, limit: nat, rounds: seq<nat -> bool>)
    requires limit >= 1 && Distinct(server) && Distinct(rows)
    ensures Distinct(After(rows, server, limit, rounds))
    ensures Elems(After(rows, server, limit, rounds)) <= Elems(rows) + Elems(server)
    decreases |rounds|
  {
    if rounds != [] {
      hide Pass;
      var c := Pass(server, Elems(rows), Some(limit), rounds[0], 0).copied;
      CallBrings(server, Elems(rows), Some(limit), rounds[0]);
      assert forall i :: 0 <= i < |c| ==> c[i] in Elems(c);
      assert forall i :: 0 <= i < |rows| ==> rows[i] in Elems(rows);
      NeverCopiedTwice(rows + c, server, limit, rounds[1..]);
    }
  }

  /** Calls that are not done each take the limit off what is missing, so there are at most
      `missing / limit` of them: repeating ends. */
  lemma {:induction false} RepeatingEnds(rows: seq<nat>, server: seq<nat>, limit: nat, rounds: seq<nat -> bool>)
    requires limit >= 1 && Distinct(server) && Undone(rows, server, limit, rounds)
    ensures |rounds| * limit <= |Missing(server, Elems(rows))|
    ensures |Missing(server, Elems(After(rows, server, limit, rounds)))|
         == |Missing(server, Elems(rows))| - |rounds| * limit
    decreases |rounds|
  {
    if rounds != [] {
      hide Pass, Missing, Working, Distinct;
      var c := Pass(server, Elems(rows), Some(limit), rounds[0], 0).copied;
      CallCopies(server, Elems(rows), Some(limit), rounds[0], 0);
      CallBrings(server, Elems(rows), Some(limit), rounds[0]);
      assert Elems(rows + c) == Elems(rows) + Elems(c);
      RepeatingEnds(rows + c, server, limit, rounds[1..]);
      assert |rounds| * limit == limit + (|rounds| - 1) * limit;
    }
  }

  /** A call that says it is done leaves exactly what it counted as failed. */
  lemma DoneLeavesTheFailed(server: seq<nat>, have: set<nat>, limit: Option<nat>, works: nat -> bool)
    requires Distinct(server) && (limit.Some? ==> limit.value >= 1)
    requires Pass(server, have, limit, works, 0).batchDone
    ensures var o := Pass(server, have, limit, works, 0);
            && |Missing(server, have + Elems(o.copied))| == o.failed
            && forall u :: u in server ==> (u in have + Elems(o.copied) <==> u in have || works(u))
  {
    hide Pass;
    CallCopies(server, have, limit, works, 0);
    CallBrings(server, have, limit, works);
  }

  ghost predicate NoFailures(works: nat -> bool) {
    forall u :: works(u)
  }

  lemma {:induction false} AllWork(m: seq<nat>, works: nat -> bool)
    requires NoFailures(works)
    ensures Working(m, works) == m
  {
    if m != [] {
      AllWork(m[1..], works);
    }
  }

  lemma {:induction false} MissingDepends(s: seq<nat>, a: set<nat>, b: set<nat>)
    requires forall v :: v in s ==> (v in a <==> v in b)
    ensures Missing(s, a) == Missing(s, b)
  {
    if s != [] {
      MissingDepends(s[1..], a, b);
    }
  }

  lemma {:induction false} MissingAfterPrefix(server: seq<nat>, have: set<nat>, n: nat)
    requires Distinct(server) && n <= |Missing(server, have)|
    ensures Missing(server, have + Elems(Missing(server, have)[..n])) == Missing(server, have)[n..]
    decreases |server|
  {
    var m := Missing(server, have);
    if server != [] {
      var u, rest := server[0], Missing(server[1..], have);
      assert u !in server[1..];
      if u in have {
        assert m == rest;
        MissingAfterPrefix(server[1..], have, n);
      } else if n == 0 {
        assert have + Elems(m[..n]) == have;
      } else {
        assert m == [u] + rest && m[..n] == [u] + rest[..n - 1] && m[n..] == rest[n - 1..];
        MissingAfterPrefix(server[1..], have, n - 1);
        MissingDepends(server[1..], have + Elems(m[..n]), have + Elems(rest[..n - 1]));
        assert u in m[..n];
      }
    }
  }

  /** Without failures, calls repeated until one is done leave the same target, in the same
      order, as one call without limit. */
  lemma {:induction false} SameAsUnlimited(rows: seq<nat>, server: seq<nat>, limit: nat, rounds: seq<nat -> bool>,
      once: nat -> bool)
    requires limit >= 1 && Distinct(server) && NoFailures(once)
    requires rounds != [] && forall r :: r in rounds ==> NoFailures(r)
    requires var n := |rounds| - 1;
             && Undone(rows, server, limit, rounds[..n])
             && Pass(server, Elems(After(rows, server, limit, rounds[..n])), Some(limit), rounds[n], 0).batchDone
    ensures After(rows, server, limit, rounds) == rows + Pass(server, Elems(rows), None, once, 0).copied
    decreases |rounds|
  {
    hide Pass, Missing, Working, Distinct;
    var n := |rounds| - 1;
    var have := Elems(rows);
    var m := Missing(server, have);
    var c := Pass(server, have, Some(limit), rounds[0], 0).copied;
    assert rounds[0] in rounds;
    AllWork(m, once);
    AllWork(m, rounds[0]);
    CallCopies(server, have, None, once, 0);
    CallCopies(server, have, Some(limit), rounds[0], 0);
    if n == 0 {
      assert rounds[..0] == [] && rounds[1..] == [];
    } else {
      assert rounds[..n][0] == rounds[0] && rounds[..n][1..] == rounds[1..][..n - 1];
      assert rounds[1..][n - 1] == rounds[n];
      assert c == m[..limit];
      MissingAfterPrefix(server, have, limit);
      assert Elems(rows + c) == have + Elems(c);
      SameAsUnlimited(rows + c, server, limit, rounds[1..], once);
      CallCopies(server, have + Elems(c), None, once, 0);
      AllWork(Missing(server, have + Elems(c)), once);
      assert rows + c + m[limit..] == rows + (c + m[limit..]);
      assert c + m[limit..] == m;
    }
  }
}
