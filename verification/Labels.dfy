/** Consolidating labels: normalise them, keep the themes that cover enough tasks, park the
    rest as hidden candidates. */
module Labels {
  import opened Text
  import opened Todos

  const ORIGIN: string := "Insilo"
  const THRESHOLD: nat := 5

  datatype Report = Report(tagsBefore: nat, tagsAfter: nat, tasksChanged: nat, candidatesCreated: nat)

  /** Normalised, without empty ones, each once. */
  function Clean(labels: seq<string>, norm: string -> string, seen: set<string>): (r: seq<string>)
    ensures forall l :: l in r <==> l != "" && l !in seen && exists k :: k in labels && norm(k) == l
    decreases |labels|
  {
    if labels == [] then []
    else
      var n := norm(labels[0]);
      if n == "" || n in seen then Clean(labels[1..], norm, seen)
      else [n] + Clean(labels[1..], norm, seen + {n})
  }

  function Themes(t: Todo, norm: string -> string): set<string> {
    (set l | l in Clean(t.labels, norm, {})) - {ORIGIN}
  }

  /** How many tasks a theme covers. */
  function Count(rows: seq<Todo>, norm: string -> string, l: string): nat {
    if rows == [] then 0 else (if l in Themes(rows[0], norm) then 1 else 0) + Count(rows[1..], norm, l)
  }

  predicate Kept(rows: seq<Todo>, norm: string -> string, l: string) {
    Count(rows, norm, l) >= THRESHOLD
  }

  function Wanted(clean: seq<string>, kept: set<string>): (r: seq<string>)
    ensures forall l :: l in r <==> l in clean && (l == ORIGIN || l in kept)
  {
    if clean == [] then []
    else (if clean[0] == ORIGIN || clean[0] in kept then [clean[0]] else []) + Wanted(clean[1..], kept)
  }

  function Dropped(clean: seq<string>, kept: set<string>, uid: string): (r: set<(string, string)>)
    ensures forall p :: p in r <==> p.1 == uid && p.0 in clean && p.0 != ORIGIN && p.0 !in kept
  {
    if clean == [] then {}
    else (if clean[0] == ORIGIN || clean[0] in kept then {} else {(clean[0], uid)}) + Dropped(clean[1..], kept, uid)
  }

  function Elems(s: seq<string>): set<string> {
    set l | l in s
  }

  /** The second pass, over the rows as they were read. */
  function Rewritten(todos: seq<Todo>, read: seq<Todo>, norm: string -> string, kept: set<string>,
      writes: string -> bool): seq<Todo>
    decreases |read|
  {
    if read == [] then todos
    else
      var r := read[0];
      var wanted := Wanted(Clean(r.labels, norm, {}), kept);
      Rewritten(if Elems(r.labels) != Elems(wanted) && writes(r.uid) then Relabelled(todos, r.uid, wanted) else todos,
                read[1..], norm, kept, writes)
  }

  function Parked(read: seq<Todo>, norm: string -> string, kept: set<string>): (r: set<(string, string)>) {
    if read == [] then {}
    else Dropped(Clean(read[0].labels, norm, {}), kept, read[0].uid) + Parked(read[1..], norm, kept)
  }

  ghost function KeptThemes(rows: seq<Todo>, norm: string -> string): (r: set<string>)
    ensures forall l :: l in r <==> Kept(rows, norm, l)
  {
    KeptAreThemes(rows, norm);
    set l | l in AllThemes(rows, norm) && Kept(rows, norm, l)
  }

  function AllThemes(rows: seq<Todo>, norm: string -> string): set<string> {
    if rows == [] then {} else Themes(rows[0], norm) + AllThemes(rows[1..], norm)
  }

  lemma KeptAreThemes(rows: seq<Todo>, norm: string -> string)
    ensures forall l :: Count(rows, norm, l) > 0 <==> l in AllThemes(rows, norm)
  {
    hide Themes;
  }

  function Tally(counts: map<string, nat>, l: string): nat {
    if l in counts then counts[l] else 0
  }

  predicate Positive(counts: map<string, nat>) {
    forall l :: l in counts ==> counts[l] > 0
  }

  lemma CountedOnce(counts: map<string, nat>, n: string)
    ensures var next := counts[n := Tally(counts, n) + 1];
            && (forall l :: Tally(next, l) == Tally(counts, l) + if l == n then 1 else 0)
            && (Positive(counts) ==> Positive(next))
  {
  }

  lemma Regrouped(labels: seq<string>, n: string, rest: seq<string>)
    ensures labels + ([n] + rest) == labels + [n] + rest
  {
  }

  lemma NotedOnce(before: map<string, nat>, counts: map<string, nat>, labels: seq<string>, n: string)
    requires n !in labels
    requires forall l :: Tally(counts, l) == Tally(before, l) + if l in labels && l != ORIGIN then 1 else 0
    ensures var next := if n != ORIGIN then counts[n := Tally(counts, n) + 1] else counts;
            && (forall l :: Tally(next, l) == Tally(before, l) + if l in labels + [n] && l != ORIGIN then 1 else 0)
            && (Positive(counts) ==> Positive(next))
  {
    hide Tally, Positive;
    CountedOnce(counts, n);
    assert forall l :: l in labels + [n] <==> l in labels || l == n;
  }

  /** One task of the first pass. */
  method Note(raw: seq<string>, norm: string -> string, before: map<string, nat>)
    returns (labels: seq<string>, counts: map<string, nat>)
    ensures labels == Clean(raw, norm, {})
    ensures forall l :: Tally(counts, l) == Tally(before, l) + if l in labels && l != ORIGIN then 1 else 0
    ensures Positive(before) ==> Positive(counts)
  {
    hide Clean, Tally, Positive, Elems;
    labels, counts := [], before;
    var seen: set<string> := {};
    for k := 0 to |raw|
      invariant labels + Clean(raw[k..], norm, seen) == Clean(raw[0..], norm, {})
      invariant forall l :: l in seen <==> l in labels
      invariant Positive(before) ==> Positive(counts)
      invariant forall l :: Tally(counts, l) == Tally(before, l) + if l in labels && l != ORIGIN then 1 else 0
    {
      var n := norm(raw[k]);
      CleanStep(raw, k, norm, seen);
      if n == "" || n in seen {
        continue;
      }
      seen := seen + {n};
      Regrouped(labels, n, Clean(raw[k + 1..], norm, seen));
      NotedOnce(before, counts, labels, n);
      if n != ORIGIN {
        counts := counts[n := Tally(counts, n) + 1];
      }
      labels := labels + [n];
    }
    CleanEnd(raw, norm, seen);
    assert raw[0..] == raw;
  }

  lemma CleanStep(raw: seq<string>, k: nat, norm: string -> string, seen: set<string>)
    requires k < |raw|
    ensures var n := norm(raw[k]);
            Clean(raw[k..], norm, seen)
            == if n == "" || n in seen then Clean(raw[k + 1..], norm, seen)
               else [n] + Clean(raw[k + 1..], norm, seen + {n})
  {
    assert raw[k..][1..] == raw[k + 1..];
  }

  lemma CleanEnd(raw: seq<string>, norm: string -> string, seen: set<string>)
    ensures Clean(raw[|raw|..], norm, seen) == []
  {
  }

  /** The first pass: normalised labels per task and thematic counts. */
  method Survey(rows: seq<Todo>, norm: string -> string)
    returns (perTask: seq<seq<string>>, counts: map<string, nat>)
    ensures |perTask| == |rows|
    ensures forall i :: 0 <= i < |rows| ==> perTask[i] == Clean(rows[i].labels, norm, {})
    ensures Positive(counts)
    ensures forall l :: Tally(counts, l) == Count(rows, norm, l)
  {
    hide Clean, Tally, Themes, Count;
    perTask, counts := [], map[];
    CountNone(norm);
    for i := 0 to |rows|
      invariant |perTask| == i
      invariant forall j :: 0 <= j < i ==> perTask[j] == Clean(rows[j].labels, norm, {})
      invariant Positive(counts)
      invariant forall l :: Tally(counts, l) == Count(rows[..i], norm, l)
    {
      var labels;
      labels, counts := Note(rows[i].labels, norm, counts);
      assert rows[..i + 1] == rows[..i] + [rows[i]];
      forall l
        ensures Count(rows[..i + 1], norm, l) == Count(rows[..i], norm, l) + if l in labels && l != ORIGIN then 1 else 0
      {
        CountSnoc(rows[..i], rows[i], norm, l);
        ThemesAre(rows[i], norm, l);
      }
      perTask := perTask + [labels];
    }
    assert rows[..|rows|] == rows;
  }

  lemma CountNone(norm: string -> string)
    ensures forall l :: Count([], norm, l) == Tally(map[], l)
  {
  }

  lemma ThemesAre(t: Todo, norm: string -> string, l: string)
    ensures l in Themes(t, norm) <==> l in Clean(t.labels, norm, {}) && l != ORIGIN
  {
  }

  lemma {:induction false} CountSnoc(rows: seq<Todo>, t: Todo, norm: string -> string, l: string)
    ensures Count(rows + [t], norm, l) == Count(rows, norm, l) + if l in Themes(t, norm) then 1 else 0
  {
    hide Themes;
    if rows == [] {
      assert rows + [t] == [t] && [t][1..] == [];
    } else {
      assert (rows + [t])[1..] == rows[1..] + [t];
      CountSnoc(rows[1..], t, norm, l);
    }
  }

  function Changes(read: seq<Todo>, norm: string -> string, kept: set<string>, writes: string -> bool): nat {
    if read == [] then 0
    else
      var wanted := Wanted(Clean(read[0].labels, norm, {}), kept);
      (if Elems(read[0].labels) != Elems(wanted) && writes(read[0].uid) then 1 else 0)
      + Changes(read[1..], norm, kept, writes)
  }

  /** How many labels leave their tasks, counted task by task. */
  function Leaving(read: seq<Todo>, norm: string -> string, kept: set<string>): int {
    if read == [] then 0
    else
      var clean := Clean(read[0].labels, norm, {});
      |clean| - |Wanted(clean, kept)| + Leaving(read[1..], norm, kept)
  }

  /** One task of the second pass: the labels that stay; the others are parked. */
  method Sift(labels: seq<string>, kept: set<string>, uid: string, before: set<(string, string)>)
    returns (next: seq<string>, candidates: set<(string, string)>, parked: nat)
    ensures next == Wanted(labels, kept)
    ensures candidates == before + Dropped(labels, kept, uid)
    ensures parked + |next| == |labels|
  {
    hide Wanted, Dropped;
    next, candidates, parked := [], before, 0;
    for i := 0 to |labels|
      invariant Wanted(labels, kept) == next + Wanted(labels[i..], kept)
      invariant before + Dropped(labels, kept, uid) == candidates + Dropped(labels[i..], kept, uid)
      invariant parked + |next| == i
    {
      var l := labels[i];
      assert labels[i..][1..] == labels[i + 1..];
      SiftStep(labels[i..], kept, uid);
      if l == ORIGIN || l in kept {
        next := next + [l];
      } else {
        candidates := candidates + {(l, uid)};
        parked := parked + 1;
      }
    }
    SiftEnd(labels[|labels|..], kept, uid);
  }

  lemma SiftStep(labels: seq<string>, kept: set<string>, uid: string)
    requires labels != []
    ensures var l, rest := labels[0], labels[1..];
            if l == ORIGIN || l in kept then
              && Wanted(labels, kept) == [l] + Wanted(rest, kept)
              && Dropped(labels, kept, uid) == Dropped(rest, kept, uid)
            else
              && Wanted(labels, kept) == Wanted(rest, kept)
              && Dropped(labels, kept, uid) == {(l, uid)} + Dropped(rest, kept, uid)
  {
  }

  lemma SiftEnd(labels: seq<string>, kept: set<string>, uid: string)
    requires labels == []
    ensures Wanted(labels, kept) == [] && Dropped(labels, kept, uid) == {}
  {
  }

  lemma CountsAreThemes(rows: seq<Todo>, norm: string -> string, counts: map<string, nat>)
    requires Positive(counts) && forall l :: Tally(counts, l) == Count(rows, norm, l)
    ensures counts.Keys == AllThemes(rows, norm)
    ensures (set l | l in counts && counts[l] >= THRESHOLD) == KeptThemes(rows, norm)
  {
    hide Count, AllThemes, KeptThemes;
    KeptAreThemes(rows, norm);
    assert forall l :: l in counts <==> Tally(counts, l) > 0;
    assert forall l :: Kept(rows, norm, l) <==> l in counts && counts[l] >= THRESHOLD;
  }

  /** `consolidate_todos`. */
  method Consolidate(store: Store, norm: string -> string, writes: string -> bool) returns (report: Report)
    modifies store
    ensures var rows := old(store.todos);
            var kept := KeptThemes(rows, norm);
            && store.todos == Rewritten(rows, rows, norm, kept, writes)
            && store.candidates == old(store.candidates) + Parked(rows, norm, kept)
            && report.tasksChanged == Changes(rows, norm, kept, writes)
            && report.candidatesCreated == Leaving(rows, norm, kept)
            && report.tagsBefore == |AllThemes(rows, norm)| && report.tagsAfter == |kept|
  {
    hide Clean, Wanted, Dropped, Elems, Parked, Changes, Leaving, Rewritten, KeptThemes, AllThemes, Count,
      Tally, Positive;
    var rows := store.todos;
    var perTask, counts := Survey(rows, norm);
    var kept := set l | l in counts && counts[l] >= THRESHOLD;
    CountsAreThemes(rows, norm, counts);
    report := Report(|counts.Keys|, |kept|, 0, 0);
    ghost var parkedBefore := store.candidates;
    for i := 0 to |rows|
      invariant Rewritten(rows, rows[0..], norm, kept, writes) == Rewritten(store.todos, rows[i..], norm, kept, writes)
      invariant parkedBefore + Parked(rows[0..], norm, kept) == store.candidates + Parked(rows[i..], norm, kept)
      invariant report.tasksChanged + Changes(rows[i..], norm, kept, writes) == Changes(rows[0..], norm, kept, writes)
      invariant report.candidatesCreated + Leaving(rows[i..], norm, kept) == Leaving(rows[0..], norm, kept)
      invariant report.tagsBefore == |AllThemes(rows, norm)| && report.tagsAfter == |kept|
    {
      var uid := rows[i].uid;
      PassStep(store.todos, rows, i, norm, kept, writes);
      var next, candidates, parked := Sift(perTask[i], kept, uid, store.candidates);
      store.candidates := candidates;
      report := report.(candidatesCreated := report.candidatesCreated + parked);
      // sorted and deduplicated lists are equal exactly when the sets are
      if Elems(rows[i].labels) == Elems(next) {
        continue;
      }
      if writes(uid) {
        ghost var before := store.todos;
        store.SetLabels(uid, next);
        assert store.todos == Relabelled(before, uid, next);
        report := report.(tasksChanged := report.tasksChanged + 1);
      }
    }
    PassEnd(store.todos, rows, norm, kept, writes);
    assert rows[0..] == rows;
  }

  lemma PassStep(todos: seq<Todo>, rows: seq<Todo>, i: nat, norm: string -> string, kept: set<string>,
      writes: string -> bool)
    requires i < |rows|
    ensures var r, later := rows[i], rows[i + 1..];
            var clean := Clean(r.labels, norm, {});
            var change := Elems(r.labels) != Elems(Wanted(clean, kept)) && writes(r.uid);
            && Rewritten(todos, rows[i..], norm, kept, writes)
               == Rewritten(if change then Relabelled(todos, r.uid, Wanted(clean, kept)) else todos,
                            later, norm, kept, writes)
            && Parked(rows[i..], norm, kept) == Dropped(clean, kept, r.uid) + Parked(later, norm, kept)
            && Changes(rows[i..], norm, kept, writes) == (if change then 1 else 0) + Changes(later, norm, kept, writes)
            && Leaving(rows[i..], norm, kept) == |clean| - |Wanted(clean, kept)| + Leaving(later, norm, kept)
  {
    hide Clean, Wanted, Dropped, Elems;
    assert rows[i..][1..] == rows[i + 1..] && rows[i..][0] == rows[i];
  }

  lemma PassEnd(todos: seq<Todo>, rows: seq<Todo>, norm: string -> string, kept: set<string>, writes: string -> bool)
    ensures Rewritten(todos, rows[|rows|..], norm, kept, writes) == todos
    ensures Parked(rows[|rows|..], norm, kept) == {} && Changes(rows[|rows|..], norm, kept, writes) == 0
    ensures Leaving(rows[|rows|..], norm, kept) == 0
  {
  }

  // ------------------------------------------------- what one run leaves behind

  function Target(t: Todo, norm: string -> string, kept: set<string>): seq<string> {
    Wanted(Clean(t.labels, norm, {}), kept)
  }

  /** The labels a task is to have. */
  function Aim(t: Todo, norm: string -> string, kept: set<string>): set<string> {
    Elems(Target(t, norm, kept))
  }

  predicate NeedsWrite(t: Todo, norm: string -> string, kept: set<string>) {
    Elems(t.labels) != Aim(t, norm, kept)
  }

  /** What the pass writes last under a uid. */
  function LastWritten(read: seq<Todo>, norm: string -> string, kept: set<string>, uid: string): Option<seq<string>> {
    if read == [] then None
    else
      OrElse(LastWritten(read[1..], norm, kept, uid),
             if read[0].uid == uid && NeedsWrite(read[0], norm, kept) then Some(Target(read[0], norm, kept)) else None)
  }

  function Retagged(t: Todo, labels: Option<seq<string>>): Todo {
    if labels.Some? then t.(labels := labels.value) else t
  }

  /** The run with every write succeeding, whatever uids are shared: each task has the labels
      written last under its uid, or its own. */
  lemma {:induction false} RunRowByRow(todos: seq<Todo>, read: seq<Todo>, norm: string -> string, kept: set<string>)
    ensures var after := Rewritten(todos, read, norm, kept, u => true);
            && |after| == |todos|
            && forall i :: 0 <= i < |todos| ==>
              after[i] == Retagged(todos[i], LastWritten(read, norm, kept, todos[i].uid))
    decreases |read|
  {
    hide Wanted, Clean, Elems;
    if read != [] {
      var r := read[0];
      var next := if NeedsWrite(r, norm, kept) then Relabelled(todos, r.uid, Target(r, norm, kept)) else todos;
      RunRowByRow(next, read[1..], norm, kept);
      assert Rewritten(todos, read, norm, kept, u => true) == Rewritten(next, read[1..], norm, kept, u => true);
    }
  }

  lemma {:induction false} LastWrittenIff(read: seq<Todo>, norm: string -> string, kept: set<string>, uid: string)
    ensures var w := LastWritten(read, norm, kept, uid);
            && (w.Some? ==> exists q ::
                  q in read && q.uid == uid && NeedsWrite(q, norm, kept) && w.value == Target(q, norm, kept))
            && (w.None? ==> forall q :: q in read && q.uid == uid ==> !NeedsWrite(q, norm, kept))
  {
    hide NeedsWrite, Target;
    if read != [] {
      LastWrittenIff(read[1..], norm, kept, uid);
      assert read[0] in read && forall q :: q in read <==> q == read[0] || q in read[1..];
    }
  }

  /** All tasks of a uid that is written want the same labels. */
  predicate Agree(rows: seq<Todo>, norm: string -> string, kept: set<string>) {
    forall q, r :: q in rows && r in rows && q.uid == r.uid && NeedsWrite(q, norm, kept) ==>
      Aim(r, norm, kept) == Aim(q, norm, kept)
  }

  /** `after` are the same tasks, each with exactly the labels it is to have. */
  predicate Met(rows: seq<Todo>, after: seq<Todo>, norm: string -> string, kept: set<string>) {
    && |after| == |rows|
    && forall i :: 0 <= i < |rows| ==>
      after[i] == rows[i].(labels := after[i].labels) && Elems(after[i].labels) == Aim(rows[i], norm, kept)
  }

  /** Every task gets the labels it is to have exactly when all tasks of a uid that is written
      want the same ones: the update goes by uid, which two calendars may share. */
  lemma RunMeetsItsAimIff(rows: seq<Todo>, norm: string -> string, kept: set<string>)
    ensures Met(rows, Rewritten(rows, rows, norm, kept, u => true), norm, kept) <==> Agree(rows, norm, kept)
  {
    hide Rewritten, Target, Elems, LastWritten;
    var after := Rewritten(rows, rows, norm, kept, u => true);
    RunRowByRow(rows, rows, norm, kept);
    if Agree(rows, norm, kept) {
      forall i | 0 <= i < |rows|
        ensures Elems(after[i].labels) == Aim(rows[i], norm, kept)
      {
        LastWrittenIff(rows, norm, kept, rows[i].uid);
        assert rows[i] in rows;
      }
    }
    if Met(rows, after, norm, kept) {
      forall q, r | q in rows && r in rows && q.uid == r.uid && NeedsWrite(q, norm, kept)
        ensures Aim(r, norm, kept) == Aim(q, norm, kept)
      {
        LastWrittenIff(rows, norm, kept, q.uid);
        var i :| 0 <= i < |rows| && rows[i] == q;
        var j :| 0 <= j < |rows| && rows[j] == r;
        assert after[i].labels == after[j].labels;
      }
    }
  }

  lemma DistinctUidsAgree(rows: seq<Todo>, norm: string -> string, kept: set<string>)
    requires DistinctUids(rows)
    ensures Agree(rows, norm, kept)
  {
    hide Aim;
    forall q, r | q in rows && r in rows && q.uid == r.uid
      ensures q == r
    {
    }
  }

  /** A kept label is lost where the last task of its uid wants others, and the pair is not
      even parked. */
  lemma SharedUidLosesALabel(rows: seq<Todo>, norm: string -> string, i: nat, l: string)
    requires var n := |rows| - 1;
             && i < n && rows[i].uid == rows[n].uid
             && NeedsWrite(rows[n], norm, KeptThemes(rows, norm))
             && l in Aim(rows[i], norm, KeptThemes(rows, norm)) && l !in Aim(rows[n], norm, KeptThemes(rows, norm))
    ensures var kept := KeptThemes(rows, norm);
            var after := Rewritten(rows, rows, norm, kept, u => true);
            && |after| == |rows| && l !in after[i].labels
            && (l, rows[i].uid) !in Parked(rows, norm, kept)
  {
    hide Rewritten, KeptThemes, NeedsWrite, Target, LastWritten, Clean;
    var kept := KeptThemes(rows, norm);
    var n := |rows| - 1;
    RunRowByRow(rows, rows, norm, kept);
    LastRowWins(rows, norm, kept);
    ParkedIff(rows, norm, kept, (l, rows[i].uid));
    AimHas(rows[i], norm, kept, l);
    AimHas(rows[n], norm, kept, l);
    assert l in Target(rows[n], norm, kept) ==> l in Elems(Target(rows[n], norm, kept));
  }

  lemma {:induction false} LastRowWins(read: seq<Todo>, norm: string -> string, kept: set<string>)
    requires read != [] && NeedsWrite(read[|read| - 1], norm, kept)
    ensures var last := read[|read| - 1];
            LastWritten(read, norm, kept, last.uid) == Some(Target(last, norm, kept))
  {
    hide NeedsWrite, Target;
    if |read| > 1 {
      assert read[1..][|read| - 2] == read[|read| - 1];
      LastRowWins(read[1..], norm, kept);
    } else {
      assert LastWritten(read[1..], norm, kept, read[0].uid) == None;
    }
  }

  /** How many tasks literally carry a label. */
  function Carriers(rows: seq<Todo>, l: string): nat {
    if rows == [] then 0 else (if l in rows[0].labels then 1 else 0) + Carriers(rows[1..], l)
  }

  lemma AimHas(t: Todo, norm: string -> string, kept: set<string>, l: string)
    ensures l in Aim(t, norm, kept) <==> l in Clean(t.labels, norm, {}) && (l == ORIGIN || l in kept)
  {
  }

  lemma LabelsHave(labels: seq<string>, aim: set<string>, l: string)
    requires Elems(labels) == aim
    ensures l in labels <==> l in aim
  {
    assert l in Elems(labels) <==> l in labels;
  }

  lemma {:induction false} KeptIsCarried(rows: seq<Todo>, after: seq<Todo>, norm: string -> string,
      kept: set<string>, l: string)
    requires Met(rows, after, norm, kept) && l in kept && l != ORIGIN
    ensures Carriers(after, l) == Count(rows, norm, l)
  {
    hide Themes, Aim, Elems;
    if rows != [] {
      AimHas(rows[0], norm, kept, l);
      LabelsHave(after[0].labels, Aim(rows[0], norm, kept), l);
      ThemesAre(rows[0], norm, l);
      KeptIsCarried(rows[1..], after[1..], norm, kept, l);
    }
  }

  /** How many of `rows` carry a label when `read` has been consolidated: the labels written
      last under their uids decide, or their own. */
  function Carrying(rows: seq<Todo>, read: seq<Todo>, norm: string -> string, kept: set<string>, l: string): nat {
    if rows == [] then 0
    else
      (if l in Retagged(rows[0], LastWritten(read, norm, kept, rows[0].uid)).labels then 1 else 0)
      + Carrying(rows[1..], read, norm, kept, l)
  }

  /** No label but the origin will be carried by some tasks, but by too few. */
  ghost predicate Earned(rows: seq<Todo>, norm: string -> string, kept: set<string>) {
    forall l :: l == ORIGIN || Carrying(rows, rows, norm, kept, l) == 0
             || Carrying(rows, rows, norm, kept, l) >= THRESHOLD
  }

  lemma {:induction false} CarriersAre(rows: seq<Todo>, after: seq<Todo>, read: seq<Todo>, norm: string -> string,
      kept: set<string>, l: string)
    requires |after| == |rows|
    requires forall i :: 0 <= i < |rows| ==> after[i] == Retagged(rows[i], LastWritten(read, norm, kept, rows[i].uid))
    ensures Carriers(after, l) == Carrying(rows, read, norm, kept, l)
  {
    hide LastWritten, Retagged;
    if rows != [] {
      CarriersAre(rows[1..], after[1..], read, norm, kept, l);
    }
  }

  lemma {:induction false} CarriedIff(rows: seq<Todo>, l: string)
    ensures Carriers(rows, l) > 0 <==> exists i :: 0 <= i < |rows| && l in rows[i].labels
  {
    if rows != [] {
      CarriedIff(rows[1..], l);
      if i :| 0 <= i < |rows| && l in rows[i].labels {
        assert i == 0 || l in rows[1..][i - 1].labels;
      }
    }
  }

  /** Every label on a task, but for the origin, is on enough tasks. */
  predicate Covered(rows: seq<Todo>) {
    forall i, l :: 0 <= i < |rows| && l in rows[i].labels && l != ORIGIN ==> Carriers(rows, l) >= THRESHOLD
  }

  /** It is so after the run exactly when no label is to be left with too few tasks. */
  lemma EveryLabelEarnsItsPlaceIff(rows: seq<Todo>, norm: string -> string)
    ensures var kept := KeptThemes(rows, norm);
            var after := Rewritten(rows, rows, norm, kept, u => true);
            Covered(after) <==> Earned(rows, norm, kept)
  {
    hide Rewritten, KeptThemes, LastWritten, Retagged, Carriers, Carrying;
    var kept := KeptThemes(rows, norm);
    var after := Rewritten(rows, rows, norm, kept, u => true);
    RunRowByRow(rows, rows, norm, kept);
    forall l
      ensures Carriers(after, l) == Carrying(rows, rows, norm, kept, l)
      ensures Carriers(after, l) > 0 <==> exists i :: 0 <= i < |after| && l in after[i].labels
    {
      CarriersAre(rows, after, rows, norm, kept, l);
      CarriedIff(after, l);
    }
    if Covered(after) {
      forall l
        ensures l == ORIGIN || Carriers(after, l) == 0 || Carriers(after, l) >= THRESHOLD
      {
        if Carriers(after, l) > 0 {
          var i :| 0 <= i < |after| && l in after[i].labels;
        }
      }
    }
    if Earned(rows, norm, kept) {
      forall i, l | 0 <= i < |after| && l in after[i].labels && l != ORIGIN
        ensures Carriers(after, l) >= THRESHOLD
      {
        assert Carriers(after, l) > 0;
      }
    }
  }

  /** It is so when all tasks of a uid that is written want the same labels. */
  lemma AgreeingTasksEarn(rows: seq<Todo>, norm: string -> string)
    requires Agree(rows, norm, KeptThemes(rows, norm))
    ensures Earned(rows, norm, KeptThemes(rows, norm))
  {
    hide Rewritten, Count, Agree, Aim, Elems, Carriers, KeptThemes, Earned;
    var kept := KeptThemes(rows, norm);
    var after := Rewritten(rows, rows, norm, kept, u => true);
    RunMeetsItsAimIff(rows, norm, kept);
    EveryLabelEarnsItsPlaceIff(rows, norm);
    forall i, l | 0 <= i < |after| && l in after[i].labels && l != ORIGIN
      ensures Carriers(after, l) >= THRESHOLD
    {
      AimHas(rows[i], norm, kept, l);
      LabelsHave(after[i].labels, Aim(rows[i], norm, kept), l);
      KeptIsCarried(rows, after, norm, kept, l);
    }
  }

  lemma {:induction false} ParkedIff(rows: seq<Todo>, norm: string -> string, kept: set<string>, p: (string, string))
    ensures p in Parked(rows, norm, kept) <==> exists i ::
      0 <= i < |rows| && rows[i].uid == p.1 && p.0 in Clean(rows[i].labels, norm, {}) && p.0 != ORIGIN && p.0 !in kept
  {
    hide Clean;
    if rows != [] {
      ParkedIff(rows[1..], norm, kept, p);
      assert forall i :: 1 <= i < |rows| ==> rows[i] == rows[1..][i - 1];
    }
  }

  /** Whatever uids are shared: "gone from a task exactly when parked" holds for a label the
      task had (normalised) exactly when it is no label to keep, or nothing was written under
      the task's uid, or it is among what was written last. */
  lemma GoneIsParkedIff(rows: seq<Todo>, norm: string -> string, i: nat, l: string)
    requires i < |rows| && l in Clean(rows[i].labels, norm, {})
    ensures var kept := KeptThemes(rows, norm);
            var after := Rewritten(rows, rows, norm, kept, u => true);
            var last := LastWritten(rows, norm, kept, rows[i].uid);
            && |after| == |rows|
            && ((l !in after[i].labels <==> (l, rows[i].uid) in Parked(rows, norm, kept))
                <==> (l == ORIGIN || l in kept ==> last.None? || l in last.value))
  {
    hide Rewritten, KeptThemes, LastWritten, Clean, Elems, Wanted;
    var kept := KeptThemes(rows, norm);
    var t := rows[i];
    RunRowByRow(rows, rows, norm, kept);
    LastWrittenIff(rows, norm, kept, t.uid);
    ParkedIff(rows, norm, kept, (l, t.uid));
    AimHas(t, norm, kept, l);
    assert t in rows;
    var last := LastWritten(rows, norm, kept, t.uid);
    if last.None? {
      LabelsHave(t.labels, Aim(t, norm, kept), l);
    } else {
      var q :| q in rows && q.uid == t.uid && NeedsWrite(q, norm, kept) && last.value == Target(q, norm, kept);
      AimHas(q, norm, kept, l);
      LabelsHave(last.value, Aim(q, norm, kept), l);
    }
  }

  /** Then a label a task had (normalised) is gone from it exactly when the pair was parked;
      the origin label is never gone. */
  lemma GoneIsParked(rows: seq<Todo>, norm: string -> string, i: nat, l: string)
    requires Agree(rows, norm, KeptThemes(rows, norm)) && i < |rows| && l in Clean(rows[i].labels, norm, {})
    ensures var kept := KeptThemes(rows, norm);
            var after := Rewritten(rows, rows, norm, kept, u => true);
            && |after| == |rows|
            && (l !in after[i].labels <==> (l, rows[i].uid) in Parked(rows, norm, kept))
            && (l == ORIGIN ==> l in after[i].labels)
  {
    hide Rewritten, KeptThemes, Agree, Aim, Elems;
    var kept := KeptThemes(rows, norm);
    RunMeetsItsAimIff(rows, norm, kept);
    AimHas(rows[i], norm, kept, l);
    LabelsHave(Rewritten(rows, rows, norm, kept, u => true)[i].labels, Aim(rows[i], norm, kept), l);
    ParkedIff(rows, norm, kept, (l, rows[i].uid));
  }

  // ------------------------------------------------------------- second run

  ghost predicate Idempotent(norm: string -> string) {
    forall s :: norm(norm(s)) == norm(s)
  }

  /** A task that has what it is to have normalises to itself. */
  lemma CleanAgain(t: Todo, r: Todo, norm: string -> string, kept: set<string>)
    requires Idempotent(norm) && Elems(r.labels) == Aim(t, norm, kept)
    ensures Elems(Clean(r.labels, norm, {})) == Elems(r.labels)
    ensures Themes(r, norm) == Themes(t, norm) * kept
    ensures !NeedsWrite(r, norm, kept) && Dropped(Clean(r.labels, norm, {}), kept, r.uid) == {}
  {
    hide Aim;
    forall l
      ensures l in r.labels <==> l in Clean(t.labels, norm, {}) && (l == ORIGIN || l in kept)
      ensures l in Clean(r.labels, norm, {}) <==> l in r.labels
      ensures l in Aim(r, norm, kept) <==> l in r.labels
    {
      AimHas(t, norm, kept, l);
      AimHas(r, norm, kept, l);
      LabelsHave(r.labels, Aim(t, norm, kept), l);
      if l in r.labels {
        assert norm(l) == l;
      }
      if l in Clean(r.labels, norm, {}) {
        var k :| k in r.labels && norm(k) == l;
        AimHas(t, norm, kept, k);
        LabelsHave(r.labels, Aim(t, norm, kept), k);
        assert norm(k) == k;
      }
    }
    forall l
      ensures l in Themes(r, norm) <==> l in Themes(t, norm) && l in kept
    {
      ThemesAre(r, norm, l);
      ThemesAre(t, norm, l);
    }
    assert Aim(r, norm, kept) == Elems(r.labels);
  }

  lemma {:induction false} CountAgain(rows: seq<Todo>, after: seq<Todo>, norm: string -> string,
      kept: set<string>, l: string)
    requires Idempotent(norm) && Met(rows, after, norm, kept)
    ensures Count(after, norm, l) == if l in kept then Count(rows, norm, l) else 0
  {
    hide Themes, Aim, Elems, NeedsWrite, Dropped, Clean;
    if rows != [] {
      CleanAgain(rows[0], after[0], norm, kept);
      CountAgain(rows[1..], after[1..], norm, kept, l);
    }
  }

  /** Such a task normalises to the labels it carries. */
  predicate Normal(t: Todo, norm: string -> string) {
    Elems(Clean(t.labels, norm, {})) == Elems(t.labels)
  }

  /** Whatever uids are shared, every task is left with labels some task was to have. */
  lemma RunLeavesNormal(rows: seq<Todo>, norm: string -> string, kept: set<string>)
    requires Idempotent(norm)
    ensures var after := Rewritten(rows, rows, norm, kept, u => true);
            |after| == |rows| && forall i :: 0 <= i < |after| ==> Normal(after[i], norm)
  {
    hide Rewritten, LastWritten, Clean, Elems, Target, Themes, Dropped, Idempotent;
    var after := Rewritten(rows, rows, norm, kept, u => true);
    RunRowByRow(rows, rows, norm, kept);
    forall i | 0 <= i < |after|
      ensures Normal(after[i], norm)
    {
      var t := rows[i];
      LastWrittenIff(rows, norm, kept, t.uid);
      assert t in rows;
      var last := LastWritten(rows, norm, kept, t.uid);
      if last.None? {
        CleanAgain(t, after[i], norm, kept);
      } else {
        var q :| q in rows && q.uid == t.uid && NeedsWrite(q, norm, kept) && last.value == Target(q, norm, kept);
        CleanAgain(q, after[i], norm, kept);
      }
    }
  }

  lemma {:induction false} NormalCounts(rows: seq<Todo>, norm: string -> string, l: string)
    requires forall i :: 0 <= i < |rows| ==> Normal(rows[i], norm)
    ensures Count(rows, norm, l) == if l == ORIGIN then 0 else Carriers(rows, l)
  {
    hide Themes, Clean, Elems;
    if rows != [] {
      ThemesAre(rows[0], norm, l);
      NormalHas(rows[0], norm, l);
      NormalCounts(rows[1..], norm, l);
    }
  }

  lemma NormalHas(t: Todo, norm: string -> string, l: string)
    requires Normal(t, norm)
    ensures l in Clean(t.labels, norm, {}) <==> l in t.labels
  {
    hide Clean;
    assert l in Elems(Clean(t.labels, norm, {})) <==> l in Elems(t.labels);
  }

  /** A task the pass leaves alone: all its labels stay. */
  predicate Settled(t: Todo, kept: set<string>) {
    forall l :: l in t.labels ==> l == ORIGIN || l in kept
  }

  lemma SettledIff(t: Todo, norm: string -> string, kept: set<string>)
    requires Normal(t, norm)
    ensures NeedsWrite(t, norm, kept) <==> !Settled(t, kept)
    ensures Dropped(Clean(t.labels, norm, {}), kept, t.uid) == {} <==> Settled(t, kept)
  {
    hide Clean, Normal, Aim, Dropped;
    forall l
      ensures l in Clean(t.labels, norm, {}) <==> l in t.labels
      ensures l in Aim(t, norm, kept) <==> l in t.labels && (l == ORIGIN || l in kept)
    {
      NormalHas(t, norm, l);
      AimHas(t, norm, kept, l);
    }
    if l :| l in t.labels && l != ORIGIN && l !in kept {
      assert l in Elems(t.labels) && l !in Aim(t, norm, kept);
      assert (l, t.uid) in Dropped(Clean(t.labels, norm, {}), kept, t.uid);
    } else {
      assert forall p :: p !in Dropped(Clean(t.labels, norm, {}), kept, t.uid);
      assert Aim(t, norm, kept) == Elems(t.labels);
    }
  }

  /** A pass is idle exactly when every task read is settled. */
  lemma {:induction false} IdleIff(todos: seq<Todo>, read: seq<Todo>, norm: string -> string, kept: set<string>)
    requires forall i :: 0 <= i < |read| ==> Normal(read[i], norm)
    ensures Changes(read, norm, kept, u => true) == 0 <==> forall i :: 0 <= i < |read| ==> Settled(read[i], kept)
    ensures Parked(read, norm, kept) == {} <==> forall i :: 0 <= i < |read| ==> Settled(read[i], kept)
    ensures Changes(read, norm, kept, u => true) == 0 ==> Rewritten(todos, read, norm, kept, u => true) == todos
    decreases |read|
  {
    hide Clean, Wanted, Dropped, Elems, Settled, Normal;
    if read != [] {
      SettledIff(read[0], norm, kept);
      IdleIff(todos, read[1..], norm, kept);
      assert (forall i :: 0 <= i < |read| ==> Settled(read[i], kept))
        <==> Settled(read[0], kept) && forall i :: 0 <= i < |read[1..]| ==> Settled(read[1..][i], kept);
    }
  }

  /** Whatever uids are shared: a second run changes no task exactly when no label is left
      with too few tasks, and parks nothing exactly then. */
  lemma SecondRunIdleIff(rows: seq<Todo>, norm: string -> string)
    requires Idempotent(norm)
    ensures var kept := KeptThemes(rows, norm);
            var after := Rewritten(rows, rows, norm, kept, u => true);
            var again := KeptThemes(after, norm);
            && (Changes(after, norm, again, u => true) == 0 <==> Earned(rows, norm, kept))
            && (Parked(after, norm, again) == {} <==> Earned(rows, norm, kept))
            && (Earned(rows, norm, kept) ==> Rewritten(after, after, norm, again, u => true) == after)
  {
    hide Rewritten, Parked, Changes, Count, Carriers, Normal, Earned, Idempotent;
    var kept := KeptThemes(rows, norm);
    var after := Rewritten(rows, rows, norm, kept, u => true);
    var again := KeptThemes(after, norm);
    RunLeavesNormal(rows, norm, kept);
    EveryLabelEarnsItsPlaceIff(rows, norm);
    IdleIff(after, after, norm, again);
    forall l
      ensures l in again <==> l != ORIGIN && Carriers(after, l) >= THRESHOLD
    {
      NormalCounts(after, norm, l);
    }
    assert Covered(after) <==> forall i :: 0 <= i < |after| ==> Settled(after[i], again);
  }

  /** A task with one label that the normaliser leaves alone. */
  lemma OneLabel(t: Todo, norm: string -> string, kept: set<string>, l: string)
    requires t.labels == [l] && norm(l) == l && l != "" && l != ORIGIN
    ensures Themes(t, norm) == {l}
    ensures Target(t, norm, kept) == (if l in kept then [l] else [])
    ensures NeedsWrite(t, norm, kept) <==> l !in kept
  {
    assert t.labels[1..] == [] && Clean(t.labels, norm, {}) == [l] && [l][1..] == [];
    assert Wanted([], kept) == [];
    assert Wanted([l], kept) == if l in kept then [l] else [];
    assert l in Elems(t.labels);
  }

  lemma CountStep(rows: seq<Todo>, norm: string -> string, l: string)
    requires rows != []
    ensures Count(rows, norm, l) == (if l in Themes(rows[0], norm) then 1 else 0) + Count(rows[1..], norm, l)
  {
    hide Themes;
  }

  lemma {:induction false} CountOnEach(many: seq<Todo>, rest: seq<Todo>, norm: string -> string, l: string, m: string)
    requires forall t :: t in many ==> t.labels == [l]
    requires norm(l) == l && l != "" && l != ORIGIN && m != l
    ensures Count(many + rest, norm, l) == |many| + Count(rest, norm, l)
    ensures Count(many + rest, norm, m) == Count(rest, norm, m)
  {
    hide Themes, Count;
    if many == [] {
      assert many + rest == rest;
    } else {
      var t := many[0];
      OneLabel(t, norm, {}, l);
      CountOnEach(many[1..], rest, norm, l, m);
      assert (many + rest)[1..] == many[1..] + rest && (many + rest)[0] == t;
      CountStep(many + rest, norm, l);
      CountStep(many + rest, norm, m);
    }
  }

  lemma {:induction false} CarryingOnEach(many: seq<Todo>, rest: seq<Todo>, read: seq<Todo>, norm: string -> string,
      kept: set<string>, l: string)
    requires forall t :: t in many ==> t.labels == [l] && LastWritten(read, norm, kept, t.uid).None?
    ensures Carrying(many + rest, read, norm, kept, l) == |many| + Carrying(rest, read, norm, kept, l)
  {
    hide LastWritten;
    if many == [] {
      assert many + rest == rest;
    } else {
      CarryingOnEach(many[1..], rest, read, norm, kept, l);
      assert (many + rest)[1..] == many[1..] + rest;
    }
  }

  /** A theme with just enough tasks, one of which shares its uid with a last task that has
      another label: that task loses the theme, and the second run takes it off all others. */
  lemma SecondRunGoesOn(many: seq<Todo>, own: Todo, other: Todo, norm: string -> string, l: string, m: string)
    requires Idempotent(norm) && norm(l) == l && norm(m) == m && l != m && "" !in {l, m} && ORIGIN !in {l, m}
    requires |many| == THRESHOLD - 1 && forall t :: t in many ==> t.labels == [l] && t.uid != own.uid
    requires own.labels == [l] && other.labels == [m] && other.uid == own.uid
    ensures var rows := many + [own, other];
            var after := Rewritten(rows, rows, norm, KeptThemes(rows, norm), u => true);
            var kept := KeptThemes(after, norm);
            Changes(after, norm, kept, u => true) > 0 && Parked(after, norm, kept) != {}
  {
    hide Rewritten, Count, Carrying, LastWritten, Themes, NeedsWrite, Target, Idempotent, Changes, Parked;
    var rows := many + [own, other];
    var kept := KeptThemes(rows, norm);
    CountOnEach(many, [own, other], norm, l, m);
    CountOfTwo(own, other, norm, l, m);
    OneLabel(own, norm, kept, l);
    OneLabel(other, norm, kept, m);
    assert rows[|rows| - 1] == other;
    LastRowWins(rows, norm, kept);
    forall t | t in many
      ensures LastWritten(rows, norm, kept, t.uid).None?
    {
      LastWrittenIff(rows, norm, kept, t.uid);
      forall q | q in rows && q.uid == t.uid
        ensures !NeedsWrite(q, norm, kept)
      {
        assert q in many;
        OneLabel(q, norm, kept, l);
      }
    }
    CarryingOnEach(many, [own, other], rows, norm, kept, l);
    CarryingOfTwo(own, other, rows, norm, kept, l);
    SecondRunIdleIff(rows, norm);
  }

  lemma CountOfTwo(own: Todo, other: Todo, norm: string -> string, l: string, m: string)
    requires norm(l) == l && norm(m) == m && l != m && "" !in {l, m} && ORIGIN !in {l, m}
    requires own.labels == [l] && other.labels == [m]
    ensures Count([own, other], norm, l) == 1 && Count([own, other], norm, m) == 1
  {
    hide Themes;
    OneLabel(own, norm, {}, l);
    OneLabel(other, norm, {}, m);
    assert [own, other][1..] == [other] && [other][1..] == [];
    assert Count([other], norm, l) == 0 && Count([other], norm, m) == 1;
  }

  lemma CarryingOfTwo(own: Todo, other: Todo, read: seq<Todo>, norm: string -> string, kept: set<string>, l: string)
    requires LastWritten(read, norm, kept, own.uid) == Some([]) && other.uid == own.uid
    ensures Carrying([own, other], read, norm, kept, l) == 0
  {
    hide LastWritten;
    assert [own, other][1..] == [other] && [other][1..] == [];
    assert Carrying([other], read, norm, kept, l) == 0;
  }

  /** Then a second run changes no task, keeps the same themes and parks nothing. */
  lemma SecondRunDoesNothing(rows: seq<Todo>, norm: string -> string)
    requires Agree(rows, norm, KeptThemes(rows, norm)) && Idempotent(norm)
    ensures var after := Rewritten(rows, rows, norm, KeptThemes(rows, norm), u => true);
            var kept := KeptThemes(after, norm);
            && kept == KeptThemes(rows, norm)
            && Rewritten(after, after, norm, kept, u => true) == after
            && Parked(after, norm, kept) == {}
            && Changes(after, norm, kept, u => true) == 0
  {
    hide Rewritten, Parked, Changes, Count, Earned, Agree, Idempotent;
    var kept := KeptThemes(rows, norm);
    var after := Rewritten(rows, rows, norm, kept, u => true);
    RunMeetsItsAimIff(rows, norm, kept);
    AgreeingTasksEarn(rows, norm);
    SecondRunIdleIff(rows, norm);
    forall l
      ensures l in KeptThemes(after, norm) <==> l in kept
    {
      CountAgain(rows, after, norm, kept, l);
    }
  }

  // ------------------------------------------------- order, counts and parking

  predicate Once(labels: seq<string>) {
    forall i, j :: 0 <= i < j < |labels| ==> labels[i] != labels[j]
  }

  /** Cleaned labels are each there once. */
  lemma {:induction false} CleanedOnce(labels: seq<string>, norm: string -> string, seen: set<string>)
    ensures Once(Clean(labels, norm, seen))
    decreases |labels|
  {
    if labels != [] {
      var n := norm(labels[0]);
      CleanedOnce(labels[1..], norm, seen);
      CleanedOnce(labels[1..], norm, seen + {n});
      assert n !in Clean(labels[1..], norm, seen + {n});
    }
  }

  /** Labels are cleaned in their order: cleaning a list is cleaning its first part and then
      what the second part has besides. */
  lemma {:induction false} CleanConcat(a: seq<string>, b: seq<string>, norm: string -> string, seen: set<string>)
    ensures var c := Clean(a, norm, seen); Clean(a + b, norm, seen) == c + Clean(b, norm, seen + Elems(c))
    decreases |a|
  {
    if a == [] {
      assert a + b == b && seen + Elems([]) == seen;
    } else {
      assert (a + b)[1..] == a[1..] + b;
      var n := norm(a[0]);
      if n == "" || n in seen {
        CleanConcat(a[1..], b, norm, seen);
      } else {
        CleanConcat(a[1..], b, norm, seen + {n});
        var c := Clean(a[1..], norm, seen + {n});
        assert Elems([n] + c) == {n} + Elems(c);
        assert seen + {n} + Elems(c) == seen + Elems([n] + c);
      }
    }
  }

  /** The labels that stay keep their order. */
  lemma {:induction false} WantedConcat(a: seq<string>, b: seq<string>, kept: set<string>)
    ensures Wanted(a + b, kept) == Wanted(a, kept) + Wanted(b, kept)
  {
    if a == [] {
      assert a + b == b;
    } else {
      assert (a + b)[1..] == a[1..] + b;
      WantedConcat(a[1..], b, kept);
    }
  }

  /** The tasks whose labels are rewritten. */
  function Changed(read: seq<Todo>, norm: string -> string, kept: set<string>, writes: string -> bool): set<nat> {
    hide NeedsWrite;
    set i: nat | i < |read| && NeedsWrite(read[i], norm, kept) && writes(read[i].uid)
  }

  lemma ChangedSnoc(read: seq<Todo>, t: Todo, norm: string -> string, kept: set<string>, writes: string -> bool)
    ensures |Changed(read + [t], norm, kept, writes)|
         == |Changed(read, norm, kept, writes)| + if NeedsWrite(t, norm, kept) && writes(t.uid) then 1 else 0
  {
    hide NeedsWrite;
    var all := read + [t];
    var before, after := Changed(read, norm, kept, writes), Changed(all, norm, kept, writes);
    assert |read| !in before;
    if NeedsWrite(t, norm, kept) && writes(t.uid) {
      assert after == before + {|read|};
    } else {
      assert after == before;
    }
  }

  lemma {:induction false} ChangesSnoc(read: seq<Todo>, t: Todo, norm: string -> string, kept: set<string>,
      writes: string -> bool)
    ensures Changes(read + [t], norm, kept, writes)
         == Changes(read, norm, kept, writes) + if NeedsWrite(t, norm, kept) && writes(t.uid) then 1 else 0
  {
    hide Clean, Wanted, Elems;
    if read == [] {
      assert read + [t] == [t] && [t][1..] == [];
    } else {
      assert (read + [t])[1..] == read[1..] + [t] && (read + [t])[0] == read[0];
      ChangesSnoc(read[1..], t, norm, kept, writes);
    }
  }

  /** The report counts the tasks whose labels differ from those they are to have and whose
      update works. */
  lemma {:induction false} ChangesAreCounted(read: seq<Todo>, norm: string -> string, kept: set<string>,
      writes: string -> bool)
    ensures Changes(read, norm, kept, writes) == |Changed(read, norm, kept, writes)|
    decreases |read|
  {
    if read == [] {
      assert Changed(read, norm, kept, writes) == {};
    } else {
      hide Changed, Changes, NeedsWrite;
      var front, t := read[..|read| - 1], read[|read| - 1];
      assert front + [t] == read;
      ChangesAreCounted(front, norm, kept, writes);
      ChangesSnoc(front, t, norm, kept, writes);
      ChangedSnoc(front, t, norm, kept, writes);
    }
  }

  lemma {:induction false} DroppedCount(clean: seq<string>, kept: set<string>, uid: string)
    requires Once(clean)
    ensures |Dropped(clean, kept, uid)| == |clean| - |Wanted(clean, kept)|
  {
    if clean != [] {
      DroppedCount(clean[1..], kept, uid);
      assert clean[0] !in clean[1..];
      if !(clean[0] == ORIGIN || clean[0] in kept) {
        assert (clean[0], uid) !in Dropped(clean[1..], kept, uid);
        assert Dropped(clean, kept, uid) == {(clean[0], uid)} + Dropped(clean[1..], kept, uid);
      }
    }
  }

  /** Where uids are distinct, the report counts the candidates parked. */
  lemma {:induction false} LeavingIsParked(read: seq<Todo>, norm: string -> string, kept: set<string>)
    requires DistinctUids(read)
    ensures Leaving(read, norm, kept) == |Parked(read, norm, kept)|
  {
    hide Clean, Wanted, Dropped;
    if read != [] {
      var clean := Clean(read[0].labels, norm, {});
      var here, later := Dropped(clean, kept, read[0].uid), Parked(read[1..], norm, kept);
      LeavingIsParked(read[1..], norm, kept);
      CleanedOnce(read[0].labels, norm, {});
      DroppedCount(clean, kept, read[0].uid);
      forall p | p in later
        ensures p !in here
      {
        ParkedIff(read[1..], norm, kept, p);
      }
      assert here !! later && Parked(read, norm, kept) == here + later;
    }
  }

  // ----------------------------------------------------- the normaliser used

  /** The synonym table, on trimmed lower-case text. */
  function Canonical(l: string): string {
    if l == "" then ""
    else if l == "idee" || l == "insilo" then ORIGIN
    else if l == "ai" || l == "ki" || l == "k\U{00fc}nstliche intelligenz" then "ki"
    else if l == "machine learning" || l == "maschinelles lernen" then "ml"
    else if l == "benchmarks" then "benchmark"
    else if l == "modellvergleich" || l == "vergleiche" then "vergleich"
    else if l == "analysen" then "analyse"
    else if l == "documentation" || l == "doku" || l == "dokumente" then "dokumentation"
    else if l == "research" then "recherche"
    else if l == "mobile" then "mobil"
    else if l == "tests" || l == "testen" then "test"
    else l
  }

  /** `normalize_label`, for a given lower-casing. */
  function Normalize(s: string, lower: string -> string): string {
    Canonical(lower(Trim(s)))
  }

  const WORDS: set<string> :=
    {"", "ki", "ml", "benchmark", "vergleich", "analyse", "dokumentation", "recherche", "mobil", "test"}

  /** What the table needs from lower-casing: it settles, keeps text trimmed, and leaves the
      words of the table alone. */
  ghost predicate Lowercases(lower: string -> string) {
    && (forall s :: lower(lower(s)) == lower(s))
    && (forall s :: Trimmed(s) ==> Trimmed(lower(s)))
    && (forall w :: w in WORDS ==> lower(w) == w)
    && lower(ORIGIN) == "insilo"
  }

  lemma CanonicalRange(l: string)
    ensures var c := Canonical(l); c == l || c == ORIGIN || c in WORDS
  {
  }

  lemma CanonicalWord(w: string)
    requires w in WORDS
    ensures Canonical(w) == w && Trimmed(w)
  {
    hide IsWhitespace;
    LettersAreNoSpace();
  }

  lemma LettersAreNoSpace()
    ensures forall c | 'a' <= c <= 'z' :: !IsWhitespace(c)
  {
  }

  lemma OriginStays()
    ensures Canonical("insilo") == ORIGIN && Trimmed(ORIGIN)
  {
  }

  lemma TrimIsTrimmed(s: string)
    ensures Trimmed(Trim(s))
  {
  }

  /** The normaliser in use is idempotent, as the second run needs it. */
  lemma NormalizeIsIdempotent(lower: string -> string, s: string)
    requires Lowercases(lower)
    ensures Normalize(Normalize(s, lower), lower) == Normalize(s, lower)
  {
    hide Trim, Trimmed, Canonical;
    var l := lower(Trim(s));
    var c := Canonical(l);
    TrimIsTrimmed(s);
    CanonicalRange(l);
    OriginStays();
    if c in WORDS {
      CanonicalWord(c);
    }
    TrimTrimmed(c);
  }

  lemma NormalizerIsIdempotent(lower: string -> string)
    requires Lowercases(lower)
    ensures Idempotent(s => Normalize(s, lower))
  {
    forall s
      ensures Normalize(Normalize(s, lower), lower) == Normalize(s, lower)
    {
      NormalizeIsIdempotent(lower, s);
    }
  }

  /** The synonyms, and nothing but them: every other label stays as it is. */
  const SYNONYMS: map<string, string> :=
    map["idee" := "Insilo", "insilo" := "Insilo",
        "ai" := "ki", "ki" := "ki", "k\U{00fc}nstliche intelligenz" := "ki",
        "machine learning" := "ml", "maschinelles lernen" := "ml",
        "benchmarks" := "benchmark", "modellvergleich" := "vergleich", "vergleiche" := "vergleich",
        "analysen" := "analyse", "documentation" := "dokumentation", "doku" := "dokumentation",
        "dokumente" := "dokumentation", "research" := "recherche", "mobile" := "mobil",
        "tests" := "test", "testen" := "test"]

  lemma SynonymsMeet(l: string)
    ensures Canonical(l) == if l in SYNONYMS then SYNONYMS[l] else l
  {
  }
}
