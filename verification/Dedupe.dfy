/** Merging open tasks with the same title: the richest one is kept, the others' descriptions
    are folded into it and they are deleted. `title` stands for `normalize_title`. */
module Dedupe {
  import opened Text
  import opened Todos
  import Utf8

  datatype Report = Report(groups: nat, kept: nat, merged: nat, deleted: nat)

  function Key(t: Todo, title: string -> string): string {
    title(match t.summary case Some(s) => s case None => "")
  }

  /** The open tasks of one title, in list order. */
  function Group(rows: seq<Todo>, title: string -> string, k: string): (r: seq<Todo>)
    ensures forall t :: t in r <==> t in rows && !t.completed && Key(t, title) == k
  {
    if rows == [] then []
    else (if !rows[0].completed && Key(rows[0], title) == k then [rows[0]] else []) + Group(rows[1..], title, k)
  }

  function Note(t: Todo): string {
    match t.description case Some(d) => d case None => ""
  }

  /** Longer description first (in bytes), then the older id. */
  predicate Before(a: Todo, b: Todo) {
    || Utf8.Len(Note(a)) > Utf8.Len(Note(b))
    || (Utf8.Len(Note(a)) == Utf8.Len(Note(b)) && a.id <= b.id)
  }

  function Insert(t: Todo, sorted: seq<Todo>): (r: seq<Todo>)
    ensures |r| == |sorted| + 1
    ensures forall x :: x in r <==> x == t || x in sorted
  {
    if sorted == [] || Before(t, sorted[0]) then [t] + sorted else [sorted[0]] + Insert(t, sorted[1..])
  }

  /** A stable sort. */
  function Sorted(items: seq<Todo>): (r: seq<Todo>)
    ensures |r| == |items|
    ensures forall x :: x in r <==> x in items
  {
    if items == [] then [] else Insert(items[0], Sorted(items[1..]))
  }

  const MARK: string := "Mighty: zusammengef\U{00fc}hrt \U{2013} "

  /** One duplicate's description joins the text unless the text already has it. */
  function Joined(desc: string, dup: Todo): string {
    var d := Trim(Note(dup));
    if d == "" || Contains(desc, d) then desc
    else (if Trim(desc) != "" then desc + "\n" else desc) + MARK + d
  }

  function Folded(desc: string, dups: seq<Todo>): string
    decreases |dups|
  {
    if dups == [] then desc else Folded(Joined(desc, dups[0]), dups[1..])
  }

  function Deleted(todos: seq<Todo>, dups: seq<Todo>): (r: seq<Todo>)
    ensures forall t :: t in r <==> t in todos && forall d :: d in dups ==> d.uid != t.uid
    decreases |dups|
  {
    if dups == [] then todos else Deleted(WithoutUid(todos, dups[0].uid), dups[1..])
  }

  /** One group of at least two. */
  function Merged(todos: seq<Todo>, items: seq<Todo>): seq<Todo>
    requires |items| >= 2
  {
    var sorted := Sorted(items);
    var left := Deleted(todos, sorted[1..]);
    var desc := Folded(Note(sorted[0]), sorted[1..]);
    if desc != Note(sorted[0]) then Described(left, sorted[0].uid, desc) else left
  }

  /** The groups of what was read, in some order. */
  function Run(todos: seq<Todo>, read: seq<Todo>, title: string -> string, order: seq<string>): seq<Todo>
    decreases |order|
  {
    if order == [] then todos
    else
      var items := Group(read, title, order[0]);
      Run(if |items| >= 2 then Merged(todos, items) else todos, read, title, order[1..])
  }

  /** How many duplicates bring text of their own. */
  function FoldCount(desc: string, dups: seq<Todo>): nat
    decreases |dups|
  {
    if dups == [] then 0
    else
      var next := Joined(desc, dups[0]);
      (if next != desc then 1 else 0) + FoldCount(next, dups[1..])
  }

  /** The report of a run over these groups. */
  function Counted(read: seq<Todo>, title: string -> string, order: seq<string>): Report {
    if order == [] then Report(0, 0, 0, 0)
    else
      var before := Counted(read, title, order[..|order| - 1]);
      var items := Group(read, title, order[|order| - 1]);
      if |items| < 2 then before
      else
        var sorted := Sorted(items);
        Report(before.groups + 1, before.kept + 1, before.merged + FoldCount(Note(sorted[0]), sorted[1..]),
               before.deleted + |items| - 1)
  }

  /** Every non-empty title of an open task once. */
  predicate Titles(order: seq<string>, read: seq<Todo>, title: string -> string) {
    && (forall i, j :: 0 <= i < j < |order| ==> order[i] != order[j])
    && (forall k :: k in order ==> k != "" && Group(read, title, k) != [])
    && forall t :: t in read && !t.completed && Key(t, title) != "" ==> Key(t, title) in order
  }

  // ------------------------------------------------------------------ folding

  lemma ContainsAround(a: string, p: string, b: string)
    ensures Contains(a + p + b, p)
  {
    assert (a + p + b)[|a|..] == p + b;
  }

  lemma ContainsLonger(s: string, more: string, p: string)
    requires Contains(s, p)
    ensures Contains(s + more, p)
  {
    var i :| 0 <= i <= |s| && p <= s[i..];
    assert (s + more)[i..] == s[i..] + more;
  }

  lemma JoinedKeeps(desc: string, dup: Todo)
    ensures desc <= Joined(desc, dup) && Contains(Joined(desc, dup), Trim(Note(dup)))
    ensures Joined(desc, dup) == desc || |Joined(desc, dup)| > |desc|
  {
    hide Trim, Contains;
    var d := Trim(Note(dup));
    if d == "" {
      ContainsAround("", "", desc);
      assert "" + "" + desc == desc;
    } else if !Contains(desc, d) {
      var front := (if Trim(desc) != "" then desc + "\n" else desc) + MARK;
      ContainsAround(front, d, "");
      assert front + d + "" == Joined(desc, dup);
    }
  }

  /** Folding loses no text: the keeper's own text stays in front, and the trimmed text of
      every duplicate is part of the result. */
  lemma {:induction false} FoldedKeeps(desc: string, dups: seq<Todo>)
    ensures desc <= Folded(desc, dups)
    ensures forall d :: d in dups ==> Contains(Folded(desc, dups), Trim(Note(d)))
    decreases |dups|
  {
    hide Joined, Contains, Trim;
    if dups != [] {
      var next := Joined(desc, dups[0]);
      JoinedKeeps(desc, dups[0]);
      FoldedKeeps(next, dups[1..]);
      var all := Folded(desc, dups);
      ContainsLonger(next, all[|next|..], Trim(Note(dups[0])));
      assert next + all[|next|..] == all;
    }
  }

  // ------------------------------------------------------------------- keeper

  /** Each has a description at least as long as the next ones', and the lower id where they
      are equally long. */
  predicate Ranked(ts: seq<Todo>) {
    forall i, j :: 0 <= i < j < |ts| ==>
      && Utf8.Len(Note(ts[i])) >= Utf8.Len(Note(ts[j]))
      && (Utf8.Len(Note(ts[i])) == Utf8.Len(Note(ts[j])) ==> ts[i].id <= ts[j].id)
  }

  lemma {:induction false} InsertRanked(t: Todo, sorted: seq<Todo>)
    requires Ranked(sorted)
    ensures Ranked(Insert(t, sorted)) && multiset(Insert(t, sorted)) == multiset([t] + sorted)
  {
    hide Utf8.Len;
    if sorted != [] && !Before(t, sorted[0]) {
      InsertRanked(t, sorted[1..]);
      var r := Insert(t, sorted[1..]);
      forall j | 0 <= j < |r|
        ensures Before(sorted[0], r[j])
      {
        assert r[j] in r;
        assert r[j] == t || exists k :: 1 <= k < |sorted| && sorted[k] == r[j];
      }
      assert sorted == [sorted[0]] + sorted[1..];
    }
  }

  /** The sort is one: the same tasks, ranked. */
  lemma {:induction false} SortedIsRanked(items: seq<Todo>)
    ensures Ranked(Sorted(items)) && multiset(Sorted(items)) == multiset(items)
  {
    hide Utf8.Len;
    if items != [] {
      SortedIsRanked(items[1..]);
      InsertRanked(items[0], Sorted(items[1..]));
      assert items == [items[0]] + items[1..];
    }
  }

  /** The keeper has the longest description of its group and among those the lowest id. */
  lemma KeeperIsRichest(items: seq<Todo>)
    requires items != []
    ensures var keeper := Sorted(items)[0];
            && keeper in items
            && forall x :: x in items ==>
                 && Utf8.Len(Note(x)) <= Utf8.Len(Note(keeper))
                 && (Utf8.Len(Note(x)) == Utf8.Len(Note(keeper)) ==> keeper.id <= x.id)
  {
    hide Sorted, Utf8.Len, Note;
    SortedIsRanked(items);
    var sorted := Sorted(items);
    assert sorted[0] in sorted;
    forall x | x in items
      ensures x == sorted[0] || exists j :: 1 <= j < |sorted| && sorted[j] == x
    {
      assert x in sorted;
    }
  }

  /** A duplicate's text is added exactly when the text does not contain it yet; it is then at
      the end, after the mark, on a line of its own unless the text was blank. */
  lemma JoinedIff(desc: string, dup: Todo)
    ensures Joined(desc, dup) == desc <==> Contains(desc, Trim(Note(dup)))
    ensures !Contains(desc, Trim(Note(dup))) ==>
      Joined(desc, dup) == desc + (if Blank(desc) then "" else "\n") + MARK + Trim(Note(dup))
  {
    hide Trim, Blank;
    TrimBlank(desc);
    var d := Trim(Note(dup));
    if d == "" {
      assert "" <= desc[0..];
    } else if !Contains(desc, d) {
      assert desc + "" == desc;
    }
  }

  // ------------------------------------------------- what a run does, row by row

  predicate HasUid(todos: seq<Todo>, uid: string) {
    exists t :: t in todos && t.uid == uid
  }

  /** A merged group deletes every row with the uid of one of its duplicates. */
  predicate Deletes(items: seq<Todo>, uid: string) {
    |items| >= 2 && HasUid(Sorted(items)[1..], uid)
  }

  /** What a merged group writes into every row with its keeper's uid. */
  function Writes(items: seq<Todo>, uid: string): Option<string> {
    if |items| < 2 then None
    else
      var sorted := Sorted(items);
      var desc := Folded(Note(sorted[0]), sorted[1..]);
      if sorted[0].uid == uid && desc != Note(sorted[0]) then Some(desc) else None
  }

  /** Some group of the run deletes this uid. */
  predicate Doomed(read: seq<Todo>, title: string -> string, order: seq<string>, uid: string)
    decreases |order|
  {
    order != [] && (Deletes(Group(read, title, order[0]), uid) || Doomed(read, title, order[1..], uid))
  }

  /** The last text that a group of the run writes under this uid. */
  function Written(read: seq<Todo>, title: string -> string, order: seq<string>, uid: string): Option<string>
    decreases |order|
  {
    if order == [] then None
    else OrElse(Written(read, title, order[1..], uid), Writes(Group(read, title, order[0]), uid))
  }

  function Retold(t: Todo, text: Option<string>): Todo {
    if text.Some? then t.(description := text) else t
  }

  function Outcome(read: seq<Todo>, title: string -> string, order: seq<string>, t: Todo): Option<Todo> {
    if Doomed(read, title, order, t.uid) then None else Some(Retold(t, Written(read, title, order, t.uid)))
  }

  function IfAny(t: Option<Todo>): seq<Todo> {
    if t.Some? then [t.value] else []
  }

  function Outcomes(todos: seq<Todo>, read: seq<Todo>, title: string -> string, order: seq<string>): seq<Todo> {
    if todos == [] then []
    else IfAny(Outcome(read, title, order, todos[0])) + Outcomes(todos[1..], read, title, order)
  }

  lemma {:induction false} DeletedHead(t: Todo, rest: seq<Todo>, dups: seq<Todo>)
    ensures Deleted([t] + rest, dups) == (if HasUid(dups, t.uid) then [] else [t]) + Deleted(rest, dups)
    decreases |dups|
  {
    if dups == [] {
      assert [t] + rest == [t] + Deleted(rest, dups);
    } else {
      assert ([t] + rest)[1..] == rest && ([t] + rest)[0] == t;
      assert HasUid(dups, t.uid) <==> dups[0].uid == t.uid || HasUid(dups[1..], t.uid);
      var left := WithoutUid(rest, dups[0].uid);
      if t.uid == dups[0].uid {
        assert WithoutUid([t] + rest, dups[0].uid) == [] + left == left;
      } else {
        DeletedHead(t, left, dups[1..]);
      }
    }
  }

  lemma DescribedConcat(a: seq<Todo>, b: seq<Todo>, uid: string, text: string)
    ensures Described(a + b, uid, text) == Described(a, uid, text) + Described(b, uid, text)
  {
  }

  lemma MergedHead(t: Todo, rest: seq<Todo>, items: seq<Todo>)
    requires |items| >= 2
    ensures Merged([t] + rest, items)
         == IfAny(if Deletes(items, t.uid) then None else Some(Retold(t, Writes(items, t.uid)))) + Merged(rest, items)
  {
    hide Sorted, Folded, Deleted, HasUid, Described, Note;
    var sorted := Sorted(items);
    var uid, desc := sorted[0].uid, Folded(Note(sorted[0]), sorted[1..]);
    DeletedHead(t, rest, sorted[1..]);
    var own := if HasUid(sorted[1..], t.uid) then [] else [t];
    DescribedConcat(own, Deleted(rest, sorted[1..]), uid, desc);
    DescribedOne(t, uid, desc);
  }

  lemma DescribedOne(t: Todo, uid: string, text: string)
    ensures Described([t], uid, text) == [if t.uid == uid then t.(description := Some(text)) else t]
    ensures Described([], uid, text) == []
  {
  }

  lemma {:induction false} OutcomesStep(todos: seq<Todo>, read: seq<Todo>, title: string -> string, order: seq<string>)
    requires order != []
    ensures var items := Group(read, title, order[0]);
            Outcomes(if |items| >= 2 then Merged(todos, items) else todos, read, title, order[1..])
            == Outcomes(todos, read, title, order)
    decreases |todos|
  {
    hide Group, Sorted, Folded, HasUid;
    var items := Group(read, title, order[0]);
    if todos == [] {
      if |items| >= 2 {
        NothingMerged(items);
      }
    } else {
      OutcomesStep(todos[1..], read, title, order);
      var t, rest := todos[0], todos[1..];
      assert todos == [t] + rest;
      if |items| >= 2 {
        MergedHead(t, rest, items);
        OutcomesHead(if Deletes(items, t.uid) then None else Some(Retold(t, Writes(items, t.uid))),
                     Merged(rest, items), read, title, order[1..]);
      }
    }
  }

  lemma {:induction false} NothingMerged(items: seq<Todo>)
    requires |items| >= 2
    ensures Merged([], items) == []
  {
    hide Sorted, Folded;
    NothingDeleted(Sorted(items)[1..]);
  }

  lemma {:induction false} NothingDeleted(dups: seq<Todo>)
    ensures Deleted([], dups) == []
    decreases |dups|
  {
    if dups != [] {
      NothingDeleted(dups[1..]);
    }
  }

  lemma OutcomesHead(t: Option<Todo>, rest: seq<Todo>, read: seq<Todo>, title: string -> string, order: seq<string>)
    ensures Outcomes(IfAny(t) + rest, read, title, order)
         == (match t case None => [] case Some(u) => IfAny(Outcome(read, title, order, u)))
            + Outcomes(rest, read, title, order)
  {
    hide Outcome;
    if t.Some? {
      assert (IfAny(t) + rest)[1..] == rest;
    } else {
      assert IfAny(t) + rest == rest;
    }
  }

  /** The run, whatever uids are shared: a row is gone when some merged group has a duplicate
      of its uid, and otherwise has the last text that a merged group with a keeper of its uid
      wrote, or its own. */
  lemma {:induction false} RunRowByRow(todos: seq<Todo>, read: seq<Todo>, title: string -> string, order: seq<string>)
    ensures Run(todos, read, title, order) == Outcomes(todos, read, title, order)
    decreases |order|
  {
    hide Group, Merged, Outcomes;
    if order == [] {
      NoGroups(todos, read, title);
    } else {
      var items := Group(read, title, order[0]);
      RunRowByRow(if |items| >= 2 then Merged(todos, items) else todos, read, title, order[1..]);
      OutcomesStep(todos, read, title, order);
    }
  }

  lemma {:induction false} NoGroups(todos: seq<Todo>, read: seq<Todo>, title: string -> string)
    ensures Outcomes(todos, read, title, []) == todos
  {
    if todos != [] {
      NoGroups(todos[1..], read, title);
    }
  }

  lemma {:induction false} OutcomesIff(todos: seq<Todo>, read: seq<Todo>, title: string -> string, order: seq<string>)
    ensures forall u :: u in todos && Outcome(read, title, order, u).Some? ==>
      Outcome(read, title, order, u).value in Outcomes(todos, read, title, order)
    ensures forall t :: t in Outcomes(todos, read, title, order) ==>
      exists u :: u in todos && Outcome(read, title, order, u) == Some(t)
  {
    hide Outcome;
    if todos != [] {
      OutcomesIff(todos[1..], read, title, order);
      assert todos[0] in todos && forall u :: u in todos <==> u == todos[0] || u in todos[1..];
    }
  }

  lemma {:induction false} DoomedIff(read: seq<Todo>, title: string -> string, order: seq<string>, uid: string)
    ensures Doomed(read, title, order, uid) <==> exists k :: k in order && Deletes(Group(read, title, k), uid)
    decreases |order|
  {
    hide Group, Deletes;
    if order != [] {
      DoomedIff(read, title, order[1..], uid);
      assert order[0] in order && forall k :: k in order <==> k == order[0] || k in order[1..];
    }
  }

  /** A uid is still there afterwards exactly when it was there before and no merged group has
      a duplicate with that uid, whether or not the row belongs to the group. */
  lemma UidSurvivesIff(todos: seq<Todo>, read: seq<Todo>, title: string -> string, order: seq<string>, uid: string)
    ensures HasUid(Run(todos, read, title, order), uid) <==>
      HasUid(todos, uid) && !exists k :: k in order && Deletes(Group(read, title, k), uid)
  {
    hide Run, Outcomes, Group, Deletes, Doomed, Written;
    RunRowByRow(todos, read, title, order);
    OutcomesIff(todos, read, title, order);
    DoomedIff(read, title, order, uid);
    if HasUid(todos, uid) && !Doomed(read, title, order, uid) {
      var t :| t in todos && t.uid == uid;
      var n := Outcome(read, title, order, t).value;
      assert n.uid == uid && n in Outcomes(todos, read, title, order);
    }
  }

  // ------------------------------------------------------------- what was meant

  /** The primary key of the table. */
  predicate DistinctIds(rows: seq<Todo>) {
    forall i, j :: 0 <= i < j < |rows| ==> rows[i].id != rows[j].id
  }

  lemma SameId(rows: seq<Todo>, a: Todo, b: Todo)
    requires DistinctIds(rows) && a in rows && b in rows && a.id == b.id
    ensures a == b
  {
  }

  predicate IsDuplicate(rows: seq<Todo>, title: string -> string, t: Todo) {
    var items := Group(rows, title, Key(t, title));
    !t.completed && Key(t, title) != "" && |items| >= 2 && t in Sorted(items)[1..]
  }

  /** The text a keeper gets from its duplicates. */
  function FateText(rows: seq<Todo>, title: string -> string, t: Todo): Option<string> {
    var items := Group(rows, title, Key(t, title));
    if t.completed || Key(t, title) == "" || |items| < 2 || t != Sorted(items)[0] then None
    else Writes(items, t.uid)
  }

  /** What is meant to become of a task: duplicates go, keepers get their text, the rest stays. */
  function Fate(rows: seq<Todo>, title: string -> string, t: Todo): Option<Todo> {
    if IsDuplicate(rows, title, t) then None else Some(Retold(t, FateText(rows, title, t)))
  }

  /** Done tasks and tasks without a title are to be left alone. */
  lemma UntitledIsLeft(rows: seq<Todo>, title: string -> string, t: Todo)
    requires t.completed || (t.summary.None? && title("") == "") || (t.summary.Some? && title(t.summary.value) == "")
    ensures Fate(rows, title, t) == Some(t)
  {
    hide Group, Sorted, Writes;
  }

  function Fates(todos: seq<Todo>, rows: seq<Todo>, title: string -> string): seq<Todo> {
    if todos == [] then [] else IfAny(Fate(rows, title, todos[0])) + Fates(todos[1..], rows, title)
  }

  /** No task that is to stay has the uid of a duplicate, or that of another keeper with a
      text it is not to have. */
  predicate Apart(rows: seq<Todo>, title: string -> string) {
    && (forall d, r :: d in rows && r in rows && IsDuplicate(rows, title, d) && r.uid == d.uid ==>
          IsDuplicate(rows, title, r))
    && (forall k, r ::
          k in rows && r in rows && FateText(rows, title, k).Some? && r.uid == k.uid && !IsDuplicate(rows, title, r) ==>
          Retold(r, FateText(rows, title, r)).description == FateText(rows, title, k))
  }

  lemma {:induction false} GroupIds(rows: seq<Todo>, title: string -> string, k: string)
    requires DistinctIds(rows)
    ensures DistinctIds(Group(rows, title, k))
  {
    hide Key;
    if rows != [] {
      GroupIds(rows[1..], title, k);
      var rest := Group(rows[1..], title, k);
      forall j | 0 <= j < |rest|
        ensures rest[j].id != rows[0].id
      {
        assert rest[j] in rest;
      }
    }
  }

  lemma {:induction false} InsertIds(t: Todo, sorted: seq<Todo>)
    requires DistinctIds(sorted) && forall x :: x in sorted ==> x.id != t.id
    ensures DistinctIds(Insert(t, sorted))
  {
    hide Before;
    if sorted != [] && !Before(t, sorted[0]) {
      InsertIds(t, sorted[1..]);
      var r := Insert(t, sorted[1..]);
      forall j | 0 <= j < |r|
        ensures r[j].id != sorted[0].id
      {
        assert r[j] in r;
      }
    }
  }

  lemma {:induction false} SortedIds(items: seq<Todo>)
    requires DistinctIds(items)
    ensures DistinctIds(Sorted(items))
  {
    if items != [] {
      SortedIds(items[1..]);
      InsertIds(items[0], Sorted(items[1..]));
    }
  }

  /** A group is its keeper and its duplicates. */
  lemma GroupParts(rows: seq<Todo>, title: string -> string, k: string)
    requires DistinctIds(rows) && Group(rows, title, k) != []
    ensures var sorted := Sorted(Group(rows, title, k));
            && sorted[0] in rows && !sorted[0].completed && Key(sorted[0], title) == k
            && sorted[0] !in sorted[1..]
            && (forall t :: t in sorted[1..] ==> t in rows && !t.completed && Key(t, title) == k)
            && (forall t :: t in rows && !t.completed && Key(t, title) == k ==> t == sorted[0] || t in sorted[1..])
  {
    hide Group, Sorted, Key;
    var sorted := Sorted(Group(rows, title, k));
    GroupIds(rows, title, k);
    SortedIds(Group(rows, title, k));
    assert sorted[0] in sorted;
    assert forall t :: t in sorted <==> t == sorted[0] || t in sorted[1..];
  }

  /** Where every title is merged, exactly the uids of duplicates are deleted. */
  lemma DoomedMeansDuplicate(rows: seq<Todo>, title: string -> string, order: seq<string>, uid: string)
    requires DistinctIds(rows) && Titles(order, rows, title)
    ensures Doomed(rows, title, order, uid) <==> exists d :: d in rows && IsDuplicate(rows, title, d) && d.uid == uid
  {
    hide Group, Sorted, Key, Doomed;
    DoomedIff(rows, title, order, uid);
    if Doomed(rows, title, order, uid) {
      var k :| k in order && Deletes(Group(rows, title, k), uid);
      var d :| d in Sorted(Group(rows, title, k))[1..] && d.uid == uid;
      GroupParts(rows, title, k);
      assert IsDuplicate(rows, title, d);
    }
    if d :| d in rows && IsDuplicate(rows, title, d) && d.uid == uid {
      assert Deletes(Group(rows, title, Key(d, title)), uid);
    }
  }

  /** Where every title is merged, exactly the keepers' texts are written, under their uids. */
  lemma WrittenMeansText(rows: seq<Todo>, title: string -> string, order: seq<string>, uid: string)
    requires DistinctIds(rows) && Titles(order, rows, title)
    ensures var w := Written(rows, title, order, uid);
            && (w.Some? ==> exists k :: k in rows && k.uid == uid && FateText(rows, title, k) == w)
            && (w.None? ==> forall k :: k in rows && k.uid == uid ==> FateText(rows, title, k).None?)
  {
    hide Group, Sorted, Key, Written, Writes;
    WrittenIff(rows, title, order, uid);
    if Written(rows, title, order, uid).Some? {
      var k :| k in order && Writes(Group(rows, title, k), uid) == Written(rows, title, order, uid);
      GroupParts(rows, title, k);
      WritesSome(Group(rows, title, k), uid);
      assert FateText(rows, title, Sorted(Group(rows, title, k))[0]) == Written(rows, title, order, uid);
    }
  }

  lemma WritesSome(items: seq<Todo>, uid: string)
    requires Writes(items, uid).Some?
    ensures |items| >= 2 && Sorted(items)[0].uid == uid
  {
    hide Sorted, Folded;
  }

  lemma {:induction false} WrittenIff(read: seq<Todo>, title: string -> string, order: seq<string>, uid: string)
    ensures var w := Written(read, title, order, uid);
            && (w.Some? ==> exists k :: k in order && Writes(Group(read, title, k), uid) == w)
            && (w.None? ==> forall k :: k in order ==> Writes(Group(read, title, k), uid).None?)
    decreases |order|
  {
    hide Group, Writes;
    if order != [] {
      WrittenIff(read, title, order[1..], uid);
      assert order[0] in order && forall k :: k in order <==> k == order[0] || k in order[1..];
    }
  }

  /** Two tables made row by row from the same rows are equal only row by row. */
  lemma {:induction false} SameRows(todos: seq<Todo>, rows: seq<Todo>, title: string -> string, order: seq<string>)
    requires DistinctIds(todos)
    ensures Outcomes(todos, rows, title, order) == Fates(todos, rows, title)
       <==> forall t :: t in todos ==> Outcome(rows, title, order, t) == Fate(rows, title, t)
  {
    hide Outcome, Fate;
    if todos != [] {
      var t, rest := todos[0], todos[1..];
      SameRows(rest, rows, title, order);
      OutcomeId(rows, title, order, t);
      OutcomeIds(rest, rows, title, order);
      assert t in todos && forall u :: u in todos <==> u == t || u in rest;
      var a, b := Outcomes(rest, rows, title, order), Fates(rest, rows, title);
      var x, y := Outcome(rows, title, order, t), Fate(rows, title, t);
      HeadTail(x, a, y, b, t.id);
    }
  }

  lemma OutcomeId(rows: seq<Todo>, title: string -> string, order: seq<string>, t: Todo)
    ensures Outcome(rows, title, order, t).Some? ==> Outcome(rows, title, order, t).value.id == t.id
    ensures Fate(rows, title, t).Some? ==> Fate(rows, title, t).value.id == t.id
  {
    hide Doomed, Written, IsDuplicate, FateText;
  }

  lemma {:induction false} OutcomeIds(todos: seq<Todo>, rows: seq<Todo>, title: string -> string, order: seq<string>)
    ensures forall u :: u in Outcomes(todos, rows, title, order) || u in Fates(todos, rows, title) ==>
      exists t :: t in todos && t.id == u.id
  {
    hide Outcome, Fate;
    if todos != [] {
      OutcomeId(rows, title, order, todos[0]);
      OutcomeIds(todos[1..], rows, title, order);
      assert todos[0] in todos && forall t :: t in todos[1..] ==> t in todos;
    }
  }

  lemma HeadTail(x: Option<Todo>, a: seq<Todo>, y: Option<Todo>, b: seq<Todo>, id: nat)
    requires x.Some? ==> x.value.id == id
    requires y.Some? ==> y.value.id == id
    requires forall u :: u in a || u in b ==> u.id != id
    ensures IfAny(x) + a == IfAny(y) + b <==> x == y && a == b
  {
    var l, r := IfAny(x) + a, IfAny(y) + b;
    if x.Some? && y.Some? {
      assert l[0] == x.value && r[0] == y.value && l[1..] == a && r[1..] == b;
    } else if x.Some? {
      assert r == b && l[0] in l && l[0].id == id;
    } else if y.Some? {
      assert l == a && r[0] in r && r[0].id == id;
    } else {
      assert l == a && r == b;
    }
  }

  /** The run does what is meant, in whatever order the groups come, exactly when the uids of
      what is deleted or written belong to no other task that is to stay as it is. */
  lemma RunIsFateIff(rows: seq<Todo>, title: string -> string, order: seq<string>)
    requires DistinctIds(rows) && Titles(order, rows, title)
    ensures Run(rows, rows, title, order) == Fates(rows, rows, title) <==> Apart(rows, title)
  {
    hide Run, Outcomes, Fates, Group, Key, Apart, Outcome, Fate;
    RunRowByRow(rows, rows, title, order);
    SameRows(rows, rows, title, order);
    if Apart(rows, title) {
      forall r | r in rows
        ensures Outcome(rows, title, order, r) == Fate(rows, title, r)
      {
        ApartMeansFate(rows, title, order, r);
      }
    }
    if forall r :: r in rows ==> Outcome(rows, title, order, r) == Fate(rows, title, r) {
      FateMeansApart(rows, title, order);
    }
  }

  lemma ApartMeansFate(rows: seq<Todo>, title: string -> string, order: seq<string>, r: Todo)
    requires DistinctIds(rows) && Titles(order, rows, title) && Apart(rows, title) && r in rows
    ensures Outcome(rows, title, order, r) == Fate(rows, title, r)
  {
    hide Doomed, Written, IsDuplicate, FateText, Titles, DistinctIds;
    DoomedMeansDuplicate(rows, title, order, r.uid);
    WrittenMeansText(rows, title, order, r.uid);
  }

  lemma FateMeansApart(rows: seq<Todo>, title: string -> string, order: seq<string>)
    requires DistinctIds(rows) && Titles(order, rows, title)
    requires forall r :: r in rows ==> Outcome(rows, title, order, r) == Fate(rows, title, r)
    ensures Apart(rows, title)
  {
    hide Doomed, Written, IsDuplicate, FateText, Titles, DistinctIds;
    forall d, r | d in rows && r in rows && IsDuplicate(rows, title, d) && r.uid == d.uid
      ensures IsDuplicate(rows, title, r)
    {
      DoomedMeansDuplicate(rows, title, order, d.uid);
    }
    forall k, r | k in rows && r in rows && FateText(rows, title, k).Some? && r.uid == k.uid
      && !IsDuplicate(rows, title, r)
      ensures Retold(r, FateText(rows, title, r)).description == FateText(rows, title, k)
    {
      KeeperIsNoDuplicate(rows, title, k);
      DoomedMeansDuplicate(rows, title, order, k.uid);
      WrittenMeansText(rows, title, order, k.uid);
      assert Outcome(rows, title, order, k) == Fate(rows, title, k);
      assert Outcome(rows, title, order, r) == Fate(rows, title, r);
    }
  }

  lemma KeeperIsNoDuplicate(rows: seq<Todo>, title: string -> string, k: Todo)
    requires DistinctIds(rows) && FateText(rows, title, k).Some?
    ensures !IsDuplicate(rows, title, k)
  {
    hide Group, Sorted, Key, Writes;
    GroupParts(rows, title, Key(k, title));
  }

  /** Distinct uids are more than enough. */
  lemma DistinctUidsAreApart(rows: seq<Todo>, title: string -> string)
    requires DistinctUids(rows)
    ensures Apart(rows, title)
  {
    hide IsDuplicate;
    forall d, r | d in rows && r in rows && d.uid == r.uid
      ensures d == r
    {
    }
    forall k | k in rows && FateText(rows, title, k).Some?
      ensures Retold(k, FateText(rows, title, k)).description == FateText(rows, title, k)
    {
    }
  }

  // ------------------------------------------------------------- main results

  lemma TrimInside(s: string)
    ensures Contains(s, Trim(s))
  {
    hide Contains, Trim;
    var p, q := TrimParts(s);
    ContainsAround(p, Trim(s), q);
  }

  /** An open titled task that is not deleted was its group's keeper or alone. */
  lemma OnlyTheKeeperStays(rows: seq<Todo>, title: string -> string, order: seq<string>, u: Todo)
    requires DistinctIds(rows) && Titles(order, rows, title)
    requires u in rows && !u.completed && Key(u, title) != ""
    ensures Group(rows, title, Key(u, title)) != []
    ensures !Doomed(rows, title, order, u.uid) ==> u == Sorted(Group(rows, title, Key(u, title)))[0]
  {
    hide Group, Sorted, Key, Doomed, Titles, DistinctIds;
    var items := Group(rows, title, Key(u, title));
    assert u in items;
    GroupParts(rows, title, Key(u, title));
    DoomedMeansDuplicate(rows, title, order, u.uid);
    assert |items| == 1 ==> Sorted(items)[1..] == [];
    assert u in Sorted(items)[1..] ==> IsDuplicate(rows, title, u);
  }

  /** An open titled task that is there afterwards is the one of its title that had the longest
      description before and among those the lowest id. */
  lemma SurvivorIsRichest(rows: seq<Todo>, title: string -> string, order: seq<string>, s: Todo, x: Todo)
    requires DistinctIds(rows) && Titles(order, rows, title)
    requires s in Run(rows, rows, title, order) && !s.completed && Key(s, title) != ""
    requires x in rows && !x.completed && Key(x, title) == Key(s, title)
    ensures exists u :: u in rows && u.id == s.id
              && Utf8.Len(Note(x)) <= Utf8.Len(Note(u))
              && (Utf8.Len(Note(x)) == Utf8.Len(Note(u)) ==> u.id <= x.id)
  {
    hide Run, Outcomes, Group, Sorted, Doomed, Written, Key, Titles, DistinctIds, Utf8.Len, Note;
    RunRowByRow(rows, rows, title, order);
    OutcomesIff(rows, rows, title, order);
    var u :| u in rows && Outcome(rows, title, order, u) == Some(s);
    RetoldKeeps(u, Written(rows, title, order, u.uid), title);
    OnlyTheKeeperStays(rows, title, order, u);
    KeeperIsRichest(Group(rows, title, Key(s, title)));
  }

  /** No two open tasks share a non-empty title afterwards, whatever uids they share. */
  lemma OneTaskPerTitle(rows: seq<Todo>, title: string -> string, order: seq<string>, a: Todo, b: Todo)
    requires DistinctIds(rows) && Titles(order, rows, title)
    requires a in Run(rows, rows, title, order) && b in Run(rows, rows, title, order)
    requires !a.completed && !b.completed && Key(a, title) == Key(b, title) != ""
    ensures a == b
  {
    hide Run, Outcomes, Group, Sorted, Doomed, Written, Key, Titles, DistinctIds;
    RunRowByRow(rows, rows, title, order);
    OutcomesIff(rows, rows, title, order);
    var u :| u in rows && Outcome(rows, title, order, u) == Some(a);
    var v :| v in rows && Outcome(rows, title, order, v) == Some(b);
    RetoldKeeps(u, Written(rows, title, order, u.uid), title);
    RetoldKeeps(v, Written(rows, title, order, v.uid), title);
    OnlyTheKeeperStays(rows, title, order, u);
    OnlyTheKeeperStays(rows, title, order, v);
  }

  lemma RetoldKeeps(t: Todo, text: Option<string>, title: string -> string)
    ensures var r := Retold(t, text);
            r.id == t.id && r.uid == t.uid && r.completed == t.completed && Key(r, title) == Key(t, title)
  {
  }

  /** The text of an open titled task is in an open task of that title afterwards exactly when
      its group's keeper is not deleted under another one's uid and what was written last
      under the keeper's uid still contains it. */
  lemma TextIsKeptIff(rows: seq<Todo>, title: string -> string, order: seq<string>, u: Todo)
    requires DistinctIds(rows) && Titles(order, rows, title)
    requires u in rows && !u.completed && Key(u, title) != ""
    ensures Group(rows, title, Key(u, title)) != []
    ensures var keeper := Sorted(Group(rows, title, Key(u, title)))[0];
            (exists s :: s in Run(rows, rows, title, order)
               && !s.completed && Key(s, title) == Key(u, title) && Contains(Note(s), Trim(Note(u))))
            <==> && !Doomed(rows, title, order, keeper.uid)
                 && Contains(Note(Retold(keeper, Written(rows, title, order, keeper.uid))), Trim(Note(u)))
  {
    hide Run, Outcomes, Group, Sorted, Doomed, Written, Key, Contains, Trim, Titles, DistinctIds;
    OnlyTheKeeperStays(rows, title, order, u);
    RunRowByRow(rows, rows, title, order);
    OutcomesIff(rows, rows, title, order);
    var k := Key(u, title);
    var keeper := Sorted(Group(rows, title, k))[0];
    GroupParts(rows, title, k);
    RetoldKeeps(keeper, Written(rows, title, order, keeper.uid), title);
    forall s | s in Run(rows, rows, title, order) && !s.completed && Key(s, title) == k
      ensures s == Retold(keeper, Written(rows, title, order, keeper.uid)) && !Doomed(rows, title, order, keeper.uid)
    {
      var v :| v in rows && Outcome(rows, title, order, v) == Some(s);
      RetoldKeeps(v, Written(rows, title, order, v.uid), title);
      OnlyTheKeeperStays(rows, title, order, v);
    }
    if !Doomed(rows, title, order, keeper.uid) {
      assert Outcome(rows, title, order, keeper) == Some(Retold(keeper, Written(rows, title, order, keeper.uid)));
    }
  }

  /** So all text is kept where the run does what is meant. */
  lemma TextIsKept(rows: seq<Todo>, title: string -> string, order: seq<string>, u: Todo)
    requires DistinctIds(rows) && Titles(order, rows, title) && Apart(rows, title)
    requires u in rows && !u.completed && Key(u, title) != ""
    ensures exists s ::
      && s in Run(rows, rows, title, order) && !s.completed && Key(s, title) == Key(u, title)
      && Contains(Note(s), Trim(Note(u)))
  {
    hide Run, Group, Sorted, Doomed, Written, Key, Contains, Trim, Titles, DistinctIds, Apart, Folded;
    TextIsKeptIff(rows, title, order, u);
    var items := Group(rows, title, Key(u, title));
    var sorted := Sorted(items);
    var keeper := sorted[0];
    GroupParts(rows, title, Key(u, title));
    ApartMeansFate(rows, title, order, keeper);
    FoldedKeeps(Note(keeper), sorted[1..]);
    var desc := Folded(Note(keeper), sorted[1..]);
    TrimInside(Note(keeper));
    ContainsLonger(Note(keeper), desc[|Note(keeper)|..], Trim(Note(keeper)));
    assert Note(keeper) + desc[|Note(keeper)|..] == desc;
    assert |items| == 1 ==> sorted[1..] == [];
  }

  /** Any task, whether it has duplicates or not, is there unchanged afterwards exactly when no
      duplicate deleted has its uid and no other text was written under it. */
  lemma OthersAreUntouchedIff(rows: seq<Todo>, title: string -> string, order: seq<string>, u: Todo)
    requires DistinctIds(rows) && Titles(order, rows, title) && u in rows
    ensures u in Run(rows, rows, title, order) <==>
      !Doomed(rows, title, order, u.uid) && Retold(u, Written(rows, title, order, u.uid)) == u
  {
    hide Run, Outcomes, Group, Key, Doomed, Written, Titles;
    RunRowByRow(rows, rows, title, order);
    OutcomesIff(rows, rows, title, order);
    if u in Run(rows, rows, title, order) {
      var v :| v in rows && Outcome(rows, title, order, v) == Some(u);
      RetoldKeeps(v, Written(rows, title, order, v.uid), title);
      SameId(rows, u, v);
    }
  }

  lemma {:induction false} OutcomesIds(todos: seq<Todo>, read: seq<Todo>, title: string -> string, order: seq<string>)
    requires DistinctIds(todos)
    ensures DistinctIds(Outcomes(todos, read, title, order))
  {
    hide Outcome, Fate;
    if todos != [] {
      OutcomesIds(todos[1..], read, title, order);
      OutcomeId(read, title, order, todos[0]);
      OutcomeIds(todos[1..], read, title, order);
      var rest := Outcomes(todos[1..], read, title, order);
      forall j | 0 <= j < |rest|
        ensures rest[j].id != todos[0].id
      {
        assert rest[j] in rest;
      }
    }
  }

  lemma {:induction false} NothingToMerge(todos: seq<Todo>, read: seq<Todo>, title: string -> string,
      order: seq<string>)
    requires forall k :: k in order ==> |Group(read, title, k)| < 2
    ensures Run(todos, read, title, order) == todos
    decreases |order|
  {
    hide Group;
    if order != [] {
      assert order[0] in order && forall k :: k in order[1..] ==> k in order;
      NothingToMerge(todos, read, title, order[1..]);
    }
  }

  /** A second run, in any order, deletes and changes nothing. */
  lemma SecondRunDoesNothing(rows: seq<Todo>, title: string -> string, order: seq<string>, again: seq<string>)
    requires DistinctIds(rows) && Titles(order, rows, title)
    requires var after := Run(rows, rows, title, order);
             Titles(again, after, title)
    ensures var after := Run(rows, rows, title, order);
            Run(after, after, title, again) == after
  {
    hide Run, Key, Outcomes;
    var after := Run(rows, rows, title, order);
    RunRowByRow(rows, rows, title, order);
    OutcomesIds(rows, rows, title, order);
    forall k | k in again
      ensures |Group(after, title, k)| < 2
    {
      var g := Group(after, title, k);
      GroupIds(after, title, k);
      if |g| >= 2 {
        assert g[0] in g && g[1] in g;
        assert g[0].id != g[1].id;
        OneTaskPerTitle(rows, title, order, g[0], g[1]);
        assert false;
      }
    }
    NothingToMerge(after, after, title, again);
  }

  /** A task alone with its title is deleted because a duplicate of another title, in another
      calendar, has its uid. */
  lemma LoneTaskIsDeleted(a: Todo, b: Todo, c: Todo, title: string -> string)
    requires !a.completed && !b.completed && !c.completed && c.uid == b.uid
    requires Key(a, title) == Key(b, title) != "" && Key(c, title) !in {"", Key(a, title)}
    requires Utf8.Len(Note(a)) > Utf8.Len(Note(b)) || (Utf8.Len(Note(a)) == Utf8.Len(Note(b)) && a.id <= b.id)
    ensures var rows, order := [a, b, c], [Key(a, title), Key(c, title)];
            Titles(order, rows, title) && Group(rows, title, Key(c, title)) == [c]
            && !HasUid(Run(rows, rows, title, order), c.uid)
  {
    hide Key, Run, Before, Deletes, Group;
    var rows, k, m := [a, b, c], Key(a, title), Key(c, title);
    var order := [k, m];
    ThreeGroups(a, b, c, title, k);
    ThreeGroups(a, b, c, title, m);
    assert Group(rows, title, k) == [a, b] && Group(rows, title, m) == [c];
    assert forall t :: t in rows ==> Key(t, title) == k || Key(t, title) == m;
    TwoSorted(a, b);
    assert order[0] == k && k in order && m == order[1] && m in order;
    UidSurvivesIff(rows, rows, title, order, c.uid);
  }

  lemma ThreeGroups(a: Todo, b: Todo, c: Todo, title: string -> string, x: string)
    ensures Group([a, b, c], title, x)
         == Opened(a, title, x) + Opened(b, title, x) + Opened(c, title, x)
  {
    hide Key, Group;
    GroupNone(title, x);
    GroupSnoc([], a, title, x);
    GroupSnoc([a], b, title, x);
    GroupSnoc([a, b], c, title, x);
    assert [] + [a] == [a] && [a] + [b] == [a, b] && [a, b] + [c] == [a, b, c];
    assert [] + Opened(a, title, x) == Opened(a, title, x);
  }

  function Opened(t: Todo, title: string -> string, k: string): seq<Todo> {
    if !t.completed && Key(t, title) == k then [t] else []
  }

  lemma TwoSorted(a: Todo, b: Todo)
    requires Utf8.Len(Note(a)) > Utf8.Len(Note(b)) || (Utf8.Len(Note(a)) == Utf8.Len(Note(b)) && a.id <= b.id)
    ensures Sorted([a, b]) == [a, b] && Deletes([a, b], b.uid)
  {
    hide Utf8.Len, Note;
    assert [a, b][1..] == [b] && [b][1..] == [];
    assert Sorted([b]) == [b];
    assert Sorted([a, b]) == Insert(a, [b]) == [a, b];
    assert b in Sorted([a, b])[1..];
  }

  /** Two tasks of two calendars with one uid and one title: both are deleted. */
  lemma SharedUidLosesBoth(a: Todo, b: Todo, title: string -> string)
    requires a.uid == b.uid && !a.completed && !b.completed && Key(a, title) == Key(b, title) != ""
    ensures Run([a, b], [a, b], title, [Key(a, title)]) == []
  {
    hide Key, Merged, Group;
    var rows := [a, b];
    var k := Key(a, title);
    var items := Group(rows, title, k);
    GroupSnoc([a], b, title, k);
    GroupSnoc([], a, title, k);
    GroupNone(title, k);
    assert [a] + [b] == rows && [] + [a] == [a];
    assert items == rows;
    SharedMerge(rows, items, a.uid);
    assert [k][1..] == [];
  }

  lemma SharedMerge(todos: seq<Todo>, items: seq<Todo>, uid: string)
    requires |items| == 2 && forall t :: t in items || t in todos ==> t.uid == uid
    ensures Merged(todos, items) == []
  {
    hide Sorted, Folded;
    var sorted := Sorted(items);
    assert sorted[1] in sorted;
    var dups := sorted[1..];
    assert dups[0] == sorted[1] && dups[1..] == [];
    AllGone(todos, uid);
    assert Deleted(todos, dups) == [];
  }

  lemma {:induction false} AllGone(todos: seq<Todo>, uid: string)
    requires forall t :: t in todos ==> t.uid == uid
    ensures WithoutUid(todos, uid) == []
  {
    if todos != [] {
      assert todos[0] in todos;
      AllGone(todos[1..], uid);
    }
  }

  // ------------------------------------------------------------------- method

  method Grouped(rows: seq<Todo>, title: string -> string) returns (groups: map<string, seq<Todo>>)
    ensures forall k :: k in groups <==> k != "" && Group(rows, title, k) != []
    ensures forall k :: k in groups ==> groups[k] == Group(rows, title, k)
  {
    hide Key, Group;
    groups := map[];
    forall k ensures Group(rows[..0], title, k) == [] { GroupNone(title, k); }
    for i := 0 to |rows|
      invariant forall k :: k in groups <==> k != "" && Group(rows[..i], title, k) != []
      invariant forall k :: k in groups ==> groups[k] == Group(rows[..i], title, k)
    {
      var r := rows[i];
      forall k
        ensures Group(rows[..i + 1], title, k)
             == Group(rows[..i], title, k) + if !r.completed && Key(r, title) == k then [r] else []
      {
        GroupSnoc(rows[..i], r, title, k);
        assert rows[..i + 1] == rows[..i] + [r];
      }
      if r.completed {
        continue;
      }
      var key := Key(r, title);
      if key == "" {
        continue;
      }
      groups := groups[key := (if key in groups then groups[key] else []) + [r]];
    }
    assert rows[..|rows|] == rows;
  }

  lemma GroupNone(title: string -> string, k: string)
    ensures Group([], title, k) == []
  {
  }

  lemma GroupStep(rows: seq<Todo>, title: string -> string, k: string)
    requires rows != []
    ensures Group(rows, title, k)
         == (if !rows[0].completed && Key(rows[0], title) == k then [rows[0]] else []) + Group(rows[1..], title, k)
  {
    hide Key;
  }

  lemma Regrouped(a: seq<Todo>, b: seq<Todo>, c: seq<Todo>)
    ensures a + (b + c) == (a + b) + c
  {
  }

  lemma {:induction false} GroupSnoc(rows: seq<Todo>, r: Todo, title: string -> string, k: string)
    ensures Group(rows + [r], title, k)
         == Group(rows, title, k) + if !r.completed && Key(r, title) == k then [r] else []
  {
    hide Key, Group;
    var last := if !r.completed && Key(r, title) == k then [r] else [];
    GroupStep(rows + [r], title, k);
    GroupNone(title, k);
    if rows == [] {
      assert rows + [r] == [r] && [r][1..] == [];
      assert last + [] == last && [] + last == last;
    } else {
      assert (rows + [r])[1..] == rows[1..] + [r] && (rows + [r])[0] == rows[0];
      GroupStep(rows, title, k);
      GroupSnoc(rows[1..], r, title, k);
      Regrouped(if !rows[0].completed && Key(rows[0], title) == k then [rows[0]] else [],
                Group(rows[1..], title, k), last);
    }
  }

  /** One group: fold, delete, write the survivor. */
  method Merge(store: Store, items: seq<Todo>) returns (folded: nat)
    requires |items| >= 2
    modifies store`todos
    ensures store.todos == Merged(old(store.todos), items)
    ensures folded == FoldCount(Note(Sorted(items)[0]), Sorted(items)[1..])
  {
    hide Joined, Sorted, WithoutUid, Described;
    var sorted := Sorted(items);
    var keeper, dups := sorted[0], sorted[1..];
    var desc := Note(keeper);
    folded := 0;
    for i := 0 to |dups|
      invariant Folded(Note(keeper), dups) == Folded(desc, dups[i..])
      invariant FoldCount(Note(keeper), dups) == folded + FoldCount(desc, dups[i..])
      invariant Deleted(old(store.todos), dups) == Deleted(store.todos, dups[i..])
      invariant |desc| >= |Note(keeper)| && (folded > 0 <==> |desc| > |Note(keeper)|)
      invariant folded == 0 ==> desc == Note(keeper)
    {
      var dup := dups[i];
      assert dups[i..][1..] == dups[i + 1..];
      JoinedKeeps(desc, dup);
      var next := Joined(desc, dup);
      if next != desc {
        folded := folded + 1;
      }
      desc := next;
      ghost var before := store.todos;
      store.Delete(dup.uid);
      WholeTable(before, dup.uid);
    }
    assert dups[|dups|..] == [];
    if folded > 0 {
      ghost var before := store.todos;
      store.SetDescription(keeper.uid, desc);
      assert store.todos == Described(before, keeper.uid, desc);
    }
  }

  lemma WholeTable(todos: seq<Todo>, uid: string)
    ensures WithoutUid(todos[..0], uid) + WithoutUid(todos[0..], uid) == WithoutUid(todos, uid)
  {
    assert todos[..0] == [] && todos[0..] == todos;
  }

  /** `dedupe_todos`. The groups come in an arbitrary order, returned for the record. */
  method Dedupe(store: Store, title: string -> string) returns (report: Report, order: seq<string>)
    modifies store`todos
    ensures Titles(order, old(store.todos), title)
    ensures store.todos == Run(old(store.todos), old(store.todos), title, order)
    ensures report == Counted(old(store.todos), title, order)
  {
    hide Merged, Key, Group, Run, Sorted, Counted, FoldCount, Folded, Note;
    var rows := store.todos;
    var groups := Grouped(rows, title);
    report, order := Report(0, 0, 0, 0), [];
    RunNone(rows, rows, title);
    CountedNone(rows, title);
    var left := groups.Keys;
    while left != {}
      invariant left <= groups.Keys
      invariant forall k :: k in groups ==> (k in order <==> k !in left)
      invariant forall k :: k in order ==> k in groups
      invariant forall i, j :: 0 <= i < j < |order| ==> order[i] != order[j]
      invariant store.todos == Run(rows, rows, title, order)
      invariant report == Counted(rows, title, order)
      decreases |left|
    {
      var k :| k in left;
      left := left - {k};
      var items := groups[k];
      RunSnoc(rows, rows, title, order, k);
      CountedSnoc(rows, title, order, k);
      order := order + [k];
      if |items| < 2 {
        continue;
      }
      var folded := Merge(store, items);
      report := Report(report.groups + 1, report.kept + 1, report.merged + folded, report.deleted + |items| - 1);
    }
    forall t | t in rows && !t.completed && Key(t, title) != ""
      ensures Key(t, title) in order
    {
      assert t in Group(rows, title, Key(t, title));
    }
  }

  lemma CountedNone(read: seq<Todo>, title: string -> string)
    ensures Counted(read, title, []) == Report(0, 0, 0, 0)
  {
  }

  lemma CountedSnoc(read: seq<Todo>, title: string -> string, order: seq<string>, k: string)
    ensures var items, c := Group(read, title, k), Counted(read, title, order);
            Counted(read, title, order + [k])
            == if |items| < 2 then c
               else Report(c.groups + 1, c.kept + 1, c.merged + FoldCount(Note(Sorted(items)[0]), Sorted(items)[1..]),
                           c.deleted + |items| - 1)
  {
    hide Group, Sorted, FoldCount;
    assert (order + [k])[..|order|] == order;
  }

  lemma RunNone(todos: seq<Todo>, read: seq<Todo>, title: string -> string)
    ensures Run(todos, read, title, []) == todos
  {
  }

  lemma {:induction false} RunSnoc(todos: seq<Todo>, read: seq<Todo>, title: string -> string,
      order: seq<string>, k: string)
    ensures var items := Group(read, title, k);
            var before := Run(todos, read, title, order);
            Run(todos, read, title, order + [k]) == if |items| >= 2 then Merged(before, items) else before
    decreases |order|
  {
    hide Merged, Group;
    if order == [] {
      assert order + [k] == [k] && [k][1..] == [];
    } else {
      assert (order + [k])[1..] == order[1..] + [k];
      var items := Group(read, title, order[0]);
      RunSnoc(if |items| >= 2 then Merged(todos, items) else todos, read, title, order[1..], k);
    }
  }
}
