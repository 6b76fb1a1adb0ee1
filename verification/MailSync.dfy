/** What the sync writes into the index and the archive, and when that turns the check before a
    hard delete against a mail. */
module MailSync {
  import opened Text
  import opened MailMove
  import opened MoveRuns

  // ------------------------------------------------------------ caching a mail

  /** `save_message`: a row of that number takes the new Message-ID and keeps its file. */
  function Cached(rows: seq<Row>, folder: string, uid: nat, mid: string): seq<Row> {
    var i := IndexOf(rows, folder, None, uid);
    if i < |rows| then rows[i := rows[i].(mid := Some(mid))] else rows + [Row(folder, uid, Some(mid), None, None)]
  }

  /** The number is held by a row with another mail's file. */
  predicate TakesOver(rows: seq<Row>, folder: string, uid: nat, mid: string) {
    var i := IndexOf(rows, folder, None, uid);
    Trim(mid) != "" && i < |rows| && rows[i].eml.Some? && rows[i].eml.value.key != Some(mid)
  }

  lemma CachedKeyedIff(rows: seq<Row>, folder: string, uid: nat, mid: string)
    requires Keyed(rows)
    ensures Keyed(Cached(rows, folder, uid, mid)) <==> !TakesOver(rows, folder, uid, mid)
  {
    hide Trim;
    var i := IndexOf(rows, folder, None, uid);
    var out := Cached(rows, folder, uid, mid);
    if i < |rows| {
      assert out[i] in out;
      forall r | r in out && r != out[i]
        ensures r in rows
      {
      }
    }
  }

  /** Caching a mail keeps the guarantee of the moves exactly when its number is not held by a
      row that names another mail's file. */
  lemma CachingIsSafeIff(s: State, w: World, folder: string, uid: nat, mid: string)
    requires Safe(s, w)
    ensures var t := Sync(Cached(s.local.rows, folder, uid, mid));
            Safe(Next(s, w, t), w) <==> !TakesOver(s.local.rows, folder, uid, mid)
  {
    hide Cached, TakesOver, Keyed, NoneLost, Genuine, Justified, JobOk;
    StepSafe(s, w, Sync(Cached(s.local.rows, folder, uid, mid)));
    CachedKeyedIff(s.local.rows, folder, uid, mid);
  }

  // ------------------------------------------------------------- filing a text

  /** `msg_slug`: a file is named by a Message-ID that is not blank. */
  function NameKey(mid: Option<string>): Option<string> {
    if mid.Some? && Trim(mid.value) != "" then mid else None
  }

  /** The rows an update by number reaches, in one folder or in all. */
  predicate Touches(r: Row, folder: Option<string>, uid: nat) {
    r.uid == uid && (folder.Some? ==> r.folder == folder.value)
  }

  function Attached(rows: seq<Row>, folder: Option<string>, path: Path, raw: string): (out: seq<Row>)
    ensures |out| == |rows|
    ensures forall i :: 0 <= i < |rows| ==>
      out[i] == if Touches(rows[i], folder, path.uid) then rows[i].(eml := Some(path), sha := Some(raw)) else rows[i]
  {
    if rows == [] then []
    else
      [if Touches(rows[0], folder, path.uid) then rows[0].(eml := Some(path), sha := Some(raw)) else rows[0]]
      + Attached(rows[1..], folder, path, raw)
  }

  /** All rows reached that have a Message-ID have the file's. */
  predicate ReachesItsOwn(rows: seq<Row>, folder: Option<string>, path: Path) {
    forall r :: r in rows && Touches(r, folder, path.uid) && Named(r) ==> r.mid == path.key
  }

  lemma AttachedKeyedIff(rows: seq<Row>, folder: Option<string>, path: Path, raw: string)
    requires Keyed(rows)
    ensures Keyed(Attached(rows, folder, path, raw)) <==> ReachesItsOwn(rows, folder, path)
  {
    hide Named, Attached, Touches;
    var out := Attached(rows, folder, path, raw);
    assert forall i :: 0 <= i < |rows| ==> (Named(out[i]) <==> Named(rows[i])) by {
      AttachedNamed(rows, folder, path, raw);
    }
    if Keyed(out) {
      forall r | r in rows && Touches(r, folder, path.uid) && Named(r)
        ensures r.mid == path.key
      {
        var i :| 0 <= i < |rows| && rows[i] == r;
        assert out[i] in out;
      }
    }
    if ReachesItsOwn(rows, folder, path) {
      forall r | r in out && Named(r) && r.eml.Some?
        ensures r.eml.value.key == r.mid
      {
        var i :| 0 <= i < |out| && out[i] == r;
        assert rows[i] in rows;
      }
    }
  }

  lemma AttachedNamed(rows: seq<Row>, folder: Option<string>, path: Path, raw: string)
    ensures forall i :: 0 <= i < |rows| ==> (Named(Attached(rows, folder, path, raw)[i]) <==> Named(rows[i]))
  {
    hide Trim, Attached;
  }

  /** `write_eml` and the update of the rows. */
  function Filing(l: Local, folder: Option<string>, path: Path, raw: string): seq<Step> {
    [Archive(path, raw), Sync(Attached(l.rows, folder, path, raw))]
  }

  lemma FilingRuns(s: State, w: World, folder: Option<string>, path: Path, raw: string)
    ensures var ts, l := Filing(s.local, folder, path, raw), s.local;
            var l' := l.(files := l.files[path := raw], rows := Attached(l.rows, folder, path, raw));
            && Runs(s, w, ts) && End(s, w, ts) == s.(local := l')
            && ts[1..][1..] == []
  {
    hide Attached;
    var ts := Filing(s.local, folder, path, raw);
    var s1 := Next(s, w, ts[0]);
    assert ts[1..] == [ts[1]] && ts[1..][1..] == [];
    assert Enabled(s, w, ts[0]) && Enabled(s1, w, ts[1]);
    assert Runs(Next(s1, w, ts[1]), w, []) && Runs(s1, w, ts[1..]);
    assert End(s1, w, ts[1..]) == Next(s1, w, ts[1]);
  }

  /** Filing a text keeps the guarantee exactly when it is the text of the mail the file is
      named by, and every row it is written into is that mail's. */
  lemma FilingIsSafeIff(s: State, w: World, folder: Option<string>, path: Path, raw: string)
    requires Safe(s, w)
    ensures var ts := Filing(s.local, folder, path, raw);
            Runs(s, w, ts) &&
            (AlwaysSafe(s, w, ts) <==>
             (path.key.Some? ==> raw == w.text(path.key.value)) && ReachesItsOwn(s.local.rows, folder, path))
  {
    hide Attached, Safe, Keyed, ReachesItsOwn, Enabled, Runs, AlwaysSafe;
    var ts := Filing(s.local, folder, path, raw);
    FilingRuns(s, w, folder, path, raw);
    NoMailIsLost(s, w, ts);
    CarefulTwo(s, w, ts);
    RowsAreKeyed(s, w);
    AttachedKeyedIff(s.local.rows, folder, path, raw);
  }

  lemma RowsAreKeyed(s: State, w: World)
    requires Safe(s, w)
    ensures Keyed(s.local.rows)
  {
  }

  lemma CarefulTwo(s: State, w: World, ts: seq<Step>)
    requires Runs(s, w, ts) && |ts| == 2 && ts[0].Archive? && ts[1].Sync?
    ensures Careful(s, w, ts) <==> !SyncMisleads(w, ts[0]) && !SyncMisleads(w, ts[1])
  {
    hide Next, SyncMisleads;
    var s1 := Next(s, w, ts[0]);
    assert ts[1..][0] == ts[1] && ts[1..][1..] == [];
    assert Careful(Next(s1, w, ts[1]), w, []);
    assert Careful(s1, w, ts[1..]) <==> !SyncMisleads(w, ts[1]);
  }

  // ---------------------------------------------------------------- backfill

  /** The Message-ID of the first row of that number, in whatever folder. */
  function FirstMid(rows: seq<Row>, uid: nat): Option<string> {
    if rows == [] then None else if rows[0].uid == uid then rows[0].mid else FirstMid(rows[1..], uid)
  }

  /** `BackfillEmails` for one mail: what the provider has in the slot is filed under the
      Message-ID of some row of that number and written into all rows of that number. */
  function Backfill(s: State, w: World, slot: Slot): seq<Step>
    requires slot in s.provider
  {
    Filing(s.local, None, BackfillPath(s.local.rows, slot.uid), w.text(s.provider[slot]))
  }

  function BackfillPath(rows: seq<Row>, uid: nat): Path {
    Path(uid, NameKey(FirstMid(rows, uid)), "")
  }

  /** Every mail has its own text. */
  ghost predicate OwnTexts(w: World) {
    forall a, b :: w.text(a) == w.text(b) ==> a == b
  }

  /** A backfill keeps the guarantee exactly when the text is the one of the mail the file is
      named by and all rows of the number are that mail's. Where every mail has its own text and
      the first row of the number has a Message-ID: exactly when all rows of the number, in
      whatever folder, are the fetched mail's. */
  lemma BackfillIsSafeIff(s: State, w: World, slot: Slot)
    requires Safe(s, w) && slot in s.provider
    ensures Runs(s, w, Backfill(s, w, slot))
    ensures var path := BackfillPath(s.local.rows, slot.uid);
            AlwaysSafe(s, w, Backfill(s, w, slot)) <==>
            && (path.key.Some? ==> w.text(s.provider[slot]) == w.text(path.key.value))
            && ReachesItsOwn(s.local.rows, None, path)
    ensures OwnTexts(w) && NameKey(FirstMid(s.local.rows, slot.uid)).Some? ==>
              (AlwaysSafe(s, w, Backfill(s, w, slot)) <==>
               forall r :: r in s.local.rows && r.uid == slot.uid && Named(r) ==> r.mid == Some(s.provider[slot]))
  {
    hide Safe, Runs, AlwaysSafe, Filing, Trim;
    var rows := s.local.rows;
    var path := BackfillPath(rows, slot.uid);
    FilingIsSafeIff(s, w, None, path, w.text(s.provider[slot]));
    if path.key.Some? {
      var r := FirstRow(rows, slot.uid);
      assert Touches(r, None, slot.uid) && Named(r) && r.mid == path.key;
    }
  }

  lemma FirstRow(rows: seq<Row>, uid: nat) returns (r: Row)
    requires FirstMid(rows, uid).Some?
    ensures r in rows && r.uid == uid && r.mid == FirstMid(rows, uid)
  {
    if rows[0].uid == uid {
      r := rows[0];
    } else {
      r := FirstRow(rows[1..], uid);
    }
  }

  // ----------------------------------------------------- how a mail gets lost

  /** The mail is neither on the provider nor is its text in any file. */
  ghost predicate Gone(s: State, w: World, key: string) {
    && key in s.arrived && !Present(s.provider, key)
    && forall p :: p in s.local.files ==> s.local.files[p] != w.text(key)
  }

  /** A move whose check passes, and the worker after it. */
  lemma VerifiedMoveDeletes(s: State, w: World, q: Request, key: string, rows: seq<Row>, slot: Slot)
    returns (ts: seq<Step>)
    requires KeyOf(s.local.rows, q.source, q.uid) == Some(key) && q.source != TRASH
    requires var l0 := WithFolder(s.local, q.target, w.archiveMode);
             Rehomed(l0, q) == Some(rows) && Verified(l0.(rows := rows), q, Some(key))
    requires slot in s.provider && slot.folder == q.source && s.provider[slot] == key
    ensures Runs(s, w, ts)
    ensures End(s, w, ts).provider == s.provider - {slot} && End(s, w, ts).arrived == s.arrived
    ensures End(s, w, ts).local.files == s.local.files
  {
    hide KeyOf, Rehomed, Verified, Runs, End;
    ts := RequestRuns(s, w, q, rows, false, false);
    var e := End(s, w, ts);
    assert e.local.ops == s.local.ops + [DeleteMid(q.source, key)];
    var t := WorkerDelete(|s.local.ops|, slot);
    RunsSnoc(s, w, ts, t);
    ts := ts + [t];
  }

  lemma {:induction false} RunsConcat(s: State, w: World, a: seq<Step>, b: seq<Step>)
    requires Runs(s, w, a) && Runs(End(s, w, a), w, b)
    ensures Runs(s, w, a + b) && End(s, w, a + b) == End(End(s, w, a), w, b)
    decreases |a|
  {
    hide Next, Enabled;
    if a == [] {
      assert a + b == b;
    } else {
      assert (a + b)[1..] == a[1..] + b;
      RunsConcat(Next(s, w, a[0]), w, a[1..], b);
    }
  }

  /** The deletion of the only copy of a mail without a file. */
  lemma OnlyCopyGone(s: State, e: State, w: World, key: string, slot: Slot)
    requires key in s.arrived && slot in s.provider
    requires forall x :: x in s.provider && s.provider[x] == key ==> x == slot
    requires forall p :: p in s.local.files ==> s.local.files[p] != w.text(key)
    requires e.provider == s.provider - {slot} && e.arrived == s.arrived && e.local.files == s.local.files
    ensures Gone(e, w, key) && !NoneLost(e, w)
  {
    assert !Present(e.provider, key);
    assert !Archived(e.local.files, w, key);
  }

  /** A mail archived in one folder and another one on the provider, under one number. */
  function Collision(a: string, b: string, source: string, middle: string, path: Path, raw: string): State {
    State(Local(map[source := false, middle := false], [Row(source, 5, Some(a), Some(path), Some(raw))],
                map[path := raw], []),
          map[Slot(source, 5) := a, Slot(middle, 5) := b], [], {a, b})
  }

  lemma CollisionIsSafe(w: World, a: string, b: string, source: string, middle: string, path: Path)
    requires path.key == Some(a) && source != middle
    ensures Safe(Collision(a, b, source, middle, path, w.text(a)), w)
  {
    hide Trim;
    var s := Collision(a, b, source, middle, path, w.text(a));
    ArrivedIsPresent(s.provider, Slot(source, 5));
    ArrivedIsPresent(s.provider, Slot(middle, 5));
  }

  /** The archived mail moves on the provider, and the sync caches the other one, whose number
      its row has, onto that row. */
  lemma CollisionRuns(w: World, a: string, b: string, source: string, middle: string, path: Path)
    requires path.key == Some(a) && source != middle && Trim(a) != ""
    ensures var s := Collision(a, b, source, middle, path, w.text(a));
            var q := Request(5, source, middle);
            var moved := [Row(middle, 5, Some(a), Some(path), Some(w.text(a)))];
            var ts := [ToProvider(q), Sync(Cached(moved, middle, 5, b))];
            && Runs(s, w, ts)
            && End(s, w, ts) == s.(local := s.local.(
                 rows := [Row(middle, 5, Some(b), Some(path), Some(w.text(a)))], ops := [MoveMid(source, middle, a)]))
  {
    hide Trim, Rehomed, KeyOf, IndexOf;
    var s := Collision(a, b, source, middle, path, w.text(a));
    var q := Request(5, source, middle);
    FirstRowMoves(s.local, q);
    var moved := [Row(middle, 5, Some(a), Some(path), Some(w.text(a)))];
    assert s.local.rows[0 := s.local.rows[0].(folder := middle)] == moved;
    OnlyRowIsFirst(moved, middle, 5);
    var cached := [Row(middle, 5, Some(b), Some(path), Some(w.text(a)))];
    assert Cached(moved, middle, 5, b) == cached;
    var ts := [ToProvider(q), Sync(cached)];
    var s1 := Next(s, w, ts[0]);
    assert s1.local.ops == [] + [MoveMid(source, middle, a)] == [MoveMid(source, middle, a)];
    assert ts[1..] == [ts[1]] && ts[1..][1..] == [];
    NoSteps(Next(s1, w, ts[1]), w);
    assert Enabled(s, w, ts[0]) && Enabled(s1, w, ts[1]);
    assert Runs(s1, w, ts[1..]) && End(s1, w, ts[1..]) == Next(s1, w, ts[1]);
  }

  lemma OnlyRowIsFirst(rows: seq<Row>, folder: string, uid: nat)
    requires |rows| == 1 && rows[0].folder == folder && rows[0].uid == uid
    ensures IndexOf(rows, folder, None, uid) == 0
  {
    assert Matches(rows[0], folder, None, uid);
  }

  /** Without any fetch, whatever the check: the second mail is moved to a folder kept here, the
      first one's file passes for its own, and it is gone. */
  lemma CachedRowLosesAMail(w: World, a: string, b: string, source: string, middle: string, target: string,
      month: string)
    returns (s: State, ts: seq<Step>)
    requires Trim(a) != "" && Trim(b) != "" && w.text(a) != w.text(b)
    requires source != middle && middle != target && middle != TRASH
    ensures Safe(s, w) && Runs(s, w, ts) && Gone(End(s, w, ts), w, b) && !NoneLost(End(s, w, ts), w)
  {
    hide Trim, Rehomed, KeyOf, IndexOf, Runs, End, Safe, Gone, NoneLost;
    var path := Path(5, Some(a), month);
    s := Collision(a, b, source, middle, path, w.text(a));
    CollisionIsSafe(w, a, b, source, middle, path);
    CollisionRuns(w, a, b, source, middle, path);
    var first := [ToProvider(Request(5, source, middle)),
                  Sync(Cached([Row(middle, 5, Some(a), Some(path), Some(w.text(a)))], middle, 5, b))];
    var e := End(s, w, first);
    var q := Request(5, middle, target);
    FirstRowMoves(WithFolder(e.local, target, w.archiveMode), q);
    var rows := e.local.rows[0 := e.local.rows[0].(folder := target)];
    var more := VerifiedMoveDeletes(e, w, q, b, rows, Slot(middle, 5));
    OnlyCopyGone(e, End(e, w, more), w, b, Slot(middle, 5));
    RunsConcat(s, w, first, more);
    ts := first + more;
  }

  /** Two mails of one number in two folders, neither archived. */
  function Twins(a: string, b: string, one: string, two: string): State {
    State(Local(map[one := false, two := false],
                [Row(one, 5, Some(a), None, None), Row(two, 5, Some(b), None, None)], map[], []),
          map[Slot(one, 5) := a, Slot(two, 5) := b], [], {a, b})
  }

  lemma TwinsAreSafe(w: World, a: string, b: string, one: string, two: string)
    requires one != two
    ensures Safe(Twins(a, b, one, two), w)
  {
    hide Trim;
    var s := Twins(a, b, one, two);
    ArrivedIsPresent(s.provider, Slot(one, 5));
    ArrivedIsPresent(s.provider, Slot(two, 5));
  }

  /** Both are backfilled, one after the other: both rows name one file, of the second mail. */
  lemma TwinsRun(w: World, a: string, b: string, one: string, two: string) returns (ts: seq<Step>)
    requires one != two && Trim(a) != ""
    ensures var s, path, raw := Twins(a, b, one, two), Path(5, Some(a), ""), w.text(b);
            && Runs(s, w, ts)
            && End(s, w, ts) == s.(local := s.local.(
                 files := map[path := raw],
                 rows := [Row(one, 5, Some(a), Some(path), Some(raw)), Row(two, 5, Some(b), Some(path), Some(raw))]))
  {
    hide Trim, Runs, End, Attached, Filing;
    var s, path := Twins(a, b, one, two), Path(5, Some(a), "");
    var first := Backfill(s, w, Slot(one, 5));
    FilingRuns(s, w, None, path, w.text(a));
    var e := End(s, w, first);
    var second := Backfill(e, w, Slot(two, 5));
    FilingRuns(e, w, None, path, w.text(b));
    RunsConcat(s, w, first, second);
    ts := first + second;
    var raw := w.text(b);
    assert End(s, w, ts).local.rows
        == [Row(one, 5, Some(a), Some(path), Some(raw)), Row(two, 5, Some(b), Some(path), Some(raw))];
    assert End(s, w, ts).local.files == map[path := raw];
  }

  /** Then the first one is moved to a folder kept here and is gone, without any fetch by the
      move and whatever its check. */
  lemma BackfillLosesAMail(w: World, a: string, b: string, one: string, two: string, target: string)
    returns (s: State, ts: seq<Step>)
    requires Trim(a) != "" && w.text(a) != w.text(b)
    requires one != two && target != one && target != two && one != TRASH
    ensures Safe(s, w) && Runs(s, w, ts) && Gone(End(s, w, ts), w, a) && !NoneLost(End(s, w, ts), w)
  {
    hide Trim, Rehomed, KeyOf, IndexOf, Runs, End, Safe, Gone, NoneLost;
    s := Twins(a, b, one, two);
    TwinsAreSafe(w, a, b, one, two);
    var first := TwinsRun(w, a, b, one, two);
    var e := End(s, w, first);
    var q := Request(5, one, target);
    FirstRowMoves(WithFolder(e.local, target, w.archiveMode), q);
    var rows := e.local.rows[0 := e.local.rows[0].(folder := target)];
    var more := VerifiedMoveDeletes(e, w, q, a, rows, Slot(one, 5));
    OnlyCopyGone(e, End(e, w, more), w, a, Slot(one, 5));
    RunsConcat(s, w, first, more);
    ts := first + more;
  }
}
