/** Moving mail: the local index moves first, the provider copy follows through a queue, and
    it is deleted for good only when an archived copy was verified. One account. */
module MailMove {
  import opened Text

  /** An archive file: number, Message-ID (None: named by the number) and month. */
  datatype Path = Path(uid: nat, key: Option<string>, month: string)

  datatype Row = Row(folder: string, uid: nat, mid: Option<string>, eml: Option<Path>, sha: Option<string>)

  /** Work queued for the provider, by Message-ID or by number. */
  datatype Op =
    | DeleteMid(folder: string, key: string)
    | MoveMid(folder: string, target: string, key: string)
    | Delete(folder: string, uid: nat)
    | Move(folder: string, target: string, uid: nat)

  /** Relay's own state: folders (true: kept only here), index, archive and queue. */
  datatype Local = Local(folders: map<string, bool>, rows: seq<Row>, files: map<Path, string>, ops: seq<Op>)

  datatype Request = Request(uid: nat, source: string, target: string)

  const TRASH: string := "Trash"
  const SHIFT: nat := 100000
  const SHIFTS: nat := 100

  // -------------------------------------------------------------------- index

  /** A row of this folder, by Message-ID if one is given, else by number. */
  predicate Matches(r: Row, folder: string, key: Option<string>, uid: nat) {
    r.folder == folder && if key.Some? then r.mid == key else r.uid == uid
  }

  /** The first matching row, or the number of rows. */
  function IndexOf(rows: seq<Row>, folder: string, key: Option<string>, uid: nat): (i: nat)
    ensures i <= |rows| && (i < |rows| ==> Matches(rows[i], folder, key, uid))
    ensures forall j :: 0 <= j < i ==> !Matches(rows[j], folder, key, uid)
  {
    if rows == [] || Matches(rows[0], folder, key, uid) then 0
    else 1 + IndexOf(rows[1..], folder, key, uid)
  }

  predicate Has(rows: seq<Row>, folder: string, key: Option<string>, uid: nat) {
    IndexOf(rows, folder, key, uid) < |rows|
  }

  /** `kopf_von`: the row's Message-ID, if it has a non-blank one. */
  function KeyOf(rows: seq<Row>, folder: string, uid: nat): Option<string> {
    var i := IndexOf(rows, folder, None, uid);
    if i < |rows| && rows[i].mid.Some? && Trim(rows[i].mid.value) != "" then rows[i].mid else None
  }

  /** The first free number for `uid` in the folder, from shift `i` on. */
  function FreeFrom(rows: seq<Row>, folder: string, uid: nat, i: nat): (r: Option<nat>)
    requires i <= SHIFTS + 1
    ensures r.Some? ==> !Has(rows, folder, None, r.value)
    decreases SHIFTS + 1 - i
  {
    if i > SHIFTS then None
    else if !Has(rows, folder, None, uid + SHIFT * i) then Some(uid + SHIFT * i)
    else FreeFrom(rows, folder, uid, i + 1)
  }

  function Without(rows: seq<Row>, i: nat): seq<Row>
    requires i < |rows|
  {
    rows[..i] + rows[i + 1..]
  }

  function WithFolder(l: Local, folder: string, archiveMode: bool): Local {
    if folder in l.folders then l else l.(folders := l.folders[folder := archiveMode])
  }

  /** The index after moving one row; None where no number is free. */
  function Rehomed(l: Local, q: Request): Option<seq<Row>> {
    var i := IndexOf(l.rows, q.source, None, q.uid);
    if q.source !in l.folders || i == |l.rows| then Some(l.rows)
    else
      var row := l.rows[i];
      if row.mid.Some? && Has(l.rows, q.target, row.mid, 0) then Some(Without(l.rows, i))
      else match FreeFrom(l.rows, q.target, q.uid, 0)
        case None => None
        case Some(n) => Some(l.rows[i := row.(folder := q.target, uid := n)])
  }

  /** `UNIQUE(account_id, folder_id, uid)`. */
  predicate Unique(rows: seq<Row>) {
    forall i, j :: 0 <= i < j < |rows| ==> rows[i].folder != rows[j].folder || rows[i].uid != rows[j].uid
  }

  lemma WithoutKeeps(rows: seq<Row>, i: nat)
    requires i < |rows| && Unique(rows)
    ensures Unique(Without(rows, i))
    ensures forall r :: r in rows && r != rows[i] ==> r in Without(rows, i)
    ensures forall r :: r in Without(rows, i) ==> r in rows && r != rows[i]
  {
    var w := Without(rows, i);
    assert forall j :: 0 <= j < |w| ==> w[j] == rows[if j < i then j else j + 1];
    forall r | r in rows && r != rows[i]
      ensures r in w
    {
      var j :| 0 <= j < |rows| && rows[j] == r;
      assert w[if j < i then j else j - 1] == r;
    }
  }

  lemma ReplaceKeeps(rows: seq<Row>, i: nat, row: Row)
    requires i < |rows| && Unique(rows) && !Has(rows, row.folder, None, row.uid)
    ensures Unique(rows[i := row])
    ensures forall r :: r in rows && r != rows[i] ==> r in rows[i := row]
  {
    assert forall j :: 0 <= j < |rows| ==> !Matches(rows[j], row.folder, None, row.uid);
    forall r | r in rows && r != rows[i]
      ensures r in rows[i := row]
    {
      var j :| 0 <= j < |rows| && rows[j] == r;
      assert rows[i := row][j] == r;
    }
  }

  /** The index keeps its key and every other row. */
  lemma RehomedKeepsOthers(l: Local, q: Request)
    requires Unique(l.rows) && Rehomed(l, q).Some?
    ensures var rows := Rehomed(l, q).value;
            && Unique(rows)
            && forall r :: r in l.rows && !(r.folder == q.source && r.uid == q.uid) ==> r in rows
  {
    hide FreeFrom, Has, Unique, Without;
    var i := IndexOf(l.rows, q.source, None, q.uid);
    if i < |l.rows| && q.source in l.folders {
      var row := l.rows[i];
      WithoutKeeps(l.rows, i);
      match FreeFrom(l.rows, q.target, q.uid, 0)
      case None =>
      case Some(n) => ReplaceKeeps(l.rows, i, row.(folder := q.target, uid := n));
    }
  }

  /** The duplicate rule: a mail of the same stored Message-ID is in the target, and "" is one. */
  predicate Duplicate(rows: seq<Row>, row: Row, target: string) {
    row.mid.Some? && exists r :: r in rows && r.folder == target && r.mid == row.mid
  }

  /** The moved row is dropped from the index exactly when it has a duplicate in the target;
      otherwise it is in the target, in its place, under some number. */
  lemma RowIsDroppedIff(l: Local, q: Request)
    requires Rehomed(l, q).Some? && q.source in l.folders && Has(l.rows, q.source, None, q.uid)
    ensures var rows := Rehomed(l, q).value;
            var i := IndexOf(l.rows, q.source, None, q.uid);
            && (|rows| == |l.rows| <==> !Duplicate(l.rows, l.rows[i], q.target))
            && (|rows| != |l.rows| ==> rows == Without(l.rows, i))
            && (|rows| == |l.rows| ==> exists n :: rows == l.rows[i := l.rows[i].(folder := q.target, uid := n)])
  {
    hide FreeFrom, IndexOf;
    var row := l.rows[IndexOf(l.rows, q.source, None, q.uid)];
    if row.mid.Some? {
      HasIff(l.rows, q.target, row.mid, 0);
    }
  }

  /** A moved mail is in the index afterwards, by its row or by another one of its Message-ID
      in the target: with a Message-ID, unless it was moved into the folder it is in and has no
      second row there (it is taken for its own duplicate); without one, unless it has a
      "duplicate". */
  lemma MovedIsShown(l: Local, q: Request)
    requires Unique(l.rows) && Rehomed(l, q).Some? && q.source in l.folders && Has(l.rows, q.source, None, q.uid)
    ensures var key, rows := KeyOf(l.rows, q.source, q.uid), Rehomed(l, q).value;
            |rows| == |l.rows| || (key.Some? && Has(rows, q.target, key, 0)) <==>
            if key.Some? then
              q.source == q.target ==> exists r :: r in l.rows && r.uid != q.uid && Matches(r, q.target, key, 0)
            else
              !Duplicate(l.rows, l.rows[IndexOf(l.rows, q.source, None, q.uid)], q.target)
  {
    hide IndexOf, FreeFrom, Has, Without, Rehomed;
    RowIsDroppedIff(l, q);
    var key := KeyOf(l.rows, q.source, q.uid);
    if key.Some? {
      KeyedIsShown(l, q);
    }
  }

  lemma KeyedIsShown(l: Local, q: Request)
    requires Unique(l.rows) && Rehomed(l, q).Some? && q.source in l.folders
    requires KeyOf(l.rows, q.source, q.uid).Some?
    ensures var key, rows := KeyOf(l.rows, q.source, q.uid), Rehomed(l, q).value;
            && (|rows| == |l.rows| ==> Has(rows, q.target, key, 0))
            && (Has(rows, q.target, key, 0) <==>
                (q.source == q.target ==> exists r :: r in l.rows && r.uid != q.uid && Matches(r, q.target, key, 0)))
  {
    var key := KeyOf(l.rows, q.source, q.uid);
    var i := IndexOf(l.rows, q.source, None, q.uid);
    var rows := Rehomed(l, q).value;
    HasIff(l.rows, q.target, key, 0);
    HasIff(rows, q.target, key, 0);
    if Has(l.rows, q.target, key, 0) {
      assert rows == Without(l.rows, i);
      WithoutKeeps(l.rows, i);
    } else {
      assert rows[i] in rows;
      assert Matches(rows[i], q.target, key, 0);
    }
  }

  lemma HasIff(rows: seq<Row>, folder: string, key: Option<string>, uid: nat)
    ensures Has(rows, folder, key, uid) <==> exists r :: r in rows && Matches(r, folder, key, uid)
  {
    var i := IndexOf(rows, folder, key, uid);
    if i < |rows| {
      assert rows[i] in rows;
    }
  }

  // ------------------------------------------------------------------ archive

  const BLANK_LINE: string := "\r\n\r\n"

  /** The header part of a mail's text. */
  function Head(raw: string): string {
    if raw == "" || BLANK_LINE <= raw then "" else [raw[0]] + Head(raw[1..])
  }

  /** The check of a fetched mail: the Message-ID occurs somewhere in its header part. */
  predicate Accepts(raw: string, key: string) {
    raw != "" && Contains(Head(raw), Trim(key))
  }

  /** Where the first empty line ends the header part, only that part is looked at. */
  lemma {:induction false} HeadIs(head: string, body: string)
    requires forall i :: 0 <= i < |head| ==> !(BLANK_LINE <= (head + BLANK_LINE + body)[i..])
    ensures Head(head + BLANK_LINE + body) == head
  {
    var all := head + BLANK_LINE + body;
    if head == "" {
      assert all == BLANK_LINE + body;
    } else {
      assert all[0..] == all && all[1..] == head[1..] + BLANK_LINE + body;
      assert forall i :: 0 <= i < |head[1..]| ==> all[1..][i..] == all[i + 1..];
      HeadIs(head[1..], body);
    }
  }

  /** A fetched mail is accepted exactly when its header part contains the Message-ID, whatever
      its body says. */
  lemma AcceptsIff(head: string, body: string, key: string)
    requires forall i :: 0 <= i < |head| ==> !(BLANK_LINE <= (head + BLANK_LINE + body)[i..])
    ensures Accepts(head + BLANK_LINE + body, key) <==> Contains(head, Trim(key))
    ensures !Accepts("", key)
  {
    hide Head, Trim, Contains;
    HeadIs(head, body);
  }

  /** `verify_eml`; the digest of a text stands for itself. */
  predicate Intact(files: map<Path, string>, path: Path, sha: Option<string>) {
    path in files && (sha.Some? ==> files[path] == sha.value)
  }

  /** The archive guarantee: the moved row names an intact file. */
  predicate Verified(l: Local, q: Request, key: Option<string>) {
    var i := IndexOf(l.rows, q.target, key, q.uid);
    i < |l.rows| && l.rows[i].eml.Some? && Intact(l.files, l.rows[i].eml.value, l.rows[i].sha)
  }

  function FetchPath(q: Request, key: string): Path {
    Path(q.uid, Some(key), "")
  }

  /** Every row of the mail in the folder names the new file. */
  function Stamped(rows: seq<Row>, folder: string, key: string, path: Path, raw: string): (r: seq<Row>)
    ensures |r| == |rows|
    ensures forall i :: 0 <= i < |rows| ==>
      r[i] == if Matches(rows[i], folder, Some(key), 0) then rows[i].(eml := Some(path), sha := Some(raw)) else rows[i]
  {
    if rows == [] then []
    else
      [if Matches(rows[0], folder, Some(key), 0) then rows[0].(eml := Some(path), sha := Some(raw)) else rows[0]]
      + Stamped(rows[1..], folder, key, path, raw)
  }

  function Filed(l: Local, q: Request, key: string, raw: string): Local {
    var path := FetchPath(q, key);
    l.(files := l.files[path := raw], rows := Stamped(l.rows, q.target, key, path, raw))
  }

  /** A fetched text is filed under the mail's number and Message-ID, and exactly the rows of the
      mail in the target name the file and its digest; every other file and row stays. */
  lemma FiledTells(l: Local, q: Request, key: string, raw: string)
    ensures var n, path := Filed(l, q, key, raw), Path(q.uid, Some(key), "");
            && n.files == l.files[path := raw] && n.folders == l.folders && n.ops == l.ops && |n.rows| == |l.rows|
            && forall i :: 0 <= i < |l.rows| ==>
                 if l.rows[i].folder == q.target && l.rows[i].mid == Some(key)
                 then n.rows[i] == l.rows[i].(eml := Some(path), sha := Some(raw))
                 else n.rows[i] == l.rows[i]
  {
  }

  function Enqueued(l: Local, op: Op): Local {
    l.(ops := l.ops + [op])
  }

  function Removal(q: Request, key: Option<string>): Op {
    if key.Some? then DeleteMid(q.source, key.value) else Delete(q.source, q.uid)
  }

  function Transfer(q: Request, key: Option<string>, target: string): Op {
    if key.Some? then MoveMid(q.source, target, key.value) else Move(q.source, target, q.uid)
  }

  /** `move_message` towards the provider. */
  function ProviderMove(l: Local, q: Request, archiveMode: bool): Local {
    var key := KeyOf(l.rows, q.source, q.uid);
    var l0 := WithFolder(l, q.target, archiveMode);
    match Rehomed(l0, q)
    case None => l0
    case Some(rows) =>
      var l1 := l0.(rows := rows);
      if q.source == TRASH && key.None? then l1 else Enqueued(l1, Transfer(q, key, q.target))
  }

  /** `move_to_local_folder`, its fetch from the provider having brought `fetched`. */
  function LocalMove(l: Local, q: Request, archiveMode: bool, fetched: Option<string>, disk: bool): Local {
    var key := KeyOf(l.rows, q.source, q.uid);
    var l0 := WithFolder(l, q.target, archiveMode);
    match Rehomed(l0, q)
    case None => l0
    case Some(rows) =>
      var l1 := l0.(rows := rows);
      if Verified(l1, q, key) then Enqueued(l1, Removal(q, key))
      else if key.Some? && fetched.Some? && Accepts(fetched.value, key.value) && disk then
        var l2 := Filed(l1, q, key.value, fetched.value);
        Enqueued(l2, if Verified(l2, q, key) then Removal(q, key) else Transfer(q, key, TRASH))
      else Enqueued(l1, Transfer(q, key, TRASH))
  }

  predicate KeptHere(l: Local, folder: string) {
    folder in l.folders && l.folders[folder]
  }

  /** `move_message`: only a folder kept here, other than the trash, takes the mail off the provider. */
  function Moved(l: Local, q: Request, archiveMode: bool, fetched: Option<string>, disk: bool): Local {
    if KeptHere(l, q.target) && q.target != TRASH then LocalMove(l, q, archiveMode, fetched, disk)
    else ProviderMove(l, q, archiveMode)
  }

  /** The mail is named by its Message-ID, or by its number where it has none. */
  predicate Names(op: Op, source: string, key: Option<string>, uid: nat) {
    match op
    case DeleteMid(f, k) => f == source && key == Some(k)
    case MoveMid(f, _, k) => f == source && key == Some(k)
    case Delete(f, u) => f == source && u == uid && key.None?
    case Move(f, _, u) => f == source && u == uid && key.None?
  }

  /** Where an operation takes the mail: None where it deletes it. */
  function Goal(op: Op): Option<string> {
    match op
    case MoveMid(_, t, _) => Some(t)
    case Move(_, t, _) => Some(t)
    case _ => None
  }

  /** A row of the mail in the target names a file that is there, with the digest noted. */
  predicate HasFile(n: Local, q: Request, key: Option<string>) {
    exists r :: r in n.rows && r.folder == q.target && (if key.Some? then r.mid == key else r.uid == q.uid)
      && r.eml.Some? && r.eml.value in n.files && (r.sha.Some? ==> n.files[r.eml.value] == r.sha.value)
  }

  lemma VerifiedHasFile(n: Local, q: Request, key: Option<string>)
    requires Verified(n, q, key)
    ensures HasFile(n, q, key)
  {
    var i := IndexOf(n.rows, q.target, key, q.uid);
    assert n.rows[i] in n.rows;
  }

  lemma LocalQueues(l: Local, q: Request, archiveMode: bool, fetched: Option<string>, disk: bool)
    ensures var n, key := LocalMove(l, q, archiveMode, fetched, disk), KeyOf(l.rows, q.source, q.uid);
            || (n.ops == l.ops && Rehomed(WithFolder(l, q.target, archiveMode), q).None?)
            || exists op :: n.ops == l.ops + [op] && Names(op, q.source, key, q.uid)
                 && (Goal(op) == Some(TRASH) || (Goal(op).None? && Verified(n, q, key)))
  {
    hide KeyOf, Rehomed, Accepts, IndexOf, Stamped, Intact;
    var n := LocalMove(l, q, archiveMode, fetched, disk);
    if |n.ops| > |l.ops| {
      assert n.ops == l.ops + [n.ops[|l.ops|]];
    }
  }

  /** Towards the provider one operation moves the mail from its folder to the target; none is
      queued where no number is free, or out of the trash without a Message-ID. */
  lemma ProviderQueues(l: Local, q: Request, archiveMode: bool)
    ensures var n, key := ProviderMove(l, q, archiveMode), KeyOf(l.rows, q.source, q.uid);
            if Rehomed(WithFolder(l, q.target, archiveMode), q).None? || (q.source == TRASH && key.None?)
            then n.ops == l.ops
            else exists op :: n.ops == l.ops + [op] && Names(op, q.source, key, q.uid) && Goal(op) == Some(q.target)
  {
    hide KeyOf, Rehomed;
    var n := ProviderMove(l, q, archiveMode);
    if |n.ops| > |l.ops| {
      assert n.ops == l.ops + [n.ops[|l.ops|]];
    }
  }

  /** A request queues at most one operation, on the mail itself. It is a deletion only for a
      folder kept here, other than the trash, and then the index names an intact file for the
      moved row; else it moves the mail to the target, or to the trash from such a folder. */
  lemma DeletesOnlyWithAFile(l: Local, q: Request, archiveMode: bool, fetched: Option<string>, disk: bool)
    ensures var n, key := Moved(l, q, archiveMode, fetched, disk), KeyOf(l.rows, q.source, q.uid);
            var here := KeptHere(l, q.target) && q.target != TRASH;
            n.ops == l.ops || exists op ::
              && n.ops == l.ops + [op] && Names(op, q.source, key, q.uid)
              && (Goal(op).None? ==> here && Verified(n, q, key) && HasFile(n, q, key))
              && (Goal(op).Some? ==> Goal(op).value == if here then TRASH else q.target)
  {
    hide KeyOf, LocalMove, ProviderMove, Verified, Rehomed, WithFolder, HasFile, Names, Goal;
    LocalQueues(l, q, archiveMode, fetched, disk);
    ProviderQueues(l, q, archiveMode);
    var n, key := Moved(l, q, archiveMode, fetched, disk), KeyOf(l.rows, q.source, q.uid);
    if KeptHere(l, q.target) && q.target != TRASH && Verified(n, q, key) {
      VerifiedHasFile(n, q, key);
    }
  }

  /** A move makes the target known, kept here only for an account in archive mode, and changes
      no other folder. */
  lemma FoldersAfter(l: Local, q: Request, archiveMode: bool, fetched: Option<string>, disk: bool)
    ensures var n := Moved(l, q, archiveMode, fetched, disk).folders;
            && n.Keys == l.folders.Keys + {q.target}
            && (forall f :: f in l.folders ==> n[f] == l.folders[f])
            && (q.target !in l.folders ==> n[q.target] == archiveMode)
  {
    hide KeyOf, Rehomed, Accepts, Verified, Stamped;
  }

  /** The number a moved mail gets: its own, or the first free one a multiple of the shift
      further; there is none exactly when all of them are taken. */
  lemma {:induction false} FreeIsFirst(rows: seq<Row>, folder: string, uid: nat, i: nat)
    requires i <= SHIFTS + 1
    ensures var r := FreeFrom(rows, folder, uid, i);
            && (r.None? <==> forall k :: i <= k <= SHIFTS ==> Has(rows, folder, None, uid + SHIFT * k))
            && (r.Some? ==> exists k :: i <= k <= SHIFTS && r.value == uid + SHIFT * k
                              && !Has(rows, folder, None, uid + SHIFT * k)
                              && forall j :: i <= j < k ==> Has(rows, folder, None, uid + SHIFT * j))
    decreases SHIFTS + 1 - i
  {
    hide Has;
    if i <= SHIFTS && Has(rows, folder, None, uid + SHIFT * i) {
      FreeIsFirst(rows, folder, uid, i + 1);
    }
  }

  predicate HasIntactFile(l: Local, r: Row) {
    r.eml.Some? && Intact(l.files, r.eml.value, r.sha)
  }

  lemma OnlyIndex(rows: seq<Row>, k: nat)
    requires Unique(rows) && k < |rows|
    ensures IndexOf(rows, rows[k].folder, None, rows[k].uid) == k
  {
  }

  /** The row whose file decides on the deletion of a mail without Message-ID: the one that
      holds its number in the target, else its own unless that is dropped. */
  function Decider(l: Local, q: Request): Option<Row> {
    var i, j := IndexOf(l.rows, q.source, None, q.uid), IndexOf(l.rows, q.target, None, q.uid);
    if q.source == q.target then None
    else if j < |l.rows| then Some(l.rows[j])
    else if q.source in l.folders && i < |l.rows| && !Duplicate(l.rows, l.rows[i], q.target) then Some(l.rows[i])
    else None
  }

  /** Nobody holds the number after a move within the folder. */
  lemma NumberIsGone(l: Local, q: Request)
    requires Unique(l.rows) && Rehomed(l, q).Some? && q.source in l.folders && q.source == q.target
    ensures !Has(Rehomed(l, q).value, q.target, None, q.uid)
  {
    var rows := Rehomed(l, q).value;
    var i := IndexOf(l.rows, q.source, None, q.uid);
    HasIff(rows, q.target, None, q.uid);
    if i < |l.rows| {
      HasIff(l.rows, q.target, l.rows[i].mid, 0);
      WithoutKeeps(l.rows, i);
      forall r | r in rows
        ensures !Matches(r, q.target, None, q.uid)
      {
        var k :| 0 <= k < |rows| && rows[k] == r;
        assert rows == Without(l.rows, i) || k == i || r == l.rows[k];
      }
    }
  }

  lemma DecidingRowElsewhere(l: Local, q: Request)
    requires Unique(l.rows) && Rehomed(l, q).Some? && q.source in l.folders && q.source != q.target
    requires Has(l.rows, q.source, None, q.uid)
    ensures var rows, d := Rehomed(l, q).value, Decider(l, q);
            var k := IndexOf(rows, q.target, None, q.uid);
            && (k < |rows| <==> d.Some?)
            && (d.Some? ==> rows[k].eml == d.value.eml && rows[k].sha == d.value.sha)
  {
    hide IndexOf, Unique, Duplicate;
    RehomedKeepsOthers(l, q);
    RowIsDroppedIff(l, q);
    var rows := Rehomed(l, q).value;
    var i, j := IndexOf(l.rows, q.source, None, q.uid), IndexOf(l.rows, q.target, None, q.uid);
    var k := IndexOf(rows, q.target, None, q.uid);
    if |rows| == |l.rows| {
      OnlyIndex(rows, if j < |l.rows| then j else i);
    } else {
      WithoutKeeps(l.rows, i);
      HasIff(rows, q.target, None, q.uid);
      HasIff(l.rows, q.target, None, q.uid);
      if j < |l.rows| {
        assert l.rows[j] in rows;
        var m :| 0 <= m < |rows| && rows[m] == l.rows[j];
        OnlyIndex(rows, m);
      }
    }
  }

  /** Who holds the number in the target after the move. */
  lemma DecidingRow(l: Local, q: Request)
    requires Unique(l.rows) && Rehomed(l, q).Some? && q.target in l.folders
    ensures var rows, d := Rehomed(l, q).value, Decider(l, q);
            var k := IndexOf(rows, q.target, None, q.uid);
            && (k < |rows| <==> d.Some?)
            && (d.Some? ==> rows[k].eml == d.value.eml && rows[k].sha == d.value.sha)
  {
    hide FreeFrom, IndexOf, Unique, Without;
    var rows := Rehomed(l, q).value;
    var i, j := IndexOf(l.rows, q.source, None, q.uid), IndexOf(l.rows, q.target, None, q.uid);
    if q.source == q.target {
      NumberIsGone(l, q);
    } else if q.source in l.folders && i < |l.rows| {
      DecidingRowElsewhere(l, q);
    }
  }

  /** Without a Message-ID (none stored, or a blank one) the request queues a deletion by number
      exactly when there is a deciding row and its file is intact, whosever file that is. */
  lemma NumberedMailTrustsTheNumber(l: Local, q: Request, archiveMode: bool, fetched: Option<string>, disk: bool)
    requires Unique(l.rows) && KeyOf(l.rows, q.source, q.uid).None?
    requires Rehomed(WithFolder(l, q.target, archiveMode), q).Some?
    ensures var d := Decider(l, q);
            LocalMove(l, q, archiveMode, fetched, disk).ops
            == l.ops + [if d.Some? && HasIntactFile(l, d.value) then Delete(q.source, q.uid)
                        else Move(q.source, TRASH, q.uid)]
  {
    hide IndexOf, Unique, Has, Rehomed, Duplicate;
    DecidingRow(WithFolder(l, q.target, archiveMode), q);
  }

  /** Two mails without Message-ID, stored with "" by the sync, under one number: the moved one
      loses its row, nothing is archived, and it is deleted at the provider for good. */
  lemma BlankIdsAreDuplicates(l: Local, q: Request, path: Path, archiveMode: bool, fetched: Option<string>, disk: bool)
    requires KeptHere(l, q.target) && q.target != TRASH && q.source in l.folders && q.source != q.target
    requires l.rows == [Row(q.source, q.uid, Some(""), None, None), Row(q.target, q.uid, Some(""), Some(path), None)]
    requires path in l.files
    ensures Moved(l, q, archiveMode, fetched, disk) == l.(rows := l.rows[1..], ops := l.ops + [Delete(q.source, q.uid)])
  {
    var rest := l.rows[1..];
    assert l.rows[0] == Row(q.source, q.uid, Some(""), None, None) && rest[0] == l.rows[1];
    assert IndexOf(l.rows, q.source, None, q.uid) == 0;
    assert KeyOf(l.rows, q.source, q.uid) == None;
    assert Matches(rest[0], q.target, Some(""), 0) && IndexOf(rest, q.target, Some(""), 0) == 0;
    assert Has(l.rows, q.target, Some(""), 0);
    assert Without(l.rows, 0) == rest;
    assert IndexOf(rest, q.target, None, q.uid) == 0;
  }

  class Relay {
    const archiveMode: bool
    var folders: map<string, bool>
    var rows: seq<Row>
    var files: map<Path, string>
    var ops: seq<Op>

    function Snapshot(): Local
      reads this
    {
      Local(folders, rows, files, ops)
    }

    constructor (archiveMode: bool, l: Local)
      ensures Snapshot() == l && this.archiveMode == archiveMode
    {
      this.archiveMode := archiveMode;
      folders, rows, files, ops := l.folders, l.rows, l.files, l.ops;
    }

    /** `update_folder_from`. */
    method UpdateFolderFrom(q: Request) returns (ok: bool)
      modifies `folders, `rows
      ensures var l0 := WithFolder(old(Snapshot()), q.target, archiveMode);
              && ok == Rehomed(l0, q).Some?
              && Snapshot() == if ok then l0.(rows := Rehomed(l0, q).value) else l0
    {
      hide IndexOf, Has;
      if q.target !in folders {
        folders := folders[q.target := archiveMode];
      }
      var i := IndexOf(rows, q.source, None, q.uid);
      if q.source !in folders || i == |rows| {
        return true;
      }
      var row := rows[i];
      if row.mid.Some? && Has(rows, q.target, row.mid, 0) {
        rows := Without(rows, i);
        return true;
      }
      var newUid, n := q.uid, 0;
      while true
        invariant 0 <= n <= SHIFTS && newUid == q.uid + SHIFT * n
        invariant rows == old(rows)
        invariant FreeFrom(rows, q.target, q.uid, 0) == FreeFrom(rows, q.target, q.uid, n)
        decreases SHIFTS - n
      {
        if !Has(rows, q.target, None, newUid) {
          rows := rows[i := row.(folder := q.target, uid := newUid)];
          return true;
        }
        newUid, n := newUid + SHIFT, n + 1;
        if newUid > q.uid + SHIFTS * SHIFT {
          return false;
        }
      }
    }

    /** `move_message` with a target the provider knows. */
    method MoveOnProvider(q: Request) returns (ok: bool)
      modifies `folders, `rows, `ops
      ensures Snapshot() == ProviderMove(old(Snapshot()), q, archiveMode)
      ensures ok == Rehomed(WithFolder(old(Snapshot()), q.target, archiveMode), q).Some?
    {
      hide KeyOf, Rehomed, WithFolder;
      var key := KeyOf(rows, q.source, q.uid);
      ok := UpdateFolderFrom(q);
      if !ok || (q.source == TRASH && key.None?) {
        return;
      }
      ops := ops + [Transfer(q, key, q.target)];
    }

    /** `move_to_local_folder`. */
    method MoveToLocalFolder(q: Request, fetched: Option<string>, disk: bool) returns (ok: bool)
      modifies `folders, `rows, `files, `ops
      ensures Snapshot() == LocalMove(old(Snapshot()), q, archiveMode, fetched, disk)
      ensures ok == Rehomed(WithFolder(old(Snapshot()), q.target, archiveMode), q).Some?
    {
      hide KeyOf, Verified, Accepts, Stamped, Rehomed, WithFolder;
      var key := KeyOf(rows, q.source, q.uid);
      ok := UpdateFolderFrom(q);
      if !ok {
        return;
      }
      var emlOk := Verified(Snapshot(), q, key);
      if !emlOk {
        if key.Some? && fetched.Some? && Accepts(fetched.value, key.value) && disk {
          var path := FetchPath(q, key.value);
          files := files[path := fetched.value];
          rows := Stamped(rows, q.target, key.value, path, fetched.value);
          emlOk := Verified(Snapshot(), q, key);
        }
      }
      if emlOk {
        ops := ops + [Removal(q, key)];
      } else {
        ops := ops + [Transfer(q, key, TRASH)];
      }
    }

    /** `move_message`. */
    method MoveMessage(q: Request, fetched: Option<string>, disk: bool) returns (ok: bool)
      modifies `folders, `rows, `files, `ops
      ensures Snapshot() == Moved(old(Snapshot()), q, archiveMode, fetched, disk)
    {
      hide LocalMove, ProviderMove;
      var targetIsLocal := q.target in folders && folders[q.target];
      if targetIsLocal && q.target != TRASH {
        ok := MoveToLocalFolder(q, fetched, disk);
        return;
      }
      ok := MoveOnProvider(q);
    }
  }
}
