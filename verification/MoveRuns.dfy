/** Every interleaving of moves, archive checks, syncs and the worker that replays the queue:
    no mail is lost unless one was taken for another. */
module MoveRuns {
  import opened Text
  import opened MailMove

  datatype Slot = Slot(folder: string, uid: nat)

  /** What a move into a local folder does next. */
  datatype Todo = Check | Fetch | Store(raw: string) | Stamp(raw: string) | Recheck | Queue(ok: bool) | Done

  datatype Job = Job(q: Request, key: string, todo: Todo)

  /** `provider` holds Message-IDs; `arrived` are all mails there ever were. */
  datatype State = State(local: Local, provider: map<Slot, string>, jobs: seq<Job>, arrived: set<string>)

  /** The world outside: the text of the mail with each Message-ID and the provider's trash;
      and the check that takes a fetched text for the mail with a Message-ID. */
  datatype World = World(
    text: string -> string, trash: Option<string>, archiveMode: bool, accepts: (string, string) -> bool)

  /** The check of the code: the Message-ID occurs in the header part. */
  ghost predicate AsWritten(w: World) {
    forall raw, key :: w.accepts(raw, key) <==> Accepts(raw, key)
  }

  datatype Step =
    | Arrive(slot: Slot, key: string)
    | Archive(path: Path, raw: string)
    | Sync(rows: seq<Row>)
    | ToProvider(q: Request)
    | ToLocal(q: Request)
    | Advance(job: nat, reachable: bool, disk: bool)
    | WorkerDelete(op: nat, slot: Slot)
    | WorkerMove(op: nat, slot: Slot, uid: nat)
    | Retire(op: nat)

  // -------------------------------------------------------------- transitions

  predicate Named(r: Row) {
    r.mid.Some? && Trim(r.mid.value) != ""
  }

  /** Rows with a Message-ID name only archive files of their own mail. */
  predicate Keyed(rows: seq<Row>) {
    forall r :: r in rows && Named(r) && r.eml.Some? ==> r.eml.value.key == r.mid
  }

  function OnProvider(w: World, folder: string): Option<string> {
    if folder == TRASH then w.trash else Some(folder)
  }

  function Target(w: World, folder: string): string {
    match OnProvider(w, folder) case Some(f) => f case None => folder
  }

  /** `Archive` and `Sync` stand for every other writer of files and of the index: they may
      write anything at all. */
  predicate Enabled(s: State, w: World, t: Step) {
    match t
    case Arrive(slot, key) => slot !in s.provider
    case Archive(path, raw) => true
    case Sync(rows) => true
    case ToProvider(q) => KeyOf(s.local.rows, q.source, q.uid).Some?
    case ToLocal(q) => KeyOf(s.local.rows, q.source, q.uid).Some?
    case Advance(j, reachable, disk) => j < |s.jobs|
    case WorkerDelete(i, slot) =>
      && i < |s.local.ops| && s.local.ops[i].DeleteMid? && slot in s.provider
      && OnProvider(w, s.local.ops[i].folder) == Some(slot.folder) && s.provider[slot] == s.local.ops[i].key
    case WorkerMove(i, slot, uid) =>
      && i < |s.local.ops| && s.local.ops[i].MoveMid? && slot in s.provider
      && OnProvider(w, s.local.ops[i].folder) == Some(slot.folder) && s.provider[slot] == s.local.ops[i].key
      && Slot(Target(w, s.local.ops[i].target), uid) !in s.provider
    case Retire(i) => i < |s.local.ops|
  }

  /** The text the provider returns for the request's number, if it answers. */
  function Fetched(s: State, w: World, q: Request, reachable: bool): Option<string> {
    var slot := Slot(q.source, q.uid);
    if reachable && slot in s.provider then Some(w.text(s.provider[slot])) else None
  }

  function Worked(s: State, w: World, j: Job, reachable: bool, disk: bool): (Local, Todo) {
    var l := s.local;
    match j.todo
    case Check => (l, if Verified(l, j.q, Some(j.key)) then Queue(true) else Fetch)
    case Fetch =>
      (match Fetched(s, w, j.q, reachable)
       case Some(raw) => (l, if w.accepts(raw, j.key) then Store(raw) else Queue(false))
       case None => (l, Queue(false)))
    case Store(raw) =>
      if disk then (l.(files := l.files[FetchPath(j.q, j.key) := raw]), Stamp(raw)) else (l, Queue(false))
    case Stamp(raw) =>
      (l.(rows := Stamped(l.rows, j.q.target, j.key, FetchPath(j.q, j.key), raw)), Recheck)
    case Recheck => (l, Queue(Verified(l, j.q, Some(j.key))))
    case Queue(ok) =>
      (Enqueued(l, if ok then Removal(j.q, Some(j.key)) else Transfer(j.q, Some(j.key), TRASH)), Done)
    case Done => (l, Done)
  }

  function Next(s: State, w: World, t: Step): State
    requires Enabled(s, w, t)
  {
    var l := s.local;
    match t
    case Arrive(slot, key) => s.(provider := s.provider[slot := key], arrived := s.arrived + {key})
    case Archive(path, raw) => s.(local := l.(files := l.files[path := raw]))
    case Sync(rows) => s.(local := l.(rows := rows))
    case ToProvider(q) => s.(local := ProviderMove(l, q, w.archiveMode))
    case ToLocal(q) =>
      var l0 := WithFolder(l, q.target, w.archiveMode);
      (match Rehomed(l0, q)
       case None => s.(local := l0)
       case Some(rows) =>
         s.(local := l0.(rows := rows), jobs := s.jobs + [Job(q, KeyOf(l.rows, q.source, q.uid).value, Check)]))
    case Advance(i, reachable, disk) =>
      var (l', todo) := Worked(s, w, s.jobs[i], reachable, disk);
      s.(local := l', jobs := s.jobs[i := s.jobs[i].(todo := todo)])
    case WorkerDelete(i, slot) => s.(provider := s.provider - {slot})
    case WorkerMove(i, slot, uid) =>
      s.(provider := (s.provider - {slot})[Slot(Target(w, l.ops[i].target), uid) := s.provider[slot]])
    case Retire(i) => s.(local := l.(ops := l.ops[..i] + l.ops[i + 1..]))
  }

  predicate Runs(s: State, w: World, ts: seq<Step>)
    decreases |ts|
  {
    ts == [] || (Enabled(s, w, ts[0]) && Runs(Next(s, w, ts[0]), w, ts[1..]))
  }

  function End(s: State, w: World, ts: seq<Step>): State
    requires Runs(s, w, ts)
    decreases |ts|
  {
    if ts == [] then s else End(Next(s, w, ts[0]), w, ts[1..])
  }

  // ---------------------------------------------------------------- guarantee

  /** Some archive file holds exactly this mail's text. */
  ghost predicate Archived(files: map<Path, string>, w: World, key: string) {
    exists p :: p in files && p.key == Some(key) && files[p] == w.text(key)
  }

  ghost predicate Present(provider: map<Slot, string>, key: string) {
    exists slot :: slot in provider && provider[slot] == key
  }

  /** No mail is lost. */
  ghost predicate NoneLost(s: State, w: World) {
    forall key :: key in s.arrived ==> Present(s.provider, key) || Archived(s.local.files, w, key)
  }

  /** Every file under a Message-ID holds that mail. */
  predicate Genuine(files: map<Path, string>, w: World) {
    forall p :: p in files && p.key.Some? ==> files[p] == w.text(p.key.value)
  }

  ghost predicate Justified(ops: seq<Op>, files: map<Path, string>, w: World) {
    forall op :: op in ops && op.DeleteMid? ==> Archived(files, w, op.key)
  }

  ghost predicate JobOk(j: Job, files: map<Path, string>, w: World) {
    Trim(j.key) != "" && (j.todo == Queue(true) ==> Archived(files, w, j.key))
  }

  ghost predicate Safe(s: State, w: World) {
    && NoneLost(s, w)
    && Genuine(s.local.files, w)
    && Keyed(s.local.rows)
    && Justified(s.local.ops, s.local.files, w)
    && forall j :: j in s.jobs ==> JobOk(j, s.local.files, w)
  }

  /** A text that is not the mail's is written into the archive under its Message-ID. */
  predicate Misfiles(s: State, w: World, t: Step)
    requires Enabled(s, w, t)
  {
    && t.Advance? && t.disk && s.jobs[t.job].todo.Store?
    && s.jobs[t.job].todo.raw != w.text(s.jobs[t.job].key)
  }

  /** A wrong text is filed from outside, or a row is made to name another mail's file. */
  predicate SyncMisleads(w: World, t: Step) {
    match t
    case Archive(path, raw) => path.key.Some? && raw != w.text(path.key.value)
    case Sync(rows) => !Keyed(rows)
    case _ => false
  }

  predicate Misleads(s: State, w: World, t: Step)
    requires Enabled(s, w, t)
  {
    Misfiles(s, w, t) || SyncMisleads(w, t)
  }

  predicate Careful(s: State, w: World, ts: seq<Step>)
    requires Runs(s, w, ts)
    decreases |ts|
  {
    ts == [] || (!Misleads(s, w, ts[0]) && Careful(Next(s, w, ts[0]), w, ts[1..]))
  }

  /** The guarantee holds before, between and after all steps. */
  ghost predicate AlwaysSafe(s: State, w: World, ts: seq<Step>)
    requires Runs(s, w, ts)
    decreases |ts|
  {
    Safe(s, w) && (ts == [] || AlwaysSafe(Next(s, w, ts[0]), w, ts[1..]))
  }

  lemma ArchivedStays(files: map<Path, string>, p: Path, raw: string, w: World, key: string)
    requires Archived(files, w, key) && (p.key.Some? ==> raw == w.text(p.key.value))
    ensures Archived(files[p := raw], w, key)
  {
    var f :| f in files && f.key == Some(key) && files[f] == w.text(key);
    assert files[p := raw][f] == w.text(key);
  }

  /** Where the check passes, the mail is archived if the row names a file of its own mail, and
      else exactly if there is another file under its Message-ID. */
  lemma VerifiedIsArchived(l: Local, q: Request, key: string, w: World)
    requires Verified(l, q, Some(key)) && Genuine(l.files, w)
    ensures Archived(l.files, w, key) <==> exists p :: p in l.files && p.key == Some(key)
    ensures var r := l.rows[IndexOf(l.rows, q.target, Some(key), q.uid)];
            (r.eml.value.key == Some(key) ==> Archived(l.files, w, key)) && r.mid == Some(key) && r in l.rows
  {
    var i := IndexOf(l.rows, q.target, Some(key), q.uid);
    assert l.rows[i] in l.rows;
    GenuineArchived(l.files, w, key);
  }

  lemma GenuineArchived(files: map<Path, string>, w: World, key: string)
    requires Genuine(files, w)
    ensures Archived(files, w, key) <==> exists p :: p in files && p.key == Some(key)
  {
    if p :| p in files && p.key == Some(key) {
      assert files[p] == w.text(key);
    }
  }

  lemma KeyedIsArchived(l: Local, q: Request, key: string, w: World)
    requires Verified(l, q, Some(key)) && Genuine(l.files, w) && Keyed(l.rows) && Trim(key) != ""
    ensures Archived(l.files, w, key)
  {
    hide Archived, Trim;
    VerifiedIsArchived(l, q, key, w);
  }

  /** A new true file keeps every promise. */
  lemma FileSafe(s: State, w: World, p: Path, raw: string)
    requires Safe(s, w) && (p.key.Some? ==> raw == w.text(p.key.value))
    ensures Safe(s.(local := s.local.(files := s.local.files[p := raw])), w)
  {
    hide Archived, Present, Keyed, Trim;
    var files := s.local.files[p := raw];
    forall key | Archived(s.local.files, w, key)
      ensures Archived(files, w, key)
    {
      ArchivedStays(s.local.files, p, raw, w, key);
    }
  }

  lemma RehomedKeyed(l: Local, q: Request)
    requires Keyed(l.rows) && Rehomed(l, q).Some?
    ensures Keyed(Rehomed(l, q).value)
  {
    hide FreeFrom, Has;
    var i := IndexOf(l.rows, q.source, None, q.uid);
    if i < |l.rows| {
      assert l.rows[i] in l.rows;
    }
  }

  lemma StampedKeyed(rows: seq<Row>, folder: string, key: string, path: Path, raw: string)
    requires Keyed(rows) && path.key == Some(key)
    ensures Keyed(Stamped(rows, folder, key, path, raw))
  {
    var out := Stamped(rows, folder, key, path, raw);
    forall r | r in out && Named(r) && r.eml.Some?
      ensures r.eml.value.key == r.mid
    {
      var i :| 0 <= i < |out| && out[i] == r;
      assert rows[i] in rows;
    }
  }

  lemma FileBreaksGenuine(files: map<Path, string>, p: Path, raw: string, w: World)
    requires p.key.Some? && raw != w.text(p.key.value)
    ensures !Genuine(files[p := raw], w)
  {
    assert p in files[p := raw] && files[p := raw][p] == raw;
  }

  /** One step of any job keeps the guarantee exactly when it writes no wrong text. */
  lemma AdvanceSafe(s: State, w: World, t: Step)
    requires Safe(s, w) && t.Advance? && Enabled(s, w, t)
    ensures Safe(Next(s, w, t), w) <==> !Misfiles(s, w, t)
  {
    hide Archived, Present, Keyed, Accepts, Verified, Stamped, Trim, Genuine;
    var j := s.jobs[t.job];
    assert j in s.jobs;
    var n := Next(s, w, t);
    assert n.jobs[t.job] in n.jobs;
    assert forall k :: k in n.jobs ==> k in s.jobs || k == n.jobs[t.job];
    match j.todo
    case Check => if Verified(s.local, j.q, Some(j.key)) { KeyedIsArchived(s.local, j.q, j.key, w); }
    case Fetch =>
    case Store(raw) =>
      if t.disk {
        if raw == w.text(j.key) {
          FileSafe(s, w, FetchPath(j.q, j.key), raw);
        } else {
          FileBreaksGenuine(s.local.files, FetchPath(j.q, j.key), raw, w);
        }
      }
    case Stamp(raw) => StampedKeyed(s.local.rows, j.q.target, j.key, FetchPath(j.q, j.key), raw);
    case Recheck => if Verified(s.local, j.q, Some(j.key)) { KeyedIsArchived(s.local, j.q, j.key, w); }
    case Queue(ok) =>
    case Done =>
  }

  lemma PresentAfter(s: State, w: World, t: Step, key: string)
    requires Enabled(s, w, t) && Present(s.provider, key)
    requires t.WorkerDelete? ==> s.provider[t.slot] != key
    ensures Present(Next(s, w, t).provider, key)
  {
    hide KeyOf, Rehomed, ProviderMove, Worked;
    var slot :| slot in s.provider && s.provider[slot] == key;
    var n := Next(s, w, t).provider;
    if t.WorkerMove? && slot == t.slot {
      assert n[Slot(Target(w, s.local.ops[t.op].target), t.uid)] == key;
    } else {
      assert n[slot] == key;
    }
  }

  lemma ProviderMoveSafe(s: State, w: World, q: Request)
    requires Safe(s, w) && KeyOf(s.local.rows, q.source, q.uid).Some?
    ensures Safe(s.(local := ProviderMove(s.local, q, w.archiveMode)), w)
  {
    hide Archived, Present, Keyed, Rehomed, KeyOf, Trim, Genuine, JobOk;
    var l0 := WithFolder(s.local, q.target, w.archiveMode);
    if Rehomed(l0, q).Some? {
      RehomedKeyed(l0, q);
    }
  }

  /** The places of a mail on the provider. */
  function Copies(provider: map<Slot, string>, key: string): set<Slot> {
    set slot | slot in provider && provider[slot] == key
  }

  /** A move on the provider leaves as many copies of every mail as there were, and none where it
      took the mail from. */
  lemma MoveKeepsCopies(s: State, w: World, t: Step, key: string)
    requires t.WorkerMove? && Enabled(s, w, t)
    ensures var n := Next(s, w, t);
            && |Copies(n.provider, key)| == |Copies(s.provider, key)|
            && t.slot !in n.provider && n.arrived == s.arrived && n.local == s.local
  {
    hide KeyOf, Rehomed, ProviderMove, Worked;
    var target := Slot(Target(w, s.local.ops[t.op].target), t.uid);
    var before, after := Copies(s.provider, key), Copies(Next(s, w, t).provider, key);
    if s.provider[t.slot] == key {
      assert t.slot in before && target !in before;
      assert after == before - {t.slot} + {target};
    } else {
      assert after == before;
    }
  }

  /** A step breaks the guarantee exactly when it writes a text into the archive that is not
      the mail's, or makes a row name another mail's file. */
  lemma StepSafe(s: State, w: World, t: Step)
    requires Safe(s, w) && Enabled(s, w, t)
    ensures Safe(Next(s, w, t), w) <==> !Misleads(s, w, t)
  {
    hide Archived, Present, Keyed, Accepts, Verified, Rehomed, KeyOf, Stamped, Trim, Genuine, ProviderMove, Worked;
    var n := Next(s, w, t);
    match t
    case Advance(j, r, d) => AdvanceSafe(s, w, t);
    case Archive(path, raw) =>
      if SyncMisleads(w, t) {
        FileBreaksGenuine(s.local.files, path, raw, w);
      } else {
        FileSafe(s, w, path, raw);
      }
    case Sync(rows) =>
    case ToProvider(q) => ProviderMoveSafe(s, w, q);
    case ToLocal(q) =>
      var l0 := WithFolder(s.local, q.target, w.archiveMode);
      KeyIsNotBlank(s.local.rows, q.source, q.uid);
      if Rehomed(l0, q).Some? { RehomedKeyed(l0, q); }
    case Retire(i) =>
    case Arrive(slot, key) =>
      forall k | Present(s.provider, k) ensures Present(n.provider, k) { PresentAfter(s, w, t, k); }
      assert Present(n.provider, key) by { ArrivedIsPresent(n.provider, slot); }
    case WorkerMove(i, slot, uid) =>
      forall k | Present(s.provider, k) ensures Present(n.provider, k) { PresentAfter(s, w, t, k); }
    case WorkerDelete(i, slot) =>
      forall k | Present(s.provider, k) && k != s.provider[slot]
        ensures Present(n.provider, k)
      {
        PresentAfter(s, w, t, k);
      }
      assert s.local.ops[i] in s.local.ops;
  }

  lemma KeyIsNotBlank(rows: seq<Row>, folder: string, uid: nat)
    ensures KeyOf(rows, folder, uid).Some? ==> Trim(KeyOf(rows, folder, uid).value) != ""
  {
  }

  lemma ArrivedIsPresent(provider: map<Slot, string>, slot: Slot)
    requires slot in provider
    ensures Present(provider, provider[slot])
  {
  }

  /** A run keeps the guarantee throughout exactly when none of its steps misleads; then no
      mail is lost and every queued deletion refers to a mail whose text is in the archive. */
  lemma {:induction false} NoMailIsLost(s: State, w: World, ts: seq<Step>)
    requires Safe(s, w) && Runs(s, w, ts)
    ensures AlwaysSafe(s, w, ts) <==> Careful(s, w, ts)
    ensures Careful(s, w, ts) ==> Safe(End(s, w, ts), w)
    decreases |ts|
  {
    hide Safe, Enabled, Next, Misleads;
    if ts != [] {
      StepSafe(s, w, ts[0]);
      if !Misleads(s, w, ts[0]) {
        NoMailIsLost(Next(s, w, ts[0]), w, ts[1..]);
      }
    }
  }

  // ----------------------------------------------- comparing the mail's own id

  /** A check that takes a mail for another one only if it has the same text: one that compares
      the fetched mail's own Message-ID is of this kind. */
  ghost predicate OwnId(w: World) {
    forall other, key :: w.accepts(w.text(other), key) ==> w.text(other) == w.text(key)
  }

  lemma ComparingIdsIsOwnId(w: World, idOf: string -> string)
    requires forall key :: idOf(w.text(key)) == key
    requires forall raw, key :: w.accepts(raw, key) ==> idOf(raw) == key
    ensures OwnId(w)
  {
    forall other, key | w.accepts(w.text(other), key)
      ensures other == key
    {
      assert idOf(w.text(other)) == key;
    }
  }

  /** What is about to be written is the mail's text. */
  predicate RightTexts(s: State, w: World) {
    forall j :: j in s.jobs && j.todo.Store? ==> j.todo.raw == w.text(j.key)
  }

  lemma OwnIdStep(s: State, w: World, t: Step)
    requires OwnId(w) && RightTexts(s, w) && Enabled(s, w, t)
    ensures !Misfiles(s, w, t) && RightTexts(Next(s, w, t), w)
  {
    hide Verified, Stamped, KeyOf, Rehomed, ProviderMove;
    var n := Next(s, w, t);
    if t.Advance? {
      var j := s.jobs[t.job];
      assert j in s.jobs;
      assert forall k :: k in n.jobs ==> k in s.jobs || k == n.jobs[t.job];
    } else {
      assert forall k :: k in n.jobs && k.todo.Store? ==> k in s.jobs;
    }
  }

  /** With such a check a run keeps the guarantee throughout exactly when no sync misleads:
      the moves themselves break nothing. */
  lemma {:induction false} OwnIdLosesNothing(s: State, w: World, ts: seq<Step>)
    requires OwnId(w) && Safe(s, w) && RightTexts(s, w) && Runs(s, w, ts)
    ensures AlwaysSafe(s, w, ts) <==> forall t :: t in ts ==> !SyncMisleads(w, t)
    decreases |ts|
  {
    hide Safe, Enabled, Next, Misfiles, SyncMisleads, OwnId, RightTexts;
    if ts != [] {
      StepSafe(s, w, ts[0]);
      OwnIdStep(s, w, ts[0]);
      if !SyncMisleads(w, ts[0]) {
        OwnIdLosesNothing(Next(s, w, ts[0]), w, ts[1..]);
        assert forall t :: t in ts <==> t == ts[0] || t in ts[1..];
      } else {
        assert ts[0] in ts;
      }
    }
  }

  // ---------------------------------------------------- one request on its own

  /** After the index moved: what the rest of `LocalMove` does. */
  function Rest(l1: Local, w: World, q: Request, key: string, fetched: Option<string>, disk: bool): Local {
    if Verified(l1, q, Some(key)) then Enqueued(l1, Removal(q, Some(key)))
    else if fetched.Some? && w.accepts(fetched.value, key) && disk then
      var l2 := Filed(l1, q, key, fetched.value);
      Enqueued(l2, if Verified(l2, q, Some(key)) then Removal(q, Some(key)) else Transfer(q, Some(key), TRASH))
    else Enqueued(l1, Transfer(q, Some(key), TRASH))
  }

  function Advances(job: nat, reachable: bool, disk: bool, n: nat): seq<Step> {
    if n == 0 then [] else [Advance(job, reachable, disk)] + Advances(job, reachable, disk, n - 1)
  }

  /** What is left for a job, where nothing else happens in between. */
  function Finish(s: State, w: World, j: Job, reachable: bool, disk: bool): Local {
    var l := s.local;
    var q := j.q;
    var key := Some(j.key);
    match j.todo
    case Check => Rest(l, w, q, j.key, Fetched(s, w, q, reachable), disk)
    case Fetch =>
      var raw := Fetched(s, w, q, reachable);
      if raw.Some? && w.accepts(raw.value, j.key) && disk then Restamped(Filed(l, q, j.key, raw.value), q, key)
      else Enqueued(l, Transfer(q, key, TRASH))
    case Store(raw) => if disk then Restamped(Filed(l, q, j.key, raw), q, key) else Enqueued(l, Transfer(q, key, TRASH))
    case Stamp(raw) => Restamped(l.(rows := Stamped(l.rows, q.target, j.key, FetchPath(q, j.key), raw)), q, key)
    case Recheck => Restamped(l, q, key)
    case Queue(ok) => Enqueued(l, if ok then Removal(q, key) else Transfer(q, key, TRASH))
    case Done => l
  }

  lemma FinishCheck(s: State, w: World, j: Job, reachable: bool, disk: bool)
    requires j.todo == Check
    ensures Finish(s, w, j, reachable, disk) == Rest(s.local, w, j.q, j.key, Fetched(s, w, j.q, reachable), disk)
  {
  }

  function Restamped(l: Local, q: Request, key: Option<string>): Local {
    Enqueued(l, if Verified(l, q, key) then Removal(q, key) else Transfer(q, key, TRASH))
  }

  function Left(todo: Todo): nat {
    match todo
    case Check => 6
    case Fetch => 5
    case Store(_) => 4
    case Stamp(_) => 3
    case Recheck => 2
    case Queue(_) => 1
    case Done => 0
  }

  lemma AdvanceFinishes(s: State, w: World, i: nat, reachable: bool, disk: bool)
    requires i < |s.jobs|
    ensures var n := Next(s, w, Advance(i, reachable, disk));
            && i < |n.jobs| && n.provider == s.provider && n.arrived == s.arrived
            && Finish(n, w, n.jobs[i], reachable, disk) == Finish(s, w, s.jobs[i], reachable, disk)
            && (Left(n.jobs[i].todo) < Left(s.jobs[i].todo) || s.jobs[i].todo == Done)
            && (s.jobs[i].todo == Done ==> n.jobs[i].todo == Done)
  {
    hide Accepts, Verified, Stamped, IndexOf;
    var l := s.local;
    var j := s.jobs[i];
    match j.todo
    case Store(raw) =>
      var filed := Filed(l, j.q, j.key, raw);
      assert filed == filed.(files := l.files[FetchPath(j.q, j.key) := raw]);
    case _ =>
  }

  lemma RunsStep(s: State, w: World, t: Step, ts: seq<Step>)
    requires Enabled(s, w, t) && Runs(Next(s, w, t), w, ts)
    ensures Runs(s, w, [t] + ts) && End(s, w, [t] + ts) == End(Next(s, w, t), w, ts)
  {
    hide Next, Enabled;
    assert ([t] + ts)[1..] == ts;
  }

  lemma NoSteps(s: State, w: World)
    ensures Runs(s, w, []) && End(s, w, []) == s
  {
  }

  lemma {:induction false} JobRuns(s: State, w: World, i: nat, reachable: bool, disk: bool, n: nat)
    requires i < |s.jobs| && n >= Left(s.jobs[i].todo)
    ensures var ts := Advances(i, reachable, disk, n);
            && Runs(s, w, ts) && End(s, w, ts).local == Finish(s, w, s.jobs[i], reachable, disk)
            && End(s, w, ts).provider == s.provider && End(s, w, ts).arrived == s.arrived
    decreases n
  {
    hide Next, Finish, Runs, End, Advances;
    NoSteps(s, w);
    AdvancesStep(i, reachable, disk, n);
    if n > 0 {
      var t := Advance(i, reachable, disk);
      AdvanceFinishes(s, w, i, reachable, disk);
      JobRuns(Next(s, w, t), w, i, reachable, disk, n - 1);
      RunsStep(s, w, t, Advances(i, reachable, disk, n - 1));
    } else {
      FinishDone(s, w, s.jobs[i], reachable, disk);
    }
  }

  lemma AdvancesStep(job: nat, reachable: bool, disk: bool, n: nat)
    ensures Advances(job, reachable, disk, n)
         == if n == 0 then [] else [Advance(job, reachable, disk)] + Advances(job, reachable, disk, n - 1)
  {
  }

  lemma FinishDone(s: State, w: World, j: Job, reachable: bool, disk: bool)
    requires j.todo == Done
    ensures Finish(s, w, j, reachable, disk) == s.local
  {
  }

  /** A request run alone, whatever the check. */
  lemma RequestRuns(s: State, w: World, q: Request, rows: seq<Row>, reachable: bool, disk: bool)
    returns (ts: seq<Step>)
    requires Enabled(s, w, ToLocal(q)) && Rehomed(WithFolder(s.local, q.target, w.archiveMode), q) == Some(rows)
    ensures Runs(s, w, ts)
    ensures End(s, w, ts).local
         == Rest(WithFolder(s.local, q.target, w.archiveMode).(rows := rows), w, q,
                 KeyOf(s.local.rows, q.source, q.uid).value, Fetched(s, w, q, reachable), disk)
    ensures End(s, w, ts).provider == s.provider && End(s, w, ts).arrived == s.arrived
  {
    hide Stamped, Rehomed, Finish, Rest, Worked, Runs, End, Advances, KeyOf;
    var n := Next(s, w, ToLocal(q));
    JobRuns(n, w, |s.jobs|, reachable, disk, 6);
    var more := Advances(|s.jobs|, reachable, disk, 6);
    ts := [ToLocal(q)] + more;
    RunsStep(s, w, ToLocal(q), more);
    FinishCheck(n, w, n.jobs[|s.jobs|], reachable, disk);
  }

  lemma LocalMoveIsRest(l: Local, w: World, q: Request, fetched: Option<string>, disk: bool)
    requires AsWritten(w) && KeyOf(l.rows, q.source, q.uid).Some?
    ensures var l0 := WithFolder(l, q.target, w.archiveMode);
            LocalMove(l, q, w.archiveMode, fetched, disk) ==
            match Rehomed(l0, q)
            case None => l0
            case Some(rows) => Rest(l0.(rows := rows), w, q, KeyOf(l.rows, q.source, q.uid).value, fetched, disk)
  {
    hide Accepts, Verified, Rehomed, KeyOf, Filed;
  }

  /** The handler run alone is one of the runs above. */
  lemma HandlerIsRun(s: State, w: World, q: Request, reachable: bool, disk: bool) returns (ts: seq<Step>)
    requires AsWritten(w) && Enabled(s, w, ToLocal(q))
    ensures Runs(s, w, ts)
    ensures End(s, w, ts).local == LocalMove(s.local, q, w.archiveMode, Fetched(s, w, q, reachable), disk)
    ensures End(s, w, ts).provider == s.provider && End(s, w, ts).arrived == s.arrived
  {
    hide Accepts, Verified, Stamped, Rehomed, Finish, Rest, LocalMove, Worked, Runs, End, Advances, KeyOf;
    LocalMoveIsRest(s.local, w, q, Fetched(s, w, q, reachable), disk);
    match Rehomed(WithFolder(s.local, q.target, w.archiveMode), q)
    case Some(rows) => ts := RequestRuns(s, w, q, rows, reachable, disk);
    case None =>
      NoSteps(Next(s, w, ToLocal(q)), w);
      RunsStep(s, w, ToLocal(q), []);
      ts := [ToLocal(q)] + [];
  }

  lemma StampedIsVerified(l: Local, q: Request, key: string, raw: string)
    ensures Verified(Filed(l, q, key, raw), q, Some(key)) <==> Has(l.rows, q.target, Some(key), q.uid)
  {
    hide IndexOf;
    var rows := Filed(l, q, key, raw).rows;
    assert forall i :: 0 <= i < |rows| ==>
      (Matches(rows[i], q.target, Some(key), q.uid) <==> Matches(l.rows[i], q.target, Some(key), q.uid));
    var i, j := IndexOf(rows, q.target, Some(key), q.uid), IndexOf(l.rows, q.target, Some(key), q.uid);
    assert i == j by {
      FirstMatch(rows, q.target, Some(key), q.uid);
      FirstMatch(l.rows, q.target, Some(key), q.uid);
    }
  }

  lemma FirstMatch(rows: seq<Row>, folder: string, key: Option<string>, uid: nat)
    ensures var i := IndexOf(rows, folder, key, uid);
            && i <= |rows| && (i < |rows| ==> Matches(rows[i], folder, key, uid))
            && forall j :: 0 <= j < i ==> !Matches(rows[j], folder, key, uid)
  {
  }

  /** When one request queues a deletion of a mail the archive does not hold. Where the row
      passes the check, exactly when the archive does not hold it already (the row names another
      mail's file). Where not, exactly when the text fetched under the stale number is not the
      mail's but has its Message-ID somewhere in the header part (a reply quotes it there), and
      no other file holds the mail. */
  lemma UnarchivedDeletion(l: Local, w: World, q: Request, rows: seq<Row>, key: string,
      fetched: Option<string>, disk: bool)
    requires KeyOf(l.rows, q.source, q.uid) == Some(key)
    requires Rehomed(WithFolder(l, q.target, w.archiveMode), q) == Some(rows)
    ensures var moved := WithFolder(l, q.target, w.archiveMode).(rows := rows);
            var n := LocalMove(l, q, w.archiveMode, fetched, disk);
            n.ops == l.ops + [Removal(q, Some(key))] && !Archived(n.files, w, key) <==>
              if Verified(moved, q, Some(key)) then !Archived(l.files, w, key)
              else
                && Has(rows, q.target, Some(key), q.uid)
                && fetched.Some? && disk && Accepts(fetched.value, key) && fetched.value != w.text(key)
                && forall p :: p in l.files && p.key == Some(key) && p != Path(q.uid, Some(key), "") ==>
                     l.files[p] != w.text(key)
    ensures Genuine(l.files, w) ==>
              (Archived(l.files, w, key) <==> exists p :: p in l.files && p.key == Some(key))
  {
    hide Accepts, IndexOf, Has, Rehomed, KeyOf, Verified, Stamped;
    var moved := WithFolder(l, q.target, w.archiveMode).(rows := rows);
    assert (l.ops + [Removal(q, Some(key))])[|l.ops|] != (l.ops + [Transfer(q, Some(key), TRASH)])[|l.ops|];
    if Genuine(l.files, w) {
      GenuineArchived(l.files, w, key);
    }
    if !Verified(moved, q, Some(key)) && fetched.Some? && Accepts(fetched.value, key) && disk {
      StampedIsVerified(moved, q, key, fetched.value);
      FiledIsArchivedIff(l.files, FetchPath(q, key), fetched.value, w, key);
    }
  }

  lemma FiledIsArchivedIff(files: map<Path, string>, path: Path, raw: string, w: World, key: string)
    requires path.key == Some(key)
    ensures Archived(files[path := raw], w, key) <==>
            raw == w.text(key) || exists p :: p in files && p.key == Some(key) && p != path && files[p] == w.text(key)
  {
    var after := files[path := raw];
    assert after[path] == raw;
    if p :| p in files && p.key == Some(key) && p != path && files[p] == w.text(key) {
      assert after[p] == w.text(key);
    }
  }

  lemma {:induction false} RunsSnoc(s: State, w: World, ts: seq<Step>, t: Step)
    requires Runs(s, w, ts) && Enabled(End(s, w, ts), w, t)
    ensures Runs(s, w, ts + [t]) && End(s, w, ts + [t]) == Next(End(s, w, ts), w, t)
    decreases |ts|
  {
    hide Next, Enabled;
    if ts == [] {
      assert ts + [t] == [t] && [t][1..] == [];
    } else {
      assert (ts + [t])[1..] == ts[1..] + [t];
      RunsSnoc(Next(s, w, ts[0]), w, ts[1..], t);
    }
  }

  /** Two mails on the provider, of which only `key` is indexed, under the other's number. */
  function Stale(key: string, other: string, source: string): State {
    State(Local(map[source := false], [Row(source, 1, Some(key), None, None)], map[], []),
          map[Slot(source, 1) := other, Slot(source, 2) := key], [], {key, other})
  }

  lemma StaleIsSafe(w: World, key: string, other: string, source: string, target: string)
    requires Trim(key) != ""
    ensures Safe(Stale(key, other, source), w)
    ensures KeyOf(Stale(key, other, source).local.rows, source, 1) == Some(key)
    ensures Enabled(Stale(key, other, source), w, ToLocal(Request(1, source, target)))
  {
    hide Trim;
    var s := Stale(key, other, source);
    ArrivedIsPresent(s.provider, Slot(source, 1));
    ArrivedIsPresent(s.provider, Slot(source, 2));
    assert Matches(s.local.rows[0], source, None, 1);
    assert IndexOf(s.local.rows, source, None, 1) == 0;
    var q := Request(1, source, target);
    assert KeyOf(s.local.rows, q.source, q.uid) == Some(key);
  }

  /** The first row of the index, moved where nothing is yet. */
  lemma FirstRowMoves(l: Local, q: Request)
    requires l.rows != [] && l.rows[0].folder == q.source && l.rows[0].uid == q.uid && q.source in l.folders
    requires Named(l.rows[0]) && forall r :: r in l.rows ==> r.folder != q.target
    ensures KeyOf(l.rows, q.source, q.uid) == l.rows[0].mid
    ensures var rows := l.rows[0 := l.rows[0].(folder := q.target)];
            Rehomed(l, q) == Some(rows) && IndexOf(rows, q.target, l.rows[0].mid, q.uid) == 0
  {
    hide Trim;
    assert Matches(l.rows[0], q.source, None, q.uid);
    assert IndexOf(l.rows, q.source, None, q.uid) == 0;
    assert !Has(l.rows, q.target, l.rows[0].mid, 0) && !Has(l.rows, q.target, None, q.uid);
    assert FreeFrom(l.rows, q.target, q.uid, 0) == Some(q.uid);
    var rows := l.rows[0 := l.rows[0].(folder := q.target)];
    assert rows[0].(uid := q.uid) == rows[0] && Matches(rows[0], q.target, l.rows[0].mid, q.uid);
  }

  lemma StaleIsMoved(w: World, key: string, other: string, source: string, target: string)
    requires Trim(key) != "" && source != target
    ensures var q := Request(1, source, target);
            var s := Stale(key, other, source);
            var rows := Rehomed(WithFolder(s.local, target, w.archiveMode), q);
            && rows == Some([Row(target, 1, Some(key), None, None)])
            && Has(rows.value, target, Some(key), 1)
            && !Verified(WithFolder(s.local, target, w.archiveMode).(rows := rows.value), q, Some(key))
  {
    hide Trim, IndexOf, Rehomed;
    var l := WithFolder(Stale(key, other, source).local, target, w.archiveMode);
    FirstRowMoves(l, Request(1, source, target));
    assert l.rows[0 := l.rows[0].(folder := target)] == [Row(target, 1, Some(key), None, None)];
  }

  lemma LastCopyGoes(e: State, w: World, key: string, source: string)
    requires source != TRASH && e.local.ops == [] + [DeleteMid(source, key)]
    requires Slot(source, 2) in e.provider && e.provider[Slot(source, 2)] == key
    requires forall slot :: slot in e.provider && e.provider[slot] == key ==> slot == Slot(source, 2)
    requires key in e.arrived && !Archived(e.local.files, w, key)
    ensures Enabled(e, w, WorkerDelete(0, Slot(source, 2)))
    ensures !NoneLost(Next(e, w, WorkerDelete(0, Slot(source, 2))), w)
  {
    hide Archived;
    assert !Present((e.provider - {Slot(source, 2)}), key);
  }

  /** Any mail can be lost through any other one that quotes its Message-ID in the header
      part: a run from a safe state in which it ends neither on the provider nor archived. */
  lemma MailCanBeLost(w: World, key: string, other: string, source: string, target: string)
    returns (s: State, ts: seq<Step>)
    requires AsWritten(w) && Trim(key) != "" && key != other
    requires Accepts(w.text(other), key) && w.text(other) != w.text(key)
    requires source != TRASH && target != source
    ensures Safe(s, w) && Runs(s, w, ts) && !NoneLost(End(s, w, ts), w)
  {
    hide Accepts, Safe, LocalMove, KeyOf, Rehomed, Has, Verified, Enabled, Trim, Runs, End;
    var q := Request(1, source, target);
    s := Stale(key, other, source);
    StaleIsSafe(w, key, other, source, target);
    StaleIsMoved(w, key, other, source, target);
    var rows := [Row(target, 1, Some(key), None, None)];
    ts := HandlerIsRun(s, w, q, true, true);
    assert s.provider[Slot(source, 1)] == other;
    UnarchivedDeletion(s.local, w, q, rows, key, Some(w.text(other)), true);
    LastCopyGoes(End(s, w, ts), w, key, source);
    RunsSnoc(s, w, ts, WorkerDelete(0, Slot(source, 2)));
    ts := ts + [WorkerDelete(0, Slot(source, 2))];
  }

  lemma {:induction false} HeadPlain(raw: string)
    requires '\r' !in raw
    ensures Head(raw) == raw
  {
    if raw != "" {
      assert raw[0] in raw;
      HeadPlain(raw[1..]);
    }
  }

  /** Such a text: a reply that only quotes the Message-ID. */
  lemma ReplyIsAccepted()
    ensures Accepts("In-Reply-To: <a@x>", "<a@x>")
  {
    var raw, key := "In-Reply-To: <a@x>", "<a@x>";
    hide Head, Trim;
    HeadPlain(raw);
    TrimTrimmed(key);
    assert raw[13..] == key;
  }
}
