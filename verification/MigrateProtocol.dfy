/**
 Several processes start against one database: inspect, check for pending files, back up,
 then Apply, each migration a transaction of its own that may fail or crash at any point.
 */
module MigrateProtocol {
  import opened Prelude
  import opened Migrate

  /** What a process learned before Apply, and whether its own backup succeeded. */
  datatype Startup = Startup(existing: bool, pending: seq<string>, backedUp: bool)

  /** A transaction on the next file: its SQL has run against a snapshot, then its row is in. */
  datatype Tx<S> = NoTx | Executed(next: S) | Recorded(next: S)

  datatype Process<S> =
    | Inspecting
    | Checking(existing: bool)
    | BackingUp(startup: Startup)
    | ApplyingBaseline(startup: Startup)
    | ListingPending(startup: Startup)
    | Applying(startup: Startup, todo: seq<string>, done: seq<string>, tx: Tx<S>)
    | Applied(startup: Startup, done: seq<string>)
    | Stopped

  /** The shared database and every process ever started, by process id. */
  datatype World<S> = World(db: Db<S>, procs: map<nat, Process<S>>)

  datatype Event =
    | Start
    | Inspect
    | Check
    | Backup(succeeds: bool)
    | Baseline
    | List
    | Execute
    | Record
    | Commit
    | Finish
    | Fail   // an error return, log.Fatalf, or a crash

  /** Another open transaction holds the uncommitted row for this name, so an insert waits. */
  predicate HeldByOther<S>(procs: map<nat, Process<S>>, me: nat, name: string) {
    exists p | p in procs :: p != me && Holds(procs[p], name)
  }

  predicate Holds<S>(p: Process<S>, name: string) {
    p.Applying? && p.tx.Recorded? && p.todo != [] && p.todo[0] == name
  }

  /** One step of process p; None when the event cannot happen now. */
  function Step<S>(repo: Repo<S>, w: World<S>, p: nat, e: Event): Option<World<S>> {
    if e.Start? then
      if p in w.procs && !w.procs[p].Stopped? then None else Some(w.(procs := w.procs[p := Inspecting]))
    else if p !in w.procs then None
    else if e.Fail? then Some(w.(procs := w.procs[p := Stopped]))
    else
      match (w.procs[p], e)
      case (Inspecting, Inspect) =>
        Some(w.(procs := w.procs[p := Checking(repo.hasArtifacts(w.db.schema))]))
      case (Checking(existing), Check) =>
        var pending := Unapplied(repo.files, Elements(w.db.rows));
        var startup := Startup(existing, pending, false);
        var next := if existing && |pending| > 0 then BackingUp(startup) else ApplyingBaseline(startup);
        Some(w.(procs := w.procs[p := next]))
      case (BackingUp(startup), Backup(succeeds)) =>
        Some(w.(procs := w.procs[p := if succeeds then ApplyingBaseline(startup.(backedUp := true)) else Stopped]))
      case (ApplyingBaseline(startup), Baseline) =>
        (match repo.baseline(w.db.schema)
         case None => Some(w.(procs := w.procs[p := Stopped]))
         case Some(base) => Some(World(w.db.(schema := base), w.procs[p := ListingPending(startup)])))
      case (ListingPending(startup), List) =>
        Some(w.(procs := w.procs[p := Applying(startup, Unapplied(repo.files, Elements(w.db.rows)), [], NoTx)]))
      case (Applying(startup, todo, done, NoTx), Execute) =>
        if todo == [] then None
        else
          (match repo.migration(todo[0], w.db.schema)
           case None => Some(w.(procs := w.procs[p := Stopped]))
           case Some(next) => Some(w.(procs := w.procs[p := Applying(startup, todo, done, Executed(next))])))
      case (Applying(startup, todo, done, Executed(next)), Record) =>
        if todo == [] || HeldByOther(w.procs, p, todo[0]) then None
        else if todo[0] in w.db.rows then Some(w.(procs := w.procs[p := Stopped]))
        else Some(w.(procs := w.procs[p := Applying(startup, todo, done, Recorded(next))]))
      case (Applying(startup, todo, done, Recorded(next)), Commit) =>
        if todo == [] then None
        else Some(World(Db(next, w.db.rows + [todo[0]]),
                        w.procs[p := Applying(startup, todo[1..], done + [todo[0]], NoTx)]))
      case (Applying(startup, todo, done, NoTx), Finish) =>
        if todo == [] then Some(w.(procs := w.procs[p := Applied(startup, done)])) else None
      case _ => None
  }

  // ----- the invariant -----

  /** The baseline is a no-op on what it made and on every later schema, as its comment says. */
  ghost predicate Settles<S(!new)>(repo: Repo<S>, base: S) {
    forall k: nat | k <= |repo.files| && After(repo, base, k).Some? ::
      repo.baseline(After(repo, base, k).value) == After(repo, base, k)
  }

  /** k files are committed: their rows are in, and their effects on top of the baseline. */
  ghost predicate Committed<S>(repo: Repo<S>, base: S, db: Db<S>, k: nat) {
    k <= |repo.files| && db.rows == repo.files[..k] && After(repo, base, k) == Some(db.schema)
  }

  /** A database the baseline has not been run on yet. */
  ghost predicate Untouched<S>(repo: Repo<S>, base: S, db: Db<S>) {
    db.rows == [] && repo.baseline(db.schema) == Some(base)
  }

  predicate PastBaseline<S>(p: Process<S>) {
    p.ListingPending? || p.Applying? || p.Applied?
  }

  predicate HasRecorded<S>(p: Process<S>) {
    p.Applying? && p.tx.Recorded?
  }

  /** A list that is the rest of the files from some committed position on. */
  predicate RestFrom(files: seq<string>, todo: seq<string>, k: nat) {
    |todo| <= |files| && |files| - |todo| <= k && todo == files[|files| - |todo|..]
  }

  predicate StartupOk(files: seq<string>, s: Startup, k: nat) {
    RestFrom(files, s.pending, k) && (s.existing && s.pending != [] ==> s.backedUp)
  }

  ghost predicate TxOk<S>(repo: Repo<S>, db: Db<S>, todo: seq<string>, tx: Tx<S>, k: nat) {
    tx.NoTx? ||
    (todo != [] &&
      (tx.Recorded? ==> |repo.files| - |todo| == k) &&
      (|repo.files| - |todo| == k ==> repo.migration(todo[0], db.schema) == Some(tx.next)))
  }

  ghost predicate ProcessOk<S>(repo: Repo<S>, db: Db<S>, p: Process<S>, k: nat) {
    match p
    case Inspecting => true
    case Checking(_) => true
    case Stopped => true
    case BackingUp(s) => RestFrom(repo.files, s.pending, k)
    case ApplyingBaseline(s) => StartupOk(repo.files, s, k)
    case ListingPending(s) => StartupOk(repo.files, s, k)
    case Applying(s, todo, done, tx) =>
      && StartupOk(repo.files, s, k)
      && RestFrom(repo.files, todo, k) && RestFrom(repo.files, done + todo, k)
      && |done + todo| <= |s.pending|
      && TxOk(repo, db, todo, tx, k)
    case Applied(s, done) =>
      StartupOk(repo.files, s, k) && RestFrom(repo.files, done, k) && |done| <= |s.pending| && k == |repo.files|
  }

  ghost predicate Inv<S(!new)>(repo: Repo<S>, base: S, w: World<S>, k: nat) {
    && DistinctFiles(repo.files) && Settles(repo, base)
    && (Committed(repo, base, w.db, k) || (k == 0 && Untouched(repo, base, w.db)))
    && (forall p | p in w.procs :: ProcessOk(repo, w.db, w.procs[p], k))
    && (forall p | p in w.procs && PastBaseline(w.procs[p]) :: Committed(repo, base, w.db, k))
    && (forall p, q | p in w.procs && q in w.procs && p != q :: !(HasRecorded(w.procs[p]) && HasRecorded(w.procs[q])))
  }

  lemma PendingIsRest(files: seq<string>, rows: seq<string>, k: nat)
    requires DistinctFiles(files) && k <= |files| && rows == files[..k]
    ensures RestFrom(files, Unapplied(files, Elements(rows)), k) && |Unapplied(files, Elements(rows))| == |files| - k
  {
    UnappliedOfPrefix(files, k);
  }

  /** Everything but a baseline and a commit leaves the database alone. */
  lemma LocalStepKeepsInv<S(!new)>(repo: Repo<S>, base: S, w: World<S>, p: nat, p': Process<S>, k: nat)
    requires Inv(repo, base, w, k)
    requires ProcessOk(repo, w.db, p', k)
    requires PastBaseline(p') ==> Committed(repo, base, w.db, k)
    requires HasRecorded(p') ==> forall q | q in w.procs && q != p :: !HasRecorded(w.procs[q])
    ensures Inv(repo, base, w.(procs := w.procs[p := p']), k)
  {
    hide ProcessOk, Committed, Untouched, Settles, DistinctFiles;
  }

  lemma BaselineKeepsInv<S(!new)>(repo: Repo<S>, base: S, w: World<S>, p: nat, k: nat)
    requires Inv(repo, base, w, k) && p in w.procs && w.procs[p].ApplyingBaseline?
    ensures repo.baseline(w.db.schema).Some?
    ensures Inv(repo, base, Step(repo, w, p, Baseline).value, k)
  {
    var next := repo.baseline(w.db.schema).value;
    var db := w.db.(schema := next);
    assert Committed(repo, base, db, k);
    assert Committed(repo, base, w.db, k) ==> db == w.db;
    forall q | q in w.procs
      ensures ProcessOk(repo, db, w.procs[q], k)
    {
      assert ProcessOk(repo, w.db, w.procs[q], k);
    }
    assert Inv(repo, base, World(db, w.procs), k);
    LocalStepKeepsInv(repo, base, World(db, w.procs), p, ListingPending(w.procs[p].startup), k);
  }

  /** A row not yet in the table names the first uncommitted file. */
  lemma NewRowIsNext(files: seq<string>, rows: seq<string>, todo: seq<string>, k: nat)
    requires k <= |files| && rows == files[..k] && RestFrom(files, todo, k) && todo != []
    ensures |files| - |todo| < k ==> todo[0] in rows
    ensures |files| - |todo| == k ==> todo[0] == files[k]
  {
    var j := |files| - |todo|;
    if j < k {
      assert files[..k][j] == files[j];
    }
  }

  /** An open transaction with its row in is on the first uncommitted file. */
  lemma RecordedHolds<S(!new)>(repo: Repo<S>, base: S, w: World<S>, q: nat, k: nat)
    requires Inv(repo, base, w, k) && q in w.procs
    ensures HasRecorded(w.procs[q]) ==> k < |repo.files| && Holds(w.procs[q], repo.files[k])
  {
    hide Settles, DistinctFiles, Committed, Untouched;
    assert ProcessOk(repo, w.db, w.procs[q], k);
  }

  /** The process that may insert its row is on that file too, and nobody else has one in. */
  lemma NobodyElseRecorded<S(!new)>(repo: Repo<S>, base: S, w: World<S>, p: nat, q: nat, k: nat)
    requires Inv(repo, base, w, k) && p in w.procs && w.procs[p].Applying? && w.procs[p].todo != []
    requires RestFrom(repo.files, w.procs[p].todo, k) && w.db.rows == repo.files[..k]
    requires !HeldByOther(w.procs, p, w.procs[p].todo[0]) && w.procs[p].todo[0] !in w.db.rows
    requires q in w.procs && q != p
    ensures !HasRecorded(w.procs[q])
  {
    hide Inv, RestFrom, Holds, HasRecorded;
    RowsArePrefix(repo, base, w, k);
    NewRowIsNext(repo.files, w.db.rows, w.procs[p].todo, k);
    RestLength(repo.files, w.procs[p].todo, k);
    RecordedHolds(repo, base, w, q, k);
  }

  lemma RestLength(files: seq<string>, todo: seq<string>, k: nat)
    requires RestFrom(files, todo, k)
    ensures |files| - |todo| <= k
  {
  }

  lemma AtExecuted<S(!new)>(repo: Repo<S>, base: S, w: World<S>, p: nat, k: nat)
    requires Inv(repo, base, w, k) && p in w.procs && w.procs[p].Applying?
    ensures Committed(repo, base, w.db, k) && w.db.rows == repo.files[..k]
    ensures ProcessOk(repo, w.db, w.procs[p], k) && RestFrom(repo.files, w.procs[p].todo, k)
  {
    hide Settles, DistinctFiles, After;
    assert PastBaseline(w.procs[p]);
  }

  /** At the first uncommitted file the executed transaction becomes a recorded one. */
  lemma RecordedOk<S>(repo: Repo<S>, db: Db<S>, me: Process<S>, k: nat)
    requires ProcessOk(repo, db, me, k) && me.Applying? && me.tx.Executed? && me.todo != []
    requires |repo.files| - |me.todo| == k
    ensures ProcessOk(repo, db, me.(tx := Recorded(me.tx.next)), k)
  {
    hide StartupOk, RestFrom;
  }

  lemma RecordKeepsInv<S(!new)>(repo: Repo<S>, base: S, w: World<S>, p: nat, k: nat)
    requires Inv(repo, base, w, k) && p in w.procs && w.procs[p].Applying? && w.procs[p].tx.Executed?
    requires w.procs[p].todo != [] && !HeldByOther(w.procs, p, w.procs[p].todo[0]) && w.procs[p].todo[0] !in w.db.rows
    ensures Inv(repo, base, Step(repo, w, p, Record).value, k)
  {
    hide Inv, ProcessOk, RestFrom, HasRecorded, HeldByOther;
    var me := w.procs[p];
    AtExecuted(repo, base, w, p, k);
    RowsArePrefix(repo, base, w, k);
    NewRowIsNext(repo.files, w.db.rows, me.todo, k);
    RestLength(repo.files, me.todo, k);
    RecordedOk(repo, w.db, me, k);
    forall q | q in w.procs && q != p
      ensures !HasRecorded(w.procs[q])
    {
      NobodyElseRecorded(repo, base, w, p, q, k);
    }
    LocalStepKeepsInv(repo, base, w, p, me.(tx := Recorded(me.tx.next)), k);
  }

  lemma CommitKeepsOther<S>(repo: Repo<S>, db: Db<S>, db': Db<S>, p: Process<S>, k: nat)
    requires ProcessOk(repo, db, p, k) && !HasRecorded(p) && k + 1 <= |repo.files|
    ensures ProcessOk(repo, db', p, k + 1)
  {
  }

  lemma CommitKeepsMine<S>(repo: Repo<S>, db: Db<S>, db': Db<S>, me: Process<S>, k: nat)
    requires ProcessOk(repo, db, me, k) && HasRecorded(me) && k + 1 <= |repo.files|
    ensures ProcessOk(repo, db', Applying(me.startup, me.todo[1..], me.done + [me.todo[0]], NoTx), k + 1)
  {
    assert me.done + [me.todo[0]] + me.todo[1..] == me.done + me.todo;
  }

  lemma CommittedNext<S>(repo: Repo<S>, base: S, db: Db<S>, me: Process<S>, k: nat)
    requires ProcessOk(repo, db, me, k) && HasRecorded(me) && Committed(repo, base, db, k)
    ensures me.todo != [] && k + 1 <= |repo.files|
    ensures Committed(repo, base, Db(me.tx.next, db.rows + [me.todo[0]]), k + 1)
  {
    hide StartupOk;
    assert me.todo[0] == repo.files[k];
    assert repo.files[..k + 1] == repo.files[..k] + [repo.files[k]];
  }

  lemma OnlyOneRecorded<S(!new)>(repo: Repo<S>, base: S, w: World<S>, p: nat, q: nat, k: nat)
    requires Inv(repo, base, w, k) && p in w.procs && q in w.procs && q != p && HasRecorded(w.procs[p])
    ensures ProcessOk(repo, w.db, w.procs[q], k) && !HasRecorded(w.procs[q])
  {
    hide Settles, DistinctFiles, Committed, Untouched, ProcessOk;
  }

  /** The invariant of the world a commit leads to, from that of its parts. */
  lemma AfterCommit<S(!new)>(repo: Repo<S>, base: S, w: World<S>, k: nat)
    requires DistinctFiles(repo.files) && Settles(repo, base) && Committed(repo, base, w.db, k)
    requires forall q | q in w.procs :: ProcessOk(repo, w.db, w.procs[q], k) && !HasRecorded(w.procs[q])
    ensures Inv(repo, base, w, k)
  {
    hide Settles, DistinctFiles, Committed, ProcessOk;
  }

  lemma SettingsOf<S(!new)>(repo: Repo<S>, base: S, w: World<S>, k: nat)
    requires Inv(repo, base, w, k)
    ensures DistinctFiles(repo.files) && Settles(repo, base)
  {
  }

  lemma CommitKeepsInv<S(!new)>(repo: Repo<S>, base: S, w: World<S>, p: nat, k: nat)
    requires Inv(repo, base, w, k) && p in w.procs && HasRecorded(w.procs[p])
    ensures w.procs[p].todo != [] && Inv(repo, base, Step(repo, w, p, Commit).value, k + 1)
  {
    hide Inv, ProcessOk, Committed, Settles, DistinctFiles;
    var me := w.procs[p];
    SettingsOf(repo, base, w, k);
    AtExecuted(repo, base, w, p, k);
    CommittedNext(repo, base, w.db, me, k);
    var w' := Step(repo, w, p, Commit).value;
    forall q | q in w'.procs
      ensures ProcessOk(repo, w'.db, w'.procs[q], k + 1) && !HasRecorded(w'.procs[q])
    {
      if q == p {
        CommitKeepsMine(repo, w.db, w'.db, me, k);
      } else {
        OnlyOneRecorded(repo, base, w, p, q, k);
        CommitKeepsOther(repo, w.db, w'.db, w.procs[q], k);
      }
    }
    AfterCommit(repo, base, w', k + 1);
  }

  lemma RowsArePrefix<S(!new)>(repo: Repo<S>, base: S, w: World<S>, k: nat)
    requires Inv(repo, base, w, k)
    ensures DistinctFiles(repo.files) && k <= |repo.files| && w.db.rows == repo.files[..k]
  {
  }

  lemma CheckKeepsInv<S(!new)>(repo: Repo<S>, base: S, w: World<S>, p: nat, k: nat)
    requires Inv(repo, base, w, k) && Step(repo, w, p, Check).Some?
    ensures Inv(repo, base, Step(repo, w, p, Check).value, k)
  {
    hide Inv, Unapplied, RestFrom;
    var me := w.procs[p];
    RowsArePrefix(repo, base, w, k);
    var pending := Unapplied(repo.files, Elements(w.db.rows));
    PendingIsRest(repo.files, w.db.rows, k);
    var s := Startup(me.existing, pending, false);
    LocalStepKeepsInv(repo, base, w, p, if me.existing && |pending| > 0 then BackingUp(s) else ApplyingBaseline(s), k);
  }

  lemma ListedOk<S>(repo: Repo<S>, db: Db<S>, startup: Startup, pending: seq<string>, k: nat)
    requires StartupOk(repo.files, startup, k) && RestFrom(repo.files, pending, k)
    requires |pending| == |repo.files| - k
    ensures ProcessOk(repo, db, Applying(startup, pending, [], NoTx), k)
  {
    assert [] + pending == pending;
  }

  lemma AtListing<S(!new)>(repo: Repo<S>, base: S, w: World<S>, p: nat, k: nat)
    requires Inv(repo, base, w, k) && p in w.procs && w.procs[p].ListingPending?
    ensures DistinctFiles(repo.files) && Committed(repo, base, w.db, k)
    ensures StartupOk(repo.files, w.procs[p].startup, k)
  {
    assert ProcessOk(repo, w.db, w.procs[p], k);
  }

  lemma ListKeepsInv<S(!new)>(repo: Repo<S>, base: S, w: World<S>, p: nat, k: nat)
    requires Inv(repo, base, w, k) && Step(repo, w, p, List).Some?
    ensures Inv(repo, base, Step(repo, w, p, List).value, k)
  {
    hide Inv, Unapplied, StartupOk, RestFrom, ProcessOk;
    var me := w.procs[p];
    AtListing(repo, base, w, p, k);
    var pending := Unapplied(repo.files, Elements(w.db.rows));
    PendingIsRest(repo.files, w.db.rows, k);
    ListedOk(repo, w.db, me.startup, pending, k);
    LocalStepKeepsInv(repo, base, w, p, Applying(me.startup, pending, [], NoTx), k);
  }

  lemma ExecuteKeepsInv<S(!new)>(repo: Repo<S>, base: S, w: World<S>, p: nat, k: nat)
    requires Inv(repo, base, w, k) && Step(repo, w, p, Execute).Some?
    ensures Inv(repo, base, Step(repo, w, p, Execute).value, k)
  {
    hide Settles, DistinctFiles, RestFrom;
    var me := w.procs[p];
    assert ProcessOk(repo, w.db, me, k);
    var tx := repo.migration(me.todo[0], w.db.schema);
    LocalStepKeepsInv(repo, base, w, p, if tx.None? then Stopped else me.(tx := Executed(tx.value)), k);
  }

  lemma FinishKeepsInv<S(!new)>(repo: Repo<S>, base: S, w: World<S>, p: nat, e: Event, k: nat)
    requires Inv(repo, base, w, k) && (e.Inspect? || e.Backup? || e.Finish?) && Step(repo, w, p, e).Some?
    ensures Inv(repo, base, Step(repo, w, p, e).value, k)
  {
    hide Settles, DistinctFiles, TxOk;
    var me := w.procs[p];
    assert ProcessOk(repo, w.db, me, k);
    match e {
      case Inspect => LocalStepKeepsInv(repo, base, w, p, Checking(repo.hasArtifacts(w.db.schema)), k);
      case Backup(succeeds) =>
        LocalStepKeepsInv(repo, base, w, p,
                          if succeeds then ApplyingBaseline(me.startup.(backedUp := true)) else Stopped, k);
      case Finish =>
        assert me.done + [] == me.done;
        LocalStepKeepsInv(repo, base, w, p, Applied(me.startup, me.done), k);
    }
  }

  /** Every step of every process keeps the invariant; only a commit moves the prefix, by one file. */
  lemma StepKeepsInv<S(!new)>(repo: Repo<S>, base: S, w: World<S>, p: nat, e: Event, k: nat)
    requires Inv(repo, base, w, k) && Step(repo, w, p, e).Some?
    ensures Inv(repo, base, Step(repo, w, p, e).value, if e.Commit? then k + 1 else k)
  {
    hide Inv;
    match e {
      case Start => LocalStepKeepsInv(repo, base, w, p, Inspecting, k);
      case Fail => LocalStepKeepsInv(repo, base, w, p, Stopped, k);
      case Baseline => BaselineKeepsInv(repo, base, w, p, k);
      case Commit => CommitKeepsInv(repo, base, w, p, k);
      case Record =>
        if w.procs[p].todo[0] !in w.db.rows {
          RecordKeepsInv(repo, base, w, p, k);
        } else {
          LocalStepKeepsInv(repo, base, w, p, Stopped, k);
        }
      case Execute => ExecuteKeepsInv(repo, base, w, p, k);
      case Check => CheckKeepsInv(repo, base, w, p, k);
      case List => ListKeepsInv(repo, base, w, p, k);
      case Inspect => FinishKeepsInv(repo, base, w, p, e, k);
      case Backup(_) => FinishKeepsInv(repo, base, w, p, e, k);
      case Finish => FinishKeepsInv(repo, base, w, p, e, k);
    }
  }

  // ----- whole runs -----

  function Play<S>(repo: Repo<S>, w: World<S>, trace: seq<(nat, Event)>): Option<World<S>>
    decreases |trace|
  {
    if trace == [] then Some(w)
    else
      var next :- Step(repo, w, trace[0].0, trace[0].1);
      Play(repo, next, trace[1..])
  }

  /** Nobody has started; the database is untouched or holds k files' worth of commits. */
  ghost predicate Initial<S(!new)>(repo: Repo<S>, base: S, w: World<S>, k: nat) {
    && DistinctFiles(repo.files) && Settles(repo, base) && w.procs == map[]
    && (Committed(repo, base, w.db, k) || (k == 0 && Untouched(repo, base, w.db)))
  }

  lemma {:induction false} PlayKeepsInv<S(!new)>(repo: Repo<S>, base: S, w: World<S>, trace: seq<(nat, Event)>, k: nat)
    returns (k': nat)
    requires Inv(repo, base, w, k) && Play(repo, w, trace).Some?
    ensures k <= k' && Inv(repo, base, Play(repo, w, trace).value, k')
    decreases |trace|
  {
    if trace == [] {
      k' := k;
    } else {
      var (p, e) := trace[0];
      StepKeepsInv(repo, base, w, p, e, k);
      k' := PlayKeepsInv(repo, base, Step(repo, w, p, e).value, trace[1..], if e.Commit? then k + 1 else k);
    }
  }

  /**
   In every interleaving, with failures and crashes anywhere, the recorded rows are a
   duplicate-free prefix of the file list that only grows, and the schema is the baseline
   followed by exactly those files in order (or untouched while nothing is recorded).
   */
  lemma CommittedPrefix<S(!new)>(repo: Repo<S>, base: S, w: World<S>, trace: seq<(nat, Event)>, k: nat)
    requires Initial(repo, base, w, k) && Play(repo, w, trace).Some?
    ensures var end := Play(repo, w, trace).value.db;
      && w.db.rows <= end.rows <= repo.files
      && (After(repo, base, |end.rows|) == Some(end.schema) || Untouched(repo, base, end))
      && (forall i, j | 0 <= i < j < |end.rows| :: end.rows[i] != end.rows[j])
  {
    var k' := PlayKeepsInv(repo, base, w, trace, k);
  }

  /**
   Once any process's Apply has returned without error, the database is what one
   uninterrupted Apply would have made of the initial one.
   */
  lemma FullApplyReachesTheEnd<S(!new)>(repo: Repo<S>, base: S, w: World<S>, trace: seq<(nat, Event)>, k: nat, p: nat)
    requires Initial(repo, base, w, k) && Play(repo, w, trace).Some?
    requires p in Play(repo, w, trace).value.procs && Play(repo, w, trace).value.procs[p].Applied?
    ensures var end := Play(repo, w, trace).value.db;
      && end.rows == repo.files && After(repo, base, |repo.files|) == Some(end.schema)
      && repo.baseline(w.db.schema).Some?
      && ApplyFiles(repo, w.db.(schema := repo.baseline(w.db.schema).value), Unapplied(repo.files, Elements(w.db.rows)))
         == (end, repo.files[k..], true)
  {
    hide Play, After, ApplyFiles, Unapplied, Elements;
    InitialInv(repo, base, w, k);
    var k' := PlayKeepsInv(repo, base, w, trace, k);
    AppliedIsEnd(repo, base, Play(repo, w, trace).value, p, k');
    AfterDefined(repo, base, k);
    BaselineOfInitial(repo, base, w, k);
    ApplyFilesFromPrefix(repo, base, k);
    UnappliedOfPrefix(repo.files, k);
  }

  lemma InitialInv<S(!new)>(repo: Repo<S>, base: S, w: World<S>, k: nat)
    requires Initial(repo, base, w, k)
    ensures Inv(repo, base, w, k)
  {
    hide Settles, DistinctFiles, Committed, Untouched;
  }

  lemma AppliedIsEnd<S(!new)>(repo: Repo<S>, base: S, end: World<S>, p: nat, k: nat)
    requires Inv(repo, base, end, k) && p in end.procs && end.procs[p].Applied?
    ensures end.db.rows == repo.files && After(repo, base, |repo.files|) == Some(end.db.schema)
  {
    hide Settles, DistinctFiles, After;
    assert PastBaseline(end.procs[p]) && ProcessOk(repo, end.db, end.procs[p], k) && Committed(repo, base, end.db, k);
    assert repo.files[..|repo.files|] == repo.files;
  }

  /** The baseline run on the initial database leads to the schema of its committed files. */
  lemma BaselineOfInitial<S(!new)>(repo: Repo<S>, base: S, w: World<S>, k: nat)
    requires Initial(repo, base, w, k)
    ensures k <= |repo.files| && w.db.rows == repo.files[..k]
    ensures After(repo, base, k).Some? && repo.baseline(w.db.schema) == After(repo, base, k)
  {
    hide DistinctFiles;
    assert After(repo, base, 0) == Some(base);
  }

  /** What a process has applied so far, and returns in the end, is recorded. */
  lemma AppliedFilesAreRecorded<S(!new)>(repo: Repo<S>, base: S, w: World<S>, trace: seq<(nat, Event)>, k: nat, p: nat)
    requires Initial(repo, base, w, k) && Play(repo, w, trace).Some?
    requires p in Play(repo, w, trace).value.procs
    requires Play(repo, w, trace).value.procs[p].Applying? || Play(repo, w, trace).value.procs[p].Applied?
    ensures forall f | f in Play(repo, w, trace).value.procs[p].done :: f in Play(repo, w, trace).value.db.rows
  {
    var k' := PlayKeepsInv(repo, base, w, trace, k);
    var end := Play(repo, w, trace).value;
    var me := end.procs[p];
    assert ProcessOk(repo, end.db, me, k') && end.db.rows == repo.files[..k'];
    assert me.done + [] == me.done;
    DoneIsCommitted(repo.files, me.done, if me.Applying? then me.todo else [], k');
  }

  lemma DoneIsCommitted(files: seq<string>, done: seq<string>, todo: seq<string>, k: nat)
    requires k <= |files| && RestFrom(files, done + todo, k)
    requires RestFrom(files, todo, k) && (todo == [] ==> k == |files|)
    ensures forall f | f in done :: f in files[..k]
  {
    forall i | 0 <= i < |done|
      ensures done[i] in files[..k]
    {
      var j := |files| - |done + todo| + i;
      assert (done + todo)[i] == files[j] && j < k;
      assert files[..k][j] == done[i];
    }
  }

  /** Before its first file a process that found an existing schema has noted its own successful backup. */
  lemma BackedUpBeforeApplying<S(!new)>(repo: Repo<S>, base: S, w: World<S>, p: nat, k: nat)
    requires Inv(repo, base, w, k) && p in w.procs && w.procs[p].Applying? && w.procs[p].todo != []
    ensures w.procs[p].startup.existing ==> w.procs[p].startup.backedUp
  {
    assert ProcessOk(repo, w.db, w.procs[p], k);
  }
}
