/**
 What whole runs of the migration protocol show in their events alone: when a backup is
 taken, and that a process started in any reachable state can finish.
 */
module MigrateRuns {
  import opened Prelude
  import opened Migrate
  import opened MigrateProtocol

  lemma {:induction false} PlayConcat<S>(repo: Repo<S>, w: World<S>, a: seq<(nat, Event)>, b: seq<(nat, Event)>)
    ensures Play(repo, w, a + b) == match Play(repo, w, a)
                                    case None => None
                                    case Some(mid) => Play(repo, mid, b)
    decreases |a|
  {
    hide Step;
    if a == [] {
      assert a + b == b;
    } else {
      assert (a + b)[0] == a[0] && (a + b)[1..] == a[1..] + b;
      match Step(repo, w, a[0].0, a[0].1) {
        case None =>
        case Some(next) => PlayConcat(repo, next, a[1..], b);
      }
    }
  }

  lemma PlayOne<S>(repo: Repo<S>, w: World<S>, p: nat, e: Event)
    ensures Play(repo, w, [(p, e)]) == Step(repo, w, p, e)
  {
    hide Step;
    assert [(p, e)][1..] == [];
    if Step(repo, w, p, e).Some? {
      assert Play(repo, Step(repo, w, p, e).value, []) == Step(repo, w, p, e);
    }
  }

  lemma PlaySnoc<S>(repo: Repo<S>, w: World<S>, trace: seq<(nat, Event)>, n: nat)
    requires 0 < n <= |trace| && Play(repo, w, trace[..n]).Some?
    ensures Play(repo, w, trace[..n - 1]).Some?
    ensures Play(repo, w, trace[..n])
         == Step(repo, Play(repo, w, trace[..n - 1]).value, trace[n - 1].0, trace[n - 1].1)
  {
    hide Step, Play;
    var (p, e) := trace[n - 1];
    assert trace[..n] == trace[..n - 1] + [(p, e)];
    PlayConcat(repo, w, trace[..n - 1], [(p, e)]);
    if Play(repo, w, trace[..n - 1]).Some? {
      PlayOne(repo, Play(repo, w, trace[..n - 1]).value, p, e);
    }
  }

  lemma PlayPrefix<S>(repo: Repo<S>, w: World<S>, trace: seq<(nat, Event)>, n: nat)
    requires n <= |trace| && Play(repo, w, trace).Some?
    ensures Play(repo, w, trace[..n]).Some?
  {
    hide Play;
    assert trace == trace[..n] + trace[n..];
    PlayConcat(repo, w, trace[..n], trace[n..]);
  }

  lemma NothingYet<S>(repo: Repo<S>, w: World<S>, trace: seq<(nat, Event)>)
    ensures Play(repo, w, trace[..0]) == Some(w)
  {
    assert trace[..0] == [];
  }

  // ----- what a process knows, it learned in this start -----

  predicate Knows<S>(p: Process<S>) {
    !p.Inspecting? && !p.Stopped?
  }

  predicate Found<S>(p: Process<S>)
    requires Knows(p)
  {
    if p.Checking? then p.existing else p.startup.existing
  }

  predicate BackedUp<S>(p: Process<S>)
    requires Knows(p)
  {
    !p.Checking? && p.startup.backedUp
  }

  /** No start of p after position i and before n. */
  predicate SameStart(trace: seq<(nat, Event)>, p: nat, i: nat, n: nat)
    requires n <= |trace|
  {
    forall s | i < s < n :: trace[s] != (p, Start)
  }

  /** p inspected the database at i, in the start that n belongs to, and found this. */
  ghost predicate InspectedAt<S(!new)>(repo: Repo<S>, w: World<S>, trace: seq<(nat, Event)>, p: nat, i: nat, n: nat,
                                       found: bool)
  {
    && i < n <= |trace| && trace[i] == (p, Inspect) && SameStart(trace, p, i, n)
    && Play(repo, w, trace[..i]).Some?
    && found == repo.hasArtifacts(Play(repo, w, trace[..i]).value.db.schema)
  }

  predicate BackupBetween(trace: seq<(nat, Event)>, p: nat, i: nat, n: nat)
    requires n <= |trace|
  {
    exists m | i < m < n :: trace[m] == (p, Backup(true))
  }

  /** Nothing but its own events changes what a process knows. */
  lemma StepKnows<S>(repo: Repo<S>, w: World<S>, q: nat, e: Event, p: nat)
    requires Step(repo, w, q, e).Some? && p in Step(repo, w, q, e).value.procs
    requires Knows(Step(repo, w, q, e).value.procs[p]) && (q, e) != (p, Inspect)
    ensures (q, e) != (p, Start) && p in w.procs && Knows(w.procs[p])
    ensures Found(Step(repo, w, q, e).value.procs[p]) == Found(w.procs[p])
    ensures BackedUp(Step(repo, w, q, e).value.procs[p]) ==> BackedUp(w.procs[p]) || (q, e) == (p, Backup(true))
  {
  }

  /** Inspecting notes whether the database it sees has its artifacts table. */
  lemma InspectKnows<S>(repo: Repo<S>, w: World<S>, p: nat)
    requires Step(repo, w, p, Inspect).Some?
    ensures p in Step(repo, w, p, Inspect).value.procs
    ensures var after := Step(repo, w, p, Inspect).value.procs[p];
      Knows(after) ==> Found(after) == repo.hasArtifacts(w.db.schema) && !BackedUp(after)
  {
  }

  lemma {:induction false} KnownFromInspection<S(!new)>(repo: Repo<S>, w: World<S>, trace: seq<(nat, Event)>, p: nat,
                                                        n: nat) returns (i: nat)
    requires w.procs == map[] && n <= |trace| && Play(repo, w, trace[..n]).Some?
    requires p in Play(repo, w, trace[..n]).value.procs && Knows(Play(repo, w, trace[..n]).value.procs[p])
    ensures InspectedAt(repo, w, trace, p, i, n, Found(Play(repo, w, trace[..n]).value.procs[p]))
    ensures BackedUp(Play(repo, w, trace[..n]).value.procs[p]) ==> BackupBetween(trace, p, i, n)
    decreases n
  {
    hide Step, Knows, Found, BackedUp;
    NothingYet(repo, w, trace);
    assert n > 0;
    hide Play;
    PlaySnoc(repo, w, trace, n);
    var (q, e) := trace[n - 1];
    var before := Play(repo, w, trace[..n - 1]).value;
    if (q, e) == (p, Inspect) {
      InspectKnows(repo, before, p);
      i := n - 1;
    } else {
      StepKnows(repo, before, q, e, p);
      i := KnownFromInspection(repo, w, trace, p, n - 1);
      if BackedUp(before.procs[p]) {
        var m :| i < m < n - 1 && trace[m] == (p, Backup(true));
        assert i < m < n;
      }
    }
  }

  /**
   In every interleaving, each migration a process executes comes after an inspection in the
   same start; and if the database it saw then had its artifacts table, a successful backup of
   its own lies between the two.
   */
  lemma BackupComesFirst<S(!new)>(repo: Repo<S>, base: S, w: World<S>, trace: seq<(nat, Event)>, k: nat, p: nat, j: nat)
    returns (i: nat)
    requires Initial(repo, base, w, k) && Play(repo, w, trace).Some? && j < |trace| && trace[j] == (p, Execute)
    ensures i < j && trace[i] == (p, Inspect) && SameStart(trace, p, i, j)
    ensures Play(repo, w, trace[..i]).Some?
    ensures repo.hasArtifacts(Play(repo, w, trace[..i]).value.db.schema) ==> BackupBetween(trace, p, i, j)
  {
    hide Step, Play, Initial, Inv, BackupBetween;
    PlayPrefix(repo, w, trace, j + 1);
    PlaySnoc(repo, w, trace, j + 1);
    var before := Play(repo, w, trace[..j]).value;
    ExecuteNeedsFile(repo, before, p);
    InitialInv(repo, base, w, k);
    NobodyAtFirst(repo, base, w, k);
    var k' := PlayKeepsInv(repo, base, w, trace[..j], k);
    BackedUpBeforeApplying(repo, base, before, p, k');
    i := KnownFromInspection(repo, w, trace, p, j);
  }

  lemma ExecuteNeedsFile<S>(repo: Repo<S>, w: World<S>, p: nat)
    requires Step(repo, w, p, Execute).Some?
    ensures p in w.procs && w.procs[p].Applying? && w.procs[p].todo != []
  {
  }

  lemma NobodyAtFirst<S(!new)>(repo: Repo<S>, base: S, w: World<S>, k: nat)
    requires Initial(repo, base, w, k)
    ensures w.procs == map[]
  {
  }

  // ----- no backup without need -----

  predicate HasChecked<S>(p: Process<S>) {
    Knows(p) && !p.Checking?
  }

  /** p checked at c, in the start that n belongs to, and these files were pending. */
  ghost predicate CheckedAt<S(!new)>(repo: Repo<S>, w: World<S>, trace: seq<(nat, Event)>, p: nat, c: nat, n: nat,
                                     pending: seq<string>)
  {
    && c < n <= |trace| && trace[c] == (p, Check) && SameStart(trace, p, c, n)
    && Play(repo, w, trace[..c]).Some?
    && (forall f :: f in pending <==> f in repo.files && f !in Play(repo, w, trace[..c]).value.db.rows)
  }

  lemma StepHasChecked<S>(repo: Repo<S>, w: World<S>, q: nat, e: Event, p: nat)
    requires Step(repo, w, q, e).Some? && p in Step(repo, w, q, e).value.procs
    requires HasChecked(Step(repo, w, q, e).value.procs[p]) && (q, e) != (p, Check)
    ensures (q, e) != (p, Start) && p in w.procs && HasChecked(w.procs[p])
    ensures Step(repo, w, q, e).value.procs[p].startup.pending == w.procs[p].startup.pending
  {
  }

  lemma CheckNotes<S>(repo: Repo<S>, w: World<S>, p: nat)
    requires Step(repo, w, p, Check).Some?
    ensures p in Step(repo, w, p, Check).value.procs && HasChecked(Step(repo, w, p, Check).value.procs[p])
    ensures forall f :: f in Step(repo, w, p, Check).value.procs[p].startup.pending <==>
                        f in repo.files && f !in w.db.rows
  {
    UnappliedIs(repo.files, Elements(w.db.rows));
  }

  lemma {:induction false} KnownFromCheck<S(!new)>(repo: Repo<S>, w: World<S>, trace: seq<(nat, Event)>, p: nat, n: nat)
    returns (c: nat)
    requires w.procs == map[] && n <= |trace| && Play(repo, w, trace[..n]).Some?
    requires p in Play(repo, w, trace[..n]).value.procs && HasChecked(Play(repo, w, trace[..n]).value.procs[p])
    ensures CheckedAt(repo, w, trace, p, c, n, Play(repo, w, trace[..n]).value.procs[p].startup.pending)
    decreases n
  {
    hide Step;
    NothingYet(repo, w, trace);
    assert n > 0;
    hide Play;
    PlaySnoc(repo, w, trace, n);
    var (q, e) := trace[n - 1];
    var before := Play(repo, w, trace[..n - 1]).value;
    if (q, e) == (p, Check) {
      CheckNotes(repo, before, p);
      c := n - 1;
    } else {
      StepHasChecked(repo, before, q, e, p);
      c := KnownFromCheck(repo, w, trace, p, n - 1);
    }
  }

  lemma BackupNeedsReason<S>(repo: Repo<S>, w: World<S>, p: nat, e: Event)
    requires e.Backup? && Step(repo, w, p, e).Some?
    ensures p in w.procs && w.procs[p].BackingUp?
  {
  }

  /** Who is about to back up found a schema and has something to apply. */
  ghost predicate HasReason<S>(p: Process<S>) {
    p.BackingUp? ==> p.startup.existing && p.startup.pending != []
  }

  lemma StepKeepsReason<S>(repo: Repo<S>, w: World<S>, q: nat, e: Event, p: nat)
    requires Step(repo, w, q, e).Some? && p in Step(repo, w, q, e).value.procs
    requires p in w.procs ==> HasReason(w.procs[p])
    ensures HasReason(Step(repo, w, q, e).value.procs[p])
  {
  }

  lemma {:induction false} AlwaysReason<S(!new)>(repo: Repo<S>, w: World<S>, trace: seq<(nat, Event)>, p: nat, n: nat)
    requires w.procs == map[] && n <= |trace| && Play(repo, w, trace[..n]).Some?
    requires p in Play(repo, w, trace[..n]).value.procs
    ensures HasReason(Play(repo, w, trace[..n]).value.procs[p])
    decreases n
  {
    hide Step, HasReason;
    NothingYet(repo, w, trace);
    assert n > 0;
    hide Play;
    PlaySnoc(repo, w, trace, n);
    var (q, e) := trace[n - 1];
    var before := Play(repo, w, trace[..n - 1]).value;
    if p in before.procs {
      AlwaysReason(repo, w, trace, p, n - 1);
    }
    StepKeepsReason(repo, before, q, e, p);
  }

  /**
   A backup is attempted only in a start that found the artifacts table at its inspection and
   some file unrecorded at its check.
   */
  lemma BackupOnlyWhenNeeded<S(!new)>(repo: Repo<S>, w: World<S>, trace: seq<(nat, Event)>, p: nat, j: nat, ok: bool)
    returns (i: nat, c: nat)
    requires w.procs == map[] && Play(repo, w, trace).Some? && j < |trace| && trace[j] == (p, Backup(ok))
    ensures i < j && trace[i] == (p, Inspect) && SameStart(trace, p, i, j) && Play(repo, w, trace[..i]).Some?
    ensures repo.hasArtifacts(Play(repo, w, trace[..i]).value.db.schema)
    ensures c < j && trace[c] == (p, Check) && SameStart(trace, p, c, j) && Play(repo, w, trace[..c]).Some?
    ensures exists f | f in repo.files :: f !in Play(repo, w, trace[..c]).value.db.rows
  {
    hide Step, Play;
    PlayPrefix(repo, w, trace, j + 1);
    PlaySnoc(repo, w, trace, j + 1);
    var before := Play(repo, w, trace[..j]).value;
    BackupNeedsReason(repo, before, p, Backup(ok));
    AlwaysReason(repo, w, trace, p, j);
    i := KnownFromInspection(repo, w, trace, p, j);
    c := KnownFromCheck(repo, w, trace, p, j);
    var f := before.procs[p].startup.pending[0];
    assert f in before.procs[p].startup.pending;
  }

  // ----- a start can always finish -----

  predicate NobodyRecorded<S>(w: World<S>) {
    forall q | q in w.procs :: !HasRecorded(w.procs[q])
  }

  /** p is at the first uncommitted file, between transactions. */
  predicate AtFile<S>(repo: Repo<S>, w: World<S>, p: nat, k: nat) {
    && p in w.procs && w.procs[p].Applying? && w.procs[p].tx.NoTx?
    && k <= |repo.files| && w.procs[p].todo == repo.files[k..]
  }

  /** What a finishing run leaves. */
  ghost predicate Finished<S>(repo: Repo<S>, w: World<S>, p: nat) {
    p in w.procs && w.procs[p].Applied? && w.db.rows == repo.files
  }

  predicate OnlyBy(trace: seq<(nat, Event)>, p: nat) {
    forall e | e in trace :: e.0 == p || e.1 == Fail
  }

  lemma OneFileSteps<S>(repo: Repo<S>, base: S, w: World<S>, p: nat, k: nat, next: S)
    returns (mid: World<S>, last: World<S>)
    requires AtFile(repo, w, p, k) && k < |repo.files| && NobodyRecorded(w)
    requires repo.migration(repo.files[k], w.db.schema) == Some(next) && repo.files[k] !in w.db.rows
    ensures Step(repo, w, p, Execute) == Some(mid) && Step(repo, mid, p, Record) == Some(last)
    ensures Step(repo, last, p, Commit).Some? && AtFile(repo, Step(repo, last, p, Commit).value, p, k + 1)
    ensures NobodyRecorded(Step(repo, last, p, Commit).value)
  {
    var me := w.procs[p];
    assert me.todo[0] == repo.files[k] && me.todo[1..] == repo.files[k + 1..];
    mid := w.(procs := w.procs[p := Applying(me.startup, me.todo, me.done, Executed(next))]);
    last := mid.(procs := mid.procs[p := Applying(me.startup, me.todo, me.done, Recorded(next))]);
  }

  lemma AtFileIsNext<S(!new)>(repo: Repo<S>, base: S, w: World<S>, p: nat, k: nat)
    requires Inv(repo, base, w, k) && AtFile(repo, w, p, k) && k < |repo.files|
    requires After(repo, base, |repo.files|).Some?
    ensures repo.migration(repo.files[k], w.db.schema).Some? && repo.files[k] !in w.db.rows
  {
    hide Settles, ProcessOk;
    assert PastBaseline(w.procs[p]) && Committed(repo, base, w.db, k);
    AfterDefined(repo, base, k + 1);
    AppliedByPosition(repo.files, k, k);
  }

  lemma ThreeSteps<S>(repo: Repo<S>, w: World<S>, p: nat, mid: World<S>, last: World<S>, end: World<S>)
    requires Step(repo, w, p, Execute) == Some(mid) && Step(repo, mid, p, Record) == Some(last)
    requires Step(repo, last, p, Commit) == Some(end)
    ensures Play(repo, w, [(p, Execute)] + ([(p, Record)] + [(p, Commit)])) == Some(end)
  {
    hide Step, Play;
    PlayOne(repo, w, p, Execute);
    PlayOne(repo, mid, p, Record);
    PlayOne(repo, last, p, Commit);
    PlayConcat(repo, mid, [(p, Record)], [(p, Commit)]);
    PlayConcat(repo, w, [(p, Execute)], [(p, Record)] + [(p, Commit)]);
  }

  lemma {:induction false} RestCanRun<S(!new)>(repo: Repo<S>, base: S, w: World<S>, p: nat, k: nat)
    returns (trace: seq<(nat, Event)>)
    requires Inv(repo, base, w, k) && AtFile(repo, w, p, k) && NobodyRecorded(w)
    requires After(repo, base, |repo.files|).Some?
    ensures Play(repo, w, trace).Some? && Finished(repo, Play(repo, w, trace).value, p) && OnlyBy(trace, p)
    decreases |repo.files| - k
  {
    hide Step, Play, Inv;
    if k == |repo.files| {
      trace := [(p, Finish)];
      PlayOne(repo, w, p, Finish);
      FinishStep(repo, base, w, p, k);
    } else {
      hide AtFile, NobodyRecorded;
      AtFileIsNext(repo, base, w, p, k);
      var next := repo.migration(repo.files[k], w.db.schema).value;
      var mid, last := OneFileSteps(repo, base, w, p, k, next);
      var end := Step(repo, last, p, Commit).value;
      StepKeepsInv(repo, base, w, p, Execute, k);
      StepKeepsInv(repo, base, mid, p, Record, k);
      StepKeepsInv(repo, base, last, p, Commit, k);
      var rest := RestCanRun(repo, base, end, p, k + 1);
      var first := [(p, Execute)] + ([(p, Record)] + [(p, Commit)]);
      ThreeSteps(repo, w, p, mid, last, end);
      PlayConcat(repo, w, first, rest);
      trace := first + rest;
    }
  }

  lemma FinishStep<S(!new)>(repo: Repo<S>, base: S, w: World<S>, p: nat, k: nat)
    requires Inv(repo, base, w, k) && AtFile(repo, w, p, k) && k == |repo.files|
    ensures Step(repo, w, p, Finish).Some? && Finished(repo, Step(repo, w, p, Finish).value, p)
  {
    hide Settles, ProcessOk;
    assert PastBaseline(w.procs[p]) && Committed(repo, base, w.db, k);
    assert repo.files[k..] == [] && repo.files[..k] == repo.files;
  }

  /** A start from inspection to the list of pending files, with a backup if one is called for. */
  lemma StartSteps<S(!new)>(repo: Repo<S>, base: S, w: World<S>, p: nat, k: nat)
    returns (trace: seq<(nat, Event)>, end: World<S>)
    requires Inv(repo, base, w, k) && NobodyRecorded(w) && (p in w.procs ==> w.procs[p].Stopped?)
    ensures Play(repo, w, trace) == Some(end) && OnlyBy(trace, p)
    ensures Inv(repo, base, end, k) && AtFile(repo, end, p, k) && NobodyRecorded(end)
  {
    hide Play, Inv;
    var w1 := Step(repo, w, p, Start).value;
    StepKeepsInv(repo, base, w, p, Start, k);
    var w2 := Step(repo, w1, p, Inspect).value;
    StepKeepsInv(repo, base, w1, p, Inspect, k);
    var w3 := Step(repo, w2, p, Check).value;
    StepKeepsInv(repo, base, w2, p, Check, k);
    PlayOne(repo, w, p, Start);
    PlayOne(repo, w1, p, Inspect);
    PlayOne(repo, w2, p, Check);
    PlayConcat(repo, w1, [(p, Inspect)], [(p, Check)]);
    PlayConcat(repo, w, [(p, Start)], [(p, Inspect)] + [(p, Check)]);
    var first := [(p, Start)] + ([(p, Inspect)] + [(p, Check)]);
    var rest;
    if w3.procs[p].BackingUp? {
      var w4 := Step(repo, w3, p, Backup(true)).value;
      StepKeepsInv(repo, base, w3, p, Backup(true), k);
      var more;
      more, end := ListingSteps(repo, base, w4, p, k);
      PlayOne(repo, w3, p, Backup(true));
      PlayConcat(repo, w3, [(p, Backup(true))], more);
      rest := [(p, Backup(true))] + more;
    } else {
      rest, end := ListingSteps(repo, base, w3, p, k);
    }
    PlayConcat(repo, w, first, rest);
    trace := first + rest;
  }

  lemma ListingSteps<S(!new)>(repo: Repo<S>, base: S, w: World<S>, p: nat, k: nat)
    returns (trace: seq<(nat, Event)>, end: World<S>)
    requires Inv(repo, base, w, k) && NobodyRecorded(w) && p in w.procs && w.procs[p].ApplyingBaseline?
    ensures Play(repo, w, trace) == Some(end) && OnlyBy(trace, p)
    ensures Inv(repo, base, end, k) && AtFile(repo, end, p, k) && NobodyRecorded(end)
  {
    hide Play, Inv, Unapplied;
    BaselineKeepsInv(repo, base, w, p, k);
    var w1 := Step(repo, w, p, Baseline).value;
    StepKeepsInv(repo, base, w1, p, List, k);
    RowsArePrefix(repo, base, w1, k);
    UnappliedOfPrefix(repo.files, k);
    end := Step(repo, w1, p, List).value;
    PlayOne(repo, w, p, Baseline);
    PlayOne(repo, w1, p, List);
    PlayConcat(repo, w, [(p, Baseline)], [(p, List)]);
    trace := [(p, Baseline)] + [(p, List)];
  }

  /** At most one process holds an uncommitted row; once it fails, nobody does. */
  lemma HolderFails<S(!new)>(repo: Repo<S>, base: S, w: World<S>, k: nat)
    returns (trace: seq<(nat, Event)>, end: World<S>)
    requires Inv(repo, base, w, k)
    ensures Play(repo, w, trace) == Some(end) && (forall e | e in trace :: e.1 == Fail)
    ensures Inv(repo, base, end, k) && NobodyRecorded(end)
  {
    hide Play;
    if q :| q in w.procs && HasRecorded(w.procs[q]) {
      StepKeepsInv(repo, base, w, q, Fail, k);
      PlayOne(repo, w, q, Fail);
      trace, end := [(q, Fail)], Step(repo, w, q, Fail).value;
    } else {
      NothingPlayed(repo, w);
      trace, end := [], w;
    }
  }

  lemma NothingPlayed<S>(repo: Repo<S>, w: World<S>)
    ensures Play(repo, w, []) == Some(w)
  {
  }

  lemma ProcessFails<S(!new)>(repo: Repo<S>, base: S, w: World<S>, p: nat, k: nat)
    returns (trace: seq<(nat, Event)>, end: World<S>)
    requires Inv(repo, base, w, k) && NobodyRecorded(w)
    ensures Play(repo, w, trace) == Some(end) && (forall e | e in trace :: e.1 == Fail)
    ensures Inv(repo, base, end, k) && NobodyRecorded(end) && (p in end.procs ==> end.procs[p].Stopped?)
  {
    hide Play, Inv;
    if p in w.procs {
      StepKeepsInv(repo, base, w, p, Fail, k);
      PlayOne(repo, w, p, Fail);
      trace, end := [(p, Fail)], Step(repo, w, p, Fail).value;
    } else {
      NothingPlayed(repo, w);
      trace, end := [], w;
    }
  }

  /**
   Whatever has happened and whoever has crashed, when the files' SQL runs, a process can start,
   back up if it must, and finish with every file applied; of the others nobody has to do
   anything but fail.
   */
  lemma AStartCanFinish<S(!new)>(repo: Repo<S>, base: S, w: World<S>, past: seq<(nat, Event)>, k: nat, p: nat)
    returns (trace: seq<(nat, Event)>)
    requires Initial(repo, base, w, k) && Play(repo, w, past).Some? && After(repo, base, |repo.files|).Some?
    ensures Play(repo, w, past + trace).Some? && OnlyBy(trace, p)
    ensures var end := Play(repo, w, past + trace).value;
      && p in end.procs && end.procs[p].Applied?
      && end.db.rows == repo.files && After(repo, base, |repo.files|) == Some(end.db.schema)
  {
    hide Step, Play, Inv, After, NobodyRecorded;
    InitialInv(repo, base, w, k);
    var k' := PlayKeepsInv(repo, base, w, past, k);
    var now := Play(repo, w, past).value;
    var a, w1 := HolderFails(repo, base, now, k');
    var b, w2 := ProcessFails(repo, base, w1, p, k');
    var c, w3 := StartSteps(repo, base, w2, p, k');
    var d := RestCanRun(repo, base, w3, p, k');
    PlayConcat(repo, w2, c, d);
    PlayConcat(repo, w1, b, c + d);
    PlayConcat(repo, now, a, b + (c + d));
    trace := a + (b + (c + d));
    PlayConcat(repo, w, past, trace);
    FullApplyReachesTheEnd(repo, base, w, past + trace, k, p);
  }
}
