/**
 The migration runner and the startup sequence around it, as a protocol of any number of
 processes that share one database. S is the type of database schemas; what a SQL file does
 to a schema is a parameter.
 */
module Migrate {
  import opened Prelude

  /** The embedded files and their effects; None is a SQL error. */
  datatype Repo<!S> = Repo(
    files: seq<string>,
    baseline: S -> Option<S>,
    migration: (string, S) -> Option<S>,
    hasArtifacts: S -> bool)

  /** File names of one directory are distinct; their order is the apply order. */
  predicate DistinctFiles(files: seq<string>) {
    forall i, j | 0 <= i < j < |files| :: files[i] != files[j]
  }

  /** The schema after the first k files, one after the other. */
  function After<S>(repo: Repo<S>, s: S, k: nat): Option<S>
    requires k <= |repo.files|
  {
    if k == 0 then Some(s)
    else
      var before :- After(repo, s, k - 1);
      repo.migration(repo.files[k - 1], before)
  }

  /** schema_migrations holds rows in commit order; its primary key forbids duplicates. */
  datatype Db<S> = Db(schema: S, rows: seq<string>)

  // ----- one process alone -----

  function Unapplied(files: seq<string>, applied: set<string>): seq<string> {
    if files == [] then []
    else (if files[0] in applied then [] else [files[0]]) + Unapplied(files[1..], applied)
  }

  function Elements(rows: seq<string>): set<string> {
    set r | r in rows
  }

  /** What the loop of Apply does to a database nobody else touches. */
  function ApplyFiles<S>(repo: Repo<S>, db: Db<S>, todo: seq<string>): (Db<S>, seq<string>, bool)
    decreases |todo|
  {
    if todo == [] then (db, [], true)
    else
      match repo.migration(todo[0], db.schema)
      case None => (db, [], false)
      case Some(next) =>
        if todo[0] in db.rows then (db, [], false)
        else
          var (after, done, ok) := ApplyFiles(repo, Db(next, db.rows + [todo[0]]), todo[1..]);
          (after, [todo[0]] + done, ok)
  }

  /** The schema after these files, whatever list they come from. */
  function EffectOf<S>(repo: Repo<S>, s: S, names: seq<string>): Option<S>
    decreases |names|
  {
    if names == [] then Some(s)
    else
      var next :- repo.migration(names[0], s);
      EffectOf(repo, next, names[1..])
  }

  lemma EffectOfCons<S>(repo: Repo<S>, s: S, name: string, names: seq<string>)
    requires repo.migration(name, s).Some?
    ensures EffectOf(repo, s, [name] + names) == EffectOf(repo, repo.migration(name, s).value, names)
  {
    assert ([name] + names)[1..] == names;
  }

  /** What a run over todo that started from this database may have ended with. */
  ghost predicate StopsRightly<S>(repo: Repo<S>, db: Db<S>, todo: seq<string>, after: Db<S>, done: seq<string>,
                                  ok: bool)
  {
    && done <= todo && (ok <==> done == todo)
    && after.rows == db.rows + done && EffectOf(repo, db.schema, done) == Some(after.schema)
    && (!ok ==> |done| < |todo| &&
                (repo.migration(todo[|done|], after.schema).None? || todo[|done|] in after.rows))
  }

  lemma StopsAtOnce<S>(repo: Repo<S>, db: Db<S>, todo: seq<string>)
    requires todo == [] || repo.migration(todo[0], db.schema).None? || todo[0] in db.rows
    ensures StopsRightly(repo, db, todo, db, [], todo == [])
    ensures ApplyFiles(repo, db, todo) == (db, [], todo == [])
  {
    assert db.rows + [] == db.rows;
  }

  lemma StopsLater<S>(repo: Repo<S>, db: Db<S>, next: Db<S>, name: string, todo: seq<string>, after: Db<S>,
                      done: seq<string>, ok: bool)
    requires repo.migration(name, db.schema) == Some(next.schema) && next.rows == db.rows + [name]
    requires StopsRightly(repo, next, todo, after, done, ok)
    ensures StopsRightly(repo, db, [name] + todo, after, [name] + done, ok)
  {
    EffectOfCons(repo, db.schema, name, done);
    assert ([name] + done)[1..] == done && ([name] + todo)[1..] == todo;
    assert db.rows + [name] + done == db.rows + ([name] + done);
  }

  /**
   The loop commits a prefix of its list and records exactly that; it reports success when the
   list is through, and otherwise the next file's SQL fails or its name is recorded already.
   */
  lemma {:induction false} ApplyFilesStops<S>(repo: Repo<S>, db: Db<S>, todo: seq<string>)
    ensures var (after, done, ok) := ApplyFiles(repo, db, todo); StopsRightly(repo, db, todo, after, done, ok)
    decreases |todo|
  {
    hide StopsRightly;
    if todo == [] || repo.migration(todo[0], db.schema).None? || todo[0] in db.rows {
      StopsAtOnce(repo, db, todo);
    } else {
      var next := Db(repo.migration(todo[0], db.schema).value, db.rows + [todo[0]]);
      ApplyFilesStops(repo, next, todo[1..]);
      var (after, done, ok) := ApplyFiles(repo, next, todo[1..]);
      StopsLater(repo, db, next, todo[0], todo[1..], after, done, ok);
      assert todo == [todo[0]] + todo[1..];
    }
  }

  /** Exactly the files that are not recorded, in file order. */
  lemma {:induction false} UnappliedIs(files: seq<string>, applied: set<string>)
    ensures forall f :: f in Unapplied(files, applied) <==> f in files && f !in applied
    ensures forall i, j | 0 <= i < j < |files| && files[i] !in applied && files[j] !in applied ::
              InThisOrder(Unapplied(files, applied), files[i], files[j])
  {
    if files != [] {
      var head: seq<string> := if files[0] in applied then [] else [files[0]];
      var rest := Unapplied(files[1..], applied);
      UnappliedIs(files[1..], applied);
      assert files == [files[0]] + files[1..];
      forall i, j | 0 <= i < j < |files| && files[i] !in applied && files[j] !in applied
        ensures InThisOrder(head + rest, files[i], files[j])
      {
        if i > 0 {
          assert files[i] == files[1..][i - 1] && files[j] == files[1..][j - 1];
          OrderBehind(head, rest, files[i], files[j]);
        } else {
          assert files[j] == files[1..][j - 1] && files[j] in rest;
          var q :| 0 <= q < |rest| && rest[q] == files[j];
          assert (head + rest)[0] == files[0] && (head + rest)[q + 1] == files[j];
        }
      }
    }
  }

  predicate InThisOrder(names: seq<string>, first: string, second: string) {
    exists p, q | 0 <= p < q < |names| :: names[p] == first && names[q] == second
  }

  lemma OrderBehind(head: seq<string>, rest: seq<string>, first: string, second: string)
    requires InThisOrder(rest, first, second)
    ensures InThisOrder(head + rest, first, second)
  {
    var p, q :| 0 <= p < q < |rest| && rest[p] == first && rest[q] == second;
    assert (head + rest)[|head| + p] == first && (head + rest)[|head| + q] == second;
  }

  class Runner<S> {
    const repo: Repo<S>
    var schema: S
    var rows: seq<string>

    constructor (repo: Repo<S>, db: Db<S>)
      ensures this.repo == repo && schema == db.schema && rows == db.rows
    {
      this.repo, schema, rows := repo, db.schema, db.rows;
    }

    method AppliedVersions() returns (applied: set<string>)
      ensures applied == Elements(rows)
      ensures forall v :: v in applied <==> v in rows
    {
      applied := {};
      for i := 0 to |rows|
        invariant applied == Elements(rows[..i])
      {
        applied := applied + {rows[i]};
      }
    }

    method Pending() returns (pending: seq<string>)
      ensures pending == Unapplied(repo.files, Elements(rows))
      ensures forall f :: f in pending <==> f in repo.files && f !in rows
    {
      UnappliedIs(repo.files, Elements(rows));
      var applied := AppliedVersions();
      pending := [];
      for i := 0 to |repo.files|
        invariant pending == Unapplied(repo.files[..i], applied)
      {
        assert repo.files[..i + 1] == repo.files[..i] + [repo.files[i]];
        UnappliedSnoc(repo.files[..i], repo.files[i], applied);
        if repo.files[i] !in applied {
          pending := pending + [repo.files[i]];
        }
      }
      assert repo.files[..|repo.files|] == repo.files;
    }

    /** The file's SQL and its schema_migrations row in one transaction. */
    method ApplyMigration(name: string) returns (ok: bool)
      modifies this
      ensures ok <==> repo.migration(name, old(schema)).Some? && name !in old(rows)
      ensures ok ==> repo.migration(name, old(schema)) == Some(schema) && rows == old(rows) + [name]
      ensures !ok ==> schema == old(schema) && rows == old(rows)
    {
      match repo.migration(name, schema) {
        case None => return false;
        case Some(next) =>
          if name in rows {
            return false;
          }
          schema, rows := next, rows + [name];
          return true;
      }
    }

    /** The loop over the pending files. */
    method ApplyPending(pending: seq<string>) returns (applied: seq<string>, ok: bool)
      modifies this
      ensures (Db(schema, rows), applied, ok) == ApplyFiles(repo, Db(old(schema), old(rows)), pending)
    {
      ghost var start := Db(schema, rows);
      applied := [];
      PrependNothing(ApplyFiles(repo, start, pending));
      for i := 0 to |pending|
        invariant ApplyFiles(repo, start, pending) == Prepend(applied, ApplyFiles(repo, Db(schema, rows), pending[i..]))
      {
        assert pending[i..][0] == pending[i] && pending[i..][1..] == pending[i + 1..];
        var committed := ApplyMigration(pending[i]);
        if !committed {
          assert applied + [] == applied;
          return applied, false;
        }
        PrependPrepend(applied, pending[i], ApplyFiles(repo, Db(schema, rows), pending[i + 1..]));
        applied := applied + [pending[i]];
      }
      assert pending[|pending|..] == [] && applied + [] == applied;
      return applied, true;
    }

    /**
     Baseline, then every pending file until the first failure. A success has every file
     recorded; a failure comes from the baseline, or from the first pending file not applied.
     */
    method Apply() returns (applied: seq<string>, ok: bool)
      modifies this
      ensures repo.baseline(old(schema)).None? ==> applied == [] && !ok && schema == old(schema)
      ensures rows == old(rows) + applied
      ensures ok ==> forall f | f in repo.files :: f in rows
      ensures repo.baseline(old(schema)).Some? ==>
                var todo, base := Unapplied(repo.files, Elements(old(rows))), repo.baseline(old(schema)).value;
                && (Db(schema, rows), applied, ok) == ApplyFiles(repo, Db(base, old(rows)), todo)
                && applied <= todo && (ok <==> applied == todo)
                && EffectOf(repo, base, applied) == Some(schema)
                && (!ok ==> |applied| < |todo| &&
                            (repo.migration(todo[|applied|], schema).None? || todo[|applied|] in rows))
    {
      hide ApplyFiles, Unapplied, EffectOf;
      match repo.baseline(schema) {
        case None =>
          assert rows + [] == rows;
          return [], false;
        case Some(base) => schema := base;
      }
      var pending := Pending();
      ApplyFilesStops(repo, Db(schema, rows), pending);
      applied, ok := ApplyPending(pending);
    }
  }

  function Prepend<S>(done: seq<string>, r: (Db<S>, seq<string>, bool)): (Db<S>, seq<string>, bool) {
    (r.0, done + r.1, r.2)
  }

  lemma PrependNothing<S>(r: (Db<S>, seq<string>, bool))
    ensures Prepend([], r) == r
  {
    assert [] + r.1 == r.1;
  }

  lemma PrependPrepend<S>(done: seq<string>, name: string, r: (Db<S>, seq<string>, bool))
    ensures Prepend(done, (r.0, [name] + r.1, r.2)) == Prepend(done + [name], r)
  {
    assert done + ([name] + r.1) == done + [name] + r.1;
  }

  lemma {:induction false} UnappliedSnoc(files: seq<string>, f: string, applied: set<string>)
    ensures Unapplied(files + [f], applied) == Unapplied(files, applied) + if f in applied then [] else [f]
  {
    if files == [] {
      assert files + [f] == [f] && [f][1..] == [];
    } else {
      assert (files + [f])[1..] == files[1..] + [f];
      UnappliedSnoc(files[1..], f, applied);
    }
  }

  /** Against a prefix of the sorted files, what is pending is the rest of them. */
  lemma {:induction false} UnappliedOfPrefix(files: seq<string>, k: nat)
    requires k <= |files| && DistinctFiles(files)
    ensures Unapplied(files, Elements(files[..k])) == files[k..]
  {
    UnappliedFrom(files, k, 0);
    assert files[0..] == files;
  }

  lemma UnappliedCons(files: seq<string>, applied: set<string>, i: nat)
    requires i < |files|
    ensures Unapplied(files[i..], applied)
         == (if files[i] in applied then [] else [files[i]]) + Unapplied(files[i + 1..], applied)
  {
    assert files[i..][1..] == files[i + 1..];
  }

  lemma AppliedByPosition(files: seq<string>, k: nat, i: nat)
    requires k <= |files| && i < |files| && DistinctFiles(files)
    ensures files[i] in Elements(files[..k]) <==> i < k
  {
    if i < k {
      assert files[..k][i] == files[i];
    } else {
      assert files[i] !in files[..k];
    }
  }

  lemma {:induction false} UnappliedFrom(files: seq<string>, k: nat, i: nat)
    requires k <= |files| && i <= |files| && DistinctFiles(files)
    ensures Unapplied(files[i..], Elements(files[..k])) == files[if i < k then k else i..]
    decreases |files| - i
  {
    if i < |files| {
      hide Unapplied, Elements, DistinctFiles;
      UnappliedCons(files, Elements(files[..k]), i);
      AppliedByPosition(files, k, i);
      UnappliedFrom(files, k, i + 1);
      assert files[i..] == [files[i]] + files[i + 1..];
    }
  }

  /** The next file, applied alone. */
  lemma ApplyFilesCons<S>(repo: Repo<S>, base: S, k: nat)
    requires k < |repo.files| && DistinctFiles(repo.files)
    requires After(repo, base, k).Some? && After(repo, base, k + 1).Some?
    ensures ApplyFiles(repo, Db(After(repo, base, k).value, repo.files[..k]), repo.files[k..])
         == var next := Db(After(repo, base, k + 1).value, repo.files[..k + 1]);
            var (db, done, ok) := ApplyFiles(repo, next, repo.files[k + 1..]);
            (db, [repo.files[k]] + done, ok)
  {
    var name := repo.files[k];
    AppliedByPosition(repo.files, k, k);
    assert repo.files[k..][0] == name && repo.files[k..][1..] == repo.files[k + 1..];
    assert repo.files[..k] + [name] == repo.files[..k + 1];
  }

  /** An uninterrupted run from any prefix applies exactly the rest. */
  lemma {:induction false} ApplyFilesFromPrefix<S>(repo: Repo<S>, base: S, k: nat)
    requires k <= |repo.files| && DistinctFiles(repo.files)
    requires After(repo, base, |repo.files|).Some? && After(repo, base, k).Some?
    ensures ApplyFiles(repo, Db(After(repo, base, k).value, repo.files[..k]), repo.files[k..])
         == (Db(After(repo, base, |repo.files|).value, repo.files), repo.files[k..], true)
    decreases |repo.files| - k
  {
    var n := |repo.files|;
    if k == n {
      assert repo.files[..n] == repo.files && repo.files[n..] == [];
    } else {
      AfterDefined(repo, base, k + 1);
      hide ApplyFiles, After, DistinctFiles;
      ApplyFilesCons(repo, base, k);
      ApplyFilesFromPrefix(repo, base, k + 1);
      assert [repo.files[k]] + repo.files[k + 1..] == repo.files[k..];
    }
  }

  lemma {:induction false} AfterDefined<S>(repo: Repo<S>, base: S, k: nat)
    requires k <= |repo.files| && After(repo, base, |repo.files|).Some?
    ensures After(repo, base, k).Some?
    decreases |repo.files| - k
  {
    if k < |repo.files| {
      AfterDefined(repo, base, k + 1);
    }
  }
}
