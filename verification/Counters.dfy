/**
 Download and bandwidth counters: per artifact row, and instance-wide in the stats table,
 which no backup contains.
 */
module Counters {
  import opened Prelude
  import opened GoText

  datatype Key = Key(registry: Text, namespace: Text, name: Text, version: Text)

  datatype Row = Row(downloads: int, bandwidthSaved: int)

  type Artifacts = map<Key, Row>

  datatype Stats = Stats(totalPulls: int, bandwidthSaved: int)

  /** The live rows, the totals, and the artifact rows inside each stored backup. */
  datatype State = State(artifacts: Artifacts, stats: Stats, backups: map<Text, Artifacts>)

  datatype Event =
    | Save(key: Key)
    | Delete(key: Key)
    | Pull(key: Key)
    | CacheHit(key: Key, bytes: nat)
    | Backup(path: Text)
    | Restore(path: Text)

  function Step(s: State, e: Event): State {
    match e
    case Save(k) =>
      // the upsert leaves both counters of an existing row alone; a new row starts at zero
      if k in s.artifacts then s else s.(artifacts := s.artifacts[k := Row(0, 0)])
    case Delete(k) => s.(artifacts := s.artifacts - {k})
    case Pull(k) =>
      s.(artifacts := if k in s.artifacts
                      then s.artifacts[k := s.artifacts[k].(downloads := s.artifacts[k].downloads + 1)]
                      else s.artifacts,
         stats := s.stats.(totalPulls := s.stats.totalPulls + 1))
    case CacheHit(k, bytes) =>
      s.(artifacts := if k in s.artifacts
                      then s.artifacts[k := s.artifacts[k].(bandwidthSaved := s.artifacts[k].bandwidthSaved + bytes)]
                      else s.artifacts,
         stats := s.stats.(bandwidthSaved := s.stats.bandwidthSaved + bytes))
    case Backup(path) => s.(backups := s.backups[path := s.artifacts])
    case Restore(path) => if path in s.backups then s.(artifacts := s.backups[path]) else s
  }

  class Database {
    var artifacts: Artifacts
    var stats: Stats

    constructor ()
      ensures artifacts == map[] && stats == Stats(0, 0)
    {
      artifacts, stats := map[], Stats(0, 0);
    }

    method SaveArtifact(k: Key)
      modifies this
      ensures stats == old(stats)
      ensures artifacts == Step(State(old(artifacts), old(stats), map[]), Save(k)).artifacts
      ensures k in old(artifacts) ==> artifacts == old(artifacts)
      ensures k !in old(artifacts) ==> artifacts == old(artifacts)[k := Row(0, 0)]
    {
      if k !in artifacts {
        artifacts := artifacts[k := Row(0, 0)];
      }
    }

    method DeleteArtifact(k: Key) returns (removed: bool)
      modifies this
      ensures removed <==> k in old(artifacts)
      ensures State(artifacts, stats, map[]) == Step(State(old(artifacts), old(stats), map[]), Delete(k))
      ensures k !in artifacts && stats == old(stats)
      ensures forall other | other != k :: other in artifacts <==> other in old(artifacts)
      ensures forall other | other in artifacts :: artifacts[other] == old(artifacts)[other]
    {
      removed := k in artifacts;
      artifacts := artifacts - {k};
    }

    /** Both updates in one transaction, or neither. */
    method IncrementArtifactDownloads(k: Key, commits: bool) returns (ok: bool)
      modifies this
      ensures ok == commits
      ensures State(artifacts, stats, map[]) ==
              if ok then Step(State(old(artifacts), old(stats), map[]), Pull(k))
              else State(old(artifacts), old(stats), map[])
      ensures ok && k in artifacts ==>
                var row := old(artifacts)[k];
                artifacts == old(artifacts)[k := row.(downloads := row.downloads + 1)]
      ensures !ok || k !in artifacts ==> artifacts == old(artifacts)
      ensures stats == if ok then old(stats).(totalPulls := old(stats).totalPulls + 1) else old(stats)
    {
      var rows, total := artifacts, stats;
      if k in rows {
        rows := rows[k := rows[k].(downloads := rows[k].downloads + 1)];
      }
      total := total.(totalPulls := total.totalPulls + 1);
      if !commits {
        return false;
      }
      artifacts, stats := rows, total;
      return true;
    }

    method IncrementArtifactBandwidthSaved(k: Key, bytes: nat, commits: bool) returns (ok: bool)
      modifies this
      ensures ok == commits
      ensures State(artifacts, stats, map[]) ==
              if ok then Step(State(old(artifacts), old(stats), map[]), CacheHit(k, bytes))
              else State(old(artifacts), old(stats), map[])
      ensures ok && k in artifacts ==>
                var row := old(artifacts)[k];
                artifacts == old(artifacts)[k := row.(bandwidthSaved := row.bandwidthSaved + bytes)]
      ensures !ok || k !in artifacts ==> artifacts == old(artifacts)
      ensures stats == if ok then old(stats).(bandwidthSaved := old(stats).bandwidthSaved + bytes) else old(stats)
    {
      var rows, total := artifacts, stats;
      if k in rows {
        rows := rows[k := rows[k].(bandwidthSaved := rows[k].bandwidthSaved + bytes)];
      }
      total := total.(bandwidthSaved := total.bandwidthSaved + bytes);
      if !commits {
        return false;
      }
      artifacts, stats := rows, total;
      return true;
    }
  }

  /** trackingReadCloser: counts what each read returned and reports the total on close. */
  class TrackingReader {
    var n: nat
    ghost var chunks: seq<nat>

    ghost predicate Valid()
      reads this
    {
      n == Total(chunks)
    }

    constructor ()
      ensures Valid() && chunks == []
    {
      n, chunks := 0, [];
    }

    method Read(returned: nat)
      requires Valid()
      modifies this
      ensures Valid() && chunks == old(chunks) + [returned]
    {
      n := n + returned;
      chunks := chunks + [returned];
      TotalSnoc(old(chunks), returned);
    }

    /** The byte count passed to the cache-hit callback, if it is called. */
    method Close() returns (reported: Option<nat>)
      requires Valid()
      ensures reported == if Total(chunks) > 0 then Some(Total(chunks)) else None
    {
      reported := if n > 0 then Some(n) else None;
    }
  }

  function Total(chunks: seq<nat>): nat {
    if chunks == [] then 0 else chunks[0] + Total(chunks[1..])
  }

  lemma {:induction false} TotalSnoc(chunks: seq<nat>, n: nat)
    ensures Total(chunks + [n]) == Total(chunks) + n
  {
    if chunks == [] {
      assert chunks + [n] == [n] && [n][1..] == [];
    } else {
      assert (chunks + [n])[1..] == chunks[1..] + [n];
      TotalSnoc(chunks[1..], n);
    }
  }

  // ----- sums over rows -----

  ghost function Sum(m: map<Key, int>): int
    decreases |m|
  {
    if m == map[] then 0
    else
      var k :| k in m;
      m[k] + Sum(m - {k})
  }

  /** The sum does not depend on the order of summation. */
  lemma {:induction false} SumWithout(m: map<Key, int>, k: Key)
    requires k in m
    ensures Sum(m) == m[k] + Sum(m - {k})
    decreases |m|
  {
    var p :| p in m && Sum(m) == m[p] + Sum(m - {p});
    if p != k {
      SumWithout(m - {p}, k);
      SumWithout(m - {k}, p);
      assert m - {p} - {k} == m - {k} - {p};
    }
  }

  lemma SumUpdate(m: map<Key, int>, k: Key, v: int)
    ensures Sum(m[k := v]) == Sum(m) + v - if k in m then m[k] else 0
  {
    SumWithout(m[k := v], k);
    if k in m {
      SumWithout(m, k);
      assert m[k := v] - {k} == m - {k};
    } else {
      assert m[k := v] - {k} == m;
    }
  }

  function Downloads(a: Artifacts): map<Key, int> {
    map k | k in a :: a[k].downloads
  }

  function Saved(a: Artifacts): map<Key, int> {
    map k | k in a :: a[k].bandwidthSaved
  }

  /** Counters are never negative and the live sums stay within the totals. */
  ghost predicate Within(a: Artifacts, stats: Stats) {
    && (forall k | k in a :: a[k].downloads >= 0 && a[k].bandwidthSaved >= 0)
    && Sum(Downloads(a)) <= stats.totalPulls
    && Sum(Saved(a)) <= stats.bandwidthSaved
  }

  ghost predicate Inv(s: State) {
    Within(s.artifacts, s.stats) && forall path | path in s.backups :: Within(s.backups[path], s.stats)
  }

  lemma SumsAfterUpdate(a: Artifacts, k: Key, row: Row)
    ensures Sum(Downloads(a[k := row])) == Sum(Downloads(a)) + row.downloads - if k in a then a[k].downloads else 0
    ensures Sum(Saved(a[k := row])) == Sum(Saved(a)) + row.bandwidthSaved - if k in a then a[k].bandwidthSaved else 0
  {
    assert Downloads(a[k := row]) == Downloads(a)[k := row.downloads];
    assert Saved(a[k := row]) == Saved(a)[k := row.bandwidthSaved];
    SumUpdate(Downloads(a), k, row.downloads);
    SumUpdate(Saved(a), k, row.bandwidthSaved);
  }

  lemma SumsAfterDelete(a: Artifacts, k: Key)
    requires k in a
    ensures Sum(Downloads(a - {k})) == Sum(Downloads(a)) - a[k].downloads
    ensures Sum(Saved(a - {k})) == Sum(Saved(a)) - a[k].bandwidthSaved
  {
    assert Downloads(a - {k}) == Downloads(a) - {k} && Saved(a - {k}) == Saved(a) - {k};
    SumWithout(Downloads(a), k);
    SumWithout(Saved(a), k);
  }

  /** What one event does to the live sums and to the totals. */
  lemma StepSums(s: State, e: Event)
    requires !e.Delete? && !e.Restore?
    ensures var after := Step(s, e);
      && Sum(Downloads(after.artifacts))
         == Sum(Downloads(s.artifacts)) + (if e.Pull? && e.key in s.artifacts then 1 else 0)
      && Sum(Saved(after.artifacts))
         == Sum(Saved(s.artifacts)) + (if e.CacheHit? && e.key in s.artifacts then e.bytes else 0)
      && after.stats.totalPulls == s.stats.totalPulls + (if e.Pull? then 1 else 0)
      && after.stats.bandwidthSaved == s.stats.bandwidthSaved + (if e.CacheHit? then e.bytes else 0)
  {
    hide Sum, Downloads, Saved;
    match e {
      case Save(k) => SumsAfterUpdate(s.artifacts, k, Row(0, 0));
      case Pull(k) =>
        if k in s.artifacts {
          SumsAfterUpdate(s.artifacts, k, s.artifacts[k].(downloads := s.artifacts[k].downloads + 1));
        }
      case CacheHit(k, bytes) =>
        if k in s.artifacts {
          SumsAfterUpdate(s.artifacts, k, s.artifacts[k].(bandwidthSaved := s.artifacts[k].bandwidthSaved + bytes));
        }
      case Backup(_) =>
    }
  }

  lemma StepKeepsWithin(s: State, e: Event)
    requires Inv(s)
    ensures Within(Step(s, e).artifacts, Step(s, e).stats)
  {
    hide Sum, Downloads, Saved;
    match e {
      case Delete(k) =>
        if k in s.artifacts {
          SumsAfterDelete(s.artifacts, k);
        } else {
          assert s.artifacts - {k} == s.artifacts;
        }
      case Restore(_) =>
      case _ => StepSums(s, e);
    }
  }

  lemma WithinMore(a: Artifacts, stats: Stats, more: Stats)
    requires Within(a, stats) && stats.totalPulls <= more.totalPulls && stats.bandwidthSaved <= more.bandwidthSaved
    ensures Within(a, more)
  {
  }

  lemma StepKeepsInv(s: State, e: Event)
    requires Inv(s)
    ensures Inv(Step(s, e))
    ensures s.stats.totalPulls <= Step(s, e).stats.totalPulls
    ensures s.stats.bandwidthSaved <= Step(s, e).stats.bandwidthSaved
  {
    hide Within;
    StepKeepsWithin(s, e);
    var after := Step(s, e);
    forall path | path in after.backups
      ensures Within(after.backups[path], after.stats)
    {
      WithinMore(after.backups[path], s.stats, after.stats);
    }
  }

  function Play(s: State, events: seq<Event>): State
    decreases |events|
  {
    if events == [] then s else Play(Step(s, events[0]), events[1..])
  }

  /**
   Over every run of saves, deletes, pulls, cache hits, backups and restores the per-artifact
   counters sum to at most the instance totals, and the totals never fall.
   */
  lemma {:induction false} SumsStayWithinTotals(s: State, events: seq<Event>)
    requires Inv(s)
    ensures Within(Play(s, events).artifacts, Play(s, events).stats) && Inv(Play(s, events))
    ensures s.stats.totalPulls <= Play(s, events).stats.totalPulls
    ensures s.stats.bandwidthSaved <= Play(s, events).stats.bandwidthSaved
    decreases |events|
  {
    if events != [] {
      StepKeepsInv(s, events[0]);
      SumsStayWithinTotals(Step(s, events[0]), events[1..]);
    }
  }

  /** A restore brings back exactly the rows, with their counters, that the last backup of that path saw. */
  lemma {:induction false} RestoreBringsBack(s: State, events: seq<Event>, path: Text)
    requires Backup(path) !in events && path in s.backups
    ensures path in Play(s, events).backups && Step(Play(s, events), Restore(path)).artifacts == s.backups[path]
    ensures Step(Play(s, events), Restore(path)).stats == Play(s, events).stats
    decreases |events|
  {
    if events != [] {
      assert events[0] in events && forall e | e in events[1..] :: e in events;
      RestoreBringsBack(Step(s, events[0]), events[1..], path);
    }
  }

  lemma BackupThenRestore(s: State, events: seq<Event>, path: Text)
    requires Backup(path) !in events
    ensures Step(Play(Step(s, Backup(path)), events), Restore(path)).artifacts == s.artifacts
  {
    RestoreBringsBack(Step(s, Backup(path)), events, path);
  }

  predicate Lossy(e: Event) {
    e.Delete? || e.Restore?
  }

  /** A row that counts for each key pulled so far. */
  predicate Accounted(s: State, e: Event) {
    (e.Pull? || e.CacheHit?) ==> e.key in s.artifacts
  }

  function AllAccounted(s: State, events: seq<Event>): bool
    decreases |events|
  {
    events == [] || (!Lossy(events[0]) && Accounted(s, events[0]) && AllAccounted(Step(s, events[0]), events[1..]))
  }

  /** While nothing is deleted or restored and every hit has its row, the gap to the totals is constant. */
  lemma {:induction false} CountersConserved(s: State, events: seq<Event>)
    requires AllAccounted(s, events)
    ensures var end := Play(s, events);
      && end.stats.totalPulls - Sum(Downloads(end.artifacts)) == s.stats.totalPulls - Sum(Downloads(s.artifacts))
      && end.stats.bandwidthSaved - Sum(Saved(end.artifacts)) == s.stats.bandwidthSaved - Sum(Saved(s.artifacts))
    decreases |events|
  {
    if events != [] {
      hide Sum, Downloads, Saved;
      StepSums(s, events[0]);
      CountersConserved(Step(s, events[0]), events[1..]);
    }
  }
}
