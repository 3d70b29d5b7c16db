/** The scheduled rescan: at most three of the most overdue artifacts per eligible tick. */
module Rescan {
  import opened Prelude
  import opened GoText

  const MAX_SCANS_PER_TICK: nat := 3

  /** The latest recorded scan time of each artifact that has one. */
  type Latest = map<Text, int>

  /** An artifact id with its latest scan, if any. */
  datatype Candidate = Candidate(id: Text, lastScan: Option<int>)

  /** Byte-wise string order. */
  predicate TextLess(a: Text, b: Text) {
    b != [] && (a == [] || a[0] < b[0] || (a[0] == b[0] && TextLess(a[1..], b[1..])))
  }

  lemma {:induction false} TextLessIsTotal(a: Text, b: Text)
    ensures !(TextLess(a, b) && TextLess(b, a))
    ensures a != b <==> TextLess(a, b) || TextLess(b, a)
  {
    if a != [] && b != [] && a[0] == b[0] {
      TextLessIsTotal(a[1..], b[1..]);
      assert a == [a[0]] + a[1..] && b == [b[0]] + b[1..];
    }
  }

  lemma {:induction false} TextLessIsTransitive(a: Text, b: Text, c: Text)
    requires TextLess(a, b) && TextLess(b, c)
    ensures TextLess(a, c)
  {
    if a != [] && a[0] == b[0] && b[0] == c[0] {
      TextLessIsTransitive(a[1..], b[1..], c[1..]);
    }
  }

  /** The comparator of the batch sort: never scanned first by id, then the oldest scan. */
  predicate Less(a: Candidate, b: Candidate) {
    if a.lastScan.None? then b.lastScan.Some? || TextLess(a.id, b.id)
    else b.lastScan.Some? && a.lastScan.value < b.lastScan.value
  }

  /** What sort.Slice needs of its comparator: irreflexive, and both orders are transitive. */
  lemma LessIsStrictWeakOrder(a: Candidate, b: Candidate, c: Candidate)
    ensures !Less(a, a)
    ensures Less(a, b) && Less(b, c) ==> Less(a, c)
    ensures !Less(a, b) && !Less(b, c) ==> !Less(a, c)
  {
    TextLessIsTotal(a.id, a.id);
    TextLessIsTotal(a.id, b.id);
    TextLessIsTotal(b.id, c.id);
    TextLessIsTotal(a.id, c.id);
    if TextLess(a.id, b.id) && TextLess(b.id, c.id) {
      TextLessIsTransitive(a.id, b.id, c.id);
    }
    if TextLess(c.id, b.id) && TextLess(b.id, a.id) {
      TextLessIsTransitive(c.id, b.id, a.id);
    }
  }

  function LastScan(latest: Latest, id: Text): Option<int> {
    if id in latest then Some(latest[id]) else None
  }

  predicate ArtifactDue(lastScan: Option<int>, interval: int, now: int) {
    lastScan.None? || now - lastScan.value >= interval
  }

  /** The due artifacts of a portfolio, in listing order. */
  function DueOf(ids: seq<Text>, latest: Latest, interval: int, now: int): seq<Candidate> {
    if ids == [] then []
    else
      var last := LastScan(latest, ids[0]);
      (if ArtifactDue(last, interval, now) then [Candidate(ids[0], last)] else [])
      + DueOf(ids[1..], latest, interval, now)
  }

  function Flatten(listings: seq<seq<Text>>): seq<Text> {
    if listings == [] then [] else listings[0] + Flatten(listings[1..])
  }

  predicate InOrder(s: seq<Candidate>) {
    forall i, j | 0 <= i < j < |s| :: !Less(s[j], s[i])
  }

  /** What the batch may be: the first three of the due list in some sorted order. */
  ghost predicate BatchOf(due: seq<Candidate>, batch: seq<Candidate>) {
    exists sorted | multiset(sorted) == multiset(due) && InOrder(sorted) ::
      batch == if |sorted| > MAX_SCANS_PER_TICK then sorted[..MAX_SCANS_PER_TICK] else sorted
  }

  /** One scan attempt: when it ran and whether it was recorded. */
  datatype Scan = Scan(time: int, recorded: bool)

  /** GetLatestScanResults reads the greatest recorded time. */
  function Record(latest: Latest, id: Text, scan: Scan): Latest {
    if !scan.recorded || (id in latest && latest[id] >= scan.time) then latest else latest[id := scan.time]
  }

  function RecordAll(latest: Latest, batch: seq<Candidate>, scans: seq<Scan>): Latest
    requires |scans| >= |batch|
    decreases |batch|
  {
    if batch == [] then latest
    else RecordAll(Record(latest, batch[0].id, scans[0]), batch[1..], scans[1..])
  }

  class Rescanner {
    var latest: Latest

    constructor (latest: Latest)
      ensures this.latest == latest
    {
      this.latest := latest;
    }

    /** sort.Slice: some permutation in comparator order. */
    method SortSlice(due: seq<Candidate>) returns (sorted: seq<Candidate>)
      ensures multiset(sorted) == multiset(due) && InOrder(sorted)
    {
      hide Less;
      sorted := [];
      var left := multiset(due);
      while left != multiset{}
        invariant multiset(sorted) + left == multiset(due)
        invariant InOrder(sorted)
        invariant forall x, y | x in multiset(sorted) && y in left :: !Less(y, x)
        decreases |left|
      {
        ghost var least := SomeFirst(left);
        var first :| first in left && forall y | y in left :: !Less(y, first);
        SortedSnoc(sorted, left, first);
        sorted := sorted + [first];
        left := left - multiset{first};
      }
    }

    /** The listing loop: every registry and type in turn. */
    method ListAll(listings: seq<seq<Text>>) returns (all: seq<Text>)
      ensures all == Flatten(listings)
    {
      all := [];
      for i := 0 to |listings|
        invariant Flatten(listings) == all + Flatten(listings[i..])
      {
        assert listings[i..][1..] == listings[i + 1..];
        all := all + listings[i];
      }
      assert listings[|listings|..] == [];
    }

    method CollectDue(all: seq<Text>, interval: int, now: int) returns (due: seq<Candidate>)
      ensures due == DueOf(all, latest, interval, now)
    {
      due := [];
      for i := 0 to |all|
        invariant DueOf(all, latest, interval, now) == due + DueOf(all[i..], latest, interval, now)
      {
        assert all[i..][1..] == all[i + 1..];
        var last := LastScan(latest, all[i]);
        ghost var rest := DueOf(all[i + 1..], latest, interval, now);
        if ArtifactDue(last, interval, now) {
          assert due + ([Candidate(all[i], last)] + rest) == due + [Candidate(all[i], last)] + rest;
          due := due + [Candidate(all[i], last)];
        } else {
          assert [] + rest == rest;
        }
      }
      assert all[|all|..] == [];
    }

    method ScanAll(batch: seq<Candidate>, scans: seq<Scan>)
      requires |scans| >= |batch|
      modifies this
      ensures latest == RecordAll(old(latest), batch, scans)
    {
      for i := 0 to |batch|
        invariant RecordAll(old(latest), batch, scans) == RecordAll(latest, batch[i..], scans[i..])
      {
        assert batch[i..][1..] == batch[i + 1..] && scans[i..][1..] == scans[i + 1..];
        latest := Record(latest, batch[i].id, scans[i]);
      }
      assert batch[|batch|..] == [];
    }

    /** runScheduledBatch; scans gives the time and fate of each attempt in turn. */
    method RunScheduledBatch(listings: seq<seq<Text>>, interval: int, now: int, scans: seq<Scan>)
      returns (batch: seq<Candidate>)
      requires |scans| >= MAX_SCANS_PER_TICK
      modifies this
      ensures BatchOf(DueOf(Flatten(listings), old(latest), interval, now), batch)
      ensures |batch| <= 3
      ensures latest == RecordAll(old(latest), batch, scans)
      ensures forall c | c in batch :: Listed(listings, c.id) && c.lastScan == LastScan(old(latest), c.id)
      ensures forall c | c in batch :: DueNow(old(latest), interval, now, c.id)
      ensures forall id | Listed(listings, id) && DueNow(old(latest), interval, now, id) && id !in Ids(batch) ::
                |batch| == 3 && forall c | c in batch :: NotAfter(c, id, old(latest))
    {
      ghost var before := latest;
      var all := ListAll(listings);
      var due := CollectDue(all, interval, now);
      var sorted := SortSlice(due);
      batch := if |sorted| > MAX_SCANS_PER_TICK then sorted[..MAX_SCANS_PER_TICK] else sorted;
      ScanAll(batch, scans);
      assert BatchOf(DueOf(all, before, interval, now), batch);
      BatchMeans(listings, before, interval, now, batch);
    }
  }

  predicate Listed(listings: seq<seq<Text>>, id: Text) {
    exists listing | listing in listings :: id in listing
  }

  /** Nothing listed is skipped, whichever registry and type it is listed under. */
  lemma {:induction false} FlattenHasAll(listings: seq<seq<Text>>, id: Text)
    ensures id in Flatten(listings) <==> Listed(listings, id)
  {
    if listings != [] {
      assert listings == [listings[0]] + listings[1..];
      FlattenHasAll(listings[1..], id);
    }
  }

  /** c was never scanned, or not after the other was; of two never scanned, c has no greater id. */
  predicate NotAfter(c: Candidate, id: Text, latest: Latest) {
    if c.lastScan.None? then id in latest || !TextLess(id, c.id)
    else id in latest && c.lastScan.value <= latest[id]
  }

  lemma BatchBeforeRest(due: seq<Candidate>, batch: seq<Candidate>, c: Candidate, rest: Candidate)
    requires BatchOf(due, batch) && c in batch && rest in due && rest !in batch
    ensures |batch| == MAX_SCANS_PER_TICK && !Less(rest, c)
  {
    hide Less;
    var sorted :| multiset(sorted) == multiset(due) && InOrder(sorted) &&
      batch == if |sorted| > MAX_SCANS_PER_TICK then sorted[..MAX_SCANS_PER_TICK] else sorted;
    assert rest in multiset(due) && rest in multiset(sorted) && rest in sorted;
    var i :| 0 <= i < |batch| && batch[i] == c;
    var j :| 0 <= j < |sorted| && sorted[j] == rest;
    assert forall p | 0 <= p < |batch| :: sorted[p] in batch;
  }

  lemma BatchInDue(due: seq<Candidate>, batch: seq<Candidate>)
    requires BatchOf(due, batch)
    ensures forall c | c in batch :: c in due
    ensures |batch| == if |due| > MAX_SCANS_PER_TICK then MAX_SCANS_PER_TICK else |due|
  {
    hide Less;
    var sorted :| multiset(sorted) == multiset(due) && InOrder(sorted) &&
      batch == if |sorted| > MAX_SCANS_PER_TICK then sorted[..MAX_SCANS_PER_TICK] else sorted;
    assert |multiset(sorted)| == |sorted| && |multiset(due)| == |due|;
    forall c | c in batch
      ensures c in due
    {
      assert c in multiset(sorted) && c in multiset(due);
    }
  }

  /** When the batch is not the whole due list it is full. */
  lemma BatchIsFull(due: seq<Candidate>, batch: seq<Candidate>, rest: Candidate)
    requires BatchOf(due, batch) && rest in due && rest !in batch
    ensures |batch| == MAX_SCANS_PER_TICK
  {
    hide Less;
    var sorted :| multiset(sorted) == multiset(due) && InOrder(sorted) &&
      batch == if |sorted| > MAX_SCANS_PER_TICK then sorted[..MAX_SCANS_PER_TICK] else sorted;
    assert rest in multiset(due) && rest in multiset(sorted);
  }

  /** What is scanned is listed and due, and whatever else is due waits because three come before it. */
  lemma BatchMeans(listings: seq<seq<Text>>, latest: Latest, interval: int, now: int, batch: seq<Candidate>)
    requires BatchOf(DueOf(Flatten(listings), latest, interval, now), batch)
    ensures forall c | c in batch ::
              Listed(listings, c.id) && c.lastScan == LastScan(latest, c.id) && DueNow(latest, interval, now, c.id)
    ensures forall id | Listed(listings, id) && DueNow(latest, interval, now, id) && id !in Ids(batch) ::
              |batch| == 3 && forall c | c in batch :: NotAfter(c, id, latest)
  {
    hide BatchOf, Less, TextLess, Listed;
    var ids := Flatten(listings);
    var due := DueOf(ids, latest, interval, now);
    BatchInDue(due, batch);
    forall c | c in batch
      ensures Listed(listings, c.id) && c.lastScan == LastScan(latest, c.id) && DueNow(latest, interval, now, c.id)
    {
      DueMembers(ids, latest, interval, now, c);
      FlattenHasAll(listings, c.id);
    }
    forall id | Listed(listings, id) && DueNow(latest, interval, now, id) && id !in Ids(batch)
      ensures |batch| == 3 && forall c | c in batch :: NotAfter(c, id, latest)
    {
      var rest := CandidateOf(latest, id);
      FlattenHasAll(listings, id);
      DueMembers(ids, latest, interval, now, rest);
      assert rest !in batch;
      BatchIsFull(due, batch, rest);
      forall c | c in batch
        ensures NotAfter(c, id, latest)
      {
        BatchBeforeRest(due, batch, c, rest);
        NotLessIsNotAfter(c, id, latest);
      }
    }
  }

  lemma NotLessIsNotAfter(c: Candidate, id: Text, latest: Latest)
    requires !Less(CandidateOf(latest, id), c)
    ensures NotAfter(c, id, latest)
  {
  }

  /** The byte-wise order: at the first difference the smaller byte, or the end, comes first. */
  lemma {:induction false} TextLessMeans(a: Text, b: Text)
    ensures TextLess(a, b) <==>
      exists k | 0 <= k <= |a| && k < |b| :: a[..k] == b[..k] && (k == |a| || a[k] < b[k])
    decreases |a|
  {
    if a != [] && b != [] && a[0] == b[0] {
      TextLessMeans(a[1..], b[1..]);
      if TextLess(a[1..], b[1..]) {
        var k :| 0 <= k <= |a[1..]| && k < |b[1..]| && a[1..][..k] == b[1..][..k] &&
          (k == |a[1..]| || a[1..][k] < b[1..][k]);
        assert a[..k + 1] == [a[0]] + a[1..][..k] && b[..k + 1] == [b[0]] + b[1..][..k];
        assert k + 1 < |a| ==> a[k + 1] == a[1..][k];
        assert b[k + 1] == b[1..][k];
      }
      if k :| 0 <= k <= |a| && k < |b| && a[..k] == b[..k] && (k == |a| || a[k] < b[k]) {
        assert k > 0;
        assert a[1..][..k - 1] == a[..k][1..] && b[1..][..k - 1] == b[..k][1..];
        assert k < |a| ==> a[1..][k - 1] == a[k];
        assert b[1..][k - 1] == b[k];
      }
    } else if a == [] || b == [] || a[0] < b[0] {
      assert b != [] ==> a[..0] == b[..0];
    } else {
      assert forall k | 0 < k <= |a| && k < |b| :: a[..k][0] == a[0] && b[..k][0] == b[0];
    }
  }

  lemma SortedSnoc(sorted: seq<Candidate>, left: multiset<Candidate>, first: Candidate)
    requires InOrder(sorted) && first in left
    requires forall x, y | x in multiset(sorted) && y in left :: !Less(y, x)
    ensures InOrder(sorted + [first])
  {
    hide Less;
    forall i | 0 <= i < |sorted|
      ensures !Less(first, sorted[i])
    {
      assert sorted[i] in multiset(sorted);
    }
  }

  lemma {:induction false} SomeFirst(left: multiset<Candidate>) returns (first: Candidate)
    requires left != multiset{}
    ensures first in left && forall y | y in left :: !Less(y, first)
    decreases |left|
  {
    var some :| some in left;
    var rest := left - multiset{some};
    FirstOfOne(some);
    first := some;
    if rest != multiset{} {
      first := SomeFirst(rest);
      first := FirstOfMore(left, rest, some, first);
    } else {
      assert left == multiset{some};
    }
  }

  lemma FirstOfOne(some: Candidate)
    ensures !Less(some, some)
  {
    LessIsStrictWeakOrder(some, some, some);
  }

  lemma FirstOfMore(left: multiset<Candidate>, rest: multiset<Candidate>, some: Candidate, first: Candidate)
    returns (winner: Candidate)
    requires left == rest + multiset{some} && first in rest && forall y | y in rest :: !Less(y, first)
    ensures winner in left && forall y | y in left :: !Less(y, winner)
  {
    hide Less;
    winner := if Less(some, first) then some else first;
    forall y | y in left
      ensures !Less(y, winner)
    {
      LessIsStrictWeakOrder(some, some, some);
      LessIsStrictWeakOrder(y, some, first);
    }
  }

  // ----- the queue -----

  predicate DistinctIds(ids: seq<Text>) {
    forall i, j | 0 <= i < j < |ids| :: ids[i] != ids[j]
  }

  function CandidateOf(latest: Latest, id: Text): Candidate {
    Candidate(id, LastScan(latest, id))
  }

  predicate DueNow(latest: Latest, interval: int, now: int, id: Text) {
    ArtifactDue(LastScan(latest, id), interval, now)
  }

  /** The other due artifacts that do not sort strictly behind a. */
  function Ahead(ids: seq<Text>, latest: Latest, interval: int, now: int, a: Text): set<Text> {
    set d | d in ids && d != a && DueNow(latest, interval, now, d) &&
            !Less(CandidateOf(latest, a), CandidateOf(latest, d))
  }

  lemma {:induction false} DueMembers(ids: seq<Text>, latest: Latest, interval: int, now: int, c: Candidate)
    ensures c in DueOf(ids, latest, interval, now)
       <==> c.id in ids && c == CandidateOf(latest, c.id) && DueNow(latest, interval, now, c.id)
  {
    if ids != [] {
      DueMembers(ids[1..], latest, interval, now, c);
      assert ids == [ids[0]] + ids[1..];
    }
  }

  lemma {:induction false} DueOnce(ids: seq<Text>, latest: Latest, interval: int, now: int, c: Candidate)
    requires DistinctIds(ids)
    ensures multiset(DueOf(ids, latest, interval, now))[c] <= 1
  {
    if ids != [] {
      DueOnce(ids[1..], latest, interval, now, c);
      DueMembers(ids[1..], latest, interval, now, c);
      assert ids[0] !in ids[1..];
    }
  }

  function Ids(batch: seq<Candidate>): set<Text> {
    set c | c in batch :: c.id
  }

  /** A full batch that leaves a due artifact out consists of three artifacts ahead of it. */
  lemma BatchIsAhead(ids: seq<Text>, latest: Latest, interval: int, now: int, batch: seq<Candidate>, a: Text)
    requires DistinctIds(ids) && BatchOf(DueOf(ids, latest, interval, now), batch)
    requires a in ids && DueNow(latest, interval, now, a) && a !in Ids(batch)
    ensures |batch| == MAX_SCANS_PER_TICK && |Ids(batch)| == MAX_SCANS_PER_TICK
    ensures Ids(batch) <= Ahead(ids, latest, interval, now, a)
  {
    var due, me := DueOf(ids, latest, interval, now), CandidateOf(latest, a);
    var sorted :| multiset(sorted) == multiset(due) && InOrder(sorted) &&
      batch == if |sorted| > MAX_SCANS_PER_TICK then sorted[..MAX_SCANS_PER_TICK] else sorted;
    DueMembers(ids, latest, interval, now, me);
    assert me in multiset(due) && me in sorted;
    var m :| 0 <= m < |sorted| && sorted[m] == me;
    forall i | 0 <= i < |batch|
      ensures sorted[i] == batch[i] && batch[i] != me
    {
      assert batch[i] in batch;
    }
    forall c | c in batch
      ensures c.id in Ahead(ids, latest, interval, now, a)
    {
      assert c in multiset(sorted) && c in due;
      DueMembers(ids, latest, interval, now, c);
      var i :| 0 <= i < |batch| && batch[i] == c;
      assert !Less(sorted[m], sorted[i]);
    }
    ThreeDistinct(ids, latest, interval, now, sorted);
  }

  lemma TwiceInSequence(s: seq<Candidate>, i: nat, j: nat)
    requires i < j < |s| && s[i] == s[j]
    ensures multiset(s)[s[i]] >= 2
  {
    assert s == s[..j] + [s[j]] + s[j + 1..];
    assert s[i] in s[..j] && s[i] in multiset(s[..j]);
  }

  lemma ThreeDistinct(ids: seq<Text>, latest: Latest, interval: int, now: int, sorted: seq<Candidate>)
    requires DistinctIds(ids) && multiset(sorted) == multiset(DueOf(ids, latest, interval, now)) && |sorted| > 3
    ensures |Ids(sorted[..3])| == 3
  {
    forall i, j | 0 <= i < j < 3
      ensures sorted[i].id != sorted[j].id
    {
      DueMembers(ids, latest, interval, now, sorted[i]);
      DueMembers(ids, latest, interval, now, sorted[j]);
      DueOnce(ids, latest, interval, now, sorted[i]);
      assert sorted[i] in multiset(sorted) && sorted[j] in multiset(sorted);
      if sorted[i] == sorted[j] {
        TwiceInSequence(sorted, i, j);
      }
    }
    FirstThreeIds(sorted);
  }

  lemma FirstThreeIds(sorted: seq<Candidate>)
    requires |sorted| > 3 && forall i, j | 0 <= i < j < 3 :: sorted[i].id != sorted[j].id
    ensures |Ids(sorted[..3])| == 3
  {
    var x, y, z := sorted[0].id, sorted[1].id, sorted[2].id;
    assert x != y && y != z && x != z;
    assert sorted[..3] == [sorted[0], sorted[1], sorted[2]];
    assert Ids(sorted[..3]) == {x, y, z};
  }

  /** One tick of a run: what it listed, the scan times it read, when it came, what it scanned and how. */
  datatype Tick = Tick(ids: seq<Text>, latest: Latest, now: int, batch: seq<Candidate>, scans: seq<Scan>)

  /** Each attempt comes after the tick that makes it; it may fail. */
  predicate Timed(t: Tick) {
    |t.scans| >= |t.batch| && forall i | 0 <= i < |t.batch| :: t.scans[i].time >= t.now
  }

  predicate Succeeds(t: Tick) {
    Timed(t) && forall i | 0 <= i < |t.batch| :: t.scans[i].recorded
  }

  function AfterTick(t: Tick): Latest
    requires Timed(t)
  {
    RecordAll(t.latest, t.batch, t.scans)
  }

  ghost predicate TickOk(t: Tick, interval: int) {
    Timed(t) && BatchOf(DueOf(t.ids, t.latest, interval, t.now), t.batch)
  }

  /** Nothing recorded is lost; scans made elsewhere may be added. */
  predicate Grown(before: Latest, after: Latest) {
    forall id | id in before :: id in after && after[id] >= before[id]
  }

  lemma RecordGrows(latest: Latest, id: Text, scan: Scan)
    ensures Grown(latest, Record(latest, id, scan))
  {
  }

  lemma {:induction false} BatchGrows(latest: Latest, batch: seq<Candidate>, scans: seq<Scan>)
    requires |scans| >= |batch|
    ensures Grown(latest, RecordAll(latest, batch, scans))
    decreases |batch|
  {
    hide Record;
    if batch != [] {
      RecordGrows(latest, batch[0].id, scans[0]);
      BatchGrows(Record(latest, batch[0].id, scans[0]), batch[1..], scans[1..]);
    }
  }

  /** An attempt that is recorded shows in the table. */
  lemma {:induction false} RecordedAtLeast(latest: Latest, batch: seq<Candidate>, scans: seq<Scan>, p: nat)
    requires p < |batch| <= |scans| && scans[p].recorded
    ensures batch[p].id in RecordAll(latest, batch, scans)
    ensures RecordAll(latest, batch, scans)[batch[p].id] >= scans[p].time
    decreases |batch|
  {
    var next := Record(latest, batch[0].id, scans[0]);
    if p > 0 {
      RecordedAtLeast(next, batch[1..], scans[1..], p - 1);
    } else {
      BatchGrows(next, batch[1..], scans[1..]);
    }
  }

  predicate NoneRecorded(batch: seq<Candidate>, scans: seq<Scan>, id: Text)
    requires |scans| >= |batch|
  {
    forall i | 0 <= i < |batch| :: batch[i].id == id ==> !scans[i].recorded
  }

  /** An artifact without a recorded attempt keeps its latest scan. */
  lemma {:induction false} NotRecorded(latest: Latest, batch: seq<Candidate>, scans: seq<Scan>, id: Text)
    requires |scans| >= |batch| && NoneRecorded(batch, scans, id)
    ensures LastScan(RecordAll(latest, batch, scans), id) == LastScan(latest, id)
    decreases |batch|
  {
    if batch != [] {
      NotRecorded(Record(latest, batch[0].id, scans[0]), batch[1..], scans[1..], id);
    }
  }

  /** A latest scan is the one that was there or one the batch recorded, and nothing else. */
  lemma {:induction false} LatestIsRecorded(latest: Latest, batch: seq<Candidate>, scans: seq<Scan>, id: Text)
    requires |scans| >= |batch|
    ensures LastScan(RecordAll(latest, batch, scans), id) == LastScan(latest, id) ||
            exists i | 0 <= i < |batch| :: batch[i].id == id && scans[i].recorded &&
                                           LastScan(RecordAll(latest, batch, scans), id) == Some(scans[i].time)
    decreases |batch|
  {
    if batch != [] {
      var next := Record(latest, batch[0].id, scans[0]);
      LatestIsRecorded(next, batch[1..], scans[1..], id);
      var after := LastScan(RecordAll(latest, batch, scans), id);
      if after == LastScan(next, id) {
        assert after != LastScan(latest, id) ==> batch[0].id == id && scans[0].recorded && after == Some(scans[0].time);
      } else {
        var i :| 0 <= i < |batch[1..]| && batch[1..][i].id == id && scans[1..][i].recorded &&
          after == Some(scans[1..][i].time);
        assert batch[i + 1].id == id && scans[i + 1].recorded && after == Some(scans[i + 1].time);
      }
    }
  }

  /** After a batch that succeeds, what it scanned has a time from this tick on, and nothing else moved. */
  lemma AfterBatch(t: Tick, id: Text)
    requires Succeeds(t)
    ensures id !in Ids(t.batch) ==> LastScan(AfterTick(t), id) == LastScan(t.latest, id)
    ensures id in Ids(t.batch) ==> id in AfterTick(t) && AfterTick(t)[id] >= t.now
    ensures id in t.latest ==> id in AfterTick(t) && AfterTick(t)[id] >= t.latest[id]
  {
    hide RecordAll;
    BatchGrows(t.latest, t.batch, t.scans);
    if id !in Ids(t.batch) {
      NotInBatch(t.batch, id);
      NotRecorded(t.latest, t.batch, t.scans, id);
    } else {
      var i :| 0 <= i < |t.batch| && t.batch[i].id == id;
      RecordedAtLeast(t.latest, t.batch, t.scans, i);
    }
  }

  lemma NotInBatch(batch: seq<Candidate>, id: Text)
    requires id !in Ids(batch)
    ensures forall i | 0 <= i < |batch| :: batch[i].id != id
  {
    forall i | 0 <= i < |batch|
      ensures batch[i].id != id
    {
      assert batch[i] in batch;
    }
  }

  /** An attempt that is not recorded leaves its artifact due at every later tick. */
  lemma FailedScanStaysDue(t: Tick, interval: int, p: nat, now: int)
    requires TickOk(t, interval) && p < |t.batch| && t.now <= now
    requires NoneRecorded(t.batch, t.scans, t.batch[p].id)
    ensures DueNow(AfterTick(t), interval, now, t.batch[p].id)
  {
    hide BatchOf, RecordAll;
    BatchIsDue(t.ids, t.latest, interval, t.now, t.batch, p);
    NotRecorded(t.latest, t.batch, t.scans, t.batch[p].id);
  }

  // ----- bounded waiting -----

  /** Ticks over a fixed portfolio whose scans succeed and are the only ones, on a clock that never goes back. */
  ghost predicate Undisturbed(ids: seq<Text>, interval: int, ticks: seq<Tick>) {
    && (forall t | t in ticks :: t.ids == ids && TickOk(t, interval) && Succeeds(t))
    && (forall i | 0 < i < |ticks| ::
          ticks[i - 1].now <= ticks[i].now && ticks[i].latest == AfterTick(ticks[i - 1]))
  }

  /** An artifact that became due later, or was scanned in the meantime, sorts strictly behind. */
  lemma AheadShrinks(t: Tick, interval: int, now': int, a: Text)
    requires interval > 0 && t.now <= now' && Succeeds(t)
    requires a in t.ids && DueNow(t.latest, interval, t.now, a) && a !in Ids(t.batch)
    ensures DueNow(AfterTick(t), interval, now', a)
    ensures Ahead(t.ids, AfterTick(t), interval, now', a) <= Ahead(t.ids, t.latest, interval, t.now, a) - Ids(t.batch)
  {
    hide AfterTick, Ids;
    var after := AfterTick(t);
    AfterBatch(t, a);
    forall d | d in Ahead(t.ids, after, interval, now', a)
      ensures d in Ahead(t.ids, t.latest, interval, t.now, a) && d !in Ids(t.batch)
    {
      AfterBatch(t, d);
    }
  }

  lemma UndisturbedTail(ids: seq<Text>, interval: int, ticks: seq<Tick>)
    requires Undisturbed(ids, interval, ticks) && |ticks| > 1
    ensures Undisturbed(ids, interval, ticks[1..])
    ensures ticks[0].now <= ticks[1].now && Succeeds(ticks[0]) && ticks[1].latest == AfterTick(ticks[0])
  {
    hide TickOk, Succeeds, AfterTick;
    forall t | t in ticks[1..]
      ensures t in ticks
    {
    }
    assert ticks[0] in ticks && ticks[1 - 1] == ticks[0];
  }

  lemma AheadAfterBatch(ids: seq<Text>, interval: int, t: Tick, now': int, a: Text)
    requires DistinctIds(ids) && interval > 0 && t.ids == ids && TickOk(t, interval) && Succeeds(t) && t.now <= now'
    requires a in ids && DueNow(t.latest, interval, t.now, a) && a !in Ids(t.batch)
    ensures DueNow(AfterTick(t), interval, now', a)
    ensures |Ahead(ids, AfterTick(t), interval, now', a)| + MAX_SCANS_PER_TICK
         <= |Ahead(ids, t.latest, interval, t.now, a)|
  {
    hide AfterTick, Succeeds, BatchOf, Ahead, Ids, DueNow;
    var ahead, scanned := Ahead(ids, t.latest, interval, t.now, a), Ids(t.batch);
    BatchIsAhead(ids, t.latest, interval, t.now, t.batch, a);
    AheadShrinks(t, interval, now', a);
    SubsetSize(Ahead(ids, AfterTick(t), interval, now', a), ahead - scanned);
    assert |ahead - scanned| == |ahead| - |scanned|;
  }

  /**
   Bounded waiting: a due artifact with k others not strictly behind it is scanned within
   k / 3 + 1 eligible ticks, whatever becomes due in the meantime.
   */
  lemma {:induction false} BoundedWaiting(ids: seq<Text>, interval: int, ticks: seq<Tick>, a: Text, k: nat)
    requires DistinctIds(ids) && interval > 0 && Undisturbed(ids, interval, ticks)
    requires a in ids && ticks != [] && DueNow(ticks[0].latest, interval, ticks[0].now, a)
    requires |Ahead(ids, ticks[0].latest, interval, ticks[0].now, a)| <= k
    requires |ticks| >= k / MAX_SCANS_PER_TICK + 1
    ensures exists i | 0 <= i < k / MAX_SCANS_PER_TICK + 1 :: a in Ids(ticks[i].batch)
    decreases |ticks|
  {
    hide AfterTick, Succeeds, TickOk, Ahead, Ids, DueNow, DistinctIds;
    var t := ticks[0];
    assert t in ticks;
    if a !in Ids(t.batch) {
      AheadAfterBatch(ids, interval, t, if |ticks| > 1 then ticks[1].now else t.now, a);
      assert k >= 3 && |ticks| > 1;
      UndisturbedTail(ids, interval, ticks);
      var rest := ticks[1..];
      assert (k - 3) / 3 + 1 == k / 3;
      BoundedWaiting(ids, interval, rest, a, k - 3);
      var i :| 0 <= i < (k - 3) / 3 + 1 && a in Ids(rest[i].batch);
      assert ticks[i + 1] == rest[i];
    }
  }

  lemma {:induction false} SubsetSize(a: set<Text>, b: set<Text>)
    requires a <= b
    ensures |a| <= |b|
    decreases |a|
  {
    if a != {} {
      var x :| x in a;
      SubsetSize(a - {x}, b - {x});
    }
  }

  // ----- spacing -----

  lemma BatchIsDue(ids: seq<Text>, latest: Latest, interval: int, now: int, batch: seq<Candidate>, q: nat)
    requires BatchOf(DueOf(ids, latest, interval, now), batch) && q < |batch|
    ensures batch[q].id in ids && DueNow(latest, interval, now, batch[q].id)
  {
    var due := DueOf(ids, latest, interval, now);
    var sorted :| multiset(sorted) == multiset(due) && InOrder(sorted) &&
      batch == if |sorted| > MAX_SCANS_PER_TICK then sorted[..MAX_SCANS_PER_TICK] else sorted;
    assert batch[q] in multiset(sorted) && batch[q] in due;
    DueMembers(ids, latest, interval, now, batch[q]);
  }

  /** The later tick reads all the earlier one recorded. */
  predicate Follows(t: Tick, next: Tick) {
    Timed(t) && Grown(AfterTick(t), next.latest)
  }

  /** Ticks over any portfolios, with failing scans, and scans made elsewhere in between. */
  ghost predicate Ticks(interval: int, ticks: seq<Tick>) {
    && (forall t | t in ticks :: TickOk(t, interval))
    && (forall i, j | 0 <= i < j < |ticks| && j == i + 1 :: Follows(ticks[i], ticks[j]))
  }

  lemma TickGrows(interval: int, ticks: seq<Tick>, i: nat)
    requires Ticks(interval, ticks) && 0 < i < |ticks|
    ensures Timed(ticks[i - 1]) && Grown(AfterTick(ticks[i - 1]), ticks[i].latest)
    ensures Grown(ticks[i - 1].latest, ticks[i].latest)
  {
    hide RecordAll;
    var t := ticks[i - 1];
    assert Follows(t, ticks[i]);
    BatchGrows(t.latest, t.batch, t.scans);
  }

  /** What a tick recorded is there for every later one. */
  lemma {:induction false} StaysRecorded(interval: int, ticks: seq<Tick>, i: nat, p: nat, j: nat)
    requires Ticks(interval, ticks) && i < j < |ticks|
    requires p < |ticks[i].batch| <= |ticks[i].scans| && ticks[i].scans[p].recorded
    ensures var a := ticks[i].batch[p].id; a in ticks[j].latest && ticks[j].latest[a] >= ticks[i].scans[p].time
    decreases j
  {
    TickGrows(interval, ticks, j);
    if j == i + 1 {
      RecordedAtLeast(ticks[i].latest, ticks[i].batch, ticks[i].scans, p);
    } else {
      StaysRecorded(interval, ticks, i, p, j - 1);
    }
  }

  /**
   A scheduled scan that is recorded and any later scheduled attempt on the same artifact
   are never closer than the interval, however many other scans fail.
   */
  lemma ScansAreSpaced(interval: int, ticks: seq<Tick>, a: Text, i: nat, p: nat, j: nat, q: nat)
    requires Ticks(interval, ticks) && i < j < |ticks|
    requires p < |ticks[i].batch| <= |ticks[i].scans| && ticks[i].batch[p].id == a && ticks[i].scans[p].recorded
    requires q < |ticks[j].batch| <= |ticks[j].scans| && ticks[j].batch[q].id == a
    ensures ticks[j].scans[q].time - ticks[i].scans[p].time >= interval
  {
    hide BatchOf;
    var t := ticks[j];
    assert t in ticks;
    StaysRecorded(interval, ticks, i, p, j);
    BatchIsDue(t.ids, t.latest, interval, t.now, t.batch, q);
  }
}
