/** ListArtifactsCursor, and walks over its pages while the table changes. */
module Paging {
  import opened Prelude
  import opened GoText
  import opened Cursor

  /** The columns paging looks at. The upsert of SaveArtifact changes none of them. */
  datatype Artifact = Artifact(id: Text, registry: Text, namespace: Text, kind: Text, created: int)

  /** registries: None is Go's nil, no restriction. */
  datatype Filter = Filter(registries: Option<set<Text>>, namespace: Text, kind: Text)

  type Table = set<Artifact>

  predicate Matches(f: Filter, a: Artifact) {
    && (f.registries.Some? ==> a.registry in f.registries.value)
    && (f.namespace != [] ==> a.namespace == f.namespace)
    && (f.kind != [] ==> a.kind == f.kind)
  }

  // ----- order -----

  const DESC: Text := "desc"
  const ASC: Text := "asc"

  function Lower(s: Text): Text {
    if s == [] then []
    else [if 'A' <= s[0] <= 'Z' then (s[0] as int + 32) as char else s[0]] + Lower(s[1..])
  }

  /** The SQL keyword is read without regard to case. */
  predicate Descending(order: Text) { Lower(order) == DESC }

  predicate ValidOrder(order: Text) { Lower(order) == DESC || Lower(order) == ASC }

  /** x sorts strictly before y. */
  predicate Before(order: Text, x: int, y: int) {
    if Descending(order) then x > y else x < y
  }

  /** The WHERE condition compares the order text case-sensitively. */
  predicate Beyond(order: Text, created: int, cursor: int) {
    if order == DESC then created < cursor else created > cursor
  }

  /** The condition follows the sort direction. */
  predicate Coherent(order: Text) {
    ValidOrder(order) && (Descending(order) ==> order == DESC)
  }

  // ----- one query -----

  function Selected(table: Table, f: Filter, order: Text, cursor: Option<int>): Table {
    set a | a in table && Matches(f, a) && (cursor.Some? ==> Beyond(order, a.created, cursor.value))
  }

  predicate Distinct(rows: seq<Artifact>) {
    forall i, j | 0 <= i < j < |rows| :: rows[i] != rows[j]
  }

  predicate InOrder(order: Text, rows: seq<Artifact>) {
    forall i, j | 0 <= i < j < |rows| :: !Before(order, rows[j].created, rows[i].created)
  }

  /** What SELECT ... ORDER BY created LIMIT n may return; ties come in any order. */
  ghost predicate Answers(selected: Table, order: Text, n: nat, rows: seq<Artifact>) {
    && Distinct(rows) && InOrder(order, rows)
    && (forall r | r in rows :: r in selected)
    && |rows| <= n
    && (|rows| < n ==> forall a | a in selected :: a in rows)
    && (forall a, r | a in selected && a !in rows && r in rows :: !Before(order, a.created, r.created))
  }

  predicate HasNext(limit: nat, rows: seq<Artifact>) { |rows| > limit }

  function Page(limit: nat, rows: seq<Artifact>): seq<Artifact> {
    if |rows| > limit then rows[..limit] else rows
  }

  function EffectiveLimit(limit: int): (n: nat)
    ensures 1 <= n <= 200
    ensures 1 <= limit <= 200 ==> n == limit
    ensures limit <= 0 ==> n == 50
    ensures limit > 200 ==> n == 200
  {
    if limit <= 0 then 50 else if limit > 200 then 200 else limit
  }

  function OrderOf(text: Text): Text {
    if text == [] then DESC else text
  }

  /** A cursor that does not decode adds no condition. */
  function CursorOf(codec: Codec, text: Text): Option<int> {
    if text == [] then None
    else
      var decoded :- DecodeCursor(codec, text);
      Some(decoded.0)
  }

  /** The page, the cursor and the flag made from one answer to the limit + 1 query. */
  ghost predicate PageOf(codec: Codec, selected: Table, order: Text, n: nat, page: seq<Artifact>, next: Text,
                         hasNext: bool)
    requires n > 0
  {
    exists rows: seq<Artifact> ::
      && Answers(selected, order, n + 1, rows)
      && page == Page(n, rows) && hasNext == HasNext(n, rows)
      && CursorOf(codec, next) == (if hasNext then Some(rows[n - 1].created) else None)
  }

  class Database {
    var artifacts: Table

    constructor (artifacts: Table)
      ensures this.artifacts == artifacts
    {
      this.artifacts := artifacts;
    }

    /** The ordered, limited read. */
    method Query(selected: Table, order: Text, n: nat) returns (rows: seq<Artifact>)
      requires ValidOrder(order)
      ensures Answers(selected, order, n, rows)
    {
      rows := [];
      var left := selected;
      while |rows| < n && left != {}
        invariant |rows| <= n && Distinct(rows) && InOrder(order, rows)
        invariant forall r | r in rows :: r in selected && r !in left
        invariant forall a | a in selected :: a in rows || a in left
        invariant forall a | a in left :: a in selected
        invariant forall a, r | a in left && r in rows :: !Before(order, a.created, r.created)
        decreases |left|
      {
        FirstExists(left, order);
        var first :| first in left && forall a | a in left :: !Before(order, a.created, first.created);
        rows := rows + [first];
        left := left - {first};
      }
    }

    method ListArtifactsCursor(codec: Codec, f: Filter, limit: int, orderText: Text, cursorText: Text)
      returns (page: seq<Artifact>, nextCursor: Text, hasNext: bool, failed: bool)
      requires Lawful(codec)
      ensures f.registries == Some({}) ==> !failed && page == [] && nextCursor == [] && !hasNext
      ensures f.registries != Some({}) ==> (failed <==> !ValidOrder(OrderOf(orderText)))
      ensures f.registries != Some({}) && !failed ==>
        PageOf(codec, Selected(artifacts, f, OrderOf(orderText), CursorOf(codec, cursorText)), OrderOf(orderText),
               EffectiveLimit(limit), page, nextCursor, hasNext)
      ensures !failed ==> forall a | a in page ::
                && a in artifacts
                && (f.registries.Some? ==> a.registry in f.registries.value)
                && (f.namespace != [] ==> a.namespace == f.namespace)
                && (f.kind != [] ==> a.kind == f.kind)
      ensures !failed && !hasNext && cursorText == [] ==> forall a |
                && a in artifacts
                && (f.registries.Some? ==> a.registry in f.registries.value)
                && (f.namespace != [] ==> a.namespace == f.namespace)
                && (f.kind != [] ==> a.kind == f.kind) :: a in page
      ensures !failed && (orderText == [] || orderText == DESC) ==> NewestFirst(page)
      ensures !failed && orderText == ASC ==> OldestFirst(page)
      ensures !failed && CursorOf(codec, cursorText).Some? ==> forall a | a in page ::
                if orderText == [] || orderText == DESC then a.created < CursorOf(codec, cursorText).value
                else a.created > CursorOf(codec, cursorText).value
      ensures |page| <= EffectiveLimit(limit) && (hasNext ==> |page| == EffectiveLimit(limit))
      ensures hasNext ==> CursorOf(codec, nextCursor) == Some(page[|page| - 1].created)
      ensures !hasNext ==> nextCursor == []
    {
      hide Answers, Selected, Matches, Lower, ValidOrder, Descending, Distinct, InOrder, DecodeCursor, EncodeCursor;
      OrderTexts();
      var n := EffectiveLimit(limit);
      var order := if orderText == [] then DESC else orderText;
      page, nextCursor, hasNext, failed := [], [], false, false;
      if f.registries == Some({}) {
        return;
      }
      var cursor: Option<int> := None;
      if cursorText != [] {
        var decoded := DecodeCursor(codec, cursorText);
        if decoded.Some? {
          cursor := Some(decoded.value.0);
        }
      }
      if !ValidOrder(order) {
        failed := true;
        return;
      }
      var rows := Query(Selected(artifacts, f, order, cursor), order, n + 1);
      page := rows;
      hasNext := |page| > n;
      if hasNext {
        page := page[..n];
      }
      if hasNext && |page| > 0 {
        nextCursor := EncodeCursor(codec, n, page[|page| - 1].created);
        CursorRoundTrip(codec, n, page[|page| - 1].created);
      }
      assert page == Page(n, rows) && hasNext == HasNext(n, rows);
      PageIsFiltered(artifacts, f, order, cursor, n, rows);
      PageIsOrdered(Selected(artifacts, f, order, cursor), order, n, rows);
    }
  }

  predicate NewestFirst(rows: seq<Artifact>) {
    forall i, j | 0 <= i < j < |rows| :: rows[i].created >= rows[j].created
  }

  predicate OldestFirst(rows: seq<Artifact>) {
    forall i, j | 0 <= i < j < |rows| :: rows[i].created <= rows[j].created
  }

  /** What the three filters and the cursor let through, and that a last page leaves none of it out. */
  lemma PageIsFiltered(table: Table, f: Filter, order: Text, cursor: Option<int>, n: nat, rows: seq<Artifact>)
    requires Answers(Selected(table, f, order, cursor), order, n + 1, rows)
    ensures forall a | a in Page(n, rows) ::
              && a in table
              && (f.registries.Some? ==> a.registry in f.registries.value)
              && (f.namespace != [] ==> a.namespace == f.namespace)
              && (f.kind != [] ==> a.kind == f.kind)
              && (cursor.Some? ==> if order == DESC then a.created < cursor.value else a.created > cursor.value)
    ensures !HasNext(n, rows) ==> forall a |
              && a in table
              && (f.registries.Some? ==> a.registry in f.registries.value)
              && (f.namespace != [] ==> a.namespace == f.namespace)
              && (f.kind != [] ==> a.kind == f.kind)
              && (cursor.Some? ==> if order == DESC then a.created < cursor.value else a.created > cursor.value) ::
              a in Page(n, rows)
  {
    hide Before;
    assert forall a | a in Page(n, rows) :: a in rows;
  }

  lemma PageIsOrdered(selected: Table, order: Text, n: nat, rows: seq<Artifact>)
    requires Answers(selected, order, n + 1, rows)
    ensures Descending(order) ==> NewestFirst(Page(n, rows))
    ensures !Descending(order) ==> OldestFirst(Page(n, rows))
  {
  }

  /** Equal but for capitals; lower is spelled in small letters. */
  predicate SpelledAs(s: Text, lower: Text) {
    |s| == |lower| && forall i | 0 <= i < |s| :: SameLetter(s[i], lower[i])
  }

  predicate SameLetter(c: byte, lower: byte) {
    c == lower || c as int + 32 == lower as int
  }

  lemma SpelledCons(c: byte, s: Text, l: byte, lower: Text)
    ensures SpelledAs([c] + s, [l] + lower) <==> SameLetter(c, l) && SpelledAs(s, lower)
  {
    var all, allLower := [c] + s, [l] + lower;
    assert forall i | 0 <= i < |s| :: all[i + 1] == s[i];
    assert forall i | 0 <= i < |lower| :: allLower[i + 1] == lower[i];
    if SpelledAs(all, allLower) {
      assert SameLetter(all[0], allLower[0]);
      forall i | 0 <= i < |s|
        ensures SameLetter(s[i], lower[i])
      {
        assert SameLetter(all[i + 1], allLower[i + 1]);
      }
    }
  }

  lemma LowerCons(c: byte, s: Text, l: byte, lower: Text)
    requires 'a' <= l <= 'z'
    ensures Lower([c] + s) == [l] + lower <==> SameLetter(c, l) && Lower(s) == lower
  {
    assert ([c] + s)[1..] == s;
    var first := if 'A' <= c <= 'Z' then (c as int + 32) as char else c;
    assert Lower([c] + s) == [first] + Lower(s);
    assert ([first] + Lower(s))[1..] == Lower(s) && ([l] + lower)[1..] == lower;
  }

  lemma {:induction false} LowerSpells(s: Text, lower: Text)
    requires forall c | c in lower :: 'a' <= c <= 'z'
    ensures Lower(s) == lower <==> SpelledAs(s, lower)
    decreases |s|
  {
    if s != [] && lower != [] {
      hide Lower, SpelledAs;
      assert s == [s[0]] + s[1..] && lower == [lower[0]] + lower[1..] && lower[0] in lower;
      assert forall c | c in lower[1..] :: c in lower;
      LowerSpells(s[1..], lower[1..]);
      SpelledCons(s[0], s[1..], lower[0], lower[1..]);
      LowerCons(s[0], s[1..], lower[0], lower[1..]);
    }
  }

  /** The order texts SQL takes are "asc" and "desc" in any mixture of capitals; only the latter descend. */
  lemma OrderTextsSpelled(order: Text)
    ensures ValidOrder(order) <==> SpelledAs(order, DESC) || SpelledAs(order, ASC)
    ensures Descending(order) <==> SpelledAs(order, DESC)
  {
    LowerSpells(order, DESC);
    LowerSpells(order, ASC);
  }

  lemma OrderTexts()
    ensures ValidOrder(DESC) && Descending(DESC) && ValidOrder(ASC) && !Descending(ASC)
  {
    OrderTextsSpelled(DESC);
    OrderTextsSpelled(ASC);
  }

  lemma {:induction false} FirstExists(left: Table, order: Text)
    requires left != {}
    ensures exists first | first in left :: forall a | a in left :: !Before(order, a.created, first.created)
    decreases |left|
  {
    var some :| some in left;
    if left == {some} {
    } else {
      FirstExists(left - {some}, order);
      var first :| first in left - {some} && forall a | a in left - {some} :: !Before(order, a.created, first.created);
      var winner := if Before(order, some.created, first.created) then some else first;
      assert forall a | a in left :: a == some || a in left - {some};
      assert winner in left && forall a | a in left :: !Before(order, a.created, winner.created);
    }
  }

  // ----- walks -----

  /** One page request: the table as the query saw it, the page size, and the up to limit + 1 rows returned. */
  datatype Visit = Visit(table: Table, limit: nat, rows: seq<Artifact>)

  /** The page carries a cursor to the next one. */
  predicate More(v: Visit) { v.limit > 0 && HasNext(v.limit, v.rows) }

  /** The timestamp in that cursor. */
  function End(v: Visit): int
    requires More(v)
  {
    v.rows[v.limit - 1].created
  }

  function Shown(v: Visit): seq<Artifact> {
    Page(v.limit, v.rows)
  }

  ghost predicate Answered(f: Filter, order: Text, cursor: Option<int>, v: Visit) {
    v.limit > 0 && Answers(Selected(v.table, f, order, cursor), order, v.limit + 1, v.rows)
  }

  /** Page after page, each from the cursor of the one before, over tables and page sizes that may differ. */
  ghost predicate Walk(f: Filter, order: Text, cursor: Option<int>, visits: seq<Visit>)
    decreases |visits|
  {
    visits == [] ||
    (Answered(f, order, cursor, visits[0]) &&
      (|visits| == 1 || (More(visits[0]) && Walk(f, order, Some(End(visits[0])), visits[1..]))))
  }

  predicate Complete(visits: seq<Visit>) {
    visits != [] && !More(visits[|visits| - 1])
  }

  function Returned(visits: seq<Visit>): seq<Artifact> {
    if visits == [] then [] else Shown(visits[0]) + Returned(visits[1..])
  }

  /** The page ends on the row's timestamp without the row. */
  predicate Strands(v: Visit, a: Artifact) {
    More(v) && a !in Shown(v) && a.created == End(v)
  }

  /** Left out of a page that ends on its own timestamp. */
  predicate Stranded(visits: seq<Visit>, a: Artifact) {
    exists v | v in visits :: Strands(v, a)
  }

  lemma {:induction false} ReturnedAreBeyond(f: Filter, order: Text, cursor: int, visits: seq<Visit>)
    requires Coherent(order) && Walk(f, order, Some(cursor), visits)
    ensures forall r | r in Returned(visits) :: Beyond(order, r.created, cursor)
    decreases |visits|
  {
    if |visits| > 0 {
      assert forall r | r in Shown(visits[0]) :: r in visits[0].rows;
      if |visits| > 1 {
        var next := visits[0].rows[visits[0].limit - 1];
        ReturnedAreBeyond(f, order, next.created, visits[1..]);
        assert next in visits[0].rows;
      } else {
        assert Returned(visits[1..]) == [];
      }
    }
  }

  lemma PageInOrder(f: Filter, order: Text, cursor: Option<int>, v: Visit)
    requires Answered(f, order, cursor, v)
    ensures Distinct(Shown(v)) && InOrder(order, Shown(v))
    ensures More(v) ==> |Shown(v)| == v.limit
    ensures More(v) ==> forall i | 0 <= i < v.limit :: !Before(order, End(v), Shown(v)[i].created)
  {
    hide Before;
    if More(v) {
      forall i | 0 <= i < v.limit
        ensures !Before(order, End(v), v.rows[i].created)
      {
        BeforeIsStrict(order, v.rows[i].created);
      }
    }
  }

  lemma BeforeIsStrict(order: Text, x: int)
    ensures !Before(order, x, x)
  {
  }

  lemma ReturnedCons(visits: seq<Visit>)
    requires visits != []
    ensures Returned(visits) == Shown(visits[0]) + Returned(visits[1..])
    ensures |visits| == 1 ==> Returned(visits) == Shown(visits[0])
  {
    if |visits| == 1 {
      assert visits[1..] == [];
      assert Shown(visits[0]) + [] == Shown(visits[0]);
    }
  }

  /**
   No row is ever returned twice and the rows come in order, across pages strictly so,
   whatever is inserted or deleted between pages, however the page size changes and however
   many timestamps are equal.
   */
  lemma {:induction false} ReturnedOnceInOrder(f: Filter, order: Text, cursor: Option<int>, visits: seq<Visit>)
    requires Coherent(order) && Walk(f, order, cursor, visits)
    ensures Distinct(Returned(visits)) && InOrder(order, Returned(visits))
    decreases |visits|
  {
    hide Coherent, Answered, Before, Beyond, Shown, Distinct, InOrder, End;
    if visits != [] {
      hide Returned;
      PageInOrder(f, order, cursor, visits[0]);
      ReturnedCons(visits);
      if |visits| > 1 {
        var next := End(visits[0]);
        ReturnedOnceInOrder(f, order, Some(next), visits[1..]);
        ReturnedAreBeyond(f, order, next, visits[1..]);
        JoinOrdered(order, Shown(visits[0]), Returned(visits[1..]), next);
      }
    } else {
      NothingReturned(order);
    }
  }

  lemma NothingReturned(order: Text)
    ensures Distinct(Returned([])) && InOrder(order, Returned([]))
  {
  }

  lemma JoinOrdered(order: Text, page: seq<Artifact>, rest: seq<Artifact>, cursor: int)
    requires Coherent(order)
    requires Distinct(page) && InOrder(order, page) && Distinct(rest) && InOrder(order, rest)
    requires forall i | 0 <= i < |page| :: !Before(order, cursor, page[i].created)
    requires forall r | r in rest :: Beyond(order, r.created, cursor)
    ensures Distinct(page + rest) && InOrder(order, page + rest)
  {
    forall i, j | 0 <= i < |page| && 0 <= j < |rest|
      ensures Before(order, page[i].created, rest[j].created)
    {
      assert rest[j] in rest;
    }
  }

  lemma StrandedCons(visits: seq<Visit>, a: Artifact)
    requires visits != []
    ensures Stranded(visits, a) <==> Strands(visits[0], a) || Stranded(visits[1..], a)
  {
    hide Strands;
    assert visits == [visits[0]] + visits[1..];
  }

  /** A selected row that a full page leaves out lies beyond the page or is stranded by it. */
  lemma NextPageCovers(f: Filter, order: Text, cursor: Option<int>, v: Visit, a: Artifact)
    requires Coherent(order) && Answered(f, order, cursor, v) && More(v)
    requires a in Selected(v.table, f, order, cursor) && a !in Shown(v) && a.created != End(v)
    ensures Beyond(order, a.created, End(v))
  {
    var rows, n := v.rows, v.limit;
    assert rows == rows[..n] + rows[n..];
    if a in rows {
      var i :| 0 <= i < |rows[n..]| && rows[n..][i] == a;
      assert rows[n + i] == a;
    } else {
      assert rows[n - 1] in rows;
    }
  }

  /** A row beyond the cursor throughout is returned, unless a page ends on its timestamp without it. */
  lemma {:induction false} ReturnedOrStranded(f: Filter, order: Text, cursor: Option<int>, visits: seq<Visit>,
                                              a: Artifact)
    requires Coherent(order) && Walk(f, order, cursor, visits) && Complete(visits)
    requires Matches(f, a) && (cursor.Some? ==> Beyond(order, a.created, cursor.value))
    requires forall v | v in visits :: a in v.table
    ensures a in Returned(visits) || Stranded(visits, a)
    decreases |visits|
  {
    hide Coherent, Beyond, Matches;
    var v := visits[0];
    assert v in visits && a in Selected(v.table, f, order, cursor);
    if !More(v) {
      assert |visits| == 1 && a in v.rows;
    } else {
      StrandedCons(visits, a);
      if a !in Shown(v) && a.created != End(v) {
        NextPageCovers(f, order, cursor, v, a);
        ReturnedOrStranded(f, order, Some(End(v)), visits[1..], a);
      }
    }
  }

  /** Later pages end strictly beyond the cursor they start from. */
  lemma {:induction false} NotStrandedBehind(f: Filter, order: Text, cursor: int, visits: seq<Visit>, a: Artifact)
    requires Coherent(order) && Walk(f, order, Some(cursor), visits) && !Before(order, cursor, a.created)
    ensures !Stranded(visits, a)
    decreases |visits|
  {
    if visits != [] {
      StrandedCons(visits, a);
      var v := visits[0];
      if More(v) {
        assert v.rows[v.limit - 1] in v.rows;
        if |visits| > 1 {
          NotStrandedBehind(f, order, End(v), visits[1..], a);
        }
      }
    }
  }

  /** A row stranded later is not on this page. */
  lemma NotOnPageBefore(f: Filter, order: Text, v: Visit, cursor: Option<int>, later: seq<Visit>, a: Artifact)
    requires Coherent(order) && Answered(f, order, cursor, v) && More(v) && Walk(f, order, Some(End(v)), later)
    requires Stranded(later, a)
    ensures a !in Shown(v)
  {
    hide Coherent, Before, Walk, Stranded;
    PageInOrder(f, order, cursor, v);
    if a in Shown(v) {
      var i :| 0 <= i < v.limit && Shown(v)[i] == a;
      NotStrandedBehind(f, order, End(v), later, a);
    }
  }

  /** What a page strands, no later page returns. */
  lemma StrandedNow(f: Filter, order: Text, v: Visit, later: seq<Visit>, a: Artifact)
    requires Coherent(order) && Strands(v, a) && Walk(f, order, Some(End(v)), later)
    ensures a !in Returned(later)
  {
    ReturnedAreBeyond(f, order, End(v), later);
  }

  lemma {:induction false} StrandedIsMissed(f: Filter, order: Text, cursor: Option<int>, visits: seq<Visit>,
                                            a: Artifact)
    requires Coherent(order) && Walk(f, order, cursor, visits) && Stranded(visits, a)
    ensures a !in Returned(visits)
    decreases |visits|
  {
    hide Coherent, Stranded, Returned, Answered, End;
    StrandedSomewhere(visits, a);
    StrandedCons(visits, a);
    ReturnedCons(visits);
    var v, later := visits[0], visits[1..];
    if |visits| > 1 {
      if Strands(v, a) {
        StrandedNow(f, order, v, later, a);
      } else {
        StrandedIsMissed(f, order, Some(End(v)), later, a);
        NotOnPageBefore(f, order, v, cursor, later, a);
      }
    } else {
      StrandedByOne(visits, a);
    }
  }

  lemma StrandedSomewhere(visits: seq<Visit>, a: Artifact)
    requires Stranded(visits, a)
    ensures visits != []
  {
  }

  lemma StrandedByOne(visits: seq<Visit>, a: Artifact)
    requires Stranded(visits, a) && |visits| == 1
    ensures Strands(visits[0], a)
  {
    hide Strands;
  }

  /**
   In any walk over a changing table, a matching row present in every state of it is
   returned exactly when no full page ends on its timestamp without it.
   */
  lemma PresentIsReturned(f: Filter, order: Text, visits: seq<Visit>, a: Artifact)
    requires Coherent(order) && Walk(f, order, None, visits) && Complete(visits)
    requires Matches(f, a) && forall v | v in visits :: a in v.table
    ensures a in Returned(visits) <==> !Stranded(visits, a)
  {
    hide Walk, Returned, Stranded, Complete;
    ReturnedOrStranded(f, order, None, visits, a);
    if Stranded(visits, a) {
      StrandedIsMissed(f, order, None, visits, a);
    }
  }

  predicate DistinctTimes(f: Filter, table: Table) {
    forall a, b | a in table && b in table && Matches(f, a) && Matches(f, b) && a != b :: a.created != b.created
  }

  /** With distinct timestamps in every state of the table, nothing present throughout is missed. */
  lemma PresentIsReturnedOnce(f: Filter, order: Text, visits: seq<Visit>, a: Artifact)
    requires Coherent(order) && Walk(f, order, None, visits) && Complete(visits)
    requires Matches(f, a) && forall v | v in visits :: a in v.table && DistinctTimes(f, v.table)
    ensures multiset(Returned(visits))[a] == 1
  {
    hide Walk, Returned, Stranded, Complete, DistinctTimes;
    ReturnedOnceInOrder(f, order, None, visits);
    PresentIsReturned(f, order, visits, a);
    NeverStranded(f, order, None, visits, a);
    DistinctCountsOnce(Returned(visits), a);
  }

  lemma {:induction false} DistinctCountsOnce(rows: seq<Artifact>, a: Artifact)
    requires Distinct(rows)
    ensures multiset(rows)[a] == if a in rows then 1 else 0
  {
    if rows != [] {
      assert rows == [rows[0]] + rows[1..];
      DistinctCountsOnce(rows[1..], a);
      assert rows[0] !in rows[1..];
    }
  }

  /** The last row of a full page is the only one of its time in the table. */
  lemma DistinctTimesStrandNothing(f: Filter, order: Text, cursor: Option<int>, v: Visit, a: Artifact)
    requires Answered(f, order, cursor, v) && Matches(f, a) && a in v.table && DistinctTimes(f, v.table)
    ensures !Strands(v, a)
  {
    if More(v) {
      var last := v.rows[v.limit - 1];
      assert last in v.rows && Shown(v)[v.limit - 1] == last;
    }
  }

  lemma {:induction false} NeverStranded(f: Filter, order: Text, cursor: Option<int>, visits: seq<Visit>, a: Artifact)
    requires Walk(f, order, cursor, visits)
    requires Matches(f, a) && forall v | v in visits :: a in v.table && DistinctTimes(f, v.table)
    ensures !Stranded(visits, a)
    decreases |visits|
  {
    if visits != [] {
      hide Stranded, Strands, Answered, Matches, DistinctTimes, End;
      assert visits[0] in visits;
      DistinctTimesStrandNothing(f, order, cursor, visits[0], a);
      StrandedCons(visits, a);
      if |visits| > 1 {
        NeverStranded(f, order, Some(End(visits[0])), visits[1..], a);
      } else {
        NothingStranded(visits[1..], a);
      }
    }
  }

  lemma NothingStranded(visits: seq<Visit>, a: Artifact)
    requires visits == []
    ensures !Stranded(visits, a)
  {
  }

  // ----- a fixed table -----

  predicate OverTable(visits: seq<Visit>, table: Table) {
    forall v | v in visits :: v.table == table
  }

  /** On a table nobody changes, the pages concatenate to the whole matching list in order. */
  lemma FixedTableIsListed(f: Filter, order: Text, visits: seq<Visit>, table: Table, listing: seq<Artifact>)
    requires Coherent(order) && Walk(f, order, None, visits) && Complete(visits)
    requires DistinctTimes(f, table) && OverTable(visits, table)
    requires Distinct(listing) && InOrder(order, listing)
    requires forall a :: a in listing <==> a in table && Matches(f, a)
    ensures Returned(visits) == listing
  {
    hide Walk, Complete, Returned, Matches, DistinctTimes, Distinct, InOrder;
    var returned := Returned(visits);
    ReturnedOnceInOrder(f, order, None, visits);
    forall a
      ensures a in returned <==> a in listing
    {
      if a in table && Matches(f, a) {
        PresentIsReturnedOnce(f, order, visits, a);
        assert a in multiset(returned);
      }
      if a in returned {
        ReturnedMatch(f, order, None, visits, table, a);
      }
    }
    StrictlyOrdered(f, table, order, returned);
    StrictlyOrdered(f, table, order, listing);
    SameElementsSameList(order, returned, listing);
  }

  lemma {:induction false} ReturnedMatch(f: Filter, order: Text, cursor: Option<int>, visits: seq<Visit>,
                                         table: Table, a: Artifact)
    requires Walk(f, order, cursor, visits) && a in Returned(visits) && OverTable(visits, table)
    ensures a in table && Matches(f, a)
    decreases |visits|
  {
    hide Matches;
    assert visits[0] in visits;
    if |visits| == 1 {
      assert visits[1..] == [];
      assert a in visits[0].rows;
    } else if a in Shown(visits[0]) {
      assert a in visits[0].rows;
    } else {
      ReturnedMatch(f, order, Some(End(visits[0])), visits[1..], table, a);
    }
  }

  ghost predicate Strictly(order: Text, rows: seq<Artifact>) {
    forall i, j | 0 <= i < j < |rows| :: Before(order, rows[i].created, rows[j].created)
  }

  lemma StrictlyOrdered(f: Filter, table: Table, order: Text, rows: seq<Artifact>)
    requires DistinctTimes(f, table) && Distinct(rows) && InOrder(order, rows)
    requires forall r | r in rows :: r in table && Matches(f, r)
    ensures Strictly(order, rows)
  {
    forall i, j | 0 <= i < j < |rows|
      ensures Before(order, rows[i].created, rows[j].created)
    {
      assert rows[i] in rows && rows[j] in rows && rows[i] != rows[j];
    }
  }

  lemma {:induction false} SameElementsSameList(order: Text, a: seq<Artifact>, b: seq<Artifact>)
    requires Strictly(order, a) && Strictly(order, b) && forall x :: x in a <==> x in b
    ensures a == b
  {
    if a == [] {
      assert forall i | 0 <= i < |b| :: b[i] in b;
    } else {
      assert a[0] in a && a[0] in b;
      assert b[0] in b && b[0] in a;
      assert a[0] == b[0];
      forall x
        ensures x in a[1..] <==> x in b[1..]
      {
        TailMembers(order, a, x);
        TailMembers(order, b, x);
      }
      SameElementsSameList(order, a[1..], b[1..]);
      assert a == [a[0]] + a[1..] && b == [b[0]] + b[1..];
    }
  }

  lemma TailMembers(order: Text, a: seq<Artifact>, x: Artifact)
    requires a != [] && Strictly(order, a)
    ensures x in a[1..] <==> x in a && x != a[0]
  {
    if x in a[1..] {
      var i :| 0 <= i < |a[1..]| && a[1..][i] == x;
      assert a[i + 1] == x && Before(order, a[0].created, a[i + 1].created);
    }
    assert a == [a[0]] + a[1..];
  }

  // ----- equal timestamps -----

  /** Two rows of one timestamp, read one per page: the walk ends without the second. */
  lemma TieLosesRow(order: Text, f: Filter, a: Artifact, b: Artifact, visits: seq<Visit>)
    requires Coherent(order) && a != b && a.created == b.created && Matches(f, a) && Matches(f, b)
    requires visits == [Visit({a, b}, 1, [a, b]), Visit({a, b}, 1, [])]
    ensures Walk(f, order, None, visits) && Complete(visits)
    ensures Returned(visits) == [a]
  {
    assert Selected({a, b}, f, order, None) == {a, b};
    assert Selected({a, b}, f, order, Some(a.created)) == {};
    assert visits[1..] == [visits[1]] && visits[1..][1..] == [];
    assert Returned(visits[1..]) == [];
  }

  /** Some answer to an ordered, limited read. */
  lemma {:induction false} AnswerExists(selected: Table, order: Text, n: nat) returns (rows: seq<Artifact>)
    ensures Answers(selected, order, n, rows)
    decreases n
  {
    rows := [];
    if n > 0 && selected != {} {
      FirstExists(selected, order);
      var first :| first in selected && forall a | a in selected :: !Before(order, a.created, first.created);
      var rest := AnswerExists(selected - {first}, order, n - 1);
      AnswerCons(selected, order, n, first, rest);
      rows := [first] + rest;
    }
  }

  lemma AnswerCons(selected: Table, order: Text, n: nat, first: Artifact, rest: seq<Artifact>)
    requires n > 0 && first in selected && forall a | a in selected :: !Before(order, a.created, first.created)
    requires Answers(selected - {first}, order, n - 1, rest)
    ensures Answers(selected, order, n, [first] + rest)
  {
    hide Before;
    var rows := [first] + rest;
    assert forall r | r in rows :: r == first || r in rest;
    assert forall i | 0 < i < |rows| :: rows[i] == rest[i - 1] && rows[i] in rest;
  }

  /** Behind the page fewer rows are left. */
  lemma LeftShrinks(f: Filter, order: Text, cursor: Option<int>, v: Visit)
    requires Coherent(order) && Answered(f, order, cursor, v) && More(v)
    ensures |Selected(v.table, f, order, Some(End(v)))| < |Selected(v.table, f, order, cursor)|
  {
    var before, after := Selected(v.table, f, order, cursor), Selected(v.table, f, order, Some(End(v)));
    var last := v.rows[v.limit - 1];
    assert last in v.rows && last in before && last !in after;
    assert after <= before - {last};
    SubsetSize(after, before - {last});
  }

  lemma {:induction false} SubsetSize(a: Table, b: Table)
    requires a <= b
    ensures |a| <= |b|
    decreases |a|
  {
    if a != {} {
      var x :| x in a;
      SubsetSize(a - {x}, b - {x});
    }
  }

  /** On a fixed table every page size has a walk to the end. */
  lemma {:induction false} WalkExists(f: Filter, order: Text, table: Table, limit: nat, cursor: Option<int>)
    returns (visits: seq<Visit>)
    requires Coherent(order) && limit > 0
    ensures Walk(f, order, cursor, visits) && Complete(visits) && OverTable(visits, table)
    ensures forall v | v in visits :: v.limit == limit
    decreases |Selected(table, f, order, cursor)|
  {
    hide Coherent, Selected, Answers;
    var rows := AnswerExists(Selected(table, f, order, cursor), order, limit + 1);
    var v := Visit(table, limit, rows);
    visits := [v];
    if More(v) {
      LeftShrinks(f, order, cursor, v);
      var rest := WalkExists(f, order, table, limit, Some(End(v)));
      assert ([v] + rest)[1..] == rest;
      visits := [v] + rest;
    }
  }

  /** One row per page never shows two rows of one timestamp. */
  lemma {:induction false} OnePerTime(f: Filter, order: Text, cursor: Option<int>, visits: seq<Visit>, a: Artifact,
                                      b: Artifact)
    requires Coherent(order) && Walk(f, order, cursor, visits) && forall v | v in visits :: v.limit == 1
    requires a in Returned(visits) && b in Returned(visits) && a.created == b.created
    ensures a == b
    decreases |visits|
  {
    hide Coherent, Beyond, Answered;
    var v, later := visits[0], visits[1..];
    assert v in visits && |Shown(v)| <= 1;
    ReturnedCons(visits);
    if |visits| > 1 {
      hide Returned;
      ReturnedAreBeyond(f, order, End(v), later);
      BeyondIsStrict(order, End(v));
      assert Shown(v) == [v.rows[0]] && v.rows[0].created == End(v);
      if a in Returned(later) && b in Returned(later) {
        OnePerTime(f, order, Some(End(v)), later, a, b);
      }
    }
  }

  lemma BeyondIsStrict(order: Text, x: int)
    ensures !Beyond(order, x, x)
  {
  }

  /** Every complete walk over the table, whatever its page sizes, returns all its matching rows. */
  ghost predicate CoversTable(f: Filter, order: Text, table: Table) {
    forall visits: seq<Visit>, a: Artifact ::
      Walk(f, order, None, visits) && Complete(visits) && OverTable(visits, table) && a in table && Matches(f, a) ==>
        a in Returned(visits)
  }

  /** Walks over a fixed table return all its matching rows exactly when no two of them have one timestamp. */
  lemma TableCoveredIff(f: Filter, order: Text, table: Table)
    requires Coherent(order)
    ensures CoversTable(f, order, table) <==> DistinctTimes(f, table)
  {
    hide Coherent, Walk, Complete, Returned, Matches;
    if DistinctTimes(f, table) {
      forall visits: seq<Visit>, a: Artifact |
        Walk(f, order, None, visits) && Complete(visits) && OverTable(visits, table) && a in table && Matches(f, a)
        ensures a in Returned(visits)
      {
        PresentIsReturnedOnce(f, order, visits, a);
        assert a in multiset(Returned(visits));
      }
    } else {
      var a, b :| a in table && b in table && Matches(f, a) && Matches(f, b) && a != b && a.created == b.created;
      var visits := WalkExists(f, order, table, 1, None);
      if a in Returned(visits) && b in Returned(visits) {
        OnePerTime(f, order, None, visits, a, b);
      }
    }
  }

  // ----- orders spelled in capitals -----

  /** Every complete walk over distinct timestamps returns every row present throughout. */
  ghost predicate Covers(order: Text) {
    forall f: Filter, visits: seq<Visit>, a: Artifact ::
      Walk(f, order, None, visits) && Complete(visits) && Matches(f, a) &&
      (forall v | v in visits :: a in v.table && DistinctTimes(f, v.table)) ==>
        a in Returned(visits)
  }

  /**
   "DESC" sorts descending like "desc" but continues above the cursor: with page size 1 the
   walk of a two-row table ends without the older row.
   */
  lemma IncoherentOrderMisses(order: Text, f: Filter, newer: Artifact, older: Artifact, visits: seq<Visit>)
    requires ValidOrder(order) && !Coherent(order) && older.created < newer.created
    requires Matches(f, newer) && Matches(f, older)
    requires visits == [Visit({newer, older}, 1, [newer, older]), Visit({newer, older}, 1, [])]
    ensures Walk(f, order, None, visits) && Complete(visits)
    ensures DistinctTimes(f, {newer, older}) && older !in Returned(visits)
  {
    assert Selected({newer, older}, f, order, None) == {newer, older};
    assert Selected({newer, older}, f, order, Some(newer.created)) == {};
    assert visits[1..] == [visits[1]] && visits[1..][1..] == [];
    assert Returned(visits[1..]) == [];
  }

  /** Among the orders SQL accepts, exactly those whose condition follows the sort direction cover. */
  lemma CoversIffCoherent(order: Text)
    requires ValidOrder(order)
    ensures Covers(order) <==> Coherent(order)
  {
    if Coherent(order) {
      forall f: Filter, visits: seq<Visit>, a: Artifact |
        Walk(f, order, None, visits) && Complete(visits) && Matches(f, a) &&
        (forall v | v in visits :: a in v.table && DistinctTimes(f, v.table))
        ensures a in Returned(visits)
      {
        PresentIsReturnedOnce(f, order, visits, a);
        assert a in multiset(Returned(visits));
      }
    } else {
      var f := Filter(None, [], []);
      var newer, older := Artifact(['a'], [], [], [], 1), Artifact(['b'], [], [], [], 0);
      var visits := [Visit({newer, older}, 1, [newer, older]), Visit({newer, older}, 1, [])];
      IncoherentOrderMisses(order, f, newer, older, visits);
      assert forall v | v in visits :: v.table == {newer, older};
    }
  }
}
