/** The ingestion of one OpenAlex work, and of a list of works, into the
    library tables (`lib/openalex/ingest.ts`). The work and its relations
    are extracted, then written table by table: the source, institutions,
    funders, topics level by level, authors, the work row, the three
    junctions, the author-institution pairs, and finally stub rows and
    citation edges for the works it references. A batch whose outcome is
    not checked and that the store refuses leaves its table as it was. */
module Ingest {
  import opened Text
  import opened Library
  import opened Extract
  import opened Store

  // ---------------------------------------------------------------------
  // Keys of a batch
  // ---------------------------------------------------------------------

  /** The value `f` gives each row of a batch, in order. */
  function Column<T, U>(rows: seq<T>, f: T -> U): (r: seq<U>)
    ensures |r| == |rows| && forall i :: 0 <= i < |rows| ==> r[i] == f(rows[i])
  {
    seq(|rows|, i requires 0 <= i < |rows| => f(rows[i]))
  }

  function KeysOf<T(==), K>(rows: seq<T>, key: T -> K): set<K> {
    set x | x in rows :: key(x)
  }

  lemma KeysOfAppend<T, K>(rows: seq<T>, x: T, key: T -> K)
    ensures KeysOf(rows + [x], key) == KeysOf(rows, key) + {key(x)}
  {
    assert forall y :: y in rows + [x] <==> y in rows || y == x;
  }

  lemma ColumnKeys<T, K>(rows: seq<T>, key: T -> K)
    ensures KeySet(Column(rows, key)) == KeysOf(rows, key)
  {
    var c := Column(rows, key);
    forall k | k in KeysOf(rows, key)
      ensures k in KeySet(c)
    {
      var x :| x in rows && key(x) == k;
      var i :| 0 <= i < |rows| && rows[i] == x;
      assert c[i] == k;
    }
  }

  // ---------------------------------------------------------------------
  // First occurrence by key
  // ---------------------------------------------------------------------

  /** `findIndex` with a key test: the first index whose row has key `k`,
      or -1. */
  function FindIndex<T(==), K(==)>(rows: seq<T>, key: T -> K, k: K): (r: int)
    decreases |rows|
    ensures -1 <= r < |rows|
  {
    if rows == [] then -1
    else
      var j := FindIndex(rows[..|rows| - 1], key, k);
      if j >= 0 then j else if key(rows[|rows| - 1]) == k then |rows| - 1 else -1
  }

  /** `FindIndex` finds the first row with the key, and finds nothing
      exactly when no row has it. */
  lemma {:induction false} FindIndexFacts<T, K>(rows: seq<T>, key: T -> K, k: K)
    decreases |rows|
    ensures FindIndex(rows, key, k) == -1 <==> k !in KeysOf(rows, key)
    ensures FindIndex(rows, key, k) >= 0 ==>
              key(rows[FindIndex(rows, key, k)]) == k &&
              forall j :: 0 <= j < FindIndex(rows, key, k) ==> key(rows[j]) != k
  {
    if rows != [] {
      var n := |rows| - 1;
      var p := rows[..n];
      FindIndexFacts(p, key, k);
      assert rows == p + [rows[n]];
      KeysOfAppend(p, rows[n], key);
      var j := FindIndex(p, key, k);
      if j < 0 && key(rows[n]) == k {
        forall i | 0 <= i < n
          ensures key(rows[i]) != k
        {
          assert rows[i] == p[i] && p[i] in p;
        }
      }
    }
  }

  /** The rows of `dedupeById`: each row whose key no earlier row has, in
      order. */
  function Dedupe<T(==), K(==)>(rows: seq<T>, key: T -> K): seq<T>
    decreases |rows|
  {
    if rows == [] then []
    else
      var p := Dedupe(rows[..|rows| - 1], key);
      var x := rows[|rows| - 1];
      if key(x) in KeysOf(p, key) then p else p + [x]
  }

  predicate DistinctBy<T(==), K(==)>(rows: seq<T>, key: T -> K) {
    forall i, j :: 0 <= i < j < |rows| ==> key(rows[i]) != key(rows[j])
  }

  /** De-duplication leaves distinct keys, loses no key, invents no row,
      and each row it keeps is the first row with that key. */
  lemma {:induction false} DedupeFacts<T, K>(rows: seq<T>, key: T -> K)
    decreases |rows|
    ensures DistinctBy(Dedupe(rows, key), key)
    ensures KeysOf(Dedupe(rows, key), key) == KeysOf(rows, key)
    ensures forall x :: x in Dedupe(rows, key) ==>
              FindIndex(rows, key, key(x)) >= 0 && rows[FindIndex(rows, key, key(x))] == x
  {
    if rows != [] {
      var n := |rows| - 1;
      var p := rows[..n];
      var x := rows[n];
      var d := Dedupe(p, key);
      DedupeFacts(p, key);
      assert rows == p + [x];
      KeysOfAppend(p, x, key);
      if key(x) !in KeysOf(d, key) {
        KeysOfAppend(d, x, key);
        FindIndexFacts(p, key, key(x));
        forall i | 0 <= i < |d|
          ensures key(d[i]) != key(x)
        {
          assert d[i] in d;
        }
      }
    }
  }

  /** On rows whose keys are already distinct, de-duplication changes
      nothing. */
  lemma {:induction false} DedupeOfDistinct<T, K>(rows: seq<T>, key: T -> K)
    requires DistinctBy(rows, key)
    decreases |rows|
    ensures Dedupe(rows, key) == rows
  {
    if rows != [] {
      var n := |rows| - 1;
      var p := rows[..n];
      assert DistinctBy(p, key) by {
        forall i, j | 0 <= i < j < |p|
          ensures key(p[i]) != key(p[j])
        {
          assert p[i] == rows[i] && p[j] == rows[j];
        }
      }
      DedupeOfDistinct(p, key);
      assert key(rows[n]) !in KeysOf(p, key) by {
        forall y | y in p
          ensures key(y) != key(rows[n])
        {
          var i :| 0 <= i < n && p[i] == y;
          assert rows[i] == y;
        }
      }
    }
  }

  /** `dedupeById` applied twice is `dedupeById` applied once. */
  lemma DedupeIdempotent<T, K>(rows: seq<T>, key: T -> K)
    ensures Dedupe(Dedupe(rows, key), key) == Dedupe(rows, key)
  {
    DedupeFacts(rows, key);
    DedupeOfDistinct(Dedupe(rows, key), key);
  }

  /** `dedupeById`: a loop with the set of ids seen so far. */
  method DedupeById<T(==), K(==)>(items: seq<T>, key: T -> K) returns (r: seq<T>)
    ensures r == Dedupe(items, key)
  {
    var seen: set<K> := {};
    r := [];
    for i := 0 to |items|
      invariant r == Dedupe(items[..i], key)
      invariant seen == KeysOf(r, key)
    {
      assert items[..i + 1][..i] == items[..i];
      var item := items[i];
      if key(item) !in seen {
        KeysOfAppend(r, item, key);
        seen := seen + {key(item)};
        r := r + [item];
      }
    }
    assert items[..|items|] == items;
  }

  /** The `filter` that keeps a row exactly when `findIndex` of its key is
      its own index, over the first `n` rows. */
  function FilterFirst<T(==), K(==)>(rows: seq<T>, key: T -> K, n: nat): seq<T>
    requires n <= |rows|
  {
    if n == 0 then []
    else FilterFirst(rows, key, n - 1) +
         (if FindIndex(rows, key, key(rows[n - 1])) == n - 1 then [rows[n - 1]] else [])
  }

  /** The filter-with-`findIndex` de-duplication keeps the same rows as
      the seen-set one. */
  lemma {:induction false} FilterFirstIsDedupe<T, K>(rows: seq<T>, key: T -> K, n: nat)
    requires n <= |rows|
    ensures FilterFirst(rows, key, n) == Dedupe(rows[..n], key)
  {
    if n > 0 {
      FilterFirstIsDedupe(rows, key, n - 1);
      var p := rows[..n - 1];
      assert rows[..n][..n - 1] == p;
      DedupeFacts(p, key);
      FirstAtOwnIndex(rows, key, n - 1);
    }
  }

  /** `findIndex` of a row's key is the row's own index exactly when no
      earlier row has that key. */
  lemma FirstAtOwnIndex<T, K>(rows: seq<T>, key: T -> K, i: nat)
    requires i < |rows|
    ensures FindIndex(rows, key, key(rows[i])) == i <==> key(rows[i]) !in KeysOf(rows[..i], key)
  {
    var p := rows[..i];
    var k := key(rows[i]);
    FindIndexFacts(rows, key, k);
    assert k in KeysOf(rows, key);
    var f := FindIndex(rows, key, k);
    if k in KeysOf(p, key) {
      var y :| y in p && key(y) == k;
      var j :| 0 <= j < i && p[j] == y;
      assert rows[j] == y;
      assert f <= j;
    } else {
      forall j | 0 <= j < i
        ensures key(rows[j]) != k
      {
        assert rows[j] == p[j] && p[j] in p;
      }
      assert f == i;
    }
  }

  // ---------------------------------------------------------------------
  // Batch writes
  // ---------------------------------------------------------------------

  /** A batch upsert of `rows`, each stored under `key` as `val`; its
      outcome is not checked. */
  function UpsertRows<T(==), K(==), V>(table: map<K, V>, rows: seq<T>, key: T -> K, val: T -> V): map<K, V> {
    UpsertOrKeep(table, Column(rows, key), Column(rows, val))
  }

  /** A batch naming one key twice is refused, so the table keeps every row
      it had and gains none. */
  lemma UpsertRowsRefused<T, K, V>(table: map<K, V>, rows: seq<T>, key: T -> K, val: T -> V, i: nat, j: nat)
    requires i < j < |rows| && key(rows[i]) == key(rows[j])
    ensures UpsertRows(table, rows, key, val) == table
  {
    assert Column(rows, key)[i] == Column(rows, key)[j];
  }

  /** A de-duplicated batch is accepted: every key of the rows is stored
      with the value of its first row, and every other stored row is
      kept. */
  lemma UpsertDeduped<T, K, V>(table: map<K, V>, rows: seq<T>, key: T -> K, val: T -> V)
    ensures var b := Dedupe(rows, key);
            Upsert(table, Column(b, key), Column(b, val)).Some?
    ensures var r := UpsertRows(table, Dedupe(rows, key), key, val);
            r.Keys == table.Keys + KeysOf(rows, key) &&
            (forall k :: k in table && k !in KeysOf(rows, key) ==> r[k] == table[k]) &&
            forall k :: k in KeysOf(rows, key) ==>
              FindIndex(rows, key, k) >= 0 && key(rows[FindIndex(rows, key, k)]) == k &&
              r[k] == val(rows[FindIndex(rows, key, k)])
  {
    var b := Dedupe(rows, key);
    DedupeFacts(rows, key);
    ColumnKeys(b, key);
    var ks := Column(b, key);
    assert DistinctKeys(ks);
    var r := UpsertRows(table, b, key, val);
    forall k | k in KeysOf(rows, key)
      ensures FindIndex(rows, key, k) >= 0 && key(rows[FindIndex(rows, key, k)]) == k
      ensures r[k] == val(rows[FindIndex(rows, key, k)])
    {
      var x :| x in b && key(x) == k;
      var i :| 0 <= i < |b| && b[i] == x;
      assert ks[i] == k;
    }
  }

  /** A pair-keyed batch upsert whose outcome is not checked. */
  function UpsertPairs(table: set<(string, string)>, pairs: seq<(string, string)>): set<(string, string)> {
    match UpsertKeys(table, pairs)
    case Some(t) => t
    case None => table
  }

  // ---------------------------------------------------------------------
  // Rows written
  // ---------------------------------------------------------------------

  function AuthorEntryId(a: AuthorEntry): string { a.id }
  function AuthorRowId(a: AuthorRow): string { a.id }
  function InstitutionId(i: InstitutionRow): string { i.id }
  function FunderId(f: FunderRow): string { f.id }
  function TopicId(t: TopicRow): string { t.id }
  function LevelOf(t: TopicRow): int { t.level }
  function SameTopic(t: TopicRow): TopicRow { t }
  function SameAuthor(a: AuthorRow): AuthorRow { a }
  function SameInstitution(i: InstitutionRow): InstitutionRow { i }
  function SameFunder(f: FunderRow): FunderRow { f }

  /** The `authors` row of an extracted author. */
  function AuthorRowOf(a: AuthorEntry): AuthorRow {
    AuthorRow(a.id, a.displayName, a.orcid, a.citedByCount)
  }

  /** The stored row of a work before the upsert, if any. */
  function Prior(works: map<string, WorkRow>, id: string): Option<WorkRow> {
    if id in works then Some(works[id]) else None
  }

  /** The work row after the upsert: the columns the ingestion names come
      from the extracted work and mark it as no stub; the summary and the
      citations-fetched flag, which it does not name, stay as stored. */
  function WorkRowOf(e: ExtractedWork, prior: Option<WorkRow>): (r: WorkRow)
    ensures r.id == e.id && !r.isStub && r.title == e.title && r.citedByCount == Some(e.citedByCount)
    ensures prior.Some? ==> r.summary == prior.value.summary && r.citationsFetched == prior.value.citationsFetched
    ensures prior.None? ==> r.summary.None? && !r.citationsFetched
  {
    WorkRow(e.id, e.title, e.abstractText, e.year, e.doi, Some(e.citedByCount), e.publicationDate,
            e.workType, e.language, e.isRetracted, e.isOpenAccess, e.openAccessUrl, e.relatedWorkIds,
            false, e.sourceId, e.sourceDisplayName,
            if prior.Some? then prior.value.summary else None,
            prior.Some? && prior.value.citationsFetched)
  }

  /** The placeholder row of a referenced work: titled "Unknown" and marked
      as a stub; the columns it does not name take their defaults. */
  function StubRow(id: string): WorkRow {
    WorkRow(id, "Unknown", None, None, None, None, None, None, None, false, false, None, None,
            true, None, None, None, false)
  }

  function CitationEdges(citing: string, cited: seq<string>): set<(string, string)> {
    set c | c in cited :: (citing, c)
  }

  /** The works table after the work row is written and the stubs of its
      references are inserted without overwriting. */
  function WorksAfter(works: map<string, WorkRow>, e: ExtractedWork): map<string, WorkRow> {
    var withWork := works[e.id := WorkRowOf(e, Prior(works, e.id))];
    InsertMissing(withWork, e.referencedWorks, Column(e.referencedWorks, StubRow))
  }

  /** An `ignoreDuplicates` insert of stubs fills each missing key with its
      stub and keeps every stored row. */
  lemma {:induction false} StubsFill(works: map<string, WorkRow>, refs: seq<string>)
    decreases |refs|
    ensures var r := InsertMissing(works, refs, Column(refs, StubRow));
            r.Keys == works.Keys + KeySet(refs) &&
            forall k :: k in r ==> r[k] == if k in works then works[k] else StubRow(k)
  {
    if refs != [] {
      var t' := if refs[0] in works then works else works[refs[0] := StubRow(refs[0])];
      assert Column(refs, StubRow)[1..] == Column(refs[1..], StubRow);
      StubsFill(t', refs[1..]);
    }
  }

  /** After a work is ingested, its row holds the extracted columns and is
      no stub (even when it was one), every referenced work has a row, a
      referenced work that was stored keeps its row, a new one is a stub,
      and no other row changes. */
  lemma WorksAfterFacts(works: map<string, WorkRow>, e: ExtractedWork)
    ensures var r := WorksAfter(works, e);
            && r.Keys == works.Keys + {e.id} + KeySet(e.referencedWorks)
            && r[e.id] == WorkRowOf(e, Prior(works, e.id))
            && !r[e.id].isStub
            && (forall k :: k in works && k != e.id ==> r[k] == works[k])
            && (forall k :: k in r && k !in works && k != e.id ==> r[k] == StubRow(k))
  {
    StubsFill(works[e.id := WorkRowOf(e, Prior(works, e.id))], e.referencedWorks);
  }

  // ---------------------------------------------------------------------
  // Topics, level by level
  // ---------------------------------------------------------------------

  /** The rows of `s` at level `l`, in order. */
  function AtLevel(s: seq<TopicRow>, l: int): (r: seq<TopicRow>)
    decreases |s|
    ensures forall t :: t in r <==> t in s && t.level == l
  {
    if s == [] then []
    else
      var n := |s| - 1;
      assert forall t :: t in s <==> t in s[..n] || t == s[n] by { assert s == s[..n] + [s[n]]; }
      AtLevel(s[..n], l) + (if s[n].level == l then [s[n]] else [])
  }

  /** The topics table after the batches of levels 0 to `n - 1`, each
      de-duplicated by id and written parents first. */
  function TopicsAfter(table: map<string, TopicRow>, sorted: seq<TopicRow>, n: nat): map<string, TopicRow> {
    if n == 0 then table
    else
      TopicsStep(TopicsAfter(table, sorted, n - 1), AtLevel(sorted, n - 1))
  }

  /** One level's write: nothing for an empty batch, else the batch
      de-duplicated by id. */
  function TopicsStep(t: map<string, TopicRow>, batch: seq<TopicRow>): map<string, TopicRow> {
    if batch == [] then t else UpsertRows(t, Dedupe(batch, TopicId), TopicId, SameTopic)
  }

  function IdsBelow(sorted: seq<TopicRow>, n: nat): set<string> {
    set t | t in sorted && t.level < n :: t.id
  }

  /** One level's batch: its ids are added, and a row it writes is one of
      its rows under that row's id. */
  lemma TopicBatchFacts(t: map<string, TopicRow>, batch: seq<TopicRow>)
    ensures var r := TopicsStep(t, batch);
            && r.Keys == t.Keys + KeysOf(batch, TopicId)
            && (forall k :: k in t && k !in KeysOf(batch, TopicId) ==> r[k] == t[k])
            && forall k :: k in r ==> (k in t && r[k] == t[k]) || (r[k] in batch && r[k].id == k)
  {
    if batch != [] {
      UpsertDeduped(t, batch, TopicId, SameTopic);
      var r := UpsertRows(t, Dedupe(batch, TopicId), TopicId, SameTopic);
      forall k | k in r && k in KeysOf(batch, TopicId)
        ensures r[k] in batch && r[k].id == k
      {
        assert batch[FindIndex(batch, TopicId, k)] in batch;
      }
    }
  }

  lemma AtLevelRow(sorted: seq<TopicRow>, l: int, x: TopicRow)
    requires x in AtLevel(sorted, l)
    ensures x in sorted && x.level == l
  {
  }

  lemma IdsBelowStep(sorted: seq<TopicRow>, n: nat)
    requires n > 0
    ensures IdsBelow(sorted, n) == IdsBelow(sorted, n - 1) + KeysOf(AtLevel(sorted, n - 1), TopicId)
  {
  }

  /** `r` holds the rows of `table` and of the batches of the levels below
      `n`: their ids are added, a row whose id no batch names is kept, and
      every row was stored before or is a row of its level's batch. */
  predicate WrittenBelow(table: map<string, TopicRow>, r: map<string, TopicRow>, sorted: seq<TopicRow>, n: nat) {
    KeysBelow(table, r, sorted, n) && KeptBelow(table, r, sorted, n) && FromBelow(table, r, sorted, n)
  }

  predicate KeysBelow(table: map<string, TopicRow>, r: map<string, TopicRow>, sorted: seq<TopicRow>, n: nat) {
    r.Keys == table.Keys + IdsBelow(sorted, n)
  }

  predicate KeptBelow(table: map<string, TopicRow>, r: map<string, TopicRow>, sorted: seq<TopicRow>, n: nat)
    requires KeysBelow(table, r, sorted, n)
  {
    forall k :: k in table && k !in IdsBelow(sorted, n) ==> r[k] == table[k]
  }

  predicate FromBelow(table: map<string, TopicRow>, r: map<string, TopicRow>, sorted: seq<TopicRow>, n: nat) {
    forall k :: k in r ==>
      (k in table && r[k] == table[k]) || (r[k] in sorted && r[k].id == k && r[k].level < n)
  }

  lemma KeysBelowStep(table: map<string, TopicRow>, t: map<string, TopicRow>, sorted: seq<TopicRow>, n: nat)
    requires n > 0 && KeysBelow(table, t, sorted, n - 1)
    ensures KeysBelow(table, TopicsStep(t, AtLevel(sorted, n - 1)), sorted, n)
  {
    IdsBelowStep(sorted, n);
    TopicBatchFacts(t, AtLevel(sorted, n - 1));
  }

  lemma KeptBelowStep(table: map<string, TopicRow>, t: map<string, TopicRow>, sorted: seq<TopicRow>, n: nat)
    requires n > 0 && KeysBelow(table, t, sorted, n - 1) && KeptBelow(table, t, sorted, n - 1)
    requires KeysBelow(table, TopicsStep(t, AtLevel(sorted, n - 1)), sorted, n)
    ensures KeptBelow(table, TopicsStep(t, AtLevel(sorted, n - 1)), sorted, n)
  {
    IdsBelowStep(sorted, n);
    var batch := AtLevel(sorted, n - 1);
    TopicBatchFacts(t, batch);
    var r := TopicsStep(t, batch);
    forall k | k in table && k !in IdsBelow(sorted, n)
      ensures r[k] == table[k]
    {
      assert k !in IdsBelow(sorted, n - 1) && k !in KeysOf(batch, TopicId);
    }
  }

  lemma FromBelowStep(table: map<string, TopicRow>, t: map<string, TopicRow>, sorted: seq<TopicRow>, n: nat)
    requires n > 0 && FromBelow(table, t, sorted, n - 1)
    ensures FromBelow(table, TopicsStep(t, AtLevel(sorted, n - 1)), sorted, n)
  {
    var batch := AtLevel(sorted, n - 1);
    TopicBatchFacts(t, batch);
    var r := TopicsStep(t, batch);
    forall k | k in r
      ensures (k in table && r[k] == table[k]) || (r[k] in sorted && r[k].id == k && r[k].level < n)
    {
      if !(k in t && r[k] == t[k]) {
        AtLevelRow(sorted, n - 1, r[k]);
      }
    }
  }

  /** The level batches store a row for every topic below level `n` and
      for nothing else: a stored row was either there before or is a row
      of the batch of its level, so rows at level `n` or deeper are never
      written; rows whose id no batch names are kept. */
  lemma {:induction false} TopicsAfterFacts(table: map<string, TopicRow>, sorted: seq<TopicRow>, n: nat)
    ensures WrittenBelow(table, TopicsAfter(table, sorted, n), sorted, n)
  {
    if n > 0 {
      TopicsAfterFacts(table, sorted, n - 1);
      var t := TopicsAfter(table, sorted, n - 1);
      KeysBelowStep(table, t, sorted, n);
      KeptBelowStep(table, t, sorted, n);
      FromBelowStep(table, t, sorted, n);
    }
  }

  lemma {:induction false} TopicsAfterNothing(table: map<string, TopicRow>, n: nat)
    ensures TopicsAfter(table, [], n) == table
  {
    if n > 0 {
      TopicsAfterNothing(table, n - 1);
    }
  }

  /** The `byLevel` map: for each level that occurs, its rows in order. */
  method GroupByLevel(sorted: seq<TopicRow>) returns (byLevel: map<nat, seq<TopicRow>>)
    ensures forall l: nat :: l in byLevel ==> byLevel[l] == AtLevel(sorted, l) && byLevel[l] != []
    ensures forall l: nat :: l !in byLevel ==> AtLevel(sorted, l) == []
  {
    byLevel := map[];
    for i := 0 to |sorted|
      invariant forall l: nat :: l in byLevel ==> byLevel[l] == AtLevel(sorted[..i], l) && byLevel[l] != []
      invariant forall l: nat :: l !in byLevel ==> AtLevel(sorted[..i], l) == []
    {
      assert sorted[..i + 1][..i] == sorted[..i];
      var t := sorted[i];
      var rows := if t.level in byLevel then byLevel[t.level] else [];
      byLevel := byLevel[t.level := rows + [t]];
    }
    assert sorted[..|sorted|] == sorted;
  }

  /** Writes the topics parents first: sorted by level, grouped, and one
      de-duplicated batch for each of the levels 0 to 3. */
  method WriteTopics(db: Database, allTopics: seq<TopicRow>)
    modifies db
    ensures db.tables == old(db.tables).(topics := TopicsAfter(old(db.tables.topics), SortBy(allTopics, LevelOf), 4))
  {
    if |allTopics| == 0 {
      TopicsAfterNothing(db.tables.topics, 4);
      return;
    }
    var sorted := SortBy(allTopics, LevelOf);
    var byLevel := GroupByLevel(sorted);
    var level: nat := 0;
    while level < 4
      invariant level <= 4
      invariant db.tables == old(db.tables).(topics := TopicsAfter(old(db.tables.topics), sorted, level))
    {
      var batch := if level in byLevel then byLevel[level] else [];
      if |batch| > 0 {
        var unique := DedupeById(batch, TopicId);
        db.tables := db.tables.(topics := UpsertRows(db.tables.topics, unique, TopicId, SameTopic));
      }
      level := level + 1;
    }
  }

  // ---------------------------------------------------------------------
  // Junction rows
  // ---------------------------------------------------------------------

  function AuthorLinkKey(workId: string): AuthorEntry -> (string, string) {
    (a: AuthorEntry) => (workId, a.id)
  }

  function AuthorLinkRow(a: AuthorEntry): WorkAuthorRow {
    WorkAuthorRow(a.position, a.isCorresponding)
  }

  function TopicLinkKey(workId: string): TopicLink -> (string, string) {
    (l: TopicLink) => (workId, l.topicId)
  }

  function TopicLinkRow(l: TopicLink): WorkTopicRow {
    WorkTopicRow(l.score, l.isPrimary)
  }

  function FunderLinkKey(workId: string): FunderLink -> (string, string) {
    (l: FunderLink) => (workId, l.funderId)
  }

  function FunderAward(l: FunderLink): Option<string> {
    l.awardId
  }

  function PairOf(l: AuthorInstitution): (string, string) {
    (l.authorId, l.institutionId)
  }

  /** The author-institution pairs after the links are written: the
      `filter`/`findIndex` pass keeps the first link of each pair. */
  function PairsAfter(table: set<(string, string)>, links: seq<AuthorInstitution>): set<(string, string)> {
    UpsertPairs(table, Column(FilterFirst(links, PairOf, |links|), PairOf))
  }

  /** The pair batch is never refused: every pair of the links is stored. */
  lemma PairsAfterFacts(table: set<(string, string)>, links: seq<AuthorInstitution>)
    ensures PairsAfter(table, links) == table + KeysOf(links, PairOf)
  {
    var unique := FilterFirst(links, PairOf, |links|);
    FilterFirstIsDedupe(links, PairOf, |links|);
    assert links[..|links|] == links;
    DedupeFacts(links, PairOf);
    ColumnKeys(unique, PairOf);
    assert DistinctKeys(Column(unique, PairOf));
  }

  /** The topic links of a work name distinct topics, so their batch is
      accepted and links every topic with its score. */
  lemma TopicLinksStored(table: map<(string, string), WorkTopicRow>, workId: string, links: seq<TopicLink>)
    requires DistinctLinks(links)
    ensures var r := UpsertRows(table, links, TopicLinkKey(workId), TopicLinkRow);
            forall l :: l in links ==> (workId, l.topicId) in r && r[(workId, l.topicId)] == TopicLinkRow(l)
  {
    assert DistinctBy(links, TopicLinkKey(workId));
    DedupeOfDistinct(links, TopicLinkKey(workId));
    UpsertDeduped(table, links, TopicLinkKey(workId), TopicLinkRow);
    forall l | l in links
      ensures (workId, l.topicId) in KeysOf(links, TopicLinkKey(workId))
    {
    }
  }

  // ---------------------------------------------------------------------
  // Duplicate junction keys
  // ---------------------------------------------------------------------

  /** As written, the author links are upserted without de-duplication:
      an author listed twice on a work makes the batch refused, and the
      work keeps none of its author links. */
  lemma AuthorLinksAsWrittenLost(table: map<(string, string), WorkAuthorRow>, workId: string,
                                 authors: seq<AuthorEntry>, i: nat, j: nat)
    requires i < j < |authors| && authors[i].id == authors[j].id
    ensures UpsertRows(table, authors, AuthorLinkKey(workId), AuthorLinkRow) == table
  {
    UpsertRowsRefused(table, authors, AuthorLinkKey(workId), AuthorLinkRow, i, j);
  }

  /** Two authorships of one author give two extracted authors with the
      same id. */
  lemma RepeatedAuthorshipRepeatsAuthor(w: OaWork, authors: seq<AuthorEntry>)
    requires forall a :: a in authors ==> AuthorFrom(Authorships(w), a)
    requires PositionsIncrease(authors)
    requires forall i :: 0 <= i < |Authorships(w)| && HasAuthorId(Authorships(w)[i]) ==> i in Positions(authors)
    requires |Authorships(w)| >= 2 && HasAuthorId(Authorships(w)[0]) && HasAuthorId(Authorships(w)[1])
    requires Authorships(w)[0].author.value.id == Authorships(w)[1].author.value.id
    ensures exists i, j :: 0 <= i < j < |authors| && authors[i].id == authors[j].id
  {
    var ships := Authorships(w);
    assert 0 in Positions(authors) && 1 in Positions(authors);
    var a0 :| a0 in authors && a0.position == 0;
    var a1 :| a1 in authors && a1.position == 1;
    var i :| 0 <= i < |authors| && authors[i] == a0;
    var j :| 0 <= j < |authors| && authors[j] == a1;
    assert i < j;
    assert a0 == AuthorOf(ships, 0) && a1 == AuthorOf(ships, 1);
  }

  /** With the author links de-duplicated by author, every author of the
      work is linked, at the earliest position it is listed at. */
  lemma AuthorLinksStored(table: map<(string, string), WorkAuthorRow>, workId: string, authors: seq<AuthorEntry>)
    requires PositionsIncrease(authors)
    ensures var key := AuthorLinkKey(workId);
            var r := UpsertRows(table, Dedupe(authors, key), key, AuthorLinkRow);
            forall a :: a in authors ==>
              (workId, a.id) in r && r[(workId, a.id)].position <= a.position
  {
    var key := AuthorLinkKey(workId);
    UpsertDeduped(table, authors, key, AuthorLinkRow);
    var r := UpsertRows(table, Dedupe(authors, key), key, AuthorLinkRow);
    forall a | a in authors
      ensures (workId, a.id) in r && r[(workId, a.id)].position <= a.position
    {
      var k := key(a);
      assert k in KeysOf(authors, key);
      var i :| 0 <= i < |authors| && authors[i] == a;
      FindIndexFacts(authors, key, k);
      var f := FindIndex(authors, key, k);
      assert f <= i;
      if f < i {
        assert authors[f].position < authors[i].position;
      }
    }
  }

  /** As written, the funder links are upserted without de-duplication:
      two grants from one funder make the batch refused, and the work keeps
      none of its funder links. */
  lemma FunderLinksAsWrittenLost(table: map<(string, string), Option<string>>, workId: string,
                                 f: OaFunder, award1: Option<string>, award2: Option<string>)
    requires HasText(f.id)
    ensures var links := FunderLinks([OaGrant(Some(f), award1), OaGrant(Some(f), award2)]);
            UpsertRows(table, links, FunderLinkKey(workId), FunderAward) == table
  {
    var links := FunderLinks([OaGrant(Some(f), award1), OaGrant(Some(f), award2)]);
    RepeatedFunderGivesRepeatedLinks(f, award1, award2);
    UpsertRowsRefused(table, links, FunderLinkKey(workId), FunderAward, 0, 1);
  }

  /** With the funder links de-duplicated by funder, every funder of the
      work is linked, with the award of its first grant. */
  lemma FunderLinksStored(table: map<(string, string), Option<string>>, workId: string, links: seq<FunderLink>)
    ensures var key := FunderLinkKey(workId);
            var r := UpsertRows(table, Dedupe(links, key), key, FunderAward);
            forall l :: l in links ==>
              (workId, l.funderId) in r &&
              FindIndex(links, key, (workId, l.funderId)) >= 0 &&
              r[(workId, l.funderId)] == links[FindIndex(links, key, (workId, l.funderId))].awardId
  {
    var key := FunderLinkKey(workId);
    UpsertDeduped(table, links, key, FunderAward);
    forall l | l in links
      ensures (workId, l.funderId) in KeysOf(links, key)
    {
      assert key(l) == (workId, l.funderId);
    }
  }

  // ---------------------------------------------------------------------
  // Ingesting works
  // ---------------------------------------------------------------------

  /** The source row, written when the work has one. */
  method WriteSource(db: Database, source: Option<SourceRow>)
    modifies db
    ensures db.tables == old(db.tables).(sources :=
              if source.Some? then old(db.tables.sources)[source.value.id := source.value] else old(db.tables.sources))
  {
    if source.Some? {
      db.tables := db.tables.(sources := db.tables.sources[source.value.id := source.value]);
    }
  }

  /** The institutions, de-duplicated by id. */
  method WriteInstitutions(db: Database, institutions: seq<InstitutionRow>)
    modifies db
    ensures db.tables == old(db.tables).(institutions :=
              if institutions == [] then old(db.tables.institutions)
              else UpsertRows(old(db.tables.institutions), Dedupe(institutions, InstitutionId), InstitutionId, SameInstitution))
  {
    if |institutions| > 0 {
      var unique := DedupeById(institutions, InstitutionId);
      db.tables := db.tables.(institutions := UpsertRows(db.tables.institutions, unique, InstitutionId, SameInstitution));
    }
  }

  /** The funders, as extracted (their ids are already distinct). */
  method WriteFunders(db: Database, funders: seq<FunderRow>)
    modifies db
    ensures db.tables == old(db.tables).(funders :=
              if funders == [] then old(db.tables.funders)
              else UpsertRows(old(db.tables.funders), funders, FunderId, SameFunder))
  {
    if |funders| > 0 {
      db.tables := db.tables.(funders := UpsertRows(db.tables.funders, funders, FunderId, SameFunder));
    }
  }

  /** The authors' rows, de-duplicated by id. */
  method WriteAuthors(db: Database, authors: seq<AuthorEntry>)
    modifies db
    ensures db.tables == old(db.tables).(authors :=
              if authors == [] then old(db.tables.authors)
              else UpsertRows(old(db.tables.authors), Dedupe(Column(authors, AuthorRowOf), AuthorRowId), AuthorRowId, SameAuthor))
  {
    if |authors| > 0 {
      var unique := DedupeById(Column(authors, AuthorRowOf), AuthorRowId);
      db.tables := db.tables.(authors := UpsertRows(db.tables.authors, unique, AuthorRowId, SameAuthor));
    }
  }

  /** The work row: a single-row upsert, which is never refused. */
  method WriteWorkRow(db: Database, work: ExtractedWork)
    modifies db
    ensures db.tables == old(db.tables).(works :=
              old(db.tables.works)[work.id := WorkRowOf(work, Prior(old(db.tables.works), work.id))])
  {
    var works := db.tables.works;
    db.tables := db.tables.(works := works[work.id := WorkRowOf(work, Prior(works, work.id))]);
  }

  /** The work's author links, de-duplicated by author. */
  method WriteAuthorLinks(db: Database, workId: string, authors: seq<AuthorEntry>)
    modifies db
    ensures db.tables == old(db.tables).(workAuthors :=
              if authors == [] then old(db.tables.workAuthors)
              else UpsertRows(old(db.tables.workAuthors), Dedupe(authors, AuthorLinkKey(workId)), AuthorLinkKey(workId), AuthorLinkRow))
  {
    if |authors| > 0 {
      var unique := DedupeById(authors, AuthorLinkKey(workId));
      db.tables := db.tables.(workAuthors := UpsertRows(db.tables.workAuthors, unique, AuthorLinkKey(workId), AuthorLinkRow));
    }
  }

  /** The work's topic links. */
  method WriteTopicLinks(db: Database, workId: string, links: seq<TopicLink>)
    modifies db
    ensures db.tables == old(db.tables).(workTopics :=
              if links == [] then old(db.tables.workTopics)
              else UpsertRows(old(db.tables.workTopics), links, TopicLinkKey(workId), TopicLinkRow))
  {
    if |links| > 0 {
      db.tables := db.tables.(workTopics := UpsertRows(db.tables.workTopics, links, TopicLinkKey(workId), TopicLinkRow));
    }
  }

  /** The work's funder links, de-duplicated by funder. */
  method WriteFunderLinks(db: Database, workId: string, links: seq<FunderLink>)
    modifies db
    ensures db.tables == old(db.tables).(workFunders :=
              UpsertRows(old(db.tables.workFunders), Dedupe(links, FunderLinkKey(workId)), FunderLinkKey(workId), FunderAward))
  {
    if |links| > 0 {
      var unique := DedupeById(links, FunderLinkKey(workId));
      db.tables := db.tables.(workFunders := UpsertRows(db.tables.workFunders, unique, FunderLinkKey(workId), FunderAward));
    } else {
      assert Column(Dedupe(links, FunderLinkKey(workId)), FunderLinkKey(workId)) == [];
    }
  }

  /** The author-institution pairs. */
  method WritePairs(db: Database, links: seq<AuthorInstitution>)
    modifies db
    ensures db.tables == old(db.tables).(authorInstitutions :=
              if links == [] then old(db.tables.authorInstitutions)
              else PairsAfter(old(db.tables.authorInstitutions), links))
  {
    if |links| > 0 {
      db.tables := db.tables.(authorInstitutions := PairsAfter(db.tables.authorInstitutions, links));
    }
  }

  /** Stubs for the referenced works, inserted without overwriting, and the
      citation edges, inserted once each. */
  method WriteReferences(db: Database, work: ExtractedWork)
    modifies db
    ensures db.tables == old(db.tables).(
              works := InsertMissing(old(db.tables.works), work.referencedWorks, Column(work.referencedWorks, StubRow)),
              citations := old(db.tables.citations) + CitationEdges(work.id, work.referencedWorks))
  {
    var refs := work.referencedWorks;
    if |refs| > 0 {
      db.tables := db.tables.(works := InsertMissing(db.tables.works, refs, Column(refs, StubRow)));
      db.tables := db.tables.(citations := db.tables.citations + CitationEdges(work.id, refs));
    } else {
      assert CitationEdges(work.id, refs) == {};
    }
  }

  /** Every table after one work is ingested: each extracted collection
      goes to its table through its writer (an empty collection writes
      nothing), the author and funder links de-duplicated per work, the
      work row written and its references added as stubs and edges; the
      saved works are not touched. */
  ghost function TablesAfterIngest(t: Tables, w: OaWork): Tables {
    var work := ExtractWork(w);
    var ships := Authorships(w);
    var authors := AuthorRows(ships, |ships|);
    var institutions := InstitutionRows(ships, |ships|);
    var pairs := InstitutionLinks(ships, |ships|);
    var ts := w.topics.GetOr([]);
    var topics := TopicWalk(ts, |ts|);
    var funders := FunderRows(Grants(w), |Grants(w)|);
    var funderLinks := FunderLinks(Grants(w));
    var source := ExtractSource(w);
    t.(
      sources := if source.Some? then t.sources[source.value.id := source.value] else t.sources,
      institutions := if institutions == [] then t.institutions
                      else UpsertRows(t.institutions, Dedupe(institutions, InstitutionId), InstitutionId, SameInstitution),
      funders := if funders == [] then t.funders else UpsertRows(t.funders, funders, FunderId, SameFunder),
      topics := TopicsAfter(t.topics, SortBy(topics.rows, LevelOf), 4),
      authors := if authors == [] then t.authors
                 else UpsertRows(t.authors, Dedupe(Column(authors, AuthorRowOf), AuthorRowId), AuthorRowId, SameAuthor),
      works := WorksAfter(t.works, work),
      workAuthors := if authors == [] then t.workAuthors
                     else UpsertRows(t.workAuthors, Dedupe(authors, AuthorLinkKey(work.id)), AuthorLinkKey(work.id), AuthorLinkRow),
      workTopics := if topics.links == [] then t.workTopics
                    else UpsertRows(t.workTopics, topics.links, TopicLinkKey(work.id), TopicLinkRow),
      workFunders := UpsertRows(t.workFunders, Dedupe(funderLinks, FunderLinkKey(work.id)), FunderLinkKey(work.id), FunderAward),
      authorInstitutions := if pairs == [] then t.authorInstitutions else PairsAfter(t.authorInstitutions, pairs),
      citations := t.citations + CitationEdges(work.id, work.referencedWorks))
  }

  /** Every table after the works `ws` are ingested one after the other. */
  ghost function TablesAfterAll(t: Tables, ws: seq<OaWork>): Tables {
    if ws == [] then t else TablesAfterIngest(TablesAfterAll(t, ws[..|ws| - 1]), ws[|ws| - 1])
  }

  /** One more work ingests on top of the tables the works before it left. */
  lemma TablesAfterAllStep(t: Tables, ws: seq<OaWork>, i: nat)
    requires i < |ws|
    ensures TablesAfterAll(t, ws[..i + 1]) == TablesAfterIngest(TablesAfterAll(t, ws[..i]), ws[i])
  {
    assert ws[..i + 1][..i] == ws[..i];
  }

  /** Ingesting any number of works leaves the saved works alone and
      removes no work row. */
  lemma {:induction false} TablesAfterAllKeeps(t: Tables, ws: seq<OaWork>)
    ensures TablesAfterAll(t, ws).saved == t.saved
    ensures t.works.Keys <= TablesAfterAll(t, ws).works.Keys
  {
    if ws != [] {
      var prev := TablesAfterAll(t, ws[..|ws| - 1]);
      TablesAfterAllKeeps(t, ws[..|ws| - 1]);
      IngestedAfter(prev.works, ExtractWork(ws[|ws| - 1]));
    }
  }

  /** `ingestWork`, with the author and funder links de-duplicated. The
      store's answers are not checked, as in the source. */
  method IngestWork(db: Database, w: OaWork) returns (work: ExtractedWork)
    modifies db
    ensures work == ExtractWork(w)
    ensures db.tables == TablesAfterIngest(old(db.tables), w)
    ensures db.tables.works == WorksAfter(old(db.tables.works), work)
    ensures db.tables.citations == old(db.tables.citations) + CitationEdges(work.id, work.referencedWorks)
    ensures db.tables.workFunders ==
              UpsertRows(old(db.tables.workFunders), Dedupe(FunderLinks(Grants(w)), FunderLinkKey(work.id)),
                         FunderLinkKey(work.id), FunderAward)
    ensures db.tables.saved == old(db.tables.saved)
  {
    work := ExtractWork(w);
    var authors, institutions, authorInstitutionLinks := ExtractAuthors(w);
    var allTopics, workTopicLinks := ExtractTopics(w);
    var source := ExtractSource(w);
    var funders, workFunderLinks := ExtractFunders(w);

    WriteSource(db, source);
    WriteInstitutions(db, institutions);
    WriteFunders(db, funders);
    WriteTopics(db, allTopics);
    WriteAuthors(db, authors);
    ghost var t0 := db.tables;
    WriteWorkRow(db, work);
    WriteAuthorLinks(db, work.id, authors);
    WriteTopicLinks(db, work.id, workTopicLinks);
    ghost var t1 := db.tables;
    WriteFunderLinks(db, work.id, workFunderLinks);
    WritePairs(db, authorInstitutionLinks);
    WriteReferences(db, work);
    assert t0.works == old(db.tables.works);
    assert t1.workFunders == old(db.tables.workFunders);
  }

  /** The work and every work it references have a row. */
  predicate Ingested(works: map<string, WorkRow>, e: ExtractedWork) {
    e.id in works && forall c :: c in e.referencedWorks ==> c in works
  }

  /** Ingesting a work removes no row and leaves the work and its
      references with rows. */
  lemma IngestedAfter(works: map<string, WorkRow>, e: ExtractedWork)
    ensures works.Keys <= WorksAfter(works, e).Keys
    ensures Ingested(WorksAfter(works, e), e)
  {
    var withWork := works[e.id := WorkRowOf(e, Prior(works, e.id))];
    assert KeySet(e.referencedWorks) <= WorksAfter(works, e).Keys;
  }

  lemma IngestedKept(works: map<string, WorkRow>, more: map<string, WorkRow>, e: ExtractedWork)
    requires Ingested(works, e) && works.Keys <= more.Keys
    ensures Ingested(more, e)
  {
  }

  /** Every work of `results` has its rows. */
  predicate AllIngested(works: map<string, WorkRow>, results: seq<ExtractedWork>) {
    forall j :: 0 <= j < |results| ==> Ingested(works, results[j])
  }

  /** Ingesting one more work keeps the rows of the works before it. */
  lemma IngestStep(before: map<string, WorkRow>, results: seq<ExtractedWork>, work: ExtractedWork)
    requires AllIngested(before, results)
    ensures before.Keys <= WorksAfter(before, work).Keys
    ensures AllIngested(WorksAfter(before, work), results + [work])
  {
    var after := WorksAfter(before, work);
    IngestedAfter(before, work);
    forall j | 0 <= j < |results|
      ensures Ingested(after, results[j])
    {
      IngestedKept(before, after, results[j]);
    }
  }

  /** `ingestWorks`: the works one after the other, returning what each
      ingestion returned. Every ingested work and every work it references
      ends with a row, and no row is removed. */
  method IngestWorks(db: Database, ws: seq<OaWork>) returns (results: seq<ExtractedWork>)
    modifies db
    ensures |results| == |ws|
    ensures forall i :: 0 <= i < |ws| ==> results[i] == ExtractWork(ws[i])
    ensures old(db.tables.works).Keys <= db.tables.works.Keys
    ensures forall i :: 0 <= i < |ws| ==> Ingested(db.tables.works, results[i])
    ensures db.tables == TablesAfterAll(old(db.tables), ws)
  {
    results := [];
    ghost var t0 := db.tables;
    ghost var start := db.tables.works.Keys;
    for i := 0 to |ws|
      invariant |results| == i
      invariant forall j :: 0 <= j < i ==> results[j] == ExtractWork(ws[j])
      invariant start <= db.tables.works.Keys
      invariant AllIngested(db.tables.works, results)
      invariant db.tables == TablesAfterAll(t0, ws[..i])
    {
      ghost var before := db.tables.works;
      ghost var tablesBefore := db.tables;
      var work := IngestWork(db, ws[i]);
      assert db.tables.works == WorksAfter(before, work);
      assert db.tables == TablesAfterIngest(tablesBefore, ws[i]);
      TablesAfterAllStep(t0, ws, i);
      IngestStep(before, results, work);
      results := results + [work];
    }
    assert ws[..|ws|] == ws;
  }
}
