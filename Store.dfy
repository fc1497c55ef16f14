/** The library tables the OpenAlex ingestion writes and the web
    application reads, with the two kinds of batch write the ingestion uses
    (`types/database.ts`). A batch upsert with `onConflict` is PostgreSQL's
    `INSERT … ON CONFLICT … DO UPDATE`: it replaces the stored row of every
    key it names, and it is refused as a whole when two rows of the batch
    share a key (a row may not be updated twice by one command). With
    `ignoreDuplicates` it is `DO NOTHING`: stored rows are kept, and a key
    repeated in the batch is inserted once. */
module Store {
  import opened Text
  import opened Library
  import opened Extract

  /** A row of `authors`. */
  datatype AuthorRow = AuthorRow(id: string, displayName: string, orcid: Option<string>, citedByCount: int)

  /** The columns of `work_authors` besides its key (work id, author id). */
  datatype WorkAuthorRow = WorkAuthorRow(position: int, isCorresponding: bool)

  /** The columns of `work_topics` besides its key (work id, topic id). */
  datatype WorkTopicRow = WorkTopicRow(score: int, isPrimary: bool)

  /** The tables, each keyed by its primary key. `saved` holds
      (user id, work id) pairs of `saved_works`. */
  datatype Tables = Tables(
    works: map<string, WorkRow>,
    authors: map<string, AuthorRow>,
    institutions: map<string, InstitutionRow>,
    sources: map<string, SourceRow>,
    funders: map<string, FunderRow>,
    topics: map<string, TopicRow>,
    workAuthors: map<(string, string), WorkAuthorRow>,
    workTopics: map<(string, string), WorkTopicRow>,
    workFunders: map<(string, string), Option<string>>,
    authorInstitutions: set<(string, string)>,
    citations: set<(string, string)>,
    saved: set<(string, string)>)

  /** The store the ingestion writes to. */
  class Database {
    var tables: Tables

    constructor(t: Tables)
      ensures tables == t
    {
      tables := t;
    }
  }

  /** The keys of a table keyed by pairs whose first component is one of
      `firsts` (a `.in()` filter on the first column), each once, in
      whatever order the store lists them. */
  method ListKeys<V>(t: map<(string, string), V>, firsts: set<string>) returns (keys: seq<(string, string)>)
    ensures forall k :: k in keys <==> k in t && k.0 in firsts
    ensures forall i, j :: 0 <= i < j < |keys| ==> keys[i] != keys[j]
  {
    var rest := t.Keys;
    keys := [];
    while rest != {}
      decreases rest
      invariant rest <= t.Keys
      invariant forall k :: k in keys <==> k in t && k.0 in firsts && k !in rest
      invariant forall i, j :: 0 <= i < j < |keys| ==> keys[i] != keys[j]
    {
      var k :| k in rest;
      rest := rest - {k};
      if k.0 in firsts {
        keys := keys + [k];
      }
    }
  }

  predicate DistinctKeys<K(==)>(keys: seq<K>) {
    forall i, j :: 0 <= i < j < |keys| ==> keys[i] != keys[j]
  }

  function KeySet<K>(keys: seq<K>): set<K> {
    set k | k in keys
  }

  /** Writes the rows one after the other, each replacing the row with its
      key. */
  function Overwrite<K(==), V>(table: map<K, V>, keys: seq<K>, rows: seq<V>): map<K, V>
    requires |keys| == |rows|
    decreases |keys|
  {
    if keys == [] then table else Overwrite(table[keys[0] := rows[0]], keys[1..], rows[1..])
  }

  lemma {:induction false} OverwriteFacts<K, V>(table: map<K, V>, keys: seq<K>, rows: seq<V>)
    requires |keys| == |rows| && DistinctKeys(keys)
    decreases |keys|
    ensures Overwrite(table, keys, rows).Keys == table.Keys + KeySet(keys)
    ensures forall i :: 0 <= i < |keys| ==> Overwrite(table, keys, rows)[keys[i]] == rows[i]
    ensures forall k :: k in table && k !in KeySet(keys) ==> Overwrite(table, keys, rows)[k] == table[k]
  {
    if keys != [] {
      var t' := table[keys[0] := rows[0]];
      OverwriteFacts(t', keys[1..], rows[1..]);
      var r := Overwrite(table, keys, rows);
      assert KeySet(keys) == {keys[0]} + KeySet(keys[1..]);
      forall i | 0 <= i < |keys|
        ensures r[keys[i]] == rows[i]
      {
        if i == 0 {
          forall j | 0 <= j < |keys[1..]|
            ensures keys[1..][j] != keys[0]
          {
            assert keys[1..][j] == keys[j + 1];
          }
          assert keys[0] !in KeySet(keys[1..]);
        } else {
          assert keys[i] == keys[1..][i - 1];
        }
      }
    }
  }

  /** A batch upsert: refused when a key repeats; otherwise every named
      key holds its row and every other stored row is kept. */
  function Upsert<K(==), V>(table: map<K, V>, keys: seq<K>, rows: seq<V>): (r: Option<map<K, V>>)
    requires |keys| == |rows|
    ensures r.Some? <==> DistinctKeys(keys)
    ensures r.Some? ==> r.value.Keys == table.Keys + KeySet(keys)
    ensures r.Some? ==> forall i :: 0 <= i < |keys| ==> r.value[keys[i]] == rows[i]
    ensures r.Some? ==> forall k :: k in table && k !in KeySet(keys) ==> r.value[k] == table[k]
  {
    if DistinctKeys(keys) then
      OverwriteFacts(table, keys, rows);
      Some(Overwrite(table, keys, rows))
    else None
  }

  /** The table after an upsert whose outcome is not checked: a refused
      batch leaves it as it was. */
  function UpsertOrKeep<K(==), V>(table: map<K, V>, keys: seq<K>, rows: seq<V>): map<K, V>
    requires |keys| == |rows|
  {
    match Upsert(table, keys, rows)
    case Some(t) => t
    case None => table
  }

  /** A batch upsert on a table whose columns are all key columns. */
  function UpsertKeys<K(==)>(table: set<K>, keys: seq<K>): (r: Option<set<K>>)
    ensures r.Some? <==> DistinctKeys(keys)
    ensures r.Some? ==> r.value == table + KeySet(keys)
  {
    if DistinctKeys(keys) then Some(table + KeySet(keys)) else None
  }

  /** A batch insert with `ignoreDuplicates`: stored rows are kept and a
      new key gets the first row that names it. */
  function InsertMissing<K(==), V>(table: map<K, V>, keys: seq<K>, rows: seq<V>): (r: map<K, V>)
    requires |keys| == |rows|
    decreases |keys|
    ensures r.Keys == table.Keys + KeySet(keys)
    ensures forall k :: k in table ==> r[k] == table[k]
  {
    if keys == [] then table
    else
      var t' := if keys[0] in table then table else table[keys[0] := rows[0]];
      assert KeySet(keys) == {keys[0]} + KeySet(keys[1..]);
      InsertMissing(t', keys[1..], rows[1..])
  }

  /** A new key of an `ignoreDuplicates` insert gets the first row naming
      it. */
  lemma {:induction false} InsertMissingFirst<K, V>(table: map<K, V>, keys: seq<K>, rows: seq<V>, i: nat)
    requires |keys| == |rows| && i < |keys| && keys[i] !in table
    requires forall j :: 0 <= j < i ==> keys[j] != keys[i]
    decreases i
    ensures InsertMissing(table, keys, rows)[keys[i]] == rows[i]
  {
    var t' := if keys[0] in table then table else table[keys[0] := rows[0]];
    if i > 0 {
      assert keys[1..][i - 1] == keys[i];
      InsertMissingFirst(t', keys[1..], rows[1..], i - 1);
    }
  }
}
