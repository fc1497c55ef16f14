/** Citation enrichment of one work (`lib/openalex/enrich-citations.ts`):
    unless the work is missing or already enriched, the ids it cites and
    the ids citing it are stored as stub works and citation edges, and
    the work is marked enriched. The two Semantic Scholar lookups are
    parameters: `citedIds` and `citingIds` are what they return. */
module Enrich {
  import opened Text
  import opened Library
  import opened Store
  import opened Ingest

  /** What `enrichCitations` returns. */
  datatype Counts = Counts(references: nat, citedBy: nat)

  /** The edges from each citing work to `cited`. */
  function CitedByEdges(cited: string, citing: seq<string>): set<(string, string)> {
    set c | c in citing :: (c, cited)
  }

  /** Stub rows for `ids`, inserted without overwriting a stored row. */
  function AddStubs(works: map<string, WorkRow>, ids: seq<string>): map<string, WorkRow> {
    InsertMissing(works, ids, Column(ids, StubRow))
  }

  /** The work exists and has not been enriched yet. */
  predicate Pending(t: Tables, workId: string) {
    workId in t.works && !t.works[workId].citationsFetched
  }

  /** The tables after enriching `workId` with the given lookups. */
  function EnrichedTables(t: Tables, workId: string, citedIds: seq<string>, citingIds: seq<string>): Tables
    requires workId in t.works
  {
    var works := AddStubs(AddStubs(t.works, citedIds), citingIds);
    t.(works := works[workId := works[workId].(citationsFetched := true)],
       citations := t.citations + CitationEdges(workId, citedIds) + CitedByEdges(workId, citingIds))
  }

  /** Enrichment adds a stub for every new id on either side and an edge
      for every lookup result, marks the work, and leaves every other
      stored row as it was; afterwards the work is no longer pending, so
      a second enrichment returns zero counts and writes nothing. */
  lemma EnrichedFacts(t: Tables, workId: string, citedIds: seq<string>, citingIds: seq<string>)
    requires Pending(t, workId)
    ensures var r := EnrichedTables(t, workId, citedIds, citingIds);
            && r.works.Keys == t.works.Keys + KeySet(citedIds) + KeySet(citingIds)
            && r.works[workId] == t.works[workId].(citationsFetched := true)
            && (forall k :: k in t.works && k != workId ==> r.works[k] == t.works[k])
            && (forall k :: k in r.works && k !in t.works ==> r.works[k] == StubRow(k))
            && (forall c :: c in citedIds ==> (workId, c) in r.citations)
            && (forall c :: c in citingIds ==> (c, workId) in r.citations)
            && t.citations <= r.citations
            && !Pending(r, workId)
  {
    StubsFill(t.works, citedIds);
    StubsFill(AddStubs(t.works, citedIds), citingIds);
  }

  /** `enrichCitations`. `called` tells whether Semantic Scholar was
      asked; it is asked exactly when the work is pending. */
  method EnrichCitations(db: Database, workId: string, citedIds: seq<string>, citingIds: seq<string>)
    returns (counts: Counts, called: bool)
    modifies db
    ensures called <==> Pending(old(db.tables), workId)
    ensures !called ==> counts == Counts(0, 0) && db.tables == old(db.tables)
    ensures called ==> counts == Counts(|citedIds|, |citingIds|)
    ensures called ==> db.tables == EnrichedTables(old(db.tables), workId, citedIds, citingIds)
  {
    var t := db.tables;
    if workId !in t.works || t.works[workId].citationsFetched {
      return Counts(0, 0), false;
    }
    called := true;
    var works := t.works;
    var citations := t.citations;
    if |citedIds| > 0 {
      works := AddStubs(works, citedIds);
      citations := citations + CitationEdges(workId, citedIds);
    }
    if |citingIds| > 0 {
      works := AddStubs(works, citingIds);
      citations := citations + CitedByEdges(workId, citingIds);
    }
    works := works[workId := works[workId].(citationsFetched := true)];
    db.tables := db.tables.(works := works, citations := citations);
    counts := Counts(|citedIds|, |citingIds|);
  }
}
