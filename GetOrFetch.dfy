/** Cache-first retrieval of one work (`lib/openalex/get-or-fetch.ts`):
    a stored, complete work is returned as stored; otherwise the work is
    fetched from OpenAlex, ingested, and read back. The fetch is a
    parameter: `fetched` is what `getWork` gave for the id (`None` when
    OpenAlex has no such work). */
module GetOrFetch {
  import opened Text
  import opened Library
  import opened Extract
  import opened Store
  import opened Ingest
  import opened Queries

  /** The links of a single work, read with `.eq("work_id", id)`, are that
      work's ordered links. */
  lemma SingleWorkAuthorships(t: Tables, wid: string, rows: seq<AuthorshipRow>)
    requires ListsAuthorships(t.workAuthors, {wid}, rows) && SortedBy(rows, LinkPosition)
    ensures WorkAuthorships(t, wid, rows)
  {
    forall aid | (wid, aid) in t.workAuthors
      ensures AuthorshipOf(t.workAuthors, (wid, aid)) in rows
    {
      assert (wid, aid).0 in {wid};
    }
  }

  lemma SingleWorkTopicScores(t: Tables, wid: string, rows: seq<TopicScoreRow>)
    requires ListsTopicScores(t.workTopics, {wid}, rows) && SortedBy(rows, LinkScoreDesc)
    ensures WorkTopicScores(t, wid, rows)
  {
    forall tid | (wid, tid) in t.workTopics
      ensures TopicScoreOf(t.workTopics, (wid, tid)) in rows
    {
      assert (wid, tid).0 in {wid};
    }
  }

  /** The authors of one stored work; the author rows are read only when
      the work has links. */
  method LoadAuthors(t: Tables, id: string) returns (authors: seq<AuthorRef>)
    ensures AuthorsAsStored(t, id, authors)
  {
    var authorLinks := SelectAuthorships(t.workAuthors, {id});
    SingleWorkAuthorships(t, id, authorLinks);
    authors := [];
    if |authorLinks| > 0 {
      var authorIds := set l | l in authorLinks :: l.authorId;
      var authorMap := FoundAuthors(t, authorIds);
      assert AuthorMapFor(t, authorMap, authorLinks) by {
        assert forall l :: l in authorLinks ==> l.authorId in authorIds;
      }
      authors := AttachAuthors(authorLinks, authorMap);
      AttachedAuthors(t, id, authorLinks, authorMap);
    }
  }

  /** The topics of one stored work, by descending score. */
  method LoadTopics(t: Tables, id: string) returns (topics: seq<TopicRef>)
    ensures TopicsAsStored(t, id, topics)
  {
    var topicLinks := SelectTopicScores(t.workTopics, {id});
    SingleWorkTopicScores(t, id, topicLinks);
    topics := [];
    if |topicLinks| > 0 {
      var topicIds := set l | l in topicLinks :: l.topicId;
      var topicMap := FoundTopics(t, topicIds);
      assert TopicMapFor(t, topicMap, topicLinks) by {
        assert forall l :: l in topicLinks ==> l.topicId in topicIds;
      }
      topics := AttachTopics(topicLinks, topicMap);
      AttachedTopics(t, id, topicLinks, topicMap);
    }
  }

  /** `loadWorkFromDb`: nothing for an unknown id, otherwise the stored
      row with its authors and topics and no saved flag. */
  method LoadWorkFromDb(db: Database, id: string) returns (r: Option<WorkWithRelations>)
    ensures r.None? <==> id !in db.tables.works
    ensures r.Some? ==> r.value.work == db.tables.works[id] && RelationsOf(db.tables, None, id, r.value)
  {
    var t := db.tables;
    if id !in t.works {
      return None;
    }
    var authors := LoadAuthors(t, id);
    var topics := LoadTopics(t, id);
    r := Some(WorkWithRelations(t.works[id], authors, topics, None));
  }

  /** A stored work that is not a stub needs no fetch. */
  predicate Cached(works: map<string, WorkRow>, id: string) {
    id in works && !works[id].isStub
  }

  /** `getOrFetchWork`. `called` tells whether OpenAlex was asked. A cached
      work is returned without any write; a work OpenAlex does not know
      gives nothing and no write; otherwise the fetched work is ingested
      and the id is read back, which finds the fetched work whenever
      OpenAlex answered under the id that was asked for. */
  method GetOrFetchWork(db: Database, id: string, fetched: Option<OaWork>) returns (r: Option<WorkWithRelations>, called: bool)
    modifies db
    ensures called <==> !Cached(old(db.tables.works), id)
    ensures !called ==> db.tables == old(db.tables)
    ensures !called ==> r.Some? && r.value.work == db.tables.works[id] && RelationsOf(db.tables, None, id, r.value)
    ensures called && fetched.None? ==> r.None? && db.tables == old(db.tables)
    ensures called && fetched.Some? ==> db.tables == TablesAfterIngest(old(db.tables), fetched.value)
    ensures called && fetched.Some? ==>
              db.tables.works == WorksAfter(old(db.tables.works), ExtractWork(fetched.value))
    ensures called && fetched.Some? ==>
              (r.None? <==> id !in db.tables.works)
              && (r.Some? ==> r.value.work == db.tables.works[id] && RelationsOf(db.tables, None, id, r.value))
    ensures called && fetched.Some? && StripOAPrefix(fetched.value.id) == id ==>
              r.Some? && !r.value.work.isStub
              && r.value.work == WorkRowOf(ExtractWork(fetched.value), Prior(old(db.tables.works), id))
  {
    var cached := LoadWorkFromDb(db, id);
    if cached.Some? && !cached.value.work.isStub {
      return cached, false;
    }
    called := true;
    if fetched.None? {
      return None, called;
    }
    ghost var before := db.tables.works;
    var work := IngestWork(db, fetched.value);
    WorksAfterFacts(before, work);
    r := LoadWorkFromDb(db, id);
  }
}
