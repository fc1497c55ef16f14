/** Reading works back with their relations (`lib/supabase/queries.ts`): one
    read per table for a whole page of works, the junction rows ordered by
    the store, grouped by work in memory, and the author and topic rows
    attached where they exist. The per-work view it produces is specified
    here once, by `AuthorsAsStored` and `TopicsAsStored`, and the single
    work loader of `GetOrFetch` meets the same specification. */
module Queries {
  import opened Text
  import opened Library
  import opened Extract
  import opened Store

  // ---------------------------------------------------------------------
  // Junction rows as the store returns them
  // ---------------------------------------------------------------------

  /** A `work_authors` row with its key columns. */
  datatype AuthorshipRow = AuthorshipRow(workId: string, authorId: string, position: int, isCorresponding: bool)

  /** A `work_topics` row with its key columns. */
  datatype TopicScoreRow = TopicScoreRow(workId: string, topicId: string, score: int, isPrimary: bool)

  function AuthorshipOf(t: map<(string, string), WorkAuthorRow>, k: (string, string)): (r: AuthorshipRow)
    requires k in t
    ensures (r.workId, r.authorId) == k
  {
    AuthorshipRow(k.0, k.1, t[k].position, t[k].isCorresponding)
  }

  function TopicScoreOf(t: map<(string, string), WorkTopicRow>, k: (string, string)): (r: TopicScoreRow)
    requires k in t
    ensures (r.workId, r.topicId) == k
  {
    TopicScoreRow(k.0, k.1, t[k].score, t[k].isPrimary)
  }

  function AuthorshipWork(l: AuthorshipRow): string { l.workId }
  function TopicScoreWork(l: TopicScoreRow): string { l.workId }
  function LinkPosition(l: AuthorshipRow): int { l.position }
  /** `order("score", { ascending: false })` as an ascending key. */
  function LinkScoreDesc(l: TopicScoreRow): int { -l.score }

  /** The rows of `work_authors` for the given keys. */
  method ReadAuthorships(t: map<(string, string), WorkAuthorRow>, keys: seq<(string, string)>) returns (rows: seq<AuthorshipRow>)
    requires forall k :: k in keys ==> k in t
    ensures |rows| == |keys|
    ensures forall i :: 0 <= i < |keys| ==> rows[i] == AuthorshipOf(t, keys[i])
  {
    rows := seq(|keys|, i requires 0 <= i < |keys| => AuthorshipOf(t, keys[i]));
  }

  /** The rows of `work_topics` for the given keys. */
  method ReadTopicScores(t: map<(string, string), WorkTopicRow>, keys: seq<(string, string)>) returns (rows: seq<TopicScoreRow>)
    requires forall k :: k in keys ==> k in t
    ensures |rows| == |keys|
    ensures forall i :: 0 <= i < |keys| ==> rows[i] == TopicScoreOf(t, keys[i])
  {
    rows := seq(|keys|, i requires 0 <= i < |keys| => TopicScoreOf(t, keys[i]));
  }

  /** `rows` holds exactly the `work_authors` rows of the works `ids`. */
  ghost predicate ListsAuthorships(t: map<(string, string), WorkAuthorRow>, ids: set<string>, rows: seq<AuthorshipRow>) {
    && (forall l :: l in rows ==> l.workId in ids && (l.workId, l.authorId) in t && l == AuthorshipOf(t, (l.workId, l.authorId)))
    && (forall k :: k in t && k.0 in ids ==> AuthorshipOf(t, k) in rows)
  }

  /** `rows` holds exactly the `work_topics` rows of the works `ids`. */
  ghost predicate ListsTopicScores(t: map<(string, string), WorkTopicRow>, ids: set<string>, rows: seq<TopicScoreRow>) {
    && (forall l :: l in rows ==> l.workId in ids && (l.workId, l.topicId) in t && l == TopicScoreOf(t, (l.workId, l.topicId)))
    && (forall k :: k in t && k.0 in ids ==> TopicScoreOf(t, k) in rows)
  }

  /** `select("*").in("work_id", ids).order("position")` on `work_authors`:
      the store's listing, stably ordered by position. */
  method SelectAuthorships(t: map<(string, string), WorkAuthorRow>, ids: set<string>) returns (rows: seq<AuthorshipRow>)
    ensures ListsAuthorships(t, ids, rows)
    ensures SortedBy(rows, LinkPosition)
  {
    var keys := ListKeys(t, ids);
    var listed := ReadAuthorships(t, keys);
    rows := SortBy(listed, LinkPosition);
    SortByFacts(listed, LinkPosition);
    assert forall l :: l in rows <==> l in listed by {
      assert forall l :: l in rows <==> l in multiset(rows);
      assert forall l :: l in listed <==> l in multiset(listed);
    }
    forall k | k in t && k.0 in ids
      ensures AuthorshipOf(t, k) in listed
    {
      var i :| 0 <= i < |keys| && keys[i] == k;
      assert listed[i] == AuthorshipOf(t, k);
    }
  }

  /** `select("*").in("work_id", ids).order("score", { ascending: false })`
      on `work_topics`. */
  method SelectTopicScores(t: map<(string, string), WorkTopicRow>, ids: set<string>) returns (rows: seq<TopicScoreRow>)
    ensures ListsTopicScores(t, ids, rows)
    ensures SortedBy(rows, LinkScoreDesc)
  {
    var keys := ListKeys(t, ids);
    var listed := ReadTopicScores(t, keys);
    rows := SortBy(listed, LinkScoreDesc);
    SortByFacts(listed, LinkScoreDesc);
    assert forall l :: l in rows <==> l in listed by {
      assert forall l :: l in rows <==> l in multiset(rows);
      assert forall l :: l in listed <==> l in multiset(listed);
    }
    forall k | k in t && k.0 in ids
      ensures TopicScoreOf(t, k) in listed
    {
      var i :| 0 <= i < |keys| && keys[i] == k;
      assert listed[i] == TopicScoreOf(t, k);
    }
  }

  // ---------------------------------------------------------------------
  // The view of one work
  // ---------------------------------------------------------------------

  /** The author entry a stored authorship yields. */
  function StoredAuthorRef(t: Tables, wid: string, aid: string): (r: AuthorRef)
    requires (wid, aid) in t.workAuthors && aid in t.authors
    ensures r.id == aid
  {
    AuthorRef(aid, t.authors[aid].displayName, t.authors[aid].orcid,
      Some(t.workAuthors[(wid, aid)].position), Some(t.workAuthors[(wid, aid)].isCorresponding))
  }

  /** The topic entry a stored topic link yields. */
  function StoredTopicRef(t: Tables, wid: string, tid: string): (r: TopicRef)
    requires (wid, tid) in t.workTopics && tid in t.topics
    ensures r.id == tid
  {
    TopicRef(tid, t.topics[tid].name, t.topics[tid].level,
      Some(t.workTopics[(wid, tid)].score), Some(t.workTopics[(wid, tid)].isPrimary))
  }

  function RefPosition(a: AuthorRef): int { a.position.GetOr(0) }
  function RefScoreDesc(a: TopicRef): int { -a.score.GetOr(0) }

  /** A work's authors are its authorships whose author row exists, each
      with the row's name and the link's position and flag, in ascending
      position order; links to missing authors are dropped. */
  ghost predicate AuthorsAsStored(t: Tables, wid: string, authors: seq<AuthorRef>) {
    && (forall a :: a in authors ==>
          (wid, a.id) in t.workAuthors && a.id in t.authors && a == StoredAuthorRef(t, wid, a.id))
    && (forall aid :: (wid, aid) in t.workAuthors && aid in t.authors ==> StoredAuthorRef(t, wid, aid) in authors)
    && SortedBy(authors, RefPosition)
  }

  /** A work's topics are its topic links whose topic row exists, by
      descending score; links to missing topics are dropped. */
  ghost predicate TopicsAsStored(t: Tables, wid: string, topics: seq<TopicRef>) {
    && (forall x :: x in topics ==>
          (wid, x.id) in t.workTopics && x.id in t.topics && x == StoredTopicRef(t, wid, x.id))
    && (forall tid :: (wid, tid) in t.workTopics && tid in t.topics ==> StoredTopicRef(t, wid, tid) in topics)
    && SortedBy(topics, RefScoreDesc)
  }

  /** The `is_saved` field: present only when a user id was given, and
      looked up only when that id is non-empty (the lookup is guarded by
      the id's truthiness, the field by its presence). */
  function SavedFlag(t: Tables, userId: Option<string>, wid: string): (r: Option<bool>)
    ensures r.None? <==> userId.None?
    ensures r == Some(true) <==> userId.Some? && userId.value != "" && (userId.value, wid) in t.saved
  {
    if userId.None? then None else Some(userId.value != "" && (userId.value, wid) in t.saved)
  }

  // ---------------------------------------------------------------------
  // Attaching the rows
  // ---------------------------------------------------------------------

  /** The links of one work, ordered as the view needs them. */
  ghost predicate WorkAuthorships(t: Tables, wid: string, links: seq<AuthorshipRow>) {
    && (forall l :: l in links ==>
          l.workId == wid && (wid, l.authorId) in t.workAuthors && l == AuthorshipOf(t.workAuthors, (wid, l.authorId)))
    && (forall aid :: (wid, aid) in t.workAuthors ==> AuthorshipOf(t.workAuthors, (wid, aid)) in links)
    && SortedBy(links, LinkPosition)
  }

  ghost predicate WorkTopicScores(t: Tables, wid: string, links: seq<TopicScoreRow>) {
    && (forall l :: l in links ==>
          l.workId == wid && (wid, l.topicId) in t.workTopics && l == TopicScoreOf(t.workTopics, (wid, l.topicId)))
    && (forall tid :: (wid, tid) in t.workTopics ==> TopicScoreOf(t.workTopics, (wid, tid)) in links)
    && SortedBy(links, LinkScoreDesc)
  }

  /** The author map built from the author rows read for `links`: it holds
      the stored row of every linked author that exists, and nothing
      else a link could look up. */
  ghost predicate AuthorMapFor(t: Tables, authorMap: map<string, AuthorRow>, links: seq<AuthorshipRow>) {
    forall l :: l in links ==>
      (l.authorId in authorMap <==> l.authorId in t.authors)
      && (l.authorId in authorMap ==> authorMap[l.authorId] == t.authors[l.authorId])
  }

  ghost predicate TopicMapFor(t: Tables, topicMap: map<string, TopicRow>, links: seq<TopicScoreRow>) {
    forall l :: l in links ==>
      (l.topicId in topicMap <==> l.topicId in t.topics)
      && (l.topicId in topicMap ==> topicMap[l.topicId] == t.topics[l.topicId])
  }

  /** The entry a link yields when its author was found. */
  function AuthorRefIn(authorMap: map<string, AuthorRow>): AuthorshipRow -> Option<AuthorRef> {
    (l: AuthorshipRow) =>
      if l.authorId in authorMap then
        Some(AuthorRef(l.authorId, authorMap[l.authorId].displayName, authorMap[l.authorId].orcid,
          Some(l.position), Some(l.isCorresponding)))
      else None
  }

  function TopicRefIn(topicMap: map<string, TopicRow>): TopicScoreRow -> Option<TopicRef> {
    (l: TopicScoreRow) =>
      if l.topicId in topicMap then
        Some(TopicRef(l.topicId, topicMap[l.topicId].name, topicMap[l.topicId].level,
          Some(l.score), Some(l.isPrimary)))
      else None
  }

  /** The loop over a work's author links, pushing an entry for each link
      whose author is in the map. */
  method AttachAuthors(links: seq<AuthorshipRow>, authorMap: map<string, AuthorRow>) returns (authors: seq<AuthorRef>)
    ensures authors == FilterMap(links, AuthorRefIn(authorMap))
  {
    authors := [];
    for i := 0 to |links|
      invariant authors == FilterMap(links[..i], AuthorRefIn(authorMap))
    {
      FilterMapAppend(links[..i], [links[i]], AuthorRefIn(authorMap));
      assert links[..i + 1] == links[..i] + [links[i]];
      var l := links[i];
      if l.authorId in authorMap {
        var a := authorMap[l.authorId];
        authors := authors + [AuthorRef(l.authorId, a.displayName, a.orcid, Some(l.position), Some(l.isCorresponding))];
      }
    }
    assert links[..|links|] == links;
  }

  method AttachTopics(links: seq<TopicScoreRow>, topicMap: map<string, TopicRow>) returns (topics: seq<TopicRef>)
    ensures topics == FilterMap(links, TopicRefIn(topicMap))
  {
    topics := [];
    for i := 0 to |links|
      invariant topics == FilterMap(links[..i], TopicRefIn(topicMap))
    {
      FilterMapAppend(links[..i], [links[i]], TopicRefIn(topicMap));
      assert links[..i + 1] == links[..i] + [links[i]];
      var l := links[i];
      if l.topicId in topicMap {
        var tp := topicMap[l.topicId];
        topics := topics + [TopicRef(l.topicId, tp.name, tp.level, Some(l.score), Some(l.isPrimary))];
      }
    }
    assert links[..|links|] == links;
  }

  /** Attaching the found authors to a work's ordered links gives the view
      `AuthorsAsStored` describes. */
  lemma AttachedAuthors(t: Tables, wid: string, links: seq<AuthorshipRow>, authorMap: map<string, AuthorRow>)
    requires WorkAuthorships(t, wid, links)
    requires AuthorMapFor(t, authorMap, links)
    ensures AuthorsAsStored(t, wid, FilterMap(links, AuthorRefIn(authorMap)))
  {
    var f := AuthorRefIn(authorMap);
    var r := FilterMap(links, f);
    FilterMapSorted(links, f, LinkPosition, RefPosition);
    FilterMapFrom(links, f);
    FilterMapKeeps(links, f);
    forall a | a in r
      ensures (wid, a.id) in t.workAuthors && a.id in t.authors && a == StoredAuthorRef(t, wid, a.id)
    {
      var i :| 0 <= i < |links| && f(links[i]) == Some(a);
      assert links[i] in links;
    }
    forall aid | (wid, aid) in t.workAuthors && aid in t.authors
      ensures StoredAuthorRef(t, wid, aid) in r
    {
      var l := AuthorshipOf(t.workAuthors, (wid, aid));
      var i :| 0 <= i < |links| && links[i] == l;
      assert f(links[i]) == Some(StoredAuthorRef(t, wid, aid));
    }
  }

  lemma AttachedTopics(t: Tables, wid: string, links: seq<TopicScoreRow>, topicMap: map<string, TopicRow>)
    requires WorkTopicScores(t, wid, links)
    requires TopicMapFor(t, topicMap, links)
    ensures TopicsAsStored(t, wid, FilterMap(links, TopicRefIn(topicMap)))
  {
    var f := TopicRefIn(topicMap);
    var r := FilterMap(links, f);
    FilterMapSorted(links, f, LinkScoreDesc, RefScoreDesc);
    FilterMapFrom(links, f);
    FilterMapKeeps(links, f);
    forall x | x in r
      ensures (wid, x.id) in t.workTopics && x.id in t.topics && x == StoredTopicRef(t, wid, x.id)
    {
      var i :| 0 <= i < |links| && f(links[i]) == Some(x);
      assert links[i] in links;
    }
    forall tid | (wid, tid) in t.workTopics && tid in t.topics
      ensures StoredTopicRef(t, wid, tid) in r
    {
      var l := TopicScoreOf(t.workTopics, (wid, tid));
      var i :| 0 <= i < |links| && links[i] == l;
      assert f(links[i]) == Some(StoredTopicRef(t, wid, tid));
    }
  }

  // ---------------------------------------------------------------------
  // Grouping by work
  // ---------------------------------------------------------------------

  function KeyIs<T, K(==)>(key: T -> K, k: K): T -> bool {
    (x: T) => key(x) == k
  }

  /** Grouping rows into a map of lists by a key, keeping their order; a
      key without rows has no entry. */
  method GroupBy<T, K(==)>(rows: seq<T>, key: T -> K) returns (groups: map<K, seq<T>>)
    ensures forall k :: k in groups ==> groups[k] == Filter(rows, KeyIs(key, k))
    ensures forall k :: k !in groups ==> Filter(rows, KeyIs(key, k)) == []
  {
    groups := map[];
    for i := 0 to |rows|
      invariant forall k :: k in groups ==> groups[k] == Filter(rows[..i], KeyIs(key, k))
      invariant forall k :: k !in groups ==> Filter(rows[..i], KeyIs(key, k)) == []
    {
      assert rows[..i + 1] == rows[..i] + [rows[i]];
      forall k
        ensures Filter(rows[..i + 1], KeyIs(key, k))
          == Filter(rows[..i], KeyIs(key, k)) + (if key(rows[i]) == k then [rows[i]] else [])
      {
        FilterSnoc(rows[..i], rows[i], KeyIs(key, k));
      }
      var k := key(rows[i]);
      assert KeyIs(key, k)(rows[i]);
      var prior := if k in groups then groups[k] else [];
      groups := groups[k := prior + [rows[i]]];
      forall k' | k' != k
        ensures Filter(rows[..i + 1], KeyIs(key, k')) == Filter(rows[..i], KeyIs(key, k'))
      {
        assert !KeyIs(key, k')(rows[i]);
      }
    }
    assert rows[..|rows|] == rows;
  }

  /** One work's share of the ordered links of several works is that
      work's ordered links. */
  lemma AuthorshipsOfWork(t: Tables, ids: set<string>, rows: seq<AuthorshipRow>, wid: string)
    requires ListsAuthorships(t.workAuthors, ids, rows) && SortedBy(rows, LinkPosition)
    requires wid in ids
    ensures WorkAuthorships(t, wid, Filter(rows, KeyIs(AuthorshipWork, wid)))
  {
    var p := KeyIs(AuthorshipWork, wid);
    var r := Filter(rows, p);
    FilterKeeps(rows, p);
    FilterSorted(rows, p, LinkPosition);
    forall l | l in r
      ensures l.workId == wid
    {
      assert p(l);
    }
    forall aid | (wid, aid) in t.workAuthors
      ensures AuthorshipOf(t.workAuthors, (wid, aid)) in r
    {
      var l := AuthorshipOf(t.workAuthors, (wid, aid));
      assert l in rows && p(l);
    }
  }

  lemma TopicScoresOfWork(t: Tables, ids: set<string>, rows: seq<TopicScoreRow>, wid: string)
    requires ListsTopicScores(t.workTopics, ids, rows) && SortedBy(rows, LinkScoreDesc)
    requires wid in ids
    ensures WorkTopicScores(t, wid, Filter(rows, KeyIs(TopicScoreWork, wid)))
  {
    var p := KeyIs(TopicScoreWork, wid);
    var r := Filter(rows, p);
    FilterKeeps(rows, p);
    FilterSorted(rows, p, LinkScoreDesc);
    forall l | l in r
      ensures l.workId == wid
    {
      assert p(l);
    }
    forall tid | (wid, tid) in t.workTopics
      ensures TopicScoreOf(t.workTopics, (wid, tid)) in r
    {
      var l := TopicScoreOf(t.workTopics, (wid, tid));
      assert l in rows && p(l);
    }
  }

  /** The group of a work, `[]` when it has none (`get(wid) ?? []`). */
  function GroupOf<T>(groups: map<string, seq<T>>, wid: string): seq<T> {
    if wid in groups then groups[wid] else []
  }

  /** Every work of `ids` finds in `byWork` its ordered authorships, and
      `authorMap` answers for each of their authors. */
  ghost predicate AuthorsGrouped(t: Tables, ids: set<string>, byWork: map<string, seq<AuthorshipRow>>, authorMap: map<string, AuthorRow>) {
    forall wid :: wid in ids ==>
      WorkAuthorships(t, wid, GroupOf(byWork, wid)) && AuthorMapFor(t, authorMap, GroupOf(byWork, wid))
  }

  ghost predicate TopicsGrouped(t: Tables, ids: set<string>, byWork: map<string, seq<TopicScoreRow>>, topicMap: map<string, TopicRow>) {
    forall wid :: wid in ids ==>
      WorkTopicScores(t, wid, GroupOf(byWork, wid)) && TopicMapFor(t, topicMap, GroupOf(byWork, wid))
  }

  /** Grouping the ordered links of several works gives each work its
      ordered links. */
  lemma AuthorshipsGrouped(t: Tables, ids: set<string>, rows: seq<AuthorshipRow>,
                           byWork: map<string, seq<AuthorshipRow>>, authorMap: map<string, AuthorRow>)
    requires ListsAuthorships(t.workAuthors, ids, rows) && SortedBy(rows, LinkPosition)
    requires AuthorMapFor(t, authorMap, rows)
    requires forall k :: k in byWork ==> byWork[k] == Filter(rows, KeyIs(AuthorshipWork, k))
    requires forall k :: k !in byWork ==> Filter(rows, KeyIs(AuthorshipWork, k)) == []
    ensures AuthorsGrouped(t, ids, byWork, authorMap)
  {
    forall wid | wid in ids
      ensures WorkAuthorships(t, wid, GroupOf(byWork, wid)) && AuthorMapFor(t, authorMap, GroupOf(byWork, wid))
    {
      AuthorshipsOfWork(t, ids, rows, wid);
      assert GroupOf(byWork, wid) == Filter(rows, KeyIs(AuthorshipWork, wid));
    }
  }

  lemma TopicScoresGrouped(t: Tables, ids: set<string>, rows: seq<TopicScoreRow>,
                           byWork: map<string, seq<TopicScoreRow>>, topicMap: map<string, TopicRow>)
    requires ListsTopicScores(t.workTopics, ids, rows) && SortedBy(rows, LinkScoreDesc)
    requires TopicMapFor(t, topicMap, rows)
    requires forall k :: k in byWork ==> byWork[k] == Filter(rows, KeyIs(TopicScoreWork, k))
    requires forall k :: k !in byWork ==> Filter(rows, KeyIs(TopicScoreWork, k)) == []
    ensures TopicsGrouped(t, ids, byWork, topicMap)
  {
    forall wid | wid in ids
      ensures WorkTopicScores(t, wid, GroupOf(byWork, wid)) && TopicMapFor(t, topicMap, GroupOf(byWork, wid))
    {
      TopicScoresOfWork(t, ids, rows, wid);
      assert GroupOf(byWork, wid) == Filter(rows, KeyIs(TopicScoreWork, wid));
    }
  }

  // ---------------------------------------------------------------------
  // loadWorksWithRelations
  // ---------------------------------------------------------------------

  /** The id set of a page of works. */
  function WorkIds(works: seq<WorkRow>): (r: set<string>)
    ensures forall i :: 0 <= i < |works| ==> works[i].id in r
  {
    set w | w in works :: w.id
  }

  /** The rows of `authors` whose id is among `ids` (`.in("id", ids)`),
      by id. */
  function FoundAuthors(t: Tables, ids: set<string>): (r: map<string, AuthorRow>)
    ensures forall aid :: aid in r <==> aid in ids && aid in t.authors
  {
    map aid | aid in ids && aid in t.authors :: t.authors[aid]
  }

  function FoundTopics(t: Tables, ids: set<string>): (r: map<string, TopicRow>)
    ensures forall tid :: tid in r <==> tid in ids && tid in t.topics
  {
    map tid | tid in ids && tid in t.topics :: t.topics[tid]
  }

  /** The author links of the works `ids` grouped by work, and the
      author rows they name. */
  method ReadAuthorGroups(t: Tables, ids: set<string>) returns (byWork: map<string, seq<AuthorshipRow>>, authorMap: map<string, AuthorRow>)
    ensures AuthorsGrouped(t, ids, byWork, authorMap)
  {
    var allAuthorLinks := SelectAuthorships(t.workAuthors, ids);
    var authorIds := set l | l in allAuthorLinks :: l.authorId;
    authorMap := map[];
    if |authorIds| > 0 {
      authorMap := FoundAuthors(t, authorIds);
    }
    assert AuthorMapFor(t, authorMap, allAuthorLinks) by {
      assert forall l :: l in allAuthorLinks ==> l.authorId in authorIds;
    }
    byWork := GroupBy(allAuthorLinks, AuthorshipWork);
    AuthorshipsGrouped(t, ids, allAuthorLinks, byWork, authorMap);
  }

  /** The topic links of the works `ids` grouped by work, and the topic
      rows they name. */
  method ReadTopicGroups(t: Tables, ids: set<string>) returns (byWork: map<string, seq<TopicScoreRow>>, topicMap: map<string, TopicRow>)
    ensures TopicsGrouped(t, ids, byWork, topicMap)
  {
    var allTopicLinks := SelectTopicScores(t.workTopics, ids);
    var topicIds := set l | l in allTopicLinks :: l.topicId;
    topicMap := map[];
    if |topicIds| > 0 {
      topicMap := FoundTopics(t, topicIds);
    }
    assert TopicMapFor(t, topicMap, allTopicLinks) by {
      assert forall l :: l in allTopicLinks ==> l.topicId in topicIds;
    }
    byWork := GroupBy(allTopicLinks, TopicScoreWork);
    TopicScoresGrouped(t, ids, allTopicLinks, byWork, topicMap);
  }

  /** The works of `ids` the user saved; nothing is read for an empty or
      absent user id. */
  method ReadSavedIds(t: Tables, userId: Option<string>, ids: set<string>) returns (savedIds: set<string>)
    ensures savedIds <= ids
    ensures forall wid :: wid in ids ==>
      (wid in savedIds <==> userId.Some? && userId.value != "" && (userId.value, wid) in t.saved)
  {
    savedIds := {};
    if userId.Some? && userId.value != "" {
      savedIds := set p | p in t.saved && p.0 == userId.value && p.1 in ids :: p.1;
    }
  }

  /** `v` carries the stored relations of the work `wid` for the user
      `userId`. */
  ghost predicate RelationsOf(t: Tables, userId: Option<string>, wid: string, v: WorkWithRelations) {
    && AuthorsAsStored(t, wid, v.authors)
    && TopicsAsStored(t, wid, v.topics)
    && v.isSaved == SavedFlag(t, userId, wid)
  }

  /** `v` is the view of the work row `w` for the user `userId`. */
  ghost predicate ViewOf(t: Tables, userId: Option<string>, w: WorkRow, v: WorkWithRelations) {
    v.work == w && RelationsOf(t, userId, w.id, v)
  }

  /** The body of the loop over the page: one work with what was read
      for it. */
  method AssembleWork(t: Tables, userId: Option<string>, ids: set<string>, w: WorkRow,
                      authorLinksByWork: map<string, seq<AuthorshipRow>>, authorMap: map<string, AuthorRow>,
                      topicLinksByWork: map<string, seq<TopicScoreRow>>, topicMap: map<string, TopicRow>,
                      savedIds: set<string>) returns (v: WorkWithRelations)
    requires w.id in ids
    requires AuthorsGrouped(t, ids, authorLinksByWork, authorMap)
    requires TopicsGrouped(t, ids, topicLinksByWork, topicMap)
    requires forall wid :: wid in ids ==>
      (wid in savedIds <==> userId.Some? && userId.value != "" && (userId.value, wid) in t.saved)
    ensures ViewOf(t, userId, w, v)
  {
    var authorLinks := GroupOf(authorLinksByWork, w.id);
    var topicLinks := GroupOf(topicLinksByWork, w.id);
    var authors := AttachAuthors(authorLinks, authorMap);
    AttachedAuthors(t, w.id, authorLinks, authorMap);
    var topics := AttachTopics(topicLinks, topicMap);
    AttachedTopics(t, w.id, topicLinks, topicMap);
    var isSaved := if userId.Some? then Some(w.id in savedIds) else None;
    v := WorkWithRelations(w, authors, topics, isSaved);
  }

  /** The loop over the page, in the page's order. */
  method AssemblePage(t: Tables, userId: Option<string>, ids: set<string>, works: seq<WorkRow>,
                      authorLinksByWork: map<string, seq<AuthorshipRow>>, authorMap: map<string, AuthorRow>,
                      topicLinksByWork: map<string, seq<TopicScoreRow>>, topicMap: map<string, TopicRow>,
                      savedIds: set<string>) returns (r: seq<WorkWithRelations>)
    requires forall i :: 0 <= i < |works| ==> works[i].id in ids
    requires AuthorsGrouped(t, ids, authorLinksByWork, authorMap)
    requires TopicsGrouped(t, ids, topicLinksByWork, topicMap)
    requires forall wid :: wid in ids ==>
      (wid in savedIds <==> userId.Some? && userId.value != "" && (userId.value, wid) in t.saved)
    ensures |r| == |works|
    ensures forall i :: 0 <= i < |works| ==> ViewOf(t, userId, works[i], r[i])
  {
    r := [];
    for i := 0 to |works|
      invariant |r| == i
      invariant forall j :: 0 <= j < i ==> ViewOf(t, userId, works[j], r[j])
    {
      var v := AssembleWork(t, userId, ids, works[i], authorLinksByWork, authorMap, topicLinksByWork, topicMap, savedIds);
      r := r + [v];
    }
  }

  /** A page of works with their authors, topics and, for a given user,
      the saved flag. An empty page reads nothing. */
  method LoadWorksWithRelations(db: Database, works: seq<WorkRow>, userId: Option<string>) returns (r: seq<WorkWithRelations>)
    ensures |r| == |works|
    ensures forall i :: 0 <= i < |works| ==> ViewOf(db.tables, userId, works[i], r[i])
  {
    if |works| == 0 {
      return [];
    }
    var t := db.tables;
    var ids := WorkIds(works);
    var authorLinksByWork, authorMap := ReadAuthorGroups(t, ids);
    var topicLinksByWork, topicMap := ReadTopicGroups(t, ids);
    var savedIds := ReadSavedIds(t, userId, ids);
    r := AssemblePage(t, userId, ids, works, authorLinksByWork, authorMap, topicLinksByWork, topicMap, savedIds);
  }
}
