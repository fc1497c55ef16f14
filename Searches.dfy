/** Saved searches (`api/searches`): `POST` checks the body, finds or
    creates the shared cache row for the search and records the user's
    search pointing at it; `GET` lists the user's ten newest searches.
    Authentication is done before either and is not part of this model;
    the user id and the clock are parameters. */
module Searches {
  import opened Text
  import opened SearchCache

  /** The fields of a parsed JSON body. A field of the wrong JSON type is
      `None`, like a missing one: `query` must be a string, `workIds` an
      array (of ids), `resultCount` a number. */
  datatype SearchBody = SearchBody(
    query: Option<string>, workIds: Option<seq<string>>, resultCount: Option<int>,
    fromYear: Option<int>, toYear: Option<int>, sort: Option<string>)

  /** The request body: not JSON at all, or parsed. */
  datatype SearchRequest = Malformed | Parsed(body: SearchBody)

  /** The reasons a request is refused. */
  datatype SearchError = InvalidJson | QueryRequired | QueryTooLong | NoWorkIds | BadResultCount {
    /** The error text of the reply. */
    function Message(): string {
      match this
      case InvalidJson => "Invalid JSON"
      case QueryRequired => "query is required"
      case QueryTooLong => "query too long (max 500 chars)"
      case NoWorkIds => "work_ids must be a non-empty array"
      case BadResultCount => "result_count must be a non-negative number"
    }
  }

  /** The outcome of the checks: the first error, or what is passed on to
      the cache. */
  datatype Checked = Refused(error: SearchError) | Accepted(params: CacheParams)

  /** The checks of `POST`, in order; the length limit is on the query as
      sent, before trimming. */
  function CheckSearch(req: SearchRequest): Checked {
    if req.Malformed? then Refused(InvalidJson)
    else
      var b := req.body;
      if b.query.None? || JsTrim(b.query.value) == [] then Refused(QueryRequired)
      else if |b.query.value| > 500 then Refused(QueryTooLong)
      else if b.workIds.None? || b.workIds.value == [] then Refused(NoWorkIds)
      else if b.resultCount.None? || b.resultCount.value < 0 then Refused(BadResultCount)
      else Accepted(CacheParams(b.query.value, b.fromYear, b.toYear, b.sort, b.workIds.value, b.resultCount.value))
  }

  /** A request is accepted exactly when it is JSON with a non-blank query
      of at most 500 characters, a non-empty id list and a non-negative
      count; the cache is then given the query untrimmed and the other
      fields as sent. */
  lemma SearchAccepted(req: SearchRequest)
    ensures CheckSearch(req).Accepted? <==>
              && req.Parsed? && req.body.query.Some? && JsTrim(req.body.query.value) != []
              && |req.body.query.value| <= 500
              && req.body.workIds.Some? && req.body.workIds.value != []
              && req.body.resultCount.Some? && req.body.resultCount.value >= 0
    ensures CheckSearch(req).Accepted? ==>
              var b, p := req.body, CheckSearch(req).params;
              && p.query == b.query.value && p.workIds == b.workIds.value && p.resultCount == b.resultCount.value
              && p.fromYear == b.fromYear && p.toYear == b.toYear && p.sort == b.sort
  {
    if req.Parsed? {
      var b := req.body;
      if b.query.None? || JsTrim(b.query.value) == [] {
        assert CheckSearch(req) == Refused(QueryRequired);
      } else if |b.query.value| > 500 {
        assert CheckSearch(req) == Refused(QueryTooLong);
      } else if b.workIds.None? || b.workIds.value == [] {
        assert CheckSearch(req) == Refused(NoWorkIds);
      } else if b.resultCount.None? || b.resultCount.value < 0 {
        assert CheckSearch(req) == Refused(BadResultCount);
      } else {
        assert CheckSearch(req) == Accepted(CacheParams(b.query.value, b.fromYear, b.toYear, b.sort,
                                                        b.workIds.value, b.resultCount.value));
      }
    }
  }

  /** A `saved_searches` row; `createdAt` is a time in milliseconds. */
  datatype SavedSearchRow = SavedSearchRow(
    id: nat, userId: string, query: string, workIds: seq<string>, resultCount: int,
    fromYear: Option<int>, toYear: Option<int>, sort: Option<string>, cacheId: nat, createdAt: int)

  /** The row recorded for an accepted search: the query trimmed. */
  function NewSavedRow(id: nat, userId: string, p: CacheParams, cacheId: nat, now: int): (r: SavedSearchRow)
    ensures r.id == id && r.query == JsTrim(p.query) && r.cacheId == cacheId && r.userId == userId
    ensures QueryHash(r.query, r.fromYear, r.toYear, r.sort) == QueryHash(p.query, p.fromYear, p.toYear, p.sort)
  {
    HashOfTrimmed(p.query, p.fromYear, p.toYear, p.sort);
    SavedSearchRow(id, userId, JsTrim(p.query), p.workIds, p.resultCount, p.fromYear, p.toYear, p.sort, cacheId, now)
  }

  /** What `POST` replies: a status and either an error or the row. */
  datatype SearchReply = SearchReply(status: nat, error: Option<string>, saved: Option<SavedSearchRow>)

  /** Every row id is below `nextId`. */
  ghost predicate IdsBelow(rows: seq<SavedSearchRow>, nextId: nat) {
    forall i :: 0 <= i < |rows| ==> rows[i].id < nextId
  }

  /** Appending a row with id `nextId` and moving past it keeps the ids
      below. */
  lemma IdsBelowAppend(rows: seq<SavedSearchRow>, nextId: nat, row: SavedSearchRow)
    requires IdsBelow(rows, nextId) && row.id == nextId
    ensures IdsBelow(rows + [row], nextId + 1)
  {
  }

  /** The `saved_searches` table. */
  class SavedSearches {
    var rows: seq<SavedSearchRow>
    var nextId: nat

    ghost predicate Valid()
      reads this
    {
      IdsBelow(rows, nextId)
    }

    constructor ()
      ensures Valid() && rows == [] && nextId == 0
    {
      rows := [];
      nextId := 0;
    }

    /** Records an accepted search: finds or creates the cache row for
        its key and appends the user's row, which carries that cache
        row's id and a trimmed query with the same key. */
    method Record(cache: CacheTable, userId: string, p: CacheParams, now: int) returns (row: SavedSearchRow)
      requires Valid() && cache.Valid()
      modifies this, cache
      ensures Valid() && cache.Valid()
      ensures var h := QueryHash(p.query, p.fromYear, p.toYear, p.sort);
              && h in cache.rows
              && (h in old(cache.rows) ==> cache.rows == old(cache.rows) && cache.nextId == old(cache.nextId))
              && (h !in old(cache.rows) ==>
                    cache.rows == old(cache.rows)[h := NewCacheRow(old(cache.nextId), p, now)]
                    && cache.nextId == old(cache.nextId) + 1)
              && row == NewSavedRow(old(nextId), userId, p, cache.rows[h].id, now)
              && rows == old(rows) + [row] && nextId == old(nextId) + 1
              && QueryHash(row.query, row.fromYear, row.toYear, row.sort) == cache.rows[h].queryHash
    {
      var id := nextId;
      var cacheRow := cache.FindOrCreate(p, now);
      row := NewSavedRow(id, userId, p, cacheRow.id, now);
      Append(row);
    }

    /** The insert itself: the row goes last, under the next id. */
    method Append(row: SavedSearchRow)
      requires Valid() && row.id == nextId
      modifies this
      ensures Valid() && rows == old(rows) + [row] && nextId == old(nextId) + 1
    {
      IdsBelowAppend(rows, nextId, row);
      rows := rows + [row];
      nextId := nextId + 1;
    }

    /** `POST`: a refused request gets 400 and changes nothing; an
        accepted one is recorded and gets 201 with the new row. */
    method Post(cache: CacheTable, userId: string, req: SearchRequest, now: int) returns (reply: SearchReply)
      requires Valid() && cache.Valid()
      modifies this, cache
      ensures Valid() && cache.Valid()
      ensures CheckSearch(req).Refused? ==>
                && reply == SearchReply(400, Some(CheckSearch(req).error.Message()), None)
                && rows == old(rows) && nextId == old(nextId)
                && cache.rows == old(cache.rows) && cache.nextId == old(cache.nextId)
      ensures CheckSearch(req).Accepted? ==>
                var p := CheckSearch(req).params;
                var h := QueryHash(p.query, p.fromYear, p.toYear, p.sort);
                && h in cache.rows
                && (h in old(cache.rows) ==> cache.rows == old(cache.rows) && cache.nextId == old(cache.nextId))
                && (h !in old(cache.rows) ==>
                      cache.rows == old(cache.rows)[h := NewCacheRow(old(cache.nextId), p, now)]
                      && cache.nextId == old(cache.nextId) + 1)
                && reply.status == 201 && reply.error.None?
                && reply.saved == Some(NewSavedRow(old(nextId), userId, p, cache.rows[h].id, now))
                && rows == old(rows) + [reply.saved.value] && nextId == old(nextId) + 1
                && QueryHash(reply.saved.value.query, reply.saved.value.fromYear, reply.saved.value.toYear,
                             reply.saved.value.sort) == cache.rows[h].queryHash
    {
      var checked := CheckSearch(req);
      if checked.Refused? {
        return SearchReply(400, Some(checked.error.Message()), None);
      }
      var row := Record(cache, userId, checked.params, now);
      reply := SearchReply(201, None, Some(row));
    }
  }

  /** Newest first: the key `SortBy` orders by ascending. */
  function Age(r: SavedSearchRow): int {
    -r.createdAt
  }

  function OwnRows(rows: seq<SavedSearchRow>, userId: string): seq<SavedSearchRow> {
    Filter(rows, (r: SavedSearchRow) => r.userId == userId)
  }

  /** `GET`: the user's searches, newest first, at most ten; rows with
      the same time keep the order the store lists them in. */
  function RecentSearches(rows: seq<SavedSearchRow>, userId: string): seq<SavedSearchRow> {
    Take(SortBy(OwnRows(rows, userId), Age), 10)
  }

  /** The list holds at most ten of the user's own searches, newest
      first; it holds all of them when there are at most ten, and
      otherwise every search left out is no newer than every search
      listed. */
  lemma RecentSearchesFacts(rows: seq<SavedSearchRow>, userId: string)
    ensures var r := RecentSearches(rows, userId);
            var mine := OwnRows(rows, userId);
            && |r| <= 10
            && (forall x :: x in r ==> x in rows && x.userId == userId)
            && (forall i, j :: 0 <= i < j < |r| ==> r[i].createdAt >= r[j].createdAt)
            && (|mine| <= 10 ==> multiset(r) == multiset(mine))
            && (|mine| > 10 ==> |r| == 10)
            && (forall x, i :: 0 <= i < |r| && x in mine && x !in r ==> x.createdAt <= r[i].createdAt)
  {
    var mine := OwnRows(rows, userId);
    var sorted := SortBy(mine, Age);
    SortByFacts(mine, Age);
    var r := RecentSearches(rows, userId);
    assert r == sorted[..|r|];
    forall x | x in r
      ensures x in rows && x.userId == userId
    {
      assert x in multiset(sorted);
    }
    forall x, i | 0 <= i < |r| && x in mine && x !in r
      ensures x.createdAt <= r[i].createdAt
    {
      assert x in multiset(sorted);
      var k :| 0 <= k < |sorted| && sorted[k] == x;
      assert k >= |r|;
      assert Age(sorted[i]) <= Age(sorted[k]);
    }
  }
}
