/** The shared search cache (`lib/search-cache.ts`): a search is keyed by
    a hash of its normalised query and options; the first search with a
    given key creates the cache row, later ones find it. The clock is a
    parameter. */
module SearchCache {
  import opened Text

  /** A year or sort rendered into the key: `value ?? ""`. */
  function ShownYear(n: Option<int>): (r: string)
    ensures r == [] <==> n.None?
    ensures '|' !in r
  {
    if n.Some? then IntToString(n.value) else ""
  }

  /** The query as the key sees it: lower-cased, then trimmed. */
  function NormalQuery(query: string): string {
    JsTrim(Lower(query))
  }

  /** `computeQueryHash`: the normalised query, the years and the sort,
      separated by `|`. */
  function QueryHash(query: string, fromYear: Option<int>, toYear: Option<int>, sort: Option<string>): (r: string)
    ensures |r| >= 3
  {
    NormalQuery(query) + "|" + ShownYear(fromYear) + "|" + ShownYear(toYear) + "|" + sort.GetOr("")
  }

  /** The key does not depend on the case of the query. */
  lemma HashIgnoresCase(query: string, fromYear: Option<int>, toYear: Option<int>, sort: Option<string>)
    ensures QueryHash(Lower(query), fromYear, toYear, sort) == QueryHash(query, fromYear, toYear, sort)
  {
    LowerIdempotent(query);
  }

  /** The key does not depend on white space around the query. */
  lemma HashIgnoresPadding(a: string, query: string, b: string,
                           fromYear: Option<int>, toYear: Option<int>, sort: Option<string>)
    requires AllOf(a, IsJsSpace) && AllOf(b, IsJsSpace)
    ensures QueryHash(a + query + b, fromYear, toYear, sort) == QueryHash(query, fromYear, toYear, sort)
  {
    LowerAppend(a + query, b);
    LowerAppend(a, query);
    LowerSpace(a);
    LowerSpace(b);
    TrimPadding(a, Lower(query), b, IsJsSpace);
  }

  /** A query and its trim have the same key. */
  lemma HashOfTrimmed(query: string, fromYear: Option<int>, toYear: Option<int>, sort: Option<string>)
    ensures QueryHash(JsTrim(query), fromYear, toYear, sort) == QueryHash(query, fromYear, toYear, sort)
  {
    var a, b := TrimParts(query, IsJsSpace);
    HashIgnoresPadding(a, JsTrim(query), b, fromYear, toYear, sort);
  }

  /** The key can be taken apart again: when neither the normalised query
      nor the sort contains `|`, splitting the key on `|` gives back the
      normalised query, the two years as written and the sort. */
  lemma HashFields(query: string, fromYear: Option<int>, toYear: Option<int>, sort: Option<string>)
    requires '|' !in NormalQuery(query) && '|' !in sort.GetOr("")
    ensures SplitChar(QueryHash(query, fromYear, toYear, sort), '|')
            == [NormalQuery(query), ShownYear(fromYear), ShownYear(toYear), sort.GetOr("")]
  {
    SplitFour(NormalQuery(query), ShownYear(fromYear), ShownYear(toYear), sort.GetOr(""), '|');
  }

  /** Four fields without the separator, joined by it, split back apart. */
  lemma SplitFour(w: string, x: string, y: string, z: string, c: char)
    requires c !in w && c !in x && c !in y && c !in z
    ensures SplitChar(w + [c] + x + [c] + y + [c] + z, c) == [w, x, y, z]
  {
    SplitCharNone(z, c);
    SplitCharAt(y, z, c);
    SplitCharAt(x, y + [c] + z, c);
    SplitCharAt(w, x + [c] + (y + [c] + z), c);
    assert w + [c] + x + [c] + y + [c] + z == w + [c] + (x + [c] + (y + [c] + z));
  }

  /** Two searches share a key only when they agree on the normalised
      query, the years and the sort (for queries and sorts without `|`). */
  lemma HashDistinguishes(q1: string, f1: Option<int>, t1: Option<int>, s1: Option<string>,
                          q2: string, f2: Option<int>, t2: Option<int>, s2: Option<string>)
    requires '|' !in NormalQuery(q1) && '|' !in s1.GetOr("")
    requires '|' !in NormalQuery(q2) && '|' !in s2.GetOr("")
    requires QueryHash(q1, f1, t1, s1) == QueryHash(q2, f2, t2, s2)
    ensures NormalQuery(q1) == NormalQuery(q2) && f1 == f2 && t1 == t2 && s1.GetOr("") == s2.GetOr("")
  {
    HashFields(q1, f1, t1, s1);
    HashFields(q2, f2, t2, s2);
    YearShownOnce(f1, f2);
    YearShownOnce(t1, t2);
  }

  /** Different years, or a year and no year, are shown differently. */
  lemma YearShownOnce(a: Option<int>, b: Option<int>)
    requires ShownYear(a) == ShownYear(b)
    ensures a == b
  {
    if a.Some? {
      IntToStringInjective(a.value, b.value);
    }
  }

  /** What `findOrCreateCache` is given. */
  datatype CacheParams = CacheParams(
    query: string, fromYear: Option<int>, toYear: Option<int>, sort: Option<string>,
    workIds: seq<string>, resultCount: int)

  /** A `search_cache` row; `refreshedAt` is a time in milliseconds. */
  datatype CacheRow = CacheRow(
    id: nat, queryHash: string, query: string, fromYear: Option<int>, toYear: Option<int>,
    sort: Option<string>, workIds: seq<string>, resultCount: int, refreshedAt: int)

  /** The row inserted for a new key: the query trimmed but not
      lower-cased, the options as given, refreshed now. */
  function NewCacheRow(id: nat, p: CacheParams, now: int): (r: CacheRow)
    ensures r.queryHash == QueryHash(r.query, r.fromYear, r.toYear, r.sort)
    ensures r.query == JsTrim(p.query) && r.workIds == p.workIds && r.resultCount == p.resultCount
  {
    HashOfTrimmed(p.query, p.fromYear, p.toYear, p.sort);
    CacheRow(id, QueryHash(p.query, p.fromYear, p.toYear, p.sort), JsTrim(p.query),
             p.fromYear, p.toYear, p.sort, p.workIds, p.resultCount, now)
  }

  /** Each row is filed under its own key, recomputable from the row,
      and the ids are distinct and below `nextId`. */
  ghost predicate CacheRows(rows: map<string, CacheRow>, nextId: nat) {
    && (forall h :: h in rows ==>
          (rows[h].queryHash == h
           && h == QueryHash(rows[h].query, rows[h].fromYear, rows[h].toYear, rows[h].sort)
           && rows[h].id < nextId))
    && (forall h1, h2 :: h1 in rows && h2 in rows && h1 != h2 ==> rows[h1].id != rows[h2].id)
  }

  /** Filing a new row with a fresh id under its own key keeps the rows
      well formed. */
  lemma CacheRowsInsert(rows: map<string, CacheRow>, nextId: nat, row: CacheRow)
    requires CacheRows(rows, nextId) && row.queryHash !in rows && row.id == nextId
    requires row.queryHash == QueryHash(row.query, row.fromYear, row.toYear, row.sort)
    ensures CacheRows(rows[row.queryHash := row], nextId + 1)
  {
  }

  /** The `search_cache` table, one row per key. */
  class CacheTable {
    var rows: map<string, CacheRow>
    var nextId: nat

    ghost predicate Valid()
      reads this
    {
      CacheRows(rows, nextId)
    }

    constructor ()
      ensures Valid() && rows == map[] && nextId == 0
    {
      rows := map[];
      nextId := 0;
    }

    /** `findOrCreateCache`: the row for the key when there is one, with
        nothing written; otherwise a new row under the key. Either way the
        result is the row now stored under the key. */
    method FindOrCreate(p: CacheParams, now: int) returns (row: CacheRow)
      requires Valid()
      modifies this
      ensures Valid()
      ensures var h := QueryHash(p.query, p.fromYear, p.toYear, p.sort);
              && h in rows && row == rows[h]
              && (h in old(rows) ==> rows == old(rows) && nextId == old(nextId))
              && (h !in old(rows) ==>
                    (row == NewCacheRow(old(nextId), p, now)
                     && rows == old(rows)[h := row] && nextId == old(nextId) + 1))
    {
      var hash := QueryHash(p.query, p.fromYear, p.toYear, p.sort);
      if hash in rows {
        return rows[hash];
      }
      row := NewCacheRow(nextId, p, now);
      CacheRowsInsert(rows, nextId, row);
      rows := rows[hash := row];
      nextId := nextId + 1;
    }
  }

  /** `isCacheStale`: older than the given number of hours (four by
      default), strictly. `refreshedAt` is `None` when the stored time
      does not parse; the age is then not a number and the comparison
      fails, so such a row never counts as stale. */
  function IsCacheStale(refreshedAt: Option<int>, now: int, maxAgeHours: Option<int>): (r: bool)
    ensures r ==> refreshedAt.Some?
  {
    refreshedAt.Some? && now - refreshedAt.value > maxAgeHours.GetOr(4) * 60 * 60 * 1000
  }

  /** A stale row stays stale as time passes, and a row exactly at the age
      limit is still fresh. */
  lemma StaleLater(refreshedAt: Option<int>, now: int, later: int, maxAgeHours: Option<int>)
    requires IsCacheStale(refreshedAt, now, maxAgeHours) && now <= later
    ensures IsCacheStale(refreshedAt, later, maxAgeHours)
    ensures !IsCacheStale(refreshedAt, refreshedAt.value + maxAgeHours.GetOr(4) * 3600000, maxAgeHours)
  {
  }

  /** With the default limit a row is fresh for four hours: stale exactly
      when more than 14 400 000 ms old. */
  lemma DefaultFourHours(refreshedAt: int, now: int)
    ensures IsCacheStale(Some(refreshedAt), now, None) <==> now - refreshedAt > 14400000
  {
  }
}
