/** Filling in stub works (`lib/openalex/hydrate.ts`): the distinct ids
    are looked up in chunks of 200 to find which are stubs, the stubs are
    requested from OpenAlex in pages of 100 ids, a few pages at a time,
    and whatever OpenAlex returns is ingested. `fetch` stands for
    `batchGetWorks`: the works OpenAlex returns for one page of ids. */
module Hydrate {
  import opened Text
  import opened Library
  import opened Extract
  import opened Store
  import opened Ingest

  /** Ids per `.in()` filter of the stub lookup. */
  const PostgrestInChunk: nat := 200
  /** Ids per OpenAlex request. */
  const OpenAlexPageSize: nat := 100
  /** Requests in flight together. */
  const DefaultConcurrency: nat := 3

  function Min(a: int, b: int): int { if a < b then a else b }

  function Id(x: string): string { x }

  /** Consecutive slices of `n` elements, the last one possibly shorter. */
  function Chunks<T>(s: seq<T>, n: nat): (r: seq<seq<T>>)
    requires n > 0
    decreases |s|
  {
    if s == [] then []
    else if |s| <= n then [s]
    else [s[..n]] + Chunks(s[n..], n)
  }

  function Concat<T>(ss: seq<seq<T>>): seq<T> {
    if ss == [] then [] else ss[0] + Concat(ss[1..])
  }

  lemma {:induction false} ConcatAppend<T>(a: seq<seq<T>>, b: seq<seq<T>>)
    ensures Concat(a + b) == Concat(a) + Concat(b)
  {
    if a == [] {
      assert a + b == b;
    } else {
      assert (a + b)[1..] == a[1..] + b;
      ConcatAppend(a[1..], b);
    }
  }

  /** Every chunk is non-empty and at most `n` long, and the chunks put
      back together are the input. */
  lemma {:induction false} ChunksFacts<T>(s: seq<T>, n: nat)
    requires n > 0
    decreases |s|
    ensures forall i :: 0 <= i < |Chunks(s, n)| ==> 0 < |Chunks(s, n)[i]| <= n
    ensures Concat(Chunks(s, n)) == s
  {
    if s != [] && |s| > n {
      ChunksFacts(s[n..], n);
      var r := Chunks(s, n);
      assert r[1..] == Chunks(s[n..], n);
      assert s == s[..n] + s[n..];
    }
  }

  /** The slice starting at a chunk boundary is the first chunk of the
      rest. */
  lemma ChunksStep<T>(s: seq<T>, n: nat)
    requires n > 0 && s != []
    ensures Chunks(s, n) == [s[..Min(n, |s|)]] + Chunks(s[Min(n, |s|)..], n)
  {
    if |s| <= n {
      assert s[..|s|] == s;
      assert s[|s|..] == [];
    }
  }

  /** The ids of `s` that name stored stubs. */
  predicate IsStub(works: map<string, WorkRow>, x: string) {
    x in works && works[x].isStub
  }

  /** `select("id").in("id", chunk).eq("is_stub", true)`: the stubs among
      the chunk's ids, each once, in whatever order the store lists them. */
  method SelectStubs(works: map<string, WorkRow>, chunk: seq<string>) returns (ids: seq<string>)
    ensures forall x :: x in ids <==> x in chunk && IsStub(works, x)
    ensures forall i, j :: 0 <= i < j < |ids| ==> ids[i] != ids[j]
  {
    var rest := set x | x in chunk && IsStub(works, x);
    ids := [];
    while rest != {}
      decreases rest
      invariant forall x :: x in ids <==> x in chunk && IsStub(works, x) && x !in rest
      invariant forall x :: x in rest ==> x in chunk && IsStub(works, x)
      invariant forall i, j :: 0 <= i < j < |ids| ==> ids[i] != ids[j]
    {
      var x :| x in rest;
      rest := rest - {x};
      ids := ids + [x];
    }
  }

  /** In a sequence without repeats, nothing before a position recurs
      after it. */
  lemma PrefixSuffixDistinct(s: seq<string>, i: nat, x: string, y: string)
    requires DistinctBy(s, Id) && i <= |s|
    requires x in s[..i] && y in s[i..]
    ensures x != y
  {
    var p :| 0 <= p < i && s[..i][p] == x;
    var q :| 0 <= q < |s| - i && s[i..][q] == y;
    assert s[p] == x && s[i + q] == y;
    assert Id(s[p]) != Id(s[i + q]);
  }

  /** `for (i = 0; i < s.length; i += n) chunks.push(s.slice(i, i + n))`. */
  method SliceChunks(s: seq<string>, n: nat) returns (chunks: seq<seq<string>>)
    requires n > 0
    ensures chunks == Chunks(s, n)
  {
    chunks := [];
    var i := 0;
    while i < |s|
      invariant chunks + Chunks(s[Min(i, |s|)..], n) == Chunks(s, n)
    {
      var end := Min(i + n, |s|);
      ChunksStep(s[i..], n);
      assert s[i..][..Min(n, |s[i..]|)] == s[i..end];
      assert s[i..][Min(n, |s[i..]|)..] == s[end..];
      chunks := chunks + [s[i..end]];
      i := i + n;
    }
    assert s[Min(i, |s|)..] == [];
  }

  /** The ids of the chunks before `k` and those of chunk `k`, when all
      the chunks together repeat nothing, are apart. */
  lemma ChunkApart(ls: seq<seq<string>>, k: nat, x: string, y: string)
    requires k < |ls| && DistinctBy(Concat(ls), Id)
    requires x in Concat(ls[..k]) && y in ls[k]
    ensures x != y
  {
    assert ls == ls[..k] + ls[k..];
    ConcatAppend(ls[..k], ls[k..]);
    assert ls[k..] == [ls[k]] + ls[k + 1..];
    ConcatAppend([ls[k]], ls[k + 1..]);
    var s := Concat(ls);
    var i := |Concat(ls[..k])|;
    assert s[..i] == Concat(ls[..k]);
    assert s[i..] == ls[k] + Concat(ls[k + 1..]);
    PrefixSuffixDistinct(s, i, x, y);
  }

  /** The stub lookup over `unique` in chunks of 200: `lookups` are the
      id lists sent to the store. */
  method FindStubs(works: map<string, WorkRow>, unique: seq<string>) returns (stubIds: seq<string>, lookups: seq<seq<string>>)
    requires DistinctBy(unique, Id)
    ensures lookups == Chunks(unique, PostgrestInChunk)
    ensures forall x :: x in stubIds <==> x in unique && IsStub(works, x)
    ensures forall i, j :: 0 <= i < j < |stubIds| ==> stubIds[i] != stubIds[j]
  {
    lookups := SliceChunks(unique, PostgrestInChunk);
    ChunksFacts(unique, PostgrestInChunk);
    stubIds := [];
    for k := 0 to |lookups|
      invariant forall x :: x in stubIds <==> x in Concat(lookups[..k]) && IsStub(works, x)
      invariant forall a, b :: 0 <= a < b < |stubIds| ==> stubIds[a] != stubIds[b]
    {
      var data := SelectStubs(works, lookups[k]);
      forall a, b | 0 <= a < |stubIds| && 0 <= b < |data|
        ensures stubIds[a] != data[b]
      {
        ChunkApart(lookups, k, stubIds[a], data[b]);
      }
      assert lookups[..k + 1] == lookups[..k] + [lookups[k]];
      ConcatAppend(lookups[..k], [lookups[k]]);
      assert Concat([lookups[k]]) == lookups[k] + Concat([]);
      stubIds := stubIds + data;
    }
    assert lookups[..|lookups|] == lookups;
  }

  /** What the requests of `chunks` return, in the order of the chunks. */
  function FetchAll(chunks: seq<seq<string>>, fetch: seq<string> -> seq<OaWork>): seq<OaWork> {
    if chunks == [] then [] else fetch(chunks[0]) + FetchAll(chunks[1..], fetch)
  }

  lemma {:induction false} FetchAllAppend(a: seq<seq<string>>, b: seq<seq<string>>, fetch: seq<string> -> seq<OaWork>)
    ensures FetchAll(a + b, fetch) == FetchAll(a, fetch) + FetchAll(b, fetch)
  {
    if a == [] {
      assert a + b == b;
    } else {
      assert (a + b)[1..] == a[1..] + b;
      FetchAllAppend(a[1..], b, fetch);
    }
  }

  /** One group of pages: `Promise.all` over the pages, then each page's
      works appended in page order. */
  method FetchGroup(batch: seq<seq<string>>, fetch: seq<string> -> seq<OaWork>) returns (results: seq<OaWork>)
    ensures results == FetchAll(batch, fetch)
  {
    results := [];
    for k := 0 to |batch|
      invariant results == FetchAll(batch[..k], fetch)
    {
      FetchAllAppend(batch[..k], [batch[k]], fetch);
      assert batch[..k + 1] == batch[..k] + [batch[k]];
      results := results + fetch(batch[k]);
    }
    assert batch[..|batch|] == batch;
  }

  /** The second loop of `batchGetWorksAll`: `concurrency` pages at a
      time, each group awaited together; the results keep the order of
      the pages whatever the concurrency. */
  method FetchPages(chunks: seq<seq<string>>, concurrency: nat, fetch: seq<string> -> seq<OaWork>)
    returns (results: seq<OaWork>)
    requires concurrency > 0
    ensures results == FetchAll(chunks, fetch)
  {
    results := [];
    var g := 0;
    while g < |chunks|
      invariant results == FetchAll(chunks[..Min(g, |chunks|)], fetch)
    {
      var end := Min(g + concurrency, |chunks|);
      var batch := chunks[g..end];
      var batchResults := FetchGroup(batch, fetch);
      results := results + batchResults;
      FetchAllAppend(chunks[..g], batch, fetch);
      assert chunks[..end] == chunks[..g] + batch;
      g := g + concurrency;
    }
    assert chunks[..|chunks|] == chunks;
  }

  /** `batchGetWorksAll`: the pages of ids and what OpenAlex returned for
      them, in page order. */
  method BatchGetWorksAll(ids: seq<string>, concurrency: nat, fetch: seq<string> -> seq<OaWork>)
    returns (results: seq<OaWork>, chunks: seq<seq<string>>)
    requires concurrency > 0
    ensures chunks == Chunks(ids, OpenAlexPageSize)
    ensures results == FetchAll(chunks, fetch)
  {
    chunks := SliceChunks(ids, OpenAlexPageSize);
    results := FetchPages(chunks, concurrency, fetch);
  }

  /** `hydrateStubs`. `lookups` are the id lists of the stub lookup,
      `requests` the id pages sent to OpenAlex, `count` how many works
      OpenAlex returned. Only stubs are requested, each once, at most 100
      to a page; with no stub among the ids nothing is requested and
      nothing is written; otherwise every returned work is ingested. */
  method HydrateStubs(db: Database, workIds: seq<string>, fetch: seq<string> -> seq<OaWork>)
    returns (count: nat, lookups: seq<seq<string>>, requests: seq<seq<string>>)
    modifies db
    ensures forall i :: 0 <= i < |lookups| ==> 0 < |lookups[i]| <= PostgrestInChunk
    ensures forall i :: 0 <= i < |requests| ==> 0 < |requests[i]| <= OpenAlexPageSize
    ensures forall x :: x in Concat(requests) <==> x in workIds && IsStub(old(db.tables.works), x)
    ensures forall i, j :: 0 <= i < j < |Concat(requests)| ==> Concat(requests)[i] != Concat(requests)[j]
    ensures count == |FetchAll(requests, fetch)|
    ensures count == 0 ==> db.tables == old(db.tables)
    ensures old(db.tables.works).Keys <= db.tables.works.Keys
    ensures forall e :: e in FetchAll(requests, fetch) ==> Ingested(db.tables.works, ExtractWork(e))
    ensures count > 0 ==> db.tables == TablesAfterAll(old(db.tables), FetchAll(requests, fetch))
  {
    var unique := DedupeById(workIds, Id);
    DedupeFacts(workIds, Id);
    assert forall x :: x in unique <==> x in workIds by {
      assert forall x :: x in unique ==> Id(x) in KeysOf(unique, Id);
      assert forall x :: x in workIds ==> Id(x) in KeysOf(workIds, Id);
    }
    lookups := [];
    requests := [];
    if |unique| == 0 {
      return 0, lookups, requests;
    }
    var stubIds;
    stubIds, lookups := FindStubs(db.tables.works, unique);
    ChunksFacts(unique, PostgrestInChunk);
    if |stubIds| == 0 {
      return 0, lookups, requests;
    }
    var openalexWorks;
    openalexWorks, requests := BatchGetWorksAll(stubIds, DefaultConcurrency, fetch);
    ChunksFacts(stubIds, OpenAlexPageSize);
    if |openalexWorks| > 0 {
      var results := IngestWorks(db, openalexWorks);
    }
    count := |openalexWorks|;
  }
}
