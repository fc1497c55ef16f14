/** Flattening an OpenAlex work into the rows of the library's tables
    (`extract.ts`): the work row, its authors and their institutions, the
    topic hierarchy, the source and the funders. An OpenAlex work is a
    value; an absent JSON member is `None`. */
module Extract {
  import opened Text

  // ---------------------------------------------------------------------
  // The OpenAlex work, as far as the extraction reads it
  // ---------------------------------------------------------------------

  datatype OaSource = OaSource(
    id: Option<string>,
    displayName: Option<string>,
    sourceType: Option<string>,
    issn: Option<seq<string>>,
    isOa: Option<bool>,
    homepageUrl: Option<string>,
    hostOrganizationName: Option<string>,
    /** `apc_usd.value`, absent when `apc_usd` or its value is. */
    apcUsd: Option<int>)

  datatype OaLocation = OaLocation(
    source: Option<OaSource>,
    isOa: Option<bool>,
    pdfUrl: Option<string>,
    landingPageUrl: Option<string>)

  datatype OaOpenAccess = OaOpenAccess(isOa: Option<bool>, oaUrl: Option<string>)

  datatype OaAuthor = OaAuthor(id: Option<string>, displayName: Option<string>, orcid: Option<string>, citedByCount: Option<int>)

  datatype OaInstitution = OaInstitution(
    id: Option<string>,
    displayName: Option<string>,
    instType: Option<string>,
    countryCode: Option<string>,
    ror: Option<string>)

  /** One authorship; an entry of its institution list may be null. */
  datatype OaAuthorship = OaAuthorship(
    author: Option<OaAuthor>,
    isCorresponding: Option<bool>,
    institutions: Option<seq<Option<OaInstitution>>>)

  /** A domain, field or subfield of a topic. */
  datatype OaRef = OaRef(id: string, displayName: Option<string>)

  /** A topic with its place in the hierarchy; scores are fixed-point. */
  datatype OaTopic = OaTopic(
    id: string,
    displayName: Option<string>,
    score: Option<int>,
    description: Option<string>,
    worksCount: Option<int>,
    domain: Option<OaRef>,
    field: Option<OaRef>,
    subfield: Option<OaRef>)

  datatype OaFunder = OaFunder(id: Option<string>, displayName: Option<string>, countryCode: Option<string>)

  datatype OaGrant = OaGrant(funder: Option<OaFunder>, awardId: Option<string>)

  /** The inverted index of an abstract: each word with the positions it
      occupies, in the order the object's entries are enumerated. */
  type InvertedIndex = seq<(string, seq<int>)>

  datatype OaWork = OaWork(
    id: string,
    title: Option<string>,
    abstractIndex: Option<InvertedIndex>,
    publicationYear: Option<int>,
    doi: Option<string>,
    citedByCount: Option<int>,
    publicationDate: Option<string>,
    workType: Option<string>,
    language: Option<string>,
    isRetracted: Option<bool>,
    openAccess: Option<OaOpenAccess>,
    primaryLocation: Option<OaLocation>,
    relatedWorks: Option<seq<string>>,
    referencedWorks: Option<seq<string>>,
    authorships: Option<seq<OaAuthorship>>,
    topics: Option<seq<OaTopic>>,
    grants: Option<seq<OaGrant>>)

  /** JavaScript truthiness of an optional string. */
  predicate HasText(s: Option<string>) {
    s.Some? && s.value != ""
  }

  // ---------------------------------------------------------------------
  // Identifiers
  // ---------------------------------------------------------------------

  const OpenAlexPrefix: string := "https://openalex.org/"

  /** `stripOAPrefix`: removes the first occurrence of the OpenAlex URL
      prefix. */
  function StripOAPrefix(id: string): (r: string)
    ensures !Contains(id, OpenAlexPrefix) ==> r == id
    ensures Contains(id, OpenAlexPrefix) ==> |r| == |id| - |OpenAlexPrefix|
  {
    ReplaceFirst(id, OpenAlexPrefix, "")
  }

  /** A full OpenAlex URL strips to the short id after the prefix. */
  lemma StripsLeadingPrefix(x: string)
    ensures StripOAPrefix(OpenAlexPrefix + x) == x
  {
    var s := OpenAlexPrefix + x;
    assert OccursAt(s, OpenAlexPrefix, 0) by {
      assert s[0..|OpenAlexPrefix|] == OpenAlexPrefix;
    }
    assert IndexOf(s, OpenAlexPrefix) == Some(0);
    assert s[|OpenAlexPrefix|..] == x;
  }

  function StripAll(ids: seq<string>): (r: seq<string>)
    ensures |r| == |ids| && forall k :: 0 <= k < |ids| ==> r[k] == StripOAPrefix(ids[k])
  {
    if ids == [] then [] else [StripOAPrefix(ids[0])] + StripAll(ids[1..])
  }

  // ---------------------------------------------------------------------
  // Abstract
  // ---------------------------------------------------------------------

  /** A word at one position. */
  datatype Posting = Posting(pos: int, word: string)

  function PosOf(p: Posting): int {
    p.pos
  }

  function PostingsOfEntry(e: (string, seq<int>)): (r: seq<Posting>)
    ensures |r| == |e.1| && forall j :: 0 <= j < |r| ==> r[j] == Posting(e.1[j], e.0)
  {
    seq(|e.1|, j requires 0 <= j < |e.1| => Posting(e.1[j], e.0))
  }

  /** Every (position, word) pair of the index, entry by entry. */
  function Postings(index: InvertedIndex): seq<Posting> {
    if index == [] then [] else Postings(index[..|index| - 1]) + PostingsOfEntry(index[|index| - 1])
  }

  /** The index holds `Posting(p, w)` exactly when `w` is listed at `p`. */
  lemma {:induction false} PostingsMembership(index: InvertedIndex, p: Posting)
    ensures p in Postings(index) <==> exists k :: 0 <= k < |index| && index[k].0 == p.word && p.pos in index[k].1
  {
    if index != [] {
      var n := |index| - 1;
      var front := index[..n];
      PostingsMembership(front, p);
      assert Postings(index) == Postings(front) + PostingsOfEntry(index[n]);
      assert p in PostingsOfEntry(index[n]) <==> index[n].0 == p.word && p.pos in index[n].1 by {
        if index[n].0 == p.word && p.pos in index[n].1 {
          var j :| 0 <= j < |index[n].1| && index[n].1[j] == p.pos;
          assert PostingsOfEntry(index[n])[j] == p;
        }
      }
      if exists k :: 0 <= k < |index| && index[k].0 == p.word && p.pos in index[k].1 {
        var k :| 0 <= k < |index| && index[k].0 == p.word && p.pos in index[k].1;
        if k < n {
          assert front[k] == index[k];
        }
      }
      if exists k :: 0 <= k < n && front[k].0 == p.word && p.pos in front[k].1 {
        var k :| 0 <= k < n && front[k].0 == p.word && p.pos in front[k].1;
        assert front[k] == index[k];
      }
    }
  }

  function Words(ps: seq<Posting>): (r: seq<string>)
    ensures |r| == |ps| && forall k :: 0 <= k < |ps| ==> r[k] == ps[k].word
  {
    seq(|ps|, k requires 0 <= k < |ps| => ps[k].word)
  }

  /** The abstract an index spells: its words ordered by position (a stable
      sort, so equal positions keep their enumeration order) and joined
      with single spaces. */
  function AbstractOf(index: Option<InvertedIndex>): Option<string> {
    match index
    case None => None
    case Some(entries) => Some(Join(Words(SortBy(Postings(entries), PosOf)), " "))
  }

  /** The words of an abstract come in position order, one per listed
      position. */
  lemma AbstractOrder(entries: InvertedIndex)
    ensures SortedBy(SortBy(Postings(entries), PosOf), PosOf)
    ensures multiset(SortBy(Postings(entries), PosOf)) == multiset(Postings(entries))
  {
    SortByFacts(Postings(entries), PosOf);
  }

  /** An index with no positions (such as `{}`) gives the empty text, not
      null. */
  lemma {:induction false} EmptyIndexGivesEmptyText(entries: InvertedIndex)
    requires forall k :: 0 <= k < |entries| ==> entries[k].1 == []
    ensures AbstractOf(Some(entries)) == Some("")
  {
    EmptyPostings(entries);
  }

  lemma {:induction false} EmptyPostings(entries: InvertedIndex)
    requires forall k :: 0 <= k < |entries| ==> entries[k].1 == []
    ensures Postings(entries) == []
  {
    if entries != [] {
      var n := |entries| - 1;
      assert forall k :: 0 <= k < n ==> entries[..n][k] == entries[k];
      EmptyPostings(entries[..n]);
    }
  }

  /** `parseAbstract`: collects the (position, word) pairs entry by entry,
      sorts them by position and joins the words. */
  method ParseAbstract(index: Option<InvertedIndex>) returns (r: Option<string>)
    ensures r == AbstractOf(index)
    ensures r.None? <==> index.None?
  {
    if index.None? {
      return None;
    }
    var entries := index.value;
    var wordPositions: seq<Posting> := [];
    var k := 0;
    while k < |entries|
      invariant 0 <= k <= |entries|
      invariant wordPositions == Postings(entries[..k])
    {
      var (word, positions) := entries[k];
      var j := 0;
      while j < |positions|
        invariant 0 <= j <= |positions|
        invariant wordPositions == Postings(entries[..k]) + PostingsOfEntry(entries[k])[..j]
      {
        wordPositions := wordPositions + [Posting(positions[j], word)];
        j := j + 1;
      }
      assert entries[..k + 1][..k] == entries[..k];
      assert PostingsOfEntry(entries[k])[..j] == PostingsOfEntry(entries[k]);
      k := k + 1;
    }
    assert entries[..k] == entries;
    r := Some(Join(Words(SortBy(wordPositions, PosOf)), " "));
  }

  // ---------------------------------------------------------------------
  // The work row
  // ---------------------------------------------------------------------

  /** The normalised work `extractWork` returns. */
  datatype ExtractedWork = ExtractedWork(
    id: string,
    title: string,
    abstractText: Option<string>,
    year: Option<int>,
    doi: Option<string>,
    citedByCount: int,
    publicationDate: Option<string>,
    workType: Option<string>,
    language: Option<string>,
    isRetracted: bool,
    isOpenAccess: bool,
    openAccessUrl: Option<string>,
    relatedWorkIds: Option<seq<string>>,
    isStub: bool,
    sourceId: Option<string>,
    sourceDisplayName: Option<string>,
    referencedWorks: seq<string>)

  /** `open_access.oa_url` when the work has an `open_access` object. */
  function OaUrlOf(w: OaWork): Option<string> {
    if w.openAccess.Some? then w.openAccess.value.oaUrl else None
  }

  /** The primary location is marked open access. */
  predicate LocationIsOa(w: OaWork) {
    w.primaryLocation.Some? && w.primaryLocation.value.isOa == Some(true)
  }

  /** The open-access URL: `open_access.oa_url` when it is non-empty;
      otherwise, for an open-access primary location, its PDF URL, else its
      landing page; otherwise the (absent or empty) `oa_url` as it was. */
  function OpenAccessUrl(w: OaWork): (r: Option<string>)
    ensures HasText(OaUrlOf(w)) ==> r == OaUrlOf(w)
    ensures !HasText(OaUrlOf(w)) && !LocationIsOa(w) ==> r == OaUrlOf(w)
    ensures !HasText(OaUrlOf(w)) && LocationIsOa(w) && w.primaryLocation.value.pdfUrl.Some? ==>
              r == w.primaryLocation.value.pdfUrl
    ensures !HasText(OaUrlOf(w)) && LocationIsOa(w) && w.primaryLocation.value.pdfUrl.None? ==>
              r == w.primaryLocation.value.landingPageUrl
  {
    var oaUrl := OaUrlOf(w);
    if !HasText(oaUrl) && LocationIsOa(w) then
      var loc := w.primaryLocation.value;
      if loc.pdfUrl.Some? then loc.pdfUrl else loc.landingPageUrl
    else oaUrl
  }

  /** The source columns of the work row: the stripped id when the source
      has a non-empty id, and its display name. */
  function SourceColumns(w: OaWork): (r: (Option<string>, Option<string>))
    ensures r.0.Some? <==> w.primaryLocation.Some? && w.primaryLocation.value.source.Some?
                           && HasText(w.primaryLocation.value.source.value.id)
  {
    if w.primaryLocation.Some? && w.primaryLocation.value.source.Some? then
      var src := w.primaryLocation.value.source.value;
      (if HasText(src.id) then Some(StripOAPrefix(src.id.value)) else None, src.displayName)
    else (None, None)
  }

  /** `extractWork`. */
  function ExtractWork(w: OaWork): (r: ExtractedWork)
    ensures r.id == StripOAPrefix(w.id)
    ensures !r.isStub
    ensures r.title == w.title.GetOr("Untitled")
    ensures r.citedByCount == w.citedByCount.GetOr(0)
    ensures r.abstractText == AbstractOf(w.abstractIndex)
    ensures r.openAccessUrl == OpenAccessUrl(w)
    ensures r.isOpenAccess <==> w.openAccess.Some? && w.openAccess.value.isOa == Some(true)
    ensures w.referencedWorks.None? ==> r.referencedWorks == []
    ensures w.referencedWorks.Some? ==> r.referencedWorks == StripAll(w.referencedWorks.value)
    ensures w.relatedWorks.Some? <==> r.relatedWorkIds.Some?
    ensures w.relatedWorks.Some? ==> r.relatedWorkIds.value == StripAll(w.relatedWorks.value)
  {
    var isOa := if w.openAccess.Some? then w.openAccess.value.isOa.GetOr(false) else false;
    var (sourceId, sourceName) := SourceColumns(w);
    ExtractedWork(
      StripOAPrefix(w.id),
      w.title.GetOr("Untitled"),
      AbstractOf(w.abstractIndex),
      w.publicationYear,
      w.doi,
      w.citedByCount.GetOr(0),
      w.publicationDate,
      w.workType,
      w.language,
      w.isRetracted.GetOr(false),
      isOa,
      OpenAccessUrl(w),
      if w.relatedWorks.Some? then Some(StripAll(w.relatedWorks.value)) else None,
      false,
      sourceId,
      sourceName,
      if w.referencedWorks.Some? then StripAll(w.referencedWorks.value) else [])
  }

  // ---------------------------------------------------------------------
  // Authors
  // ---------------------------------------------------------------------

  datatype AuthorEntry = AuthorEntry(
    id: string,
    displayName: string,
    orcid: Option<string>,
    citedByCount: int,
    position: nat,
    isCorresponding: bool)

  datatype InstitutionRow = InstitutionRow(
    id: string,
    name: string,
    instType: Option<string>,
    countryCode: Option<string>,
    rorId: Option<string>)

  datatype AuthorInstitution = AuthorInstitution(authorId: string, institutionId: string)

  function Authorships(w: OaWork): seq<OaAuthorship> {
    w.authorships.GetOr([])
  }

  /** The authorship names an author with a non-empty id. */
  predicate HasAuthorId(s: OaAuthorship) {
    s.author.Some? && HasText(s.author.value.id)
  }

  function AuthorIds(authors: seq<AuthorEntry>): set<string> {
    set a | a in authors :: a.id
  }

  function Positions(authors: seq<AuthorEntry>): set<nat> {
    set a | a in authors :: a.position
  }

  /** The row of one listed institution: none for a null entry or a
      missing or empty id. */
  function InstitutionRowOf(inst: Option<OaInstitution>): (r: Option<InstitutionRow>)
    ensures r.Some? <==> inst.Some? && HasText(inst.value.id)
    ensures r.Some? ==> r.value.id == StripOAPrefix(inst.value.id.value)
  {
    if inst.Some? && HasText(inst.value.id) then
      Some(InstitutionRow(StripOAPrefix(inst.value.id.value), inst.value.displayName.GetOr("Unknown"),
                          inst.value.instType, inst.value.countryCode, inst.value.ror))
    else None
  }

  /** The institution rows and author links of one authorship: one of each
      per listed institution with a non-empty id, in list order, duplicates
      kept. */
  method InstitutionsOf(authorId: string, insts: seq<Option<OaInstitution>>)
    returns (rows: seq<InstitutionRow>, links: seq<AuthorInstitution>)
    ensures rows == FilterMap(insts, InstitutionRowOf)
    ensures links == LinksTo(authorId, rows)
  {
    rows, links := [], [];
    var j := 0;
    while j < |insts|
      invariant 0 <= j <= |insts|
      invariant rows == FilterMap(insts[..j], InstitutionRowOf)
      invariant |links| == |rows|
      invariant forall k :: 0 <= k < |links| ==> links[k] == AuthorInstitution(authorId, rows[k].id)
    {
      var inst := insts[j];
      FilterMapAppend(insts[..j], [inst], InstitutionRowOf);
      assert insts[..j + 1] == insts[..j] + [inst];
      if inst.Some? && HasText(inst.value.id) {
        var instId := StripOAPrefix(inst.value.id.value);
        rows := rows + [InstitutionRow(instId, inst.value.displayName.GetOr("Unknown"),
                                       inst.value.instType, inst.value.countryCode, inst.value.ror)];
        links := links + [AuthorInstitution(authorId, instId)];
      }
      j := j + 1;
    }
    assert insts[..j] == insts;
  }

  /** One author link per institution row, in the same order. */
  function LinksTo(authorId: string, rows: seq<InstitutionRow>): seq<AuthorInstitution> {
    seq(|rows|, k requires 0 <= k < |rows| => AuthorInstitution(authorId, rows[k].id))
  }

  /** The institution rows one authorship lists. */
  function ShipInstitutions(ship: OaAuthorship): seq<InstitutionRow> {
    FilterMap(ship.institutions.GetOr([]), InstitutionRowOf)
  }

  /** The author entry an authorship with an author id yields. */
  function AuthorOf(ships: seq<OaAuthorship>, i: nat): AuthorEntry
    requires i < |ships| && HasAuthorId(ships[i])
  {
    var author := ships[i].author.value;
    AuthorEntry(StripOAPrefix(author.id.value), author.displayName.GetOr("Unknown"), author.orcid,
                author.citedByCount.GetOr(0), i, ships[i].isCorresponding.GetOr(false))
  }

  /** `a` is the entry of the authorship at its position. */
  predicate AuthorFrom(ships: seq<OaAuthorship>, a: AuthorEntry) {
    a.position < |ships| && HasAuthorId(ships[a.position]) && a == AuthorOf(ships, a.position)
  }

  predicate PositionsIncrease(authors: seq<AuthorEntry>) {
    forall a, b :: 0 <= a < b < |authors| ==> authors[a].position < authors[b].position
  }

  /** The author entries of the first `i` authorships, in order. */
  function AuthorRows(ships: seq<OaAuthorship>, i: nat): seq<AuthorEntry>
    requires i <= |ships|
  {
    if i == 0 then []
    else AuthorRows(ships, i - 1) + (if HasAuthorId(ships[i - 1]) then [AuthorOf(ships, i - 1)] else [])
  }

  /** The institution rows of the first `i` authorships: the rows of each
      authorship with an author id, concatenated in order. */
  function InstitutionRows(ships: seq<OaAuthorship>, i: nat): seq<InstitutionRow>
    requires i <= |ships|
  {
    if i == 0 then []
    else InstitutionRows(ships, i - 1) + (if HasAuthorId(ships[i - 1]) then ShipInstitutions(ships[i - 1]) else [])
  }

  /** The author links of the first `i` authorships, each naming the
      authorship's author, concatenated in order. */
  function InstitutionLinks(ships: seq<OaAuthorship>, i: nat): seq<AuthorInstitution>
    requires i <= |ships|
  {
    if i == 0 then []
    else InstitutionLinks(ships, i - 1)
         + (if HasAuthorId(ships[i - 1]) then LinksTo(AuthorOf(ships, i - 1).id, ShipInstitutions(ships[i - 1])) else [])
  }

  /** `extractAuthors`: one author per authorship with an author id, at the
      authorship's index and in authorship order; one institution row and
      one author link per institution with an id, without de-duplication. */
  method ExtractAuthors(w: OaWork)
    returns (authors: seq<AuthorEntry>, institutions: seq<InstitutionRow>, links: seq<AuthorInstitution>)
    ensures forall a :: a in authors ==> AuthorFrom(Authorships(w), a)
    ensures PositionsIncrease(authors)
    ensures forall i :: 0 <= i < |Authorships(w)| && HasAuthorId(Authorships(w)[i]) ==> i in Positions(authors)
    ensures |links| == |institutions|
    ensures forall k :: 0 <= k < |links| ==> links[k].institutionId == institutions[k].id
    ensures forall k :: 0 <= k < |links| ==> links[k].authorId in AuthorIds(authors)
    ensures authors == AuthorRows(Authorships(w), |Authorships(w)|)
    ensures institutions == InstitutionRows(Authorships(w), |Authorships(w)|)
    ensures links == InstitutionLinks(Authorships(w), |Authorships(w)|)
  {
    var ships := Authorships(w);
    authors, institutions, links := [], [], [];
    var i := 0;
    while i < |ships|
      invariant 0 <= i <= |ships|
      invariant authors == AuthorRows(ships, i)
      invariant institutions == InstitutionRows(ships, i)
      invariant links == InstitutionLinks(ships, i)
    {
      if HasAuthorId(ships[i]) {
        var entry := AuthorOf(ships, i);
        authors := authors + [entry];
        var rows, ls := InstitutionsOf(entry.id, ships[i].institutions.GetOr([]));
        institutions := institutions + rows;
        links := links + ls;
      }
      i := i + 1;
    }
    AuthorRowsFacts(ships, i);
    InstitutionLinksFacts(ships, i);
  }

  /** The author entries come from their authorships, in increasing
      position, and every authorship with an author id has its entry. */
  lemma {:induction false} AuthorRowsFacts(ships: seq<OaAuthorship>, i: nat)
    requires i <= |ships|
    ensures forall a :: a in AuthorRows(ships, i) ==> AuthorFrom(ships, a) && a.position < i
    ensures PositionsIncrease(AuthorRows(ships, i))
    ensures forall j :: 0 <= j < i && HasAuthorId(ships[j]) ==> j in Positions(AuthorRows(ships, i))
  {
    if i > 0 {
      AuthorRowsFacts(ships, i - 1);
      if HasAuthorId(ships[i - 1]) {
        AddAuthor(ships, i - 1, AuthorRows(ships, i - 1), AuthorOf(ships, i - 1));
      }
    }
  }

  /** Each institution row has its author link at the same index, and every
      link names one of the extracted authors. */
  lemma {:induction false} InstitutionLinksFacts(ships: seq<OaAuthorship>, i: nat)
    requires i <= |ships|
    ensures |InstitutionLinks(ships, i)| == |InstitutionRows(ships, i)|
    ensures forall k :: 0 <= k < |InstitutionLinks(ships, i)| ==>
              InstitutionLinks(ships, i)[k].institutionId == InstitutionRows(ships, i)[k].id
    ensures forall k :: 0 <= k < |InstitutionLinks(ships, i)| ==>
              InstitutionLinks(ships, i)[k].authorId in AuthorIds(AuthorRows(ships, i))
  {
    if i > 0 {
      InstitutionLinksFacts(ships, i - 1);
      var authors := AuthorRows(ships, i - 1);
      if HasAuthorId(ships[i - 1]) {
        var entry := AuthorOf(ships, i - 1);
        assert AuthorIds(authors + [entry]) == AuthorIds(authors) + {entry.id} by {
          assert forall x :: x in authors + [entry] <==> x in authors || x == entry;
        }
        AddLinks(InstitutionRows(ships, i - 1), InstitutionLinks(ships, i - 1), ShipInstitutions(ships[i - 1]),
                 LinksTo(entry.id, ShipInstitutions(ships[i - 1])), AuthorIds(AuthorRows(ships, i)), entry.id);
      }
    }
  }

  lemma AddAuthor(ships: seq<OaAuthorship>, i: nat, authors: seq<AuthorEntry>, entry: AuthorEntry)
    requires i < |ships| && HasAuthorId(ships[i]) && entry == AuthorOf(ships, i)
    requires forall a :: a in authors ==> AuthorFrom(ships, a) && a.position < i
    requires PositionsIncrease(authors)
    ensures forall a :: a in authors + [entry] ==> AuthorFrom(ships, a) && a.position < i + 1
    ensures PositionsIncrease(authors + [entry])
    ensures AuthorIds(authors + [entry]) == AuthorIds(authors) + {entry.id}
    ensures Positions(authors + [entry]) == Positions(authors) + {i}
  {
    var s := authors + [entry];
    forall a, b | 0 <= a < b < |s|
      ensures s[a].position < s[b].position
    {
      assert s[a] == authors[a] && authors[a] in authors;
      if b < |authors| {
        assert s[b] == authors[b];
      }
    }
    assert forall x :: x in s <==> x in authors || x == entry;
  }

  lemma AddLinks(institutions: seq<InstitutionRow>, links: seq<AuthorInstitution>,
                 rows: seq<InstitutionRow>, ls: seq<AuthorInstitution>, ids: set<string>, id: string)
    requires |links| == |institutions| && |ls| == |rows| && id in ids
    requires forall k :: 0 <= k < |links| ==> links[k].institutionId == institutions[k].id
    requires forall k :: 0 <= k < |links| ==> links[k].authorId in ids
    requires ls == LinksTo(id, rows)
    ensures forall k :: 0 <= k < |links + ls| ==> (links + ls)[k].institutionId == (institutions + rows)[k].id
    ensures forall k :: 0 <= k < |links + ls| ==> (links + ls)[k].authorId in ids
  {
  }

  // ---------------------------------------------------------------------
  // Topics
  // ---------------------------------------------------------------------

  /** A row of the topic hierarchy: domains at level 0, fields at 1,
      subfields at 2, topics at 3. The hierarchy rows carry no description
      and a zero works count, the defaults the ingestion fills in. */
  datatype TopicRow = TopicRow(
    id: string,
    name: Option<string>,
    level: nat,
    parentTopicId: Option<string>,
    description: Option<string>,
    worksCount: int)

  datatype TopicLink = TopicLink(topicId: string, score: int, isPrimary: bool)

  function RefId(r: Option<OaRef>): Option<string> {
    if r.Some? then Some(StripOAPrefix(r.value.id)) else None
  }

  function DomainRow(d: OaRef): TopicRow {
    TopicRow(StripOAPrefix(d.id), d.displayName, 0, None, None, 0)
  }

  function FieldRow(t: OaTopic): TopicRow
    requires t.field.Some?
  {
    TopicRow(StripOAPrefix(t.field.value.id), t.field.value.displayName, 1, RefId(t.domain), None, 0)
  }

  function SubfieldRow(t: OaTopic): TopicRow
    requires t.subfield.Some?
  {
    TopicRow(StripOAPrefix(t.subfield.value.id), t.subfield.value.displayName, 2, RefId(t.field), None, 0)
  }

  function TopicLevelRow(t: OaTopic): TopicRow {
    TopicRow(StripOAPrefix(t.id), Some(t.displayName.GetOr("Unknown")), 3, RefId(t.subfield),
             t.description, t.worksCount.GetOr(0))
  }

  /** The rows a topic can contribute: each level's parent is the id of the
      level above it in the same topic, or none. */
  predicate RowOf(r: TopicRow, t: OaTopic) {
    || (t.domain.Some? && r == DomainRow(t.domain.value))
    || (t.field.Some? && r == FieldRow(t))
    || (t.subfield.Some? && r == SubfieldRow(t))
    || r == TopicLevelRow(t)
  }

  function Ids(rows: seq<TopicRow>): set<string> {
    set r | r in rows :: r.id
  }

  /** The ids of the topics proper (level 3). */
  function TopicIds(rows: seq<TopicRow>): set<string> {
    set r | r in rows && r.level == 3 :: r.id
  }

  function LinkIds(links: seq<TopicLink>): set<string> {
    set l | l in links :: l.topicId
  }

  predicate DistinctIds(rows: seq<TopicRow>) {
    forall a, b :: 0 <= a < b < |rows| ==> rows[a].id != rows[b].id
  }

  predicate DistinctLinks(links: seq<TopicLink>) {
    forall a, b :: 0 <= a < b < |links| ==> links[a].topicId != links[b].topicId
  }

  /** Adding a row with a fresh id keeps the ids distinct. */
  lemma PushFresh(rows: seq<TopicRow>, r: TopicRow)
    requires DistinctIds(rows) && r.id !in Ids(rows)
    ensures DistinctIds(rows + [r])
    ensures Ids(rows + [r]) == Ids(rows) + {r.id}
    ensures TopicIds(rows + [r]) == TopicIds(rows) + (if r.level == 3 then {r.id} else {})
  {
    var s := rows + [r];
    forall a, b | 0 <= a < b < |s|
      ensures s[a].id != s[b].id
    {
      assert s[a] == rows[a] && s[a] in rows;
      if b < |rows| {
        assert s[b] == rows[b];
      }
    }
    assert forall x :: x in s <==> x in rows || x == r;
  }

  lemma PushLink(links: seq<TopicLink>, l: TopicLink)
    requires DistinctLinks(links) && l.topicId !in LinkIds(links)
    ensures DistinctLinks(links + [l])
    ensures LinkIds(links + [l]) == LinkIds(links) + {l.topicId}
  {
    var s := links + [l];
    forall a, b | 0 <= a < b < |s|
      ensures s[a].topicId != s[b].topicId
    {
      assert s[a] == links[a] && s[a] in links;
      if b < |links| {
        assert s[b] == links[b];
      }
    }
    assert forall x :: x in s <==> x in links || x == l;
  }

  /** The domain, field and subfield rows a topic names. */
  function HierarchyRows(t: OaTopic): (r: seq<TopicRow>)
    ensures forall x :: x in r ==> RowOf(x, t) && x.level < 3
  {
    (if t.domain.Some? then [DomainRow(t.domain.value)] else [])
    + (if t.field.Some? then [FieldRow(t)] else [])
    + (if t.subfield.Some? then [SubfieldRow(t)] else [])
  }

  /** Every row the topics can contribute, topic by topic. */
  function CandidateRows(ts: seq<OaTopic>): seq<TopicRow> {
    if ts == [] then []
    else CandidateRows(ts[..|ts| - 1]) + HierarchyRows(ts[|ts| - 1]) + [TopicLevelRow(ts[|ts| - 1])]
  }

  /** A candidate row belongs to the hierarchy of one of the topics. */
  lemma {:induction false} CandidateRowsBelong(ts: seq<OaTopic>, r: TopicRow)
    requires r in CandidateRows(ts)
    ensures exists j :: 0 <= j < |ts| && RowOf(r, ts[j])
  {
    var n := |ts| - 1;
    if r in CandidateRows(ts[..n]) {
      CandidateRowsBelong(ts[..n], r);
      var j :| 0 <= j < n && RowOf(r, ts[..n][j]);
      assert ts[..n][j] == ts[j];
    } else {
      assert RowOf(r, ts[n]);
    }
  }

  /** The state of the walk over the topics: the rows and links emitted so
      far and the ids seen, one set for all four levels. */
  datatype TopicWalkState = TopicWalkState(rows: seq<TopicRow>, links: seq<TopicLink>, seen: set<string>)

  /** A hierarchy row is emitted only when its id is unseen; its id is
      seen afterwards either way. */
  function PushIfUnseen(rows: seq<TopicRow>, seen: set<string>, r: TopicRow): (seq<TopicRow>, set<string>) {
    if r.id in seen then (rows, seen) else (rows + [r], seen + {r.id})
  }

  /** The domain, then the field, then the subfield of a topic, each
      through the seen set. */
  function HierarchyStep(t: OaTopic, rows: seq<TopicRow>, seen: set<string>): (seq<TopicRow>, set<string>) {
    var d := if t.domain.Some? then PushIfUnseen(rows, seen, DomainRow(t.domain.value)) else (rows, seen);
    var f := if t.field.Some? then PushIfUnseen(d.0, d.1, FieldRow(t)) else d;
    if t.subfield.Some? then PushIfUnseen(f.0, f.1, SubfieldRow(t)) else f
  }

  /** The ids of the domain, field and subfield a topic names. */
  function HierarchyIds(t: OaTopic): set<string> {
    (if t.domain.Some? then {StripOAPrefix(t.domain.value.id)} else {})
    + (if t.field.Some? then {StripOAPrefix(t.field.value.id)} else {})
    + (if t.subfield.Some? then {StripOAPrefix(t.subfield.value.id)} else {})
  }

  /** Topic `i` of the walk: skipped when its id was seen; otherwise its id
      is marked seen first, then its hierarchy, its own row and its link
      (score defaulting to 0, primary exactly for index 0) follow. */
  function TopicStep(ts: seq<OaTopic>, i: nat, st: TopicWalkState): TopicWalkState
    requires i < |ts|
  {
    var topicId := StripOAPrefix(ts[i].id);
    if topicId in st.seen then st
    else
      var h := HierarchyStep(ts[i], st.rows, st.seen + {topicId});
      TopicWalkState(h.0 + [TopicLevelRow(ts[i])],
                     st.links + [TopicLink(topicId, ts[i].score.GetOr(0), i == 0)], h.1)
  }

  /** The walk over the first `i` topics. */
  function TopicWalk(ts: seq<OaTopic>, i: nat): TopicWalkState
    requires i <= |ts|
  {
    if i == 0 then TopicWalkState([], [], {}) else TopicStep(ts, i - 1, TopicWalk(ts, i - 1))
  }

  /** Topic `j` is walked (not skipped): its id was not seen before it. */
  predicate Walked(ts: seq<OaTopic>, j: nat)
    requires j < |ts|
  {
    StripOAPrefix(ts[j].id) !in TopicWalk(ts, j).seen
  }

  lemma IdsPush(rows: seq<TopicRow>, r: TopicRow)
    ensures Ids(rows + [r]) == Ids(rows) + {r.id}
  {
    assert forall x :: x in rows + [r] <==> x in rows || x == r;
  }

  /** The hierarchy step only appends rows, marks exactly the hierarchy
      ids as seen, and keeps the seen set equal to the emitted ids plus
      `extra`. */
  lemma HierarchyStepGrows(t: OaTopic, rows: seq<TopicRow>, seen: set<string>)
    ensures rows <= HierarchyStep(t, rows, seen).0
    ensures HierarchyStep(t, rows, seen).1 == seen + HierarchyIds(t)
  {
  }

  lemma HierarchyStepFacts(t: OaTopic, rows: seq<TopicRow>, seen: set<string>, extra: set<string>)
    requires seen == Ids(rows) + extra
    ensures HierarchyStep(t, rows, seen).1 == Ids(HierarchyStep(t, rows, seen).0) + extra
  {
    var d := if t.domain.Some? then PushIfUnseen(rows, seen, DomainRow(t.domain.value)) else (rows, seen);
    if t.domain.Some? { IdsPush(rows, DomainRow(t.domain.value)); }
    var f := if t.field.Some? then PushIfUnseen(d.0, d.1, FieldRow(t)) else d;
    if t.field.Some? { IdsPush(d.0, FieldRow(t)); }
    if t.subfield.Some? { IdsPush(f.0, SubfieldRow(t)); }
  }

  /** The walk only grows: rows and links are extended, the seen set
      enlarged. */
  lemma {:induction false} TopicWalkGrows(ts: seq<OaTopic>, j: nat, i: nat)
    requires j <= i <= |ts|
    ensures TopicWalk(ts, j).rows <= TopicWalk(ts, i).rows
    ensures TopicWalk(ts, j).links <= TopicWalk(ts, i).links
    ensures TopicWalk(ts, j).seen <= TopicWalk(ts, i).seen
  {
    if j < i {
      TopicWalkGrows(ts, j, i - 1);
      var st := TopicWalk(ts, i - 1);
      var topicId := StripOAPrefix(ts[i - 1].id);
      if topicId !in st.seen {
        HierarchyStepGrows(ts[i - 1], st.rows, st.seen + {topicId});
      }
    }
  }

  /** The seen set is exactly the set of emitted ids, and every topic id
      met so far is in it. */
  lemma {:induction false} TopicWalkSeen(ts: seq<OaTopic>, i: nat)
    requires i <= |ts|
    ensures TopicWalk(ts, i).seen == Ids(TopicWalk(ts, i).rows)
    ensures forall k :: 0 <= k < i ==> StripOAPrefix(ts[k].id) in TopicWalk(ts, i).seen
  {
    TopicWalkSeenIds(ts, i);
    TopicWalkMetSeen(ts, i);
  }

  lemma {:induction false} TopicWalkSeenIds(ts: seq<OaTopic>, i: nat)
    requires i <= |ts|
    ensures TopicWalk(ts, i).seen == Ids(TopicWalk(ts, i).rows)
  {
    if i > 0 {
      TopicWalkSeenIds(ts, i - 1);
      var st := TopicWalk(ts, i - 1);
      var topicId := StripOAPrefix(ts[i - 1].id);
      if topicId !in st.seen {
        var h := HierarchyStep(ts[i - 1], st.rows, st.seen + {topicId});
        HierarchyStepFacts(ts[i - 1], st.rows, st.seen + {topicId}, {topicId});
        assert h.1 == Ids(h.0) + {topicId};
        IdsPush(h.0, TopicLevelRow(ts[i - 1]));
        assert TopicWalk(ts, i).rows == h.0 + [TopicLevelRow(ts[i - 1])];
      }
    }
  }

  lemma {:induction false} TopicWalkMetSeen(ts: seq<OaTopic>, i: nat)
    requires i <= |ts|
    ensures forall k :: 0 <= k < i ==> StripOAPrefix(ts[k].id) in TopicWalk(ts, i).seen
  {
    if i > 0 {
      TopicWalkMetSeen(ts, i - 1);
      var st := TopicWalk(ts, i - 1);
      var topicId := StripOAPrefix(ts[i - 1].id);
      if topicId !in st.seen {
        HierarchyStepGrows(ts[i - 1], st.rows, st.seen + {topicId});
      }
      assert st.seen + {topicId} <= TopicWalk(ts, i).seen;
    }
  }

  /** A walked topic leaves its link at the index the links had reached
      before it, with the topic's score (0 when absent) and primary exactly
      when it is the first topic; its own row is emitted, and so are rows
      for every domain, field and subfield it names. */
  lemma TopicWalked(ts: seq<OaTopic>, j: nat, i: nat)
    requires j < i <= |ts| && Walked(ts, j)
    ensures var n := |TopicWalk(ts, j).links|;
            n < |TopicWalk(ts, i).links|
            && TopicWalk(ts, i).links[n] == TopicLink(StripOAPrefix(ts[j].id), ts[j].score.GetOr(0), j == 0)
    ensures TopicLevelRow(ts[j]) in TopicWalk(ts, i).rows
    ensures HierarchyIds(ts[j]) <= Ids(TopicWalk(ts, i).rows)
  {
    WalkedLink(ts, j, i);
    WalkedRows(ts, j, i);
  }

  lemma WalkedLink(ts: seq<OaTopic>, j: nat, i: nat)
    requires j < i <= |ts| && Walked(ts, j)
    ensures var n := |TopicWalk(ts, j).links|;
            n < |TopicWalk(ts, i).links|
            && TopicWalk(ts, i).links[n] == TopicLink(StripOAPrefix(ts[j].id), ts[j].score.GetOr(0), j == 0)
  {
    var before, next, last := TopicWalk(ts, j), TopicWalk(ts, j + 1), TopicWalk(ts, i);
    WalkedStep(ts, j);
    TopicWalkGrows(ts, j + 1, i);
    assert next.links <= last.links;
    assert next.links[|before.links|] == TopicLink(StripOAPrefix(ts[j].id), ts[j].score.GetOr(0), j == 0);
  }

  lemma WalkedRows(ts: seq<OaTopic>, j: nat, i: nat)
    requires j < i <= |ts| && Walked(ts, j)
    ensures TopicLevelRow(ts[j]) in TopicWalk(ts, i).rows
    ensures HierarchyIds(ts[j]) <= Ids(TopicWalk(ts, i).rows)
  {
    WalkedOwnRow(ts, j, i);
    WalkedHierarchy(ts, j, i);
  }

  lemma WalkedOwnRow(ts: seq<OaTopic>, j: nat, i: nat)
    requires j < i <= |ts| && Walked(ts, j)
    ensures TopicLevelRow(ts[j]) in TopicWalk(ts, i).rows
  {
    WalkedStep(ts, j);
    TopicWalkGrows(ts, j + 1, i);
    LastRowKept(TopicWalk(ts, j + 1).rows, TopicWalk(ts, i).rows, TopicLevelRow(ts[j]));
  }

  lemma LastRowKept(a: seq<TopicRow>, b: seq<TopicRow>, x: TopicRow)
    requires a != [] && a[|a| - 1] == x && a <= b
    ensures x in b
  {
    assert b[|a| - 1] == x;
  }

  lemma WalkedHierarchy(ts: seq<OaTopic>, j: nat, i: nat)
    requires j < i <= |ts| && Walked(ts, j)
    ensures HierarchyIds(ts[j]) <= Ids(TopicWalk(ts, i).rows)
  {
    var next, last := TopicWalk(ts, j + 1), TopicWalk(ts, i);
    WalkedStep(ts, j);
    assert HierarchyIds(ts[j]) <= next.seen;
    TopicWalkGrows(ts, j + 1, i);
    assert next.seen <= last.seen;
    TopicWalkSeen(ts, i);
    assert last.seen == Ids(last.rows);
  }

  /** The step of a walked topic appends exactly its link, emits its row
      and sees its hierarchy. */
  lemma WalkedStep(ts: seq<OaTopic>, j: nat)
    requires j < |ts| && Walked(ts, j)
    ensures TopicWalk(ts, j + 1).links
              == TopicWalk(ts, j).links + [TopicLink(StripOAPrefix(ts[j].id), ts[j].score.GetOr(0), j == 0)]
    ensures TopicWalk(ts, j + 1).rows != [] && TopicWalk(ts, j + 1).rows[|TopicWalk(ts, j + 1).rows| - 1] == TopicLevelRow(ts[j])
    ensures HierarchyIds(ts[j]) <= TopicWalk(ts, j + 1).seen
  {
    var st := TopicWalk(ts, j);
    var topicId := StripOAPrefix(ts[j].id);
    HierarchyStepGrows(ts[j], st.rows, st.seen + {topicId});
    var h := HierarchyStep(ts[j], st.rows, st.seen + {topicId});
    assert TopicWalk(ts, j + 1).rows == h.0 + [TopicLevelRow(ts[j])];
  }

  /** Links come in topic order: a walked topic's link precedes the links
      of every later topic. */
  lemma LinksInTopicOrder(ts: seq<OaTopic>, j: nat, k: nat)
    requires j < k <= |ts| && Walked(ts, j)
    ensures |TopicWalk(ts, j).links| < |TopicWalk(ts, k).links|
  {
    TopicWalkGrows(ts, j + 1, k);
  }

  /** The first topic is always walked, and its link is the first, and the
      primary one. */
  lemma FirstTopicPrimary(ts: seq<OaTopic>)
    requires ts != []
    ensures var links := TopicWalk(ts, |ts|).links;
            links != [] && links[0] == TopicLink(StripOAPrefix(ts[0].id), ts[0].score.GetOr(0), true)
  {
    TopicWalked(ts, 0, |ts|);
  }

  /** What the walk over the first `i` topics has built: the seen set is
      the set of emitted ids, which are distinct; every row belongs to the
      hierarchy of a topic walked so far; every walked topic's id has been
      seen; there is exactly one link per emitted topic; only a link made
      from the first topic is primary. */
  predicate TopicsInvariant(ts: seq<OaTopic>, i: nat, rows: seq<TopicRow>, links: seq<TopicLink>, seen: set<string>)
    requires i <= |ts|
  {
    RowsInvariant(ts, i, rows, seen) && LinksInvariant(ts, i, rows, links)
  }

  predicate RowsInvariant(ts: seq<OaTopic>, i: nat, rows: seq<TopicRow>, seen: set<string>)
    requires i <= |ts|
  {
    && seen == Ids(rows)
    && DistinctIds(rows)
    && (forall r :: r in rows ==> r in CandidateRows(ts[..i]))
    && (forall j :: 0 <= j < i ==> StripOAPrefix(ts[j].id) in seen)
  }

  predicate LinksInvariant(ts: seq<OaTopic>, i: nat, rows: seq<TopicRow>, links: seq<TopicLink>)
    requires i <= |ts|
  {
    && DistinctLinks(links)
    && |links| <= i
    && LinkIds(links) == TopicIds(rows)
    && (forall k :: 0 <= k < |links| && links[k].isPrimary ==> k == 0 && 0 < i && links[k].topicId == StripOAPrefix(ts[0].id))
  }


  /** Adds the hierarchy row `r` to the rows and its id to the seen set
      unless the id was seen before; `extra` are ids seen without a row. */
  method PushUnseen(rows: seq<TopicRow>, seen: set<string>, ghost extra: set<string>, r: TopicRow)
    returns (rows': seq<TopicRow>, seen': set<string>)
    requires seen == Ids(rows) + extra && DistinctIds(rows)
    requires r.level < 3
    ensures seen' == Ids(rows') + extra && DistinctIds(rows')
    ensures seen' == seen + {r.id}
    ensures (rows', seen') == PushIfUnseen(rows, seen, r)
    ensures Ids(rows') == if r.id in seen then Ids(rows) else Ids(rows) + {r.id}
    ensures TopicIds(rows') == TopicIds(rows)
    ensures forall x :: x in rows' ==> x in rows || x == r
  {
    if r.id in seen {
      return rows, seen;
    }
    PushFresh(rows, r);
    rows', seen' := rows + [r], seen + {r.id};
  }

  /** The domain, field and subfield rows of one topic, each added when its
      id is new; the topic's own id counts as seen beforehand. */
  method PushHierarchy(t: OaTopic, rows: seq<TopicRow>, seen: set<string>)
    returns (rows': seq<TopicRow>, seen': set<string>)
    requires seen == Ids(rows) + {StripOAPrefix(t.id)} && DistinctIds(rows)
    ensures seen' == Ids(rows') + {StripOAPrefix(t.id)} && DistinctIds(rows')
    ensures seen <= seen'
    ensures StripOAPrefix(t.id) !in Ids(rows) ==> StripOAPrefix(t.id) !in Ids(rows')
    ensures forall r :: r in rows' ==> r in rows || r in HierarchyRows(t)
    ensures TopicIds(rows') == TopicIds(rows)
    ensures (rows', seen') == HierarchyStep(t, rows, seen)
  {
    ghost var extra := {StripOAPrefix(t.id)};
    rows', seen' := rows, seen;
    if t.domain.Some? {
      rows', seen' := PushUnseen(rows', seen', extra, DomainRow(t.domain.value));
    }
    if t.field.Some? {
      rows', seen' := PushUnseen(rows', seen', extra, FieldRow(t));
    }
    if t.subfield.Some? {
      rows', seen' := PushUnseen(rows', seen', extra, SubfieldRow(t));
    }
  }

  /** One step of the walk: a topic whose id was seen adds nothing; any
      other topic adds its unseen hierarchy rows, its own row and its link. */
  method WalkTopic(ts: seq<OaTopic>, i: nat, rows: seq<TopicRow>, links: seq<TopicLink>, seen: set<string>)
    returns (rows': seq<TopicRow>, links': seq<TopicLink>, seen': set<string>)
    requires i < |ts| && TopicsInvariant(ts, i, rows, links, seen)
    ensures TopicsInvariant(ts, i + 1, rows', links', seen')
    ensures TopicWalkState(rows', links', seen') == TopicStep(ts, i, TopicWalkState(rows, links, seen))
  {
    var topicId := StripOAPrefix(ts[i].id);
    if topicId in seen {
      SkipTopic(ts, i, rows, links, seen);
      return rows, links, seen;
    }
    var t := ts[i];
    rows', seen' := PushHierarchy(t, rows, seen + {topicId});
    var link := TopicLink(topicId, t.score.GetOr(0), i == 0);
    PushFresh(rows', TopicLevelRow(t));
    PushLink(links, link);
    AddTopicRows(ts, i, rows, seen, rows', seen');
    AddTopicLinks(ts, i, rows, links, rows' + [TopicLevelRow(t)], link);
    rows' := rows' + [TopicLevelRow(t)];
    links' := links + [link];
  }

  lemma SkipTopic(ts: seq<OaTopic>, i: nat, rows: seq<TopicRow>, links: seq<TopicLink>, seen: set<string>)
    requires i < |ts| && TopicsInvariant(ts, i, rows, links, seen)
    requires StripOAPrefix(ts[i].id) in seen
    ensures TopicsInvariant(ts, i + 1, rows, links, seen)
  {
    CandidateRowsUnfold(ts, i);
  }

  /** The rows after the hierarchy of a new topic, `mid`, followed by the
      topic's own row and link, keep the invariant one topic further. */
  lemma AddTopicRows(ts: seq<OaTopic>, i: nat, rows: seq<TopicRow>, seen: set<string>,
                     mid: seq<TopicRow>, seenMid: set<string>)
    requires i < |ts| && RowsInvariant(ts, i, rows, seen)
    requires seenMid == Ids(mid) + {StripOAPrefix(ts[i].id)} && seen <= seenMid
    requires forall r :: r in mid ==> r in rows || r in HierarchyRows(ts[i])
    requires DistinctIds(mid + [TopicLevelRow(ts[i])])
    requires Ids(mid + [TopicLevelRow(ts[i])]) == Ids(mid) + {StripOAPrefix(ts[i].id)}
    ensures RowsInvariant(ts, i + 1, mid + [TopicLevelRow(ts[i])], seenMid)
  {
    CandidatesGrow(ts, i, rows, mid);
    forall j | 0 <= j < i + 1
      ensures StripOAPrefix(ts[j].id) in seenMid
    {
      if j < i {
        assert StripOAPrefix(ts[j].id) in seen;
      }
    }
    assert seenMid == Ids(mid + [TopicLevelRow(ts[i])]);
  }

  lemma AddTopicLinks(ts: seq<OaTopic>, i: nat, rows: seq<TopicRow>, links: seq<TopicLink>,
                      rows': seq<TopicRow>, l: TopicLink)
    requires i < |ts| && LinksInvariant(ts, i, rows, links)
    requires l == TopicLink(StripOAPrefix(ts[i].id), ts[i].score.GetOr(0), i == 0)
    requires TopicIds(rows') == TopicIds(rows) + {l.topicId}
    requires DistinctLinks(links + [l]) && LinkIds(links + [l]) == LinkIds(links) + {l.topicId}
    ensures LinksInvariant(ts, i + 1, rows', links + [l])
  {
    PrimaryStays(ts, i, links, l);
  }

  lemma CandidatesGrow(ts: seq<OaTopic>, i: nat, rows: seq<TopicRow>, mid: seq<TopicRow>)
    requires i < |ts|
    requires forall r :: r in rows ==> r in CandidateRows(ts[..i])
    requires forall r :: r in mid ==> r in rows || r in HierarchyRows(ts[i])
    ensures forall r :: r in mid + [TopicLevelRow(ts[i])] ==> r in CandidateRows(ts[..i + 1])
  {
    CandidateRowsUnfold(ts, i);
  }

  lemma PrimaryStays(ts: seq<OaTopic>, i: nat, links: seq<TopicLink>, l: TopicLink)
    requires i < |ts| && |links| <= i
    requires forall k :: 0 <= k < |links| && links[k].isPrimary ==> k == 0 && 0 < i && links[k].topicId == StripOAPrefix(ts[0].id)
    requires l.isPrimary == (i == 0) && l.topicId == StripOAPrefix(ts[i].id)
    ensures forall k :: 0 <= k < |links + [l]| && (links + [l])[k].isPrimary ==>
              k == 0 && 0 < i + 1 && (links + [l])[k].topicId == StripOAPrefix(ts[0].id)
  {
    var ls := links + [l];
    forall k | 0 <= k < |ls| && ls[k].isPrimary
      ensures k == 0 && ls[k].topicId == StripOAPrefix(ts[0].id)
    {
      if k < |links| {
        assert ls[k] == links[k];
      }
    }
  }


  lemma CandidateRowsUnfold(ts: seq<OaTopic>, i: nat)
    requires i < |ts|
    ensures CandidateRows(ts[..i + 1]) == CandidateRows(ts[..i]) + HierarchyRows(ts[i]) + [TopicLevelRow(ts[i])]
  {
    assert ts[..i + 1][..i] == ts[..i];
  }

  /** `extractTopics`: walks the topics once with a single set of seen ids
      shared by all four levels. */
  method ExtractTopics(w: OaWork) returns (allTopics: seq<TopicRow>, links: seq<TopicLink>)
    ensures var ts := w.topics.GetOr([]);
            TopicsInvariant(ts, |ts|, allTopics, links, Ids(allTopics))
    ensures var ts := w.topics.GetOr([]);
            forall r :: r in allTopics ==> exists j :: 0 <= j < |ts| && RowOf(r, ts[j])
    ensures var ts := w.topics.GetOr([]);
            allTopics == TopicWalk(ts, |ts|).rows && links == TopicWalk(ts, |ts|).links
    ensures var ts := w.topics.GetOr([]);
            ts != [] ==> links != [] && links[0] == TopicLink(StripOAPrefix(ts[0].id), ts[0].score.GetOr(0), true)
  {
    var ts := w.topics.GetOr([]);
    var seen: set<string> := {};
    allTopics, links := [], [];
    var i := 0;
    while i < |ts|
      invariant 0 <= i <= |ts|
      invariant TopicsInvariant(ts, i, allTopics, links, seen)
      invariant TopicWalkState(allTopics, links, seen) == TopicWalk(ts, i)
    {
      allTopics, links, seen := WalkTopic(ts, i, allTopics, links, seen);
      i := i + 1;
    }
    assert i == |ts| && TopicWalkState(allTopics, links, seen) == TopicWalk(ts, |ts|);
    if ts != [] {
      FirstTopicPrimary(ts);
    }
    assert ts[..i] == ts;
    assert forall r :: r in allTopics ==> r in CandidateRows(ts);
    RowsBelong(ts, allTopics);
  }

  /** Rows drawn from the candidates each belong to some topic. */
  lemma RowsBelong(ts: seq<OaTopic>, rows: seq<TopicRow>)
    requires forall r :: r in rows ==> r in CandidateRows(ts)
    ensures forall r :: r in rows ==> exists j :: 0 <= j < |ts| && RowOf(r, ts[j])
  {
    forall r | r in rows
      ensures exists j :: 0 <= j < |ts| && RowOf(r, ts[j])
    {
      CandidateRowsBelong(ts, r);
    }
  }

  // ---------------------------------------------------------------------
  // Source and funders
  // ---------------------------------------------------------------------

  datatype SourceRow = SourceRow(
    id: string,
    name: string,
    sourceType: Option<string>,
    issn: Option<seq<string>>,
    isOa: bool,
    homepageUrl: Option<string>,
    hostOrganizationName: Option<string>,
    apcUsd: Option<int>)

  /** `extractSource`: none unless the primary location has a source with a
      non-empty id. */
  function ExtractSource(w: OaWork): (r: Option<SourceRow>)
    ensures r.None? <==> !(w.primaryLocation.Some? && w.primaryLocation.value.source.Some?
                           && HasText(w.primaryLocation.value.source.value.id))
    ensures r.Some? ==> r.value.id == StripOAPrefix(w.primaryLocation.value.source.value.id.value)
    ensures r.Some? ==> Some(r.value.id) == SourceColumns(w).0
  {
    if w.primaryLocation.Some? && w.primaryLocation.value.source.Some? && HasText(w.primaryLocation.value.source.value.id) then
      var src := w.primaryLocation.value.source.value;
      Some(SourceRow(StripOAPrefix(src.id.value), src.displayName.GetOr("Unknown"), src.sourceType, src.issn,
                     src.isOa.GetOr(false), src.homepageUrl, src.hostOrganizationName, src.apcUsd))
    else None
  }

  datatype FunderRow = FunderRow(id: string, name: string, countryCode: Option<string>)

  datatype FunderLink = FunderLink(funderId: string, awardId: Option<string>)

  function Grants(w: OaWork): seq<OaGrant> {
    w.grants.GetOr([])
  }

  predicate HasFunderId(g: OaGrant) {
    g.funder.Some? && HasText(g.funder.value.id)
  }

  function FunderIdOf(g: OaGrant): string
    requires HasFunderId(g)
  {
    StripOAPrefix(g.funder.value.id.value)
  }

  /** The grants with a funder id, as links. */
  function FunderLinks(gs: seq<OaGrant>): seq<FunderLink> {
    if gs == [] then []
    else
      var n := |gs| - 1;
      FunderLinks(gs[..n]) + (if HasFunderId(gs[n]) then [FunderLink(FunderIdOf(gs[n]), gs[n].awardId)] else [])
  }

  function FunderIds(funders: seq<FunderRow>): set<string> {
    set f | f in funders :: f.id
  }

  function LinkFunderIds(links: seq<FunderLink>): set<string> {
    set l | l in links :: l.funderId
  }

  /** The funder row a grant's funder gives: the name defaults to
      "Unknown", an absent country code stays null. */
  function FunderRowOf(g: OaGrant): FunderRow
    requires HasFunderId(g)
  {
    FunderRow(FunderIdOf(g), g.funder.value.displayName.GetOr("Unknown"), g.funder.value.countryCode)
  }

  /** The funder rows of the first `i` grants: a grant with a funder id
      adds its row unless a row with that id is already there. */
  function FunderRows(gs: seq<OaGrant>, i: nat): seq<FunderRow>
    requires i <= |gs|
  {
    if i == 0 then []
    else
      var prev := FunderRows(gs, i - 1);
      if HasFunderId(gs[i - 1]) && FunderIdOf(gs[i - 1]) !in FunderIds(prev) then prev + [FunderRowOf(gs[i - 1])]
      else prev
  }

  /** Grant `j` is the first grant naming its funder. */
  predicate FirstOfFunder(gs: seq<OaGrant>, j: nat)
    requires j < |gs|
  {
    HasFunderId(gs[j]) && forall k :: 0 <= k < j && HasFunderId(gs[k]) ==> FunderIdOf(gs[k]) != FunderIdOf(gs[j])
  }

  /** The funder ids of the first `i` grants. */
  function GrantFunderIds(gs: seq<OaGrant>, i: nat): set<string>
    requires i <= |gs|
  {
    set k | 0 <= k < i && HasFunderId(gs[k]) :: FunderIdOf(gs[k])
  }

  /** The ids of the funder rows are the funder ids of the grants. */
  lemma {:induction false} FunderRowsIds(gs: seq<OaGrant>, i: nat)
    requires i <= |gs|
    ensures FunderIds(FunderRows(gs, i)) == GrantFunderIds(gs, i)
  {
    if i > 0 {
      FunderRowsIds(gs, i - 1);
      var prev := FunderRows(gs, i - 1);
      var n := i - 1;
      assert GrantFunderIds(gs, i) == GrantFunderIds(gs, n) + (if HasFunderId(gs[n]) then {FunderIdOf(gs[n])} else {});
      if HasFunderId(gs[n]) && FunderIdOf(gs[n]) !in FunderIds(prev) {
        var row := FunderRowOf(gs[n]);
        assert forall x :: x in prev + [row] <==> x in prev || x == row;
      }
    }
  }

  /** A grant adds a funder row exactly when it is the first grant naming
      its funder. */
  lemma FunderRowsStep(gs: seq<OaGrant>, n: nat)
    requires n < |gs|
    ensures FunderRows(gs, n + 1) ==
              if FirstOfFunder(gs, n) then FunderRows(gs, n) + [FunderRowOf(gs[n])] else FunderRows(gs, n)
  {
    FunderRowsIds(gs, n);
    if HasFunderId(gs[n]) && FunderIdOf(gs[n]) in FunderIds(FunderRows(gs, n)) {
      assert FunderIdOf(gs[n]) in GrantFunderIds(gs, n);
      var k :| 0 <= k < n && HasFunderId(gs[k]) && FunderIdOf(gs[k]) == FunderIdOf(gs[n]);
      assert !FirstOfFunder(gs, n);
    } else if HasFunderId(gs[n]) {
      assert FunderIdOf(gs[n]) !in GrantFunderIds(gs, n);
      forall k | 0 <= k < n && HasFunderId(gs[k])
        ensures FunderIdOf(gs[k]) != FunderIdOf(gs[n])
      {
        assert FunderIdOf(gs[k]) in GrantFunderIds(gs, n);
      }
    }
  }

  /** The funder rows are the first-seen de-duplication of the grants'
      funders: their ids are every funder id among the grants, each row is
      the row of the first grant naming its funder, and the first grant
      naming a funder always has its row there. */
  lemma {:induction false} FunderRowsFirstSeen(gs: seq<OaGrant>, i: nat)
    requires i <= |gs|
    ensures FunderIds(FunderRows(gs, i)) == GrantFunderIds(gs, i)
    ensures forall f :: f in FunderRows(gs, i) ==> exists j :: 0 <= j < i && FirstOfFunder(gs, j) && f == FunderRowOf(gs[j])
    ensures forall j :: 0 <= j < i && FirstOfFunder(gs, j) ==> FunderRowOf(gs[j]) in FunderRows(gs, i)
  {
    FunderRowsIds(gs, i);
    FunderRowsSound(gs, i);
    FunderRowsComplete(gs, i);
  }

  lemma {:induction false} FunderRowsSound(gs: seq<OaGrant>, i: nat)
    requires i <= |gs|
    ensures forall f :: f in FunderRows(gs, i) ==> exists j :: 0 <= j < i && FunderRowFrom(gs, j, f)
  {
    if i > 0 {
      FunderRowsSound(gs, i - 1);
      forall f | f in FunderRows(gs, i)
        ensures exists j :: 0 <= j < i && FunderRowFrom(gs, j, f)
      {
        FunderRowOrigin(gs, i - 1, f);
        if f in FunderRows(gs, i - 1) {
          var j :| 0 <= j < i - 1 && FunderRowFrom(gs, j, f);
          assert FunderRowFrom(gs, j, f);
        } else {
          assert FunderRowFrom(gs, i - 1, f);
        }
      }
    }
  }

  /** Row `f` is the row of grant `j`, the first grant naming its funder. */
  predicate FunderRowFrom(gs: seq<OaGrant>, j: nat, f: FunderRow)
    requires j < |gs|
  {
    FirstOfFunder(gs, j) && f == FunderRowOf(gs[j])
  }

  /** A row present after grant `n` was there before it, or is grant `n`'s
      own row and grant `n` is the first naming its funder. */
  lemma FunderRowOrigin(gs: seq<OaGrant>, n: nat, f: FunderRow)
    requires n < |gs| && f in FunderRows(gs, n + 1)
    ensures f in FunderRows(gs, n) || (FirstOfFunder(gs, n) && f == FunderRowOf(gs[n]))
  {
    FunderRowsStep(gs, n);
  }

  lemma {:induction false} FunderRowsComplete(gs: seq<OaGrant>, i: nat)
    requires i <= |gs|
    ensures forall j :: 0 <= j < i && FirstOfFunder(gs, j) ==> FunderRowOf(gs[j]) in FunderRows(gs, i)
  {
    if i > 0 {
      FunderRowsComplete(gs, i - 1);
      FunderRowsStep(gs, i - 1);
    }
  }

  /** `extractFunders`: one funder row per distinct funder id, in first-seen
      order, and one link per grant with a funder id; the rows and the
      links name the same funders. */
  method ExtractFunders(w: OaWork) returns (funders: seq<FunderRow>, links: seq<FunderLink>)
    ensures links == FunderLinks(Grants(w))
    ensures funders == FunderRows(Grants(w), |Grants(w)|)
    ensures forall a, b :: 0 <= a < b < |funders| ==> funders[a].id != funders[b].id
    ensures FunderIds(funders) == LinkFunderIds(links)
  {
    var gs := Grants(w);
    var seen: set<string> := {};
    funders, links := [], [];
    var i := 0;
    while i < |gs|
      invariant 0 <= i <= |gs|
      invariant links == FunderLinks(gs[..i])
      invariant seen == FunderIds(funders) == LinkFunderIds(links)
      invariant funders == FunderRows(gs, i)
    {
      var g := gs[i];
      assert gs[..i + 1][..i] == gs[..i];
      if HasFunderId(g) {
        var funderId := FunderIdOf(g);
        if funderId !in seen {
          var row := FunderRow(funderId, g.funder.value.displayName.GetOr("Unknown"), g.funder.value.countryCode);
          assert FunderIds(funders + [row]) == FunderIds(funders) + {funderId};
          seen := seen + {funderId};
          funders := funders + [row];
        }
        var link := FunderLink(funderId, g.awardId);
        assert LinkFunderIds(links + [link]) == LinkFunderIds(links) + {funderId};
        links := links + [link];
      }
      i := i + 1;
    }
    assert gs[..i] == gs;
    FunderRowsDistinct(gs, i);
  }

  /** No two funder rows share an id. */
  lemma {:induction false} FunderRowsDistinct(gs: seq<OaGrant>, i: nat)
    requires i <= |gs|
    ensures forall a, b :: 0 <= a < b < |FunderRows(gs, i)| ==> FunderRows(gs, i)[a].id != FunderRows(gs, i)[b].id
  {
    if i > 0 {
      FunderRowsDistinct(gs, i - 1);
      var prev := FunderRows(gs, i - 1);
      var rows := FunderRows(gs, i);
      if rows != prev {
        forall a, b | 0 <= a < b < |rows|
          ensures rows[a].id != rows[b].id
        {
          assert rows[a] == prev[a] && prev[a] in prev;
          if b < |prev| {
            assert rows[b] == prev[b];
          }
        }
      }
    }
  }

  /** Two grants from one funder give one funder row but two links with the
      same funder id. */
  lemma RepeatedFunderGivesRepeatedLinks(f: OaFunder, a1: Option<string>, a2: Option<string>)
    requires HasText(f.id)
    ensures var gs := [OaGrant(Some(f), a1), OaGrant(Some(f), a2)];
            var links := FunderLinks(gs);
            |links| == 2 && links[0].funderId == links[1].funderId
  {
    var gs := [OaGrant(Some(f), a1), OaGrant(Some(f), a2)];
    assert gs[..1][..0] == [];
    assert FunderLinks(gs[..1]) == [FunderLink(FunderIdOf(gs[0]), a1)];
  }
}
