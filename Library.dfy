/** The library's stored rows and the work-with-relations view the web
    application reads back (`types/database.ts`, `types/app.ts`): a work
    row, its authors in the order the junction gives them, its topics, and
    whether the current user saved it. The JSON pass-through columns are
    not represented. */
module Library {
  import opened Text

  /** A row of the `works` table. */
  datatype WorkRow = WorkRow(
    id: string,
    title: string,
    abstractText: Option<string>,
    year: Option<int>,
    doi: Option<string>,
    citedByCount: Option<int>,
    publicationDate: Option<string>,
    workType: Option<string>,
    language: Option<string>,
    isRetracted: bool,
    isOpenAccess: bool,
    openAccessUrl: Option<string>,
    relatedWorkIds: Option<seq<string>>,
    isStub: bool,
    sourceId: Option<string>,
    sourceDisplayName: Option<string>,
    summary: Option<string>,
    citationsFetched: bool)

  /** An author of a work as the view lists it: the author row's columns
      and the junction's position and corresponding flag. */
  datatype AuthorRef = AuthorRef(
    id: string,
    displayName: string,
    orcid: Option<string>,
    position: Option<int>,
    isCorresponding: Option<bool>)

  /** A topic of a work: the topic row's columns and the junction's score
      and primary flag. */
  datatype TopicRef = TopicRef(
    id: string,
    name: Option<string>,
    level: int,
    score: Option<int>,
    isPrimary: Option<bool>)

  /** `WorkWithRelations`; `isSaved` is absent unless a user was given. */
  datatype WorkWithRelations = WorkWithRelations(
    work: WorkRow,
    authors: seq<AuthorRef>,
    topics: seq<TopicRef>,
    isSaved: Option<bool>)
}
