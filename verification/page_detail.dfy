/** `From<CitingDaum> for CitingListRowTemplate`: one row of a citations table. */
module PageDetail {
  import opened Wrappers
  import opened Text
  import opened Numbers
  import opened ScholarData
  import opened Citations
  import opened Table
  import RustDebug

  datatype CitingListRowTemplate = CitingListRowTemplate(
    contexts: seq<string>,
    intents: seq<string>,
    isInfluential: bool,
    paperId: string,
    externalId: string,
    title: string,
    authors: string,
    keywords: string,
    abstractContent: string,
    year: string,
    venue: string,
    isOpenAccess: bool,
    citationCount: i32,
    referenceCount: i32)

  /** A page of citation rows. */
  datatype CitingListResponse = CitingListResponse(
    tableId: string, offset: Option<i32>, next: Option<i32>, rows: seq<CitingListRowTemplate>)

  /** The conversion; it unwraps the citing paper's author list and so panics when it is absent. */
  function CitingRowFromDaum(x: CitingDaum): (r: Result<CitingListRowTemplate, Panic>)
    ensures r.Err? <==> x.citingPaper.authors.None?
    ensures r.Err? ==> r.error == UnwrapOnNone("authors")
    ensures r.Ok? ==> r.value.contexts == x.contexts && r.value.intents == x.intents
                      && r.value.isInfluential == x.isInfluential
  {
    var p := x.citingPaper;
    match p.authors
    case None => Err(UnwrapOnNone("authors"))
    case Some(authors) =>
      Ok(CitingListRowTemplate(
        x.contexts,
        x.intents,
        x.isInfluential,
        p.paperId.GetOr(""),
        ExternalIdText(p.externalIds),
        p.title,
        Join(", ", AuthorNames(authors)),
        "",
        p.abstractField.GetOr(""),
        IntToString(p.year.GetOr(0)),
        p.venue.GetOr(""),
        p.isOpenAccess.GetOr(false),
        p.citationCount.GetOr(0),
        p.referenceCount.GetOr(0)))
  }

  /**
   * When the citing paper has its author list, the citation row shows the paper exactly
   * as a search-results row does: same id, ids text, title, authors, defaults and counts.
   */
  lemma CitingRowMatchesTableRow(x: CitingDaum)
    requires x.citingPaper.authors.Some?
    ensures var row := CitingRowFromDaum(x).value;
            var t := TableRowFromPaper(x.citingPaper);
            row.paperId == t.paperId && row.externalId == t.externalId && row.title == t.title
            && row.authors == t.authors && row.keywords == t.keywords == ""
            && row.abstractContent == t.abstractContent && row.year == t.year && row.venue == t.venue
            && row.isOpenAccess == t.isOpenAccess && row.citationCount == t.citationCount
            && row.referenceCount == t.referenceCount
  {
  }

  /** Without an author list the table row shows `""` where the citation row panics. */
  lemma MissingAuthorsDiffer(x: CitingDaum)
    requires x.citingPaper.authors.None?
    ensures TableRowFromPaper(x.citingPaper).authors == ""
    ensures CitingRowFromDaum(x) == Err(UnwrapOnNone("authors"))
  {
  }

  /** The row's ids read back as the citing paper's six ids, and its year as the paper's year or 0. */
  lemma CitingRowReadsBack(x: CitingDaum)
    requires x.citingPaper.authors.Some?
    ensures CitingRowFromDaum(x).value.externalId == "" <==> x.citingPaper.externalIds.None?
    ensures x.citingPaper.externalIds.Some? ==>
            RustDebug.ParseList(CitingRowFromDaum(x).value.externalId) == Some(ExternalIdList(x.citingPaper.externalIds.value))
    ensures ParseI32(CitingRowFromDaum(x).value.year) == Ok(x.citingPaper.year.GetOr(0))
  {
    TableRowExternalIds(x.citingPaper);
    TableRowYear(x.citingPaper);
    CitingRowMatchesTableRow(x);
  }
}
