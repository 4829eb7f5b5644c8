/**
 * The flattening of API records into the page templates' records:
 * `From<Paper> for TableRowTemplate` and
 * `From<PaperDetail> for PaperDetailTemplateDetailPrint`.
 */
module Table {
  import opened Wrappers
  import opened Text
  import opened Numbers
  import opened RustDebug
  import opened ScholarData

  /** A conversion that stopped at an `unwrap()` of an absent value: which value it was. */
  datatype Panic = UnwrapOnNone(what: string)

  /** One row of the search-results table. */
  datatype TableRowTemplate = TableRowTemplate(
    paperId: string,
    externalId: string,
    title: string,
    authors: string,
    keywords: string,
    abstractContent: string,
    year: string,
    venue: string,
    isOpenAccess: bool,
    citationCount: i32,
    referenceCount: i32)

  /** The six external ids shown in a row, absent ones as `""`: DOI, PubMed, PubMed Central, arXiv, DBLP, MAG. */
  function ExternalIdList(e: ExternalIds): seq<string> {
    [e.doi.GetOr(""), e.pubMed.GetOr(""), e.pubMedCentral.GetOr(""),
     e.arXiv.GetOr(""), e.dblp.GetOr(""), e.mag.GetOr("")]
  }

  /** The row's external-id text: empty without ids, else the `{:?}` rendering of the six. */
  function ExternalIdText(ids: Option<ExternalIds>): (text: string)
    ensures text == "" <==> ids.None?
    ensures ids.Some? ==> text[0] == '[' && text[|text| - 1] == ']' && text != "[]"
  {
    match ids
    case None => ""
    case Some(e) => DebugList(ExternalIdList(e))
  }

  function AuthorNames(authors: seq<Author>): (names: seq<string>)
    ensures |names| == |authors|
  {
    seq(|authors|, i requires 0 <= i < |authors| => authors[i].name)
  }

  /** `From<Paper> for TableRowTemplate`. */
  function TableRowFromPaper(x: Paper): (row: TableRowTemplate)
    ensures row.keywords == ""
    ensures row.paperId == x.paperId.GetOr("") && row.title == x.title
    ensures row.abstractContent == (if x.abstractField.Some? then x.abstractField.value else "")
    ensures row.venue == (if x.venue.Some? then x.venue.value else "")
    ensures row.isOpenAccess == (x.isOpenAccess.Some? && x.isOpenAccess.value)
    ensures row.citationCount == (if x.citationCount.Some? then x.citationCount.value else 0)
    ensures row.referenceCount == (if x.referenceCount.Some? then x.referenceCount.value else 0)
    ensures x.authors.None? || x.authors == Some([]) ==> row.authors == ""
    ensures x.authors.Some? && |x.authors.value| == 1 ==> row.authors == x.authors.value[0].name
  {
    TableRowTemplate(
      x.paperId.GetOr(""),
      ExternalIdText(x.externalIds),
      x.title,
      Join(", ", AuthorNames(x.authors.GetOr([]))),
      "",
      x.abstractField.GetOr(""),
      IntToString(x.year.GetOr(0)),
      x.venue.GetOr(""),
      x.isOpenAccess.GetOr(false),
      x.citationCount.GetOr(0),
      x.referenceCount.GetOr(0))
  }

  /**
   * The external-id text is empty exactly when the paper has no ids; otherwise it reads
   * back as the six ids in their fixed order, each absent one as `""`.
   */
  lemma ExternalIdTextReadsBack(ids: Option<ExternalIds>)
    ensures ExternalIdText(ids) == "" <==> ids.None?
    ensures ids.Some? ==> ParseList(ExternalIdText(ids)) == Some(ExternalIdList(ids.value))
  {
    if ids.Some? {
      DebugListRoundTrip(ExternalIdList(ids.value));
      assert ExternalIdText(ids)[0] == '[';
    }
  }

  /** The row's ids are those of the paper: text present exactly when the ids are, and reading back to them. */
  lemma TableRowExternalIds(x: Paper)
    ensures TableRowFromPaper(x).externalId == "" <==> x.externalIds.None?
    ensures x.externalIds.Some? ==>
            ParseList(TableRowFromPaper(x).externalId) == Some(ExternalIdList(x.externalIds.value))
  {
    ExternalIdTextReadsBack(x.externalIds);
  }

  /**
   * The row's author text is the names in input order, joined by `", "`: when no name
   * contains a comma, splitting it at `", "` gives the names back.
   */
  lemma TableRowAuthors(x: Paper)
    requires x.authors.Some? && |x.authors.value| > 0
    requires forall i :: 0 <= i < |x.authors.value| ==> ',' !in x.authors.value[i].name
    ensures SplitOn(TableRowFromPaper(x).authors, ", ") == AuthorNames(x.authors.value)
  {
    var names := AuthorNames(x.authors.value);
    assert forall i :: 0 <= i < |names| ==> ", "[0] !in names[i];
    SplitJoin(", ", names);
  }

  /** The row's year text parses back to the year, or to 0 when the year is absent. */
  lemma TableRowYear(x: Paper)
    ensures ParseI32(TableRowFromPaper(x).year) == Ok(x.year.GetOr(0))
  {
    ParseI32RoundTrip(x.year.GetOr(0));
  }

  /** The detail page's record: optional fields defaulted, three id/summary/PDF dictionaries. */
  datatype DetailPrint = DetailPrint(
    paperId: string,
    corpusId: i32,
    externalIds: map<string, string>,
    url: string,
    title: string,
    abstractField: string,
    venue: string,
    year: i32,
    referenceCount: i32,
    citationCount: i32,
    influentialCitationCount: i32,
    isOpenAccess: bool,
    openAccessPdf: map<string, string>,
    fieldsOfStudy: seq<string>,
    s2FieldsOfStudy: seq<S2FieldsOfStudy>,
    publicationTypes: seq<string>,
    publicationDate: string,
    authors: seq<Author>,
    referencesCount: i32,
    citationsCount: i32,
    tldr: map<string, string>)

  /** The keys the detail page may show external ids under. */
  const ExternalIdKeys: set<string> := {"doi", "dblp", "ar_xiv", "corpus_id", "pub_med_central", "pub_med", "mag"}

  /** The external id shown under `key`, if the paper has it: the reference the detail map is checked against. */
  function ExternalIdEntry(e: ExternalIds, key: string): (id: Option<string>)
    ensures id.Some? ==> key in ExternalIdKeys
  {
    if key == "doi" then e.doi
    else if key == "dblp" then e.dblp
    else if key == "ar_xiv" then e.arXiv
    else if key == "corpus_id" then (if e.corpusId.Some? then Some(IntToString(e.corpusId.value)) else None)
    else if key == "pub_med_central" then e.pubMedCentral
    else if key == "pub_med" then e.pubMed
    else if key == "mag" then e.mag
    else None
  }

  /** The external-id dictionary: one insert per id the paper has, under its fixed key. */
  method ExternalIdsMap(ids: Option<ExternalIds>) returns (m: map<string, string>)
    ensures m.Keys <= ExternalIdKeys
    ensures forall k :: k in m <==> ids.Some? && ExternalIdEntry(ids.value, k).Some?
    ensures forall k :: k in m ==> m[k] == ExternalIdEntry(ids.value, k).value
  {
    m := map[];
    if ids.Some? {
      var e := ids.value;
      EntriesByKey(e);
      ghost var done: set<string> := {};
      m := InsertPresent(m, e, done, "doi", e.doi);
      done := done + {"doi"};
      m := InsertPresent(m, e, done, "dblp", e.dblp);
      done := done + {"dblp"};
      m := InsertPresent(m, e, done, "ar_xiv", e.arXiv);
      done := done + {"ar_xiv"};
      var corpusId := if e.corpusId.Some? then Some(IntToString(e.corpusId.value)) else None;
      m := InsertPresent(m, e, done, "corpus_id", corpusId);
      done := done + {"corpus_id"};
      m := InsertPresent(m, e, done, "pub_med_central", e.pubMedCentral);
      done := done + {"pub_med_central"};
      m := InsertPresent(m, e, done, "pub_med", e.pubMed);
      done := done + {"pub_med"};
      m := InsertPresent(m, e, done, "mag", e.mag);
      done := done + {"mag"};
      MirrorsComplete(m, e, done);
    }
  }

  /** `m` holds, for the keys in `done`, exactly the ids the paper has. */
  ghost predicate Mirrors(m: map<string, string>, e: ExternalIds, done: set<string>) {
    forall k ::
      (k in m <==> k in done && ExternalIdEntry(e, k).Some?) &&
      (k in m ==> m[k] == ExternalIdEntry(e, k).value)
  }

  /** One `if id.is_some() { insert }` step of the external-id dictionary. */
  method InsertPresent(m: map<string, string>, ghost e: ExternalIds, ghost done: set<string>, key: string, id: Option<string>)
    returns (m': map<string, string>)
    requires Mirrors(m, e, done) && id == ExternalIdEntry(e, key)
    ensures Mirrors(m', e, done + {key})
  {
    m' := m;
    if id.Some? {
      m' := m'[key := id.value];
    }
  }

  lemma EntriesByKey(e: ExternalIds)
    ensures ExternalIdEntry(e, "doi") == e.doi && ExternalIdEntry(e, "dblp") == e.dblp
    ensures ExternalIdEntry(e, "ar_xiv") == e.arXiv
    ensures ExternalIdEntry(e, "corpus_id") == if e.corpusId.Some? then Some(IntToString(e.corpusId.value)) else None
    ensures ExternalIdEntry(e, "pub_med_central") == e.pubMedCentral && ExternalIdEntry(e, "pub_med") == e.pubMed
    ensures ExternalIdEntry(e, "mag") == e.mag
  {
  }

  lemma MirrorsComplete(m: map<string, string>, e: ExternalIds, done: set<string>)
    requires Mirrors(m, e, done) && ExternalIdKeys <= done
    ensures m.Keys <= ExternalIdKeys
    ensures forall k :: k in m <==> ExternalIdEntry(e, k).Some?
  {
  }

  /** The summary dictionary: `model` and `text` when the paper has a summary, else empty. */
  method TldrMap(t: Option<Tldr>) returns (m: map<string, string>)
    ensures m.Keys == (if t.Some? then {"model", "text"} else {})
    ensures t.Some? ==> m["model"] == t.value.model && m["text"] == t.value.text
  {
    m := map[];
    if t.Some? {
      m := m["model" := t.value.model];
      m := m["text" := t.value.text];
    }
  }

  /** The open-access dictionary: `url` and `status`, each unwrapped, the URL first. */
  method OpenAccessPdfMap(p: Option<OpenAccessPdf>) returns (r: Result<map<string, string>, Panic>)
    ensures r.Err? <==> p.Some? && (p.value.url.None? || p.value.status.None?)
    ensures r.Err? ==> r.error == UnwrapOnNone(if p.value.url.None? then "url" else "status")
    ensures r.Ok? ==> r.value.Keys == (if p.Some? then {"url", "status"} else {})
    ensures r.Ok? && p.Some? ==> r.value["url"] == p.value.url.value && r.value["status"] == p.value.status.value
  {
    var m: map<string, string> := map[];
    if p.Some? {
      var pdf := p.value;
      if pdf.url.None? {
        return Err(UnwrapOnNone("url"));
      }
      m := m["url" := pdf.url.value];
      if pdf.status.None? {
        return Err(UnwrapOnNone("status"));
      }
      m := m["status" := pdf.status.value];
    }
    r := Ok(m);
  }

  /** `From<PaperDetail> for PaperDetailTemplateDetailPrint`. */
  method DetailPrintFrom(src: PaperDetail) returns (r: Result<DetailPrint, Panic>)
    ensures r.Err? <==> src.openAccessPdf.Some? && (src.openAccessPdf.value.url.None? || src.openAccessPdf.value.status.None?)
    ensures r.Err? ==> r.error == UnwrapOnNone(if src.openAccessPdf.value.url.None? then "url" else "status")
    ensures r.Ok? ==> r.value.externalIds.Keys <= ExternalIdKeys
    ensures r.Ok? ==> forall k :: k in r.value.externalIds <==>
              src.externalIds.Some? && ExternalIdEntry(src.externalIds.value, k).Some?
    ensures r.Ok? ==> forall k :: k in r.value.externalIds ==>
              r.value.externalIds[k] == ExternalIdEntry(src.externalIds.value, k).value
    ensures r.Ok? ==> r.value.tldr.Keys == (if src.tldr.Some? then {"model", "text"} else {})
    ensures r.Ok? && src.tldr.Some? ==>
              r.value.tldr["model"] == src.tldr.value.model && r.value.tldr["text"] == src.tldr.value.text
    ensures r.Ok? ==> r.value.openAccessPdf.Keys == (if src.openAccessPdf.Some? then {"url", "status"} else {})
    ensures r.Ok? && src.openAccessPdf.Some? ==>
              r.value.openAccessPdf["url"] == src.openAccessPdf.value.url.value
              && r.value.openAccessPdf["status"] == src.openAccessPdf.value.status.value
    ensures r.Ok? ==> r.value.corpusId == src.corpusId.GetOr(0)
    ensures r.Ok? ==> r.value.referencesCount == src.referenceCount && r.value.citationsCount == src.citationCount
    ensures r.Ok? ==> r.value.referenceCount == src.referenceCount && r.value.citationCount == src.citationCount
                      && r.value.influentialCitationCount == src.influentialCitationCount
    ensures r.Ok? ==> r.value.paperId == src.paperId && r.value.title == src.title && r.value.year == src.year
                      && r.value.isOpenAccess == src.isOpenAccess
    ensures r.Ok? ==> r.value.url == src.url.GetOr("") && r.value.abstractField == src.abstractField.GetOr("")
                      && r.value.venue == src.venue.GetOr("") && r.value.publicationDate == src.publicationDate.GetOr("")
    ensures r.Ok? ==> r.value.fieldsOfStudy == src.fieldsOfStudy && r.value.authors == src.authors
    ensures r.Ok? ==> r.value.publicationTypes == src.publicationTypes.GetOr([])
                      && r.value.s2FieldsOfStudy == src.s2FieldsOfStudy.GetOr([])
  {
    var externalIds := ExternalIdsMap(src.externalIds);
    var tldr := TldrMap(src.tldr);
    var openPdf := OpenAccessPdfMap(src.openAccessPdf);
    if openPdf.Err? {
      return Err(openPdf.error);
    }
    r := Ok(DetailPrint(
      src.paperId,
      src.corpusId.GetOr(0),
      externalIds,
      src.url.GetOr(""),
      src.title,
      src.abstractField.GetOr(""),
      src.venue.GetOr(""),
      src.year,
      src.referenceCount,
      src.citationCount,
      src.influentialCitationCount,
      src.isOpenAccess,
      openPdf.value,
      src.fieldsOfStudy,
      src.s2FieldsOfStudy.GetOr([]),
      src.publicationTypes.GetOr([]),
      src.publicationDate.GetOr(""),
      src.authors,
      src.referenceCount,
      src.citationCount,
      tldr));
  }
}
