/**
 * The bulk paper search request (`BulkRequest`), its URL, and the URL of the
 * single-paper detail request made by `fetch_paper_detail`.
 */
module PaperFetch {
  import opened Wrappers
  import opened Text
  import opened Numbers

  const BulkBase: string := "https://api.semanticscholar.org/graph/v1/paper/search/bulk?query="

  /** The fixed `fields` list of the bulk search; it names `authors` twice. */
  const BulkFields: string :=
    "paperId,corpusId,url,title,venue,year,authors,externalIds,abstract,referenceCount,citationCount,influentialCitationCount,isOpenAccess,openAccessPdf,fieldsOfStudy,s2FieldsOfStudy,publicationTypes,publicationDate,journal,citationStyles,authors"

  const FieldsParam: string := "&fields="
  const FieldsSortParam: string := FieldsParam + BulkFields + "&sort="
  /** The sort order every bulk search asks for. */
  const SortOrder: string := "citationCount:desc"
  const MinParam: string := "&minCitationCount="
  const DateParam: string := "&publicationDateOrYear="

  datatype BulkRequest = BulkRequest(query: string, minCitationCount: i32, publicationDateOrYear: string)

  /** `BulkRequest::default()`. */
  const DefaultBulkRequest: BulkRequest := BulkRequest("", 3, "2023")

  /** The two citation-count parameters and the date: the same count is written twice. */
  function CountsText(r: BulkRequest): string {
    IntToString(r.minCitationCount) + MinParam
      + (IntToString(r.minCitationCount) + DateParam + r.publicationDateOrYear)
  }

  /** Everything after `?query=`: the query verbatim, the fixed fields, the sort order, the counts and the date. */
  function BulkQuery(r: BulkRequest): string {
    r.query + FieldsSortParam + (SortOrder + MinParam + CountsText(r))
  }

  /**
   * `BulkRequest::to_url`. The query is put in verbatim, with no escaping: a query
   * without `&` reads back from the URL with the rest of the request, and one holding
   * `&` can make two requests share a URL (`BulkUrlNotInjective`).
   */
  function BulkUrl(r: BulkRequest): (url: string)
    ensures '&' !in r.query ==>
            ParseBulkUrl(url) ==
            Some(BulkUrlParts(r.query, SortOrder, r.minCitationCount, r.minCitationCount, r.publicationDateOrYear))
  {
    BulkUrlRoundTrip(r);
    BulkBase + BulkQuery(r)
  }

  /** The parameters a bulk URL carries, in the order they appear. */
  datatype BulkUrlParts = BulkUrlParts(
    query: string, sort: string, firstMinCount: i32, secondMinCount: i32, dateOrYear: string)

  /** Reads `<count>&publicationDateOrYear=<date>`. */
  function ParseDate(s: string): Option<(i32, string)> {
    match IndexOf(s, DateParam)
    case None => None
    case Some(z) =>
      match ParseI32(s[..z])
      case Err(_) => None
      case Ok(m) => Some((m, s[z + |DateParam|..]))
  }

  /** Reads `<count>&minCitationCount=<count>&publicationDateOrYear=<date>`. */
  function ParseCounts(s: string): Option<(i32, i32, string)> {
    match IndexOf(s, MinParam)
    case None => None
    case Some(w) =>
      match (ParseI32(s[..w]), ParseDate(s[w + |MinParam|..]))
      case (Ok(m1), Some((m2, date))) => Some((m1, m2, date))
      case _ => None
  }

  /** Reads `<sort>&minCitationCount=...`: the sort order ends at the first `&`-parameter. */
  function ParseSorted(s: string): Option<(string, i32, i32, string)> {
    match IndexOf(s, MinParam)
    case None => None
    case Some(q) =>
      match ParseCounts(s[q + |MinParam|..])
      case None => None
      case Some((m1, m2, date)) => Some((s[..q], m1, m2, date))
  }

  /** Reads everything after `?query=`: the query ends where `&fields=` first occurs. */
  function ParseBulkQuery(s: string): Option<BulkUrlParts> {
    match IndexOf(s, FieldsParam)
    case None => None
    case Some(p) =>
      match StripPrefix(s[p..], FieldsSortParam)
      case None => None
      case Some(rest) =>
        match ParseSorted(rest)
        case None => None
        case Some((sort, m1, m2, date)) => Some(BulkUrlParts(s[..p], sort, m1, m2, date))
  }

  function ParseBulkUrl(url: string): Option<BulkUrlParts> {
    match StripPrefix(url, BulkBase)
    case None => None
    case Some(rest) => ParseBulkQuery(rest)
  }

  lemma DateParses(ds: string, date: string, m: i32)
    requires '&' !in ds && ParseI32(ds) == Ok(m)
    ensures ParseDate(ds + DateParam + date) == Some((m, date))
  {
    var s := ds + DateParam + date;
    FirstOccurrenceAfter(ds, DateParam, date);
    assert s[..|ds|] == ds;
    assert s[|ds| + |DateParam|..] == date;
  }

  lemma CountsParse(ds: string, rest: string, m1: i32, m2: i32, date: string)
    requires '&' !in ds && ParseI32(ds) == Ok(m1)
    requires ParseDate(rest) == Some((m2, date))
    ensures ParseCounts(ds + MinParam + rest) == Some((m1, m2, date))
  {
    var s := ds + MinParam + rest;
    FirstOccurrenceAfter(ds, MinParam, rest);
    assert s[..|ds|] == ds;
    assert s[|ds| + |MinParam|..] == rest;
  }

  lemma SortedParses(sort: string, rest: string, m1: i32, m2: i32, date: string)
    requires '&' !in sort
    requires ParseCounts(rest) == Some((m1, m2, date))
    ensures ParseSorted(sort + MinParam + rest) == Some((sort, m1, m2, date))
  {
    var s := sort + MinParam + rest;
    FirstOccurrenceAfter(sort, MinParam, rest);
    assert s[..|sort|] == sort;
    assert s[|sort| + |MinParam|..] == rest;
  }

  lemma QueryParses(query: string, rest: string, sort: string, m1: i32, m2: i32, date: string)
    requires '&' !in query
    requires ParseSorted(rest) == Some((sort, m1, m2, date))
    ensures ParseBulkQuery(query + FieldsSortParam + rest) == Some(BulkUrlParts(query, sort, m1, m2, date))
  {
    QueryEnds(query, rest);
    QueryFollowedByFields(query, FieldsSortParam, rest);
    QueryFromParts(query + FieldsSortParam + rest, |query|, rest, sort, m1, m2, date);
  }

  /** The query ends at the first `&fields=`. */
  lemma QueryEnds(query: string, rest: string)
    requires '&' !in query
    ensures IndexOf(query + FieldsSortParam + rest, FieldsParam) == Some(|query|)
  {
    var s := query + FieldsSortParam + rest;
    assert FieldsSortParam == FieldsParam + (BulkFields + "&sort=");
    assert s == query + FieldsParam + (BulkFields + "&sort=" + rest);
    FirstOccurrenceAfter(query, FieldsParam, BulkFields + "&sort=" + rest);
  }

  /** After the query come the fixed fields and sort parameters. */
  lemma QueryFollowedByFields(query: string, fixed: string, rest: string)
    ensures (query + fixed + rest)[..|query|] == query
    ensures StripPrefix((query + fixed + rest)[|query|..], fixed) == Some(rest)
  {
    var s := query + fixed + rest;
    assert s[..|query|] == query;
    assert s[|query|..] == fixed + rest;
    StripPrefixConcat(fixed, rest);
  }

  lemma QueryFromParts(s: string, p: nat, rest: string, sort: string, m1: i32, m2: i32, date: string)
    requires p <= |s| && IndexOf(s, FieldsParam) == Some(p)
    requires StripPrefix(s[p..], FieldsSortParam) == Some(rest)
    requires ParseSorted(rest) == Some((sort, m1, m2, date))
    ensures ParseBulkQuery(s) == Some(BulkUrlParts(s[..p], sort, m1, m2, date))
  {
  }

  lemma SortOrderIsOneParameter()
    ensures '&' !in SortOrder
  {
  }

  /**
   * A bulk URL carries its request unchanged when the query holds no `&`: the query
   * and the date verbatim, the sort order `citationCount:desc`, and the minimum
   * citation count in both of its places.
   */
  lemma BulkUrlRoundTrip(r: BulkRequest)
    ensures '&' !in r.query ==>
            ParseBulkUrl(BulkBase + BulkQuery(r)) ==
            Some(BulkUrlParts(r.query, SortOrder, r.minCitationCount, r.minCitationCount, r.publicationDateOrYear))
  {
    if '&' !in r.query {
      var m := r.minCitationCount;
      var ds := IntToString(m);
      ParseI32RoundTrip(m);
      DateParses(ds, r.publicationDateOrYear, m);
      CountsParse(ds, ds + DateParam + r.publicationDateOrYear, m, m, r.publicationDateOrYear);
      SortOrderIsOneParameter();
      SortedParses(SortOrder, CountsText(r), m, m, r.publicationDateOrYear);
      QueryParses(r.query, SortOrder + MinParam + CountsText(r), SortOrder, m, m, r.publicationDateOrYear);
      StripPrefixConcat(BulkBase, BulkQuery(r));
    }
  }

  /** Everything a bulk URL holds between the query and the date, for minimum count `m`. */
  function Between(m: i32): string {
    FieldsSortParam + (SortOrder + MinParam + (IntToString(m) + MinParam + (IntToString(m) + DateParam)))
  }

  lemma BulkUrlAround(r: BulkRequest)
    ensures BulkUrl(r) == BulkBase + r.query + Between(r.minCitationCount) + r.publicationDateOrYear
  {
    var ds := IntToString(r.minCitationCount);
    Regroup(BulkBase, r.query, FieldsSortParam, SortOrder, MinParam, ds, DateParam, r.publicationDateOrYear);
  }

  lemma Regroup(base: string, q: string, f: string, o: string, mp: string, ds: string, dp: string, date: string)
    ensures base + (q + f + (o + mp + (ds + mp + (ds + dp + date))))
         == base + q + (f + (o + mp + (ds + mp + (ds + dp)))) + date
  {
  }

  /**
   * The query is not escaped, so two distinct requests can share one URL: a query that
   * repeats the fixed middle of the URL, against a date that does.
   */
  lemma BulkUrlNotInjective(q: string, m: i32, d: string)
    ensures var r1 := BulkRequest(q, m, "x" + Between(m) + d);
            var r2 := BulkRequest(q + Between(m) + "x", m, d);
            r1 != r2 && BulkUrl(r1) == BulkUrl(r2)
  {
    var r1 := BulkRequest(q, m, "x" + Between(m) + d);
    var r2 := BulkRequest(q + Between(m) + "x", m, d);
    BulkUrlAround(r1);
    BulkUrlAround(r2);
    Repeated(BulkBase, q, Between(m), "x", d);
    assert |r1.query| < |r2.query|;
  }

  lemma Repeated(base: string, q: string, b: string, x: string, d: string)
    ensures base + q + b + (x + b + d) == base + (q + b + x) + b + d
  {
  }

  /** The default search has the empty query, at least 3 citations, and the year 2023. */
  lemma DefaultBulkUrl()
    ensures ParseBulkUrl(BulkUrl(DefaultBulkRequest)) == Some(BulkUrlParts("", SortOrder, 3, 3, "2023"))
  {
  }

  const DetailBase: string := "https://api.semanticscholar.org/graph/v1/paper/"

  /** The fixed `fields` list of the detail request; unlike the lists, it asks for the embedding and the summary. */
  const DetailFields: string := DetailFieldsHead + ",embedding,tldr"

  const DetailFieldsHead: string :=
    "paperId,corpusId,url,title,venue,publicationVenue,year,authors,externalIds,abstract,referenceCount,citationCount,influentialCitationCount,isOpenAccess,openAccessPdf,fieldsOfStudy,s2FieldsOfStudy,publicationTypes,publicationDate,journal,citationStyles"

  const DetailFieldsParam: string := "?fields=" + DetailFields

  /** The URL `fetch_paper_detail` requests for a paper id. */
  function DetailUrl(paperId: string): (url: string)
    ensures ParseDetailUrl(url) == Some(paperId)
  {
    DetailUrlRoundTrip(paperId);
    DetailBase + paperId + DetailFieldsParam
  }

  function ParseDetailUrl(url: string): Option<string> {
    match StripPrefix(url, DetailBase)
    case None => None
    case Some(rest) => StripSuffix(rest, DetailFieldsParam)
  }

  /** The detail URL holds the id verbatim between two fixed parts, so every id reads back, whatever it contains. */
  lemma DetailUrlRoundTrip(paperId: string)
    ensures ParseDetailUrl(DetailBase + paperId + DetailFieldsParam) == Some(paperId)
  {
    Framed(DetailBase, paperId, DetailFieldsParam);
  }

  /** Distinct ids give distinct detail URLs. */
  lemma DetailUrlInjective(a: string, b: string)
    requires DetailUrl(a) == DetailUrl(b)
    ensures a == b
  {
  }

  lemma SuffixThrough(a: string, b: string, c: string, d: string)
    ensures StripSuffix(a + (b + (c + d)), d) == Some(a + b + c)
  {
    assert a + (b + (c + d)) == (a + b + c) + d;
    StripSuffixConcat(a + b + c, d);
  }

  /** The detail request asks for the embedding and the summary, last. */
  lemma DetailAsksForEmbeddingAndTldr(paperId: string)
    ensures StripSuffix(DetailUrl(paperId), ",embedding,tldr").Some?
  {
    SuffixThrough(DetailBase + paperId, "?fields=", DetailFieldsHead, ",embedding,tldr");
  }
}
