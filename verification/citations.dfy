/**
 * The citation-list request (`CitingRequest`), its URL, and the URLs that
 * `fetch_citing` and `fetch_references` request.
 */
module Citations {
  import opened Wrappers
  import opened Text
  import opened Numbers
  import opened ScholarData

  const ApiBase: string := "https://api.semanticscholar.org/graph/v1/paper/"

  /** The fixed `fields` list asked of the citations endpoint. */
  const CitingFields: string :=
    "contexts,intents,isInfluential,paperId,corpusId,url,title,venue,publicationVenue,year,authors,externalIds,abstract,referenceCount,citationCount,influentialCitationCount,isOpenAccess,openAccessPdf,fieldsOfStudy,s2FieldsOfStudy,publicationTypes,publicationDate,journal,citationStyles"

  const OffsetParam: string := "?offset="
  const LimitParam: string := "&limit="
  const FieldsParam: string := "&fields=" + CitingFields

  /** One citing paper with the citation's contexts, intents and influence flag. */
  datatype CitingDaum = CitingDaum(contexts: seq<string>, intents: seq<string>, isInfluential: bool, citingPaper: Paper)

  /** A page of citations. */
  datatype CitingResponse = CitingResponse(offset: Option<i32>, next: Option<i32>, data: Option<seq<CitingDaum>>)

  datatype CitingRequest = CitingRequest(paperId: string, offset: i32, limit: i32)

  /** `CitingRequest::default()`. */
  const DefaultCitingRequest: CitingRequest := CitingRequest("", 0, 100)

  /** The part of a list URL that depends on the request: the id verbatim, the endpoint, the page window. */
  function ListQuery(endpoint: string, r: CitingRequest): string {
    r.paperId + "/" + endpoint + OffsetParam + Window(r)
  }

  /** The page window: the offset, then the limit. */
  function Window(r: CitingRequest): string {
    IntToString(r.offset) + LimitParam + IntToString(r.limit)
  }

  /**
   * The list URL of one endpoint below a paper: the fixed base, the query, the fixed
   * fields. The id is put in verbatim, with no escaping, yet whatever it holds the URL
   * reads back as the request: the page window is found from the right.
   */
  function ListUrl(endpoint: string, r: CitingRequest): (url: string)
    ensures ParseListUrl(endpoint, url) == Some(r)
  {
    ListUrlRoundTrip(endpoint, r);
    ApiBase + ListQuery(endpoint, r) + FieldsParam
  }

  /** `CitingRequest::to_url`: always the `citations` endpoint; the URL reads back as the request. */
  function CitingUrl(r: CitingRequest): (url: string)
    ensures ParseListUrl("citations", url) == Some(r)
  {
    ListUrl("citations", r)
  }

  /** The URL `fetch_citing` requests: the citations list of the request, not its references list. */
  function FetchCitingUrl(r: CitingRequest): (url: string)
    ensures ParseListUrl("citations", url) == Some(r)
    ensures ParseListUrl("references", url) == None
  {
    CitationsIsNotReferences(r);
    CitingUrl(r)
  }

  /**
   * The URL `fetch_references` requests, as written: it also calls `to_url`, so it
   * names the citations list of the request and never its references list.
   */
  function FetchReferencesUrl(r: CitingRequest): (url: string)
    ensures ParseListUrl("references", url) == None
    ensures ParseListUrl("citations", url) == Some(r)
  {
    CitationsIsNotReferences(r);
    CitingUrl(r)
  }

  /** The URL `fetch_references` is evidently meant to request: the references list of the request, not its citations list. */
  function ReferencesUrl(r: CitingRequest): (url: string)
    ensures ParseListUrl("references", url) == Some(r)
    ensures ParseListUrl("citations", url) == None
  {
    ReferencesIsNotCitations(r);
    ListUrl("references", r)
  }

  /**
   * Reads `<id>/<endpoint>?offset=<offset>&limit=<limit>` from the right: the limit
   * follows the last `&`, the offset the last `?` before it, and the id is what is
   * left once `/<endpoint>` is removed, so it may hold any character.
   */
  function ParseQuery(endpoint: string, mid: string): Option<CitingRequest> {
    match SplitLast(mid, LimitParam)
    case None => None
    case Some((before, ls)) =>
      match SplitLast(before, OffsetParam)
      case None => None
      case Some((head, os)) =>
        match (StripSuffix(head, "/" + endpoint), ParseI32(os), ParseI32(ls))
        case (Some(id), Ok(o), Ok(l)) => Some(CitingRequest(id, o, l))
        case _ => None
  }

  /** Reads a list URL of `endpoint` back into a request: the fixed base and fields list around the query. */
  function ParseListUrl(endpoint: string, url: string): Option<CitingRequest> {
    match StripPrefix(url, ApiBase)
    case None => None
    case Some(rest) =>
      match StripSuffix(rest, FieldsParam)
      case None => None
      case Some(mid) => ParseQuery(endpoint, mid)
  }

  /** Stripping a fixed prefix and a fixed suffix leaves what was between them. */
  lemma EndpointStrips(id: string, endpoint: string)
    ensures StripSuffix(id + "/" + endpoint, "/" + endpoint) == Some(id)
  {
    assert id + "/" + endpoint == id + ("/" + endpoint);
    StripSuffixConcat(id, "/" + endpoint);
  }

  lemma ParamsLeadOnce()
    ensures LimitParam[0] == '&' && '&' !in LimitParam[1..]
    ensures OffsetParam[0] == '?' && '?' !in OffsetParam[1..]
  {
  }

  /** The query splits at its last `&` and the last `?` before it, whatever the id and endpoint hold. */
  lemma QuerySplits(endpoint: string, r: CitingRequest)
    ensures var os, ls := IntToString(r.offset), IntToString(r.limit);
            var head := r.paperId + "/" + endpoint;
            && SplitLast(ListQuery(endpoint, r), LimitParam) == Some((head + OffsetParam + os, ls))
            && SplitLast(head + OffsetParam + os, OffsetParam) == Some((head, os))
  {
    var os, ls := IntToString(r.offset), IntToString(r.limit);
    var head := r.paperId + "/" + endpoint;
    assert ListQuery(endpoint, r) == (head + OffsetParam + os) + LimitParam + ls;
    ParamsLeadOnce();
    NotInDecimal(r.limit, '&');
    NotInDecimal(r.offset, '?');
    SplitLastAt(head + OffsetParam + os, LimitParam, ls);
    SplitLastAt(head, OffsetParam, os);
  }

  lemma QueryParses(endpoint: string, r: CitingRequest)
    ensures ParseQuery(endpoint, ListQuery(endpoint, r)) == Some(r)
  {
    QuerySplits(endpoint, r);
    EndpointStrips(r.paperId, endpoint);
    ParseI32RoundTrip(r.offset);
    ParseI32RoundTrip(r.limit);
  }

  /**
   * A list URL determines its request: the id, offset and limit all read back, for
   * every id, even one holding `?offset=` or `&limit=`.
   */
  lemma ListUrlRoundTrip(endpoint: string, r: CitingRequest)
    ensures ParseListUrl(endpoint, ApiBase + ListQuery(endpoint, r) + FieldsParam) == Some(r)
  {
    QueryParses(endpoint, r);
    Framed(ApiBase, ListQuery(endpoint, r), FieldsParam);
  }

  /** Distinct requests give distinct list URLs of the same endpoint. */
  lemma ListUrlInjective(endpoint: string, r1: CitingRequest, r2: CitingRequest)
    requires ListUrl(endpoint, r1) == ListUrl(endpoint, r2)
    ensures r1 == r2
  {
  }

  /** As written, `fetch_references` requests exactly what `fetch_citing` requests, for every request. */
  lemma FetchReferencesIsCitations(r: CitingRequest)
    ensures FetchReferencesUrl(r) == FetchCitingUrl(r)
    ensures FetchReferencesUrl(r) != ReferencesUrl(r)
  {
  }

  /** A citations URL is not read as a references URL: its path ends in `/citations`. */
  lemma CitationsIsNotReferences(r: CitingRequest)
    ensures ParseListUrl("references", ListUrl("citations", r)) == None
  {
    QuerySplits("citations", r);
    Framed(ApiBase, ListQuery("citations", r), FieldsParam);
    CitationsEndIsNotReferences(r.paperId);
  }

  /** A references URL is not read as a citations URL: its path ends in `/references`. */
  lemma ReferencesIsNotCitations(r: CitingRequest)
    ensures ParseListUrl("citations", ListUrl("references", r)) == None
  {
    QuerySplits("references", r);
    Framed(ApiBase, ListQuery("references", r), FieldsParam);
    ReferencesEndIsNotCitations(r.paperId);
  }

  lemma CitationsEndIsNotReferences(id: string)
    ensures StripSuffix(id + "/" + "citations", "/" + "references") == None
  {
    var h := id + "/" + "citations";
    assert h[|h| - 10] == '/';
    if |h| >= 11 {
      assert h[|h| - 11..][1] == '/';
    }
  }

  lemma ReferencesEndIsNotCitations(id: string)
    ensures StripSuffix(id + "/" + "references", "/" + "citations") == None
  {
    var h := id + "/" + "references";
    assert h[|h| - 10] == 'r';
    assert h[|h| - 10..][0] == 'r';
  }

  /** The default request asks for the first hundred citations of the empty id. */
  lemma DefaultCitingUrl()
    ensures ParseListUrl("citations", CitingUrl(DefaultCitingRequest)) == Some(CitingRequest("", 0, 100))
  {
  }
}
