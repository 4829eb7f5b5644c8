/**
 * The Semantic Scholar records the server consumes, and the `from_str_optional`
 * deserialisation helper used for `Paper.corpusId`.
 */
module ScholarData {
  import opened Wrappers
  import opened Numbers
  import Json

  datatype ExternalIds = ExternalIds(
    arXiv: Option<string>,
    dblp: Option<string>,
    doi: Option<string>,
    corpusId: Option<i32>,
    pubMedCentral: Option<string>,
    pubMed: Option<string>,
    mag: Option<string>)

  datatype OpenAccessPdf = OpenAccessPdf(url: Option<string>, status: Option<string>)

  datatype S2FieldsOfStudy = S2FieldsOfStudy(category: Option<string>, source: Option<string>)

  datatype Journal = Journal(name: Option<string>, volume: Option<string>, pages: Option<string>)

  datatype CitationStyles = CitationStyles(bibtex: string)

  datatype Author = Author(authorId: Option<string>, name: string)

  datatype PublicationVenue = PublicationVenue(
    id: string,
    name: string,
    alternateNames: Option<seq<string>>,
    issn: Option<string>,
    url: Option<string>,
    typeField: Option<string>,
    alternateUrls: Option<seq<string>>)

  /** A search or citation result: nearly every field may be absent. */
  datatype Paper = Paper(
    paperId: Option<string>,
    externalIds: Option<ExternalIds>,
    corpusId: Option<i32>,
    publicationVenue: Option<PublicationVenue>,
    url: Option<string>,
    title: string,
    abstractField: Option<string>,
    venue: Option<string>,
    year: Option<i32>,
    referenceCount: Option<i32>,
    citationCount: Option<i32>,
    influentialCitationCount: Option<i32>,
    isOpenAccess: Option<bool>,
    openAccessPdf: Option<OpenAccessPdf>,
    fieldsOfStudy: Option<seq<string>>,
    s2FieldsOfStudy: Option<seq<S2FieldsOfStudy>>,
    publicationTypes: Option<seq<string>>,
    publicationDate: Option<string>,
    journal: Option<Journal>,
    citationStyles: Option<CitationStyles>,
    authors: Option<seq<Author>>)

  /** An embedding; its vector of floats is not part of this model. */
  datatype Embedding = Embedding(model: string)

  datatype Tldr = Tldr(model: string, text: string)

  datatype CitationShort = CitationShort(paperId: string, title: string)

  /** The single-paper record: the counts, year, fields of study and authors are required. */
  datatype PaperDetail = PaperDetail(
    paperId: string,
    corpusId: Option<i32>,
    externalIds: Option<ExternalIds>,
    url: Option<string>,
    title: string,
    abstractField: Option<string>,
    venue: Option<string>,
    publicationVenue: Option<PublicationVenue>,
    year: i32,
    referenceCount: i32,
    citationCount: i32,
    influentialCitationCount: i32,
    isOpenAccess: bool,
    openAccessPdf: Option<OpenAccessPdf>,
    fieldsOfStudy: seq<string>,
    s2FieldsOfStudy: Option<seq<S2FieldsOfStudy>>,
    publicationTypes: Option<seq<string>>,
    publicationDate: Option<string>,
    journal: Option<Journal>,
    citationStyles: Option<CitationStyles>,
    authors: seq<Author>,
    citations: Option<seq<CitationShort>>,
    references: Option<seq<CitationShort>>,
    embedding: Option<Embedding>,
    tldr: Option<Tldr>)

  /** The text handed to `from_str`: a JSON string's own contents, any other value's JSON text. */
  function FromStrInput(v: Json.Value): (text: string)
    ensures v.String? ==> text == v.s
    ensures v.Number? && v.n.Int? ==> text == IntToString(v.n.i)
    ensures v.Null? ==> text == "null"
    ensures v.Array? || v.Object? ==> |text| > 0 && (text[0] == '[' || text[0] == '{')
  {
    if v.String? then v.s else Json.ToText(v)
  }

  /**
   * `from_str_optional`: `deser` is the value the deserializer produced, or `None` when it
   * could not produce one. A failure to read a value is swallowed into `Ok(None)`; a
   * failure to parse a value that was read is passed on as the error.
   */
  function FromStrOptional<T, E>(deser: Option<Json.Value>, fromStr: string -> Result<T, E>): (r: Result<Option<T>, E>)
    ensures r == Ok(None) <==> deser.None?
    ensures deser.Some? ==> (r.Err? <==> fromStr(FromStrInput(deser.value)).Err?)
    ensures deser.Some? && r.Ok? ==> r.value == Some(fromStr(FromStrInput(deser.value)).value)
    ensures r.Err? ==> deser.Some? && r.error == fromStr(FromStrInput(deser.value)).error
  {
    match deser
    case None => Ok(None)
    case Some(v) =>
      match fromStr(FromStrInput(v))
      case Ok(x) => Ok(Some(x))
      case Err(e) => Err(e)
  }

  /** A field of an incoming object: absent, or present with whatever the deserializer made of it. */
  datatype Field = Missing | Present(deser: Option<Json.Value>)

  /** `Paper.corpusId`: an absent field takes the default `None`; a present one goes through `from_str_optional` with `i32::from_str`. */
  function CorpusIdField(f: Field): (r: Result<Option<i32>, IntErrorKind>)
    ensures r == Ok(None) <==> f.Missing? || f.deser.None?
    ensures r.Err? ==> f.Present? && f.deser.Some? && ParseI32(FromStrInput(f.deser.value)).Err?
  {
    match f
    case Missing => Ok(None)
    case Present(d) => FromStrOptional(d, ParseI32)
  }

  /** A JSON integer within the `i32` range is read as that integer. */
  lemma CorpusIdFromNumber(i: i32)
    ensures CorpusIdField(Present(Some(Json.Number(Json.Int(i))))) == Ok(Some(i))
  {
    ParseI32RoundTrip(i);
  }

  /** A JSON string holding the decimal text of an `i32` is read as that integer. */
  lemma CorpusIdFromString(x: i32)
    ensures CorpusIdField(Present(Some(Json.String(IntToString(x))))) == Ok(Some(x))
  {
    ParseI32RoundTrip(x);
  }

  /**
   * An integer outside the `i32` range is an overflow error, not `None`: as a string
   * always, and as a number whenever serde_json holds it as an integer.
   */
  lemma CorpusIdOutOfRange(i: int)
    requires i < I32Min || i > I32Max
    ensures CorpusIdField(Present(Some(Json.String(IntToString(i))))) ==
            Err(if i > I32Max then PosOverflow else NegOverflow)
    ensures -0x8000_0000_0000_0000 <= i < 0x1_0000_0000_0000_0000 ==>
            CorpusIdField(Present(Some(Json.Number(Json.Int(i))))) ==
            Err(if i > I32Max then PosOverflow else NegOverflow)
  {
    ParseIntToString(i);
  }

  /**
   * A number serde_json holds as a float (a fraction, an exponent, or an integer literal
   * wider than 64 bits, which it prints in exponent form) is an error as soon as its text
   * has anything but a digit after the first character.
   */
  lemma CorpusIdFromFloat(text: string)
    requires exists k :: 1 <= k < |text| && !IsDigit(text[k])
    ensures CorpusIdField(Present(Some(Json.Number(Json.Float(text))))).Err?
  {
    var k :| 1 <= k < |text| && !IsDigit(text[k]);
    assert FromStrInput(Json.Number(Json.Float(text))) == text;
  }

  /** `null`, booleans, arrays and objects are read but do not parse: an explicit `null` is an error, unlike a missing field. */
  lemma CorpusIdNonNumber(v: Json.Value)
    requires !v.Number? && !v.String?
    ensures CorpusIdField(Present(Some(v))) == Err(InvalidDigit)
  {
    Json.NonNumberText(v);
    ParseRejectsNonNumeric(Json.ToText(v));
  }
}
