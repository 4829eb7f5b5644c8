# scholar-search core, modelled in Dafny

This project models the bookkeeping core of the scholar-search web server. The
server searches Semantic Scholar, shows papers and their citations, and "clones"
a paper by downloading its PDF. The following parts are modelled:

- **Status store** (`state.dfy`): the persistent key/value store (`StateMach`)
  and the six-state PDF status machine (`PdfFileStatus`, its labels, the
  tolerant `check_file_status` reader).
- **PDF fetch** (`pdf.dfy`): the id → file path derivation and the effects of
  `pdf_download` on a modelled filesystem. The body is written first, then
  sniffed for `<head>`.
- **Clone handler** (`server.dfy`): `api_paper_clone`, which short-circuits
  when the status is not `none`, writes `accpeted`, downloads, writes
  `downloaded` on success and answers with the status read back. Also the
  no-op `api_paper_bookmark`.
- **Record conversions** (`table.dfy`, `page_detail.dfy`): search results,
  paper details and citations flattened into the page templates' records.
- **URL builders** (`citations.dfy`, `paper_fetch.dfy`): the Semantic Scholar
  request URLs, each with a reader that recovers the request from the URL.
- **Records and `from_str_optional`** (`data.dfy`, `json.dfy`): the API
  records, and the deserialisation helper for `corpusId`.
- **Standard-library behaviour** (`text.dfy`, `numbers.dfy`, `utf8.dfy`,
  `rustdebug.dfy`): the Rust behaviour the code relies on.
  - `str::find`/`contains`/`split`/`join`/`replace`
  - `i32` `Display` and `FromStr`
  - `String::from_utf8` (RFC 3629)
  - the `{:?}` rendering of a `Vec<String>`

The label `accpeted` is spelled as in the code.

## Design notes

- The store is a class over `map<string, string>`. Its ghost `writes` log
  records every write in order. The clone handler also returns a ghost trace of
  its store writes and its download, in the order they happen, so "accepted
  before the download" can be stated.
- The download's network outcome is a parameter:
  - `Transfer` covers the request failing, or a response whose body could or
    could not be read.
  - `Disk` covers directory and file creation.
  - The filesystem is a class over `map<string, bytes>` and a set of
    directories.
- `convert_case`'s snake casing is a function-typed parameter `snake`. Every
  statement about paths holds for any `snake`.
- Three behaviours of the code are worth stating:
  - **Shared paths.** The id → path mapping is not injective. `/` and `.` both
    become `__`, so `10.1145` and `10/1145` share one file whenever the snake
    casing leaves both separators alone (`Pdf.SeparatorsCollide`).
    `Pdf.SubstitutedIdCollides` states the general condition: an id whose
    snake form is another id's substituted form shares that id's path.
  - **No status order.** `State.StateMach.SetFileStatus` accepts any status
    over any other, so a status can move backwards.
  - **Explicit `null` corpusId.** It is an error, not `None`
    (`ScholarData.CorpusIdNonNumber`). Only a missing field defaults to
    `None`.
- `table.rs:158,161` calls `unwrap_or_default` on `fields_of_study` and
  `authors`. `data.rs:146,153` declares both as plain lists. The model follows
  the declarations, so the conversion copies them unchanged.

## Model

| member | source | states |
|---|---|---|
| State.Label | src/axum_server/state/mod.rs:96-107 | The label of every status other than `None` is one of the five labels `check_file_status` recognises; `None` prints as `none`, which it does not recognise. |
| State.StatusOf | src/axum_server/state/mod.rs:116-128 | An absent value reads as `None`. A status other than `None` is read only from a recognised label, and it is exactly that status's label. |
| State.LabelInjective | src/axum_server/state/mod.rs:96-107 | The six status labels are pairwise distinct: equal labels mean equal statuses. |
| State.StatusOfLabel | src/axum_server/state/mod.rs:116-128 | Reading back any variant's label gives that variant. `none` comes back as `None` through the fallback arm. |
| State.StatusOfRecognised | src/axum_server/state/mod.rs:116-128 | A stored value reads as a status other than `None` exactly when it is one of the five recognised labels; that status's label is the value. |
| State.ReadAfterWrite | src/axum_server/state/mod.rs:24-30 | After writing `v` at `k`, reading `k` gives `v`; every other key reads as before. |
| State.ReadAfterDelete | src/axum_server/state/mod.rs:32-34 | After deleting `k`, reading `k` gives nothing; every other key reads as before. |
| State.SetThenCheck | src/axum_server/state/mod.rs:130-135 | Storing a status's label and checking that id gives the status back, for all six statuses. |
| State.StateMach.constructor | src/axum_server/state/mod.rs:12-15 | Opening the store gives the persisted contents and an empty write log. |
| State.StateMach.Get | src/axum_server/state/mod.rs:17-22 | Returns the stored value when the key is present, nothing otherwise. |
| State.StateMach.Set | src/axum_server/state/mod.rs:24-30 | Both branches insert, so `set` overwrites unconditionally. The new store is the old one with `key := value`, and the write is logged. |
| State.StateMach.Delete | src/axum_server/state/mod.rs:32-34 | The new store is the old one without `key`. |
| State.StateMach.GetAll | src/axum_server/state/mod.rs:36-47 | Returns exactly the stored pairs, each key once: its keys are the store's keys, each value is the stored one, and it has as many pairs as the store has keys. |
| State.StateMach.Clear | src/axum_server/state/mod.rs:49-51 | The store becomes empty. |
| State.StateMach.CheckFileStatus | src/axum_server/state/mod.rs:116-128 | An absent key reads as `None`. A status other than `None` means the key holds that status's label. |
| State.StateMach.SetFileStatusRaw | src/axum_server/state/mod.rs:130-132 | Stores the raw text under the paper id. |
| State.StateMach.SetFileStatus | src/axum_server/state/mod.rs:133-135 | Stores the status's label, whatever was there before (no ordering), and checking the id afterwards gives that status. |
| Pdf.ReplaceSeparators | src/axum_server/api/pdf.rs:24-27 | The substituted name contains no `/` and no `.`; every character is kept from the input or is an inserted `_`. |
| Pdf.PdfPath | src/axum_server/api/pdf.rs:24-28 | Whatever the id, the path is `data/pdf_temp/` + name + `.pdf`, and the name holds no `/` and no `.`: the file lies directly in the PDF directory, with no sub-directory and no `..`. |
| Pdf.ReplaceSeparatorsCollapse | src/axum_server/api/pdf.rs:26-27 | Strings that differ only by `/` against `.` give the same name. |
| Pdf.SeparatorsCollide | src/axum_server/api/pdf.rs:44-48 | The single derivation shared by `pdf_download` and `convert_pdf_to_text` is not injective: such ids share one path. |
| Pdf.ReplaceSeparatorsIdempotent | src/axum_server/api/pdf.rs:26-27 | Substituting separators in an already substituted name changes nothing. |
| Pdf.SubstitutedIdCollides | src/axum_server/api/pdf.rs:24-28 | An id whose snake form equals another id's substituted form shares that id's path. |
| Pdf.Sniff | src/axum_server/api/pdf.rs:33-38 | A body is refused exactly when it is UTF-8 text containing `<head>`. The error then carries that text; the message's `{:#?}` rendering of it is abstracted. |
| Pdf.DownloadResult | src/axum_server/api/pdf.rs:20-40 | Acceptance or the `<head>` refusal happens only after the request, the directory, the file and the body read have all succeeded. |
| Pdf.FilesAfter | src/axum_server/api/pdf.rs:28-31 | No file other than the derived path appears, disappears or changes. |
| Pdf.DirsAfter | src/axum_server/api/pdf.rs:23 | Directories are only added, and only the PDF directory and its parents. |
| Pdf.FileSystem.CreateDirAll | src/axum_server/api/pdf.rs:23 | Adds the directory and all its parents. |
| Pdf.FileSystem.Create | src/axum_server/api/pdf.rs:28 | Creates or truncates the file to empty; nothing else changes. |
| Pdf.FileSystem.Append | src/axum_server/api/pdf.rs:29-31 | Appends the copied bytes to the file. |
| Pdf.PdfDownload | src/axum_server/api/pdf.rs:10-41 | Its result, files and directories equal the step-by-step functions (`DownloadResult`, `FilesAfter`, `DirsAfter`) of the same exchange. |
| Pdf.RejectedIffHtml | src/axum_server/api/pdf.rs:33-38 | The result is the not-a-PDF error exactly when everything succeeded and the body is UTF-8 containing `<head>`. |
| Pdf.AcceptedIff | src/axum_server/api/pdf.rs:33-40 | The result is `Ok` exactly when everything succeeded and the body is not UTF-8, or is UTF-8 without `<head>`. There is no `%PDF` check. |
| Pdf.WrittenBeforeSniff | src/axum_server/api/pdf.rs:28-38 | On `Ok` and on the `<head>` rejection alike, the file at the derived path holds the whole body. |
| Pdf.FailureEffects | src/axum_server/api/pdf.rs:20-29 | Request, directory or file-creation failures leave the files unchanged. A body-read failure leaves an empty file at the path. |
| Pdf.StatusCodeIgnored | src/axum_server/api/pdf.rs:20-40 | The HTTP status code affects neither the result nor the files. |
| Pdf.HtmlPageRejected | src/axum_server/api/pdf.rs:33-38 | An ASCII page containing `<head>` is refused with its text. |
| Pdf.EmptyBodyAccepted | src/axum_server/api/pdf.rs:33-40 | An empty body is accepted. |
| Pdf.NonUtf8Accepted | src/axum_server/api/pdf.rs:33-40 | A body that is not UTF-8 is accepted, whatever it holds. |
| Server.Clone | src/axum_server/mod.rs:161-184 | The download runs exactly when the status found is `None`. The response is the label of the status read back from the store the handler leaves. |
| Server.ApiPaperClone | src/axum_server/mod.rs:153-185 | Its store, files, directories, write log, trace of writes and download, response, and whether it downloaded all equal the pure clone function `Clone`. |
| Server.CloneShortCircuit | src/axum_server/mod.rs:161-184 | When the status is not `None`: no download, no write, nothing changes, and the response is the stored label. |
| Server.CloneDownloaded | src/axum_server/mod.rs:162-184 | When the status is `None` and the download succeeds, the paper ends `downloaded` and the response is `downloaded`. |
| Server.CloneFailed | src/axum_server/mod.rs:163-184 | When the status is `None` and the download fails, the paper stays `accpeted` and the response is `accpeted`. |
| Server.CloneWritesAcceptedFirst | src/axum_server/mod.rs:161-166 | The download happens exactly when the handler writes. It is of the paper's own PDF and comes right after the `accpeted` write. `downloaded` is written only right after the download. Every write is to the paper's key. |
| Server.CloneOnlyPaperKey | src/axum_server/mod.rs:163-166 | No key other than the paper id changes. |
| Server.CloneFileAtPaperIdPath | src/axum_server/mod.rs:164 | The download is keyed by the paper id, not the DOI: only that id's path can change. |
| Server.CloneIdempotent | src/axum_server/mod.rs:161-164 | A second request for the same paper never downloads and changes nothing, whatever either exchange gives. |
| Server.ApiPaperBookmark | src/axum_server/mod.rs:197-225 | Answers with an empty status and cannot modify the store. |
| ScholarData.FromStrInput | src/semantic_scholar_api/data.rs:44-50 | A JSON string is parsed from its contents without quotes. An integer is parsed from its decimal text, `null` from `null`, and arrays and objects from text opening with a bracket. |
| ScholarData.FromStrOptional | src/semantic_scholar_api/data.rs:37-53 | `Ok(None)` exactly when no value could be read. Otherwise it parses the string's contents, or the JSON text of any other value. A parse failure is passed on as the error, never turned into `None`. |
| ScholarData.CorpusIdField | src/semantic_scholar_api/data.rs:12-13 | `corpusId` is `None` exactly when the field is missing or unreadable. Any error is a failure of `i32::from_str`. |
| ScholarData.CorpusIdFromNumber | src/semantic_scholar_api/data.rs:48-50 | A JSON integer in the `i32` range is read as that integer. |
| ScholarData.CorpusIdFromString | src/semantic_scholar_api/data.rs:45-47 | A JSON string holding an `i32`'s decimal text is read as that integer. |
| ScholarData.CorpusIdOutOfRange | src/semantic_scholar_api/data.rs:45-50 | An integer outside `i32` is an overflow error on its side. This holds as a string for every integer, and as a number within the `i64`/`u64` range serde_json holds as integers. |
| ScholarData.CorpusIdFromFloat | src/semantic_scholar_api/data.rs:48-50 | A number serde_json holds as a float is an error when its text has a non-digit after the first character. That covers fractions, exponents and integer literals wider than 64 bits. |
| ScholarData.CorpusIdNonNumber | src/semantic_scholar_api/data.rs:48-50 | `null`, booleans, arrays and objects are errors. |
| Numbers.IntToString | src/axum_server/template/table.rs:51 | `to_string` of an integer is non-empty decimal digits, with a leading `-` exactly for negative values. |
| Numbers.ParseI32 | src/semantic_scholar_api/data.rs:45-50 | `from_str` reports `Empty` exactly for empty text. It accepts only text made of an optional sign and at least one digit. |
| Numbers.ParseI32RoundTrip | src/semantic_scholar_api/data.rs:45-47 | `i32::from_str` of an `i32`'s decimal text gives it back. |
| Numbers.ParseIntToString | src/semantic_scholar_api/data.rs:45-50 | The decimal text of any integer parses to it when in range, else to the overflow on its side. |
| Numbers.ParseRejectsNonNumeric | src/semantic_scholar_api/data.rs:48-50 | Text opening with neither a digit nor a sign is an invalid-digit error. |
| Utf8.Decode | src/axum_server/api/pdf.rs:33 | The empty byte string decodes to the empty text. Decoded text is never longer than its bytes. |
| Utf8.DecodeAscii | src/axum_server/api/pdf.rs:33 | ASCII bytes are valid UTF-8 and decode to the same characters. |
| Utf8.DecodeAsciiBytes | src/axum_server/api/pdf.rs:33 | Encoding ASCII text and decoding it gives the text back. |
| Utf8.InvalidLeadRejected | src/axum_server/api/pdf.rs:33 | Bytes opening with 0xC0, 0xC1 or 0xF5 and above are not UTF-8. |
| Text.IndexOf | src/axum_server/api/pdf.rs:35 | The first occurrence of a pattern, or none when it occurs nowhere. |
| Text.SplitJoin | src/axum_server/template/table.rs:42-48 | Splitting a `join` at its separator gives the parts back when no part holds the separator's first character. |
| RustDebug.DebugList | src/axum_server/template/table.rs:26-36 | The rendering is bracketed, and it is `[]` exactly for the empty list. |
| RustDebug.DebugListRoundTrip | src/axum_server/template/table.rs:26-36 | The `{:?}` rendering of a list of strings reads back as exactly that list. |
| Citations.ListUrl | src/semantic_scholar_api/critions.rs:58-64 | The URL reads back as its request, for every id and endpoint. The id is not escaped, but the window is found from the right, so an id holding `?`, `&`, `?offset=` or `&limit=` still reads back. |
| Citations.CitingUrl | src/semantic_scholar_api/critions.rs:58-64 | `to_url` gives a URL of the `citations` endpoint that reads back as the request, whatever the id holds. |
| Citations.FetchCitingUrl | src/semantic_scholar_api/critions.rs:77-81 | `fetch_citing` requests the citations list of the request and never a references list. |
| Citations.FetchReferencesUrl | src/semantic_scholar_api/critions.rs:96-100 | `fetch_references` as written requests no references list. It requests the citations list of the request. |
| Citations.ReferencesUrl | src/semantic_scholar_api/critions.rs:96-100 | The corrected URL reads back as the request's references list and never as a citations list. |
| Citations.ListUrlRoundTrip | src/semantic_scholar_api/critions.rs:58-64 | The base, the id, `/` + endpoint + `?offset=`, the offset, `&limit=`, the limit and the fields read back as the request. The id may be any text. |
| Citations.ListUrlInjective | src/semantic_scholar_api/critions.rs:58-64 | Distinct requests give distinct list URLs of one endpoint. |
| Citations.FetchReferencesIsCitations | src/semantic_scholar_api/critions.rs:96-100 | For every request, `fetch_references` requests the same URL as `fetch_citing`, which differs from the references URL. |
| Citations.CitationsIsNotReferences | src/semantic_scholar_api/critions.rs:58-64 | A citations URL never reads as a references URL. |
| Citations.ReferencesIsNotCitations | src/semantic_scholar_api/critions.rs:96-100 | A references URL never reads as a citations URL. |
| Citations.DefaultCitingUrl | src/semantic_scholar_api/critions.rs:67-75 | The default request is the empty id, offset 0 and limit 100. |
| PaperFetch.BulkUrl | src/semantic_scholar_api/paper_fetch.rs:30-40 | For a query without `&`, the URL reads back as its query and date verbatim, sort `citationCount:desc`, and the minimum count twice with the same value. |
| PaperFetch.BulkUrlRoundTrip | src/semantic_scholar_api/paper_fetch.rs:30-40 | The base, the query, the fixed fields and sort, the counts and the date read back as the request when the query holds no `&`. |
| PaperFetch.BulkUrlNotInjective | src/semantic_scholar_api/paper_fetch.rs:30-40 | The query is not escaped, so two distinct requests can share a URL. One request's query repeats the fixed middle of the URL, and the other request's date does. |
| PaperFetch.DefaultBulkUrl | src/semantic_scholar_api/paper_fetch.rs:42-50 | The default search is the empty query, minimum 3 citations, and year `2023`. |
| PaperFetch.DetailUrl | src/semantic_scholar_api/paper_fetch.rs:73 | The detail URL reads back as its paper id, whatever the id holds. |
| PaperFetch.DetailUrlRoundTrip | src/semantic_scholar_api/paper_fetch.rs:73 | The base, the id and the fixed fields list read back as the id. |
| PaperFetch.DetailUrlInjective | src/semantic_scholar_api/paper_fetch.rs:73 | Distinct ids give distinct detail URLs. |
| PaperFetch.DetailAsksForEmbeddingAndTldr | src/semantic_scholar_api/paper_fetch.rs:73 | The detail request's fields end with `embedding,tldr`. |
| Table.TableRowFromPaper | src/axum_server/template/table.rs:22-57 | Keywords are always empty. The id and title are copied. Abstract, venue, open-access flag and both counts are copied when present, else `""`, `""`, `false`, 0 and 0. The author text is `""` without authors and the one name for a single author. |
| Table.ExternalIdText | src/axum_server/template/table.rs:24-37 | The id text is empty exactly without ids. Otherwise it is a bracketed, non-empty list rendering. |
| Table.ExternalIdTextReadsBack | src/axum_server/template/table.rs:24-37 | The id text is empty exactly without ids. Otherwise it reads back as the six ids in the order DOI, PubMed, PubMed Central, arXiv, DBLP, MAG, with absent ones as `""`. |
| Table.TableRowExternalIds | src/axum_server/template/table.rs:24-41 | The same holds for the row's `external_id`. |
| Table.TableRowAuthors | src/axum_server/template/table.rs:42-48 | The author text splits at `", "` back into the names in input order when no name holds a comma. |
| Table.TableRowYear | src/axum_server/template/table.rs:51 | The year text parses back to the year, or 0 when absent. |
| Table.ExternalIdEntry | src/axum_server/template/table.rs:102-131 | Only the seven fixed keys ever carry an id. |
| Table.ExternalIdsMap | src/axum_server/template/table.rs:102-131 | A key is present exactly when its id is. Each value is that id, and the corpus id is in decimal. Only the seven fixed keys occur. |
| Table.InsertPresent | src/axum_server/template/table.rs:104-129 | One `if id.is_some() { insert }` step: afterwards the map holds exactly the paper's ids over the keys handled so far, this key included. |
| Table.TldrMap | src/axum_server/template/table.rs:132-136 | The keys are exactly `model` and `text` with the summary's values when there is a summary; otherwise the map is empty. |
| Table.OpenAccessPdfMap | src/axum_server/template/table.rs:138-142 | It panics exactly when the link is present but lacks its URL (checked first) or its status. Otherwise the keys are exactly `url` and `status`, or none. |
| Table.DetailPrintFrom | src/axum_server/template/table.rs:99-180 | The conversion panics only for the open-access link. Otherwise it builds the three maps as above. corpusId defaults to 0; `references_count` and `citations_count` equal the counts; every other field is copied or defaulted. |
| PageDetail.CitingRowFromDaum | src/axum_server/template/page_detail.rs:38-79 | It panics exactly when the citing paper has no author list. Otherwise contexts, intents and the influence flag are copied unchanged. |
| PageDetail.CitingRowMatchesTableRow | src/axum_server/template/page_detail.rs:40-77 | With authors present, the citation row shows the paper exactly as the search row does: id, ids text, title, authors, keywords, abstract, year, venue, flag and counts. |
| PageDetail.MissingAuthorsDiffer | src/axum_server/template/page_detail.rs:62-69 | Without authors the search row shows `""`, while the citation row panics. |
| PageDetail.CitingRowReadsBack | src/axum_server/template/page_detail.rs:40-72 | The citation row's ids read back as the six ids, or are empty without ids. Its year reads back as the year or 0. |

## Left out

- sled's durability: `snapshot`, the flush on drop, the on-disk location and the panics on store I/O. The store is an in-memory map.
- State.StateMach.GetAll: the order of the pairs (sled iterates in key-byte order) is not stated, only the contents.
- Concurrency: the handlers run one at a time. The check-then-set race between two concurrent clone requests is not modelled.
- HTTP transport: the client, headers, cookies and body streaming. Their outcome is the `Transfer` parameter. `url` is not an input of the model.
- The JSON fetches `fetch_citing`, `fetch_references`, `fetch_papers` and `fetch_paper_detail` are modelled only through the URLs they request.
- Pdf.PdfDownload: a failure of the byte copy after the file is created, and a `create_dir_all` that fails halfway, are not modelled.
- `convert_pdf_to_text`: only its path derivation is modelled. Loading the PDF and reading its table of contents belong to the `lopdf` library.
- `convert_case`'s snake casing is a parameter, not a definition.
- RustDebug.DebugListRoundTrip: `{:?}` escaping is modelled for ASCII. Non-printable and grapheme-extending non-ASCII characters, which Rust escapes as `\u{..}`, are written unescaped.
- PaperFetch.BulkUrl: reads back only for a query without `&`. The query is not escaped, and a query holding `&` can make two requests share one URL (`PaperFetch.BulkUrlNotInjective`).
- Json.JsonNumber: integer literals beyond `i64`/`u64` are held as floats, as serde_json reads them. Their exponent text is kept abstract, not derived from the integer.
- `Embedding.vector` (floats) is not part of the model. JSON floats keep serde_json's text as given.
- Logging (`println!`, `tracing`), the router, the other page handlers, the askama templates and both `main.rs` files.

## Findings

| source | as written | input that shows it | evidently intended | confidence | as-written member | corrected member |
|---|---|---|---|---|---|---|
| src/semantic_scholar_api/critions.rs:96-100 | `fetch_references` builds its URL with `to_url`, which always names the `/citations` endpoint | any request, e.g. paper id `p`, offset 0, limit 100: `fetch_references` asks for `…/paper/p/citations?…` | request the paper's `/references` list | high; not executed | Citations.FetchReferencesIsCitations | Citations.ReferencesUrl |
