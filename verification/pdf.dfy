/**
 * Fetching a document's PDF: the file path derived from the document id, the
 * filesystem effects of `pdf_download` (directory, truncating create, copy of
 * the body) and the `<head>` sniff that rejects HTML pages after they were
 * written.
 */
module Pdf {
  import opened Wrappers
  import opened Text
  import Utf8

  type Bytes = Utf8.Bytes

  /** The directory the PDFs are written to. */
  const PdfDir: string := "data/pdf_temp"

  /** The marker whose presence in a UTF-8 body marks it as an HTML page. */
  const HtmlMarker: string := "<head>"

  predicate IsSeparator(c: char) {
    c == '/' || c == '.'
  }

  /** `.replace('/', "__").replace('.', "__")`: no separator is left, and every other character is kept or is a `_` put in. */
  function ReplaceSeparators(s: string): (r: string)
    ensures '/' !in r && '.' !in r
    ensures forall c :: c in r ==> c in s || c == '_'
  {
    var once := ReplaceChar(s, '/', "__");
    ReplaceCharChars(s, '/', "__");
    ReplaceCharChars(once, '.', "__");
    ReplaceChar(once, '.', "__")
  }

  /**
   * `data/pdf_temp/<stem>.pdf`, the path used by both `pdf_download` and
   * `convert_pdf_to_text`. The stem is the id in snake case (`snake` stands for
   * `to_case(Case::Snake)`), then with the separators replaced. Whatever the id, the
   * file lies directly in the PDF directory: the name holds no `/` (no sub-directory,
   * no `..`) and no `.` of its own.
   */
  function PdfPath(snake: string -> string, id: string): (p: string)
    ensures StripPrefix(p, PdfDir + "/").Some? && StripSuffix(p, ".pdf").Some?
    ensures forall i :: |PdfDir| + 1 <= i < |p| - 4 ==> p[i] != '/' && p[i] != '.'
  {
    var stem := ReplaceSeparators(snake(id));
    var p := PdfDir + "/" + stem + ".pdf";
    assert p == (PdfDir + "/") + (stem + ".pdf");
    StripPrefixConcat(PdfDir + "/", stem + ".pdf");
    StripSuffixConcat(PdfDir + "/" + stem, ".pdf");
    assert forall i :: |PdfDir| + 1 <= i < |p| - 4 ==> p[i] == stem[i - |PdfDir| - 1];
    p
  }

  lemma {:induction false} ReplaceCharAppend(a: string, b: string, c: char, with: string)
    ensures ReplaceChar(a + b, c, with) == ReplaceChar(a, c, with) + ReplaceChar(b, c, with)
    decreases |a|
  {
    if a != [] {
      assert (a + b)[0] == a[0];
      assert (a + b)[1..] == a[1..] + b;
      ReplaceCharAppend(a[1..], b, c, with);
      var head := if a[0] == c then with else [a[0]];
      assert ReplaceChar(a + b, c, with) == head + ReplaceChar(a[1..] + b, c, with);
      assert ReplaceChar(a, c, with) == head + ReplaceChar(a[1..], c, with);
    } else {
      assert a + b == b;
    }
  }

  /** Two strings of equal length that differ only where both hold a separator. */
  predicate SameUpToSeparators(a: string, b: string) {
    |a| == |b| && forall i :: 0 <= i < |a| ==> a[i] == b[i] || (IsSeparator(a[i]) && IsSeparator(b[i]))
  }

  lemma ReplaceSeparatorsAppend(a: string, b: string)
    ensures ReplaceSeparators(a + b) == ReplaceSeparators(a) + ReplaceSeparators(b)
  {
    ReplaceCharAppend(a, b, '/', "__");
    ReplaceCharAppend(ReplaceChar(a, '/', "__"), ReplaceChar(b, '/', "__"), '.', "__");
  }

  lemma SeparatorBecomesUnderscores(c: char)
    requires IsSeparator(c)
    ensures ReplaceSeparators([c]) == "__"
  {
    if c == '/' {
      assert ReplaceChar([c], '/', "__") == "__";
      assert ReplaceChar("__", '.', "__") == "__";
    } else {
      assert ReplaceChar([c], '/', "__") == [c];
      assert ReplaceChar([c], '.', "__") == "__";
    }
  }

  /** Replacing separators erases the difference between `/` and `.`. */
  lemma {:induction false} ReplaceSeparatorsCollapse(a: string, b: string)
    requires SameUpToSeparators(a, b)
    ensures ReplaceSeparators(a) == ReplaceSeparators(b)
    decreases |a|
  {
    if a != [] {
      assert SameUpToSeparators(a[1..], b[1..]) by {
        forall i | 0 <= i < |a[1..]| ensures a[1..][i] == b[1..][i] || (IsSeparator(a[1..][i]) && IsSeparator(b[1..][i])) {
          assert a[1..][i] == a[i + 1] && b[1..][i] == b[i + 1];
        }
      }
      ReplaceSeparatorsCollapse(a[1..], b[1..]);
      assert a == [a[0]] + a[1..];
      assert b == [b[0]] + b[1..];
      ReplaceSeparatorsAppend([a[0]], a[1..]);
      ReplaceSeparatorsAppend([b[0]], b[1..]);
      if a[0] != b[0] {
        SeparatorBecomesUnderscores(a[0]);
        SeparatorBecomesUnderscores(b[0]);
      }
    }
  }

  /** The path derivation is not injective: ids whose snake-cased forms differ only by `/` against `.` share one file. */
  lemma SeparatorsCollide(snake: string -> string, a: string, b: string)
    requires SameUpToSeparators(snake(a), snake(b))
    ensures PdfPath(snake, a) == PdfPath(snake, b)
  {
    ReplaceSeparatorsCollapse(snake(a), snake(b));
  }

  lemma {:induction false} ReplaceCharAbsent(s: string, c: char, with: string)
    requires c !in s
    ensures ReplaceChar(s, c, with) == s
    decreases |s|
  {
    if s != [] {
      assert c !in s[1..];
      ReplaceCharAbsent(s[1..], c, with);
      assert s == [s[0]] + s[1..];
    }
  }

  /** Replacing the separators a second time changes nothing. */
  lemma ReplaceSeparatorsIdempotent(s: string)
    ensures ReplaceSeparators(ReplaceSeparators(s)) == ReplaceSeparators(s)
  {
    var t := ReplaceSeparators(s);
    var once := ReplaceChar(s, '/', "__");
    ReplaceCharChars(s, '/', "__");
    ReplaceCharChars(once, '.', "__");
    assert '/' !in t && '.' !in t;
    ReplaceCharAbsent(t, '/', "__");
    ReplaceCharAbsent(t, '.', "__");
  }

  /**
   * An id whose snake-cased form is another id's snake-cased form with the separators
   * already written as `__` shares that id's file. Whether such a pair exists depends on
   * what `to_case(Case::Snake)` does with doubled underscores, which is not modelled.
   */
  lemma SubstitutedIdCollides(snake: string -> string, a: string, b: string)
    requires snake(b) == ReplaceSeparators(snake(a))
    ensures PdfPath(snake, a) == PdfPath(snake, b)
  {
    ReplaceSeparatorsIdempotent(snake(a));
  }

  /** `create_dir_all`: the directory and all its parents. */
  function DirAndParents(path: string): set<string> {
    (set i | 0 < i < |path| && path[i] == '/' :: path[..i]) + {path}
  }

  /** The part of the filesystem `pdf_download` touches: directories and file contents. */
  class FileSystem {
    var dirs: set<string>
    var files: map<string, Bytes>

    constructor (dirs0: set<string>, files0: map<string, Bytes>)
      ensures dirs == dirs0 && files == files0
    {
      dirs := dirs0;
      files := files0;
    }

    /** `fs::create_dir_all`. */
    method CreateDirAll(path: string)
      modifies this`dirs
      ensures dirs == old(dirs) + DirAndParents(path)
    {
      dirs := dirs + DirAndParents(path);
    }

    /** `File::create`: creates the file, or truncates it to nothing. */
    method Create(path: string)
      modifies this`files
      ensures files == old(files)[path := []]
    {
      files := files[path := []];
    }

    /** Writing through an open file: the bytes go after what the file already holds. */
    method Append(path: string, data: Bytes)
      requires path in files
      modifies this`files
      ensures files == old(files)[path := old(files)[path] + data]
    {
      files := files[path := files[path] + data];
    }
  }

  /** What the HTTP exchange gave: no response at all, or a status and a body that could or could not be read. */
  datatype Transfer = SendFailed | Responded(status: int, body: Option<Bytes>)

  /** Whether creating the directory and the file succeed. */
  datatype Disk = Disk(mkdirOk: bool, createOk: bool)

  /** Why `pdf_download` fails. `NotAPdf` carries the refused text; the message's `{:#?}` rendering of it is left abstract. */
  datatype FetchError =
    | RequestFailed
    | CreateDirFailed
    | CreateFileFailed
    | BodyReadFailed
    | NotAPdf(text: string)

  /** The content check: a body that is UTF-8 text containing `<head>` is refused; anything else passes. */
  function Sniff(body: Bytes): (r: Result<(), FetchError>)
    ensures r.Err? <==> Utf8.Decode(body).Some? && Contains(Utf8.Decode(body).value, HtmlMarker)
    ensures r.Err? ==> r.error == NotAPdf(Utf8.Decode(body).value)
  {
    match Utf8.Decode(body)
    case Some(text) => if Contains(text, HtmlMarker) then Err(NotAPdf(text)) else Ok(())
    case None => Ok(())
  }

  /** The result of `pdf_download`, step by step. */
  function DownloadResult(t: Transfer, d: Disk): (r: Result<(), FetchError>)
    ensures r.Ok? || r.error.NotAPdf? ==> t.Responded? && d.mkdirOk && d.createOk && t.body.Some?
  {
    if t.SendFailed? then Err(RequestFailed)
    else if !d.mkdirOk then Err(CreateDirFailed)
    else if !d.createOk then Err(CreateFileFailed)
    else
      match t.body
      case None => Err(BodyReadFailed)
      case Some(b) => Sniff(b)
  }

  /** The file contents after `pdf_download`. */
  function FilesAfter(files: map<string, Bytes>, snake: string -> string, id: string, t: Transfer, d: Disk): (r: map<string, Bytes>)
    ensures forall p :: p != PdfPath(snake, id) ==> (p in r <==> p in files)
    ensures forall p :: p != PdfPath(snake, id) && p in files ==> r[p] == files[p]
  {
    if t.SendFailed? || !d.mkdirOk || !d.createOk then files
    else files[PdfPath(snake, id) := t.body.GetOr([])]
  }

  /** The directories after `pdf_download`. */
  function DirsAfter(dirs: set<string>, t: Transfer, d: Disk): (r: set<string>)
    ensures dirs <= r && r - dirs <= DirAndParents(PdfDir)
  {
    if t.SendFailed? || !d.mkdirOk then dirs else dirs + DirAndParents(PdfDir)
  }

  /** `pdf_download(doi, url)`: the exchange with `url` is given as `t`. */
  method PdfDownload(fs: FileSystem, snake: string -> string, doi: string, t: Transfer, d: Disk)
    returns (r: Result<(), FetchError>)
    modifies fs
    ensures r == DownloadResult(t, d)
    ensures fs.files == FilesAfter(old(fs.files), snake, doi, t, d)
    ensures fs.dirs == DirsAfter(old(fs.dirs), t, d)
  {
    if t.SendFailed? {
      return Err(RequestFailed);
    }
    if !d.mkdirOk {
      return Err(CreateDirFailed);
    }
    fs.CreateDirAll(PdfDir);
    var path := PdfPath(snake, doi);
    if !d.createOk {
      return Err(CreateFileFailed);
    }
    fs.Create(path);
    if t.body.None? {
      return Err(BodyReadFailed);
    }
    var content := t.body.value;
    fs.Append(path, content);
    assert [] + content == content;
    match Utf8.Decode(content) {
      case Some(text) =>
        if Contains(text, HtmlMarker) {
          return Err(NotAPdf(text));
        }
      case None =>
    }
    return Ok(());
  }

  /** A body is refused exactly when the request, the directory and the file all succeeded, the body was read, and it is UTF-8 text containing `<head>`. */
  lemma RejectedIffHtml(t: Transfer, d: Disk)
    ensures DownloadResult(t, d).Err? && DownloadResult(t, d).error.NotAPdf? <==>
            t.Responded? && d.mkdirOk && d.createOk && t.body.Some? &&
            Utf8.Decode(t.body.value).Some? && Contains(Utf8.Decode(t.body.value).value, HtmlMarker)
  {
  }

  /** A body is accepted exactly when it is read and is either not UTF-8 or UTF-8 without `<head>`: no `%PDF` signature is required. */
  lemma AcceptedIff(t: Transfer, d: Disk)
    ensures DownloadResult(t, d) == Ok(()) <==>
            t.Responded? && d.mkdirOk && d.createOk && t.body.Some? &&
            (Utf8.Decode(t.body.value).None? || !Contains(Utf8.Decode(t.body.value).value, HtmlMarker))
  {
  }

  /** On success and on the `<head>` refusal alike, the file at the derived path holds the whole body: the write precedes the check. */
  lemma WrittenBeforeSniff(files: map<string, Bytes>, snake: string -> string, id: string, t: Transfer, d: Disk)
    requires DownloadResult(t, d) == Ok(()) || (DownloadResult(t, d).Err? && DownloadResult(t, d).error.NotAPdf?)
    ensures t.Responded? && t.body.Some?
    ensures FilesAfter(files, snake, id, t, d) == files[PdfPath(snake, id) := t.body.value]
  {
  }

  /** A failed request, directory or file creation leaves the files as they were; a failed body read leaves an empty file. */
  lemma FailureEffects(files: map<string, Bytes>, snake: string -> string, id: string, t: Transfer, d: Disk)
    ensures DownloadResult(t, d) in {Err(RequestFailed), Err(CreateDirFailed), Err(CreateFileFailed)} ==>
            FilesAfter(files, snake, id, t, d) == files
    ensures DownloadResult(t, d) == Err(BodyReadFailed) ==>
            FilesAfter(files, snake, id, t, d) == files[PdfPath(snake, id) := []]
  {
  }

  /** The HTTP status code is never looked at. */
  lemma StatusCodeIgnored(files: map<string, Bytes>, snake: string -> string, id: string, s1: int, s2: int, body: Option<Bytes>, d: Disk)
    ensures DownloadResult(Responded(s1, body), d) == DownloadResult(Responded(s2, body), d)
    ensures FilesAfter(files, snake, id, Responded(s1, body), d) == FilesAfter(files, snake, id, Responded(s2, body), d)
  {
  }

  /** An ASCII page containing `<head>` is refused, with its text, even though it was written to disk. */
  lemma {:induction false} HtmlPageRejected(status: int, page: string)
    requires forall i :: 0 <= i < |page| ==> page[i] < 128 as char
    requires Contains(page, HtmlMarker)
    ensures DownloadResult(Responded(status, Some(Utf8.AsciiBytes(page))), Disk(true, true)) == Err(NotAPdf(page))
  {
    Utf8.DecodeAsciiBytes(page);
  }

  /** An empty body passes the check: nothing asks for PDF content. */
  lemma EmptyBodyAccepted(status: int)
    ensures DownloadResult(Responded(status, Some([])), Disk(true, true)) == Ok(())
  {
  }

  /** Bytes that are not UTF-8 always pass the check. */
  lemma NonUtf8Accepted(status: int, body: Bytes)
    requires Utf8.Decode(body).None?
    ensures DownloadResult(Responded(status, Some(body)), Disk(true, true)) == Ok(())
  {
  }
}
