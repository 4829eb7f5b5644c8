/**
 * The acquisition handler `api_paper_clone`: read the document's status, and
 * only when it is `None` mark it accepted, download the PDF, and mark it
 * downloaded on success; then answer with the status read back. Also the
 * placeholder handler `api_paper_bookmark`.
 */
module Server {
  import opened Wrappers
  import State
  import Pdf

  /** The clone form: the paper id, its DOI and the PDF's URL. */
  datatype PaperCloneRequest = PaperCloneRequest(paperId: string, doi: string, url: string)
  datatype PaperCloneResponse = PaperCloneResponse(status: string)
  datatype PaperBookmarkRequest = PaperBookmarkRequest(doi: string, url: string)
  datatype PaperBookmarkResponse = PaperBookmarkResponse(status: string)

  /** One step of the handler that others can observe: a store write, or the download of a paper's PDF. */
  datatype Event = Write(key: string, value: string) | Download(paperId: string)

  /**
   * Everything one clone request does: the new store, files and directories, the
   * writes to the store in order, the writes and the download in the order they
   * happen, the response label, and whether the download ran.
   */
  datatype CloneEffect = CloneEffect(
    store: map<string, string>,
    files: map<string, Pdf.Bytes>,
    dirs: set<string>,
    writes: seq<(string, string)>,
    events: seq<Event>,
    status: string,
    fetched: bool)

  /** The status the handler finds before doing anything. */
  function StatusBefore(store: map<string, string>, req: PaperCloneRequest): State.PdfFileStatus {
    State.StatusOf(State.Lookup(store, req.paperId))
  }

  /** The effect of `api_paper_clone` on a store, a filesystem and a download outcome. */
  function Clone(store: map<string, string>, files: map<string, Pdf.Bytes>, dirs: set<string>,
                 snake: string -> string, req: PaperCloneRequest, t: Pdf.Transfer, d: Pdf.Disk): (e: CloneEffect)
    ensures e.fetched <==> StatusBefore(store, req) == State.PdfFileStatus.None
    ensures e.status == State.Label(State.StatusOf(State.Lookup(e.store, req.paperId)))
  {
    var id := req.paperId;
    var before := StatusBefore(store, req);
    if before != State.PdfFileStatus.None then
      assert State.Lookup(store, id) == State.Lookup(store, req.paperId);
      CloneEffect(store, files, dirs, [], [], State.Label(before), false)
    else
      var ok := Pdf.DownloadResult(t, d).Ok?;
      var accepted := store[id := State.Label(State.Accpeted)];
      var final := if ok then accepted[id := State.Label(State.Downloaded)] else accepted;
      var writes := [(id, State.Label(State.Accpeted))] + (if ok then [(id, State.Label(State.Downloaded))] else []);
      var events := [Write(id, State.Label(State.Accpeted)), Download(id)]
                    + (if ok then [Write(id, State.Label(State.Downloaded))] else []);
      CloneEffect(final, Pdf.FilesAfter(files, snake, id, t, d), Pdf.DirsAfter(dirs, t, d), writes, events,
                  State.Label(State.StatusOf(State.Lookup(final, id))), true)
  }

  /**
   * `api_paper_clone`. The exchange with `payload.url` is given as `t` and the
   * disk's behaviour as `d`; `attempted` records whether `pdf_download` ran, and
   * `events` each store write and the download as they happen.
   */
  method ApiPaperClone(sm: State.StateMach, fs: Pdf.FileSystem, snake: string -> string,
                       payload: PaperCloneRequest, t: Pdf.Transfer, d: Pdf.Disk)
    returns (resp: PaperCloneResponse, ghost attempted: bool, ghost events: seq<Event>)
    modifies sm, fs
    ensures var e := Clone(old(sm.db), old(fs.files), old(fs.dirs), snake, payload, t, d);
            && sm.db == e.store
            && fs.files == e.files
            && fs.dirs == e.dirs
            && sm.writes == old(sm.writes) + e.writes
            && resp.status == e.status
            && attempted == e.fetched
            && events == e.events
  {
    attempted := false;
    events := [];
    var status := sm.CheckFileStatus(payload.paperId);
    if status == State.PdfFileStatus.None {
      sm.SetFileStatus(payload.paperId, State.Accpeted);
      events := events + [Write(payload.paperId, State.Label(State.Accpeted))];
      attempted := true;
      events := events + [Download(payload.paperId)];
      var r := Pdf.PdfDownload(fs, snake, payload.paperId, t, d);
      match r {
        case Ok(_) =>
          sm.SetFileStatus(payload.paperId, State.Downloaded);
          events := events + [Write(payload.paperId, State.Label(State.Downloaded))];
        case Err(_) =>
      }
    }
    status := sm.CheckFileStatus(payload.paperId);
    resp := PaperCloneResponse(State.Label(status));
  }

  /** A document already past `None` is not downloaded again: nothing changes and its current label is returned. */
  lemma CloneShortCircuit(store: map<string, string>, files: map<string, Pdf.Bytes>, dirs: set<string>,
                          snake: string -> string, req: PaperCloneRequest, t: Pdf.Transfer, d: Pdf.Disk)
    requires StatusBefore(store, req) != State.PdfFileStatus.None
    ensures var e := Clone(store, files, dirs, snake, req, t, d);
            && !e.fetched && e.writes == [] && e.events == []
            && e.store == store && e.files == files && e.dirs == dirs
            && e.status == store[req.paperId]
  {
    State.StatusOfRecognised(store[req.paperId]);
  }

  /** A new document whose download succeeds ends `downloaded`, and the response says so. */
  lemma CloneDownloaded(store: map<string, string>, files: map<string, Pdf.Bytes>, dirs: set<string>,
                        snake: string -> string, req: PaperCloneRequest, t: Pdf.Transfer, d: Pdf.Disk)
    requires StatusBefore(store, req) == State.PdfFileStatus.None
    requires Pdf.DownloadResult(t, d).Ok?
    ensures var e := Clone(store, files, dirs, snake, req, t, d);
            && e.fetched
            && e.store == store[req.paperId := "downloaded"]
            && e.status == "downloaded"
  {
  }

  /** A new document whose download fails stays `accpeted`, and the response says so. */
  lemma CloneFailed(store: map<string, string>, files: map<string, Pdf.Bytes>, dirs: set<string>,
                    snake: string -> string, req: PaperCloneRequest, t: Pdf.Transfer, d: Pdf.Disk)
    requires StatusBefore(store, req) == State.PdfFileStatus.None
    requires Pdf.DownloadResult(t, d).Err?
    ensures var e := Clone(store, files, dirs, snake, req, t, d);
            && e.fetched
            && e.store == store[req.paperId := "accpeted"]
            && e.status == "accpeted"
  {
  }

  /**
   * `accpeted` is written right before the download, whatever its outcome, and
   * `downloaded` only right after it; every write is to the paper's own key, and the
   * download is of the paper's own PDF.
   */
  lemma CloneWritesAcceptedFirst(store: map<string, string>, files: map<string, Pdf.Bytes>, dirs: set<string>,
                                 snake: string -> string, req: PaperCloneRequest, t: Pdf.Transfer, d: Pdf.Disk)
    ensures var e := Clone(store, files, dirs, snake, req, t, d);
            && (e.fetched <==> Download(req.paperId) in e.events)
            && (forall j :: 0 <= j < |e.events| && e.events[j].Download? ==>
                  e.events[j].paperId == req.paperId && 0 < j && e.events[j - 1] == Write(req.paperId, "accpeted"))
            && (forall j :: 0 <= j < |e.events| && e.events[j].Write? && e.events[j].value == "downloaded" ==>
                  0 < j && e.events[j - 1] == Download(req.paperId))
            && (forall j :: 0 <= j < |e.events| && e.events[j].Write? ==> e.events[j].key == req.paperId)
            && (e.fetched ==> e.writes[0] == (req.paperId, "accpeted"))
            && (e.fetched <==> |e.writes| > 0)
            && (forall i :: 0 <= i < |e.writes| ==> e.writes[i].0 == req.paperId)
  {
  }

  /** No key other than the paper id changes. */
  lemma CloneOnlyPaperKey(store: map<string, string>, files: map<string, Pdf.Bytes>, dirs: set<string>,
                          snake: string -> string, req: PaperCloneRequest, t: Pdf.Transfer, d: Pdf.Disk, k: string)
    requires k != req.paperId
    ensures State.Lookup(Clone(store, files, dirs, snake, req, t, d).store, k) == State.Lookup(store, k)
  {
  }

  /** The file is written at the path derived from the paper id (not the DOI); no other file changes. */
  lemma CloneFileAtPaperIdPath(store: map<string, string>, files: map<string, Pdf.Bytes>, dirs: set<string>,
                               snake: string -> string, req: PaperCloneRequest, t: Pdf.Transfer, d: Pdf.Disk, p: string)
    requires p != Pdf.PdfPath(snake, req.paperId)
    ensures var e := Clone(store, files, dirs, snake, req, t, d);
            && (p in e.files <==> p in files)
            && (p in files ==> e.files[p] == files[p])
  {
  }

  /** A second request for the same paper, whatever the first outcome and whatever the second exchange would give, downloads nothing and changes nothing. */
  lemma {:induction false} CloneIdempotent(store: map<string, string>, files: map<string, Pdf.Bytes>, dirs: set<string>,
                                           snake: string -> string, req: PaperCloneRequest,
                                           t1: Pdf.Transfer, d1: Pdf.Disk, t2: Pdf.Transfer, d2: Pdf.Disk)
    ensures var e1 := Clone(store, files, dirs, snake, req, t1, d1);
            var e2 := Clone(e1.store, e1.files, e1.dirs, snake, req, t2, d2);
            && !e2.fetched
            && e2.store == e1.store && e2.files == e1.files && e2.dirs == e1.dirs
            && e2.status == e1.status
  {
    var e1 := Clone(store, files, dirs, snake, req, t1, d1);
    if e1.fetched {
      var s := if Pdf.DownloadResult(t1, d1).Ok? then State.Downloaded else State.Accpeted;
      assert e1.store[req.paperId] == State.Label(s);
      State.StatusOfLabel(s);
      CloneShortCircuit(e1.store, e1.files, e1.dirs, snake, req, t2, d2);
    } else {
      CloneShortCircuit(store, files, dirs, snake, req, t1, d1);
      CloneShortCircuit(e1.store, e1.files, e1.dirs, snake, req, t2, d2);
    }
  }

  /** `api_paper_bookmark`: always answers with an empty status; it has no `modifies` clause, so the store cannot change. */
  method ApiPaperBookmark(sm: State.StateMach, payload: PaperBookmarkRequest) returns (resp: PaperBookmarkResponse)
    ensures resp.status == ""
  {
    resp := PaperBookmarkResponse("");
  }
}
