/**
 * The persistent status store (`StateMach`, a key/value store of strings) and
 * the per-document processing status kept in it (`PdfFileStatus`).
 */
module State {
  import Wrappers

  /** The processing status of one document. The second label keeps the source's spelling. */
  datatype PdfFileStatus = None | Accpeted | Downloaded | Converted | Indexed | Patched

  /** `Display for PdfFileStatus`: the lower-case label stored for a status. */
  function Label(s: PdfFileStatus): (text: string)
    ensures text in RecognisedLabels <==> s != None
    ensures s == None ==> text == "none"
  {
    match s
    case None => "none"
    case Accpeted => "accpeted"
    case Downloaded => "downloaded"
    case Converted => "converted"
    case Indexed => "indexed"
    case Patched => "patched"
  }

  /** The labels `check_file_status` recognises; `"none"` is not among them. */
  const RecognisedLabels: set<string> := {"accpeted", "downloaded", "converted", "indexed", "patched"}

  /** `check_file_status` on the value read for a key: absent or unrecognised values read as `None`. */
  function StatusOf(stored: Wrappers.Option<string>): (s: PdfFileStatus)
    ensures stored.None? ==> s == None
    ensures s != None ==> stored.Some? && stored.value in RecognisedLabels && Label(s) == stored.value
  {
    match stored
    case Some(v) =>
      if v == "accpeted" then Accpeted
      else if v == "downloaded" then Downloaded
      else if v == "converted" then Converted
      else if v == "indexed" then Indexed
      else if v == "patched" then Patched
      else PdfFileStatus.None
    case None => PdfFileStatus.None
  }

  /** `get` on the store's contents. */
  function Lookup(db: map<string, string>, key: string): Wrappers.Option<string> {
    if key in db then Wrappers.Some(db[key]) else Wrappers.None
  }

  /** The six labels are pairwise distinct. */
  lemma LabelInjective(a: PdfFileStatus, b: PdfFileStatus)
    ensures Label(a) == Label(b) <==> a == b
  {
  }

  /** Reading back a written label gives the status that was written, for all six statuses. */
  lemma StatusOfLabel(s: PdfFileStatus)
    ensures StatusOf(Wrappers.Some(Label(s))) == s
  {
  }

  /** A stored value reads as a status other than `None` exactly when it is one of the five recognised labels, and it is then that status's label. */
  lemma StatusOfRecognised(v: string)
    ensures StatusOf(Wrappers.Some(v)) != PdfFileStatus.None <==> v in RecognisedLabels
    ensures StatusOf(Wrappers.Some(v)) != PdfFileStatus.None ==> Label(StatusOf(Wrappers.Some(v))) == v
  {
  }

  /** A write is read back at its key and changes no other key. */
  lemma ReadAfterWrite(db: map<string, string>, k: string, v: string, j: string)
    ensures Lookup(db[k := v], j) == if j == k then Wrappers.Some(v) else Lookup(db, j)
  {
  }

  /** A delete empties its key and changes no other key. */
  lemma ReadAfterDelete(db: map<string, string>, k: string, j: string)
    ensures Lookup(db - {k}, j) == if j == k then Wrappers.None else Lookup(db, j)
  {
  }

  /** Writing a status's label and checking the status gives that status back, whatever was stored before: no transition is refused. */
  lemma SetThenCheck(db: map<string, string>, id: string, s: PdfFileStatus)
    ensures StatusOf(Lookup(db[id := Label(s)], id)) == s
  {
    StatusOfLabel(s);
  }

  /** The keys of a list of pairs. */
  function KeysOf(pairs: seq<(string, string)>): set<string> {
    set i | 0 <= i < |pairs| :: pairs[i].0
  }

  lemma KeysOfSnoc(pairs: seq<(string, string)>, p: (string, string))
    ensures KeysOf(pairs + [p]) == KeysOf(pairs) + {p.0}
  {
    var q := pairs + [p];
    forall k | k in KeysOf(q) ensures k in KeysOf(pairs) + {p.0} {
      var i :| 0 <= i < |q| && q[i].0 == k;
      if i < |pairs| {
        assert pairs[i] == q[i];
      }
    }
    forall k | k in KeysOf(pairs) + {p.0} ensures k in KeysOf(q) {
      if k == p.0 {
        assert q[|pairs|].0 == k;
      } else {
        var i :| 0 <= i < |pairs| && pairs[i].0 == k;
        assert q[i] == pairs[i];
      }
    }
  }

  /** No key occurs twice in a list of pairs. */
  predicate DistinctKeys(pairs: seq<(string, string)>) {
    forall i, j :: 0 <= i < j < |pairs| ==> pairs[i].0 != pairs[j].0
  }

  /** Loop state of `get_all`: `pairs` lists, each once and with its value, the keys not in `remaining`. */
  ghost predicate Listed(db: map<string, string>, pairs: seq<(string, string)>, remaining: set<string>) {
    && remaining <= db.Keys
    && KeysOf(pairs) == db.Keys - remaining
    && (forall i :: 0 <= i < |pairs| ==> pairs[i].0 in db && db[pairs[i].0] == pairs[i].1)
    && DistinctKeys(pairs)
    && |pairs| + |remaining| == |db.Keys|
  }

  lemma ListedStep(db: map<string, string>, pairs: seq<(string, string)>, remaining: set<string>, k: string)
    requires Listed(db, pairs, remaining) && k in remaining
    ensures Listed(db, pairs + [(k, db[k])], remaining - {k})
  {
    var q := pairs + [(k, db[k])];
    KeysOfSnoc(pairs, (k, db[k]));
    forall i | 0 <= i < |pairs| ensures pairs[i].0 != k {
      assert pairs[i].0 in KeysOf(pairs);
    }
    forall i, j | 0 <= i < j < |q| ensures q[i].0 != q[j].0 {
      if j < |pairs| {
        assert q[i] == pairs[i] && q[j] == pairs[j];
      }
    }
  }

  /** The key/value store; `db` is its contents. */
  class StateMach {
    var db: map<string, string>
    /** Every `set` call, in order, as (key, value); used to state the order of writes. */
    ghost var writes: seq<(string, string)>

    /** `StateMach::new`: opens the store holding what was persisted before. */
    constructor (persisted: map<string, string>)
      ensures db == persisted && writes == []
    {
      db := persisted;
      writes := [];
    }

    /** `get`: the stored value, if any. */
    method Get(key: string) returns (v: Wrappers.Option<string>)
      ensures v.Some? <==> key in db
      ensures v.Some? ==> v.value == db[key]
    {
      if key in db {
        v := Wrappers.Some(db[key]);
      } else {
        v := Wrappers.None;
      }
    }

    /** `set`: both branches insert, so this is an unconditional overwrite. */
    method Set(key: string, value: string)
      modifies this
      ensures db == old(db)[key := value]
      ensures writes == old(writes) + [(key, value)]
    {
      var current := Get(key);
      if current.Some? {
        db := db[key := value];
        writes := writes + [(key, value)];
        return;
      }
      db := db[key := value];
      writes := writes + [(key, value)];
    }

    /** `delete`. */
    method Delete(key: string)
      modifies this`db
      ensures db == old(db) - {key}
    {
      db := db - {key};
    }

    /** `get_all`: every stored (key, value) pair, each key once. */
    method GetAll() returns (pairs: seq<(string, string)>)
      ensures KeysOf(pairs) == db.Keys
      ensures forall i :: 0 <= i < |pairs| ==> pairs[i].0 in db && db[pairs[i].0] == pairs[i].1
      ensures DistinctKeys(pairs)
      ensures |pairs| == |db|
    {
      pairs := [];
      var remaining := db.Keys;
      while remaining != {}
        invariant Listed(db, pairs, remaining)
        decreases remaining
      {
        var k :| k in remaining;
        ListedStep(db, pairs, remaining, k);
        pairs := pairs + [(k, db[k])];
        remaining := remaining - {k};
      }
    }

    /** `clear`. */
    method Clear()
      modifies this`db
      ensures db == map[]
    {
      db := map[];
    }

    /** `check_file_status`. */
    method CheckFileStatus(paperId: string) returns (s: PdfFileStatus)
      ensures s == StatusOf(Lookup(db, paperId))
      ensures paperId !in db ==> s == PdfFileStatus.None
      ensures s != PdfFileStatus.None ==> paperId in db && db[paperId] == Label(s)
    {
      var stored := Get(paperId);
      s := StatusOf(stored);
      if stored.Some? {
        StatusOfRecognised(stored.value);
      }
    }

    /** `set_file_status_raw`: stores any text as the label. */
    method SetFileStatusRaw(paperId: string, status: string)
      modifies this
      ensures db == old(db)[paperId := status]
      ensures writes == old(writes) + [(paperId, status)]
    {
      Set(paperId, status);
    }

    /** `set_file_status`: stores the status's label; any status may replace any other. */
    method SetFileStatus(paperId: string, status: PdfFileStatus)
      modifies this
      ensures db == old(db)[paperId := Label(status)]
      ensures writes == old(writes) + [(paperId, Label(status))]
      ensures StatusOf(Lookup(db, paperId)) == status
    {
      Set(paperId, Label(status));
      SetThenCheck(old(db), paperId, status);
    }
  }
}
