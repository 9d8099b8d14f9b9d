/**
 * The vault's persistent state (vault/core.py). The index file is an ordered
 * sequence of (id, metadata) entries, or unparsable. The notes directory
 * maps a note id to the text of its `<id>.txt` file. The failures the file
 * system may produce are an oracle, `Env`, supplied with each call.
 */
module Storage {
  import opened Errors
  import opened Models

  /** One `index["notes"][id]` pair, in dictionary order. */
  datatype Entry = Entry(id: string, meta: Metadata)

  /**
   * What `load_index` finds. `Json(None)` is an index object without a
   * "notes" key; a missing index file reads as that too, being `{}`.
   */
  datatype IndexFile = Corrupt | Json(notes: Option<seq<Entry>>)

  /** The index file and the content files of the notes directory, keyed by note id. */
  datatype Store = Store(index: IndexFile, files: map<string, string>)

  /**
   * The file-system failures a call meets:
   * - dirsFail: creating the vault directories raises OSError;
   * - contentWriteFails / indexWriteFails: opening a content file or the index for writing fails,
 *   before the file is truncated;
   * - unreadable: ids whose content file exists but cannot be read;
   * - unremovable: ids whose content file exists but cannot be removed;
   * - outDirFails: creating an export directory raises OSError;
   * - unwritableExports: export file paths that cannot be opened for writing.
   */
  datatype Env = Env(
    dirsFail: bool,
    contentWriteFails: bool,
    indexWriteFails: bool,
    unreadable: set<string>,
    unremovable: set<string>,
    outDirFails: bool,
    unwritableExports: set<string>)

  /** An environment in which nothing fails. */
  function Healthy(): Env {
    Env(false, false, false, {}, {}, false, {})
  }

  function Ids(es: seq<Entry>): (r: seq<string>)
    ensures |r| == |es|
    ensures forall i :: 0 <= i < |es| ==> r[i] == es[i].id
  {
    seq(|es|, i requires 0 <= i < |es| => es[i].id)
  }

  /** Dictionary keys are unique. */
  predicate UniqueIds(es: seq<Entry>) {
    forall i, j :: 0 <= i < j < |es| ==> es[i].id != es[j].id
  }

  /** The position of `id` in the index, or `|es|` when it is absent. */
  function IndexOf(es: seq<Entry>, id: string): (k: nat)
    ensures k <= |es|
    ensures forall j :: 0 <= j < k ==> es[j].id != id
    ensures k < |es| ==> es[k].id == id
  {
    if |es| == 0 then 0
    else if es[0].id == id then 0
    else 1 + IndexOf(es[1..], id)
  }

  /** The position IndexOf returns is the only one meeting its contract. */
  lemma {:induction false} IndexOfAt(es: seq<Entry>, id: string, k: nat)
    requires k <= |es|
    requires forall j :: 0 <= j < k ==> es[j].id != id
    requires k < |es| ==> es[k].id == id
    ensures IndexOf(es, id) == k
  {
    if |es| > 0 && es[0].id != id {
      IndexOfAt(es[1..], id, k - 1);
    }
  }

  /** `index["notes"].get(id)` */
  function Lookup(es: seq<Entry>, id: string): (r: Option<Metadata>)
    ensures r.Some? <==> id in Ids(es)
  {
    var k := IndexOf(es, id);
    if k < |es| then Some(es[k].meta) else None
  }

  /** `index["notes"][id] = m`: replaced in place when present, appended otherwise. */
  function Put(es: seq<Entry>, id: string, m: Metadata): seq<Entry> {
    var k := IndexOf(es, id);
    if k < |es| then es[k := Entry(id, m)] else es + [Entry(id, m)]
  }

  /** `del index["notes"][id]` */
  function Remove(es: seq<Entry>, id: string): seq<Entry> {
    var k := IndexOf(es, id);
    if k < |es| then es[..k] + es[k + 1..] else es
  }

  /** In a dictionary, the entry stored under an id is the one Lookup finds. */
  lemma LookupUnique(es: seq<Entry>, i: int)
    requires UniqueIds(es) && 0 <= i < |es|
    ensures Lookup(es, es[i].id) == Some(es[i].meta)
  {
    assert IndexOf(es, es[i].id) == i;
  }

  /** After a put, the id maps to the new record, every other id is unchanged, and the keys stay unique. */
  lemma PutLookup(es: seq<Entry>, id: string, m: Metadata)
    ensures Lookup(Put(es, id, m), id) == Some(m)
    ensures forall other :: other != id ==> Lookup(Put(es, id, m), other) == Lookup(es, other)
    ensures UniqueIds(es) ==> UniqueIds(Put(es, id, m))
    ensures Ids(Put(es, id, m)) == if id in Ids(es) then Ids(es) else Ids(es) + [id]
  {
    var r := Put(es, id, m);
    var k := IndexOf(es, id);
    IndexOfAt(r, id, k);
    forall other | other != id
      ensures Lookup(r, other) == Lookup(es, other)
    {
      var ko := IndexOf(es, other);
      if ko < |es| {
        IndexOfAt(r, other, ko);
      } else {
        IndexOfAt(r, other, |r|);
      }
    }
    if id in Ids(es) {
      assert Ids(r) == Ids(es);
    } else {
      assert Ids(r) == Ids(es) + [id];
    }
  }

  /**
   * After a delete, the id is gone, every other id keeps its record, exactly
   * one entry fewer remains when the id was present, and the keys stay unique.
   */
  lemma RemoveLookup(es: seq<Entry>, id: string)
    requires UniqueIds(es)
    ensures Lookup(Remove(es, id), id) == None
    ensures forall other :: other != id ==> Lookup(Remove(es, id), other) == Lookup(es, other)
    ensures UniqueIds(Remove(es, id))
    ensures |Remove(es, id)| == if id in Ids(es) then |es| - 1 else |es|
  {
    var k := IndexOf(es, id);
    if k < |es| {
      RemoveAt(es, k);
      assert id !in Ids(Remove(es, id));
    }
    forall other | other != id
      ensures Lookup(Remove(es, id), other) == Lookup(es, other)
    {
      RemoveOther(es, id, other);
    }
  }

  /** Deleting position `k` shifts the later entries down by one. */
  lemma RemoveAt(es: seq<Entry>, k: nat)
    requires k < |es|
    ensures |es[..k] + es[k + 1..]| == |es| - 1
    ensures forall j :: 0 <= j < |es| - 1 ==> (es[..k] + es[k + 1..])[j] == (if j < k then es[j] else es[j + 1])
  {
  }

  /** Deleting one id leaves the record of any other id as it was. */
  lemma RemoveOther(es: seq<Entry>, id: string, other: string)
    requires UniqueIds(es) && other != id
    ensures Lookup(Remove(es, id), other) == Lookup(es, other)
  {
    var r := Remove(es, id);
    var k := IndexOf(es, id);
    if k < |es| {
      RemoveAt(es, k);
      var ko := IndexOf(es, other);
      if ko < k {
        IndexOfAt(r, other, ko);
      } else if ko < |es| {
        IndexOfAt(r, other, ko - 1);
      } else {
        assert other !in Ids(r);
      }
    }
  }

  /** `load_index` followed by `"notes" in index_data`. */
  function LoadNotes(f: IndexFile): (r: Result<Option<seq<Entry>>>)
    ensures r.Err? <==> f.Corrupt?
    ensures r.Err? ==> r.error == StorageError
    ensures f.Json? ==> r == Ok(f.notes)
  {
    match f
    case Corrupt => Err(StorageError)
    case Json(notes) => Ok(notes)
  }

  /**
   * `save_index`: the vault directories are created first (an OSError there
   * propagates unwrapped), then a failed write is a StorageError.
   */
  function SaveIndex(env: Env, es: seq<Entry>): (r: Result<IndexFile>)
    ensures r.Ok? <==> !env.dirsFail && !env.indexWriteFails
    ensures r.Ok? ==> r.value == Json(Some(es)) && LoadNotes(r.value) == Ok(Some(es))
    ensures env.dirsFail ==> r == Err(OSError)
    ensures !env.dirsFail && env.indexWriteFails ==> r == Err(StorageError)
  {
    if env.dirsFail then Err(OSError)
    else if env.indexWriteFails then Err(StorageError)
    else Ok(Json(Some(es)))
  }

  /** `read_note_content`: a missing file is NoteNotFoundError(id), any other failure a StorageError. */
  function ReadContent(s: Store, env: Env, id: string): (r: Result<string>)
    ensures r.Ok? <==> id in s.files && id !in env.unreadable
    ensures r.Ok? ==> r.value == s.files[id]
    ensures id !in s.files ==> r == Err(NoteNotFound(id))
    ensures id in s.files && id in env.unreadable ==> r == Err(StorageError)
  {
    if id !in s.files then Err(NoteNotFound(id))
    else if id in env.unreadable then Err(StorageError)
    else Ok(s.files[id])
  }

  /**
   * `write_note_content`: the directories are created first (OSError),
   * then a failed write is a StorageError; on success the file holds exactly
   * `content` and no other file changes.
   */
  function WriteContent(files: map<string, string>, env: Env, id: string, content: string): (r: Result<map<string, string>>)
    ensures r.Ok? <==> !env.dirsFail && !env.contentWriteFails
    ensures env.dirsFail ==> r == Err(OSError)
    ensures !env.dirsFail && env.contentWriteFails ==> r == Err(StorageError)
    ensures r.Ok? ==> id in r.value && r.value[id] == content
    ensures r.Ok? ==> r.value.Keys == files.Keys + {id}
    ensures r.Ok? ==> forall other :: other in files && other != id ==> r.value[other] == files[other]
  {
    if env.dirsFail then Err(OSError)
    else if env.contentWriteFails then Err(StorageError)
    else Ok(files[id := content])
  }

  /**
   * `os.remove` of a note's content file: a file already gone is not an
   * error; any other failure is a StorageError; otherwise only that file goes.
   */
  function RemoveFile(files: map<string, string>, env: Env, id: string): (r: Result<map<string, string>>)
    ensures r.Err? <==> id in files && id in env.unremovable
    ensures r.Err? ==> r.error == StorageError
    ensures r.Ok? ==> r.value.Keys == files.Keys - {id}
    ensures r.Ok? ==> forall other :: other in r.value ==> r.value[other] == files[other]
  {
    if id !in files then Ok(files)
    else if id in env.unremovable then Err(StorageError)
    else Ok(files - {id})
  }
}
