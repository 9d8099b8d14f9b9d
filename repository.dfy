/**
 * The vault of vault/core.py as an object whose state changes step by step:
 * the index file, the content files and the files written by exports. Each
 * method takes the statements of its Python function in order and is proved
 * to end in the state, and with the result, that the Core function of the
 * same name specifies.
 */
module Repository {
  import opened Errors
  import opened Text
  import opened Fields
  import opened Models
  import opened Storage
  import opened Export
  import opened Core
  import Paths

  class Vault {
    /** The index file. */
    var index: IndexFile
    /** The notes directory: note id to the text of `<id>.txt`. */
    var files: map<string, string>
    /** Files written by exports, by path. */
    var exported: map<string, string>

    function Snapshot(): Store
      reads this
    {
      Store(index, files)
    }

    constructor (index: IndexFile, files: map<string, string>)
      ensures Snapshot() == Store(index, files) && exported == map[]
    {
      this.index := index;
      this.files := files;
      exported := map[];
    }

    /** `_find_note_id_by_title`: the loop over the index that returns at the first exact title. */
    method FindNoteIdByTitle(title: string) returns (r: Result<Option<string>>)
      ensures r == FindIdByTitle(Snapshot(), title)
    {
      if index.Corrupt? {
        return Err(StorageError);
      }
      if index.notes.None? {
        return Ok(None);
      }
      var es := index.notes.value;
      var i := 0;
      while i < |es|
        invariant 0 <= i <= |es|
        invariant forall j :: 0 <= j < i ==> !HasTitle(es[j], title)
      {
        if es[i].meta.title == Some(title) {
          FirstTitleIs(es, title, i);
          return Ok(Some(es[i].id));
        }
        i := i + 1;
      }
      FirstTitleIs(es, title, |es|);
      r := Ok(None);
    }

    /** `_create_note_internal`: write the content, load the index, put the record, save the index. */
    method CreateNoteInternal(n: NoteData, env: Env) returns (r: Result<()>)
      modifies this
      ensures Outcome(Snapshot(), r) == CreateInternal(old(Snapshot()), env, n)
      ensures exported == old(exported)
    {
      // write_note_content
      if env.dirsFail {
        return Err(OSError);
      }
      if env.contentWriteFails {
        return Err(StorageError);
      }
      files := files[n.id := n.content];
      // load_index
      if index.Corrupt? {
        return Err(StorageError);
      }
      var notes := index.notes.GetOr([]);
      notes := Put(notes, n.id, ToDict(n));
      // save_index
      if env.dirsFail {
        return Err(OSError);
      }
      if env.indexWriteFails {
        return Err(StorageError);
      }
      index := Json(Some(notes));
      r := Ok(());
    }

    /** `create_note`: the directories, the duplicate check, the construction, then the store. */
    method CreateNote(title: string, content: string, tags: Value, env: Env, freshId: string, now: Timestamp)
      returns (r: Result<Note>)
      modifies this
      ensures var o := Core.CreateNote(old(Snapshot()), env, title, content, tags, freshId, now);
        Snapshot() == o.store && (r.Ok? <==> o.result.Ok?) &&
        (r.Ok? ==> fresh(r.value) && r.value.Data() == o.result.value && r.value.Valid()) &&
        (r.Err? ==> r.error == o.result.error)
      ensures exported == old(exported)
    {
      // ensure_vault_dirs_exist
      if env.dirsFail {
        return Err(OSError);
      }
      var existing := FindNoteIdByTitle(title);
      if existing.Err? {
        return Err(StorageError);
      }
      if existing.value.Some? {
        return Err(DuplicateTitle(title));
      }
      var note := Note.New(Str(title), Str(content), tags, Some(freshId), None, None, None, freshId, now);
      if note.Err? {
        return Err(note.error);
      }
      var stored := CreateNoteInternal(note.value.Data(), env);
      if stored.Err? {
        return Err(stored.error);
      }
      r := Ok(note.value);
    }

    /**
     * `_delete_note_internal`: find the record, remove the content file when
     * the record names one, delete the entry, save the index.
     */
    method DeleteNoteInternal(id: string, env: Env) returns (r: Result<()>)
      modifies this
      ensures Outcome(Snapshot(), r) == DeleteNote(old(Snapshot()), env, id)
      ensures exported == old(exported)
    {
      if index.Corrupt? {
        return Err(StorageError);
      }
      var notes := index.notes.GetOr([]);
      var meta := Lookup(notes, id);
      if meta.None? {
        return Err(NoteNotFound(id));
      }
      if Truthy(meta.value.filename) {
        // os.remove: a file already gone is ignored
        if id in files {
          if id in env.unremovable {
            return Err(StorageError);
          }
          files := files - {id};
        }
      }
      notes := Remove(notes, id);
      // save_index; its OSError is wrapped as well
      if env.dirsFail || env.indexWriteFails {
        return Err(StorageError);
      }
      index := Json(Some(notes));
      r := Ok(());
    }

    /** `delete_note_by_title` */
    method DeleteNoteByTitle(title: string, env: Env) returns (r: Result<()>)
      modifies this
      ensures Outcome(Snapshot(), r) == Core.DeleteNoteByTitle(old(Snapshot()), env, title)
      ensures exported == old(exported)
    {
      var found := FindNoteIdByTitle(title);
      if found.Err? {
        return Err(StorageError);
      }
      if found.value.None? {
        return Err(NoteNotFound(title));
      }
      r := DeleteNoteInternal(found.value.value, env);
    }

    /** `search_notes`: the loop over the index, appending each hit that can be fetched. */
    method SearchNotes(term: string, env: Env, freshId: string, now: Timestamp) returns (r: Result<seq<NoteData>>)
      ensures r == Search(Snapshot(), env, term, freshId, now)
    {
      if index.Corrupt? {
        return Err(StorageError);
      }
      if index.notes.None? {
        return Ok([]);
      }
      var es := index.notes.value;
      var s := Snapshot();
      var t := Lower(term);
      var matching: seq<NoteData> := [];
      var i := 0;
      while i < |es|
        invariant 0 <= i <= |es|
        invariant matching == SearchEntries(s, env, es[..i], t, freshId, now)
      {
        var e := es[i];
        if TitleHit(e.meta, t) {
          var g := GetNote(s, env, e.id, freshId, now);
          if g.Ok? {
            matching := matching + [g.value];
          }
        } else if TagHit(e.meta, t) {
          var g := GetNote(s, env, e.id, freshId, now);
          if g.Ok? {
            matching := matching + [g.value];
          }
        } else {
          var c := ReadContent(s, env, e.id);
          if c.Ok? && ContentHit(c.value, t) {
            var g := GetNote(s, env, e.id, freshId, now);
            if g.Ok? {
              matching := matching + [g.value];
            }
          }
        }
        assert es[..i + 1][..i] == es[..i];
        i := i + 1;
      }
      assert es[..|es|] == es;
      r := Ok(matching);
    }

    /** The inner loop of `get_all_tags_with_counts`: one increment per tag of entry `e`. */
    static method CountTags(counts: map<string, nat>, e: Entry) returns (c: map<string, nat>)
      ensures c == Tally(counts, TagsOf(e))
    {
      var tags := TagsOf(e);
      c := counts;
      var j := 0;
      while j < |tags|
        invariant 0 <= j <= |tags|
        invariant c == Tally(counts, tags[..j])
      {
        assert tags[..j + 1][..j] == tags[..j];
        c := c[tags[j] := (if tags[j] in c then c[tags[j]] else 0) + 1];
        j := j + 1;
      }
      assert tags[..j] == tags;
    }

    /** `get_all_tags_with_counts`: the counts built entry by entry. */
    method TagsWithCounts() returns (r: Result<map<string, nat>>)
      ensures r == TagCounts(Snapshot())
    {
      if index.Corrupt? {
        return Err(StorageError);
      }
      if index.notes.None? {
        return Ok(map[]);
      }
      var es := index.notes.value;
      var counts: map<string, nat> := map[];
      var i := 0;
      while i < |es|
        invariant 0 <= i <= |es|
        invariant counts == CountMap(es[..i])
      {
        counts := CountTags(counts, es[i]);
        TallyEntry(es[..i], es[i]);
        assert es[..i] + [es[i]] == es[..i + 1];
        i := i + 1;
      }
      assert es[..|es|] == es;
      r := Ok(counts);
    }

    /**
     * `export_notes`: create the output directory, then export entry by
     * entry; the directory is not created when the index has no notes.
     */
    method ExportNotes(outDir: string, env: Env) returns (err: Option<Error>)
      modifies this
      ensures var x := Core.ExportNotes(old(Snapshot()), env, outDir);
        err == x.error && exported == Apply(old(exported), x.written)
      ensures Snapshot() == old(Snapshot())
    {
      if index.Corrupt? {
        return Some(StorageError);
      }
      if index.notes.None? {
        return None;
      }
      if env.outDirFails {
        return Some(OSError);
      }
      err := ExportEach(outDir, env, index.notes.value);
      assert Snapshot() == old(Snapshot());
    }

    /**
     * The loop of `export_notes`: an entry whose content cannot be read is
     * skipped; a file that cannot be written stops the export, the files
     * already written staying.
     */
    method ExportEach(outDir: string, env: Env, es: seq<Entry>) returns (err: Option<Error>)
      modifies this
      ensures var x := ExportEntries(old(Snapshot()), env, outDir, es);
        err == x.error && exported == Apply(old(exported), x.written)
      ensures index == old(index) && files == old(files)
    {
      ghost var s := Snapshot();
      ghost var goal := ExportEntries(s, env, outDir, es);
      ghost var done: seq<ExportFile> := [];
      var i := 0;
      while i < |es|
        invariant 0 <= i <= |es|
        invariant index == old(index) && files == old(files)
        invariant exported == Apply(old(exported), done)
        invariant ExportFrom(s, env, outDir, es, i, done) == goal
      {
        assert Snapshot() == s;
        var f, stop := ExportEntry(outDir, env, es[i]);
        if stop {
          return Some(OSError);
        }
        if f.Some? {
          ApplyAppend(old(exported), done, f.value);
          done := done + [f.value];
        }
        i := i + 1;
      }
      err := None;
    }

    /** One iteration of the export loop: read the content, then write the file. */
    method ExportEntry(outDir: string, env: Env, e: Entry) returns (f: Option<ExportFile>, stop: bool)
      modifies this
      ensures index == old(index) && files == old(files)
      ensures var c := ReadContent(old(Snapshot()), env, e.id);
        if c.Err? then f == None && !stop && exported == old(exported)
        else if ExportFileOf(outDir, e, c.value).path in env.unwritableExports then
          f == None && stop && exported == old(exported)
        else
          f == Some(ExportFileOf(outDir, e, c.value)) && !stop &&
          exported == old(exported)[f.value.path := f.value.body]
    {
      var c := ReadContent(Snapshot(), env, e.id);
      if c.Err? {
        return None, false;
      }
      var title := ExportTitle(e);
      var path := Paths.Join(outDir, ExportFileName(title));
      if path in env.unwritableExports {
        return None, true;
      }
      var body := ExportBody(title, c.value);
      exported := exported[path := body];
      f, stop := Some(ExportFile(path, body)), false;
    }
  }
}
