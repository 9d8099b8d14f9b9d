/**
 * The Note entity of vault/models.py: construction with validated fields and
 * defaulted id, timestamps and filename; the metadata record stored in the
 * index (`to_dict`) and its inverse (`from_dict`); and the `update_*`
 * mutators. The clock and the uuid generator are parameters (`now`,
 * `freshId`); timestamps are opaque integers, so `isoformat` and
 * `fromisoformat` are the identity here.
 */
module Models {
  import opened Errors
  import opened Text
  import opened Fields

  type Timestamp = int

  /** The extension of a defaulted filename. */
  const NoteExtension := ".md"

  /** The observable state of a Note. */
  datatype NoteData = NoteData(
    id: string,
    title: string,
    content: string,
    tags: Option<seq<string>>,
    createdAt: Timestamp,
    lastModified: Timestamp,
    filename: string)

  /**
   * One note's record in the index: a JSON object whose keys may each be
   * absent (None). There is no content key: content lives in its own file.
   */
  datatype Metadata = Metadata(
    id: Option<string>,
    title: Option<string>,
    tags: Option<seq<string>>,
    createdAt: Option<Timestamp>,
    lastModified: Option<Timestamp>,
    filename: Option<string>)

  /** The keys a metadata record holds. */
  function Keys(m: Metadata): set<string> {
    (if m.id.Some? then {"id"} else {}) +
    (if m.title.Some? then {"title"} else {}) +
    (if m.tags.Some? then {"tags"} else {}) +
    (if m.createdAt.Some? then {"created_at"} else {}) +
    (if m.lastModified.Some? then {"last_modified"} else {}) +
    (if m.filename.Some? then {"filename"} else {})
  }

  /** The notes every field validator accepts. */
  predicate WellFormed(n: NoteData) {
    IsTitle(n.title) && IsContent(n.content) && (n.tags.Some? ==> IsTagList(n.tags.value))
  }

  /** The title, content and tags gates in the order `__init__` assigns them. */
  function AdmitTitle(v: Value): Result<Option<string>> {
    Admit(Title, true, v, ValidateTitle)
  }

  function AdmitContent(v: Value): Result<Option<string>> {
    Admit(Content, true, v, ValidateContent)
  }

  function AdmitTags(v: Value): Result<Option<seq<string>>> {
    Admit(Tags, false, v, ValidateTags)
  }

  /**
   * `Note.__init__`: the id is the given one or a fresh one; title, content
   * and tags run through their validators and the first failure is raised;
   * created_at defaults to now, last_modified to created_at and filename to
   * the id with the `.md` extension.
   */
  function Build(title: Value, content: Value, tags: Value, id: Option<string>,
                 createdAt: Option<Timestamp>, lastModified: Option<Timestamp>,
                 filename: Option<string>, freshId: string, now: Timestamp): (r: Result<NoteData>)
    ensures r.Ok? <==> AdmitTitle(title).Ok? && AdmitContent(content).Ok? && AdmitTags(tags).Ok?
    ensures AdmitTitle(title).Err? ==> r == Err(AdmitTitle(title).error)
    ensures AdmitTitle(title).Ok? && AdmitContent(content).Err? ==> r == Err(AdmitContent(content).error)
    ensures AdmitTitle(title).Ok? && AdmitContent(content).Ok? && AdmitTags(tags).Err? ==>
      r == Err(AdmitTags(tags).error)
    ensures r.Ok? ==> WellFormed(r.value)
    ensures r.Ok? ==> title == Str(r.value.title) && content == Str(r.value.content)
    ensures r.Ok? ==> r.value.tags == (if tags.Null? then None else Some(ValidateTags(tags).value))
    ensures r.Ok? ==> r.value.id == id.GetOr(freshId)
    ensures r.Ok? ==> r.value.createdAt == createdAt.GetOr(now)
    ensures r.Ok? ==> r.value.lastModified == lastModified.GetOr(r.value.createdAt)
    ensures r.Ok? ==> r.value.filename == filename.GetOr(r.value.id + NoteExtension)
  {
    var theId := id.GetOr(freshId);
    var t :- AdmitTitle(title);
    var c :- AdmitContent(content);
    var g :- AdmitTags(tags);
    var created := createdAt.GetOr(now);
    var n := NoteData(theId, t.value, c.value, g, created, lastModified.GetOr(created),
                      filename.GetOr(theId + NoteExtension));
    if g.Some? then ValidTagsShape(tags); Ok(n) else Ok(n)
  }

  /** When all three fields are admitted, the built record holds exactly the admitted values and the defaults. */
  lemma BuildAdmitted(title: Value, content: Value, tags: Value, id: Option<string>,
                      createdAt: Option<Timestamp>, lastModified: Option<Timestamp>,
                      filename: Option<string>, freshId: string, now: Timestamp)
    requires AdmitTitle(title).Ok? && AdmitContent(content).Ok? && AdmitTags(tags).Ok?
    ensures var theId := id.GetOr(freshId);
      var created := createdAt.GetOr(now);
      Build(title, content, tags, id, createdAt, lastModified, filename, freshId, now) ==
        Ok(NoteData(theId, title.s, content.s, AdmitTags(tags).value, created,
                    lastModified.GetOr(created), filename.GetOr(theId + NoteExtension)))
  {
  }

  /**
   * `to_dict`: exactly the keys id, title, tags, created_at, last_modified
   * and filename, never the content; missing tags become the empty list.
   */
  function ToDict(n: NoteData): (m: Metadata)
    ensures Keys(m) == {"id", "title", "tags", "created_at", "last_modified", "filename"}
    ensures "content" !in Keys(m)
    ensures m.id == Some(n.id) && m.title == Some(n.title) && m.filename == Some(n.filename)
    ensures m.createdAt == Some(n.createdAt) && m.lastModified == Some(n.lastModified)
    ensures m.tags == Some(if n.tags.None? then [] else n.tags.value)
  {
    Metadata(Some(n.id), Some(n.title), Some(n.tags.GetOr([])), Some(n.createdAt),
             Some(n.lastModified), Some(n.filename))
  }

  /**
   * `from_dict`: a record without a title is a KeyError; otherwise the note
   * is constructed from the record's values, a missing tags key giving the
   * empty list and the other missing keys taking their construction defaults.
   */
  function FromDict(m: Metadata, content: string, freshId: string, now: Timestamp): (r: Result<NoteData>)
    ensures m.title.None? ==> r == Err(KeyError("title"))
    ensures r.Ok? ==> m.title == Some(r.value.title) && r.value.content == content
    ensures r.Ok? ==> r.value.tags == Some(Normalize(m.tags.GetOr([])))
    ensures r.Ok? ==> r.value.id == m.id.GetOr(freshId)
    ensures r.Ok? ==> r.value.filename == m.filename.GetOr(r.value.id + NoteExtension)
    ensures r.Ok? ==> r.value.createdAt == m.createdAt.GetOr(now)
    ensures r.Ok? ==> r.value.lastModified == m.lastModified.GetOr(r.value.createdAt)
    ensures m.title.Some? ==>
      (r.Ok? <==> IsTitle(m.title.value) && IsContent(content) && ValidateTags(StrList(m.tags.GetOr([]))).Ok?)
  {
    if m.title.None? then Err(KeyError("title"))
    else
      Build(Str(m.title.value), Str(content), StrList(m.tags.GetOr([])), m.id,
            m.createdAt, m.lastModified, m.filename, freshId, now)
  }

  /**
   * Round trip: rebuilding a note from its index record and its content
   * reproduces every field, with absent tags turned into the empty list.
   */
  lemma RoundTrip(n: NoteData, freshId: string, now: Timestamp)
    requires WellFormed(n)
    ensures FromDict(ToDict(n), n.content, freshId, now) == Ok(n.(tags := Some(n.tags.GetOr([]))))
  {
    TagListAccepted(n.tags.GetOr([]));
  }

  /** Every note construction produces survives the round trip. */
  lemma BuiltRoundTrip(title: Value, content: Value, tags: Value, id: Option<string>,
                       createdAt: Option<Timestamp>, lastModified: Option<Timestamp>,
                       filename: Option<string>, freshId: string, now: Timestamp,
                       freshId': string, now': Timestamp)
    requires Build(title, content, tags, id, createdAt, lastModified, filename, freshId, now).Ok?
    ensures var n := Build(title, content, tags, id, createdAt, lastModified, filename, freshId, now).value;
      FromDict(ToDict(n), n.content, freshId', now') == Ok(n.(tags := Some(n.tags.GetOr([]))))
  {
    RoundTrip(Build(title, content, tags, id, createdAt, lastModified, filename, freshId, now).value,
              freshId', now');
  }

  /** A minimal note: defaults as the constructor assigns them. */
  lemma MinimalConstruction(title: string, content: string, freshId: string, now: Timestamp)
    requires IsTitle(title) && IsContent(content)
    ensures Build(Str(title), Str(content), Null, None, None, None, None, freshId, now) ==
      Ok(NoteData(freshId, title, content, None, now, now, freshId + ".md"))
  {
  }

  /** A Note object: the fields `__init__` assigns and the mutators change. */
  class Note {
    var id: string
    var title: string
    var content: string
    var tags: Option<seq<string>>
    var createdAt: Timestamp
    var lastModified: Timestamp
    var filename: string

    function Data(): NoteData
      reads this
    {
      NoteData(id, title, content, tags, createdAt, lastModified, filename)
    }

    ghost predicate Valid()
      reads this
    {
      WellFormed(Data())
    }

    /** An object with its id set and no descriptor field assigned yet. */
    constructor Blank(id: string, now: Timestamp)
      ensures Data() == NoteData(id, "", "", None, now, now, "")
    {
      this.id := id;
      title, content, tags := "", "", None;
      createdAt, lastModified := now, now;
      filename := "";
    }

    /** `self.title = v` through the TitleField descriptor. */
    method SetTitle(v: Value) returns (err: Option<Error>)
      modifies this
      ensures AdmitTitle(v).Ok? ==> err == None && Data() == old(Data()).(title := v.s)
      ensures AdmitTitle(v).Err? ==> err == Some(AdmitTitle(v).error) && Data() == old(Data())
    {
      var a := AdmitTitle(v);
      if a.Err? {
        return Some(a.error);
      }
      title := a.value.value;
      err := None;
    }

    /** `self.content = v` through the ContentField descriptor. */
    method SetContent(v: Value) returns (err: Option<Error>)
      modifies this
      ensures AdmitContent(v).Ok? ==> err == None && Data() == old(Data()).(content := v.s)
      ensures AdmitContent(v).Err? ==> err == Some(AdmitContent(v).error) && Data() == old(Data())
    {
      var a := AdmitContent(v);
      if a.Err? {
        return Some(a.error);
      }
      content := a.value.value;
      err := None;
    }

    /** `self.tags = v` through the TagsField descriptor (optional: None is stored). */
    method SetTags(v: Value) returns (err: Option<Error>)
      modifies this
      ensures AdmitTags(v).Ok? ==> err == None && Data() == old(Data()).(tags := AdmitTags(v).value)
      ensures AdmitTags(v).Err? ==> err == Some(AdmitTags(v).error) && Data() == old(Data())
    {
      var a := AdmitTags(v);
      if a.Err? {
        return Some(a.error);
      }
      tags := a.value;
      err := None;
    }

    /** `Note.__init__`: a new object exactly when Build succeeds, holding what Build computes. */
    static method New(title: Value, content: Value, tags: Value, id: Option<string>,
                      createdAt: Option<Timestamp>, lastModified: Option<Timestamp>,
                      filename: Option<string>, freshId: string, now: Timestamp) returns (r: Result<Note>)
      ensures var b := Build(title, content, tags, id, createdAt, lastModified, filename, freshId, now);
        (r.Ok? <==> b.Ok?) &&
        (r.Ok? ==> fresh(r.value) && r.value.Data() == b.value && r.value.Valid()) &&
        (r.Err? ==> r.error == b.error)
    {
      var n := new Note.Blank(id.GetOr(freshId), now);
      var e := n.AssignFields(title, content, tags);
      if e.Some? {
        return Err(e.value);
      }
      n.createdAt := createdAt.GetOr(now);
      n.lastModified := lastModified.GetOr(n.createdAt);
      n.filename := filename.GetOr(n.id + NoteExtension);
      BuildAdmitted(title, content, tags, id, createdAt, lastModified, filename, freshId, now);
      r := Ok(n);
    }

    /** The three descriptor assignments of `__init__`, in order; the first refusal stops them. */
    method AssignFields(title: Value, content: Value, tags: Value) returns (err: Option<Error>)
      modifies this
      ensures err.None? <==> AdmitTitle(title).Ok? && AdmitContent(content).Ok? && AdmitTags(tags).Ok?
      ensures AdmitTitle(title).Err? ==> err == Some(AdmitTitle(title).error)
      ensures AdmitTitle(title).Ok? && AdmitContent(content).Err? ==> err == Some(AdmitContent(content).error)
      ensures AdmitTitle(title).Ok? && AdmitContent(content).Ok? && AdmitTags(tags).Err? ==>
        err == Some(AdmitTags(tags).error)
      ensures err.None? ==>
        Data() == old(Data()).(title := title.s, content := content.s, tags := AdmitTags(tags).value)
    {
      err := SetTitle(title);
      if err.Some? {
        return;
      }
      err := SetContent(content);
      if err.Some? {
        return;
      }
      err := SetTags(tags);
    }

    /** `update_title`: revalidate, replace the title and set last_modified to now; nothing changes on failure. */
    method UpdateTitle(v: Value, now: Timestamp) returns (err: Option<Error>)
      modifies this
      ensures AdmitTitle(v).Ok? ==> err == None && Data() == old(Data()).(title := v.s, lastModified := now)
      ensures AdmitTitle(v).Err? ==> err == Some(AdmitTitle(v).error) && Data() == old(Data())
      ensures old(Valid()) ==> Valid()
    {
      err := SetTitle(v);
      if err.None? {
        lastModified := now;
      }
    }

    /** `update_content`: revalidate, replace the content and set last_modified to now. */
    method UpdateContent(v: Value, now: Timestamp) returns (err: Option<Error>)
      modifies this
      ensures AdmitContent(v).Ok? ==> err == None && Data() == old(Data()).(content := v.s, lastModified := now)
      ensures AdmitContent(v).Err? ==> err == Some(AdmitContent(v).error) && Data() == old(Data())
      ensures old(Valid()) ==> Valid()
    {
      err := SetContent(v);
      if err.None? {
        lastModified := now;
      }
    }

    /** `update_tags`: revalidate, replace the tags with their normal form and set last_modified to now. */
    method UpdateTags(v: Value, now: Timestamp) returns (err: Option<Error>)
      modifies this
      ensures AdmitTags(v).Ok? ==> err == None && Data() == old(Data()).(tags := AdmitTags(v).value, lastModified := now)
      ensures AdmitTags(v).Err? ==> err == Some(AdmitTags(v).error) && Data() == old(Data())
      ensures old(Valid()) ==> Valid()
    {
      err := SetTags(v);
      if err.None? {
        if !v.Null? {
          ValidTagsShape(v);
        }
        lastModified := now;
      }
    }
  }
}
