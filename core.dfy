/**
 * The operations of vault/core.py as functions of the stored state and the
 * failure oracle: lookups return a Result, state-changing operations return
 * the new state together with their Result. Each function follows the
 * order of steps and the exception handling of the Python function it is
 * named after; the lemmas state what those steps add up to.
 */
module Core {
  import opened Errors
  import opened Text
  import opened Fields
  import opened Models
  import opened Storage
  import opened Export
  import Paths

  /** The state after an operation and what the operation returned or raised. */
  datatype Outcome<T> = Outcome(store: Store, result: Result<T>)

  /** The dictionary invariant of the index: ids are unique. */
  predicate ValidStore(s: Store) {
    s.index.Json? && s.index.notes.Some? ==> UniqueIds(s.index.notes.value)
  }

  /** The entries of the index, empty when it has no "notes" key. */
  function EntriesOf(s: Store): seq<Entry>
    requires s.index.Json?
  {
    s.index.notes.GetOr([])
  }

  // ----- Title lookup -----

  predicate HasTitle(e: Entry, title: string) {
    e.meta.title == Some(title)
  }

  /** `k` is the first position, in index order, whose record carries `title`. */
  predicate FirstTitleAt(es: seq<Entry>, title: string, k: int) {
    0 <= k < |es| && HasTitle(es[k], title) && forall j :: 0 <= j < k ==> !HasTitle(es[j], title)
  }

  function FirstTitle(es: seq<Entry>, title: string): (k: nat)
    ensures k <= |es|
    ensures forall j :: 0 <= j < k ==> !HasTitle(es[j], title)
    ensures k < |es| ==> HasTitle(es[k], title)
  {
    if |es| == 0 then 0
    else if HasTitle(es[0], title) then 0
    else 1 + FirstTitle(es[1..], title)
  }

  /** The position FirstTitle returns is the only one meeting its contract. */
  lemma {:induction false} FirstTitleIs(es: seq<Entry>, title: string, k: nat)
    requires k <= |es|
    requires forall j :: 0 <= j < k ==> !HasTitle(es[j], title)
    requires k < |es| ==> HasTitle(es[k], title)
    ensures FirstTitle(es, title) == k
  {
    if |es| > 0 && !HasTitle(es[0], title) {
      FirstTitleIs(es[1..], title, k - 1);
    }
  }

  /** `_find_note_id_by_title`: the id of the first entry whose title is exactly `title`. */
  function FindIdByTitle(s: Store, title: string): (r: Result<Option<string>>)
    ensures s.index.Corrupt? ==> r == Err(StorageError)
    ensures s.index == Json(None) ==> r == Ok(None)
    ensures s.index.Json? ==> r.Ok?
    ensures s.index.Json? ==>
      (r.value.None? <==> forall i :: 0 <= i < |EntriesOf(s)| ==> !HasTitle(EntriesOf(s)[i], title))
    ensures s.index.Json? && r.value.Some? ==>
      exists k :: FirstTitleAt(EntriesOf(s), title, k) && EntriesOf(s)[k].id == r.value.value
  {
    match s.index
    case Corrupt => Err(StorageError)
    case Json(notes) =>
      var es := notes.GetOr([]);
      var k := FirstTitle(es, title);
      if k < |es| then
        assert FirstTitleAt(es, title, k) && HasTitle(EntriesOf(s)[k], title);
        Ok(Some(es[k].id))
      else Ok(None)
  }

  // ----- Reading notes -----

  /**
   * `_get_note_internal`: an id missing from the index, and a missing content
   * file, are NoteNotFoundError(id); an unparsable index, an unreadable file and a
   * record `from_dict` refuses, are StorageError; otherwise the note rebuilt
   * from its record and its content.
   */
  function GetNote(s: Store, env: Env, id: string, freshId: string, now: Timestamp): (r: Result<NoteData>)
    ensures s.index.Corrupt? ==> r == Err(StorageError)
    ensures s.index.Json? && id !in Ids(EntriesOf(s)) ==> r == Err(NoteNotFound(id))
    ensures s.index.Json? && id in Ids(EntriesOf(s)) && id !in s.files ==> r == Err(NoteNotFound(id))
    ensures r.Err? ==> r.error == StorageError || r.error == NoteNotFound(id)
    ensures s.index.Json? && id in Ids(EntriesOf(s)) && id in s.files && r.Err? ==> r.error == StorageError
    ensures r.Ok? <==>
      (s.index.Json? && id in Ids(EntriesOf(s)) && ReadContent(s, env, id).Ok? &&
       FromDict(Lookup(EntriesOf(s), id).value, s.files[id], freshId, now).Ok?)
    ensures r.Ok? ==> r.value == FromDict(Lookup(EntriesOf(s), id).value, s.files[id], freshId, now).value
    ensures r.Ok? ==> r.value.content == s.files[id] && WellFormed(r.value)
  {
    match s.index
    case Corrupt => Err(StorageError)
    case Json(notes) =>
      var es := notes.GetOr([]);
      if Lookup(es, id).None? then Err(NoteNotFound(id))
      else
        match ReadContent(s, env, id)
        case Err(e) => Err(e)
        case Ok(content) =>
          match FromDict(Lookup(es, id).value, content, freshId, now)
          case Ok(n) =>
            assert Build(Str(n.title), Str(content), StrList(Lookup(es, id).value.tags.GetOr([])),
                         Lookup(es, id).value.id, Lookup(es, id).value.createdAt,
                         Lookup(es, id).value.lastModified, Lookup(es, id).value.filename, freshId, now) == Ok(n);
            Ok(n)
          case Err(_) => Err(StorageError)
  }

  /** `get_note_by_title`: the title lookup, then the id lookup; no match is NoteNotFoundError(title). */
  function GetNoteByTitle(s: Store, env: Env, title: string, freshId: string, now: Timestamp): (r: Result<NoteData>)
    ensures s.index.Corrupt? ==> r == Err(StorageError)
    ensures FindIdByTitle(s, title) == Ok(None) ==> r == Err(NoteNotFound(title))
    ensures FindIdByTitle(s, title).Ok? && FindIdByTitle(s, title).value.Some? ==>
      r == GetNote(s, env, FindIdByTitle(s, title).value.value, freshId, now)
  {
    match FindIdByTitle(s, title)
    case Err(e) => Err(e)
    case Ok(None) => Err(NoteNotFound(title))
    case Ok(Some(id)) => GetNote(s, env, id, freshId, now)
  }

  /** `get_all_titles`: one title per entry in index order, "" for a record without one. */
  function Titles(s: Store): (r: Result<seq<string>>)
    ensures s.index.Corrupt? ==> r == Err(StorageError)
    ensures s.index == Json(None) ==> r == Ok([])
    ensures s.index.Json? ==> r.Ok? && |r.value| == |EntriesOf(s)|
    ensures s.index.Json? ==>
      forall i :: 0 <= i < |EntriesOf(s)| ==> r.value[i] == EntriesOf(s)[i].meta.title.GetOr("")
  {
    match s.index
    case Corrupt => Err(StorageError)
    case Json(notes) =>
      var es := notes.GetOr([]);
      Ok(seq(|es|, i requires 0 <= i < |es| => es[i].meta.title.GetOr("")))
  }

  // ----- Search -----

  predicate TitleHit(m: Metadata, t: string) {
    Contains(Lower(m.title.GetOr("")), t)
  }

  predicate TagHit(m: Metadata, t: string) {
    exists i :: 0 <= i < |m.tags.GetOr([])| && Contains(Lower(m.tags.GetOr([])[i]), t)
  }

  predicate ContentHit(content: string, t: string) {
    Contains(Lower(content), t)
  }

  /** The lowered term occurs in the lowered title, in some lowered tag, or in the lowered content. */
  predicate Hit(m: Metadata, content: string, t: string) {
    TitleHit(m, t) || TagHit(m, t) || ContentHit(content, t)
  }

  function Found(r: Result<NoteData>): Option<NoteData> {
    if r.Ok? then Some(r.value) else None
  }

  /**
   * One iteration of the `search_notes` loop with the lowered term `t`:
   * the title is checked, then the tags, then the content; a hit fetches the
   * note, and a failed fetch or read skips the entry.
   */
  function SearchStep(s: Store, env: Env, e: Entry, t: string, freshId: string, now: Timestamp): Option<NoteData> {
    if TitleHit(e.meta, t) then Found(GetNote(s, env, e.id, freshId, now))
    else if TagHit(e.meta, t) then Found(GetNote(s, env, e.id, freshId, now))
    else
      match ReadContent(s, env, e.id)
      case Err(_) => None
      case Ok(c) => if ContentHit(c, t) then Found(GetNote(s, env, e.id, freshId, now)) else None
  }

  /** An entry is in the result as `n`: it can be fetched as `n` and it is a hit. */
  predicate IncludedAs(s: Store, env: Env, e: Entry, t: string, freshId: string, now: Timestamp, n: NoteData) {
    GetNote(s, env, e.id, freshId, now) == Ok(n) && Hit(e.meta, n.content, t)
  }

  /** The results of the loop over the entries `es`, in their order. */
  function SearchEntries(s: Store, env: Env, es: seq<Entry>, t: string, freshId: string, now: Timestamp): (r: seq<NoteData>)
    ensures |r| <= |es|
    decreases |es|
  {
    if |es| == 0 then []
    else
      var rest := SearchEntries(s, env, es[..|es| - 1], t, freshId, now);
      match SearchStep(s, env, es[|es| - 1], t, freshId, now)
      case Some(n) => rest + [n]
      case None => rest
  }

  /** `search_notes` */
  function Search(s: Store, env: Env, term: string, freshId: string, now: Timestamp): (r: Result<seq<NoteData>>)
    ensures r.Err? <==> s.index.Corrupt?
    ensures r.Err? ==> r.error == StorageError
    ensures s.index == Json(None) ==> r == Ok([])
    ensures r.Ok? ==> |r.value| <= |EntriesOf(s)|
  {
    match s.index
    case Corrupt => Err(StorageError)
    case Json(None) => Ok([])
    case Json(Some(es)) => Ok(SearchEntries(s, env, es, Lower(term), freshId, now))
  }

  /** The three-step loop body selects exactly the entries that can be fetched and are a hit. */
  lemma SearchStepSpec(s: Store, env: Env, e: Entry, t: string, freshId: string, now: Timestamp)
    ensures SearchStep(s, env, e, t, freshId, now).Some? <==>
      GetNote(s, env, e.id, freshId, now).Ok? && Hit(e.meta, GetNote(s, env, e.id, freshId, now).value.content, t)
    ensures SearchStep(s, env, e, t, freshId, now).Some? ==>
      SearchStep(s, env, e, t, freshId, now).value == GetNote(s, env, e.id, freshId, now).value
  {
    var g := GetNote(s, env, e.id, freshId, now);
    if !TitleHit(e.meta, t) && !TagHit(e.meta, t) {
      if ReadContent(s, env, e.id).Err? {
        assert g.Err?;
      }
    }
  }

  /**
   * Search results, in index order: a note is in the result exactly when some
   * entry can be fetched as that note and the lowered term occurs in its
   * lowered title, one of its lowered tags or its lowered content.
   */
  lemma {:induction false} SearchMembership(s: Store, env: Env, es: seq<Entry>, t: string, freshId: string, now: Timestamp, n: NoteData)
    ensures n in SearchEntries(s, env, es, t, freshId, now) <==>
      exists i :: 0 <= i < |es| && IncludedAs(s, env, es[i], t, freshId, now, n)
    decreases |es|
  {
    if |es| > 0 {
      var init := es[..|es| - 1];
      var last := es[|es| - 1];
      SearchMembership(s, env, init, t, freshId, now, n);
      SearchStepSpec(s, env, last, t, freshId, now);
      assert es == init + [last];
      IncludedSplitLast(s, env, es, init, last, t, freshId, now, n);
    }
  }

  /** Splitting the last entry off an existential over the entries. */
  lemma IncludedSplitLast(s: Store, env: Env, es: seq<Entry>, init: seq<Entry>, last: Entry, t: string, freshId: string, now: Timestamp, n: NoteData)
    requires es == init + [last]
    ensures (exists i :: 0 <= i < |es| && IncludedAs(s, env, es[i], t, freshId, now, n)) <==>
      (exists i :: 0 <= i < |init| && IncludedAs(s, env, init[i], t, freshId, now, n)) ||
      IncludedAs(s, env, last, t, freshId, now, n)
  {
    if exists i :: 0 <= i < |es| && IncludedAs(s, env, es[i], t, freshId, now, n) {
      var i :| 0 <= i < |es| && IncludedAs(s, env, es[i], t, freshId, now, n);
      if i < |init| {
        assert init[i] == es[i];
      }
    }
    if exists i :: 0 <= i < |init| && IncludedAs(s, env, init[i], t, freshId, now, n) {
      var i :| 0 <= i < |init| && IncludedAs(s, env, init[i], t, freshId, now, n);
      assert es[i] == init[i];
    }
    assert es[|init|] == last;
  }

  /** Results follow index order: searching a prefix of the index gives a prefix of the results. */
  lemma {:induction false} SearchPrefix(s: Store, env: Env, es: seq<Entry>, k: nat, t: string, freshId: string, now: Timestamp)
    requires k <= |es|
    ensures SearchEntries(s, env, es[..k], t, freshId, now) <= SearchEntries(s, env, es, t, freshId, now)
    decreases |es|
  {
    if k < |es| {
      var init := es[..|es| - 1];
      assert init[..k] == es[..k];
      SearchPrefix(s, env, init, k, t, freshId, now);
    } else {
      assert es[..k] == es;
    }
  }

  /** An entry contributes at most one result: the results are the fetched notes of the included entries, one each. */
  lemma {:induction false} SearchCount(s: Store, env: Env, es: seq<Entry>, t: string, freshId: string, now: Timestamp)
    ensures |SearchEntries(s, env, es, t, freshId, now)| == |IncludedEntries(s, env, es, t, freshId, now)|
    decreases |es|
  {
    if |es| > 0 {
      SearchCount(s, env, es[..|es| - 1], t, freshId, now);
      SearchStepSpec(s, env, es[|es| - 1], t, freshId, now);
    }
  }

  /** The entries that pass the search, in order. */
  function IncludedEntries(s: Store, env: Env, es: seq<Entry>, t: string, freshId: string, now: Timestamp): seq<Entry>
    decreases |es|
  {
    if |es| == 0 then []
    else
      var e := es[|es| - 1];
      var rest := IncludedEntries(s, env, es[..|es| - 1], t, freshId, now);
      var g := GetNote(s, env, e.id, freshId, now);
      if g.Ok? && Hit(e.meta, g.value.content, t) then rest + [e] else rest
  }

  /** The case of the search term does not matter. */
  lemma SearchCaseInsensitive(s: Store, env: Env, term: string, freshId: string, now: Timestamp)
    ensures Search(s, env, Upper(term), freshId, now) == Search(s, env, term, freshId, now)
    ensures Search(s, env, Lower(term), freshId, now) == Search(s, env, term, freshId, now)
  {
    LowerOfUpper(term);
    LowerIdempotent(term);
  }

  // ----- Tag counts -----

  function TagsOf(e: Entry): seq<string> {
    e.meta.tags.GetOr([])
  }

  /** The number of times `t` occurs in `ts`. */
  function Count(ts: seq<string>, t: string): nat
    decreases |ts|
  {
    if |ts| == 0 then 0
    else Count(ts[..|ts| - 1], t) + (if ts[|ts| - 1] == t then 1 else 0)
  }

  /** The number of times `t` occurs in the tag lists of all entries. */
  function Occurrences(es: seq<Entry>, t: string): nat
    decreases |es|
  {
    if |es| == 0 then 0
    else Occurrences(es[..|es| - 1], t) + Count(TagsOf(es[|es| - 1]), t)
  }

  function Elems(ts: seq<string>): (r: set<string>)
    ensures forall t :: t in r <==> t in ts
  {
    set i | 0 <= i < |ts| :: ts[i]
  }

  /** Every tag of every entry. */
  function AllTags(es: seq<Entry>): set<string>
    decreases |es|
  {
    if |es| == 0 then {}
    else AllTags(es[..|es| - 1]) + Elems(TagsOf(es[|es| - 1]))
  }

  lemma {:induction false} CountPositive(ts: seq<string>, t: string)
    ensures Count(ts, t) > 0 <==> t in ts
    decreases |ts|
  {
    if |ts| > 0 {
      CountPositive(ts[..|ts| - 1], t);
      assert ts == ts[..|ts| - 1] + [ts[|ts| - 1]];
    }
  }

  /** A tag occurs at least once exactly when it is the tag of some entry. */
  lemma {:induction false} OccurrencesPositive(es: seq<Entry>, t: string)
    ensures Occurrences(es, t) > 0 <==> t in AllTags(es)
    ensures t in AllTags(es) <==> exists i :: 0 <= i < |es| && t in TagsOf(es[i])
    decreases |es|
  {
    if |es| > 0 {
      var init := es[..|es| - 1];
      OccurrencesPositive(init, t);
      CountPositive(TagsOf(es[|es| - 1]), t);
      if exists i :: 0 <= i < |init| && t in TagsOf(init[i]) {
        var i :| 0 <= i < |init| && t in TagsOf(init[i]);
        assert es[i] == init[i];
      }
      if exists i :: 0 <= i < |es| && t in TagsOf(es[i]) {
        var i :| 0 <= i < |es| && t in TagsOf(es[i]);
        if i < |es| - 1 {
          assert init[i] == es[i];
        }
      }
    }
  }

  /** Each tag that occurs, mapped to its number of occurrences. */
  function CountMap(es: seq<Entry>): map<string, nat> {
    map t | t in AllTags(es) :: Occurrences(es, t)
  }

  /** `tag_counts[tag] = tag_counts.get(tag, 0) + 1` */
  function Inc(m: map<string, nat>, t: string): map<string, nat> {
    m[t := (if t in m then m[t] else 0) + 1]
  }

  /** The counts after one increment per element of `ts`, in order. */
  function Tally(m: map<string, nat>, ts: seq<string>): map<string, nat>
    decreases |ts|
  {
    if |ts| == 0 then m else Inc(Tally(m, ts[..|ts| - 1]), ts[|ts| - 1])
  }

  /** Tallying adds the elements as keys and each element's number of occurrences to its count. */
  lemma {:induction false} TallySpec(m: map<string, nat>, ts: seq<string>)
    ensures Tally(m, ts).Keys == m.Keys + Elems(ts)
    ensures forall t :: t in Tally(m, ts) ==> Tally(m, ts)[t] == (if t in m then m[t] else 0) + Count(ts, t)
    decreases |ts|
  {
    if |ts| > 0 {
      var init := ts[..|ts| - 1];
      TallySpec(m, init);
      assert Elems(ts) == Elems(init) + {ts[|ts| - 1]} by {
        assert ts == init + [ts[|ts| - 1]];
      }
      forall t | t in Tally(m, ts)
        ensures Tally(m, ts)[t] == (if t in m then m[t] else 0) + Count(ts, t)
      {
        if t !in Tally(m, init) {
          CountPositive(init, t);
        }
      }
    }
  }

  /** Counting one more entry adds its tags and their occurrences. */
  lemma OccurrencesStep(es: seq<Entry>, e: Entry)
    ensures AllTags(es + [e]) == AllTags(es) + Elems(TagsOf(e))
    ensures forall t :: Occurrences(es + [e], t) == Occurrences(es, t) + Count(TagsOf(e), t)
  {
    assert (es + [e])[..|es|] == es;
  }

  /** Tallying one more entry's tags into the counts of the entries before it gives the counts of all of them. */
  lemma TallyEntry(es: seq<Entry>, e: Entry)
    ensures Tally(CountMap(es), TagsOf(e)) == CountMap(es + [e])
  {
    var m := Tally(CountMap(es), TagsOf(e));
    TallySpec(CountMap(es), TagsOf(e));
    OccurrencesStep(es, e);
    forall t | t in m
      ensures m[t] == CountMap(es + [e])[t]
    {
      OccurrencesPositive(es, t);
    }
  }

  /** `get_all_tags_with_counts` */
  function TagCounts(s: Store): (r: Result<map<string, nat>>)
    ensures r.Err? <==> s.index.Corrupt?
    ensures r.Err? ==> r.error == StorageError
    ensures s.index == Json(None) ==> r == Ok(map[])
    ensures r.Ok? ==> r.value.Keys == AllTags(EntriesOf(s))
    ensures r.Ok? ==> forall t :: t in r.value ==> r.value[t] == Occurrences(EntriesOf(s), t)
  {
    match s.index
    case Corrupt => Err(StorageError)
    case Json(notes) =>
      Ok(CountMap(notes.GetOr([])))
  }

  /** The counts are positive and their keys are exactly the tags some entry carries. */
  lemma TagCountsSpec(s: Store, t: string)
    requires s.index.Json?
    ensures t in TagCounts(s).value <==> exists i :: 0 <= i < |EntriesOf(s)| && t in TagsOf(EntriesOf(s)[i])
    ensures t in TagCounts(s).value ==> TagCounts(s).value[t] > 0
  {
    OccurrencesPositive(EntriesOf(s), t);
  }

  /** The count is per occurrence: one note listing a tag twice counts it twice. */
  lemma CountsOccurrencesNotNotes(m: Metadata)
    requires m.tags == Some(["work", "work"])
    ensures TagCounts(Store(Json(Some([Entry("n1", m)])), map[])).value["work"] == 2
  {
    var es := [Entry("n1", m)];
    assert es[..0] == [];
    assert ["work", "work"][..1] == ["work"];
    assert ["work"][..0] == [];
    assert "work" in TagsOf(es[0]);
    assert Occurrences(es, "work") == 2;
  }

  // ----- Export -----

  datatype ExportFile = ExportFile(path: string, body: string)

  /** The files written, in order, and the exception that stopped the export, if any. */
  datatype ExportOutcome = ExportOutcome(written: seq<ExportFile>, error: Option<Error>)

  /** The title an exported record is filed under. */
  function ExportTitle(e: Entry): string {
    e.meta.title.GetOr("Untitled")
  }

  /** The file one readable entry is exported as. */
  function ExportFileOf(outDir: string, e: Entry, content: string): ExportFile {
    ExportFile(Paths.Join(outDir, ExportFileName(ExportTitle(e))), ExportBody(ExportTitle(e), content))
  }

  /**
   * The `export_notes` loop from position `i` on, `done` being the files
   * already written: an entry whose content cannot be read is skipped; a
   * file that cannot be written stops the export with OSError.
   */
  function ExportFrom(s: Store, env: Env, outDir: string, es: seq<Entry>, i: nat, done: seq<ExportFile>): (r: ExportOutcome)
    requires i <= |es|
    ensures done <= r.written && |r.written| <= |done| + |es| - i
    ensures r.error.Some? ==> r.error.value == OSError
    decreases |es| - i
  {
    if i == |es| then ExportOutcome(done, None)
    else
      match ReadContent(s, env, es[i].id)
      case Err(_) => ExportFrom(s, env, outDir, es, i + 1, done)
      case Ok(c) =>
        var f := ExportFileOf(outDir, es[i], c);
        if f.path in env.unwritableExports then ExportOutcome(done, Some(OSError))
        else ExportFrom(s, env, outDir, es, i + 1, done + [f])
  }

  /** The `export_notes` loop over all of `es`. */
  function ExportEntries(s: Store, env: Env, outDir: string, es: seq<Entry>): (r: ExportOutcome)
    ensures |r.written| <= |es|
    ensures r.error.Some? ==> r.error.value == OSError
  {
    ExportFrom(s, env, outDir, es, 0, [])
  }

  /**
   * `export_notes`: an unparsable index is a StorageError; an index without
   * notes writes nothing and does not even create the directory; a directory
   * that cannot be created is an OSError.
   */
  function ExportNotes(s: Store, env: Env, outDir: string): (r: ExportOutcome)
    ensures s.index.Corrupt? ==> r == ExportOutcome([], Some(StorageError))
    ensures s.index == Json(None) ==> r == ExportOutcome([], None)
    ensures s.index.Json? && s.index.notes.Some? && env.outDirFails ==> r == ExportOutcome([], Some(OSError))
    ensures r.error.Some? ==> r.error.value == StorageError || r.error.value == OSError
  {
    match s.index
    case Corrupt => ExportOutcome([], Some(StorageError))
    case Json(None) => ExportOutcome([], None)
    case Json(Some(es)) =>
      if env.outDirFails then ExportOutcome([], Some(OSError))
      else ExportEntries(s, env, outDir, es)
  }

  /** The export directory after writing `ws` in order: a later file with the same path replaces an earlier one. */
  function Apply(dir: map<string, string>, ws: seq<ExportFile>): map<string, string>
    decreases |ws|
  {
    if |ws| == 0 then dir
    else Apply(dir, ws[..|ws| - 1])[ws[|ws| - 1].path := ws[|ws| - 1].body]
  }

  /** Writing adds exactly the written paths, and a path holds the body of the last file written to it. */
  lemma {:induction false} ApplySpec(dir: map<string, string>, ws: seq<ExportFile>)
    ensures forall p :: p in Apply(dir, ws) <==> p in dir || exists i :: 0 <= i < |ws| && ws[i].path == p
    ensures forall i :: 0 <= i < |ws| && (forall j :: i < j < |ws| ==> ws[j].path != ws[i].path) ==>
      Apply(dir, ws)[ws[i].path] == ws[i].body
    decreases |ws|
  {
    if |ws| > 0 {
      var init := ws[..|ws| - 1];
      ApplySpec(dir, init);
      forall p | p in Apply(dir, ws) && p !in dir
        ensures exists i :: 0 <= i < |ws| && ws[i].path == p
      {
        if p != ws[|ws| - 1].path {
          var i :| 0 <= i < |init| && init[i].path == p;
          assert ws[i].path == p;
        }
      }
      forall p | exists i :: 0 <= i < |ws| && ws[i].path == p
        ensures p in Apply(dir, ws)
      {
        var i :| 0 <= i < |ws| && ws[i].path == p;
        if i < |ws| - 1 {
          assert init[i].path == p;
        }
      }
      forall i | 0 <= i < |ws| && (forall j :: i < j < |ws| ==> ws[j].path != ws[i].path)
        ensures Apply(dir, ws)[ws[i].path] == ws[i].body
      {
        if i < |ws| - 1 {
          assert init[i] == ws[i];
          assert forall j :: i < j < |init| ==> init[j].path != init[i].path by {
            forall j | i < j < |init| ensures init[j].path != init[i].path {
              assert init[j] == ws[j];
            }
          }
        }
      }
    }
  }

  lemma ApplyAppend(dir: map<string, string>, ws: seq<ExportFile>, f: ExportFile)
    ensures Apply(dir, ws + [f]) == Apply(dir, ws)[f.path := f.body]
  {
    assert (ws + [f])[..|ws|] == ws;
  }

  /** An entry that is exported: its content can be read and `f` is its file. */
  predicate ExportedAs(s: Store, env: Env, outDir: string, e: Entry, f: ExportFile) {
    ReadContent(s, env, e.id).Ok? && f == ExportFileOf(outDir, e, ReadContent(s, env, e.id).value)
  }

  /**
   * Without write failures the loop runs to the end, and the files written
   * are the ones already written and those of the remaining entries whose
   * content can be read.
   */
  lemma {:induction false} ExportFromMembership(s: Store, env: Env, outDir: string, es: seq<Entry>, i: nat,
                                                done: seq<ExportFile>, f: ExportFile)
    requires i <= |es| && env.unwritableExports == {}
    ensures ExportFrom(s, env, outDir, es, i, done).error == None
    ensures f in ExportFrom(s, env, outDir, es, i, done).written <==>
      f in done || exists j :: i <= j < |es| && ExportedAs(s, env, outDir, es[j], f)
    decreases |es| - i
  {
    if i < |es| {
      var next := ExportFromStep(s, env, outDir, es, i, done, f);
      ExportFromMembership(s, env, outDir, es, i + 1, next, f);
      ExistsFromSplit(s, env, outDir, es, i, f);
    }
  }

  /** Without write failures, one step of the loop adds the entry's file when its content can be read. */
  lemma ExportFromStep(s: Store, env: Env, outDir: string, es: seq<Entry>, i: nat, done: seq<ExportFile>, f: ExportFile)
    returns (next: seq<ExportFile>)
    requires i < |es| && env.unwritableExports == {}
    ensures ExportFrom(s, env, outDir, es, i, done) == ExportFrom(s, env, outDir, es, i + 1, next)
    ensures f in next <==> f in done || ExportedAs(s, env, outDir, es[i], f)
  {
    var c := ReadContent(s, env, es[i].id);
    if c.Err? {
      next := done;
    } else {
      next := done + [ExportFileOf(outDir, es[i], c.value)];
    }
  }

  /** Splitting the first position off an existential over `es[i..]`. */
  lemma ExistsFromSplit(s: Store, env: Env, outDir: string, es: seq<Entry>, i: nat, f: ExportFile)
    requires i < |es|
    ensures (exists j :: i <= j < |es| && ExportedAs(s, env, outDir, es[j], f)) <==>
      ExportedAs(s, env, outDir, es[i], f) || exists j :: i + 1 <= j < |es| && ExportedAs(s, env, outDir, es[j], f)
  {
    if exists j :: i <= j < |es| && ExportedAs(s, env, outDir, es[j], f) {
      var j :| i <= j < |es| && ExportedAs(s, env, outDir, es[j], f);
      if j > i {
        assert i + 1 <= j < |es| && ExportedAs(s, env, outDir, es[j], f);
      }
    }
  }

  /**
   * Without write failures the export completes, and the files written are
   * exactly those of the entries whose content can be read.
   */
  lemma ExportMembership(s: Store, env: Env, outDir: string, es: seq<Entry>, f: ExportFile)
    requires env.unwritableExports == {}
    ensures ExportEntries(s, env, outDir, es).error == None
    ensures f in ExportEntries(s, env, outDir, es).written <==> exists i :: 0 <= i < |es| && ExportedAs(s, env, outDir, es[i], f)
  {
    ExportFromMembership(s, env, outDir, es, 0, [], f);
  }

  /** Every export file lies in the output directory and is named `<safe title>.txt`. */
  lemma ExportFileInDir(outDir: string, e: Entry, content: string)
    ensures outDir <= ExportFileOf(outDir, e, content).path
    ensures Paths.EndsWith(ExportFileOf(outDir, e, content).path, SafeTitle(ExportTitle(e)) + ".txt")
  {
    SafeTitleChars(ExportTitle(e));
    assert !Paths.Absolute(ExportFileName(ExportTitle(e)));
  }

  /** None of the files `fs` has a path that cannot be written. */
  predicate Writable(env: Env, fs: seq<ExportFile>) {
    forall k :: 0 <= k < |fs| ==> fs[k].path !in env.unwritableExports
  }

  /** No file is written to a path that cannot be written, whether or not the export stopped. */
  lemma {:induction false} ExportFromWritable(s: Store, env: Env, outDir: string, es: seq<Entry>, i: nat,
                                              done: seq<ExportFile>)
    requires i <= |es|
    requires Writable(env, done)
    ensures Writable(env, ExportFrom(s, env, outDir, es, i, done).written)
    decreases |es| - i
  {
    if i < |es| {
      var c := ReadContent(s, env, es[i].id);
      if c.Err? {
        assert ExportFrom(s, env, outDir, es, i, done) == ExportFrom(s, env, outDir, es, i + 1, done);
        ExportFromWritable(s, env, outDir, es, i + 1, done);
      } else {
        var g := ExportFileOf(outDir, es[i], c.value);
        if g.path !in env.unwritableExports {
          assert ExportFrom(s, env, outDir, es, i, done) == ExportFrom(s, env, outDir, es, i + 1, done + [g]);
          ExportFromWritable(s, env, outDir, es, i + 1, done + [g]);
        }
      }
    }
  }

  // ----- Creating notes -----

  /**
   * `_create_note_internal`: the content is written first; a write refused
   * when the file is opened leaves everything as it was. Then the index is loaded, the record put
   * under the note's id and the index saved; a save refused at opening
   * leaves the index as it was but the content file written.
   */
  function CreateInternal(s: Store, env: Env, n: NoteData): (o: Outcome<()>)
    ensures WriteContent(s.files, env, n.id, n.content).Err? ==>
      o == Outcome(s, Err(WriteContent(s.files, env, n.id, n.content).error))
    ensures o.result.Err? ==> o.store.index == s.index
    ensures o.result.Ok? <==> !env.dirsFail && !env.contentWriteFails && !env.indexWriteFails && s.index.Json?
    ensures o.result.Ok? ==> o.store.index == Json(Some(Put(EntriesOf(s), n.id, ToDict(n))))
    ensures WriteContent(s.files, env, n.id, n.content).Ok? ==> o.store.files == s.files[n.id := n.content]
  {
    match WriteContent(s.files, env, n.id, n.content)
    case Err(e) => Outcome(s, Err(e))
    case Ok(files) =>
      match LoadNotes(s.index)
      case Err(_) => Outcome(Store(s.index, files), Err(StorageError))
      case Ok(notes) =>
        var es := Put(notes.GetOr([]), n.id, ToDict(n));
        match SaveIndex(env, es)
        case Err(e) => Outcome(Store(s.index, files), Err(e))
        case Ok(f) => Outcome(Store(f, files), Ok(()))
  }

  /** The note `create_note` constructs: a fresh id and the remaining defaults. */
  function NewNote(title: string, content: string, tags: Value, freshId: string, now: Timestamp): Result<NoteData> {
    Build(Str(title), Str(content), tags, Some(freshId), None, None, None, freshId, now)
  }

  /**
   * `create_note`: the vault directories are created (OSError), then a note
   * with the same title is looked for (DuplicateTitleError), then the note
   * is constructed (ValueError), then stored. Nothing is changed unless the
   * note is constructed.
   */
  function CreateNote(s: Store, env: Env, title: string, content: string, tags: Value,
                      freshId: string, now: Timestamp): (o: Outcome<NoteData>)
    ensures env.dirsFail ==> o == Outcome(s, Err(OSError))
    ensures s.index.Corrupt? ==> o.store == s && o.result.Err?
    ensures !env.dirsFail && s.index.Corrupt? ==> o.result == Err(StorageError)
    ensures o.result.Ok? <==>
      !env.dirsFail && FindIdByTitle(s, title) == Ok(None) && NewNote(title, content, tags, freshId, now).Ok? &&
      !env.contentWriteFails && !env.indexWriteFails
    ensures !env.dirsFail && FindIdByTitle(s, title).Ok? && FindIdByTitle(s, title).value.Some? ==>
      o == Outcome(s, Err(DuplicateTitle(title)))
    ensures !env.dirsFail && FindIdByTitle(s, title) == Ok(None) && NewNote(title, content, tags, freshId, now).Err? ==>
      o == Outcome(s, Err(NewNote(title, content, tags, freshId, now).error))
    ensures NewNote(title, content, tags, freshId, now).Err? ==> o.store == s
    ensures o.result.Err? ==> o.store.index == s.index
    ensures o.result.Ok? ==> NewNote(title, content, tags, freshId, now) == o.result
    ensures o.result.Ok? ==>
      o.result.value.id == freshId && o.result.value.title == title && o.result.value.content == content
    ensures o.result.Ok? ==> o.store == Store(Json(Some(Put(EntriesOf(s), freshId, ToDict(o.result.value)))),
                                              s.files[freshId := content])
  {
    if env.dirsFail then Outcome(s, Err(OSError))
    else
      match FindIdByTitle(s, title)
      case Err(_) => Outcome(s, Err(StorageError))
      case Ok(Some(_)) => Outcome(s, Err(DuplicateTitle(title)))
      case Ok(None) =>
        match NewNote(title, content, tags, freshId, now)
        case Err(e) => Outcome(s, Err(e))
        case Ok(n) =>
          var o := CreateInternal(s, env, n);
          Outcome(o.store, if o.result.Ok? then Ok(n) else Err(o.result.error))
  }

  /**
   * A content write refused when the file is opened changes nothing; when
   * the title is new and the note valid, the create fails with StorageError.
   */
  lemma CreateWriteFailure(s: Store, env: Env, title: string, content: string, tags: Value, freshId: string, now: Timestamp)
    requires !env.dirsFail && env.contentWriteFails
    ensures CreateNote(s, env, title, content, tags, freshId, now).store == s
    ensures CreateNote(s, env, title, content, tags, freshId, now).result.Err?
    ensures FindIdByTitle(s, title) == Ok(None) && NewNote(title, content, tags, freshId, now).Ok? ==>
      CreateNote(s, env, title, content, tags, freshId, now) == Outcome(s, Err(StorageError))
  {
  }

  /** A create in an empty, healthy vault succeeds, so the lemmas about a successful create apply. */
  lemma CreateSucceedsInEmptyVault(freshId: string, now: Timestamp)
    ensures CreateNote(Store(Json(None), map[]), Healthy(), "T", "0123456789", Null, freshId, now).result.Ok?
  {
    var content := "0123456789";
    assert TitleChar('T');
    assert IsContent(content);
  }

  /** A created note can be fetched back by its id, with absent tags read as the empty list. */
  lemma GetAfterCreate(s: Store, env: Env, env': Env, title: string, content: string, tags: Value,
                       freshId: string, now: Timestamp, freshId': string, now': Timestamp)
    requires CreateNote(s, env, title, content, tags, freshId, now).result.Ok?
    requires freshId !in env'.unreadable
    ensures var o := CreateNote(s, env, title, content, tags, freshId, now);
      var n := o.result.value;
      GetNote(o.store, env', freshId, freshId', now') == Ok(n.(tags := Some(n.tags.GetOr([]))))
  {
    var o := CreateNote(s, env, title, content, tags, freshId, now);
    var n := o.result.value;
    PutLookup(EntriesOf(s), freshId, ToDict(n));
    RoundTrip(n, freshId', now');
  }

  /** A created note is found by its title: fetching by title is fetching by the new id. */
  lemma GetByTitleAfterCreate(s: Store, env: Env, env': Env, title: string, content: string, tags: Value,
                              freshId: string, now: Timestamp, freshId': string, now': Timestamp)
    requires CreateNote(s, env, title, content, tags, freshId, now).result.Ok?
    ensures var s' := CreateNote(s, env, title, content, tags, freshId, now).store;
      FindIdByTitle(s', title) == Ok(Some(freshId)) &&
      GetNoteByTitle(s', env', title, freshId', now') == GetNote(s', env', freshId, freshId', now')
  {
    var o := CreateNote(s, env, title, content, tags, freshId, now);
    var es := EntriesOf(s);
    var r := Put(es, freshId, ToDict(o.result.value));
    var k := IndexOf(es, freshId);
    FirstTitleIs(r, title, k);
  }

  /** A note created under a title is then found by that title, so a second create with it is a duplicate. */
  lemma SecondCreateIsDuplicate(s: Store, env: Env, title: string, content: string, tags: Value,
                                freshId: string, now: Timestamp, env': Env, content': string, tags': Value,
                                freshId': string, now': Timestamp)
    requires ValidStore(s)
    requires CreateNote(s, env, title, content, tags, freshId, now).result.Ok?
    requires !env'.dirsFail
    ensures var s' := CreateNote(s, env, title, content, tags, freshId, now).store;
      CreateNote(s', env', title, content', tags', freshId', now') == Outcome(s', Err(DuplicateTitle(title)))
  {
    var o := CreateNote(s, env, title, content, tags, freshId, now);
    var es := Put(EntriesOf(s), freshId, ToDict(o.result.value));
    PutLookup(EntriesOf(s), freshId, ToDict(o.result.value));
    var k := IndexOf(es, freshId);
    assert HasTitle(es[k], title);
  }

  /** Creating a note under a new id appends its title to the list of titles, in index order. */
  lemma TitlesAfterCreate(s: Store, env: Env, title: string, content: string, tags: Value,
                          freshId: string, now: Timestamp)
    requires s.index.Json? && freshId !in Ids(EntriesOf(s))
    requires CreateNote(s, env, title, content, tags, freshId, now).result.Ok?
    ensures Titles(CreateNote(s, env, title, content, tags, freshId, now).store).value == Titles(s).value + [title]
  {
    var o := CreateNote(s, env, title, content, tags, freshId, now);
    var es := EntriesOf(s);
    assert IndexOf(es, freshId) == |es|;
    assert EntriesOf(o.store) == es + [Entry(freshId, ToDict(o.result.value))];
  }

  /** Creating keeps the index a dictionary and every other note as it was. */
  lemma CreateKeepsOthers(s: Store, env: Env, title: string, content: string, tags: Value,
                          freshId: string, now: Timestamp)
    requires ValidStore(s)
    ensures ValidStore(CreateNote(s, env, title, content, tags, freshId, now).store)
    ensures var s' := CreateNote(s, env, title, content, tags, freshId, now).store;
      s'.index.Json? ==> forall id :: id != freshId ==>
        Lookup(EntriesOf(s'), id) == Lookup(EntriesOf(s), id) &&
        (id in s'.files <==> id in s.files) && (id in s.files ==> s'.files[id] == s.files[id])
  {
    var o := CreateNote(s, env, title, content, tags, freshId, now);
    if o.result.Ok? {
      PutLookup(EntriesOf(s), freshId, ToDict(o.result.value));
    } else if NewNote(title, content, tags, freshId, now).Ok? && !env.dirsFail && FindIdByTitle(s, title) == Ok(None) {
      assert o.store.files.Keys <= s.files.Keys + {freshId};
    }
  }

  // ----- Deleting notes -----

  /** Python truthiness of the record's filename: present and non-empty. */
  predicate Truthy(filename: Option<string>) {
    filename.Some? && filename.value != ""
  }

  /**
   * `_delete_note_internal`: an id missing from the index is
   * NoteNotFoundError(id). The content file is removed only when the record
   * has a truthy filename, a file already gone being no error and any other
   * removal failure a StorageError before the index is touched. Then the
   * entry is deleted and the index saved, any failure of the save being a
   * StorageError.
   */
  function DeleteNote(s: Store, env: Env, id: string): (o: Outcome<()>)
    ensures s.index.Corrupt? ==> o == Outcome(s, Err(StorageError))
    ensures s.index.Json? && id !in Ids(EntriesOf(s)) ==> o == Outcome(s, Err(NoteNotFound(id)))
    ensures o.result.Err? ==> o.result.error == StorageError || o.result.error == NoteNotFound(id)
    ensures o.result.Err? ==> o.store.index == s.index
    ensures o.result.Ok? <==>
      (s.index.Json? && id in Ids(EntriesOf(s)) && !env.dirsFail && !env.indexWriteFails &&
       !(Truthy(Lookup(EntriesOf(s), id).value.filename) && id in s.files && id in env.unremovable))
    ensures o.result.Ok? ==> o.store.index == Json(Some(Remove(EntriesOf(s), id)))
    ensures o.result.Ok? ==>
      o.store.files == (if Truthy(Lookup(EntriesOf(s), id).value.filename) then s.files - {id} else s.files)
  {
    match s.index
    case Corrupt => Outcome(s, Err(StorageError))
    case Json(notes) =>
      var es := notes.GetOr([]);
      if Lookup(es, id).None? then Outcome(s, Err(NoteNotFound(id)))
      else
        var removed := if Truthy(Lookup(es, id).value.filename) then RemoveFile(s.files, env, id) else Ok(s.files);
        match removed
        case Err(_) => Outcome(s, Err(StorageError))
        case Ok(files) =>
          match SaveIndex(env, Remove(es, id))
          case Err(_) => Outcome(Store(s.index, files), Err(StorageError))
          case Ok(f) => Outcome(Store(f, files), Ok(()))
  }

  /** `delete_note_by_title`: no note with the title is NoteNotFoundError(title). */
  function DeleteNoteByTitle(s: Store, env: Env, title: string): (o: Outcome<()>)
    ensures FindIdByTitle(s, title).Err? ==> o == Outcome(s, Err(StorageError))
    ensures FindIdByTitle(s, title) == Ok(None) ==> o == Outcome(s, Err(NoteNotFound(title)))
    ensures FindIdByTitle(s, title).Ok? && FindIdByTitle(s, title).value.Some? ==>
      o == DeleteNote(s, env, FindIdByTitle(s, title).value.value)
  {
    match FindIdByTitle(s, title)
    case Err(_) => Outcome(s, Err(StorageError))
    case Ok(None) => Outcome(s, Err(NoteNotFound(title)))
    case Ok(Some(id)) => DeleteNote(s, env, id)
  }

  /** After a delete the note is gone, and every other note keeps its record. */
  lemma GetAfterDelete(s: Store, env: Env, id: string, env': Env, freshId: string, now: Timestamp)
    requires ValidStore(s)
    requires DeleteNote(s, env, id).result.Ok?
    ensures var s' := DeleteNote(s, env, id).store;
      ValidStore(s') && GetNote(s', env', id, freshId, now) == Err(NoteNotFound(id)) &&
      forall other :: other != id ==> Lookup(EntriesOf(s'), other) == Lookup(EntriesOf(s), other)
  {
    RemoveLookup(EntriesOf(s), id);
  }

  /**
   * A delete whose index save fails has already removed the content file:
   * the index still lists the note, whose fetch is then NoteNotFoundError.
   */
  lemma DeleteSaveFailureOrphansEntry(s: Store, env: Env, id: string, env': Env, freshId: string, now: Timestamp)
    requires s.index.Json? && id in Ids(EntriesOf(s)) && id in s.files && id !in env.unremovable
    requires Truthy(Lookup(EntriesOf(s), id).value.filename)
    requires env.indexWriteFails
    ensures var o := DeleteNote(s, env, id);
      o.result == Err(StorageError) && o.store.index == s.index &&
      GetNote(o.store, env', id, freshId, now) == Err(NoteNotFound(id))
  {
  }

  /** A record without a truthy filename keeps its content file when deleted. */
  lemma DeleteKeepsFileWithoutFilename(s: Store, env: Env, id: string)
    requires DeleteNote(s, env, id).result.Ok?
    requires !Truthy(Lookup(EntriesOf(s), id).value.filename)
    ensures DeleteNote(s, env, id).store.files == s.files
  {
  }

  // ----- Unique titles -----

  /** No two records of the index carry the same title. */
  predicate UniqueTitles(es: seq<Entry>) {
    forall i, j :: 0 <= i < j < |es| && es[i].meta.title.Some? ==> es[i].meta.title != es[j].meta.title
  }

  /** The vault-wide invariant `create_note` guards: titles are unique in the index. */
  predicate TitlesUnique(s: Store) {
    s.index.Json? ==> UniqueTitles(EntriesOf(s))
  }

  /** Putting a record whose title no entry carries keeps the titles unique. */
  lemma PutKeepsTitlesUnique(es: seq<Entry>, id: string, m: Metadata)
    requires UniqueTitles(es)
    requires m.title.Some? && forall i :: 0 <= i < |es| ==> es[i].meta.title != m.title
    ensures UniqueTitles(Put(es, id, m))
  {
    var r := Put(es, id, m);
    var k := IndexOf(es, id);
    forall i, j | 0 <= i < j < |r| && r[i].meta.title.Some?
      ensures r[i].meta.title != r[j].meta.title
    {
      if i == k {
        assert r[i].meta == m;
        if j < |es| {
          assert r[j] == es[j];
        }
      } else if j == k || j == |es| {
        assert r[j].meta == m && r[i] == es[i];
      } else {
        assert r[i] == es[i] && r[j] == es[j];
      }
    }
  }

  /** Removing a record keeps the titles unique. */
  lemma RemoveKeepsTitlesUnique(es: seq<Entry>, id: string)
    requires UniqueTitles(es)
    ensures UniqueTitles(Remove(es, id))
  {
    var k := IndexOf(es, id);
    if k < |es| {
      RemoveAt(es, k);
      DropKeepsTitlesUnique(es, k, es[..k] + es[k + 1..]);
    }
  }

  /** Dropping position `k` keeps the titles unique. */
  lemma DropKeepsTitlesUnique(es: seq<Entry>, k: nat, r: seq<Entry>)
    requires UniqueTitles(es) && k < |es| && |r| == |es| - 1
    requires forall j {:trigger r[j]} :: 0 <= j < |es| - 1 ==> r[j] == (if j < k then es[j] else es[j + 1])
    ensures UniqueTitles(r)
  {
    forall i, j | 0 <= i < j < |r| && r[i].meta.title.Some?
      ensures r[i].meta.title != r[j].meta.title
    {
      var i' := if i < k then i else i + 1;
      var j' := if j < k then j else j + 1;
      assert r[i] == es[i'];
      assert r[j] == es[j'];
    }
  }

  /** `create_note` keeps titles unique: a note is stored only under a title no entry carries. */
  lemma CreateKeepsTitlesUnique(s: Store, env: Env, title: string, content: string, tags: Value,
                                freshId: string, now: Timestamp)
    requires TitlesUnique(s)
    ensures TitlesUnique(CreateNote(s, env, title, content, tags, freshId, now).store)
  {
    var o := CreateNote(s, env, title, content, tags, freshId, now);
    if o.result.Ok? {
      PutKeepsTitlesUnique(EntriesOf(s), freshId, ToDict(o.result.value));
    }
  }

  /** Deleting a note keeps titles unique. */
  lemma DeleteKeepsTitlesUnique(s: Store, env: Env, id: string)
    requires TitlesUnique(s)
    ensures TitlesUnique(DeleteNote(s, env, id).store)
  {
    if DeleteNote(s, env, id).result.Ok? {
      RemoveKeepsTitlesUnique(EntriesOf(s), id);
    }
  }

  /**
   * With unique ids and titles, a successful delete by title leaves no note
   * with that title: looking it up again is NoteNotFoundError(title).
   */
  lemma GetByTitleAfterDelete(s: Store, env: Env, title: string, env': Env, freshId: string, now: Timestamp)
    requires ValidStore(s) && TitlesUnique(s)
    requires DeleteNoteByTitle(s, env, title).result.Ok?
    ensures var s' := DeleteNoteByTitle(s, env, title).store;
      TitlesUnique(s') && FindIdByTitle(s', title) == Ok(None) &&
      GetNoteByTitle(s', env', title, freshId, now) == Err(NoteNotFound(title))
  {
    var es := EntriesOf(s);
    var k := FirstTitle(es, title);
    assert k < |es|;
    var id := es[k].id;
    DeleteKeepsTitlesUnique(s, env, id);
    RemoveTitled(es, k, title);
    assert EntriesOf(DeleteNoteByTitle(s, env, title).store) == Remove(es, id);
  }

  /** With unique ids and titles, removing the first entry carrying `title` leaves none that does. */
  lemma RemoveTitled(es: seq<Entry>, k: nat, title: string)
    requires UniqueIds(es) && UniqueTitles(es)
    requires k < |es| && HasTitle(es[k], title) && forall j :: 0 <= j < k ==> !HasTitle(es[j], title)
    ensures forall i :: 0 <= i < |Remove(es, es[k].id)| ==> !HasTitle(Remove(es, es[k].id)[i], title)
  {
    LookupUnique(es, k);
    assert IndexOf(es, es[k].id) == k;
    RemoveAt(es, k);
    DropTitled(es, k, Remove(es, es[k].id), title);
  }

  /** With unique titles, dropping the entry that carries `title` leaves none that does. */
  lemma DropTitled(es: seq<Entry>, k: nat, r: seq<Entry>, title: string)
    requires UniqueTitles(es) && k < |es| && HasTitle(es[k], title) && |r| == |es| - 1
    requires forall j {:trigger r[j]} :: 0 <= j < |es| - 1 ==> r[j] == (if j < k then es[j] else es[j + 1])
    requires forall j :: 0 <= j < k ==> !HasTitle(es[j], title)
    ensures forall i :: 0 <= i < |r| ==> !HasTitle(r[i], title)
  {
    forall i | 0 <= i < |r|
      ensures !HasTitle(r[i], title)
    {
      if i >= k {
        assert r[i] == es[i + 1];
      } else {
        assert r[i] == es[i];
      }
    }
  }

  // ----- Every indexed note has a content file -----

  /** The storage invariant the write order protects: every id in the index has a content file. */
  predicate IndexHasFiles(s: Store) {
    s.index.Json? ==> forall i :: 0 <= i < |EntriesOf(s)| ==> EntriesOf(s)[i].id in s.files
  }

  /**
   * `create_note` keeps every indexed note backed by a file, whatever fails:
   * the content is written before the index is touched.
   */
  lemma CreateKeepsIndexHasFiles(s: Store, env: Env, title: string, content: string, tags: Value,
                                 freshId: string, now: Timestamp)
    requires IndexHasFiles(s)
    ensures IndexHasFiles(CreateNote(s, env, title, content, tags, freshId, now).store)
  {
    var o := CreateNote(s, env, title, content, tags, freshId, now);
    if o.result.Ok? {
      var es := EntriesOf(s);
      var r := Put(es, freshId, ToDict(o.result.value));
      PutLookup(es, freshId, ToDict(o.result.value));
      forall i | 0 <= i < |r|
        ensures r[i].id in o.store.files
      {
        assert Ids(r)[i] == r[i].id;
        if i < |es| {
          assert Ids(es)[i] == es[i].id;
        }
      }
    } else if s.index.Json? && !env.dirsFail && FindIdByTitle(s, title) == Ok(None) &&
              NewNote(title, content, tags, freshId, now).Ok? {
      var n := NewNote(title, content, tags, freshId, now).value;
      var c := CreateInternal(s, env, n);
      assert o.store == c.store && c.store.index == s.index;
      assert EntriesOf(o.store) == EntriesOf(s);
      forall i | 0 <= i < |EntriesOf(s)|
        ensures EntriesOf(s)[i].id in o.store.files
      {
        if WriteContent(s.files, env, n.id, n.content).Ok? {
          assert o.store.files == s.files[n.id := n.content];
        }
      }
    }
  }

  /**
   * A successful delete keeps every indexed note backed by a file. The one
   * way a delete breaks the invariant is a save that fails after the file
   * was removed (DeleteSaveFailureOrphansEntry).
   */
  lemma DeleteKeepsIndexHasFiles(s: Store, env: Env, id: string)
    requires ValidStore(s) && IndexHasFiles(s)
    ensures var o := DeleteNote(s, env, id);
      o.result.Ok? || o.store == s ==> IndexHasFiles(o.store)
    ensures var o := DeleteNote(s, env, id);
      o.store != s ==>
        o.result.Ok? ||
        (o.result == Err(StorageError) && (env.dirsFail || env.indexWriteFails) &&
         o.store.index == s.index && o.store.files == s.files - {id})
  {
    var o := DeleteNote(s, env, id);
    if o.result.Ok? {
      var es := EntriesOf(s);
      var k := IndexOf(es, id);
      RemoveAt(es, k);
      var r := Remove(es, id);
      forall i | 0 <= i < |r|
        ensures r[i].id in o.store.files
      {
        var i' := if i < k then i else i + 1;
        assert r[i] == es[i'] && i' != k;
      }
    }
  }
}
