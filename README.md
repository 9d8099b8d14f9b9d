# mpkv vault core in Dafny

This is a model of the storage core of mpkv, a small personal knowledge vault. Notes are kept in a home-directory vault:

- an index file maps each note id to its metadata record;
- a notes directory holds one `<id>.txt` content file per note.

The model has three layers, following the three core files.

- **Field validators** (`vault/fields.py`), in module `Fields`:
  - the required/None gate of every descriptor;
  - the title, content and tags rules, including tag normalisation (split, strip, drop empties).

  Each is a total function from an arbitrary Python value (`Value`) to a `Result`.
- **The Note entity** (`vault/models.py`), in module `Models`:
  - construction with its validation order and defaults (`Build`);
  - the index record (`ToDict`) and its inverse (`FromDict`);
  - a `Note` class whose methods assign validated fields one by one, as the descriptors and the `update_*` mutators do.
- **The vault repository** (`vault/core.py`), in modules `Paths`, `Storage`, `Export`, `Core` and `Repository`:
  - The stored state is the index and the content files. The index is an ordered sequence of `(id, metadata)` entries, or unparsable. The content files are a map from note id to text.
  - `Env` is an oracle listing the file-system failures a call meets.
  - `Core` specifies each operation as a function. A lookup returns a `Result`. A state-changing operation returns the new state together with its `Result`.
  - `Repository.Vault` is a class over the same state, plus the export directory. Its methods follow the Python statements step by step: the loops of `search_notes`, `get_all_tags_with_counts`, `export_notes` and the title lookup.
  - Each method is proved to end in the state, and with the result, that the `Core` function specifies.
- **Shared modules:**
  - `Errors` holds the exceptions the core raises, as one datatype.
  - `Text` holds the string operations used: `isalnum`, `isspace`, `lower`, `upper`, `strip`, `split`, `join` and `in`.

Where sources disagree, the model follows the code. Each case below is stated as proved:

- **Default filename:** a note is filed under `<id>.md`, as `vault/models.py:86` does, although `tests/test_models.py:35` expects `.txt` (`Models.MinimalConstruction`).
- **Content path:** the content file is always `<id>.txt` in the notes directory, whatever the record's `filename` says (`Paths.NoteFilePath`).
- **Delete:** the content file is removed only when the record's `filename` is truthy (`Core.DeleteKeepsFileWithoutFilename`).
- **Empty title:** the title validator has no minimum length, so the empty title is accepted (`Fields.TitleAcceptsAlnumAndSpace`).
- **Tag counts:** the docstring of `get_all_tags_with_counts` speaks of the number of notes using a tag. The code counts occurrences, so a note listing a tag twice counts it twice (`Core.CountsOccurrencesNotNotes`).
- **Missing exception:** `vault/core.py` imports `DuplicateTitleError` from `vault/errors.py`, which does not define it. The model treats it as an exception carrying the title (`Errors.DuplicateTitle`).
- **Failed save after delete:** a delete whose index save fails has already removed the content file. The index then still lists a note whose fetch is NoteNotFoundError (`Core.DeleteSaveFailureOrphansEntry`).

## Model

| member | source | states |
|---|---|---|
| Fields.Admit | vault/fields.py:52-72 | None is refused exactly when the field is required and is stored as None otherwise; any other value is stored as the validator's result, or fails with the validator's error |
| Fields.FirstNonTitleChar | vault/fields.py:141-146 | the position of the first character that is neither alphanumeric nor whitespace, every earlier character being one; or the length when there is none |
| Fields.ValidateTitle | vault/fields.py:130-148 | accepted iff a string of at most 100 characters, all alphanumeric or whitespace, returned unchanged. Errors: a non-string is NotAString; over 100 characters is TooLong; otherwise the error names an offending character of the title |
| Fields.ValidateContent | vault/fields.py:194-209 | accepted iff a string of length 10 to 10000, returned unchanged; a non-string, a too-short and a too-long value each get their own error |
| Fields.FirstLongTag | vault/fields.py:280-284 | the position of the first tag over 30 characters, every earlier tag being within the limit, or the length when there is none |
| Fields.ValidateTags | vault/fields.py:258-286 | accepted iff the value is a string or an all-string list whose normalised pieces number at most 20, each at most 30 characters. The result is the comma-split or listed pieces, stripped, empties dropped, in order. A wrong type, a non-string element and too many tags each get their own error |
| Fields.NonEmptyMembers | vault/fields.py:271 | the filter keeps exactly the non-empty tags and never more tags than it was given |
| Fields.NormalizeMembers | vault/fields.py:258-271 | a tag survives normalisation iff it is non-empty and is the stripped form of some raw piece |
| Fields.ValidTagsShape | vault/fields.py:271-286 | every accepted tag list has at most 20 tags, each non-empty, already stripped and at most 30 characters |
| Fields.ValidateTagsIdempotent | vault/fields.py:258-286 | validating an accepted tag list again gives the same list |
| Fields.TagListAccepted | vault/fields.py:261-286 | a list in the validator's output form is accepted unchanged |
| Fields.TitleLengthBoundary | vault/fields.py:135-139 | a title of 100 letters is accepted; one of 101 is TooLong |
| Fields.TitleRefusesPunctuation | vault/fields.py:141-146 | "Test-Title" is refused, naming the hyphen |
| Fields.TitleAcceptsAlnumAndSpace | vault/fields.py:130-148 | "Title 123" is accepted, and so is the empty title |
| Fields.TitleAcceptsSeparator | vault/fields.py:141-146 | a title holding the separator 0x1C passes, since Python counts it as whitespace |
| Fields.ContentLengthBoundary | vault/fields.py:194-209 | lengths 10, 9999 and 10000 pass; 9 is TooShort and 10001 TooLong |
| Fields.TagsOnlySeparators | vault/fields.py:258-271 | " , , " and "" give no tags |
| Fields.TagsStripped | vault/fields.py:258-271 | "  python  ,  tutorial  ,  code  " gives ["python", "tutorial", "code"] |
| Text.StripIdempotent | vault/fields.py:259 | stripping twice is stripping once |
| Text.StripShape | vault/fields.py:259 | a stripped string has no leading or trailing whitespace, is no longer than the original, occurs in it, and everything before and after that occurrence is whitespace |
| Text.StripSeparators | vault/fields.py:259 | `strip` removes the information separators 0x1C to 0x1F, as Python's whitespace |
| Text.JoinSplit | vault/fields.py:259 | joining the comma-split pieces with commas gives the string back |
| Text.SplitJoin | vault/fields.py:259 | splitting the comma-join of comma-free pieces gives the pieces back |
| Text.SplitPieces | vault/fields.py:259 | a split gives at least one piece, and no piece holds the separator |
| Text.ContainsAt | vault/core.py:703 | `needle in hay` holds iff the needle occurs at some position of the hay |
| Text.LowerOfUpper | vault/core.py:696 | lowering an upper-cased string is lowering the string |
| Models.Build | vault/models.py:30-88 | a note is built iff the title, content and tags gates all pass, and the first failure in that order is the error. The note is well formed. The id is the given one or the fresh one; created_at defaults to now, last_modified to created_at, and filename to the id plus ".md" |
| Models.ToDict | vault/models.py:90-107 | the record has exactly the keys id, title, tags, created_at, last_modified and filename, and no content; absent tags become the empty list |
| Models.FromDict | vault/models.py:110-147 | a record without a title is a KeyError. Otherwise it succeeds iff the title, the content and the tags (an empty list when missing) validate, and the note carries the record's values and its construction defaults |
| Models.RoundTrip | vault/models.py:90-147 | rebuilding a well-formed note from its record and content reproduces every field, absent tags becoming the empty list |
| Models.BuiltRoundTrip | vault/models.py:30-147 | every constructed note survives the record round trip |
| Models.MinimalConstruction | vault/models.py:56-88 | a note built from a title and content alone gets the fresh id, no tags, both timestamps now and filename `<id>.md` |
| Models.Note.SetTitle | vault/models.py:60 | assigns the validated title and nothing else, or returns the validation error and changes nothing |
| Models.Note.SetContent | vault/models.py:61 | assigns the validated content and nothing else, or returns the error and changes nothing |
| Models.Note.SetTags | vault/models.py:62 | assigns the normalised tags (None for None) and nothing else, or returns the error and changes nothing |
| Models.Note.New | vault/models.py:30-88 | creates a new Note exactly when construction succeeds, holding the constructed fields and well formed; otherwise returns the same error |
| Models.Note.UpdateTitle | vault/models.py:159-167 | on a valid title sets the title and last_modified to now and nothing else; on an invalid one returns the error and leaves the note as it was; validity is kept |
| Models.Note.UpdateContent | vault/models.py:149-157 | the same for the content |
| Models.Note.UpdateTags | vault/models.py:169-177 | the same for the tags, stored normalised |
| Paths.Join | vault/core.py:64 | `os.path.join`: an absolute second part replaces the first; otherwise the result extends the first part and ends with the second |
| Paths.VaultPath | vault/core.py:19-46 | a non-empty custom path is used as given; otherwise `.mpkv` in the home directory |
| Paths.VaultSubdirs | vault/core.py:49-66 | the vault directory, and the `notes` directory inside it |
| Paths.IndexPath | vault/core.py:107-122 | `index.json` inside the vault directory |
| Paths.NoteFilePath | vault/core.py:209-228 | `<id>.txt` inside the notes directory, whatever the record's filename |
| Paths.NoteFilePathShape | vault/core.py:209-228 | for a root without a trailing slash, the path is `<root>/notes/<id>.txt` |
| Paths.NoteFilePathInjective | vault/core.py:209-228 | distinct relative ids have distinct content files |
| Paths.IndexIsNoNote | vault/core.py:209-228 | no note's content file is the index file |
| Paths.DefaultLayout | vault/core.py:107-122 | under home `/home/user`: `/home/user/.mpkv`, its `notes` directory and `/home/user/.mpkv/index.json`; an empty custom path means the default |
| Storage.Lookup | vault/core.py:373-377 | an id has a record iff it is among the index ids |
| Storage.LookupUnique | vault/core.py:377 | with unique ids, the record found under an entry's id is that entry's record |
| Storage.PutLookup | vault/core.py:332 | after the assignment the id maps to the new record and every other id is unchanged. Ids stay unique. A new id is appended at the end; an existing one keeps its place |
| Storage.RemoveLookup | vault/core.py:438 | after the deletion the id is gone and every other id keeps its record. Ids stay unique, and one entry fewer remains when the id was present |
| Storage.LoadNotes | vault/core.py:125-156 | an unparsable index is a StorageError; otherwise the notes, if the index has that key |
| Storage.SaveIndex | vault/core.py:159-189 | a directory failure is an OSError and a write failure a StorageError; on success the index holds the entries and reads back as them |
| Storage.ReadContent | vault/core.py:231-264 | a missing file is NoteNotFoundError(id), an unreadable one a StorageError, otherwise the file's text |
| Storage.WriteContent | vault/core.py:267-298 | a directory failure is an OSError and a write failure a StorageError. On success the file holds exactly the content and no other file changes |
| Storage.RemoveFile | vault/core.py:426-436 | a file already gone is no error; a failing removal is a StorageError; otherwise exactly that file goes |
| Core.FindIdByTitle | vault/core.py:451-487 | an unparsable index is StorageError. Otherwise the result is None iff no entry has exactly the title, and else the id of the first such entry in index order |
| Core.GetNote | vault/core.py:344-390 | an id absent from the index, and a missing content file, are NoteNotFoundError(id). An unparsable index, an unreadable content file and a record that cannot be rebuilt are StorageError. Otherwise the result is the note rebuilt from its record and content |
| Core.GetNoteByTitle | vault/core.py:553-591 | no note with the title is NoteNotFoundError(title); otherwise the lookup of the first id with that title |
| Core.Titles | vault/core.py:630-662 | one title per entry, in index order, "" for a record without one; an index without notes gives [] |
| Core.Search | vault/core.py:665-737 | only an unparsable index is an error; an index without notes gives []; never more results than entries |
| Core.SearchStepSpec | vault/core.py:700-731 | the title, tag and content checks of one entry add the note iff it can be fetched and the lowered term occurs in its lowered title, a lowered tag or its lowered content |
| Core.SearchMembership | vault/core.py:696-733 | a note is in the results iff some entry can be fetched as that note and is a hit; entries that cannot be read are skipped |
| Core.SearchPrefix | vault/core.py:699-733 | results follow index order: the results for a prefix of the index are a prefix of the results |
| Core.SearchCount | vault/core.py:699-733 | each entry contributes at most once: there are exactly as many results as fetchable hit entries |
| Core.SearchCaseInsensitive | vault/core.py:696 | searching the upper-cased or lower-cased term gives the same results as the term |
| Core.TallySpec | vault/core.py:770-771 | incrementing once per tag adds the tags as keys and each tag's number of occurrences to its count |
| Core.OccurrencesPositive | vault/core.py:769-771 | a tag occurs at least once iff some entry lists it |
| Core.TallyEntry | vault/core.py:769-771 | tallying one more entry's tags into the counts of the entries before it gives the counts of all of them |
| Core.TagCounts | vault/core.py:740-777 | only an unparsable index is an error; no notes gives {}; the keys are exactly the tags that occur, each mapped to its total occurrences |
| Core.TagCountsSpec | vault/core.py:740-777 | a tag is counted iff some entry lists it, and every count is positive |
| Core.CountsOccurrencesNotNotes | vault/core.py:769-771 | one note listing "work" twice gives the count 2 |
| Core.ExportFrom | vault/core.py:809-837 | the loop only appends to the files already written, at most one per remaining entry, and can stop only with OSError |
| Core.ExportEntries | vault/core.py:809-837 | at most one file per entry; the only error that stops the loop is OSError |
| Core.ExportNotes | vault/core.py:780-844 | an unparsable index is StorageError; an index without notes writes nothing; an output directory that cannot be created is OSError |
| Core.ApplySpec | vault/core.py:830-832 | the export directory gains exactly the written paths, each holding the body last written to it |
| Core.ExportFromMembership | vault/core.py:809-837 | without write failures the loop completes, and a file is written iff it was already written or belongs to a remaining readable entry |
| Core.ExportMembership | vault/core.py:809-837 | without write failures the export completes, and the files written are exactly those of the entries whose content can be read |
| Core.ExportFileInDir | vault/core.py:817-827 | every export file lies in the output directory and is named `<safe title>.txt` |
| Core.ExportFromWritable | vault/core.py:830-837 | no export file is written to a path that cannot be written, whether or not the export stopped |
| Export.SafeTitleSpec | vault/core.py:817-824 | a non-empty title keeps its length; position by position it keeps alphanumerics, `-` and `_`, and every other character becomes `_`; the empty title becomes "untitled" |
| Export.SafeTitleChars | vault/core.py:817-824 | a safe title is non-empty and made of alphanumerics, `-` and `_` only |
| Export.SafeTitleIdempotent | vault/core.py:817-824 | sanitising a safe title again changes nothing |
| Export.SafeTitleCollides | vault/core.py:817-824 | titles differing only in unsafe characters share an export file name |
| Export.SafeTitleConcat | vault/core.py:817-821 | sanitising works character by character: the safe title of two non-empty titles joined is the two safe titles joined |
| Export.SpecialCharsExample | vault/core.py:817-824 | slashes, asterisks, question marks and colons become underscores: "Test/Note" gives "Test_Note", "Note*With" gives "Note_With", "With?Special:Chars" gives "With_Special_Chars" |
| Export.SpacesExample | vault/core.py:817-824 | "Test Note 1" becomes "Test_Note_1" and "" becomes "untitled" |
| Export.ExportBodyParts | vault/core.py:830-832 | the file body is "Title: ", the original title, a blank line and the content, each recoverable |
| Core.CreateInternal | vault/core.py:301-341 | the content is written first; a write refused when the file is opened changes nothing. A later failure (an unparsable index, or an index save refused at opening) leaves the index as it was. Success needs no failure and a parsable index, and then the index holds the note's record under its id and the file holds its content |
| Core.CreateNote | vault/core.py:490-550 | a directory failure (OSError), a title already in the index (DuplicateTitleError) and an invalid note (ValueError) change nothing. A failure (with writes refused at opening) leaves the index as it was. On success the note has the fresh id, the title and the content, its record is put in the index and its content written. It succeeds iff the directories can be created, no entry has the title, the note is valid and neither write is refused; an unparsable index is StorageError |
| Core.CreateWriteFailure | vault/core.py:292-298 | a content write refused when the file is opened changes nothing; for a new title and a valid note it is StorageError |
| Core.CreateSucceedsInEmptyVault | vault/core.py:490-550 | creating a valid note in an empty vault with no failures succeeds |
| Core.GetAfterCreate | vault/core.py:490-550 | a created note can be fetched back by its id, absent tags read as the empty list |
| Core.GetByTitleAfterCreate | vault/core.py:490-591 | after a create the title is found under the new id, and fetching by title is fetching by that id |
| Core.SecondCreateIsDuplicate | vault/core.py:524-528 | after a create, a second create with the same title is DuplicateTitleError and changes nothing |
| Core.TitlesAfterCreate | vault/core.py:327-332 | creating a note under a new id appends its title to the titles, in order |
| Core.CreateKeepsOthers | vault/core.py:301-341 | creating keeps ids unique and every other note's record and content file as they were |
| Core.DeleteNote | vault/core.py:393-448 | an unparsable index is StorageError; an absent id is NoteNotFoundError(id) and changes nothing. Success means the record is removed from the index, and the content file too when the record has a truthy filename. A file already gone is tolerated; any other failure is StorageError with the index unchanged |
| Core.DeleteNoteByTitle | vault/core.py:594-627 | no note with the title is NoteNotFoundError(title); otherwise the delete of the first id with that title |
| Core.PutKeepsTitlesUnique | vault/core.py:524-532 | putting a record whose title no entry carries keeps the index's titles unique |
| Core.RemoveKeepsTitlesUnique | vault/core.py:438 | deleting an entry keeps the index's titles unique |
| Core.CreateKeepsTitlesUnique | vault/core.py:490-550 | `create_note` keeps titles unique across the vault, since it stores a note only under a title no entry carries |
| Core.DeleteKeepsTitlesUnique | vault/core.py:393-448 | deleting a note keeps titles unique |
| Core.GetByTitleAfterDelete | vault/core.py:594-627 | with unique ids and titles, after a successful delete by title the titles stay unique, the title is no longer found and fetching by it is NoteNotFoundError(title) |
| Core.GetAfterDelete | vault/core.py:437-439 | after a delete the note is NoteNotFoundError and every other note keeps its record |
| Core.CreateKeepsIndexHasFiles | vault/core.py:301-341 | every indexed id keeps a content file after `create_note`, whatever fails, since the content is written before the index |
| Core.DeleteKeepsIndexHasFiles | vault/core.py:393-448 | with unique ids, a successful delete keeps every indexed id backed by a file; the only delete that changes the store and fails is a failed save after the removal, which keeps the index and drops the file |
| Core.DeleteSaveFailureOrphansEntry | vault/core.py:425-439 | a delete whose index save fails leaves the index listing a note whose content file is gone |
| Core.DeleteKeepsFileWithoutFilename | vault/core.py:424-425 | a record without a truthy filename keeps its content file |
| Repository.Vault.FindNoteIdByTitle | vault/core.py:451-487 | the loop returns what FindIdByTitle specifies |
| Repository.Vault.CreateNoteInternal | vault/core.py:301-341 | the statements end in the state and result CreateInternal specifies, the export directory untouched |
| Repository.Vault.CreateNote | vault/core.py:490-550 | ends in the state CreateNote specifies; on success returns a new, valid Note object holding the created note, otherwise the same error |
| Repository.Vault.DeleteNoteInternal | vault/core.py:393-448 | ends in the state and result DeleteNote specifies |
| Repository.Vault.DeleteNoteByTitle | vault/core.py:594-627 | ends in the state and result DeleteNoteByTitle specifies |
| Repository.Vault.SearchNotes | vault/core.py:665-737 | the loop appending hits returns what Search specifies |
| Repository.Vault.CountTags | vault/core.py:770-771 | the inner loop increments once per tag of the entry |
| Repository.Vault.TagsWithCounts | vault/core.py:740-777 | the nested loops return what TagCounts specifies |
| Repository.Vault.ExportNotes | vault/core.py:780-844 | returns the error ExportNotes specifies, writes exactly its files in order and leaves the vault unchanged |
| Repository.Vault.ExportEach | vault/core.py:809-837 | the loop writes the files ExportEntries specifies and stops with its error |
| Repository.Vault.ExportEntry | vault/core.py:810-837 | one entry: an unreadable one is skipped, an unwritable path stops the loop, otherwise exactly its file is written |

## Left out

- **The command-line shell** (`cli.py`): argument parsing, prompts, printing and exit codes. It only calls the core.
- **Real file-system I/O:** `open`, `os.makedirs`, `os.remove` and `ensure_vault_dirs_exist` are replaced by the stored state and the `Env` failure oracle.
- **JSON encoding and decoding:**
  - A missing index file and an index without a "notes" key both read as `Json(None)`; an unparsable one is `Corrupt`.
  - Index keys other than "notes" are not modelled.
  - A JSON `null` value is treated like an absent key.
  - Records whose values have the wrong JSON type are not modelled.
- **Ids and clocks:**
  - `uuid.uuid4` and `datetime.now` are the parameters `freshId` and `now`.
  - All reconstructions and updates inside one call share them.
  - Timestamps are integers, and `isoformat`/`fromisoformat` are the identity.
- **Path normalisation:** `os.path.expanduser` and `os.path.abspath` are not modelled. A custom vault path is used as given, and the home directory is a parameter.
- **Text:** only ASCII semantics of `isalnum`, `isspace`, `lower` and `strip` are modelled; whitespace is space, 0x09 to 0x0D and 0x1C to 0x1F. Non-ASCII whitespace and letters are not modelled.
- **create_note arguments:** title and content are taken as strings, as the signature of `create_note` declares. The tags are any value.
- **Note objects from reads:** `get_note_by_title`, `_get_note_internal` and `search_notes` return note values (`NoteData`), not `Note` objects.
- **Tag-count key order:** the counts returned by `get_all_tags_with_counts` are a map, so the order of its keys is not modelled.
- **Logging, error-message text and `original_error` chaining:** an error is its kind and its carried id, title or key.
- **Concurrent access to the index file** is not modelled.
- **An index that exists but cannot be opened:** `load_index` (vault/core.py:148-156) wraps only invalid JSON as StorageError. An index file that exists but cannot be opened (a permission error, a directory) raises a plain OSError. That escapes from the title lookup, `get_all_titles`, `search_notes`, `get_all_tags_with_counts`, `create_note` and `export_notes`, and only `_get_note_internal`, `_delete_note_internal`, `get_note_by_title` (vault/core.py:587) and `delete_note_by_title` (vault/core.py:623) wrap it as StorageError. The model's index is either parsable or `Corrupt`, so this failure is not modelled.
- **Writes that fail after truncation:** `Env` only models a write refused when `open(..., "w")` is called (vault/core.py:183 and :292). A write that fails after the file was truncated, such as a full disk, is not modelled. It would raise StorageError and leave the content file or the index truncated; a truncated index would make every later load a StorageError. `Core.CreateInternal`, `Core.CreateNote` and `Core.CreateWriteFailure` promise "nothing changes" only for a write refused at opening.
- **Note.__repr__** is not modelled.
