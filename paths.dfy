/**
 * The path helpers of vault/core.py: where the vault, its notes directory,
 * its index file and each note's content file live. Paths are POSIX paths
 * joined with `os.path.join`; `expanduser` and `abspath` are not modelled,
 * so a custom vault path is taken as already absolute.
 */
module Paths {
  import opened Errors

  const VaultDirName := ".mpkv"
  const NotesSubdirName := "notes"
  const IndexFilename := "index.json"
  const ContentExtension := ".txt"

  predicate Absolute(p: string) {
    |p| > 0 && p[0] == '/'
  }

  /** `p` ends with `suffix`. */
  predicate EndsWith(p: string, suffix: string) {
    |suffix| <= |p| && p[|p| - |suffix|..] == suffix
  }

  /**
   * `os.path.join(a, b)` on POSIX: an absolute `b` replaces `a`; otherwise
   * `b` is appended to `a` with one slash between them unless `a` is empty
   * or already ends in a slash.
   */
  function Join(a: string, b: string): (r: string)
    ensures EndsWith(r, b)
    ensures Absolute(b) ==> r == b
    ensures !Absolute(b) ==> a <= r && |r| <= |a| + 1 + |b|
    ensures !Absolute(b) && |a| > 0 && a[|a| - 1] != '/' ==> r == a + "/" + b
  {
    if Absolute(b) then b
    else if |a| == 0 || a[|a| - 1] == '/' then a + b
    else a + "/" + b
  }

  /** The part Join puts in front of a relative `b`: it depends on `a` alone. */
  function JoinPrefix(a: string): string {
    if |a| == 0 || a[|a| - 1] == '/' then a else a + "/"
  }

  lemma JoinRelative(a: string, b: string)
    requires !Absolute(b)
    ensures Join(a, b) == JoinPrefix(a) + b
  {
  }

  /**
   * `get_vault_path`: a non-empty custom path is used as given, otherwise
   * the `.mpkv` directory in the home directory.
   */
  function VaultPath(custom: Option<string>, home: string): (r: string)
    ensures custom.Some? && custom.value != "" ==> r == custom.value
    ensures custom.None? || custom.value == "" ==> EndsWith(r, VaultDirName) && home <= r
  {
    if custom.Some? && custom.value != "" then custom.value else Join(home, VaultDirName)
  }

  /** `get_vault_subdirs`: the vault directory and its `notes` subdirectory. */
  function VaultSubdirs(custom: Option<string>, home: string): (r: (string, string))
    ensures r.0 == VaultPath(custom, home)
    ensures r.0 <= r.1 && EndsWith(r.1, NotesSubdirName)
  {
    var root := VaultPath(custom, home);
    (root, Join(root, NotesSubdirName))
  }

  /** `get_index_path` */
  function IndexPath(root: string): (r: string)
    ensures root <= r && EndsWith(r, IndexFilename)
  {
    Join(root, IndexFilename)
  }

  /** `_get_note_file_path`: always `<id>.txt` in the notes directory, whatever the record's filename says. */
  function NoteFilePath(root: string, id: string): (r: string)
    ensures EndsWith(r, id + ContentExtension)
    ensures !Absolute(id) ==> root <= r
  {
    Join(Join(root, NotesSubdirName), id + ContentExtension)
  }

  /** For a vault directory without a trailing slash, the note path is `<root>/notes/<id>.txt`. */
  lemma NoteFilePathShape(root: string, id: string)
    requires |root| > 0 && root[|root| - 1] != '/' && !Absolute(id)
    ensures NoteFilePath(root, id) == root + "/notes/" + id + ".txt"
  {
  }

  /** Distinct (relative) note ids have distinct content files, so the content files can be keyed by id. */
  lemma NoteFilePathInjective(root: string, id1: string, id2: string)
    requires !Absolute(id1) && !Absolute(id2)
    requires NoteFilePath(root, id1) == NoteFilePath(root, id2)
    ensures id1 == id2
  {
    var p := JoinPrefix(Join(root, NotesSubdirName));
    assert !Absolute(id1 + ContentExtension);
    assert !Absolute(id2 + ContentExtension);
    JoinRelative(Join(root, NotesSubdirName), id1 + ContentExtension);
    JoinRelative(Join(root, NotesSubdirName), id2 + ContentExtension);
    var f1, f2 := id1 + ContentExtension, id2 + ContentExtension;
    assert p + f1 == p + f2;
    assert f1 == (p + f1)[|p|..] == (p + f2)[|p|..] == f2;
    assert id1 == f1[..|id1|] == f2[..|id2|] == id2;
  }

  /** The index file is never a note's content file: one ends in `.json`, the other in `.txt`. */
  lemma IndexIsNoNote(root: string, root': string, id: string)
    ensures IndexPath(root) != NoteFilePath(root', id)
  {
    var a := IndexPath(root);
    var b := NoteFilePath(root', id);
    assert a[|a| - 1] == IndexFilename[|IndexFilename| - 1] == 'n';
    assert b[|b| - 1] == (id + ContentExtension)[|id + ContentExtension| - 1] == 't';
  }

  /** The documented default layout under a home directory `/home/user`. */
  lemma DefaultLayout()
    ensures VaultPath(None, "/home/user") == "/home/user/.mpkv"
    ensures VaultPath(Some(""), "/home/user") == "/home/user/.mpkv"
    ensures VaultPath(Some("/data/my-vault"), "/home/user") == "/data/my-vault"
    ensures VaultSubdirs(None, "/home/user") == ("/home/user/.mpkv", "/home/user/.mpkv/notes")
    ensures IndexPath("/home/user/.mpkv") == "/home/user/.mpkv/index.json"
  {
    assert "/home/user" + "/" + ".mpkv" == "/home/user/.mpkv";
    assert "/home/user/.mpkv" + "/" + "notes" == "/home/user/.mpkv/notes";
    assert "/home/user/.mpkv" + "/" + "index.json" == "/home/user/.mpkv/index.json";
  }
}
