/**
 * The file naming and file body of `export_notes` (vault/core.py): a note's
 * title is turned into a safe file name and the file holds a title header
 * followed by the content.
 */
module Export {
  import opened Text

  /** Characters the first sanitising pass keeps as they are. */
  predicate Kept(c: char) {
    IsAlnum(c) || c == ' ' || c == '-' || c == '_'
  }

  /** Characters a safe title is made of. */
  predicate SafeChar(c: char) {
    IsAlnum(c) || c == '-' || c == '_'
  }

  /** First pass: every character that is not kept becomes `_`. */
  function KeepOrUnderscore(title: string): (r: string)
    ensures |r| == |title|
    ensures forall i :: 0 <= i < |title| ==> r[i] == (if Kept(title[i]) then title[i] else '_')
  {
    seq(|title|, i requires 0 <= i < |title| => if Kept(title[i]) then title[i] else '_')
  }

  /** Second pass: `s.replace(" ", "_")`. */
  function ReplaceSpaces(s: string): (r: string)
    ensures |r| == |s|
    ensures forall i :: 0 <= i < |s| ==> r[i] == (if s[i] == ' ' then '_' else s[i])
  {
    seq(|s|, i requires 0 <= i < |s| => if s[i] == ' ' then '_' else s[i])
  }

  /** The sanitised title: both passes, and "untitled" for an empty result. */
  function SafeTitle(title: string): string {
    var s := ReplaceSpaces(KeepOrUnderscore(title));
    if s == "" then "untitled" else s
  }

  /**
   * What the two passes amount to: a non-empty title keeps its length and,
   * position by position, its alphanumerics, hyphens and underscores; every
   * other character becomes `_`. Only the empty title becomes "untitled".
   */
  lemma SafeTitleSpec(title: string)
    ensures title == "" ==> SafeTitle(title) == "untitled"
    ensures title != "" ==> |SafeTitle(title)| == |title|
    ensures title != "" ==> forall i :: 0 <= i < |title| ==>
      SafeTitle(title)[i] == (if SafeChar(title[i]) then title[i] else '_')
  {
    if title != "" {
      assert |ReplaceSpaces(KeepOrUnderscore(title))| > 0;
    }
  }

  /** A safe title holds only alphanumerics, `-` and `_`: no slash, no space, so it names a file in the export directory. */
  lemma SafeTitleChars(title: string)
    ensures |SafeTitle(title)| > 0
    ensures forall i :: 0 <= i < |SafeTitle(title)| ==> SafeChar(SafeTitle(title)[i])
  {
    SafeTitleSpec(title);
  }

  /** Sanitising a safe title again changes nothing. */
  lemma SafeTitleIdempotent(title: string)
    ensures SafeTitle(SafeTitle(title)) == SafeTitle(title)
  {
    var s := SafeTitle(title);
    SafeTitleChars(title);
    SafeTitleSpec(s);
    assert forall i :: 0 <= i < |s| ==> SafeTitle(s)[i] == s[i];
  }

  /** Two titles that differ only in their unsafe characters share an export file. */
  lemma SafeTitleCollides(a: string, b: string)
    requires a != "" && |a| == |b|
    requires forall i :: 0 <= i < |a| ==> (SafeChar(a[i]) || SafeChar(b[i]) ==> a[i] == b[i])
    ensures SafeTitle(a) == SafeTitle(b)
  {
    SafeTitleSpec(a);
    SafeTitleSpec(b);
  }

  /** Sanitising works character by character: it distributes over concatenation of non-empty titles. */
  lemma SafeTitleConcat(a: string, b: string)
    requires a != "" && b != ""
    ensures SafeTitle(a + b) == SafeTitle(a) + SafeTitle(b)
  {
    SafeTitleSpec(a);
    SafeTitleSpec(b);
    SafeTitleSpec(a + b);
    assert forall i :: 0 <= i < |a + b| ==> SafeTitle(a + b)[i] == (SafeTitle(a) + SafeTitle(b))[i];
  }

  /** A non-empty title of safe characters is its own safe title. */
  lemma SafeTitleKeeps(w: string)
    requires w != "" && forall i :: 0 <= i < |w| ==> SafeChar(w[i])
    ensures SafeTitle(w) == w
  {
    SafeTitleSpec(w);
  }

  /** A single unsafe character becomes one underscore. */
  lemma SafeTitleReplaces(c: char)
    requires !SafeChar(c)
    ensures SafeTitle([c]) == "_"
  {
    SafeTitleSpec([c]);
  }

  /** Slashes, asterisks, question marks and colons each become an underscore. */
  lemma SpecialCharsExample()
    ensures SafeTitle("Test/Note") == "Test_Note"
    ensures SafeTitle("With?Special:Chars") == "With_Special_Chars"
    ensures SafeTitle("Note*With") == "Note_With"
  {
    Word("Test"); Word("Note"); Word("With"); Word("Special"); Word("Chars");
    SafeTitleReplaces('/'); SafeTitleReplaces('*'); SafeTitleReplaces('?'); SafeTitleReplaces(':');
    SafeTitleConcat("Test", "/");
    SafeTitleConcat("Test/", "Note");
    SafeTitleConcat("Note", "*");
    SafeTitleConcat("Note*", "With");
    SafeTitleConcat("Special", ":");
    SafeTitleConcat("Special:", "Chars");
    SafeTitleConcat("With", "?");
    SafeTitleConcat("With?", "Special:Chars");
  }

  /** Spaces become underscores, and the empty title is "untitled". */
  lemma SpacesExample()
    ensures SafeTitle("Test Note 1") == "Test_Note_1"
    ensures SafeTitle("") == "untitled"
  {
    Word("Test"); Word("Note"); Word("1");
    SafeTitleReplaces(' ');
    SafeTitleConcat("Test", " ");
    SafeTitleConcat("Test ", "Note");
    SafeTitleConcat("Test Note", " ");
    SafeTitleConcat("Test Note ", "1");
  }

  /** The words of the examples are their own safe titles. */
  lemma Word(w: string)
    requires w in {"Test", "Note", "With", "Special", "Chars", "1"}
    ensures SafeTitle(w) == w
  {
    SafeTitleKeeps(w);
  }

  /** The export file name. */
  function ExportFileName(title: string): string {
    SafeTitle(title) + ".txt"
  }

  /** The export file body: a "Title: " header line, a blank line, then the content. */
  function ExportBody(title: string, content: string): string {
    "Title: " + title + "\n\n" + content
  }

  /** The header can be split off the body again: it gives back the title and the content. */
  lemma ExportBodyParts(title: string, content: string)
    ensures var b := ExportBody(title, content);
      b[..7] == "Title: " && b[7..7 + |title|] == title &&
      b[7 + |title|..9 + |title|] == "\n\n" && b[9 + |title|..] == content
  {
  }
}
