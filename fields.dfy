/**
 * The field validators of vault/fields.py: the required/None gate shared by
 * every field (`BaseField.__set__`) and the title, content and tags rules,
 * as total functions from an arbitrary Python value to a Result.
 */
module Fields {
  import opened Errors
  import opened Text

  /** The dynamically typed values a caller may hand to a field. */
  datatype Value =
    | Null                    // Python None
    | Str(s: string)
    | List(items: seq<Value>)
    | Other                   // any other object: a number, a dict, ...

  // The limits Note's descriptors are declared with (the constructors' defaults).
  const MaxTitleLength := 100
  const MinContentLength := 10
  const MaxContentLength := 10000
  const MaxTags := 20
  const MaxTagLength := 30

  /**
   * The gate of `BaseField.__set__`: None is refused when the field is
   * required and stored as None when it is optional; any other value goes
   * through the field's validator and its verdict is what gets stored.
   */
  function Admit<T>(field: FieldName, required: bool, v: Value, validate: Value -> Result<T>): (r: Result<Option<T>>)
    ensures v.Null? ==> (r.Err? <==> required)
    ensures v.Null? && required ==> r.error == ValueError(field, Required)
    ensures v.Null? && !required ==> r.value == None
    ensures !v.Null? ==> (r.Ok? <==> validate(v).Ok?)
    ensures !v.Null? && r.Ok? ==> r.value == Some(validate(v).value)
    ensures !v.Null? && r.Err? ==> r.error == validate(v).error
  {
    if v.Null? then
      if required then Err(ValueError(field, Required)) else Ok(None)
    else
      match validate(v)
      case Ok(x) => Ok(Some(x))
      case Err(e) => Err(e)
  }

  /** The characters a title may hold. */
  predicate TitleChar(c: char) {
    IsAlnum(c) || IsSpace(c)
  }

  /** A title the validator accepts. There is no minimum length. */
  predicate IsTitle(s: string) {
    |s| <= MaxTitleLength && forall i :: 0 <= i < |s| ==> TitleChar(s[i])
  }

  /** Position of the first character that is not a title character, or |s|. */
  function FirstNonTitleChar(s: string): (k: nat)
    ensures k <= |s|
    ensures forall j :: 0 <= j < k ==> TitleChar(s[j])
    ensures k < |s| ==> !TitleChar(s[k])
    decreases |s|
  {
    if |s| == 0 || !TitleChar(s[0]) then 0 else 1 + FirstNonTitleChar(s[1..])
  }

  /** `TitleField.validate` */
  function ValidateTitle(v: Value): (r: Result<string>)
    ensures r.Ok? <==> v.Str? && IsTitle(v.s)
    ensures r.Ok? ==> r.value == v.s
    ensures r.Err? ==> r.error.ValueError? && r.error.field == Title
    ensures !v.Str? ==> r.error.violation == NotAString
    ensures v.Str? && |v.s| > MaxTitleLength ==> r.error.violation == TooLong
    ensures v.Str? && |v.s| <= MaxTitleLength && r.Err? ==>
      r.error.violation.InvalidChar? && r.error.violation.c in v.s && !TitleChar(r.error.violation.c)
  {
    match v
    case Str(s) =>
      if |s| > MaxTitleLength then Err(ValueError(Title, TooLong))
      else
        var k := FirstNonTitleChar(s);
        if k < |s| then Err(ValueError(Title, InvalidChar(s[k]))) else Ok(s)
    case _ => Err(ValueError(Title, NotAString))
  }

  /** Content the validator accepts. */
  predicate IsContent(s: string) {
    MinContentLength <= |s| <= MaxContentLength
  }

  /** `ContentField.validate` */
  function ValidateContent(v: Value): (r: Result<string>)
    ensures r.Ok? <==> v.Str? && IsContent(v.s)
    ensures r.Ok? ==> r.value == v.s
    ensures r.Err? ==> r.error.ValueError? && r.error.field == Content
    ensures !v.Str? ==> r.error.violation == NotAString
    ensures v.Str? && |v.s| < MinContentLength ==> r.error.violation == TooShort
    ensures v.Str? && |v.s| > MaxContentLength ==> r.error.violation == TooLong
  {
    match v
    case Str(s) =>
      if |s| < MinContentLength then Err(ValueError(Content, TooShort))
      else if |s| > MaxContentLength then Err(ValueError(Content, TooLong))
      else Ok(s)
    case _ => Err(ValueError(Content, NotAString))
  }

  predicate AllStrings(items: seq<Value>) {
    forall i :: 0 <= i < |items| ==> items[i].Str?
  }

  /** The strings of a list whose elements are all strings. */
  function Strings(items: seq<Value>): (r: seq<string>)
    requires AllStrings(items)
    ensures |r| == |items|
    ensures forall i :: 0 <= i < |items| ==> r[i] == items[i].s
  {
    seq(|items|, i requires 0 <= i < |items| => items[i].s)
  }

  /** A list of strings as a Python value. */
  function StrList(ts: seq<string>): (r: Value)
    ensures r.List? && AllStrings(r.items) && Strings(r.items) == ts
  {
    var items := seq(|ts|, i requires 0 <= i < |ts| => Str(ts[i]));
    assert Strings(items) == ts;
    List(items)
  }

  /** Every piece stripped, in order. */
  function StripAll(ts: seq<string>): (r: seq<string>)
    ensures |r| == |ts|
    ensures forall i :: 0 <= i < |ts| ==> r[i] == Strip(ts[i])
  {
    seq(|ts|, i requires 0 <= i < |ts| => Strip(ts[i]))
  }

  /** The non-empty pieces, in order (`[tag for tag in tags if tag]`). */
  function NonEmpty(ts: seq<string>): seq<string>
    decreases |ts|
  {
    if |ts| == 0 then []
    else if ts[0] == "" then NonEmpty(ts[1..])
    else [ts[0]] + NonEmpty(ts[1..])
  }

  /** Strip every piece and drop the empty ones, keeping order. */
  function Normalize(raw: seq<string>): seq<string> {
    NonEmpty(StripAll(raw))
  }

  /** A tag list as the validator produces it. */
  predicate IsTagList(ts: seq<string>) {
    |ts| <= MaxTags &&
    forall i :: 0 <= i < |ts| ==> ts[i] != "" && Strip(ts[i]) == ts[i] && |ts[i]| <= MaxTagLength
  }

  /** Position of the first tag over the maximum tag length, or |ts|. */
  function FirstLongTag(ts: seq<string>): (k: nat)
    ensures k <= |ts|
    ensures forall j :: 0 <= j < k ==> |ts[j]| <= MaxTagLength
    ensures k < |ts| ==> |ts[k]| > MaxTagLength
    decreases |ts|
  {
    if |ts| == 0 || |ts[0]| > MaxTagLength then 0 else 1 + FirstLongTag(ts[1..])
  }

  /** The count and length checks run on the filtered tags. */
  function CheckTags(tags: seq<string>): Result<seq<string>> {
    if |tags| > MaxTags then Err(ValueError(Tags, TooManyTags))
    else
      var k := FirstLongTag(tags);
      if k < |tags| then Err(ValueError(Tags, TagTooLong(tags[k]))) else Ok(tags)
  }

  /** The raw pieces of a tags value: the comma-split string or the list's strings. */
  function RawTags(v: Value): Option<seq<string>> {
    match v
    case Str(s) => Some(Split(s, ','))
    case List(items) => if AllStrings(items) then Some(Strings(items)) else None
    case _ => None
  }

  /** `TagsField.validate` */
  function ValidateTags(v: Value): (r: Result<seq<string>>)
    ensures r.Ok? <==>
      RawTags(v).Some? && |Normalize(RawTags(v).value)| <= MaxTags &&
      forall i :: 0 <= i < |Normalize(RawTags(v).value)| ==> |Normalize(RawTags(v).value)[i]| <= MaxTagLength
    ensures r.Ok? ==> r.value == Normalize(RawTags(v).value)
    ensures r.Err? ==> r.error.ValueError? && r.error.field == Tags
    ensures !v.Str? && !v.List? ==> r.error.violation == NotStringOrList
    ensures v.List? && !AllStrings(v.items) ==> r.error.violation == NonStringTag
    ensures RawTags(v).Some? && |Normalize(RawTags(v).value)| > MaxTags ==> r.error.violation == TooManyTags
  {
    match v
    case Str(s) => CheckTags(Normalize(Split(s, ',')))
    case List(items) =>
      if !AllStrings(items) then Err(ValueError(Tags, NonStringTag))
      else CheckTags(Normalize(Strings(items)))
    case _ => Err(ValueError(Tags, NotStringOrList))
  }

  /** The pieces NonEmpty keeps are exactly the non-empty ones, in the same relative order. */
  lemma {:induction false} NonEmptyMembers(ts: seq<string>)
    ensures |NonEmpty(ts)| <= |ts|
    ensures forall t :: t in NonEmpty(ts) <==> t in ts && t != ""
  {
    if |ts| > 0 {
      NonEmptyMembers(ts[1..]);
      assert ts == [ts[0]] + ts[1..];
    }
  }

  /** NonEmpty leaves a list without empty strings as it is. */
  lemma {:induction false} NonEmptyOfNonEmpty(ts: seq<string>)
    requires forall i :: 0 <= i < |ts| ==> ts[i] != ""
    ensures NonEmpty(ts) == ts
  {
    if |ts| > 0 {
      NonEmptyOfNonEmpty(ts[1..]);
      assert [ts[0]] + ts[1..] == ts;
    }
  }

  /** The kept tags are exactly the non-empty stripped pieces. */
  lemma NormalizeMembers(raw: seq<string>)
    ensures |Normalize(raw)| <= |raw|
    ensures forall t :: t in Normalize(raw) <==> t != "" && exists i :: 0 <= i < |raw| && Strip(raw[i]) == t
  {
    var st := StripAll(raw);
    NonEmptyMembers(st);
    forall t | t in st ensures exists i :: 0 <= i < |raw| && Strip(raw[i]) == t {
      var i :| 0 <= i < |st| && st[i] == t;
    }
  }

  /**
   * Any accepted tag list is at most 20 tags, each non-empty, stripped and
   * at most 30 characters.
   */
  lemma ValidTagsShape(v: Value)
    requires ValidateTags(v).Ok?
    ensures IsTagList(ValidateTags(v).value)
  {
    var raw := RawTags(v).value;
    var st := StripAll(raw);
    var ts := ValidateTags(v).value;
    assert ts == NonEmpty(st);
    NonEmptyMembers(st);
    forall i | 0 <= i < |ts| ensures ts[i] != "" && Strip(ts[i]) == ts[i] {
      assert ts[i] in NonEmpty(st);
      var j :| 0 <= j < |st| && st[j] == ts[i];
      StripIdempotent(raw[j]);
    }
  }

  /** Validating an accepted tag list again returns the same list. */
  lemma ValidateTagsIdempotent(v: Value)
    requires ValidateTags(v).Ok?
    ensures ValidateTags(StrList(ValidateTags(v).value)) == ValidateTags(v)
  {
    var ts := ValidateTags(v).value;
    ValidTagsShape(v);
    assert StripAll(ts) == ts;
    NonEmptyOfNonEmpty(ts);
  }

  /** A tag list the validator would produce is accepted unchanged. */
  lemma TagListAccepted(ts: seq<string>)
    requires IsTagList(ts)
    ensures ValidateTags(StrList(ts)) == Ok(ts)
  {
    assert StripAll(ts) == ts;
    NonEmptyOfNonEmpty(ts);
  }

  /** 100 characters is the longest accepted title; 101 is refused. */
  lemma TitleLengthBoundary(s: string)
    requires forall i :: 0 <= i < |s| ==> s[i] == 'A'
    ensures |s| == 100 ==> ValidateTitle(Str(s)) == Ok(s)
    ensures |s| == 101 ==> ValidateTitle(Str(s)) == Err(ValueError(Title, TooLong))
  {
  }

  /** A hyphen is refused: the first non-title character is reported. */
  lemma TitleRefusesPunctuation()
    ensures ValidateTitle(Str("Test-Title")) == Err(ValueError(Title, InvalidChar('-')))
  {
    var bad := "Test-Title";
    assert TitleChar(bad[0]) && TitleChar(bad[1]) && TitleChar(bad[2]) && TitleChar(bad[3]);
    assert !TitleChar(bad[4]);
    var k := FirstNonTitleChar(bad);
    assert k == 4;
  }

  /** Letters, digits and spaces pass, and so does the empty title. */
  lemma TitleAcceptsAlnumAndSpace()
    ensures ValidateTitle(Str("Title 123")) == Ok("Title 123")
    ensures ValidateTitle(Str("")) == Ok("")
  {
    var good := "Title 123";
    assert forall j :: 0 <= j < |good| ==> TitleChar(good[j]) by {
      assert TitleChar(good[0]) && TitleChar(good[1]) && TitleChar(good[2]) && TitleChar(good[3]);
      assert TitleChar(good[4]) && TitleChar(good[5]) && TitleChar(good[6]) && TitleChar(good[7]);
      assert TitleChar(good[8]);
    }
  }

  /** A title may hold any ASCII whitespace, the information separators included. */
  lemma TitleAcceptsSeparator()
    ensures ValidateTitle(Str("a\U{1C}b")) == Ok("a\U{1C}b")
  {
    var good := "a\U{1C}b";
    assert TitleChar(good[0]) && TitleChar(good[1]) && TitleChar(good[2]);
  }

  /** Content of 10 and of 10000 characters passes; 9 and 10001 fail. */
  lemma ContentLengthBoundary(s: string)
    ensures |s| == 9 ==> ValidateContent(Str(s)) == Err(ValueError(Content, TooShort))
    ensures (|s| == 10 || |s| == 9999 || |s| == 10000) ==> ValidateContent(Str(s)) == Ok(s)
    ensures |s| == 10001 ==> ValidateContent(Str(s)) == Err(ValueError(Content, TooLong))
  {
  }

  /** A string of commas and spaces gives no tags. */
  lemma TagsOnlySeparators()
    ensures ValidateTags(Str(" , , ")) == Ok([])
    ensures ValidateTags(Str("")) == Ok([])
  {
    var ps := [" ", " ", " "];
    SplitJoin(ps, ',');
    assert Join(ps, ',') == " , , ";
    assert Strip(" ") == "";
    assert StripAll(ps) == ["", "", ""];
    assert Split("", ',') == [""];
    assert StripAll([""]) == [""];
  }

  /** Each comma-separated piece is stripped, and order is kept. */
  lemma TagsStripped()
    ensures ValidateTags(Str("  python  ,  tutorial  ,  code  ")) == Ok(["python", "tutorial", "code"])
  {
    var ps := ["  python  ", "  tutorial  ", "  code  "];
    var ts := ["python", "tutorial", "code"];
    ExamplePieces(ps);
    ExampleNormalized(ps, ts);
    assert FirstLongTag(ts) == 3;
    assert CheckTags(ts) == Ok(ts);
  }

  lemma ExamplePieces(ps: seq<string>)
    requires ps == ["  python  ", "  tutorial  ", "  code  "]
    ensures Split("  python  ,  tutorial  ,  code  ", ',') == ps
  {
    ExampleJoin(ps);
    assert ',' !in ps[0] && ',' !in ps[1] && ',' !in ps[2];
    SplitJoin(ps, ',');
  }

  lemma ExampleJoin(ps: seq<string>)
    requires ps == ["  python  ", "  tutorial  ", "  code  "]
    ensures Join(ps, ',') == "  python  ,  tutorial  ,  code  "
  {
    assert Join(ps[2..], ',') == "  code  ";
    assert Join(ps[1..], ',') == "  tutorial  " + [','] + "  code  ";
    assert Join(ps, ',') == "  python  " + [','] + "  tutorial  " + [','] + "  code  ";
  }

  lemma ExampleNormalized(ps: seq<string>, ts: seq<string>)
    requires ps == ["  python  ", "  tutorial  ", "  code  "]
    requires ts == ["python", "tutorial", "code"]
    ensures Normalize(ps) == ts
  {
    StripExample("python");
    StripExample("tutorial");
    StripExample("code");
    assert ps[0] == "  " + "python" + "  ";
    assert ps[1] == "  " + "tutorial" + "  ";
    assert ps[2] == "  " + "code" + "  ";
    assert StripAll(ps)[0] == ts[0] && StripAll(ps)[1] == ts[1] && StripAll(ps)[2] == ts[2];
    assert StripAll(ps) == ts;
    NonEmptyOfNonEmpty(ts);
  }

  /** Two spaces around a word without spaces strip away. */
  lemma StripExample(w: string)
    requires |w| > 0 && !IsSpace(w[0]) && !IsSpace(w[|w| - 1])
    ensures Strip("  " + w + "  ") == w
  {
    var s := "  " + w + "  ";
    var t := w + "  ";
    assert s[0] == ' ' && s[1..][0] == ' ';
    assert s[1..][1..] == t;
    assert t[0] == w[0];
    assert TrimStart(s) == TrimStart(s[1..]) == TrimStart(t) == t;
    assert t[|t| - 1] == ' ';
    assert t[..|t| - 1] == w + " ";
    assert (w + " ")[|w|] == ' ';
    assert (w + " ")[..|w|] == w;
    assert TrimEnd(t) == TrimEnd(w + " ") == TrimEnd(w) == w;
  }
}
