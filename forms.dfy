/**
 * PostForm and CommentForm: ModelForms over Post (fields text, group, image) and
 * Comment (field text), modelled as validators from the submitted request body to
 * a cleaned payload or a set of field names carrying errors.
 *
 * Cleaning follows the form fields the framework derives from the model fields:
 * a TextField becomes a required CharField that strips surrounding whitespace and
 * refuses NUL characters; a nullable ForeignKey becomes an optional choice among
 * the existing rows, submitted as the primary key in decimal; a nullable ImageField
 * becomes an optional file that must be a recognised image.
 */
module Forms {
  import opened Wrappers
  import opened Models

  /** The body of a POST request: text fields and uploaded files, each keyed by field name. */
  datatype Submission = Submission(data: map<string, string>, files: map<string, Upload>)

  /** What a valid PostForm hands to the handler.  It has no author and no pub_date. */
  datatype PostPayload = PostPayload(text: string, group: Option<Id>, image: Option<Upload>)

  /** Field-keyed validation errors: the names of the fields that failed. */
  type Errors = set<string>

  const TextKey: string := "text"
  const GroupKey: string := "group"
  const ImageKey: string := "image"

  /** Meta.fields of PostForm and of CommentForm. */
  const PostFormFields: set<string> := {TextKey, GroupKey, ImageKey}
  const CommentFormFields: set<string> := {TextKey}

  /** The characters Python's str.strip() and int() treat as whitespace. */
  predicate IsSpace(c: char) {
    var n := c as int;
    || 0x09 <= n <= 0x0D || 0x1C <= n <= 0x20 || n == 0x85 || n == 0xA0 || n == 0x1680
    || 0x2000 <= n <= 0x200A || n == 0x2028 || n == 0x2029 || n == 0x202F || n == 0x205F || n == 0x3000
  }

  /** A string made of whitespace only (the empty string included). */
  ghost predicate Blank(s: string) {
    forall k :: 0 <= k < |s| ==> IsSpace(s[k])
  }

  function LeadingSpaces(s: string): (n: nat)
    ensures n <= |s|
    ensures forall k :: 0 <= k < n ==> IsSpace(s[k])
    ensures n < |s| ==> !IsSpace(s[n])
  {
    if s == [] || !IsSpace(s[0]) then 0 else 1 + LeadingSpaces(s[1..])
  }

  function TrailingSpaces(s: string): (n: nat)
    ensures n <= |s|
    ensures forall k :: |s| - n <= k < |s| ==> IsSpace(s[k])
    ensures n < |s| ==> !IsSpace(s[|s| - 1 - n])
  {
    if s == [] || !IsSpace(s[|s| - 1]) then 0 else 1 + TrailingSpaces(s[..|s| - 1])
  }

  /**
   * Python's str.strip(): the string without its leading and trailing whitespace,
   * that is, the slice that starts at the first and ends at the last other character.
   */
  function Strip(s: string): (r: string)
    ensures var i := LeadingSpaces(s);
      && i + |r| <= |s| && r == s[i..i + |r|]
      && forall k :: i + |r| <= k < |s| ==> IsSpace(s[k])
    ensures r == [] <==> Blank(s)
    ensures r != [] ==> !IsSpace(r[0]) && !IsSpace(r[|r| - 1])
  {
    var i := LeadingSpaces(s);
    var t := s[i..];
    var j := TrailingSpaces(t);
    var r := t[..|t| - j];
    assert r == [] ==> i == |s|;
    assert forall k :: i + |r| <= k < |s| ==> s[k] == t[k - i];
    r
  }

  /** Stripping keeps every character that is not whitespace. */
  lemma StripKeeps(s: string, c: char)
    requires !IsSpace(c)
    ensures c in Strip(s) <==> c in s
  {
    var r := Strip(s);
    var i := LeadingSpaces(s);
    if c in s {
      var k :| 0 <= k < |s| && s[k] == c;
      assert r[k - i] == c;
    }
    if c in r {
      var k :| 0 <= k < |r| && r[k] == c;
      assert s[i + k] == c;
    }
  }

  predicate IsDigit(c: char) {
    '0' <= c <= '9'
  }

  ghost predicate AllDigits(s: string) {
    forall k :: 0 <= k < |s| ==> IsDigit(s[k])
  }

  /** The number a string of decimal digits denotes. */
  function DigitsValue(ds: string): nat
    requires AllDigits(ds)
  {
    if ds == [] then 0 else DigitsValue(ds[..|ds| - 1]) * 10 + (ds[|ds| - 1] as int - '0' as int)
  }

  /** str(n): the decimal digits of n, with no leading zero. */
  function Decimal(n: nat): (r: string)
    ensures r != [] && AllDigits(r)
    ensures |r| > 1 ==> r[0] != '0'
  {
    if n < 10 then [('0' as int + n) as char] else Decimal(n / 10) + [('0' as int + n % 10) as char]
  }

  /** An unsigned integer literal int() accepts: decimal digits, optionally after a '+'. */
  ghost predicate IntegerLiteral(t: string) {
    (t != [] && AllDigits(t)) || (|t| > 1 && t[0] == '+' && AllDigits(t[1..]))
  }

  /**
   * int(s) for a primary key lookup: surrounding whitespace, an optional '+' and at
   * least one decimal digit; anything else names no row.
   */
  function ParseId(s: string): (r: Option<Id>)
    ensures r.Some? <==> IntegerLiteral(Strip(s))
    ensures r.Some? && AllDigits(Strip(s)) ==> r.value == DigitsValue(Strip(s))
    ensures r.Some? && Strip(s)[0] == '+' ==> r.value == DigitsValue(Strip(s)[1..])
    ensures r.Some? ==> !Blank(s)
  {
    var t := Strip(s);
    var d := if |t| > 0 && t[0] == '+' then t[1..] else t;
    if d != [] && forall k :: 0 <= k < |d| ==> IsDigit(d[k]) then Some(DigitsValue(d)) else None
  }

  lemma {:induction false} DecimalValue(n: nat)
    ensures DigitsValue(Decimal(n)) == n
  {
    if n >= 10 {
      DecimalValue(n / 10);
      var ds := Decimal(n);
      assert ds[..|ds| - 1] == Decimal(n / 10);
    }
  }

  /** The primary key a form submits for a choice is read back as that key. */
  lemma ParseDecimal(n: nat)
    ensures ParseId(Decimal(n)) == Some(n)
  {
    var s := Decimal(n);
    assert !IsSpace(s[0]) && !IsSpace(s[|s| - 1]);
    assert Strip(s) == s by {
      assert LeadingSpaces(s) == 0;
      assert TrailingSpaces(s) == 0;
    }
    DecimalValue(n);
  }

  /** CharField cleaning of the text field: strip, then required, then no NUL character. */
  function CleanText(data: map<string, string>): (r: Result<string, string>)
    ensures r.Failure? ==> r.error == TextKey
    ensures r.Failure? <==> TextKey !in data || Blank(data[TextKey]) || '\0' in data[TextKey]
    ensures r.Success? ==> r.value == Strip(data[TextKey]) && r.value != []
  {
    if TextKey !in data then Failure(TextKey)
    else
      var v := Strip(data[TextKey]);
      StripKeeps(data[TextKey], '\0');
      if v == [] || '\0' in v then Failure(TextKey) else Success(v)
  }

  /** ModelChoiceField cleaning of the group field: empty is "no group", otherwise an existing group's key. */
  function CleanGroup(data: map<string, string>, groups: set<Id>): (r: Result<Option<Id>, string>)
    ensures r.Failure? ==> r.error == GroupKey
    ensures GroupKey !in data || data[GroupKey] == "" ==> r == Success(None)
    ensures r.Failure? <==>
              GroupKey in data && data[GroupKey] != "" &&
              (ParseId(data[GroupKey]).None? || ParseId(data[GroupKey]).value !in groups)
    ensures r.Success? && r.value.None? ==> GroupKey !in data || data[GroupKey] == ""
    ensures r.Success? && r.value.Some? ==> r.value.value in groups && GroupKey in data && ParseId(data[GroupKey]) == r.value
  {
    if GroupKey !in data || data[GroupKey] == "" then Success(None)
    else match ParseId(data[GroupKey])
      case Some(id) => if id in groups then Success(Some(id)) else Failure(GroupKey)
      case None => Failure(GroupKey)
  }

  /** Choosing an existing group in the form (its key in decimal) selects exactly that group. */
  lemma GroupChoiceSelects(g: Id, groups: set<Id>)
    requires g in groups
    ensures CleanGroup(map[GroupKey := Decimal(g)], groups) == Success(Some(g))
  {
    ParseDecimal(g);
  }

  /** ImageField cleaning: no upload is "no new image"; an upload must be a recognised image. */
  function CleanImage(files: map<string, Upload>, isImage: Upload -> bool): (r: Result<Option<Upload>, string>)
    ensures r.Failure? <==> ImageKey in files && !isImage(files[ImageKey])
    ensures r.Failure? ==> r.error == ImageKey
    ensures r.Success? ==> r.value == (if ImageKey in files then Some(files[ImageKey]) else None)
    ensures r.Success? && r.value.Some? ==> isImage(r.value.value)
  {
    if ImageKey !in files then Success(None)
    else if isImage(files[ImageKey]) then Success(Some(files[ImageKey]))
    else Failure(ImageKey)
  }

  function ErrorKeys<T>(r: Result<T, string>): Errors {
    if r.Failure? then {r.error} else {}
  }

  /**
   * PostForm(request.POST, files=request.FILES).is_valid() and its cleaned data.
   * Every field is cleaned, so the errors name every failing field at once.
   */
  function ValidatePostForm(s: Submission, groups: set<Id>, isImage: Upload -> bool): (r: Result<PostPayload, Errors>)
    ensures r.Failure? ==> r.error != {} && r.error <= PostFormFields
    ensures TextKey in ErrorsOf(r) <==> TextKey !in s.data || Blank(s.data[TextKey]) || '\0' in s.data[TextKey]
    ensures ImageKey in ErrorsOf(r) <==> ImageKey in s.files && !isImage(s.files[ImageKey])
    ensures GroupKey in ErrorsOf(r) <==> CleanGroup(s.data, groups).Failure?
    ensures r.Success? ==> r.value.text != [] && r.value.text == Strip(s.data[TextKey])
    ensures r.Success? ==> r.value.group.Some? ==> r.value.group.value in groups
    ensures r.Success? ==> r.value.group == CleanGroup(s.data, groups).value
    ensures r.Success? ==> r.value.image == (if ImageKey in s.files then Some(s.files[ImageKey]) else None)
    ensures r.Success? && r.value.image.Some? ==> isImage(r.value.image.value)
  {
    var text := CleanText(s.data);
    var group := CleanGroup(s.data, groups);
    var image := CleanImage(s.files, isImage);
    if text.Success? && group.Success? && image.Success? then
      Success(PostPayload(text.value, group.value, image.value))
    else
      Failure(ErrorKeys(text) + ErrorKeys(group) + ErrorKeys(image))
  }

  /** CommentForm(request.POST).is_valid() and the cleaned text. */
  function ValidateCommentForm(s: Submission): (r: Result<string, Errors>)
    ensures r.Failure? ==> r.error == CommentFormFields
    ensures r.Failure? <==> TextKey !in s.data || Blank(s.data[TextKey]) || '\0' in s.data[TextKey]
    ensures r.Success? ==> r.value != [] && r.value == Strip(s.data[TextKey])
  {
    match CleanText(s.data)
    case Success(text) => Success(text)
    case Failure(_) => Failure({TextKey})
  }

  function ErrorsOf<T>(r: Result<T, Errors>): Errors {
    if r.Failure? then r.error else {}
  }

  /** The submission as the form sees it: only the keys in `fields`. */
  function OnlyFields(s: Submission, fields: set<string>): (r: Submission)
    ensures r.data.Keys <= fields && r.files.Keys <= fields
    ensures r.data.Keys <= s.data.Keys && r.files.Keys <= s.files.Keys
    ensures forall k :: k in s.data && k in fields ==> k in r.data && r.data[k] == s.data[k]
    ensures forall k :: k in s.files && k in fields ==> k in r.files && r.files[k] == s.files[k]
  {
    Submission(map k | k in s.data && k in fields :: s.data[k], map k | k in s.files && k in fields :: s.files[k])
  }

  /**
   * Whatever else a client submits (an "author", a "pub_date", ...) is ignored:
   * the outcome depends on the PostForm fields alone.
   */
  lemma PostFormReadsOnlyItsFields(s: Submission, groups: set<Id>, isImage: Upload -> bool)
    ensures ValidatePostForm(s, groups, isImage) == ValidatePostForm(OnlyFields(s, PostFormFields), groups, isImage)
  {
    var o := OnlyFields(s, PostFormFields);
    assert CleanText(s.data) == CleanText(o.data);
    assert CleanGroup(s.data, groups) == CleanGroup(o.data, groups);
    assert CleanImage(s.files, isImage) == CleanImage(o.files, isImage);
  }

  /** CommentForm reads nothing but the text field. */
  lemma CommentFormReadsOnlyText(s: Submission)
    ensures ValidateCommentForm(s) == ValidateCommentForm(OnlyFields(s, CommentFormFields))
  {
    assert CleanText(s.data) == CleanText(OnlyFields(s, CommentFormFields).data);
  }

  /** PostForm's text is required; group and image are optional. */
  lemma PostFormOptionalFields(s: Submission, groups: set<Id>, isImage: Upload -> bool)
    requires TextKey in s.data && !Blank(s.data[TextKey]) && '\0' !in s.data[TextKey]
    requires GroupKey !in s.data && ImageKey !in s.files
    ensures ValidatePostForm(s, groups, isImage) == Success(PostPayload(Strip(s.data[TextKey]), None, None))
  {
  }
}
