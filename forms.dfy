/**
 * notes/form.py: `SecretNoteForm`, the model form that validates the input
 * of a new note. `content` and `max_views` come from the model's fields,
 * `expiration_hours` is an extra optional integer field between 1 and 72.
 */
module Forms {
  import opened Wrappers

  /** The form's fields, the keys of its error dictionary. */
  datatype Field = ContentField | MaxViewsField | ExpirationHoursField

  /** The error a field reports. */
  datatype FieldError =
    | Required                 // the field is required and was left empty
    | NullCharacters           // the text holds a NUL character
    | NotAWholeNumber          // integer text that does not parse
    | BelowMinimum(min: int)
    | AboveMaximum(max: int)

  /** What an integer field was given: nothing, a whole number, or other text. */
  datatype IntInput = Blank | Whole(n: int) | NotWhole

  /** The submitted data; a missing `content` is the empty string. */
  datatype FormInput = FormInput(content: string, maxViews: IntInput, expirationHours: IntInput)

  /** `cleaned_data` of a valid form. */
  datatype Cleaned = Cleaned(content: string, maxViews: int, expirationHours: Option<int>)

  const MinExpirationHours: int := 1
  const MaxExpirationHours: int := 72

  /** Characters Python's `str.strip()` removes (`str.isspace()`). */
  predicate IsSpace(c: char) {
    var n := c as int;
    (9 <= n <= 13) || (0x1C <= n <= 0x20) || n == 0x85 || n == 0xA0 || n == 0x1680
    || (0x2000 <= n <= 0x200A) || n == 0x2028 || n == 0x2029 || n == 0x202F
    || n == 0x205F || n == 0x3000
  }

  /** Every character of `s` is whitespace (so is the empty string). */
  predicate AllSpace(s: string) {
    forall j :: 0 <= j < |s| ==> IsSpace(s[j])
  }

  /** The number of whitespace characters `s` starts with. */
  function LeadingSpaces(s: string): (n: nat)
    ensures n <= |s|
    ensures forall j :: 0 <= j < n ==> IsSpace(s[j])
    ensures n < |s| ==> !IsSpace(s[n])
  {
    if s != [] && IsSpace(s[0]) then 1 + LeadingSpaces(s[1..]) else 0
  }

  /** The number of whitespace characters `s` ends with. */
  function TrailingSpaces(s: string): (n: nat)
    ensures n <= |s|
    ensures forall j :: |s| - n <= j < |s| ==> IsSpace(s[j])
    ensures n < |s| ==> !IsSpace(s[|s| - 1 - n])
  {
    if s != [] && IsSpace(s[|s| - 1]) then 1 + TrailingSpaces(s[..|s| - 1]) else 0
  }

  /** Python's `str.strip()`, which Django's `CharField` applies to its input. */
  function Strip(s: string): (r: string)
    ensures |r| <= |s|
    ensures r == [] <==> AllSpace(s)
    ensures r != [] ==> !IsSpace(r[0]) && !IsSpace(r[|r| - 1])
    ensures r != [] ==> r == s[LeadingSpaces(s)..|s| - TrailingSpaces(s)]
  {
    var lead := LeadingSpaces(s);
    if lead == |s| then
      []
    else
      var trail := TrailingSpaces(s);
      s[lead..|s| - trail]
  }

  /**
   * The model's `content` text field: stripped, required, and without NUL
   * characters.
   */
  function CleanContent(raw: string): (r: Result<string, FieldError>)
    ensures r.Success? ==> r.value == Strip(raw) && r.value != [] && '\0' !in r.value
    ensures r.Success? <==> !AllSpace(raw) && '\0' !in Strip(raw)
    ensures r == Failure(Required) <==> AllSpace(raw)
    ensures r == Failure(NullCharacters) <==> !AllSpace(raw) && '\0' in Strip(raw)
  {
    var v := Strip(raw);
    if v == [] then Failure(Required)
    else if '\0' in v then Failure(NullCharacters)
    else Success(v)
  }

  /** The model's `max_views` integer field: required, with no bounds. */
  function CleanMaxViews(raw: IntInput): (r: Result<int, FieldError>)
    ensures r.Success? <==> raw.Whole?
    ensures raw.Whole? ==> r.value == raw.n
    ensures raw.Blank? ==> r == Failure(Required)
    ensures raw.NotWhole? ==> r == Failure(NotAWholeNumber)
  {
    match raw
    case Blank => Failure(Required)
    case NotWhole => Failure(NotAWholeNumber)
    case Whole(n) => Success(n)
  }

  /** The form's `expiration_hours`: optional, and when given within [1, 72]. */
  function CleanExpirationHours(raw: IntInput): (r: Result<Option<int>, FieldError>)
    ensures raw.Blank? ==> r == Success(None)
    ensures raw.Whole? ==> (r.Success? <==> MinExpirationHours <= raw.n <= MaxExpirationHours)
    ensures raw.Whole? && MinExpirationHours <= raw.n <= MaxExpirationHours ==> r == Success(Some(raw.n))
    ensures raw.Whole? && raw.n < MinExpirationHours ==> r == Failure(BelowMinimum(MinExpirationHours))
    ensures raw.Whole? && raw.n > MaxExpirationHours ==> r == Failure(AboveMaximum(MaxExpirationHours))
    ensures r.Success? && r.value.Some? ==> raw == Whole(r.value.value) && 1 <= r.value.value <= 72
    ensures raw.NotWhole? ==> r == Failure(NotAWholeNumber)
  {
    match raw
    case Blank => Success(None)
    case NotWhole => Failure(NotAWholeNumber)
    case Whole(n) =>
      if n < MinExpirationHours then Failure(BelowMinimum(MinExpirationHours))
      else if n > MaxExpirationHours then Failure(AboveMaximum(MaxExpirationHours))
      else Success(Some(n))
  }

  /** The error `field` reports for `input`, if any. */
  function ErrorOf(input: FormInput, field: Field): Option<FieldError> {
    match field
    case ContentField =>
      (match CleanContent(input.content) case Success(_) => None case Failure(e) => Some(e))
    case MaxViewsField =>
      (match CleanMaxViews(input.maxViews) case Success(_) => None case Failure(e) => Some(e))
    case ExpirationHoursField =>
      (match CleanExpirationHours(input.expirationHours) case Success(_) => None case Failure(e) => Some(e))
  }

  /** The fields of `input` whose cleaning fails. */
  function FailingFields(input: FormInput): set<Field> {
    (if ErrorOf(input, ContentField).Some? then {ContentField} else {})
    + (if ErrorOf(input, MaxViewsField).Some? then {MaxViewsField} else {})
    + (if ErrorOf(input, ExpirationHoursField).Some? then {ExpirationHoursField} else {})
  }

  /** What a valid form hands to the view: the model's invariants on its inputs. */
  predicate Validated(c: Cleaned) {
    c.content != [] && '\0' !in c.content && !IsSpace(c.content[0]) && !IsSpace(c.content[|c.content| - 1])
    && (c.expirationHours.None? || MinExpirationHours <= c.expirationHours.value <= MaxExpirationHours)
  }

  /**
   * `is_valid()` and `errors`: every field is cleaned on its own, and the
   * error dictionary has one entry per failing field.
   */
  function Clean(input: FormInput): (r: Result<Cleaned, map<Field, FieldError>>)
    ensures r.Success? <==> FailingFields(input) == {}
    ensures r.Success? ==> Validated(r.value)
    ensures r.Success? ==> input.maxViews == Whole(r.value.maxViews)
    ensures r.Success? ==> r.value == Cleaned(Strip(input.content), CleanMaxViews(input.maxViews).value,
                                              CleanExpirationHours(input.expirationHours).value)
    ensures r.Failure? ==> r.error.Keys == FailingFields(input)
    ensures r.Failure? ==> forall f :: f in r.error ==> Some(r.error[f]) == ErrorOf(input, f)
  {
    var c := CleanContent(input.content);
    var m := CleanMaxViews(input.maxViews);
    var h := CleanExpirationHours(input.expirationHours);
    if c.Success? && m.Success? && h.Success? then
      Success(Cleaned(c.value, m.value, h.value))
    else
      Failure((if c.Failure? then map[ContentField := c.error] else map[])
              + (if m.Failure? then map[MaxViewsField := m.error] else map[])
              + (if h.Failure? then map[ExpirationHoursField := h.error] else map[]))
  }

  /** The accepted example: "Test note", 5 views, 24 hours. */
  lemma AcceptsExample()
    ensures Clean(FormInput("Test note", Whole(5), Whole(24))) == Success(Cleaned("Test note", 5, Some(24)))
  {
    var s := "Test note";
    assert LeadingSpaces(s) == 0 && TrailingSpaces(s) == 0;
    assert s[0..|s|] == s;
    assert Strip(s) == s;
  }

  /**
   * The rejected example: empty content, zero views and 100 hours give
   * exactly two errors; zero views is accepted.
   */
  lemma RejectsExampleWithTwoErrors()
    ensures Clean(FormInput("", Whole(0), Whole(100)))
            == Failure(map[ContentField := Required, ExpirationHoursField := AboveMaximum(72)])
    ensures |Clean(FormInput("", Whole(0), Whole(100))).error| == 2
  {
    var input := FormInput("", Whole(0), Whole(100));
    assert CleanContent("") == Failure(Required);
    assert CleanMaxViews(Whole(0)) == Success(0);
    assert CleanExpirationHours(Whole(100)) == Failure(AboveMaximum(72));
    var e := map[ContentField := Required, ExpirationHoursField := AboveMaximum(72)];
    var errors := Clean(input).error;
    assert errors == map[ContentField := Required] + map[] + map[ExpirationHoursField := AboveMaximum(72)];
    assert errors.Keys == e.Keys == {ContentField, ExpirationHoursField};
    assert forall f :: f in e ==> errors[f] == e[f];
    assert errors == e;
    assert Clean(input) == Failure(e);
  }
}
