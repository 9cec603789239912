/** The book API's serializers: field validation of a submitted book (the
    model's columns plus the "not in the future" rule on the year) and the
    nested author representation. */
module BookSerializers {
  import opened Wrappers
  import opened Text
  import opened Catalog
  import opened Fields

  // ---------------------------------------------------------------------------
  // BookSerializer.validate_publication_year
  // ---------------------------------------------------------------------------

  const FutureYearPrefix := "Publication year cannot be in the future."
  const CurrentYearInfix := " Current year is "

  /** The message of the field-level check, naming the year it compared against. */
  function FutureYearMessage(currentYear: int): string {
    FutureYearPrefix + CurrentYearInfix + IntToDecimal(currentYear) + "."
  }

  /** `validate_publication_year`: a year after `currentYear` (the clock's
      reading, passed in) is refused; any other year comes back as it was. */
  function ValidatePublicationYear(value: int, currentYear: int): (r: Result<int, string>)
    ensures r.Ok? <==> value <= currentYear
    ensures r.Ok? ==> r.value == value
    ensures r.Err? ==>
      && |r.error| == |FutureYearPrefix| + |CurrentYearInfix| + |IntToDecimal(currentYear)| + 1
      && r.error[..|FutureYearPrefix|] == FutureYearPrefix
      && r.error[|r.error| - 1] == '.'
      && ParseInt(r.error[|FutureYearPrefix| + |CurrentYearInfix|..|r.error| - 1]) == Some(currentYear)
  {
    if value > currentYear then
      var m := FutureYearMessage(currentYear);
      IntToDecimalRoundTrip(currentYear);
      assert m[|FutureYearPrefix| + |CurrentYearInfix|..|m| - 1] == IntToDecimal(currentYear);
      assert m[..|FutureYearPrefix|] == FutureYearPrefix;
      Err(m)
    else Ok(value)
  }

  /** The boundary: the current year passes, the next one does not. */
  lemma PublicationYearBoundary(currentYear: int)
    ensures ValidatePublicationYear(currentYear, currentYear) == Ok(currentYear)
    ensures ValidatePublicationYear(currentYear + 1, currentYear).Err?
  {
  }

  /** There is no lower bound: year 0 and years before it are accepted as given. */
  lemma NoLowerBound(value: int, currentYear: int)
    requires value <= 0 && currentYear >= 0
    ensures ValidatePublicationYear(value, currentYear) == Ok(value)
  {
  }

  // ---------------------------------------------------------------------------
  // BookSerializer field validation (ModelSerializer with fields "__all__")
  // ---------------------------------------------------------------------------

  const BlankMessage := "This field may not be blank."
  const TooLongMessage := "Ensure this field has no more than 255 characters."

  const InvalidPkPrefix := "Invalid pk \""
  const InvalidPkSuffix := "\" - object does not exist."

  /** The primary-key field's message for a key no author row carries: the key
      is quoted in canonical decimal, with its sign, so it reads back as sent. */
  function InvalidPkMessage(pk: int): (r: string)
    ensures |r| > |InvalidPkPrefix| + |InvalidPkSuffix|
    ensures r[..|InvalidPkPrefix|] == InvalidPkPrefix
    ensures r[|r| - |InvalidPkSuffix|..] == InvalidPkSuffix
    ensures ParseInt(r[|InvalidPkPrefix|..|r| - |InvalidPkSuffix|]) == Some(pk)
    ensures CanonicalDecimal(r[|InvalidPkPrefix|..|r| - |InvalidPkSuffix|])
    ensures r[|InvalidPkPrefix|] == '-' <==> pk < 0
  {
    var q := IntToDecimal(pk);
    IntToDecimalRoundTrip(pk);
    IntToDecimalCanonical(pk);
    var r := InvalidPkPrefix + q + InvalidPkSuffix;
    assert r[..|InvalidPkPrefix|] == InvalidPkPrefix;
    assert r[|InvalidPkPrefix|..|r| - |InvalidPkSuffix|] == q;
    assert r[|r| - |InvalidPkSuffix|..] == InvalidPkSuffix;
    r
  }

  /** The writable fields of a submitted book; `None` means the key was not sent. */
  datatype BookData = BookData(title: Option<string>, publicationYear: Option<int>, author: Option<int>)

  /** The error dictionary: each field's messages, empty when the field passed. */
  datatype BookErrors = BookErrors(title: seq<string>, publicationYear: seq<string>, author: seq<string>)

  /** What the title field accepts: not blank, and once trimmed within the
      255-character column and free of NUL characters. */
  predicate TitleFits(t: string) {
    !AllSpace(t) && |Strip(t)| <= MaxLength && !HasNullCharacter(t)
  }

  /** The title's length and NUL validators, in the order the field runs
      them; every failing validator adds its message. */
  function TitleValidatorErrors(s: string): (r: seq<string>)
    ensures r == [] <==> |s| <= MaxLength && !HasNullCharacter(s)
    ensures TooLongMessage in r <==> |s| > MaxLength
    ensures NullCharactersMessage in r <==> HasNullCharacter(s)
    ensures BlankMessage !in r
  {
    var tooLong := if |s| > MaxLength then [TooLongMessage] else [];
    var nul := if HasNullCharacter(s) then [NullCharactersMessage] else [];
    assert |TooLongMessage| != |NullCharactersMessage| && |BlankMessage| != |TooLongMessage| && |BlankMessage| != |NullCharactersMessage|;
    tooLong + nul
  }

  /** The title `CharField`: a blank title is refused outright; otherwise the
      trimmed text goes through the length and NUL validators. */
  function ValidateTitle(t: string): (r: Result<string, seq<string>>)
    ensures r.Ok? <==> TitleFits(t)
    ensures r.Ok? ==> r.value == Strip(t) && IsStripOf(t, r.value)
    ensures AllSpace(t) ==> r == Err([BlankMessage])
    ensures r.Err? && !AllSpace(t) ==> r.error == TitleValidatorErrors(Strip(t))
  {
    var s := Strip(t);
    StripEmptyIff(t);
    StripKeepsNull(t);
    if s == [] then Err([BlankMessage])
    else
      var errors := TitleValidatorErrors(s);
      if errors == [] then Ok(s) else Err(errors)
  }

  /** An accepted title is accepted again unchanged: the field is idempotent. */
  lemma {:induction false} ValidateTitleIdempotent(t: string)
    requires ValidateTitle(t).Ok?
    ensures ValidateTitle(ValidateTitle(t).value) == ValidateTitle(t)
  {
    var s := Strip(t);
    StripKeepsNull(t);
    StripOfTrimmed(s);
    StripEmptyIff(s);
  }

  /** A title that is otherwise fine but holds a NUL character is refused with
      exactly the NUL validator's message. */
  lemma NullTitleRefused(t: string)
    requires !AllSpace(t) && |Strip(t)| <= MaxLength && HasNullCharacter(t)
    ensures ValidateTitle(t) == Err([NullCharactersMessage])
  {
    StripKeepsNull(t);
    StripEmptyIff(t);
    var e := TitleValidatorErrors(Strip(t));
    assert e == [NullCharactersMessage];
  }

  /** The author `PrimaryKeyRelatedField`: the submitted integer must name a
      stored author; a negative one never does and is quoted as sent. */
  function ValidateAuthor(c: Catalog, pk: int): (r: Result<nat, string>)
    ensures r.Ok? <==> AuthorKeyStored(c, pk)
    ensures r.Ok? ==> r.value == pk
    ensures r.Err? ==> r.error == InvalidPkMessage(pk)
  {
    if AuthorKeyStored(c, pk) then Ok(pk) else Err(InvalidPkMessage(pk))
  }

  /** A field that was not sent is an error unless the update is partial,
      in which case it is left out of the validated data. */
  function MissingField<T>(partial: bool): (r: Result<Option<T>, seq<string>>)
    ensures r.Ok? <==> partial
    ensures r.Ok? ==> r.value.None?
    ensures r.Err? ==> r.error == [RequiredMessage]
  {
    if partial then Ok(None) else Err([RequiredMessage])
  }

  function TitleField(t: Option<string>, partial: bool): (r: Result<Option<string>, seq<string>>)
    ensures r.Ok? <==> if t.None? then partial else TitleFits(t.value)
    ensures r.Ok? ==> r.value.Some? == t.Some? && (t.Some? ==> r.value.value == Strip(t.value))
    ensures r.Err? ==> r.error != []
  {
    match t
    case None => MissingField(partial)
    case Some(x) =>
      match ValidateTitle(x)
      case Ok(v) => Ok(Some(v))
      case Err(e) => Err(e)
  }

  function YearField(y: Option<int>, partial: bool, currentYear: int): (r: Result<Option<int>, seq<string>>)
    ensures r.Ok? <==> if y.None? then partial else y.value <= currentYear
    ensures r.Ok? ==> r.value == y
    ensures r.Err? && y.Some? ==> r.error == [FutureYearMessage(currentYear)]
    ensures r.Err? ==> r.error != []
  {
    match y
    case None => MissingField(partial)
    case Some(x) =>
      match ValidatePublicationYear(x, currentYear)
      case Ok(v) => Ok(Some(v))
      case Err(e) => Err([e])
  }

  function AuthorField(c: Catalog, k: Option<int>, partial: bool): (r: Result<Option<int>, seq<string>>)
    ensures r.Ok? <==> if k.None? then partial else AuthorKeyStored(c, k.value)
    ensures r.Ok? ==> r.value == k
    ensures r.Err? ==> r.error != []
  {
    match k
    case None => MissingField(partial)
    case Some(x) =>
      match ValidateAuthor(c, x)
      case Ok(v) => Ok(Some(v))
      case Err(e) => Err([e])
  }

  function ErrorOf<T>(r: Result<T, seq<string>>): seq<string> {
    if r.Err? then r.error else []
  }

  /** `serializer.is_valid()`: every field is checked and all messages are
      collected; `partial` is set for PATCH. The validated data holds the
      trimmed title and exactly the fields that were sent. */
  function ValidateBook(c: Catalog, data: BookData, partial: bool, currentYear: int): (r: Result<BookData, BookErrors>)
    ensures r.Ok? <==>
      && (data.title.None? ==> partial)
      && (data.title.Some? ==> TitleFits(data.title.value))
      && (data.publicationYear.None? ==> partial)
      && (data.publicationYear.Some? ==> data.publicationYear.value <= currentYear)
      && (data.author.None? ==> partial)
      && (data.author.Some? ==> AuthorKeyStored(c, data.author.value))
    ensures r.Ok? ==>
      && r.value.publicationYear == data.publicationYear
      && r.value.author == data.author
      && r.value.title.Some? == data.title.Some?
      && (data.title.Some? ==> r.value.title.value == Strip(data.title.value))
    ensures r.Err? ==>
      && (r.error.publicationYear != [] <==>
            (data.publicationYear.None? && !partial)
            || (data.publicationYear.Some? && data.publicationYear.value > currentYear))
      && (r.error.author != [] <==>
            (data.author.None? && !partial) || (data.author.Some? && !AuthorKeyStored(c, data.author.value)))
      && (r.error.title != [] <==>
            (data.title.None? && !partial) || (data.title.Some? && !TitleFits(data.title.value)))
  {
    var t := TitleField(data.title, partial);
    var y := YearField(data.publicationYear, partial, currentYear);
    var a := AuthorField(c, data.author, partial);
    if t.Ok? && y.Ok? && a.Ok? then Ok(BookData(t.value, y.value, a.value))
    else Err(BookErrors(ErrorOf(t), ErrorOf(y), ErrorOf(a)))
  }

  /** A full submission of a past or present year with a real author and a
      fitting title is accepted; the same one year later is refused on the
      year alone, with the message naming the current year. */
  lemma ValidateBookFutureYear(c: Catalog, title: string, authorId: nat, currentYear: int)
    requires TitleFits(title) && AuthorExists(c, authorId)
    ensures ValidateBook(c, BookData(Some(title), Some(currentYear), Some(authorId)), false, currentYear).Ok?
    ensures ValidateBook(c, BookData(Some(title), Some(currentYear + 1), Some(authorId)), false, currentYear)
      == Err(BookErrors([], [FutureYearMessage(currentYear)], []))
  {
  }

  /** A full submission whose only fault is a negative author key is refused on
      the author alone, and the message quotes the key with its minus sign. */
  lemma NegativeAuthorRefused(c: Catalog, title: string, year: int, k: int, currentYear: int)
    requires TitleFits(title) && year <= currentYear && k < 0
    ensures ValidateBook(c, BookData(Some(title), Some(year), Some(k)), false, currentYear)
      == Err(BookErrors([], [], [InvalidPkMessage(k)]))
    ensures InvalidPkMessage(k)[|InvalidPkPrefix|] == '-'
  {
  }

  // ---------------------------------------------------------------------------
  // AuthorSerializer
  // ---------------------------------------------------------------------------

  /** An author as the API shows it: its key, its name, and (read-only) its books. */
  datatype AuthorRepr = AuthorRepr(id: nat, name: string, books: seq<Book>)

  function SerializeAuthor(c: Catalog, a: Author): (r: AuthorRepr)
    ensures r.id == a.id && r.name == a.name
    ensures forall b :: b in r.books <==> b in c.books && b.author == a.id
  {
    AuthorRepr(a.id, a.name, BooksOf(c, a.id))
  }

  /** Deleting one author leaves how every other author is shown unchanged. */
  lemma SerializeAuthorAfterDelete(c: Catalog, a: Author, id: nat)
    requires a.id != id
    ensures SerializeAuthor(DeleteAuthor(c, id), a) == SerializeAuthor(c, a)
  {
  }
}
