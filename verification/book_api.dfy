/** The book API's generic views: who may call each endpoint, which request
    methods each one serves, the list's filters, search and ordering, and the
    create, update and delete paths with their extra year check. */
module BookApi {
  import opened Wrappers
  import opened Text
  import opened Seqs
  import opened Auth
  import Web
  import opened Catalog
  import opened BookSerializers
  import opened Fields

  // ---------------------------------------------------------------------------
  // Permission classes and the endpoint table
  // ---------------------------------------------------------------------------

  datatype Permission = AllowAny | IsAuthenticated | IsAuthenticatedOrReadOnly | IsAdminOrReadOnly

  /** `has_permission` of each permission class. `IsAdminOrReadOnly` is the
      project's own class: safe methods for anyone, others for staff only. */
  predicate HasPermission(p: Permission, u: User, m: Web.Method) {
    match p
    case AllowAny => true
    case IsAuthenticated => u.Registered?
    case IsAuthenticatedOrReadOnly => Web.IsSafe(m) || u.Registered?
    case IsAdminOrReadOnly => Web.IsSafe(m) || (u.Registered? && u.isStaff)
  }

  datatype Endpoint = ListEndpoint | DetailEndpoint | CreateEndpoint | UpdateEndpoint | DeleteEndpoint

  /** `permission_classes` as each view declares it. */
  function EndpointPermission(e: Endpoint): Permission {
    match e
    case ListEndpoint => AllowAny
    case DetailEndpoint => AllowAny
    case CreateEndpoint => IsAuthenticated
    case UpdateEndpoint => IsAuthenticated
    case DeleteEndpoint => IsAuthenticatedOrReadOnly
  }

  /** The handlers each generic view has: `get` (which also answers HEAD),
      `post`, `put`/`patch` or `delete`, and `options` on every view. */
  predicate Serves(e: Endpoint, m: Web.Method) {
    m == Web.OPTIONS ||
    match e
    case ListEndpoint => m == Web.GET || m == Web.HEAD
    case DetailEndpoint => m == Web.GET || m == Web.HEAD
    case CreateEndpoint => m == Web.POST
    case UpdateEndpoint => m == Web.PUT || m == Web.PATCH
    case DeleteEndpoint => m == Web.DELETE
  }

  /** What an API view answers. */
  datatype ApiResponse =
    | Listed(books: seq<Book>)        // 200
    | Retrieved(book: Book)           // 200
    | Created(book: Book)             // 201
    | Updated(book: Book)             // 200
    | Deleted                         // 204
    | Invalid(errors: BookErrors)     // 400: the serializer's field errors
    | Rejected(messages: seq<string>) // 400: a `ValidationError` raised in the view
    | BadFilter(refused: seq<FilterError>) // 400: the parameters the filter set's form refuses
    | NotAuthenticated                // 401/403: no credentials were accepted
    | PermissionDenied                // 403
    | NotFound                        // 404
    | MethodNotAllowed                // 405
    | Options                         // 200: the metadata answer to OPTIONS
    | ServerError                     // 500: an exception the view does not catch

  /** One refusal of the filter set's form: the parameter and its message. */
  datatype FilterError = FilterError(field: string, message: string)

  datatype ApiOutcome = ApiOutcome(response: ApiResponse, catalog: Catalog)

  /** `initial()` then handler lookup: permissions are checked before the
      method is, so a refused caller never learns which methods exist. */
  function Gate(p: Permission, e: Endpoint, u: User, m: Web.Method): (r: Option<ApiResponse>)
    ensures r.None? <==> HasPermission(p, u, m) && Serves(e, m)
    ensures !HasPermission(p, u, m) && u.Anonymous? ==> r == Some(NotAuthenticated)
    ensures !HasPermission(p, u, m) && u.Registered? ==> r == Some(PermissionDenied)
    ensures HasPermission(p, u, m) && !Serves(e, m) ==> r == Some(MethodNotAllowed)
  {
    if !HasPermission(p, u, m) then Some(if u.Anonymous? then NotAuthenticated else PermissionDenied)
    else if !Serves(e, m) then Some(MethodNotAllowed)
    else None
  }

  /** `IsAdminOrReadOnly` admits no one that `IsAuthenticatedOrReadOnly` refuses,
      and refuses a signed-in non-staff user every unsafe method. */
  lemma AdminOrReadOnlyIsStricter(u: User, m: Web.Method)
    ensures HasPermission(IsAdminOrReadOnly, u, m) ==> HasPermission(IsAuthenticatedOrReadOnly, u, m)
    ensures u.Registered? && !u.isStaff && !Web.IsSafe(m) ==>
      HasPermission(IsAuthenticatedOrReadOnly, u, m) && !HasPermission(IsAdminOrReadOnly, u, m)
  {
  }

  // ---------------------------------------------------------------------------
  // BookListView: filters, search and ordering
  // ---------------------------------------------------------------------------

  /** The list's query parameters. `title` is the raw text; `author` and
      `publicationYear` are decoded as `int()` reads them; `search` is the
      list of search terms; `ordering` is one ordering term. */
  datatype ListParams = ListParams(title: Option<string>, author: Field<int>, publicationYear: Field<int>,
                                   search: seq<string>, ordering: Option<string>)

  /** The name of the author keyed `id`, if that author is stored. */
  function AuthorName(c: Catalog, id: nat): (r: Option<string>)
    ensures r.Some? <==> AuthorExists(c, id)
    ensures r.Some? ==> exists a :: a in c.authors && a.id == id && a.name == r.value
  {
    match IndexOf(c.authors, AuthorId, id)
    case None => None
    case Some(i) => Some(c.authors[i].name)
  }

  /** One search term matches a book's title or its author's name. */
  predicate TermMatches(c: Catalog, b: Book, t: string) {
    IContains(b.title, t) || (AuthorName(c, b.author).Some? && IContains(AuthorName(c, b.author).value, t))
  }

  /** The filters the list applies, stated row by row: a sent year or author
      must match, a non-blank title must match exactly once trimmed, and every
      search term must match. */
  predicate Selected(c: Catalog, p: ListParams, b: Book) {
    && (p.publicationYear.Given? ==> b.publicationYear == p.publicationYear.value)
    && (p.author.Given? ==> b.author == p.author.value)
    && (p.title.Some? && Strip(p.title.value) != [] ==> b.title == Strip(p.title.value))
    && (forall i :: 0 <= i < |p.search| ==> TermMatches(c, b, p.search[i]))
  }

  function YearIs(y: int): Book -> bool {
    (b: Book) => b.publicationYear == y
  }

  function AuthorIs(k: int): Book -> bool {
    (b: Book) => b.author == k
  }

  function TitleIs(t: string): Book -> bool {
    (b: Book) => b.title == t
  }

  function MatchesTerms(c: Catalog, terms: seq<string>): Book -> bool {
    (b: Book) => forall i :: 0 <= i < |terms| ==> TermMatches(c, b, terms[i])
  }

  /** `get_queryset`: a sent year, then a sent author, narrows the rows. */
  function BaseRows(c: Catalog, p: ListParams): (r: seq<Book>)
    ensures forall b :: b in r <==> (b in c.books
      && (p.publicationYear.Given? ==> b.publicationYear == p.publicationYear.value)
      && (p.author.Given? ==> b.author == p.author.value))
  {
    var byYear := if p.publicationYear.Given? then Filter(c.books, YearIs(p.publicationYear.value)) else c.books;
    if p.author.Given? then Filter(byYear, AuthorIs(p.author.value)) else byYear
  }

  /** The filter backend's title filter: a non-blank title keeps the rows
      whose title is exactly the trimmed text. */
  function TitleRows(rows: seq<Book>, title: Option<string>): (r: seq<Book>)
    ensures forall b :: b in r <==> b in rows && (title.Some? && Strip(title.value) != [] ==> b.title == Strip(title.value))
    ensures multiset(r) <= multiset(rows)
  {
    if title.Some? && Strip(title.value) != [] then Filter(rows, TitleIs(Strip(title.value))) else rows
  }

  /** The search filter: every term must match the title or the author's name. */
  function SearchRows(c: Catalog, rows: seq<Book>, terms: seq<string>): (r: seq<Book>)
    ensures forall b :: b in r <==> b in rows && (forall i :: 0 <= i < |terms| ==> TermMatches(c, b, terms[i]))
    ensures multiset(r) <= multiset(rows)
  {
    if terms == [] then rows
    else
      var r := Filter(rows, MatchesTerms(c, terms));
      assert forall b :: MatchesTerms(c, terms)(b) <==> forall i :: 0 <= i < |terms| ==> TermMatches(c, b, terms[i]);
      r
  }

  /** The filter backend's title filter, then the search filter, over the base rows. */
  function FilterRows(c: Catalog, p: ListParams): (r: seq<Book>)
    ensures forall b :: b in r <==> b in c.books && Selected(c, p, b)
    ensures multiset(r) <= multiset(c.books)
  {
    var base := BaseRows(c, p);
    var byTitle := TitleRows(base, p.title);
    var r := SearchRows(c, byTitle, p.search);
    assert multiset(base) <= multiset(c.books) by {
      var byYear := if p.publicationYear.Given? then Filter(c.books, YearIs(p.publicationYear.value)) else c.books;
      assert multiset(base) <= multiset(byYear);
    }
    r
  }

  /** The accepted ordering terms (`ordering_fields`), each ascending or descending. */
  datatype OrderKey = TitleAsc | TitleDesc | YearAsc | YearDesc

  /** The key a trimmed ordering term names; anything else falls back to the
      default `["title"]`. */
  function OrderKeyOf(t: string): (k: OrderKey)
    ensures t == "title" ==> k == TitleAsc
    ensures t == "-title" ==> k == TitleDesc
    ensures t == "publication_year" ==> k == YearAsc
    ensures t == "-publication_year" ==> k == YearDesc
  {
    if t == "title" then TitleAsc
    else if t == "-title" then TitleDesc
    else if t == "publication_year" then YearAsc
    else if t == "-publication_year" then YearDesc
    else TitleAsc
  }

  /** `ordering`: the term is trimmed before it is looked up. */
  function ParseOrdering(o: Option<string>): (k: OrderKey)
    ensures o.None? ==> k == TitleAsc
    ensures o.Some? ==> k == OrderKeyOf(Strip(o.value))
  {
    if o.None? then TitleAsc else OrderKeyOf(Strip(o.value))
  }

  predicate TitleUpTo(a: Book, b: Book) {
    StrLe(a.title, b.title)
  }

  predicate TitleDownTo(a: Book, b: Book) {
    StrLe(b.title, a.title)
  }

  predicate YearUpTo(a: Book, b: Book) {
    a.publicationYear <= b.publicationYear
  }

  predicate YearDownTo(a: Book, b: Book) {
    a.publicationYear >= b.publicationYear
  }

  function Comparator(k: OrderKey): (Book, Book) -> bool {
    match k
    case TitleAsc => TitleUpTo
    case TitleDesc => TitleDownTo
    case YearAsc => YearUpTo
    case YearDesc => YearDownTo
  }

  /** Every ordering key compares books by a total preorder. */
  lemma ComparatorIsTotalPreorder(k: OrderKey)
    ensures TotalPreorder(Comparator(k))
  {
    match k
    case TitleAsc =>
      forall a: Book, b: Book
        ensures TitleUpTo(a, b) || TitleUpTo(b, a)
      {
        StrLeTotal(a.title, b.title);
      }
      forall a: Book, b: Book, d: Book | TitleUpTo(a, b) && TitleUpTo(b, d)
        ensures TitleUpTo(a, d)
      {
        StrLeTransitive(a.title, b.title, d.title);
      }
    case TitleDesc =>
      forall a: Book, b: Book
        ensures TitleDownTo(a, b) || TitleDownTo(b, a)
      {
        StrLeTotal(a.title, b.title);
      }
      forall a: Book, b: Book, d: Book | TitleDownTo(a, b) && TitleDownTo(b, d)
        ensures TitleDownTo(a, d)
      {
        StrLeTransitive(d.title, b.title, a.title);
      }
    case YearAsc =>
    case YearDesc =>
  }

  /** `OrderingFilter`: the rows sorted by the chosen key. */
  function OrderRows(rows: seq<Book>, k: OrderKey): (r: seq<Book>)
    ensures multiset(r) == multiset(rows)
    ensures forall b :: b in r <==> b in rows
    ensures SortedBy(r, Comparator(k))
  {
    ComparatorIsTotalPreorder(k);
    var r := SortBy(rows, Comparator(k));
    assert forall b :: b in r <==> b in multiset(r);
    assert forall b :: b in rows <==> b in multiset(rows);
    r
  }

  const InvalidChoiceMessage := "Select a valid choice. That choice is not one of the available choices."

  const TitleNullError := FilterError("title", NullCharactersMessage)
  const AuthorChoiceError := FilterError("author", InvalidChoiceMessage)

  /** The filter set's form, field by field in `filterset_fields` order. The
      `title` form `CharField` strips and then refuses a NUL character (which
      stripping keeps, so the raw text decides); the `author` choice field
      refuses a key no author carries; a blank value is no filter, and the
      year's number field accepts every number. */
  function FilterFormErrors(c: Catalog, p: ListParams): (r: seq<FilterError>)
    ensures TitleNullError in r <==> p.title.Some? && HasNullCharacter(p.title.value)
    ensures AuthorChoiceError in r <==> p.author.Given? && !AuthorKeyStored(c, p.author.value)
    ensures forall e :: e in r ==> e == TitleNullError || e == AuthorChoiceError
    ensures |r| == 2 ==> r == [TitleNullError, AuthorChoiceError]
  {
    var titled := p.title.Some? && HasNullCharacter(p.title.value);
    var unknown := p.author.Given? && !AuthorKeyStored(c, p.author.value);
    assert TitleNullError != AuthorChoiceError by {
      assert |TitleNullError.field| != |AuthorChoiceError.field|;
    }
    (if titled then [TitleNullError] else []) + (if unknown then [AuthorChoiceError] else [])
  }

  /** The list's rows. `get_queryset` filters on the raw year and author text
      first, and the integer columns raise on text that is not a number; then
      the filter set's form refuses what it does not accept; otherwise the
      selected books come back in the requested order. */
  function ListRows(c: Catalog, p: ListParams): (r: Result<seq<Book>, ApiResponse>)
    ensures r.Err? <==>
      p.publicationYear.Malformed? || p.author.Malformed? || FilterFormErrors(c, p) != []
    ensures p.publicationYear.Malformed? || p.author.Malformed? ==> r == Err(ServerError)
    ensures r.Err? && !p.publicationYear.Malformed? && !p.author.Malformed? ==>
      r == Err(BadFilter(FilterFormErrors(c, p)))
    ensures r.Ok? ==> forall b :: b in r.value <==> b in c.books && Selected(c, p, b)
    ensures r.Ok? ==> multiset(r.value) <= multiset(c.books)
    ensures r.Ok? ==> SortedBy(r.value, Comparator(ParseOrdering(p.ordering)))
  {
    if p.publicationYear.Malformed? || p.author.Malformed? then Err(ServerError)
    else
      var errors := FilterFormErrors(c, p);
      if errors != [] then Err(BadFilter(errors))
      else
        var rows := FilterRows(c, p);
        var sorted := OrderRows(rows, ParseOrdering(p.ordering));
        assert multiset(sorted) <= multiset(c.books);
        Ok(sorted)
  }

  /** `BookListView`: anyone may list; a GET or HEAD answers with the list's
      rows or its refusal, and the catalog is never changed. */
  function ListView(c: Catalog, u: User, m: Web.Method, p: ListParams): (r: ApiOutcome)
    ensures r.catalog == c
    ensures Serves(ListEndpoint, m) <==> r.response != MethodNotAllowed
    ensures (m == Web.GET || m == Web.HEAD) && ListRows(c, p).Ok? ==> r.response == Listed(ListRows(c, p).value)
    ensures (m == Web.GET || m == Web.HEAD) && ListRows(c, p).Err? ==> r.response == ListRows(c, p).error
    ensures m == Web.OPTIONS ==> r.response == Options
  {
    match Gate(EndpointPermission(ListEndpoint), ListEndpoint, u, m)
    case Some(denied) => ApiOutcome(denied, c)
    case None =>
      if m == Web.OPTIONS then ApiOutcome(Options, c)
      else
        match ListRows(c, p)
        case Err(refused) => ApiOutcome(refused, c)
        case Ok(rows) => ApiOutcome(Listed(rows), c)
  }

  /** The list does not depend on who asks: the anonymous user and any
      signed-in user get the same answer. */
  lemma ListViewIgnoresUser(c: Catalog, u1: User, u2: User, m: Web.Method, p: ListParams)
    ensures ListView(c, u1, m, p) == ListView(c, u2, m, p)
  {
  }

  /** A year or author query value that is not a number is a server error,
      whatever the other parameters say. */
  lemma MalformedFilterIsServerError(c: Catalog, u: User, p: ListParams)
    requires p.publicationYear.Malformed? || p.author.Malformed?
    ensures ListView(c, u, Web.GET, p) == ApiOutcome(ServerError, c)
  {
  }

  /** Once the year and author texts are numbers, the filter set's form
      answers 400 exactly when the title holds a NUL character or the author
      key names no stored author, a negative key included; the answer names
      each refused parameter, and nothing is changed. */
  lemma FilterFormRefusal(c: Catalog, u: User, p: ListParams)
    requires !p.publicationYear.Malformed? && !p.author.Malformed?
    ensures var r := ListView(c, u, Web.GET, p);
      && r.catalog == c
      && (r.response.BadFilter? <==>
            (p.title.Some? && HasNullCharacter(p.title.value)) || (p.author.Given? && !AuthorKeyStored(c, p.author.value)))
      && (r.response.BadFilter? ==>
            && (TitleNullError in r.response.refused <==> p.title.Some? && HasNullCharacter(p.title.value))
            && (AuthorChoiceError in r.response.refused <==> p.author.Given? && !AuthorKeyStored(c, p.author.value)))
    ensures p.author.Given? && p.author.value < 0 ==>
      var r := ListView(c, u, Web.GET, p);
      r.response.BadFilter? && AuthorChoiceError in r.response.refused
  {
    var e := FilterFormErrors(c, p);
    assert e != [] <==> TitleNullError in e || AuthorChoiceError in e;
    var r := ListView(c, u, Web.GET, p);
    if e != [] {
      assert ListRows(c, p) == Err(BadFilter(e));
      assert r.response == BadFilter(e);
    } else {
      assert r.response.Listed?;
    }
  }

  /** `?title=a%00b` alone is refused with the title's NUL message. */
  lemma NullTitleExample(c: Catalog)
    ensures ListRows(c, ListParams(Some("a\0b"), Absent, Absent, [], None)) == Err(BadFilter([TitleNullError]))
  {
    var p := ListParams(Some("a\0b"), Absent, Absent, [], None);
    assert "a\0b"[1] == '\0';
    assert HasNullCharacter(p.title.value);
    assert FilterFormErrors(c, p) == [TitleNullError] + [];
    assert [TitleNullError] + [] == [TitleNullError];
    assert ListRows(c, p) == Err(BadFilter(FilterFormErrors(c, p)));
  }

  /** With no filter, search or ordering sent, every stored book is listed,
      once each, by title. A filter parameter left out of the query string and
      one sent empty are alike: neither filters. */
  lemma UnfilteredListIsEveryBook(c: Catalog, u: User, titleParam: Option<string>,
                                  authorParam: Field<int>, yearParam: Field<int>)
    requires titleParam.None? || AllSpace(titleParam.value)
    requires authorParam.Absent? || authorParam.Blank?
    requires yearParam.Absent? || yearParam.Blank?
    ensures var r := ListView(c, u, Web.GET, ListParams(titleParam, authorParam, yearParam, [], None));
      && r.response.Listed?
      && multiset(r.response.books) == multiset(c.books)
      && SortedBy(r.response.books, TitleUpTo)
  {
    var p := ListParams(titleParam, authorParam, yearParam, [], None);
    var rows := UnfilteredRows(c, p);
    var r := ListView(c, u, Web.GET, p);
    assert r.response == Listed(rows);
    forall i, j | 0 <= i < j < |rows|
      ensures TitleUpTo(rows[i], rows[j])
    {
      assert Comparator(TitleAsc)(rows[i], rows[j]);
    }
  }

  /** Without filters the rows are the whole catalog in title order. */
  lemma UnfilteredRows(c: Catalog, p: ListParams) returns (rows: seq<Book>)
    requires p.title.None? || AllSpace(p.title.value)
    requires p.author.Absent? || p.author.Blank?
    requires p.publicationYear.Absent? || p.publicationYear.Blank?
    requires p.search == [] && p.ordering.None?
    ensures ListRows(c, p) == Ok(rows)
    ensures multiset(rows) == multiset(c.books)
    ensures SortedBy(rows, Comparator(TitleAsc))
  {
    if p.title.Some? {
      StripEmptyIff(p.title.value);
      StripKeepsNull(p.title.value);
    }
    assert !p.publicationYear.Malformed? && !p.author.Malformed? && !p.author.Given?;
    assert !(p.title.Some? && HasNullCharacter(p.title.value));
    assert FilterFormErrors(c, p) == [];
    NoFilters(c, p);
    assert ParseOrdering(p.ordering) == TitleAsc;
    rows := OrderRows(c.books, TitleAsc);
    assert ListRows(c, p) == Ok(rows);
  }

  /** A blank title, an author and a year each unsent or sent empty, and no
      search term keep every row. */
  lemma NoFilters(c: Catalog, p: ListParams)
    requires p.title.None? || AllSpace(p.title.value)
    requires p.author.Absent? || p.author.Blank?
    requires p.publicationYear.Absent? || p.publicationYear.Blank?
    requires p.search == []
    ensures FilterRows(c, p) == c.books
  {
    if p.title.Some? {
      StripEmptyIff(p.title.value);
      assert Strip(p.title.value) == [];
    }
    assert !p.publicationYear.Given? && !p.author.Given?;
    var base := BaseRows(c, p);
    assert base == c.books;
    assert TitleRows(base, p.title) == base;
    assert SearchRows(c, base, p.search) == base;
  }

  /** The year and author filters compose as a conjunction: exactly the books
      of that year by that author are listed. */
  lemma YearAndAuthorFilter(c: Catalog, u: User, y: int, a: nat, b: Book)
    requires AuthorExists(c, a) && b in c.books
    ensures var r := ListView(c, u, Web.GET, ListParams(None, Given(a), Given(y), [], None));
      && r.response.Listed?
      && (b in r.response.books <==> b.publicationYear == y && b.author == a)
  {
  }

  /** The two ordering terms the API tests send are read as written. */
  lemma ParseOrderingTitle()
    ensures ParseOrdering(Some("title")) == TitleAsc
  {
    assert NoEdgeSpace("title") by {
      assert "title"[0] == 't' && "title"[4] == 'e';
    }
    StripOfTrimmed("title");
  }

  lemma ParseOrderingYearDesc()
    ensures ParseOrdering(Some("-publication_year")) == YearDesc
  {
    var y := "-publication_year";
    assert NoEdgeSpace(y) by {
      assert y[0] == '-' && y[|y| - 1] == 'r';
    }
    StripOfTrimmed(y);
    assert OrderKeyOf(y) == YearDesc;
  }

  /** Rows sorted by the `title` key have non-decreasing titles. */
  lemma SortedByTitle(books: seq<Book>)
    requires SortedBy(books, Comparator(TitleAsc))
    ensures forall i, j :: 0 <= i < j < |books| ==> StrLe(books[i].title, books[j].title)
  {
    forall i, j | 0 <= i < j < |books|
      ensures StrLe(books[i].title, books[j].title)
    {
      assert Comparator(TitleAsc)(books[i], books[j]);
    }
  }

  /** Rows sorted by the `-publication_year` key have non-increasing years. */
  lemma SortedByYearDesc(books: seq<Book>)
    requires SortedBy(books, Comparator(YearDesc))
    ensures forall i, j :: 0 <= i < j < |books| ==> books[i].publicationYear >= books[j].publicationYear
  {
    forall i, j | 0 <= i < j < |books|
      ensures books[i].publicationYear >= books[j].publicationYear
    {
      assert Comparator(YearDesc)(books[i], books[j]);
    }
  }

  /** `ordering=title` lists titles in non-decreasing order and
      `ordering=-publication_year` lists years in non-increasing order. */
  lemma OrderingParameters(c: Catalog, p: ListParams)
    requires ListRows(c, p).Ok?
    ensures p.ordering == Some("title") ==>
      var books := ListRows(c, p).value;
      forall i, j :: 0 <= i < j < |books| ==> StrLe(books[i].title, books[j].title)
    ensures p.ordering == Some("-publication_year") ==>
      var books := ListRows(c, p).value;
      forall i, j :: 0 <= i < j < |books| ==> books[i].publicationYear >= books[j].publicationYear
  {
    var books := ListRows(c, p).value;
    var k := ParseOrdering(p.ordering);
    assert SortedBy(books, Comparator(k));
    if p.ordering == Some("title") {
      ParseOrderingTitle();
      assert k == TitleAsc;
      SortedByTitle(books);
    } else if p.ordering == Some("-publication_year") {
      ParseOrderingYearDesc();
      assert k == YearDesc;
      SortedByYearDesc(books);
    }
  }


  // ---------------------------------------------------------------------------
  // BookDetailView, BookCreateView, BookUpdateView, BookDeleteView
  // ---------------------------------------------------------------------------

  /** `BookDetailView`: anyone may read one book by key. */
  function DetailView(c: Catalog, u: User, m: Web.Method, pk: nat): (r: ApiOutcome)
    ensures r.catalog == c
    ensures r.response.Retrieved? ==> r.response.book in c.books && r.response.book.id == pk
    ensures (m == Web.GET || m == Web.HEAD) && (exists b :: b in c.books && b.id == pk) ==> r.response.Retrieved?
    ensures (m == Web.GET || m == Web.HEAD) && (forall b :: b in c.books ==> b.id != pk) ==> r.response == NotFound
  {
    match Gate(EndpointPermission(DetailEndpoint), DetailEndpoint, u, m)
    case Some(denied) => ApiOutcome(denied, c)
    case None =>
      if m == Web.OPTIONS then ApiOutcome(Options, c)
      else
        match IndexOf(c.books, BookId, pk)
        case None => ApiOutcome(NotFound, c)
        case Some(i) => ApiOutcome(Retrieved(c.books[i]), c)
  }

  /** The message of the view-level checks in `perform_create` and `perform_update`. */
  const ViewFutureYearMessage := "Publication year cannot be in the future."

  /** `BookCreateView`: a signed-in user's valid submission becomes a new book. */
  function CreateView(c: Catalog, u: User, m: Web.Method, data: BookData, currentYear: int): (r: ApiOutcome)
    ensures !u.Registered? ==> r == ApiOutcome(NotAuthenticated, c)
    ensures r.catalog != c <==> r.response.Created?
    ensures r.response.Created? ==>
      && u.Registered? && m == Web.POST
      && ValidateBook(c, data, false, currentYear).Ok?
      && data.publicationYear.Some? && data.publicationYear.value <= currentYear
      && AddBook(c, ValidateBook(c, data, false, currentYear).value.title.value,
                 data.publicationYear.value, data.author.value) == Ok(r.catalog)
      && r.response.book == r.catalog.books[|c.books|]
    ensures u.Registered? && m == Web.POST && ValidateBook(c, data, false, currentYear).Err? ==>
      r == ApiOutcome(Invalid(ValidateBook(c, data, false, currentYear).error), c)
    ensures u.Registered? && m == Web.POST && ValidateBook(c, data, false, currentYear).Ok? ==> r.response.Created?
    ensures !r.response.Rejected?
  {
    match Gate(EndpointPermission(CreateEndpoint), CreateEndpoint, u, m)
    case Some(denied) => ApiOutcome(denied, c)
    case None =>
      if m == Web.OPTIONS then ApiOutcome(Options, c)
      else
        match ValidateBook(c, data, false, currentYear)
        case Err(e) => ApiOutcome(Invalid(e), c)
        case Ok(v) =>
          // `perform_create` repeats the year check on the validated data.
          var year := v.publicationYear.GetOr(currentYear);
          if year > currentYear then ApiOutcome(Rejected([ViewFutureYearMessage]), c)
          else
            match AddBook(c, v.title.GetOr(""), year, v.author.GetOr(0))
            case Err(_) => ApiOutcome(ServerError, c)
            case Ok(next) => ApiOutcome(Created(next.books[|c.books|]), next)
  }

  /** Creating keeps the catalog valid. */
  lemma CreateViewPreservesValid(c: Catalog, u: User, m: Web.Method, data: BookData, currentYear: int)
    requires Valid(c)
    ensures Valid(CreateView(c, u, m, data, currentYear).catalog)
  {
    var r := CreateView(c, u, m, data, currentYear);
    if r.catalog != c {
      var v := ValidateBook(c, data, false, currentYear).value;
      AddBookPreservesValid(c, v.title.value, data.publicationYear.value, data.author.value);
    }
  }

  /** A book dated this year or earlier, with a real author and a fitting
      title, is created with the trimmed title, that year and that author,
      appended under a new key. */
  lemma CreatePastOrPresentYear(c: Catalog, u: User, title: string, year: int, authorId: nat, currentYear: int)
    requires u.Registered? && AuthorExists(c, authorId) && TitleFits(title) && year <= currentYear
    ensures var r := CreateView(c, u, Web.POST, BookData(Some(title), Some(year), Some(authorId)), currentYear);
      && r.response.Created?
      && r.response.book.title == Strip(title)
      && r.response.book.publicationYear == year
      && r.response.book.author == authorId
      && r.catalog.books == c.books + [r.response.book]
  {
    var d := BookData(Some(title), Some(year), Some(authorId));
    var v := ValidateFullData(c, title, year, authorId, currentYear);
    var r := CreateView(c, u, Web.POST, d, currentYear);
    assert r.response.Created?;
    assert AddBook(c, Strip(title), year, authorId) == Ok(r.catalog);
    assert r.catalog.books == r.catalog.books[..|c.books|] + [r.catalog.books[|c.books|]];
  }

  /** A full body with a fitting title, a year not in the future and a real
      author passes the serializer with only the title trimmed. */
  lemma ValidateFullData(c: Catalog, title: string, year: int, authorId: nat, currentYear: int) returns (v: BookData)
    requires AuthorExists(c, authorId) && TitleFits(title) && year <= currentYear
    ensures v == BookData(Some(Strip(title)), Some(year), Some(authorId))
    ensures ValidateBook(c, BookData(Some(title), Some(year), Some(authorId)), false, currentYear) == Ok(v)
  {
    var r := ValidateBook(c, BookData(Some(title), Some(year), Some(authorId)), false, currentYear);
    assert r.Ok?;
    v := r.value;
    assert v.title == Some(Strip(title));
  }

  /** The same book dated next year is refused by the serializer, on the year
      alone, and nothing is saved. */
  lemma CreateNextYearRefused(c: Catalog, u: User, title: string, authorId: nat, currentYear: int)
    requires u.Registered? && AuthorExists(c, authorId) && TitleFits(title)
    ensures CreateView(c, u, Web.POST, BookData(Some(title), Some(currentYear + 1), Some(authorId)), currentYear)
      == ApiOutcome(Invalid(BookErrors([], [FutureYearMessage(currentYear)], [])), c)
  {
    ValidateBookFutureYear(c, title, authorId, currentYear);
  }

  /** A POST naming a negative author key is answered 400 on the author field,
      quoting the key as sent, and nothing is saved; it never reaches the database. */
  lemma CreateNegativeAuthorRefused(c: Catalog, u: User, title: string, year: int, k: int, currentYear: int)
    requires u.Registered? && TitleFits(title) && year <= currentYear && k < 0
    ensures CreateView(c, u, Web.POST, BookData(Some(title), Some(year), Some(k)), currentYear)
      == ApiOutcome(Invalid(BookErrors([], [], [InvalidPkMessage(k)])), c)
  {
    NegativeAuthorRefused(c, title, year, k, currentYear);
  }

  /** The fields of a stored book after an update: each field sent replaces the
      stored one. Validated data names a stored author, so its key is never negative. */
  function ApplyUpdate(b: Book, v: BookData): (r: Book)
    requires v.author.Some? ==> v.author.value >= 0
    ensures r.id == b.id
    ensures r.title == v.title.GetOr(b.title)
    ensures r.publicationYear == v.publicationYear.GetOr(b.publicationYear)
    ensures r.author == v.author.GetOr(b.author)
  {
    Book(b.id, v.title.GetOr(b.title), v.publicationYear.GetOr(b.publicationYear), v.author.GetOr(b.author))
  }

  /** `BookUpdateView`: PUT replaces every field, PATCH only the fields sent;
      `perform_update` reads a missing year as the current year. */
  function UpdateView(c: Catalog, u: User, m: Web.Method, pk: nat, data: BookData, currentYear: int): (r: ApiOutcome)
    ensures !u.Registered? ==> r == ApiOutcome(NotAuthenticated, c)
    ensures r.catalog != c ==> r.response.Updated?
    ensures r.response.Updated? ==>
      && u.Registered? && (m == Web.PUT || m == Web.PATCH)
      && ValidateBook(c, data, m == Web.PATCH, currentYear).Ok?
      && IndexOf(c.books, BookId, pk).Some?
      && var i := IndexOf(c.books, BookId, pk).value;
         && r.response.book == ApplyUpdate(c.books[i], ValidateBook(c, data, m == Web.PATCH, currentYear).value)
         && r.catalog == ReplaceBook(c, i, r.response.book)
    ensures u.Registered? && (m == Web.PUT || m == Web.PATCH) && (forall b :: b in c.books ==> b.id != pk) ==>
      r == ApiOutcome(NotFound, c)
    ensures u.Registered? && (m == Web.PUT || m == Web.PATCH) && IndexOf(c.books, BookId, pk).Some? ==>
      && (ValidateBook(c, data, m == Web.PATCH, currentYear).Ok? ==> r.response.Updated?)
      && (ValidateBook(c, data, m == Web.PATCH, currentYear).Err? ==>
            r == ApiOutcome(Invalid(ValidateBook(c, data, m == Web.PATCH, currentYear).error), c))
    ensures !r.response.Rejected?
  {
    match Gate(EndpointPermission(UpdateEndpoint), UpdateEndpoint, u, m)
    case Some(denied) => ApiOutcome(denied, c)
    case None =>
      if m == Web.OPTIONS then ApiOutcome(Options, c)
      else
        match IndexOf(c.books, BookId, pk)
        case None => ApiOutcome(NotFound, c)
        case Some(i) =>
          match ValidateBook(c, data, m == Web.PATCH, currentYear)
          case Err(e) => ApiOutcome(Invalid(e), c)
          case Ok(v) =>
            // `perform_update`: `validated_data.get("publication_year", current year)`.
            if v.publicationYear.GetOr(currentYear) > currentYear then ApiOutcome(Rejected([ViewFutureYearMessage]), c)
            else
              var b := ApplyUpdate(c.books[i], v);
              ApiOutcome(Updated(b), ReplaceBook(c, i, b))
  }

  /** Updating keeps the catalog valid. */
  lemma UpdateViewPreservesValid(c: Catalog, u: User, m: Web.Method, pk: nat, data: BookData, currentYear: int)
    requires Valid(c)
    ensures Valid(UpdateView(c, u, m, pk, data, currentYear).catalog)
  {
    var r := UpdateView(c, u, m, pk, data, currentYear);
    if r.catalog != c {
      var i := IndexOf(c.books, BookId, pk).value;
      assert c.books[i] in c.books;
      ReplaceBookPreservesValid(c, i, r.response.book);
    }
  }

  /** A PATCH that leaves the year out passes `perform_update`'s check and
      keeps the stored year. */
  lemma PatchWithoutYear(c: Catalog, u: User, pk: nat, title: string, currentYear: int, i: nat)
    requires u.Registered? && UniqueKeysBy(c.books, BookId)
    requires i < |c.books| && c.books[i].id == pk
    requires TitleFits(title)
    ensures var r := UpdateView(c, u, Web.PATCH, pk, BookData(Some(title), None, None), currentYear);
      && r.response.Updated?
      && r.response.book.publicationYear == c.books[i].publicationYear
      && r.response.book.author == c.books[i].author
  {
    IndexOfUnique(c.books, BookId, pk, i);
    var d := BookData(Some(title), None, None);
    var v := ValidateBook(c, d, true, currentYear);
    assert v == Ok(BookData(Some(Strip(title)), None, None));
    var r := UpdateView(c, u, Web.PATCH, pk, d, currentYear);
    assert r.response.Updated?;
    assert r.response.book == ApplyUpdate(c.books[i], v.value);
  }

  /** A PUT of a stored key with a fitting title, a year not in the future and
      a real author replaces the row in place with exactly those values. */
  lemma PutReplacesBook(c: Catalog, u: User, pk: nat, title: string, year: int, authorId: nat, currentYear: int, i: nat)
    requires u.Registered? && UniqueKeysBy(c.books, BookId)
    requires i < |c.books| && c.books[i].id == pk
    requires TitleFits(title) && year <= currentYear && AuthorExists(c, authorId)
    ensures var b := Book(pk, Strip(title), year, authorId);
      UpdateView(c, u, Web.PUT, pk, BookData(Some(title), Some(year), Some(authorId)), currentYear)
        == ApiOutcome(Updated(b), ReplaceBook(c, i, b))
  {
    IndexOfUnique(c.books, BookId, pk, i);
    var b := Book(pk, Strip(title), year, authorId);
    var d := BookData(Some(title), Some(year), Some(authorId));
    var v := ValidateFullData(c, title, year, authorId, currentYear);
    assert ApplyUpdate(c.books[i], v) == b;
    var r := UpdateView(c, u, Web.PUT, pk, d, currentYear);
    assert r.response.Updated?;
    assert r.response.book == b && r.catalog == ReplaceBook(c, i, b);
  }

  /** `BookDeleteView` under a given permission class: anyone the class
      admits may remove a stored book. */
  function DeleteWith(policy: Permission, c: Catalog, u: User, m: Web.Method, pk: nat): (r: ApiOutcome)
    ensures !HasPermission(policy, u, m) ==> r.catalog == c && (r.response == NotAuthenticated || r.response == PermissionDenied)
    ensures r.catalog != c <==> r.response == Deleted
    ensures r.response == Deleted ==>
      && HasPermission(policy, u, m) && m == Web.DELETE
      && IndexOf(c.books, BookId, pk).Some?
      && r.catalog == RemoveBook(c, IndexOf(c.books, BookId, pk).value)
    ensures HasPermission(policy, u, m) && m == Web.DELETE && IndexOf(c.books, BookId, pk).Some? ==>
      r.response == Deleted
    ensures HasPermission(policy, u, m) && m == Web.DELETE && IndexOf(c.books, BookId, pk).None? ==>
      r == ApiOutcome(NotFound, c)
  {
    match Gate(policy, DeleteEndpoint, u, m)
    case Some(denied) => ApiOutcome(denied, c)
    case None =>
      if m == Web.OPTIONS then ApiOutcome(Options, c)
      else
        match IndexOf(c.books, BookId, pk)
        case None => ApiOutcome(NotFound, c)
        case Some(i) =>
          ApiOutcome(Deleted, RemoveBook(c, i))
  }

  /** The delete endpoint as declared, with `IsAuthenticatedOrReadOnly`. */
  function DeleteView(c: Catalog, u: User, m: Web.Method, pk: nat): (r: ApiOutcome)
    ensures r == DeleteWith(IsAuthenticatedOrReadOnly, c, u, m, pk)
  {
    DeleteWith(EndpointPermission(DeleteEndpoint), c, u, m, pk)
  }

  /** As declared, a signed-in user without staff status deletes a stored book:
      the API tests expect 403 for exactly this request. */
  lemma DeleteAdmitsNonStaff(c: Catalog, u: User, b: Book)
    requires u.Registered? && !u.isStaff && b in c.books
    ensures DeleteView(c, u, Web.DELETE, b.id).response == Deleted
  {
    var j :| 0 <= j < |c.books| && c.books[j] == b;
  }

  /** With `IsAdminOrReadOnly` attached the test's expectations hold: the
      non-staff user is refused and nothing changes, the staff user deletes. */
  lemma AdminOrReadOnlyMeetsDeleteTest(c: Catalog, user: User, admin: User, b: Book)
    requires user.Registered? && !user.isStaff
    requires admin.Registered? && admin.isStaff && b in c.books
    ensures DeleteWith(IsAdminOrReadOnly, c, user, Web.DELETE, b.id) == ApiOutcome(PermissionDenied, c)
    ensures DeleteWith(IsAdminOrReadOnly, c, admin, Web.DELETE, b.id).response == Deleted
  {
    var j :| 0 <= j < |c.books| && c.books[j] == b;
  }

  /** Deleting a book keeps the catalog valid. */
  lemma DeleteViewPreservesValid(policy: Permission, c: Catalog, u: User, m: Web.Method, pk: nat)
    requires Valid(c)
    ensures Valid(DeleteWith(policy, c, u, m, pk).catalog)
  {
    var r := DeleteWith(policy, c, u, m, pk);
    if r.catalog != c {
      RemoveBookPreservesValid(c, IndexOf(c.books, BookId, pk).value);
    }
  }
}
