/** The `bookshelf` app's views: a capability-gated list with a trimmed,
    case-insensitive title search, and capability-gated create, edit and
    delete that store the submitted values as they are. */
module Bookshelf {
  import opened Wrappers
  import opened Text
  import opened Seqs
  import opened Auth
  import opened Web
  import opened Shelf

  const CanView := "bookshelf.can_view"
  const CanCreate := "bookshelf.can_create"
  const CanEdit := "bookshelf.can_edit"
  const CanDelete := "bookshelf.can_delete"

  /** What `list_books` renders: the response, the books in the context and
      the query it echoes back. */
  datatype ListPage = ListPage(response: Response, books: seq<ShelfBook>, query: string)

  /** `title__icontains=query`; a row without a title never matches. */
  predicate TitleMatches(b: ShelfBook, query: string) {
    b.title.Some? && IContains(b.title.value, query)
  }

  function TitleHas(query: string): ShelfBook -> bool {
    (b: ShelfBook) => TitleMatches(b, query)
  }

  /** The books a trimmed query selects: all of them for the empty query,
      otherwise those whose title contains it. */
  function Matching(s: seq<ShelfBook>, query: string): (r: seq<ShelfBook>)
    ensures query == [] ==> r == s
    ensures query != [] ==> forall b :: b in r <==> b in s && TitleMatches(b, query)
    ensures multiset(r) <= multiset(s)
  {
    if query == [] then s else Filter(s, TitleHas(query))
  }

  /** `list_books`: `q` (missing reads as "") is trimmed and echoed back, and
      the books shown are the ones the trimmed query selects. */
  function ListBooks(s: seq<ShelfBook>, u: User, q: Option<string>): (r: ListPage)
    ensures !HasPerm(u, CanView) ==> r == ListPage(Forbidden, [], "")
    ensures HasPerm(u, CanView) ==>
      && r.response == Page("relationship_app/book_list.html")
      && r.query == Strip(q.GetOr(""))
      && r.books == Matching(s, r.query)
    ensures multiset(r.books) <= multiset(s)
  {
    match PermissionRequired(u, CanView, true)
    case Some(denied) => ListPage(denied, [], "")
    case None =>
      var query := Strip(q.GetOr(""));
      ListPage(Page("relationship_app/book_list.html"), Matching(s, query), query)
  }

  /** What the list shows: every book for a missing or all-whitespace query,
      otherwise exactly the books whose title contains the trimmed query. */
  lemma ListBooksSelects(s: seq<ShelfBook>, u: User, q: Option<string>)
    requires HasPerm(u, CanView)
    ensures AllSpace(q.GetOr("")) ==> ListBooks(s, u, q).books == s
    ensures !AllSpace(q.GetOr("")) ==> forall b ::
      b in ListBooks(s, u, q).books <==> b in s && TitleMatches(b, Strip(q.GetOr("")))
  {
    StripEmptyIff(q.GetOr(""));
  }

  /** A query of spaces lists exactly what no query lists. */
  lemma BlankQueryIsNoQuery(s: seq<ShelfBook>, u: User, q: string)
    requires AllSpace(q)
    ensures ListBooks(s, u, Some(q)) == ListBooks(s, u, None)
  {
    if HasPerm(u, CanView) {
      StripEmptyIff(q);
      StripEmptyIff("");
    }
  }

  /** Surrounding whitespace does not change the search: the padded query
      lists what the bare one lists. */
  lemma PaddedQuery(s: seq<ShelfBook>, u: User, q: string)
    ensures ListBooks(s, u, Some(Strip(q))) == ListBooks(s, u, Some(q))
  {
    if HasPerm(u, CanView) {
      StripIdempotent(q);
    }
  }

  /** The stored value of a submitted year: `None` when the key was not sent;
      the empty string and any other text that is not a number make the
      integer column raise, and the error is the refused text. */
  function StoredYear(y: Field<int>): (r: Result<Option<int>, string>)
    ensures r.Err? <==> y.Blank? || y.Malformed?
    ensures y.Blank? ==> r == Err("")
    ensures y.Malformed? ==> r == Err(y.text)
    ensures y.Absent? ==> r == Ok(None)
    ensures y.Given? ==> r == Ok(Some(y.value))
  {
    match y
    case Absent => Ok(None)
    case Blank => Err("")
    case Given(v) => Ok(Some(v))
    case Malformed(t) => Err(t)
  }

  /** `create_book`: a POST creates a row from the submitted values without
      checking them; a year that is empty or not a number makes the save fail
      with a server error. */
  function CreateBook(s: seq<ShelfBook>, u: User, m: Method, form: BookForm): (r: Outcome<seq<ShelfBook>>)
    ensures !HasPerm(u, CanCreate) ==> r == Outcome(Forbidden, s)
    ensures r.store != s <==> HasPerm(u, CanCreate) && m == POST && StoredYear(form.year).Ok?
    ensures r.store != s ==>
      && r.response == Redirect("book_list")
      && r.store == InsertBook(s, form.title, form.author, StoredYear(form.year).value)
    ensures HasPerm(u, CanCreate) && m == POST && StoredYear(form.year).Err? ==> r == Outcome(ServerError, s)
  {
    match PermissionRequired(u, CanCreate, true)
    case Some(denied) => Outcome(denied, s)
    case None =>
      if m != POST then Outcome(Page("bookshelf/create_book.html"), s)
      else
        match StoredYear(form.year)
        case Err(_) => Outcome(ServerError, s)
        case Ok(year) => Outcome(Redirect("book_list"), InsertBook(s, form.title, form.author, year))
  }

  /** `edit_book`: a POST overwrites title, author and year with what was sent;
      a year that was not sent clears the stored one. */
  function EditBook(s: seq<ShelfBook>, u: User, m: Method, id: nat, form: BookForm): (r: Outcome<seq<ShelfBook>>)
    ensures !HasPerm(u, CanEdit) ==> r == Outcome(Forbidden, s)
    ensures HasPerm(u, CanEdit) && FindBook(s, id).None? ==> r == Outcome(NotFound, s)
    ensures |r.store| == |s|
    ensures r.store != s ==> HasPerm(u, CanEdit) && m == POST && FindBook(s, id).Some?
    ensures HasPerm(u, CanEdit) && m == POST && FindBook(s, id).Some? && StoredYear(form.year).Ok? ==>
      var i := FindBook(s, id).value;
      && r.response == Redirect("book_list")
      && r.store == s[i := ShelfBook(id, form.title, form.author, StoredYear(form.year).value)]
    ensures HasPerm(u, CanEdit) && m == POST && FindBook(s, id).Some? && StoredYear(form.year).Err? ==>
      r == Outcome(ServerError, s)
  {
    match PermissionRequired(u, CanEdit, true)
    case Some(denied) => Outcome(denied, s)
    case None =>
      match FindBook(s, id)
      case None => Outcome(NotFound, s)
      case Some(i) =>
        if m != POST then Outcome(Page("bookshelf/edit_book.html"), s)
        else
          match StoredYear(form.year)
          case Err(_) => Outcome(ServerError, s)
          case Ok(year) => Outcome(Redirect("book_list"), s[i := ShelfBook(id, form.title, form.author, year)])
  }

  /** `delete_book`: only a POST removes the book; any other method shows the
      confirmation page and changes nothing. */
  function DeleteBook(s: seq<ShelfBook>, u: User, m: Method, id: nat): (r: Outcome<seq<ShelfBook>>)
    ensures !HasPerm(u, CanDelete) ==> r == Outcome(Forbidden, s)
    ensures HasPerm(u, CanDelete) && FindBook(s, id).None? ==> r == Outcome(NotFound, s)
    ensures m != POST ==> r.store == s
    ensures HasPerm(u, CanDelete) && FindBook(s, id).Some? && m != POST ==>
      r.response == Page("bookshelf/delete_book.html")
    ensures HasPerm(u, CanDelete) && FindBook(s, id).Some? && m == POST ==>
      r == Outcome(Redirect("book_list"), RemoveAt(s, FindBook(s, id).value))
  {
    match PermissionRequired(u, CanDelete, true)
    case Some(denied) => Outcome(denied, s)
    case None =>
      match FindBook(s, id)
      case None => Outcome(NotFound, s)
      case Some(i) =>
        if m == POST then Outcome(Redirect("book_list"), RemoveAt(s, i))
        else Outcome(Page("bookshelf/delete_book.html"), s)
  }

  /** Unlike the edit of the `relationship_app`, this edit has no keep-old
      fallback: leaving the year out clears a stored year. */
  lemma EditWithoutYearClearsIt(s: seq<ShelfBook>, u: User, i: nat, title: Option<string>, author: Option<string>)
    requires HasPerm(u, CanEdit) && i < |s| && s[i].year.Some?
    requires UniqueKeysBy(s, ShelfId)
    ensures var r := EditBook(s, u, POST, s[i].id, BookForm(title, author, Absent));
      && r.store != s
      && r.store[i].year.None?
  {
    IndexOfUnique(s, ShelfId, s[i].id, i);
  }
}
