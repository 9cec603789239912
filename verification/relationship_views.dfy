/** The book views of the `relationship_app` in the `django-models` library
    project. Their capability gates are declared without `raise_exception`,
    so a user without the capability is sent to the login page instead of
    getting 403; `list_books` is defined twice and the second definition wins. */
module RelationshipViews {
  import opened Wrappers
  import opened Seqs
  import opened Auth
  import opened Web
  import opened Shelf
  import LibraryViews

  const CanAddBook := "relationship_app.can_add_book"
  const CanChangeBook := "relationship_app.can_change_book"
  const CanDeleteBook := "relationship_app.can_delete_book"

  /** `add_book`: a POST with a non-empty title and author creates a book with
      no year; anything else shows the form again. */
  function AddBook(s: seq<ShelfBook>, u: User, m: Method, form: BookForm): (r: Outcome<seq<ShelfBook>>)
    ensures !HasPerm(u, CanAddBook) ==> r == Outcome(LoginRedirect, s)
    ensures r.store != s <==> HasPerm(u, CanAddBook) && m == POST && Truthy(form.title) && Truthy(form.author)
    ensures r.store != s ==>
      && r.response == Redirect("book_list")
      && r.store == InsertBook(s, form.title, form.author, None)
  {
    match PermissionRequired(u, CanAddBook, false)
    case Some(denied) => Outcome(denied, s)
    case None =>
      if m == POST && Truthy(form.title) && Truthy(form.author) then
        Outcome(Redirect("book_list"), InsertBook(s, form.title, form.author, None))
      else Outcome(Page("relationship_app/add_book.html"), s)
  }

  /** `create_book`: an alias that calls `add_book`. */
  function CreateBook(s: seq<ShelfBook>, u: User, m: Method, form: BookForm): (r: Outcome<seq<ShelfBook>>)
    ensures r == AddBook(s, u, m, form)
  {
    AddBook(s, u, m, form)
  }

  /** `edit_book`: a missing key is 404; a POST overwrites title and author
      with whatever was sent and leaves the year alone. */
  function EditBook(s: seq<ShelfBook>, u: User, m: Method, id: nat, form: BookForm): (r: Outcome<seq<ShelfBook>>)
    ensures !HasPerm(u, CanChangeBook) ==> r == Outcome(LoginRedirect, s)
    ensures HasPerm(u, CanChangeBook) && FindBook(s, id).None? ==> r == Outcome(NotFound, s)
    ensures |r.store| == |s|
    ensures r.store != s ==> HasPerm(u, CanChangeBook) && m == POST && FindBook(s, id).Some?
    ensures HasPerm(u, CanChangeBook) && m == POST && FindBook(s, id).Some? ==>
      var i := FindBook(s, id).value;
      && r.response == Redirect("book_list")
      && r.store == s[i := s[i].(title := form.title, author := form.author)]
  {
    match PermissionRequired(u, CanChangeBook, false)
    case Some(denied) => Outcome(denied, s)
    case None =>
      match FindBook(s, id)
      case None => Outcome(NotFound, s)
      case Some(i) =>
        if m == POST then Outcome(Redirect("book_list"), s[i := s[i].(title := form.title, author := form.author)])
        else Outcome(Page("relationship_app/edit_book.html"), s)
  }

  /** `update_book`: an alias that calls `edit_book`. */
  function UpdateBook(s: seq<ShelfBook>, u: User, m: Method, id: nat, form: BookForm): (r: Outcome<seq<ShelfBook>>)
    ensures r == EditBook(s, u, m, id, form)
  {
    EditBook(s, u, m, id, form)
  }

  /** `delete_book`: any request method removes an existing book. */
  function DeleteBook(s: seq<ShelfBook>, u: User, m: Method, id: nat): (r: Outcome<seq<ShelfBook>>)
    ensures !HasPerm(u, CanDeleteBook) ==> r == Outcome(LoginRedirect, s)
    ensures HasPerm(u, CanDeleteBook) && FindBook(s, id).None? ==> r == Outcome(NotFound, s)
    ensures HasPerm(u, CanDeleteBook) && FindBook(s, id).Some? ==>
      r == Outcome(Redirect("book_list"), RemoveAt(s, FindBook(s, id).value))
  {
    match PermissionRequired(u, CanDeleteBook, false)
    case Some(denied) => Outcome(denied, s)
    case None =>
      match FindBook(s, id)
      case None => Outcome(NotFound, s)
      case Some(i) => Outcome(Redirect("book_list"), RemoveAt(s, i))
  }

  /** The two apps refuse the same unprivileged request differently: this one
      redirects to the login page where the hardened one answers 403. A user
      with neither app's capability changes nothing in either. */
  lemma GateStylesDiffer(s: seq<ShelfBook>, u: User, m: Method, id: nat)
    requires !HasPerm(u, CanDeleteBook) && !HasPerm(u, LibraryViews.CanDelete)
    ensures DeleteBook(s, u, m, id) == Outcome(LoginRedirect, s)
    ensures LibraryViews.DeleteBook(s, u, m, id) == Outcome(Forbidden, s)
  {
  }

  /** An active superuser holds every capability, so the gates never stop one. */
  lemma SuperuserPasses(s: seq<ShelfBook>, u: User, m: Method, id: nat, form: BookForm)
    requires u.Registered? && u.isActive && u.isSuperuser
    ensures AddBook(s, u, m, form).response != LoginRedirect
    ensures EditBook(s, u, m, id, form).response != LoginRedirect
    ensures DeleteBook(s, u, m, id).response != LoginRedirect
  {
  }

  /** What a book listing renders: its template and the books in its context. */
  datatype BookListPage = BookListPage(template: string, books: seq<ShelfBook>)

  /** The first `list_books` (and `list_books_function_view`, written the same way). */
  function FirstListBooks(s: seq<ShelfBook>): (r: BookListPage)
    ensures r.books == s && r.template == "relationship_app/list_books.html"
  {
    BookListPage("relationship_app/list_books.html", s)
  }

  /** The second `list_books`, which rebinds the name: the effective view. */
  function ListBooks(s: seq<ShelfBook>): (r: BookListPage)
    ensures r.books == s && r.template == "relationship_app/book_list.html"
  {
    BookListPage("relationship_app/book_list.html", s)
  }

  /** The rebinding changes the template and nothing else. */
  lemma ListBooksRebinding(s: seq<ShelfBook>)
    ensures ListBooks(s).books == FirstListBooks(s).books
    ensures ListBooks(s).template != FirstListBooks(s).template
  {
    assert ListBooks(s).template[17] != FirstListBooks(s).template[17];
  }
}
