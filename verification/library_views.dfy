/** The book views of the `relationship_app` in the security-hardened
    library project: each one is gated by a `bookshelf` capability with
    `raise_exception=True`, so a user without it gets 403. */
module LibraryViews {
  import opened Wrappers
  import opened Seqs
  import opened Auth
  import opened Web
  import opened Shelf

  const CanCreate := "bookshelf.can_create"
  const CanEdit := "bookshelf.can_edit"
  const CanDelete := "bookshelf.can_delete"

  /** The year `add_book` stores: `publication_year or None`. Text that is
      not a number makes the integer column raise; the error is that text. */
  function SubmittedYear(y: Field<int>): (r: Result<Option<int>, string>)
    ensures r.Err? <==> y.Malformed?
    ensures r.Err? ==> r.error == y.text
    ensures r.Ok? ==> (r.value.Some? <==> y.Given?)
    ensures r.Ok? && r.value.Some? ==> r.value.value == y.value
  {
    match y
    case Malformed(t) => Err(t)
    case Given(v) => Ok(Some(v))
    case _ => Ok(None)
  }

  /** `add_book`: a POST with a non-empty title and author creates a book,
      unless its year is not a number, which is a server error; anything else
      shows the form again. */
  function AddBook(s: seq<ShelfBook>, u: User, m: Method, form: BookForm): (r: Outcome<seq<ShelfBook>>)
    ensures !HasPerm(u, CanCreate) ==> r == Outcome(Forbidden, s)
    ensures r.store != s <==>
      HasPerm(u, CanCreate) && m == POST && Truthy(form.title) && Truthy(form.author) && !form.year.Malformed?
    ensures r.store != s ==>
      && r.response == Redirect("book_list")
      && r.store == InsertBook(s, form.title, form.author, SubmittedYear(form.year).value)
    ensures HasPerm(u, CanCreate) && m == POST && Truthy(form.title) && Truthy(form.author) && form.year.Malformed? ==>
      r == Outcome(ServerError, s)
    ensures HasPerm(u, CanCreate) && !(m == POST && Truthy(form.title) && Truthy(form.author)) ==>
      r == Outcome(Page("relationship_app/add_book.html"), s)
  {
    match PermissionRequired(u, CanCreate, true)
    case Some(denied) => Outcome(denied, s)
    case None =>
      if m == POST && Truthy(form.title) && Truthy(form.author) then
        match SubmittedYear(form.year)
        case Err(_) => Outcome(ServerError, s)
        case Ok(year) => Outcome(Redirect("book_list"), InsertBook(s, form.title, form.author, year))
      else Outcome(Page("relationship_app/add_book.html"), s)
  }

  /** `create_book`: an alias that calls `add_book`, gate included. */
  function CreateBook(s: seq<ShelfBook>, u: User, m: Method, form: BookForm): (r: Outcome<seq<ShelfBook>>)
    ensures r == AddBook(s, u, m, form)
  {
    AddBook(s, u, m, form)
  }

  /** The stored row after an edit: title and author are overwritten, and the
      year only when one was sent (`publication_year or book.publication_year`). */
  function EditedBook(b: ShelfBook, form: BookForm): (r: ShelfBook)
    ensures r.id == b.id && r.title == form.title && r.author == form.author
    ensures form.year.Given? ==> r.year == Some(form.year.value)
    ensures form.year.Absent? || form.year.Blank? ==> r.year == b.year
  {
    b.(title := form.title, author := form.author, year := if form.year.Given? then Some(form.year.value) else b.year)
  }

  /** `edit_book`: a missing key is 404; a POST overwrites the row in place,
      unless the year sent is not a number, which makes the save fail. */
  function EditBook(s: seq<ShelfBook>, u: User, m: Method, id: nat, form: BookForm): (r: Outcome<seq<ShelfBook>>)
    ensures !HasPerm(u, CanEdit) ==> r == Outcome(Forbidden, s)
    ensures HasPerm(u, CanEdit) && FindBook(s, id).None? ==> r == Outcome(NotFound, s)
    ensures |r.store| == |s|
    ensures r.store != s ==> HasPerm(u, CanEdit) && m == POST && FindBook(s, id).Some? && !form.year.Malformed?
    ensures HasPerm(u, CanEdit) && m == POST && FindBook(s, id).Some? && !form.year.Malformed? ==>
      var i := FindBook(s, id).value;
      && r.response == Redirect("book_list")
      && r.store == s[i := EditedBook(s[i], form)]
    ensures HasPerm(u, CanEdit) && m == POST && FindBook(s, id).Some? && form.year.Malformed? ==>
      r == Outcome(ServerError, s)
  {
    match PermissionRequired(u, CanEdit, true)
    case Some(denied) => Outcome(denied, s)
    case None =>
      match FindBook(s, id)
      case None => Outcome(NotFound, s)
      case Some(i) =>
        if m != POST then Outcome(Page("relationship_app/edit_book.html"), s)
        else if form.year.Malformed? then Outcome(ServerError, s)
        else Outcome(Redirect("book_list"), s[i := EditedBook(s[i], form)])
  }

  /** `update_book`: an alias that calls `edit_book`, gate included. */
  function UpdateBook(s: seq<ShelfBook>, u: User, m: Method, id: nat, form: BookForm): (r: Outcome<seq<ShelfBook>>)
    ensures r == EditBook(s, u, m, id, form)
  {
    EditBook(s, u, m, id, form)
  }

  /** `delete_book`: any request method removes an existing book. */
  function DeleteBook(s: seq<ShelfBook>, u: User, m: Method, id: nat): (r: Outcome<seq<ShelfBook>>)
    ensures !HasPerm(u, CanDelete) ==> r == Outcome(Forbidden, s)
    ensures HasPerm(u, CanDelete) && FindBook(s, id).None? ==> r == Outcome(NotFound, s)
    ensures HasPerm(u, CanDelete) && FindBook(s, id).Some? ==>
      r == Outcome(Redirect("book_list"), RemoveAt(s, FindBook(s, id).value))
  {
    match PermissionRequired(u, CanDelete, true)
    case Some(denied) => Outcome(denied, s)
    case None =>
      match FindBook(s, id)
      case None => Outcome(NotFound, s)
      case Some(i) => Outcome(Redirect("book_list"), RemoveAt(s, i))
  }

  /** Resubmitting a book's own title and author with a blank year leaves the
      table as it was: the blank year keeps the stored one. */
  lemma EditWithStoredValuesIsNoOp(s: seq<ShelfBook>, u: User, i: nat)
    requires HasPerm(u, CanEdit) && i < |s|
    requires UniqueKeysBy(s, ShelfId)
    ensures EditBook(s, u, POST, s[i].id, BookForm(s[i].title, s[i].author, Blank)).store == s
  {
    IndexOfUnique(s, ShelfId, s[i].id, i);
  }

  /** Deleting the book `add_book` just created restores the table, whatever the
      request method of the delete. */
  lemma AddThenDelete(s: seq<ShelfBook>, u: User, m: Method, form: BookForm)
    requires HasPerm(u, CanCreate) && HasPerm(u, CanDelete)
    requires Truthy(form.title) && Truthy(form.author) && !form.year.Malformed?
    ensures var added := AddBook(s, u, POST, form).store;
      DeleteBook(added, u, m, added[|s|].id).store == s
  {
    InsertThenRemove(s, form.title, form.author, SubmittedYear(form.year).value);
  }
}
