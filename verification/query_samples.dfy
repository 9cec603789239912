/** The sample lookups of the `django-models` library project: books by an
    author's name, books in a library, and a library's librarian. Each looks a
    record up by name with `.get(name=...)`; only "no such record" is caught. */
module QuerySamples {
  import opened Wrappers
  import opened Seqs

  datatype Author = Author(id: nat, name: string)
  datatype Book = Book(id: nat, title: string, author: nat)

  /** `books` holds the keys of the library's books (a many-to-many relation). */
  datatype Library = Library(id: nat, name: string, books: seq<nat>)

  /** `library` is the key of the one library the librarian runs (one-to-one). */
  datatype Librarian = Librarian(id: nat, name: string, library: nat)

  datatype Db = Db(authors: seq<Author>, books: seq<Book>, libraries: seq<Library>, librarians: seq<Librarian>)

  /** `.get(...)` found more than one row: the exception the samples let through. */
  const MultipleObjectsReturned := "MultipleObjectsReturned"

  function AuthorNamed(name: string): Author -> bool {
    (a: Author) => a.name == name
  }

  function LibraryNamed(name: string): Library -> bool {
    (l: Library) => l.name == name
  }

  function WrittenBy(id: nat): Book -> bool {
    (b: Book) => b.author == id
  }

  function HeldBy(l: Library): Book -> bool {
    (b: Book) => b.id in l.books
  }

  /** `Model.objects.get(name=...)`: no row, exactly one row, or too many. */
  function GetByName<T(!new)>(rows: seq<T>, named: T -> bool): (r: Result<Option<T>, string>)
    ensures r == Ok(None) <==> forall x :: x in rows ==> !named(x)
    ensures r.Ok? && r.value.Some? ==> r.value.value in rows && named(r.value.value)
    ensures r.Ok? && r.value.Some? ==> Filter(rows, named) == [r.value.value]
    ensures r.Err? <==> |Filter(rows, named)| > 1
  {
    var found := Filter(rows, named);
    assert found != [] ==> found[0] in found;
    if found == [] then Ok(None)
    else if |found| > 1 then Err(MultipleObjectsReturned)
    else Ok(Some(found[0]))
  }

  /** `query_books_by_author`: an unknown name gives an empty list, otherwise
      the books whose author is the one with that name. */
  function BooksByAuthor(db: Db, name: string): (r: Result<seq<Book>, string>)
    ensures (forall a :: a in db.authors ==> a.name != name) ==> r == Ok([])
    ensures r.Err? <==> |Filter(db.authors, AuthorNamed(name))| > 1
    ensures r.Ok? ==> forall b :: b in r.value ==> b in db.books
    ensures r.Ok? ==> forall b :: b in r.value <==>
      b in db.books && exists a :: a in db.authors && a.name == name && a.id == b.author
  {
    match GetByName(db.authors, AuthorNamed(name))
    case Err(e) => Err(e)
    case Ok(None) => Ok([])
    case Ok(Some(a)) =>
      assert forall x :: x in db.authors && x.name == name ==> x == a by {
        forall x | x in db.authors && x.name == name
          ensures x == a
        {
          assert x in Filter(db.authors, AuthorNamed(name));
        }
      }
      Ok(Filter(db.books, WrittenBy(a.id)))
  }

  /** `list_books_in_library`: an unknown library gives an empty list,
      otherwise the books the library holds. */
  function BooksInLibrary(db: Db, name: string): (r: Result<seq<Book>, string>)
    ensures (forall l :: l in db.libraries ==> l.name != name) ==> r == Ok([])
    ensures r.Err? <==> |Filter(db.libraries, LibraryNamed(name))| > 1
    ensures r.Ok? ==> forall b :: b in r.value <==>
      b in db.books && exists l :: l in db.libraries && l.name == name && b.id in l.books
  {
    match GetByName(db.libraries, LibraryNamed(name))
    case Err(e) => Err(e)
    case Ok(None) => Ok([])
    case Ok(Some(l)) =>
      assert forall x :: x in db.libraries && x.name == name ==> x == l by {
        forall x | x in db.libraries && x.name == name
          ensures x == l
        {
          assert x in Filter(db.libraries, LibraryNamed(name));
        }
      }
      Ok(Filter(db.books, HeldBy(l)))
  }

  /** `library.librarian`: the librarian attached to the library keyed `id`. */
  function LibrarianOf(db: Db, id: nat): (r: Option<Librarian>)
    ensures r.None? <==> forall x :: x in db.librarians ==> x.library != id
    ensures r.Some? ==> r.value in db.librarians && r.value.library == id
  {
    var attached := Filter(db.librarians, (x: Librarian) => x.library == id);
    assert attached != [] ==> attached[0] in attached;
    if attached == [] then None else Some(attached[0])
  }

  /** `get_librarian_for_library`: `None` for an unknown library or one with
      no librarian, otherwise that library's librarian. */
  function LibrarianForLibrary(db: Db, name: string): (r: Result<Option<Librarian>, string>)
    ensures (forall l :: l in db.libraries ==> l.name != name) ==> r == Ok(None)
    ensures r.Err? <==> |Filter(db.libraries, LibraryNamed(name))| > 1
    ensures r.Ok? && r.value.Some? ==>
      r.value.value in db.librarians
      && exists l :: l in db.libraries && l.name == name && r.value.value.library == l.id
    ensures r.Ok? && r.value.None? && (exists l :: l in db.libraries && l.name == name) ==>
      forall l, x :: l in db.libraries && l.name == name && x in db.librarians ==> x.library != l.id
  {
    match GetByName(db.libraries, LibraryNamed(name))
    case Err(e) => Err(e)
    case Ok(None) => Ok(None)
    case Ok(Some(l)) =>
      assert forall x :: x in db.libraries && x.name == name ==> x == l by {
        forall x | x in db.libraries && x.name == name
          ensures x == l
        {
          assert x in Filter(db.libraries, LibraryNamed(name));
        }
      }
      Ok(LibrarianOf(db, l.id))
  }

  /** Names are unique within each table. */
  predicate UniqueNames(db: Db) {
    && (forall i, j :: 0 <= i < j < |db.authors| ==> db.authors[i].name != db.authors[j].name)
    && (forall i, j :: 0 <= i < j < |db.libraries| ==> db.libraries[i].name != db.libraries[j].name)
  }

  /** When no two rows both satisfy `named`, at most one survives the filter. */
  lemma {:induction false} AtMostOneNamed<T(!new)>(rows: seq<T>, named: T -> bool)
    requires forall i, j :: 0 <= i < j < |rows| ==> !(named(rows[i]) && named(rows[j]))
    ensures |Filter(rows, named)| <= 1
  {
    if rows != [] {
      var tail := rows[1..];
      assert forall k :: 0 <= k < |tail| ==> tail[k] == rows[k + 1];
      AtMostOneNamed(tail, named);
      if named(rows[0]) {
        assert forall x :: x in tail ==> !named(x);
        FilterEmptyIff(tail, named);
      }
    }
  }

  /** With unique names, the only failure the samples do not catch cannot happen. */
  lemma UniqueNamesNeverFail(db: Db, name: string)
    requires UniqueNames(db)
    ensures BooksByAuthor(db, name).Ok?
    ensures BooksInLibrary(db, name).Ok?
    ensures LibrarianForLibrary(db, name).Ok?
  {
    AtMostOneNamed(db.authors, AuthorNamed(name));
    AtMostOneNamed(db.libraries, LibraryNamed(name));
  }
}
