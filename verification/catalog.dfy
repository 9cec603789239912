/** The `Author`/`Book` tables of the book API: one author per book through a
    foreign key that cascades on delete, the reverse `books` relation, and the
    string forms of both models. */
module Catalog {
  import opened Wrappers
  import opened Text
  import opened Seqs

  /** `CharField(max_length=255)` on `Author.name` and `Book.title`. */
  const MaxLength := 255

  datatype Author = Author(id: nat, name: string)

  /** `author` holds the key of the one author the book belongs to. */
  datatype Book = Book(id: nat, title: string, publicationYear: int, author: nat)

  datatype Catalog = Catalog(authors: seq<Author>, books: seq<Book>)

  function AuthorId(a: Author): nat {
    a.id
  }

  function BookId(b: Book): nat {
    b.id
  }

  predicate AuthorExists(c: Catalog, id: nat) {
    exists a :: a in c.authors && a.id == id
  }

  /** A submitted author key, which may be any integer, names a stored author;
      no author carries a negative key. */
  predicate AuthorKeyStored(c: Catalog, k: int) {
    k >= 0 && AuthorExists(c, k)
  }

  /** Primary keys are unique in both tables. */
  predicate UniqueKeys(c: Catalog) {
    UniqueKeysBy(c.authors, AuthorId) && UniqueKeysBy(c.books, BookId)
  }

  /** Referential integrity of the foreign key: every book's author exists. */
  predicate BooksHaveAuthors(c: Catalog) {
    forall b :: b in c.books ==> AuthorExists(c, b.author)
  }

  /** Column widths: names and titles fit their 255-character columns. */
  predicate WithinWidths(c: Catalog) {
    && (forall a :: a in c.authors ==> |a.name| <= MaxLength)
    && (forall b :: b in c.books ==> |b.title| <= MaxLength)
  }

  predicate Valid(c: Catalog) {
    UniqueKeys(c) && BooksHaveAuthors(c) && WithinWidths(c)
  }

  /** In a valid catalog each book references exactly one stored author. */
  lemma {:induction false} ExactlyOneAuthor(c: Catalog, b: Book)
    requires Valid(c) && b in c.books
    ensures exists a :: a in c.authors && a.id == b.author
    ensures forall a1, a2 :: a1 in c.authors && a2 in c.authors && a1.id == b.author && a2.id == b.author ==> a1 == a2
  {
    forall a1, a2 | a1 in c.authors && a2 in c.authors && a1.id == b.author && a2.id == b.author
      ensures a1 == a2
    {
      var i :| 0 <= i < |c.authors| && c.authors[i] == a1;
      var j :| 0 <= j < |c.authors| && c.authors[j] == a2;
      assert AuthorId(c.authors[i]) == AuthorId(c.authors[j]);
    }
  }

  /** The row test `author=authorId` and its negation, as filter predicates. */
  function ByAuthor(authorId: nat): Book -> bool {
    (b: Book) => b.author == authorId
  }

  function NotByAuthor(authorId: nat): Book -> bool {
    (b: Book) => b.author != authorId
  }

  function OtherAuthor(id: nat): Author -> bool {
    (a: Author) => a.id != id
  }

  /** `author.books.all()`: the reverse side of the foreign key (`related_name="books"`). */
  function BooksOf(c: Catalog, authorId: nat): (r: seq<Book>)
    ensures forall b :: b in r <==> b in c.books && b.author == authorId
    ensures multiset(r) <= multiset(c.books)
  {
    Filter(c.books, ByAuthor(authorId))
  }

  /** Every book is listed under its own author and under no other. */
  lemma BooksOfPartition(c: Catalog, b: Book, a: nat)
    requires b in c.books
    ensures b in BooksOf(c, a) <==> a == b.author
  {
  }

  /** `author.delete()`: the author goes, and `on_delete=CASCADE` takes that author's books with it. */
  function DeleteAuthor(c: Catalog, id: nat): (r: Catalog)
    ensures forall a :: a in r.authors <==> a in c.authors && a.id != id
    ensures forall b :: b in r.books <==> b in c.books && b.author != id
    ensures BooksOf(r, id) == []
    ensures forall other :: other != id ==> BooksOf(r, other) == BooksOf(c, other)
  {
    var r := Catalog(Filter(c.authors, OtherAuthor(id)), Filter(c.books, NotByAuthor(id)));
    FilterEmptyIff(r.books, ByAuthor(id));
    forall other | other != id
      ensures BooksOf(r, other) == BooksOf(c, other)
    {
      FilterThenImplied(c.books, NotByAuthor(id), ByAuthor(other));
    }
    r
  }

  /** Cascade deletion keeps the catalog valid. */
  lemma DeleteAuthorPreservesValid(c: Catalog, id: nat)
    requires Valid(c)
    ensures Valid(DeleteAuthor(c, id))
  {
    var r := DeleteAuthor(c, id);
    forall b | b in r.books
      ensures AuthorExists(r, b.author)
    {
      var a :| a in c.authors && a.id == b.author;
      assert a in r.authors;
    }
    FilterKeepsKeysUnique(c.authors, OtherAuthor(id), AuthorId);
    FilterKeepsKeysUnique(c.books, NotByAuthor(id), BookId);
  }

  /** `Book.objects.create(...)`: the row is refused when the author key is
      dangling (the foreign-key constraint). The title's width is not checked
      here: `create` runs no validation and SQLite does not enforce the width. */
  function AddBook(c: Catalog, title: string, year: int, authorId: nat): (r: Result<Catalog, string>)
    ensures r.Ok? <==> AuthorExists(c, authorId)
    ensures r.Ok? ==>
      && r.value.authors == c.authors
      && |r.value.books| == |c.books| + 1
      && r.value.books[..|c.books|] == c.books
      && var b := r.value.books[|c.books|];
         b.title == title && b.publicationYear == year && b.author == authorId
         && forall prev :: prev in c.books ==> prev.id != b.id
  {
    if !AuthorExists(c, authorId) then Err("FOREIGN KEY constraint failed")
    else Ok(c.(books := c.books + [Book(FreshKey(c.books, BookId), title, year, authorId)]))
  }

  /** Adding a book whose author exists and whose title fits its column keeps
      the catalog valid. */
  lemma AddBookPreservesValid(c: Catalog, title: string, year: int, authorId: nat)
    requires Valid(c) && AuthorExists(c, authorId) && |title| <= MaxLength
    ensures Valid(AddBook(c, title, year, authorId).value)
  {
    var r := AddBook(c, title, year, authorId).value;
    assert forall b :: b in r.books ==> b in c.books || b == r.books[|c.books|];
  }

  /** `book.save()` on the row at position `i`: the row is replaced in place. */
  function ReplaceBook(c: Catalog, i: nat, b: Book): (r: Catalog)
    requires i < |c.books|
    ensures r.authors == c.authors && |r.books| == |c.books|
    ensures r.books[i] == b
    ensures forall j :: 0 <= j < |c.books| && j != i ==> r.books[j] == c.books[j]
  {
    c.(books := c.books[i := b])
  }

  /** Saving a row under its own key, with a stored author and a fitting
      title, keeps the catalog valid. */
  lemma ReplaceBookPreservesValid(c: Catalog, i: nat, b: Book)
    requires Valid(c) && i < |c.books|
    requires b.id == c.books[i].id && AuthorExists(c, b.author) && |b.title| <= MaxLength
    ensures Valid(ReplaceBook(c, i, b))
  {
    var r := ReplaceBook(c, i, b);
    forall j, k | 0 <= j < k < |r.books|
      ensures BookId(r.books[j]) != BookId(r.books[k])
    {
      assert BookId(c.books[j]) != BookId(c.books[k]);
    }
    forall x | x in r.books
      ensures AuthorExists(r, x.author) && |x.title| <= MaxLength
    {
      var j :| 0 <= j < |r.books| && r.books[j] == x;
      if j != i {
        assert c.books[j] in c.books;
      }
    }
  }

  /** `book.delete()` on the row at position `i`. */
  function RemoveBook(c: Catalog, i: nat): (r: Catalog)
    requires i < |c.books|
    ensures r.authors == c.authors
    ensures multiset(r.books) + multiset{c.books[i]} == multiset(c.books)
  {
    c.(books := RemoveAt(c.books, i))
  }

  /** Removing a book keeps the catalog valid. */
  lemma RemoveBookPreservesValid(c: Catalog, i: nat)
    requires Valid(c) && i < |c.books|
    ensures Valid(RemoveBook(c, i))
  {
    var r := RemoveBook(c, i);
    assert r.books == RemoveAt(c.books, i);
    forall j, k | 0 <= j < k < |r.books|
      ensures BookId(r.books[j]) != BookId(r.books[k])
    {
      var j' := if j < i then j else j + 1;
      var k' := if k < i then k else k + 1;
      assert BookId(c.books[j']) != BookId(c.books[k']);
    }
    forall x | x in r.books
      ensures x in c.books
    {
      assert x in multiset(r.books);
    }
  }

  /** `str(author)`: the author's name. */
  function AuthorStr(a: Author): (r: string)
    ensures r == a.name[..]
  {
    a.name
  }

  /** `str(book)`: `"<title> (<year>)"`. */
  function BookStr(b: Book): (r: string)
    ensures |r| >= |b.title| + 4
    ensures r[..|b.title|] == b.title
    ensures r[|b.title|..|b.title| + 2] == " ("
    ensures r[|r| - 1] == ')'
    ensures ParseInt(r[|b.title| + 2..|r| - 1]) == Some(b.publicationYear)
    ensures CanonicalDecimal(r[|b.title| + 2..|r| - 1])
  {
    var y := IntToDecimal(b.publicationYear);
    IntToDecimalRoundTrip(b.publicationYear);
    IntToDecimalCanonical(b.publicationYear);
    var r := b.title + " (" + y + ")";
    assert r[|b.title| + 2..|r| - 1] == y;
    r
  }
}
