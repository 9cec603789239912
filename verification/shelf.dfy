/** The book table the library apps' function views read and write, and the
    form fields those views take from a POST. Titles and authors are the
    submitted text (`None` when the key was not sent); the year is stored as
    a number or not at all. */
module Shelf {
  import opened Wrappers
  import opened Seqs

  datatype ShelfBook = ShelfBook(id: nat, title: Option<string>, author: Option<string>, year: Option<int>)

  function ShelfId(b: ShelfBook): nat {
    b.id
  }

  /** `request.POST.get(...)` for the book form's fields. */
  datatype BookForm = BookForm(title: Option<string>, author: Option<string>, year: Field<int>)

  /** Python truthiness of a submitted text field: sent and not empty. */
  predicate Truthy(v: Option<string>) {
    v.Some? && v.value != []
  }

  /** `get_object_or_404(Book, id=...)`: the position of the row with that key. */
  function FindBook(s: seq<ShelfBook>, id: nat): (r: Option<nat>)
    ensures r.Some? ==> r.value < |s| && s[r.value].id == id
    ensures r.None? <==> forall b :: b in s ==> b.id != id
  {
    var r := IndexOf(s, ShelfId, id);
    assert r.None? ==> forall b :: b in s ==> b.id != id by {
      if r.None? {
        forall b | b in s
          ensures b.id != id
        {
          var k :| 0 <= k < |s| && s[k] == b;
          assert ShelfId(s[k]) != id;
        }
      }
    }
    r
  }

  /** `Book.objects.create(...)`: a new row under a key no row uses. */
  function InsertBook(s: seq<ShelfBook>, title: Option<string>, author: Option<string>, year: Option<int>): (r: seq<ShelfBook>)
    ensures |r| == |s| + 1 && r[..|s|] == s
    ensures r[|s|].title == title && r[|s|].author == author && r[|s|].year == year
    ensures forall b :: b in s ==> b.id != r[|s|].id
  {
    s + [ShelfBook(FreshKey(s, ShelfId), title, author, year)]
  }

  /** Deleting the row just inserted gives back the table as it was. */
  lemma {:induction false} InsertThenRemove(s: seq<ShelfBook>, title: Option<string>, author: Option<string>, year: Option<int>)
    ensures var r := InsertBook(s, title, author, year);
      && FindBook(r, r[|s|].id) == Some(|s|)
      && RemoveAt(r, |s|) == s
  {
    var r := InsertBook(s, title, author, year);
    var i := IndexOf(r, ShelfId, r[|s|].id);
    assert forall j :: 0 <= j < |s| ==> ShelfId(r[j]) != r[|s|].id by {
      forall j | 0 <= j < |s|
        ensures ShelfId(r[j]) != r[|s|].id
      {
        assert r[j] == s[j];
        assert s[j] in s;
      }
    }
    assert RemoveAt(r, |s|) == r[..|s|];
  }
}
