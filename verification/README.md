# Django learning-lab apps: access rules, validation and queries in Dafny

This project models the decision logic of four small Django apps from the
`Alx_DjangoLearnLab` repository and proves properties of that model:

- **the blog** (`django_blog`): comment cleaning, author-only editing and
  deleting of posts and comments, author assignment on creation, the post
  search over title, content and tag names, and the newest-first post list;
- **the book API** (`advanced-api-project`, `advanced_api_project`): the
  `Author`/`Book` tables with their cascading foreign key, the
  `BookSerializer` field validation (including "publication year not in the
  future"), the nested `AuthorSerializer`, and the five generic views with
  their permission classes, filters, search and ordering;
- **the library apps** (`django-models` and `advanced_features_and_security`):
  the capability-gated function views that add, edit and delete books, the
  `bookshelf` list with its trimmed title search, the role predicates
  (`Admin`/`Librarian`/`Member`) that gate the dashboards, the shadowed
  `librarian_view`, and the sample lookups in `query_samples.py`.

Every view is a pure function from the stored tables, the requesting user,
the request method and the submitted fields to a response and the tables the
request leaves behind. The database is a set of `seq`s of rows; the current
year and the clock are parameters.

Modules, one per file:

| file | module | what it holds |
|---|---|---|
| wrappers.dfy | Wrappers | `Option`, `Result`, and `Field` (a submitted value: not sent, empty, a number, or other text) |
| text.dfy | Text | Python `str.strip`, ASCII lower-casing and `icontains`, decimal formatting and parsing, code-point string order |
| seqs.dfy | Seqs | filtering, `.distinct()`, key lookup, row removal, fresh keys, an insertion sort |
| auth.dfy | Auth | the requesting user and `has_perm` of the model backend |
| web.dfy | Web | server-rendered responses, class-based view method routing, `permission_required`, `user_passes_test`, the owner-only mixins |
| fields.dfy | Fields | the checks of Django's form `CharField`: strip, required, maximum length, no NUL character |
| roles.dfy | Roles | `is_admin` / `is_librarian` / `is_member` and the dashboards |
| librarian_view.dfy | LibrarianPage | the two `librarian_view` definitions |
| blog.dfy | Blog | the blog views |
| catalog.dfy | Catalog | the API's `Author` and `Book` tables |
| book_serializers.dfy | BookSerializers | `BookSerializer` and `AuthorSerializer` |
| book_api.dfy | BookApi | the API's generic views |
| shelf.dfy | Shelf | the book table the library function views use |
| library_views.dfy | LibraryViews | the hardened `relationship_app` book views (403 on refusal) |
| bookshelf.dfy | Bookshelf | the `bookshelf` views |
| relationship_views.dfy | RelationshipViews | the `django-models` `relationship_app` book views (login redirect on refusal) |
| query_samples.dfy | QuerySamples | the sample lookups |

## Model

| member | source | states |
|---|---|---|
| Text.Strip | django_blog/blog/views.py:194 | the result is the input with only whitespace removed, and only from the two ends; no whitespace is left at either end |
| Text.StripIdempotent | django_blog/blog/views.py:194 | stripping a stripped text changes nothing |
| Text.StripEmptyIff | advanced_features_and_security/LibraryProject/bookshelf/views.py:10-13 | the stripped text is empty exactly when the input is all whitespace, so an all-space query is no query |
| Text.ContainsIff | django_blog/blog/views.py:280-282 | the substring test holds exactly when the needle occurs at some position of the text |
| Text.IContainsSelf | django_blog/blog/views.py:280 | every text contains itself case-insensitively |
| Text.IntToDecimalRoundTrip | advanced_api_project/api/serializers.py:52 | the year written into a message reads back as the same integer, negative years included |
| Text.IntToDecimalCanonical | advanced_api_project/api/models.py:76 | an integer is written with no leading zero and zero never as "-0" |
| Text.StrLeTotal | advanced-api-project/api/views.py:64-65 | any two titles are ordered one way or the other |
| Text.StrLeTransitive | advanced-api-project/api/views.py:64-65 | title order is transitive |
| Text.StrLeAntisymmetric | advanced-api-project/api/views.py:64-65 | two titles ordered both ways are equal |
| Seqs.Dedup | django_blog/blog/views.py:283 | `.distinct()` keeps exactly the rows it was given, each once |
| Seqs.DedupOfRepeated | django_blog/blog/views.py:283 | `.distinct()` over rows that are all one row gives that row once |
| Seqs.SortBy | django_blog/blog/views.py:76 | sorting under a total preorder gives a sorted permutation of the rows |
| Seqs.IndexOf | advanced_features_and_security/LibraryProject/bookshelf/views.py:39 | the key lookup finds the first row with the key, and finds nothing exactly when no row has it |
| Seqs.RemoveAt | advanced_features_and_security/LibraryProject/bookshelf/views.py:51-53 | removing a row keeps every other row in order and the removed row is the only one lost |
| Fields.StripKeepsNull | django_blog/blog/views.py:170-177 | stripping neither adds nor removes a NUL character, so checking before or after the strip agrees |
| Fields.TextValidatorErrors | django_blog/blog/views.py:170-177 | the length and NUL validators report nothing exactly when the text fits and holds no NUL; the NUL message appears exactly when there is a NUL, and an over-long text leads with the length message |
| Fields.CleanCharField | django_blog/blog/views.py:170-177 | a required text field accepts exactly a value that is not all whitespace, fits once stripped and holds no NUL, and keeps the stripped text; an empty value gets only "This field is required."; any other refusal names the NUL character exactly when there is one |
| Fields.CleanCharFieldIdempotent | django_blog/blog/views.py:170-177 | submitting an accepted value's cleaned text again accepts it unchanged |
| Roles.RoleOf | advanced_features_and_security/LibraryProject/relationship_app/views.py:103-122 | a user without a profile has no role; a decoded role is the profile's stored text |
| Roles.HasRoleIffRoleOf | django-models/LibraryProject/relationship_app/views.py:56-71 | each role predicate holds exactly when the decoded role is that role |
| Roles.AtMostOneRole | django-models/LibraryProject/relationship_app/views.py:56-71 | no user passes two different role predicates |
| Roles.NoProfileNoRole | advanced_features_and_security/LibraryProject/relationship_app/views.py:103-122 | the anonymous user and a user without a profile pass none of the role predicates |
| Roles.RoleView | advanced_features_and_security/LibraryProject/relationship_app/views.py:107-127 | a dashboard renders exactly for a user whose role is the one it requires; everyone else is sent to the login page |
| LibrarianPage.ShadowedView | django-models/LibraryProject/relationship_app/librarian_view.py:6-11 | the decorated view greets exactly the librarians and sends everyone else to the login page |
| LibrarianPage.EffectiveView | django-models/LibraryProject/relationship_app/librarian_view.py:13-15 | the definition that wins renders `relationship_app/librarian_view.html` with every profile row |
| LibrarianPage.EffectiveViewIgnoresUser | django-models/LibraryProject/relationship_app/librarian_view.py:13-15 | the winning definition answers every user alike |
| LibrarianPage.RoleGateDropped | django-models/LibraryProject/relationship_app/librarian_view.py:9-15 | every user the decorated definition turns away, anonymous or signed in without the Librarian role, gets the profile page from the one that replaces it |
| Blog.CleanContent | django_blog/blog/views.py:190-199 | a comment is accepted exactly when its stripped text has at least five characters, and the stripped text is saved; an all-space text gets the "empty" message, any other refusal the "too short" one |
| Blog.CleanContentIdempotent | django_blog/blog/views.py:190-199 | cleaning an accepted comment's saved text again accepts it unchanged |
| Blog.CleanContentOfStripped | django_blog/blog/views.py:194-199 | on text without surrounding whitespace, `clean_content` accepts exactly from five characters on, keeps the text as it is, and otherwise says it is too short |
| Blog.CleanCommentForm | django_blog/blog/views.py:170-199 | the comment form accepts exactly a text whose stripped form has at least five characters and no NUL; what it saves is the stripped text, which `clean_content` alone would also accept; empty text gets the required-field message |
| Blog.CommentFormErrors | django_blog/blog/views.py:170-199 | a refused comment gets exactly one message: the required-field one, the NUL one, or the too-short one, and the NUL one exactly for a non-empty text holding a NUL |
| Blog.EmptyCommentPreempted | django_blog/blog/views.py:194-196 | on empty text `clean_content` would say "Comment cannot be empty.", but the form answers with the required-field message before it runs |
| Blog.EmptyCommentNeverShown | django_blog/blog/views.py:194-196 | the empty-comment message of `clean_content` is never among the form's errors |
| Blog.CleanPostForm | django_blog/blog/models.py:9-10 | a post form is valid exactly when the title is not all whitespace, fits 200 characters once stripped and holds no NUL, and the content is not all whitespace and holds no NUL; the saved texts are the stripped ones; a refusal carries messages |
| Blog.CreatePost | django_blog/blog/views.py:112-125 | anonymous: login; the store changes exactly on a signed-in submission of a valid form, by one post appended under an unused key with the requester as author, the cleaned title and content, the submitted tags and the clock reading; an invalid form is shown back with its errors; comments are untouched |
| Blog.CreateThenDeletePost | django_blog/blog/views.py:112-169 | the author deleting the post just created gives back the store as it was |
| Blog.DeleteAppended | django_blog/blog/views.py:156-169 | the author deleting a post appended under a fresh key gives back the store without it |
| Blog.UpdatePost | django_blog/blog/views.py:133-153 | anonymous: login; no such post: 404; not the author: 403; only the author changes the table; no post's key, author or creation time changes; the author's valid submission writes the cleaned title and content and the tags into the post with the key and leaves every other post alone; an invalid one is shown back with its errors |
| Blog.UpdatePostWrites | django_blog/blog/views.py:133-153 | with unique keys, the author's valid edit of the post at a position replaces exactly its title, content and tags, and every other post is kept |
| Blog.DeletePost | django_blog/blog/views.py:156-169 | the same gate as update; a successful delete removes exactly one post and leaves comments alone |
| Blog.PostGateIsOwnership | django_blog/blog/views.py:148-153 | with unique keys, a signed-in non-author is refused update and delete with 403 and nothing changes, while the author's valid edit and submitted delete go through |
| Blog.DeletePostRemoves | django_blog/blog/views.py:156-169 | after the author's delete no stored post keeps that key |
| Blog.CreateComment | django_blog/blog/views.py:201-210 | the store changes exactly on a signed-in submission of a valid comment for a stored post, by one comment appended under an unused key with the requester as author, that post, and the cleaned text; a refused text is shown back with its errors; an unknown post is 404 |
| Blog.UpdateComment | django_blog/blog/views.py:217-224 | only the comment's author changes it; key, author and post of every comment are kept; the author's valid submission writes the cleaned text into the comment with the key and leaves every other comment alone; an invalid one is shown back with its errors |
| Blog.UpdateCommentWrites | django_blog/blog/views.py:217-224 | with unique keys, the author's valid edit of the comment at a position replaces exactly its text, and every other comment is kept |
| Blog.DeleteComment | django_blog/blog/views.py:230-236 | only the comment's author can remove it; posts are untouched; the author's submitted delete removes the comment with the key and nothing else |
| Blog.DeleteCommentRemoves | django_blog/blog/views.py:230-236 | after the author's delete no comment keeps the key, and every other comment is still stored |
| Blog.CommentGateIsOwnership | django_blog/blog/views.py:222-236 | with unique keys, a signed-in non-author is refused update and delete of a comment with 403 and nothing changes, while the author's valid edit and submitted delete go through |
| Blog.TagRows | django_blog/blog/views.py:279-282 | the joined rows of one post with its tags are non-empty exactly when the title, the content or one of the tags matches |
| Blog.PostRows | django_blog/blog/views.py:279-282 | a post yields joined rows exactly when it matches the search expression |
| Blog.JoinRows | django_blog/blog/views.py:279-282 | the rows of the filtered join are exactly the stored posts matching in title, content or a tag name |
| Blog.SearchPosts | django_blog/blog/views.py:276-284 | a missing or empty query lists every post; any other lists, each once, exactly the posts matching it |
| Blog.SearchResultsAreDistinctStorePosts | django_blog/blog/views.py:283 | search results are stored posts and never repeat one |
| Blog.SearchByTagOnce | django_blog/blog/views.py:282-283 | a post matching through two tags is listed once |
| Blog.ListPosts | django_blog/blog/views.py:76 | the list is a permutation of the stored posts with creation times non-increasing |
| Catalog.ExactlyOneAuthor | advanced_api_project/api/models.py:64-69 | in a valid catalog every book refers to exactly one stored author |
| Catalog.BooksOf | advanced_api_project/api/models.py:67 | an author's books are exactly the stored books referring to that author |
| Catalog.BooksOfPartition | advanced_api_project/api/models.py:64-69 | each book is listed under its own author and under no other |
| Catalog.DeleteAuthor | advanced_api_project/api/models.py:64-69 | deleting an author removes that author and every book of theirs and nothing else; other authors keep exactly their books |
| Catalog.DeleteAuthorPreservesValid | advanced_api_project/api/models.py:64-69 | the cascade never leaves a book without its author and keeps keys unique |
| Catalog.AddBook | advanced_api_project/api/models.py:57-69 | a row is refused exactly when its author key is dangling; an accepted row is appended with the given fields under an unused key |
| Catalog.AddBookPreservesValid | advanced_api_project/api/models.py:57-69 | an accepted insertion keeps the catalog valid |
| Catalog.ReplaceBook | advanced_api_project/api/models.py:57-69 | saving a row changes that row only |
| Catalog.ReplaceBookPreservesValid | advanced_api_project/api/models.py:57-69 | saving a row under its own key with a stored author and a fitting title keeps the catalog valid |
| Catalog.RemoveBook | advanced_api_project/api/models.py:43-69 | deleting a row loses that row and no other; authors are untouched |
| Catalog.RemoveBookPreservesValid | advanced_api_project/api/models.py:43-69 | deleting a book keeps the catalog valid |
| Catalog.AuthorStr | advanced_api_project/api/models.py:35-40 | an author reads as its name |
| Catalog.BookStr | advanced_api_project/api/models.py:71-76 | a book reads as its title, a space and an opening parenthesis, the year as `str()` writes it (parsing back to the stored year, no leading zero, no "-0"), and a closing parenthesis |
| BookSerializers.ValidatePublicationYear | advanced_api_project/api/serializers.py:36-54 | a year is accepted exactly when it is not after the current year, and comes back unchanged; the refusal message starts with the fixed sentence, ends with a full stop and names the current year |
| BookSerializers.PublicationYearBoundary | advanced_api_project/api/serializers.py:49-53 | the current year passes and the next one fails |
| BookSerializers.NoLowerBound | advanced_api_project/api/serializers.py:49-54 | year 0 and earlier years are accepted as given |
| BookSerializers.TitleValidatorErrors | advanced_api_project/api/models.py:57-60 | the length and NUL validators report nothing exactly when the text fits 255 characters and holds no NUL, name the length exactly when it is too long and the NUL exactly when there is one |
| BookSerializers.ValidateTitle | advanced_api_project/api/models.py:57-60 | a title is accepted exactly when it is not all whitespace, its stripped form fits 255 characters and it holds no NUL; the stripped form is kept; a blank title gets only the blank message, any other refusal the validators' messages |
| BookSerializers.ValidateTitleIdempotent | advanced_api_project/api/models.py:57-60 | an accepted title's stored form is accepted again unchanged |
| BookSerializers.NullTitleRefused | advanced_api_project/api/models.py:57-60 | a title that fits but holds a NUL is refused with exactly the NUL message |
| BookSerializers.InvalidPkMessage | advanced_api_project/api/models.py:64-69 | the unknown-key message is `Invalid pk "…" - object does not exist.` with the submitted key quoted in canonical decimal, reading back as the key sent and starting with a minus sign exactly when the key is negative |
| BookSerializers.ValidateAuthor | advanced_api_project/api/models.py:64-69 | any submitted integer, negative ones included, is accepted as the author exactly when it is the key of a stored author; otherwise the message quotes the key as sent |
| BookSerializers.MissingField | advanced_api_project/api/serializers.py:32-34 | a field not sent is "required" unless the update is partial, in which case it is left out |
| BookSerializers.TitleField | advanced_api_project/api/serializers.py:32-34 | the title field passes exactly when sent and valid, or not sent on a partial update |
| BookSerializers.YearField | advanced_api_project/api/serializers.py:36-54 | the year field passes exactly when sent and not in the future, or not sent on a partial update |
| BookSerializers.AuthorField | advanced_api_project/api/serializers.py:32-34 | the author field passes exactly when the integer sent is a stored author's key (so never when it is negative), or when it is not sent on a partial update |
| BookSerializers.ValidateBook | advanced_api_project/api/serializers.py:23-54 | a submission is valid exactly when every field passes; valid data keeps year and author and holds the stripped title; an invalid one carries an error on exactly the fields that fail |
| BookSerializers.ValidateBookFutureYear | advanced-api-project/api/test_views.py:130-137 | a full submission for this year is valid; one year later only the year is refused, with the message naming the current year |
| BookSerializers.NegativeAuthorRefused | advanced_api_project/api/models.py:64-69 | a full submission whose only fault is a negative author key is refused on the author alone, the message quoting the key with its minus sign |
| BookSerializers.SerializeAuthor | advanced_api_project/api/serializers.py:57-73 | an author is shown with its key, its name and exactly its stored books |
| BookSerializers.SerializeAuthorAfterDelete | advanced_api_project/api/serializers.py:69 | deleting one author leaves how every other author is shown unchanged |
| BookApi.Gate | advanced-api-project/api/views.py:52-139 | a request reaches the handler exactly when the permission class admits it and the view serves the method; a refused anonymous caller is "not authenticated", a refused signed-in one "permission denied", and an admitted one with an unserved method gets 405 |
| BookApi.AdminOrReadOnlyIsStricter | advanced-api-project/api/views.py:127-139 | `IsAdminOrReadOnly` admits nobody `IsAuthenticatedOrReadOnly` refuses, and refuses a signed-in non-staff user every unsafe method |
| BookApi.AuthorName | advanced_api_project/api/models.py:30-33 | an author name is found exactly when the author is stored |
| BookApi.BaseRows | advanced-api-project/api/views.py:67-76 | a sent year and a sent author each narrow the rows to those that match |
| BookApi.FilterRows | advanced-api-project/api/views.py:55-76 | the filtered rows are exactly the stored books meeting every sent filter and every search term, none more often than it is stored |
| BookApi.TitleRows | advanced-api-project/api/views.py:55-58 | the title filter keeps exactly the rows whose title equals the trimmed non-blank text, and keeps every row when the text is blank |
| BookApi.SearchRows | advanced-api-project/api/views.py:60-61 | the search filter keeps exactly the rows that match every term in the title or the author's name, each row at most as often as before |
| BookApi.NoFilters | advanced-api-project/api/views.py:67-76 | with a blank or missing title, an author and a year each left out of the query string or sent empty, and no search term, the filters keep every stored book, in stored order |
| BookApi.OrderKeyOf | advanced-api-project/api/views.py:64-65 | the four accepted ordering terms name their keys |
| BookApi.ParseOrdering | advanced-api-project/api/views.py:65 | with no ordering term the list is by title |
| BookApi.ComparatorIsTotalPreorder | advanced-api-project/api/views.py:64 | every ordering key compares books by a total preorder |
| BookApi.OrderRows | advanced-api-project/api/views.py:55-65 | ordering returns a sorted permutation of the rows |
| BookApi.FilterFormErrors | advanced-api-project/api/views.py:55-58 | the filter set's form refuses the title exactly when it holds a NUL character and the author exactly when its key (negative keys included) names no stored author, listing the title first |
| BookApi.ListRows | advanced-api-project/api/views.py:50-76 | the list fails exactly when the year or author value is not a number (a server error) or the filter set's form refuses a parameter (a filter error naming every refused parameter); otherwise it holds exactly the selected books, none more often than stored, sorted by the requested key |
| BookApi.ListView | advanced-api-project/api/views.py:25-76 | nothing changes; a GET or HEAD answers with exactly the list's rows or its refusal, a title holding NUL and an unknown author key included |
| BookApi.FilterFormRefusal | advanced-api-project/api/views.py:55-58 | once the year and author are numbers, the list answers 400 exactly when the title holds NUL or the author key names no author, naming each refused parameter; a negative author key is refused, not a server error |
| BookApi.NullTitleExample | advanced-api-project/api/views.py:55-58 | `?title=a%00b` alone gets 400 with only the title's "Null characters are not allowed." |
| BookApi.ListViewIgnoresUser | advanced-api-project/api/views.py:52-53 | anyone may list: every user gets the same answer |
| BookApi.MalformedFilterIsServerError | advanced-api-project/api/views.py:67-76 | a year or author value that is not a number is a server error, whatever else is sent |
| BookApi.UnfilteredListIsEveryBook | advanced-api-project/api/test_views.py:43-48 | with no query string, and equally with the title, author and year sent empty, every stored book is listed once, by title |
| BookApi.YearAndAuthorFilter | advanced-api-project/api/test_views.py:89-101 | the year and author filters together list exactly the books of that year by that author |
| BookApi.ParseOrderingTitle | advanced-api-project/api/test_views.py:110-116 | the term `title` selects ascending title order |
| BookApi.ParseOrderingYearDesc | advanced-api-project/api/test_views.py:118-124 | the term `-publication_year` selects descending year order |
| BookApi.OrderingParameters | advanced-api-project/api/test_views.py:110-124 | `ordering=title` lists titles in non-decreasing order and `ordering=-publication_year` lists years in non-increasing order |
| BookApi.DetailView | advanced-api-project/api/views.py:79-83 | anyone reads a stored book by key; a key no book carries is 404; nothing changes |
| BookApi.CreateView | advanced-api-project/api/views.py:86-104 | a signed-in user's POST of valid data is created, and only that adds a book, exactly the validated one, appended; invalid data is answered with its field errors; the view's own year check never fires |
| BookApi.CreateViewPreservesValid | advanced-api-project/api/views.py:86-104 | creating keeps the catalog valid |
| BookApi.CreatePastOrPresentYear | advanced-api-project/api/test_views.py:57-62 | a book with a fitting title, a stored author and a year not after the current one is created with the trimmed title, that year and that author, appended to the table |
| BookApi.CreateNextYearRefused | advanced-api-project/api/test_views.py:129-137 | a book dated next year is refused with the field message and nothing is saved |
| BookApi.CreateNegativeAuthorRefused | advanced_api_project/api/models.py:64-69 | a POST naming a negative author key is answered 400 on the author field alone and nothing is saved |
| BookApi.ApplyUpdate | advanced-api-project/api/views.py:107-125 | each field sent replaces the stored one and every other field and the key are kept |
| BookApi.UpdateView | advanced-api-project/api/views.py:107-125 | a signed-in user's valid PUT or PATCH of a stored key is updated, and only such a request changes the catalog, and only that row; invalid data is answered with its errors; a missing key is 404; the view's own year check never fires |
| BookApi.UpdateViewPreservesValid | advanced-api-project/api/views.py:107-125 | updating keeps the catalog valid |
| BookApi.PatchWithoutYear | advanced-api-project/api/views.py:121-125 | a PATCH that leaves the year out succeeds and keeps the stored year and author |
| BookApi.PutReplacesBook | advanced-api-project/api/test_views.py:64-70 | a PUT of a stored key with valid values replaces that row in place with exactly the sent values, the title trimmed |
| BookApi.DeleteWith | advanced-api-project/api/views.py:127-139 | under a permission class, a refused caller changes nothing; a delete happens exactly when an admitted DELETE names a stored book, and removes only that book; an admitted DELETE of a missing key is 404 |
| BookApi.DeleteView | advanced-api-project/api/views.py:135-139 | the delete view admits whatever `IsAuthenticatedOrReadOnly` admits |
| BookApi.DeleteAdmitsNonStaff | advanced-api-project/api/test_views.py:72-78 | as declared, a signed-in non-staff user deletes a stored book |
| BookApi.AdminOrReadOnlyMeetsDeleteTest | advanced-api-project/api/test_views.py:72-83 | under `IsAdminOrReadOnly` the non-staff user is refused with nothing changed and the staff user deletes |
| BookApi.DeleteViewPreservesValid | advanced-api-project/api/views.py:135-139 | deleting keeps the catalog valid |
| Shelf.FindBook | advanced_features_and_security/LibraryProject/relationship_app/views.py:43 | the lookup finds a row with the key, and finds nothing exactly when no row has it |
| Shelf.InsertBook | advanced_features_and_security/LibraryProject/relationship_app/views.py:26-30 | a new row with the submitted fields is appended under a key no row uses |
| Shelf.InsertThenRemove | advanced_features_and_security/LibraryProject/relationship_app/views.py:26-30 | the new row is found under its key, and removing it gives back the table as it was |
| LibraryViews.SubmittedYear | advanced_features_and_security/LibraryProject/relationship_app/views.py:29 | a year is stored exactly when a number was sent; an empty or missing year is stored as none; text that is not a number fails |
| LibraryViews.AddBook | advanced_features_and_security/LibraryProject/relationship_app/views.py:18-32 | without the capability: 403; the table changes exactly on a POST with a non-empty title and author and a year that is a number or absent, and then by one new row; a year that is not a number is a server error with nothing saved |
| LibraryViews.CreateBook | advanced_features_and_security/LibraryProject/relationship_app/views.py:36-37 | the alias behaves exactly as `add_book`, gate included |
| LibraryViews.EditedBook | advanced_features_and_security/LibraryProject/relationship_app/views.py:45-47 | title and author are overwritten; the year only when one was sent, otherwise it is kept |
| LibraryViews.EditBook | advanced_features_and_security/LibraryProject/relationship_app/views.py:41-50 | without the capability: 403; missing key: 404; only a POST changes the table, and only the row with the key; a year that is not a number is a server error with nothing saved |
| LibraryViews.UpdateBook | advanced_features_and_security/LibraryProject/relationship_app/views.py:54-55 | the alias behaves exactly as `edit_book`, gate included |
| LibraryViews.DeleteBook | advanced_features_and_security/LibraryProject/relationship_app/views.py:59-63 | without the capability: 403; missing key: 404; any request method removes the row |
| LibraryViews.EditWithStoredValuesIsNoOp | advanced_features_and_security/LibraryProject/relationship_app/views.py:45-48 | resubmitting a book's own title and author with a blank year leaves the table as it was |
| LibraryViews.AddThenDelete | advanced_features_and_security/LibraryProject/relationship_app/views.py:18-63 | deleting the book just added restores the table |
| Bookshelf.Matching | advanced_features_and_security/LibraryProject/bookshelf/views.py:13-16 | the empty query selects every book; any other selects exactly the books whose title contains it, case-insensitively; nothing is added |
| Bookshelf.ListBooks | advanced_features_and_security/LibraryProject/bookshelf/views.py:7-22 | without the capability: 403 and no books; otherwise the book list page echoing the trimmed query, with the books that query selects |
| Bookshelf.ListBooksSelects | advanced_features_and_security/LibraryProject/bookshelf/views.py:10-16 | a missing or all-whitespace query lists every book; any other lists exactly the books whose title contains the trimmed query |
| Bookshelf.BlankQueryIsNoQuery | advanced_features_and_security/LibraryProject/bookshelf/views.py:10-16 | a query of spaces lists exactly what no query lists |
| Bookshelf.PaddedQuery | advanced_features_and_security/LibraryProject/bookshelf/views.py:10 | surrounding whitespace does not change the search |
| Bookshelf.StoredYear | advanced_features_and_security/LibraryProject/bookshelf/views.py:31-32 | an empty year or one that is not a number fails to store; a year not sent is stored as none |
| Bookshelf.CreateBook | advanced_features_and_security/LibraryProject/bookshelf/views.py:26-34 | without the capability: 403; a POST adds a row from the submitted values unless the year is empty or not a number, which fails with a server error and saves nothing |
| Bookshelf.EditBook | advanced_features_and_security/LibraryProject/bookshelf/views.py:37-46 | without the capability: 403; missing key: 404; a POST overwrites title, author and year with what was sent |
| Bookshelf.DeleteBook | advanced_features_and_security/LibraryProject/bookshelf/views.py:49-55 | only a POST removes the row; any other method shows the confirmation page and changes nothing |
| Bookshelf.EditWithoutYearClearsIt | advanced_features_and_security/LibraryProject/bookshelf/views.py:43 | an edit that leaves the year out clears a stored year |
| RelationshipViews.AddBook | django-models/LibraryProject/relationship_app/views.py:78-86 | without the capability: login page; the table changes exactly on a POST with a non-empty title and author, by one new row with no year |
| RelationshipViews.CreateBook | django-models/LibraryProject/relationship_app/views.py:90-91 | the alias behaves exactly as `add_book` |
| RelationshipViews.EditBook | django-models/LibraryProject/relationship_app/views.py:95-103 | without the capability: login page; missing key: 404; a POST overwrites title and author of that row and keeps its year |
| RelationshipViews.UpdateBook | django-models/LibraryProject/relationship_app/views.py:106-107 | the alias behaves exactly as `edit_book` |
| RelationshipViews.DeleteBook | django-models/LibraryProject/relationship_app/views.py:110-114 | without the capability: login page; missing key: 404; any method removes the row |
| RelationshipViews.GateStylesDiffer | django-models/LibraryProject/relationship_app/views.py:110 | the same unprivileged delete is sent to log in here and refused with 403 by the hardened app; neither changes anything |
| RelationshipViews.SuperuserPasses | django-models/LibraryProject/relationship_app/views.py:78-114 | an active superuser is never sent to log in by the capability gates |
| RelationshipViews.FirstListBooks | django-models/LibraryProject/relationship_app/views.py:16-22 | the first listing renders every book with the `list_books` template |
| RelationshipViews.ListBooks | django-models/LibraryProject/relationship_app/views.py:117-119 | the listing that wins renders every book with the `book_list` template |
| RelationshipViews.ListBooksRebinding | django-models/LibraryProject/relationship_app/views.py:20-22 | rebinding the name changes the template and not the books |
| QuerySamples.GetByName | django-models/LibraryProject/relationship_app/query_samples.py:7 | a name lookup finds nothing exactly when no row has the name, the one row when one has it, and fails exactly when several have it |
| QuerySamples.BooksByAuthor | django-models/LibraryProject/relationship_app/query_samples.py:4-11 | an unknown author gives no books; otherwise exactly the books of the author with that name; duplicate names fail |
| QuerySamples.BooksInLibrary | django-models/LibraryProject/relationship_app/query_samples.py:14-20 | an unknown library gives no books; otherwise exactly the books the named library holds; duplicate names fail |
| QuerySamples.LibrarianOf | django-models/LibraryProject/relationship_app/query_samples.py:27-29 | a library has no librarian exactly when no librarian is attached to it |
| QuerySamples.LibrarianForLibrary | django-models/LibraryProject/relationship_app/query_samples.py:23-29 | an unknown library gives none; a found librarian runs the named library; none means that library has no librarian |
| QuerySamples.AtMostOneNamed | django-models/LibraryProject/relationship_app/query_samples.py:7 | when no two rows share a name the lookup sees at most one row |
| QuerySamples.UniqueNamesNeverFail | django-models/LibraryProject/relationship_app/query_samples.py:4-29 | with unique names none of the three lookups fails |

## Where the code and its tests disagree

The model follows the code:

- The API's delete view declares `IsAuthenticatedOrReadOnly`
  (`advanced-api-project/api/views.py:139`), so any signed-in user may
  delete. Its test (`advanced-api-project/api/test_views.py:72-83`) expects
  403 for a signed-in user without staff status and 204 for an admin.
  `DeleteView` is the code as declared. `DeleteWith` takes the permission
  class as a parameter. `DeleteAdmitsNonStaff` and
  `AdminOrReadOnlyMeetsDeleteTest` show the gap.

## Assumptions about the blog

As written, the blog's views module does not import. It imports `Comment`
from the blog's `models.py` (`django_blog/blog/views.py:14`), and
`PostForm` and `CommentForm` from its `forms.py`
(`django_blog/blog/views.py:16`). Neither file defines them. The model
takes the module as its authors evidently meant it:

- `CommentForm` is the form of that name defined in the views module
  (`django_blog/blog/views.py:170-199`). `Comment.content` is a text column
  with Django's defaults, so the form field is a required `CharField`. It
  strips the text, refuses empty text and NUL characters, and only then
  does `clean_content` run.
- `PostForm` is a `ModelForm` over `Post` with `title` and `content`. Both
  are required. The title fits `max_length=200` (`django_blog/blog/models.py:9-10`).
- `tags` is a tag field, as the views use it. Its values are passed through
  as submitted.
- A comment belongs to one post and one author.

The blog's `urls.py` (`django_blog/blog/urls.py:14-55`) routes only the post,
login, logout, register and profile views. It routes no comment, search or
tag view. Yet the comment tests reverse `comment_create`, `comment_update` and
`comment_delete` (`django_blog/blog/tests/test_comments.py:29-80`), and the
search tests run the same lookups on the posts directly
(`django_blog/blog/tests/test_search.py:33-40`). The comment, search and tag
views are modelled as the tests use them: each is reached with its keys, as
if it were routed.

## Left out

- Templates, rendering context beyond the listed rows, flash messages, URL routing, `admin.py`, `settings.py` and form field lists: configuration, not logic; a response is its template name or route name.
- Registration, login and profile views (django_blog/blog/views.py:32-66 and `register`/`login` in both `relationship_app/views.py`): they only hand over to Django's own auth forms.
- Session and token authentication: the requesting user is an input. The API's "not authenticated" answer stands for both 401 and 403, because which one is sent depends on the authentication class.
- `icontains`, `SearchFilter` and string order: case is folded for ASCII letters only (no Unicode case folding). Titles order by code points, not by a database collation.
- DRF query tokenising: search terms arrive already split. An ordering value is one term, and several comma-separated terms are not modelled. JSON type errors and `null` fields in a submitted book are not modelled.
- `date.today()`: the current year is a parameter. A post's `created_at` is a `now` parameter.
- `Post.updated_at` (`auto_now=True`, `django_blog/blog/models.py:13`) is not modelled: no view orders or filters by it; it only records the time of the last save.
- The blog's missing model and form classes: they are modelled under the assumptions listed above, not as written. No cascade from post to comment is modelled, because no `Comment` model declares one.
- The post form's error messages: a refused post form carries the messages of its two fields, title first; the exact wording of Django's messages for them is not stated.
- `post_list` (django_blog/blog/views.py:53-55): it orders by a field that does not exist, so it would fail at run time.
- `PostByTagListView` (django_blog/blog/views.py:94-109): its failure on an unknown tag is not modelled.
- `PostDetailView` (django_blog/blog/views.py:79-92): it adds an empty form to a detail page.
- `home` (django_blog/blog/views.py:50-51): it only renders a template.
- `PostCreateView.test_func` (django_blog/blog/views.py:127-129): dead code, because the view has no `UserPassesTestMixin`.
- The `form.save()` after the comment block (advanced_features_and_security/LibraryProject/bookshelf/views.py:63): dead code.
- The API's `index` (advanced-api-project/api/views.py:12-14): it returns a fixed message.
- The hardened `relationship_app`'s `list_books`, `LibraryDetailView` and `index` (advanced_features_and_security/LibraryProject/relationship_app/views.py:12-14, 67-75, 131-132): they render every row or a fixed text.
- `LibraryDetailView` of `django-models`: likewise, it renders every row.
- `admin_view.py` and the `api_project` app: neither its app's routes nor any other code reaches them.
- The `__main__` block of `query_samples.py`: it only prints.
- The `bookshelf` and `relationship_app` models are not part of this model. Their column constraints are unknown, so title and author are stored as submitted: text or nothing.
- A year that is empty in the `bookshelf` views, or not a number in either app's form views, is a server error with nothing saved. This stands for the integer column's `ValueError`; its message is not modelled.
- Lookups leave the tables unchanged by construction, because every view returns the tables it leaves behind.
- BookApi.OrderRows: orders by one key. The order among books with equal keys is left unstated, because the database may break such ties any way.
- NoLowerBound: states what `validate_publication_year` does. The integer range validators that the `IntegerField` takes from the database backend are not modelled. On a backend with a 32-bit column, a year below -2147483648 is refused by the field before this check runs.
- Catalog.WithinWidths: the 255-character bound on stored titles holds because the serializer refuses longer titles. The database does not enforce it: `objects.create` runs no validation, and SQLite does not enforce `max_length`. So `Catalog.AddBook` accepts any title, and the lemmas that keep the catalog valid ask for a fitting title.
- RelationshipViews.AddBook and RelationshipViews.EditBook store the posted author as text. The `django-models` `relationship_app/models.py` is not part of this model. `query_samples.py:7-8` reads `Book.author` as a key to an `Author` row. Under that reading, the views' `create(author=author)` and `book.author = author` (`django-models/LibraryProject/relationship_app/views.py:84`, `:99`) raise `ValueError` on a text value: a server error with nothing saved. The views' reading is followed here. `QuerySamples` follows the foreign-key reading.
