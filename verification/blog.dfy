/** The decision and filtering logic of the blog app's views: comment
    cleaning, author-only editing of posts and comments, author assignment on
    creation, the post search and the newest-first post list. */
module Blog {
  import opened Wrappers
  import opened Text
  import opened Seqs
  import opened Auth
  import opened Web
  import opened Fields

  /** A blog post; `author` is the owning user's key, `tags` the names of its tags. */
  datatype Post = Post(id: nat, title: string, content: string, author: nat,
                       tags: seq<string>, createdAt: int)

  /** A comment on the post keyed `post`, written by the user keyed `author`. */
  datatype Comment = Comment(id: nat, post: nat, author: nat, content: string)

  datatype BlogStore = BlogStore(posts: seq<Post>, comments: seq<Comment>)

  function PostId(p: Post): nat {
    p.id
  }

  function CommentId(c: Comment): nat {
    c.id
  }

  /** Primary keys are unique, as the database guarantees. */
  predicate UniqueKeys(s: BlogStore) {
    && (forall i, j :: 0 <= i < j < |s.posts| ==> s.posts[i].id != s.posts[j].id)
    && (forall i, j :: 0 <= i < j < |s.comments| ==> s.comments[i].id != s.comments[j].id)
  }

  // ---------------------------------------------------------------------------
  // CommentForm: the content field, then clean_content
  // ---------------------------------------------------------------------------

  const EmptyComment := "Comment cannot be empty."
  const ShortComment := "Comment is too short. Please write at least 5 characters."
  const MinCommentLength := 5

  /** `clean_content`: the text (missing reads as ""), stripped, must keep at
      least five characters; the stripped text is what gets saved. */
  function CleanContent(content: Option<string>): (r: Result<string, string>)
    ensures r.Ok? <==> |Strip(content.GetOr(""))| >= MinCommentLength
    ensures r.Ok? ==> IsStripOf(content.GetOr(""), r.value)
    ensures r.Err? ==> (r.error == EmptyComment <==> AllSpace(content.GetOr("")))
    ensures r.Err? ==> r.error == EmptyComment || r.error == ShortComment
  {
    var c := Strip(content.GetOr(""));
    StripEmptyIff(content.GetOr(""));
    if c == [] then Err(EmptyComment)
    else if |c| < MinCommentLength then Err(ShortComment)
    else Ok(c)
  }

  /** Cleaning what cleaning produced changes nothing. */
  lemma {:induction false} CleanContentIdempotent(content: Option<string>)
    requires CleanContent(content).Ok?
    ensures CleanContent(Some(CleanContent(content).value)) == CleanContent(content)
  {
    StripOfTrimmed(CleanContent(content).value);
  }

  /** On text without surrounding whitespace, `clean_content` accepts exactly
      from five characters on and returns the text as it is; shorter text is
      refused as too short. */
  lemma {:induction false} CleanContentOfStripped(s: string)
    requires NoEdgeSpace(s) && s != []
    ensures CleanContent(Some(s)).Ok? <==> |s| >= MinCommentLength
    ensures CleanContent(Some(s)).Ok? ==> CleanContent(Some(s)).value == s
    ensures CleanContent(Some(s)).Err? ==> CleanContent(Some(s)).error == ShortComment
  {
    StripOfTrimmed(s);
    assert Some(s).GetOr("") == s;
  }

  /** The whole `CommentForm` check. `Comment` is taken to have a `content`
      text column with Django's defaults, so the form field is a required
      `CharField`: it strips, refuses empty text and NUL characters, and only
      then does `clean_content` run on what it produced. */
  function CleanCommentForm(content: Option<string>): (r: Result<string, seq<string>>)
    ensures r.Ok? <==> |Strip(content.GetOr(""))| >= MinCommentLength && !HasNullCharacter(content.GetOr(""))
    ensures r.Ok? ==> r.value == Strip(content.GetOr("")) && CleanContent(content) == Ok(r.value)
    ensures AllSpace(content.GetOr("")) ==> r == Err([RequiredMessage])
  {
    StripEmptyIff(content.GetOr(""));
    match CleanCharField(content, None)
    case Err(errors) =>
      Err(errors)
    case Ok(t) =>
      CleanContentOfStripped(t);
      match CleanContent(Some(t))
      case Err(e) => Err([e])
      case Ok(v) => Ok(v)
  }

  /** What the comment form reports: the required-field message on empty
      text, the NUL message on text holding a NUL character, and otherwise
      the short-comment message of `clean_content`; one message at a time. */
  lemma CommentFormErrors(content: Option<string>)
    ensures var r := CleanCommentForm(content);
      r.Err? && !AllSpace(content.GetOr("")) && HasNullCharacter(content.GetOr("")) ==> r == Err([NullCharactersMessage])
    ensures var r := CleanCommentForm(content);
      !AllSpace(content.GetOr("")) && !HasNullCharacter(content.GetOr("")) && r.Err? ==> r == Err([ShortComment])
    ensures var r := CleanCommentForm(content);
      r.Err? ==> r.error == [RequiredMessage] || r.error == [NullCharactersMessage] || r.error == [ShortComment]
  {
    var v := content.GetOr("");
    StripEmptyIff(v);
    var field := CleanCharField(content, None);
    if AllSpace(v) {
      assert CleanCommentForm(content) == Err([RequiredMessage]);
    } else if HasNullCharacter(v) {
      assert field == Err([NullCharactersMessage]);
      assert CleanCommentForm(content) == Err([NullCharactersMessage]);
    } else {
      var t := field.value;
      CleanContentOfStripped(t);
      if |t| < MinCommentLength {
        assert CleanContent(Some(t)) == Err(ShortComment);
        assert CleanCommentForm(content) == Err([ShortComment]);
      }
    }
  }

  /** The comment messages differ from the field messages. */
  lemma MessagesDistinct()
    ensures EmptyComment != RequiredMessage && EmptyComment != NullCharactersMessage && EmptyComment != ShortComment
  {
    assert |EmptyComment| != |RequiredMessage|;
    assert |EmptyComment| != |NullCharactersMessage|;
    assert |EmptyComment| != |ShortComment|;
  }

  /** On empty text `clean_content` would answer with its empty-comment
      message, but the required field refuses the text before it runs. */
  lemma EmptyCommentPreempted(content: Option<string>)
    requires AllSpace(content.GetOr(""))
    ensures CleanContent(content) == Err(EmptyComment)
    ensures CleanCommentForm(content) == Err([RequiredMessage])
  {
    StripEmptyIff(content.GetOr(""));
  }

  /** So the empty-comment message of `clean_content` never reaches the user. */
  lemma EmptyCommentNeverShown(content: Option<string>)
    ensures CleanCommentForm(content).Err? ==> EmptyComment !in CleanCommentForm(content).error
  {
    var r := CleanCommentForm(content);
    if r.Err? {
      CommentFormErrors(content);
      MessagesDistinct();
      NotInSingletons(r.error, EmptyComment, RequiredMessage, NullCharactersMessage, ShortComment);
    }
  }

  /** A message that differs from each of three others is not in a list
      holding just one of them. */
  lemma NotInSingletons(e: seq<string>, x: string, a: string, b: string, c: string)
    requires e == [a] || e == [b] || e == [c]
    requires x != a && x != b && x != c
    ensures x !in e
  {
  }

  // ---------------------------------------------------------------------------
  // Posts: create, update, delete
  // ---------------------------------------------------------------------------

  /** What the post form submits (`None` for a field not sent); a claimed
      author is never trusted. */
  datatype PostForm = PostForm(title: Option<string>, content: Option<string>, tags: seq<string>,
                               claimedAuthor: Option<nat>)

  /** `CharField(max_length=200)` on `Post.title`. */
  const TitleMaxLength := 200

  /** The cleaned title and content of a valid post form. */
  datatype PostText = PostText(title: string, content: string)

  /** `PostForm` as a model form over `Post`: the title is a required field of
      at most 200 characters, the content a required text field, both
      stripped and free of NUL characters. The messages of both fields are
      reported together, the title's first. */
  function CleanPostForm(form: PostForm): (r: Result<PostText, seq<string>>)
    ensures r.Ok? <==>
      && !AllSpace(form.title.GetOr("")) && |Strip(form.title.GetOr(""))| <= TitleMaxLength
      && !HasNullCharacter(form.title.GetOr(""))
      && !AllSpace(form.content.GetOr("")) && !HasNullCharacter(form.content.GetOr(""))
    ensures r.Ok? ==> r.value == PostText(Strip(form.title.GetOr("")), Strip(form.content.GetOr("")))
    ensures r.Err? ==> r.error != []
  {
    var title := CleanCharField(form.title, Some(TitleMaxLength));
    var content := CleanCharField(form.content, None);
    if title.Ok? && content.Ok? then Ok(PostText(title.value, content.value))
    else Err((if title.Err? then title.error else []) + (if content.Err? then content.error else []))
  }

  /** The author of the post `get_object()` finds for `pk`, if any. */
  function PostAuthor(s: BlogStore, pk: nat): Option<nat> {
    match IndexOf(s.posts, PostId, pk)
    case None => None
    case Some(i) => Some(s.posts[i].author)
  }

  /** `PostCreateView`: login required; a valid form becomes a new post whose
      author is the requester, stamped with the clock reading `now`. */
  function CreatePost(s: BlogStore, u: User, m: Method, form: PostForm, now: int): (r: Outcome<BlogStore>)
    ensures !u.Registered? ==> r == Outcome(LoginRedirect, s)
    ensures r.store.comments == s.comments
    ensures r.store != s <==> u.Registered? && FormViewHandler(m) == Submit && CleanPostForm(form).Ok?
    ensures r.store != s ==>
      && r.response == Redirect("post_detail")
      && |r.store.posts| == |s.posts| + 1
      && r.store.posts[..|s.posts|] == s.posts
      && var p := r.store.posts[|s.posts|];
         && IsUser(u, p.author)
         && p.title == CleanPostForm(form).value.title
         && p.content == CleanPostForm(form).value.content
         && p.tags == form.tags
         && p.createdAt == now
         && (forall q :: q in s.posts ==> q.id != p.id)
    ensures u.Registered? && FormViewHandler(m) == Submit && CleanPostForm(form).Err? ==>
      r == Outcome(FormErrors(CleanPostForm(form).error), s)
  {
    if !u.Registered? then Outcome(LoginRedirect, s)
    else
      match FormViewHandler(m)
      case Submit =>
        (match CleanPostForm(form)
         case Err(errors) => Outcome(FormErrors(errors), s)
         case Ok(text) =>
           var p := Post(FreshKey(s.posts, PostId), text.title, text.content, u.id, form.tags, now);
           Outcome(Redirect("post_detail"), s.(posts := s.posts + [p])))
      case h => Outcome(PassiveResponse(h, "blog/post_form.html"), s)
  }

  /** Deleting, as its author, a post that was appended under a fresh key
      gives back the store without it. */
  lemma {:induction false} DeleteAppended(s: BlogStore, u: User, d: Method, p: Post)
    requires u.Registered? && IsUser(u, p.author) && DeleteViewHandler(d) == Submit
    requires forall q :: q in s.posts ==> q.id != p.id
    ensures DeletePost(s.(posts := s.posts + [p]), u, d, p.id) == Outcome(Redirect("post_list"), s)
  {
    var posts := s.posts + [p];
    var n := |s.posts|;
    forall j | 0 <= j < n
      ensures PostId(posts[j]) != p.id
    {
      assert posts[j] == s.posts[j];
      assert s.posts[j] in s.posts;
    }
    assert PostId(posts[n]) == p.id;
    assert IndexOf(posts, PostId, p.id) == Some(n);
    assert RemoveAt(posts, n) == s.posts;
  }

  /** The author may delete the post just created, and that gives back the
      store as it was before the create. */
  lemma {:induction false} CreateThenDeletePost(s: BlogStore, u: User, m: Method, form: PostForm, now: int, d: Method)
    requires u.Registered? && FormViewHandler(m) == Submit && CleanPostForm(form).Ok?
    requires DeleteViewHandler(d) == Submit
    ensures var created := CreatePost(s, u, m, form, now).store;
      DeletePost(created, u, d, created.posts[|s.posts|].id) == Outcome(Redirect("post_list"), s)
  {
    var created := CreatePost(s, u, m, form, now).store;
    var p := created.posts[|s.posts|];
    assert created.posts == s.posts + [p] by {
      assert created.posts[..|s.posts|] == s.posts;
    }
    assert created == s.(posts := s.posts + [p]);
    DeleteAppended(s, u, d, p);
  }

  /** The store after the post at position `i` takes new text and tags and
      is credited to `author`; every other post and every comment stays. */
  function EditPostAt(s: BlogStore, i: nat, text: PostText, author: nat, tags: seq<string>): (r: BlogStore)
    requires i < |s.posts| && s.posts[i].author == author
    ensures r.comments == s.comments && |r.posts| == |s.posts|
    ensures r.posts[i] == s.posts[i].(title := text.title, content := text.content, author := author, tags := tags)
    ensures forall j :: 0 <= j < |s.posts| && j != i ==> r.posts[j] == s.posts[j]
    ensures forall j :: 0 <= j < |s.posts| ==>
      && r.posts[j].id == s.posts[j].id
      && r.posts[j].author == s.posts[j].author
      && r.posts[j].createdAt == s.posts[j].createdAt
  {
    s.(posts := s.posts[i := s.posts[i].(title := text.title, content := text.content, author := author, tags := tags)])
  }

  /** `PostUpdateView`: only the author of the stored post gets past the gate;
      a valid form then overwrites title, content and tags, and `form_valid`
      writes the requester in as author. */
  function UpdatePost(s: BlogStore, u: User, m: Method, pk: nat, form: PostForm): (r: Outcome<BlogStore>)
    ensures !u.Registered? ==> r == Outcome(LoginRedirect, s)
    ensures u.Registered? && PostAuthor(s, pk).None? ==> r == Outcome(NotFound, s)
    ensures u.Registered? && PostAuthor(s, pk).Some? && PostAuthor(s, pk).value != u.id ==> r == Outcome(Forbidden, s)
    ensures r.store != s ==> u.Registered? && PostAuthor(s, pk) == Some(u.id)
    ensures r.store.comments == s.comments && |r.store.posts| == |s.posts|
    ensures forall i :: 0 <= i < |s.posts| ==>
      && r.store.posts[i].id == s.posts[i].id
      && r.store.posts[i].author == s.posts[i].author
      && r.store.posts[i].createdAt == s.posts[i].createdAt
    ensures u.Registered? && PostAuthor(s, pk) == Some(u.id) && FormViewHandler(m) == Submit && CleanPostForm(form).Ok? ==>
      var i := IndexOf(s.posts, PostId, pk).value;
      && r.response == Redirect("post_detail")
      && r.store.posts[i].title == CleanPostForm(form).value.title
      && r.store.posts[i].content == CleanPostForm(form).value.content
      && r.store.posts[i].tags == form.tags
      && (forall j :: 0 <= j < |s.posts| && j != i ==> r.store.posts[j] == s.posts[j])
    ensures u.Registered? && PostAuthor(s, pk) == Some(u.id) && FormViewHandler(m) == Submit && CleanPostForm(form).Err? ==>
      r == Outcome(FormErrors(CleanPostForm(form).error), s)
  {
    var found := IndexOf(s.posts, PostId, pk);
    match OwnerOnly(u, PostAuthor(s, pk))
    case Some(denied) => Outcome(denied, s)
    case None =>
      match FormViewHandler(m)
      case Submit =>
        (match CleanPostForm(form)
         case Err(errors) => Outcome(FormErrors(errors), s)
         case Ok(text) =>
           Outcome(Redirect("post_detail"), EditPostAt(s, found.value, text, u.id, form.tags)))
      case h => Outcome(PassiveResponse(h, "blog/post_form.html"), s)
  }

  /** With unique keys, the author's valid edit of the post at position `i`
      writes the cleaned fields into that post and leaves every other post as
      it was. */
  lemma UpdatePostWrites(s: BlogStore, u: User, m: Method, pk: nat, form: PostForm, i: nat)
    requires UniqueKeys(s) && i < |s.posts| && s.posts[i].id == pk
    requires u.Registered? && s.posts[i].author == u.id
    requires FormViewHandler(m) == Submit && CleanPostForm(form).Ok?
    ensures var r := UpdatePost(s, u, m, pk, form);
      && r.response == Redirect("post_detail")
      && r.store.posts[i] == s.posts[i].(title := CleanPostForm(form).value.title,
                                         content := CleanPostForm(form).value.content, tags := form.tags)
      && (forall j :: 0 <= j < |s.posts| && j != i ==> r.store.posts[j] == s.posts[j])
  {
    IndexOfUnique(s.posts, PostId, pk, i);
    assert PostAuthor(s, pk) == Some(u.id);
    var text := CleanPostForm(form).value;
    var r := UpdatePost(s, u, m, pk, form);
    var q := r.store.posts[i];
    assert q.id == s.posts[i].id && q.author == s.posts[i].author && q.createdAt == s.posts[i].createdAt;
    assert q.title == text.title && q.content == text.content && q.tags == form.tags;
  }

  /** `PostDeleteView`: only the author of the stored post may remove it. */
  function DeletePost(s: BlogStore, u: User, m: Method, pk: nat): (r: Outcome<BlogStore>)
    ensures !u.Registered? ==> r == Outcome(LoginRedirect, s)
    ensures u.Registered? && PostAuthor(s, pk).None? ==> r == Outcome(NotFound, s)
    ensures u.Registered? && PostAuthor(s, pk).Some? && PostAuthor(s, pk).value != u.id ==> r == Outcome(Forbidden, s)
    ensures r.store != s ==> u.Registered? && PostAuthor(s, pk) == Some(u.id)
    ensures r.store.comments == s.comments
    ensures r.store != s ==> |r.store.posts| == |s.posts| - 1 && multiset(r.store.posts) <= multiset(s.posts)
  {
    var found := IndexOf(s.posts, PostId, pk);
    match OwnerOnly(u, PostAuthor(s, pk))
    case Some(denied) => Outcome(denied, s)
    case None =>
      match DeleteViewHandler(m)
      case Submit => Outcome(Redirect("post_list"), s.(posts := RemoveAt(s.posts, found.value)))
      case h => Outcome(PassiveResponse(h, "blog/post_confirm_delete.html"), s)
  }

  /** With unique keys the gate is exactly "the stored post's author is the requester":
      a signed-in non-author is refused and the post stays as it was. */
  lemma PostGateIsOwnership(s: BlogStore, u: User, m: Method, pk: nat, form: PostForm, p: Post)
    requires UniqueKeys(s) && p in s.posts && p.id == pk && u.Registered?
    ensures p.author != u.id ==> UpdatePost(s, u, m, pk, form) == Outcome(Forbidden, s)
    ensures p.author != u.id ==> DeletePost(s, u, m, pk) == Outcome(Forbidden, s)
    ensures p.author == u.id && FormViewHandler(m) == Submit && CleanPostForm(form).Ok? ==>
      UpdatePost(s, u, m, pk, form).response == Redirect("post_detail")
    ensures p.author == u.id && DeleteViewHandler(m) == Submit ==> DeletePost(s, u, m, pk).response == Redirect("post_list")
  {
    var j :| 0 <= j < |s.posts| && s.posts[j] == p;
    IndexOfUnique(s.posts, PostId, pk, j);
  }

  /** Only the author's submitted delete redirects to the list, and it drops the found row. */
  lemma DeletePostSubmitted(s: BlogStore, u: User, m: Method, pk: nat)
    requires DeletePost(s, u, m, pk).response == Redirect("post_list")
    ensures IndexOf(s.posts, PostId, pk).Some?
    ensures DeletePost(s, u, m, pk).store.posts == RemoveAt(s.posts, IndexOf(s.posts, PostId, pk).value)
  {
    assert OwnerOnly(u, PostAuthor(s, pk)).None?;
    assert DeleteViewHandler(m) == Submit;
  }

  /** A delete the author submits removes the post: no row keeps its key. */
  lemma {:induction false} DeletePostRemoves(s: BlogStore, u: User, m: Method, pk: nat)
    requires UniqueKeys(s)
    requires DeletePost(s, u, m, pk).response == Redirect("post_list")
    ensures forall q :: q in DeletePost(s, u, m, pk).store.posts ==> q.id != pk
  {
    DeletePostSubmitted(s, u, m, pk);
    var i := IndexOf(s.posts, PostId, pk).value;
    var r := DeletePost(s, u, m, pk).store.posts;
    forall q | q in r
      ensures q.id != pk
    {
      var k :| 0 <= k < |r| && r[k] == q;
      if k < i {
        assert r[k] == s.posts[k];
      } else {
        assert r[k] == s.posts[k + 1];
      }
    }
  }

  // ---------------------------------------------------------------------------
  // Comments: create, update, delete
  // ---------------------------------------------------------------------------

  function CommentAuthor(s: BlogStore, pk: nat): Option<nat> {
    match IndexOf(s.comments, CommentId, pk)
    case None => None
    case Some(i) => Some(s.comments[i].author)
  }

  /** `CommentCreateView`: login required; the cleaned text is saved on the post
      named in the URL, with the requester as author. A form error is reported
      before the post is looked up. */
  function CreateComment(s: BlogStore, u: User, m: Method, postId: nat, content: Option<string>): (r: Outcome<BlogStore>)
    ensures !u.Registered? ==> r == Outcome(LoginRedirect, s)
    ensures r.store.posts == s.posts
    ensures r.store != s <==>
      && u.Registered? && FormViewHandler(m) == Submit && CleanCommentForm(content).Ok?
      && IndexOf(s.posts, PostId, postId).Some?
    ensures r.store != s ==>
      && r.response == Redirect("post_detail")
      && |r.store.comments| == |s.comments| + 1
      && r.store.comments[..|s.comments|] == s.comments
      && var c := r.store.comments[|s.comments|];
         && IsUser(u, c.author)
         && c.post == postId
         && (exists p :: p in s.posts && p.id == postId)
         && CleanCommentForm(content) == Ok(c.content)
         && (forall prev :: prev in s.comments ==> prev.id != c.id)
    ensures FormViewHandler(m) == Submit && u.Registered? && CleanCommentForm(content).Err? ==>
      r == Outcome(FormErrors(CleanCommentForm(content).error), s)
    ensures FormViewHandler(m) == Submit && u.Registered? && CleanCommentForm(content).Ok? ==>
      IndexOf(s.posts, PostId, postId).None? ==> r == Outcome(NotFound, s)
  {
    if !u.Registered? then Outcome(LoginRedirect, s)
    else
      match FormViewHandler(m)
      case Submit =>
        (match CleanCommentForm(content)
         case Err(errors) => Outcome(FormErrors(errors), s)
         case Ok(text) =>
           match IndexOf(s.posts, PostId, postId)
           case None => Outcome(NotFound, s)
           case Some(_) =>
             var c := Comment(FreshKey(s.comments, CommentId), postId, u.id, text);
             Outcome(Redirect("post_detail"), s.(comments := s.comments + [c])))
      case h => Outcome(PassiveResponse(h, "blog/comment_form.html"), s)
  }

  /** The comment at position `i` with its text replaced; every other field of
      every comment is kept. */
  function SetContent(comments: seq<Comment>, i: nat, text: string): (r: seq<Comment>)
    requires i < |comments|
    ensures |r| == |comments|
    ensures forall j :: 0 <= j < |comments| ==>
      && r[j].id == comments[j].id
      && r[j].author == comments[j].author
      && r[j].post == comments[j].post
    ensures forall j :: 0 <= j < |comments| && r[j] != comments[j] ==> j == i && r[j].content == text
    ensures r[i] == comments[i].(content := text)
    ensures forall j :: 0 <= j < |comments| && j != i ==> r[j] == comments[j]
  {
    comments[i := comments[i].(content := text)]
  }

  /** `CommentUpdateView`: only the comment's author gets past the gate, and only
      the text changes (author and post are kept). */
  function UpdateComment(s: BlogStore, u: User, m: Method, pk: nat, content: Option<string>): (r: Outcome<BlogStore>)
    ensures !u.Registered? ==> r == Outcome(LoginRedirect, s)
    ensures u.Registered? && CommentAuthor(s, pk).None? ==> r == Outcome(NotFound, s)
    ensures u.Registered? && CommentAuthor(s, pk).Some? && CommentAuthor(s, pk).value != u.id ==> r == Outcome(Forbidden, s)
    ensures r.store != s ==> u.Registered? && CommentAuthor(s, pk) == Some(u.id)
    ensures r.store.posts == s.posts && |r.store.comments| == |s.comments|
    ensures forall i :: 0 <= i < |s.comments| ==>
      && r.store.comments[i].id == s.comments[i].id
      && r.store.comments[i].author == s.comments[i].author
      && r.store.comments[i].post == s.comments[i].post
    ensures forall i :: 0 <= i < |s.comments| && r.store.comments[i] != s.comments[i] ==>
      CleanCommentForm(content) == Ok(r.store.comments[i].content)
    ensures u.Registered? && CommentAuthor(s, pk) == Some(u.id) && FormViewHandler(m) == Submit ==>
      && (CleanCommentForm(content).Ok? ==>
            var k := IndexOf(s.comments, CommentId, pk).value;
            && r.response == Redirect("post_detail")
            && r.store.comments[k] == s.comments[k].(content := CleanCommentForm(content).value)
            && (forall j :: 0 <= j < |s.comments| && j != k ==> r.store.comments[j] == s.comments[j]))
      && (CleanCommentForm(content).Err? ==> r == Outcome(FormErrors(CleanCommentForm(content).error), s))
  {
    var found := IndexOf(s.comments, CommentId, pk);
    match OwnerOnly(u, CommentAuthor(s, pk))
    case Some(denied) => Outcome(denied, s)
    case None =>
      match FormViewHandler(m)
      case Submit =>
        (match CleanCommentForm(content)
         case Err(errors) => Outcome(FormErrors(errors), s)
         case Ok(text) =>
           Outcome(Redirect("post_detail"), s.(comments := SetContent(s.comments, found.value, text))))
      case h => Outcome(PassiveResponse(h, "blog/comment_form.html"), s)
  }

  /** With unique keys, the author's valid edit of the comment at position `i`
      replaces its text with the cleaned text and leaves every other comment
      as it was. */
  lemma UpdateCommentWrites(s: BlogStore, u: User, m: Method, pk: nat, content: Option<string>, i: nat)
    requires UniqueKeys(s) && i < |s.comments| && s.comments[i].id == pk
    requires u.Registered? && s.comments[i].author == u.id
    requires FormViewHandler(m) == Submit && CleanCommentForm(content).Ok?
    ensures var r := UpdateComment(s, u, m, pk, content);
      && r.response == Redirect("post_detail")
      && r.store.comments[i] == s.comments[i].(content := CleanCommentForm(content).value)
      && (forall j :: 0 <= j < |s.comments| && j != i ==> r.store.comments[j] == s.comments[j])
  {
    IndexOfUnique(s.comments, CommentId, pk, i);
    assert CommentAuthor(s, pk) == Some(u.id);
  }

  /** `CommentDeleteView`: only the comment's author may remove it. */
  function DeleteComment(s: BlogStore, u: User, m: Method, pk: nat): (r: Outcome<BlogStore>)
    ensures !u.Registered? ==> r == Outcome(LoginRedirect, s)
    ensures u.Registered? && CommentAuthor(s, pk).None? ==> r == Outcome(NotFound, s)
    ensures u.Registered? && CommentAuthor(s, pk).Some? && CommentAuthor(s, pk).value != u.id ==> r == Outcome(Forbidden, s)
    ensures r.store != s ==> u.Registered? && CommentAuthor(s, pk) == Some(u.id)
    ensures r.store.posts == s.posts
    ensures r.store != s ==> |r.store.comments| == |s.comments| - 1 && multiset(r.store.comments) <= multiset(s.comments)
    ensures u.Registered? && CommentAuthor(s, pk) == Some(u.id) && DeleteViewHandler(m) == Submit ==>
      r == Outcome(Redirect("post_detail"), s.(comments := RemoveAt(s.comments, IndexOf(s.comments, CommentId, pk).value)))
  {
    var found := IndexOf(s.comments, CommentId, pk);
    match OwnerOnly(u, CommentAuthor(s, pk))
    case Some(denied) => Outcome(denied, s)
    case None =>
      match DeleteViewHandler(m)
      case Submit => Outcome(Redirect("post_detail"), s.(comments := RemoveAt(s.comments, found.value)))
      case h => Outcome(PassiveResponse(h, "blog/comment_confirm_delete.html"), s)
  }

  /** A delete the author submits removes the comment: no row keeps its key,
      and every other comment is kept. */
  lemma {:induction false} DeleteCommentRemoves(s: BlogStore, u: User, m: Method, pk: nat)
    requires UniqueKeys(s)
    requires DeleteComment(s, u, m, pk).response == Redirect("post_detail")
    ensures forall c :: c in DeleteComment(s, u, m, pk).store.comments ==> c.id != pk
    ensures forall c :: c in s.comments && c.id != pk ==> c in DeleteComment(s, u, m, pk).store.comments
  {
    var i := IndexOf(s.comments, CommentId, pk).value;
    var r := DeleteComment(s, u, m, pk).store.comments;
    assert r == RemoveAt(s.comments, i);
    forall c | c in r
      ensures c.id != pk
    {
      var k :| 0 <= k < |r| && r[k] == c;
      if k < i {
        assert r[k] == s.comments[k];
      } else {
        assert r[k] == s.comments[k + 1];
      }
    }
    forall c | c in s.comments && c.id != pk
      ensures c in r
    {
      var k :| 0 <= k < |s.comments| && s.comments[k] == c;
      if k < i {
        assert r[k] == c;
      } else {
        assert k != i;
        assert r[k - 1] == c;
      }
    }
  }

  /** With unique keys the comment gate is exactly "the stored comment's author
      is the requester": a non-author is refused with nothing changed, and the
      author's valid edit and submitted delete go through. */
  lemma CommentGateIsOwnership(s: BlogStore, u: User, m: Method, pk: nat, content: Option<string>, c: Comment)
    requires UniqueKeys(s) && c in s.comments && c.id == pk && u.Registered?
    ensures c.author != u.id ==> UpdateComment(s, u, m, pk, content) == Outcome(Forbidden, s)
    ensures c.author != u.id ==> DeleteComment(s, u, m, pk) == Outcome(Forbidden, s)
    ensures c.author == u.id && FormViewHandler(m) == Submit && CleanCommentForm(content).Ok? ==>
      UpdateComment(s, u, m, pk, content).response == Redirect("post_detail")
    ensures c.author == u.id && DeleteViewHandler(m) == Submit ==> DeleteComment(s, u, m, pk).response == Redirect("post_detail")
  {
    var j :| 0 <= j < |s.comments| && s.comments[j] == c;
    IndexOfUnique(s.comments, CommentId, pk, j);
    assert CommentAuthor(s, pk) == Some(c.author);
    if c.author == u.id {
      assert OwnerOnly(u, CommentAuthor(s, pk)).None?;
    } else {
      assert OwnerOnly(u, CommentAuthor(s, pk)) == Some(Forbidden);
    }
  }

  // ---------------------------------------------------------------------------
  // PostSearchListView and PostListView
  // ---------------------------------------------------------------------------

  /** What the search expression asks of one post. */
  predicate PostMatches(p: Post, q: string) {
    || IContains(p.title, q)
    || IContains(p.content, q)
    || exists k :: 0 <= k < |p.tags| && IContains(p.tags[k], q)
  }

  /** The joined rows for one post and its tags (a post without tags gives one
      row with no tag), kept when title, content or that row's tag matches. */
  function TagRows(p: Post, tags: seq<string>, q: string): (r: seq<Post>)
    ensures forall x :: x in r ==> x == p
    ensures r != [] <==> tags != [] && (IContains(p.title, q) || IContains(p.content, q) || exists k :: 0 <= k < |tags| && IContains(tags[k], q))
  {
    if tags == [] then []
    else
      var rest := TagRows(p, tags[1..], q);
      assert forall k :: 1 <= k < |tags| ==> tags[k] == tags[1..][k - 1];
      (if IContains(p.title, q) || IContains(p.content, q) || IContains(tags[0], q) then [p] else []) + rest
  }

  function PostRows(p: Post, q: string): (r: seq<Post>)
    ensures forall x :: x in r ==> x == p
    ensures r != [] <==> PostMatches(p, q)
  {
    if p.tags == [] then (if IContains(p.title, q) || IContains(p.content, q) then [p] else [])
    else TagRows(p, p.tags, q)
  }

  /** The rows of the filtered join, before `.distinct()`. */
  function JoinRows(posts: seq<Post>, q: string): (r: seq<Post>)
    ensures forall x :: x in r <==> x in posts && PostMatches(x, q)
  {
    if posts == [] then []
    else
      var rest := JoinRows(posts[1..], q);
      assert forall x :: x in posts <==> x == posts[0] || x in posts[1..];
      assert forall x :: x in PostRows(posts[0], q) <==> x == posts[0] && PostMatches(x, q) by {
        if PostMatches(posts[0], q) {
          var r0 := PostRows(posts[0], q);
          assert r0[0] in r0;
        }
      }
      PostRows(posts[0], q) + rest
  }

  /** `PostSearchListView.get_queryset`: every post when `q` is missing or empty,
      otherwise the distinct posts matching `q` in title, content or a tag name. */
  function SearchPosts(posts: seq<Post>, q: Option<string>): (r: seq<Post>)
    ensures q.None? || q.value == [] ==> r == posts
    ensures q.Some? && q.value != [] ==> NoDuplicates(r)
    ensures q.Some? && q.value != [] ==> forall p :: p in r <==> p in posts && PostMatches(p, q.value)
  {
    if q.None? || q.value == [] then posts
    else Dedup(JoinRows(posts, q.value))
  }

  /** Search results never contain a post the store lacks, nor one twice when the store has none twice. */
  lemma SearchResultsAreDistinctStorePosts(posts: seq<Post>, q: Option<string>)
    requires NoDuplicates(posts)
    ensures forall p :: p in SearchPosts(posts, q) ==> p in posts
    ensures NoDuplicates(SearchPosts(posts, q))
  {
  }

  /** A tag match alone is enough, and one post matching through several tags appears once. */
  lemma {:induction false} SearchByTagOnce(p: Post, q: string)
    requires q != [] && |p.tags| >= 2 && IContains(p.tags[0], q) && IContains(p.tags[1], q)
    ensures SearchPosts([p], Some(q)) == [p]
  {
    assert PostMatches(p, q);
    var rows := JoinRows([p], q);
    assert p in rows;
    DedupOfRepeated(rows, p);
  }

  /** `ordering = ['-created_at']`: newer posts first. */
  predicate NewerOrSame(a: Post, b: Post) {
    a.createdAt >= b.createdAt
  }

  /** `PostListView`: all posts, newest first. */
  function ListPosts(posts: seq<Post>): (r: seq<Post>)
    ensures multiset(r) == multiset(posts)
    ensures forall i, j :: 0 <= i < j < |r| ==> r[i].createdAt >= r[j].createdAt
  {
    assert TotalPreorder(NewerOrSame);
    SortBy(posts, NewerOrSame)
  }
}
