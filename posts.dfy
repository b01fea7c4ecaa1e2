/** The post routes (routes/posts.js): paging of the list and search
    endpoints, the search-term guard, and the handlers that create, update and
    delete posts, add, edit and delete comments, and toggle likes. Each
    handler loads the post, changes it and saves it; here it changes the
    store's `posts` map. */
module Posts {
  import opened Common
  import opened JsStrings
  import opened PostModel
  import opened Store

  // ---------------------------------------------------------------------------
  // paging

  /** `parseInt(q) || dflt`, where `None` stands for a missing or non-numeric
      parameter (parseInt gives NaN) and 0 is falsy as well. */
  function OrDefault(q: Option<int>, dflt: int): int {
    if q.Some? && q.value != 0 then q.value else dflt
  }

  datatype Paging = Paging(page: int, limit: int, skip: int)

  /** `page`, `limit` and `skipIndex` of the list and search handlers. */
  function ParsePaging(pageQ: Option<int>, limitQ: Option<int>): (p: Paging)
    ensures p.page != 0 && p.limit != 0
    ensures p.skip == (p.page - 1) * p.limit
  {
    var page := OrDefault(pageQ, 1);
    var limit := OrDefault(limitQ, 20);
    Paging(page, limit, (page - 1) * limit)
  }

  /** Missing, non-numeric and zero parameters fall back to page 1 of 20;
      other values are taken as given. */
  lemma PagingDefaults(pageQ: Option<int>, limitQ: Option<int>)
    ensures pageQ.None? || pageQ.value == 0 ==> ParsePaging(pageQ, limitQ).page == 1
    ensures limitQ.None? || limitQ.value == 0 ==> ParsePaging(pageQ, limitQ).limit == 20
    ensures pageQ.Some? && pageQ.value != 0 ==> ParsePaging(pageQ, limitQ).page == pageQ.value
    ensures limitQ.Some? && limitQ.value != 0 ==> ParsePaging(pageQ, limitQ).limit == limitQ.value
    ensures (pageQ.None? || pageQ.value == 0) && (limitQ.None? || limitQ.value == 0) ==>
              ParsePaging(pageQ, limitQ) == Paging(1, 20, 0)
  {
  }

  /** `Math.ceil(total / limit)` for a non-zero integer `limit`. */
  function CeilDiv(total: nat, limit: int): (q: int)
    requires limit != 0
    ensures limit > 0 ==> (q - 1) * limit < total <= q * limit
    ensures limit < 0 ==> q * limit <= total < (q - 1) * limit
  {
    if limit > 0 then
      var q := (total + limit - 1) / limit;
      assert total + limit - 1 == q * limit + (total + limit - 1) % limit;
      q
    else
      var q := total / -limit;
      assert total == q * -limit + total % -limit;
      -q
  }

  datatype Pagination = Pagination(currentPage: int, limit: int, totalResults: nat, totalPages: int)

  /** The `pagination` object of the list and search responses. */
  function Envelope(p: Paging, totalResults: nat): (e: Pagination)
    requires p.limit != 0
    ensures e.currentPage == p.page && e.limit == p.limit && e.totalResults == totalResults
    ensures e.limit > 0 ==> (e.totalPages - 1) * e.limit < totalResults <= e.totalPages * e.limit
    ensures e.limit > 0 ==> (e.totalPages == 0 <==> totalResults == 0)
  {
    Pagination(p.page, p.limit, totalResults, CeilDiv(totalResults, p.limit))
  }

  /** With a positive limit, result `i` is on exactly one page, page
      `i / limit + 1`, and that page is within `totalPages`. */
  lemma PageOfResult(limit: int, totalResults: nat, i: nat, page: int)
    requires limit > 0 && i < totalResults
    requires (page - 1) * limit <= i < (page - 1) * limit + limit
    ensures page == i / limit + 1
    ensures 1 <= page <= CeilDiv(totalResults, limit)
  {
    var a := page - 1;
    var q := i / limit;
    assert q * limit <= i < q * limit + limit by {
      assert i == q * limit + i % limit;
    }
    SameBlock(a, q, limit, i);
    var n := CeilDiv(totalResults, limit);
    if n < page {
      MulMonotone(n, a, limit);
      assert false;
    }
  }

  /** Two blocks `[a * c, a * c + c)` and `[b * c, b * c + c)` sharing a
      point are the same block. */
  lemma SameBlock(a: int, b: int, c: int, x: int)
    requires c > 0
    requires a * c <= x < a * c + c && b * c <= x < b * c + c
    ensures a == b
  {
    if a < b {
      MulMonotone(a + 1, b, c);
    } else if b < a {
      MulMonotone(b + 1, a, c);
    }
  }

  lemma MulMonotone(a: int, b: int, c: int)
    requires a <= b && c >= 0
    ensures a * c <= b * c
  {
  }

  /** The pages for which MongoDB refuses `skip((page - 1) * limit)`:
      a page before the first with a positive limit, or a page after the
      first with a negative one. */
  predicate SkipNegative(p: Paging) {
    (p.page < 1 && p.limit > 0) || (p.page > 1 && p.limit < 0)
  }

  /** The skip is negative exactly for the pages `SkipNegative` names. */
  lemma NegativeSkip(p: Paging)
    requires p.skip == (p.page - 1) * p.limit
    ensures p.skip < 0 <==> SkipNegative(p)
  {
    var a := p.page - 1;
    if a > 0 && p.limit > 0 {
      MulMonotone(1, a, p.limit);
    } else if a < 0 && p.limit < 0 {
      MulMonotone(a, -1, -p.limit);
    } else if a > 0 && p.limit < 0 {
      MulMonotone(1, a, -p.limit);
    } else if a < 0 && p.limit > 0 {
      MulMonotone(a, -1, p.limit);
    }
  }

  /** The list's answer (GET /): 500 when MongoDB refuses the negative
      `skip`, 200 otherwise. A page of -1 with the default limit is refused. */
  function ListStatus(pageQ: Option<int>, limitQ: Option<int>): (c: Code)
    ensures c == ServerError <==> SkipNegative(ParsePaging(pageQ, limitQ))
    ensures c == OK <==> !SkipNegative(ParsePaging(pageQ, limitQ))
    ensures pageQ.Some? && pageQ.value < 0 && limitQ.None? ==> c == ServerError
  {
    var p := ParsePaging(pageQ, limitQ);
    NegativeSkip(p);
    if p.skip < 0 then ServerError else OK
  }

  // ---------------------------------------------------------------------------
  // search

  datatype SearchPlan = SearchPlan(term: string, paging: Paging)

  /** The search handler up to its database queries: a missing or empty `q`
      is answered 400 from the query string alone, before anything is read. */
  function PlanSearch(q: Option<string>, pageQ: Option<int>, limitQ: Option<int>): (r: Option<SearchPlan>)
    ensures r.None? <==> q.None? || q.value == ""
    ensures r.Some? ==> r.value.term == q.value && r.value.paging == ParsePaging(pageQ, limitQ)
  {
    if !Truthy(q) then None else Some(SearchPlan(q.value, ParsePaging(pageQ, limitQ)))
  }

  /** The search's answer. `patternValid` says whether MongoDB accepts `q` as
      a regular expression (an unbalanced "(" is refused); the search then
      answers 400 for a missing or empty term, 500 when the pattern is refused
      or the paging gives a negative `skip`, and 200 otherwise. */
  function SearchStatus(q: Option<string>, pageQ: Option<int>, limitQ: Option<int>, patternValid: bool): (c: Code)
    ensures c == BadRequest <==> !Truthy(q)
    ensures c == ServerError <==> Truthy(q) && (!patternValid || SkipNegative(ParsePaging(pageQ, limitQ)))
    ensures c == OK <==> Truthy(q) && patternValid && !SkipNegative(ParsePaging(pageQ, limitQ))
  {
    var plan := PlanSearch(q, pageQ, limitQ);
    if plan.None? then BadRequest
    else
      NegativeSkip(plan.value.paging);
      if !patternValid || plan.value.paging.skip < 0 then ServerError else OK
  }

  // ---------------------------------------------------------------------------
  // posts

  /** GET /:id */
  method GetPost(db: Db, id: PostId) returns (code: Code, post: Option<Post>)
    ensures code == NotFound <==> id !in db.posts
    ensures code == OK <==> id in db.posts
    ensures post == if id in db.posts then Some(db.posts[id]) else None
  {
    if id !in db.posts {
      return NotFound, None;
    }
    return OK, Some(db.posts[id]);
  }

  /** POST /: a post by the actor, with no comments and no likes. A missing or
      empty title or content fails the schema's `required` check on save. */
  method CreatePost(db: Db, actor: UserId, title: Option<string>, content: Option<string>, now: int)
      returns (code: Code, id: Option<PostId>)
    requires db.Valid()
    modifies db
    ensures db.Valid()
    ensures !Truthy(title) || !Truthy(content) ==>
              code == ServerError && id.None? && db.State() == old(db.State())
    ensures Truthy(title) && Truthy(content) ==>
              && code == Created && id == Some(old(db.nextId))
              && old(db.nextId) !in old(db.posts)
              && db.State() == old(db.State()).(
                   posts := old(db.posts)[old(db.nextId) := Post(title.value, content.value, actor, [], [], now)],
                   nextId := old(db.nextId) + 1)
  {
    if !Truthy(title) || !Truthy(content) {
      return ServerError, None;
    }
    var p := Post(title.value, content.value, actor, [], [], now);
    id := Some(db.nextId);
    db.posts := db.posts[db.nextId := p];
    db.nextId := db.nextId + 1;
    code := Created;
  }

  /** DELETE /:id: only the author may delete; only that post goes. */
  method DeletePost(db: Db, actor: UserId, id: PostId) returns (code: Code)
    requires db.Valid()
    modifies db
    ensures db.Valid()
    ensures id !in old(db.posts) ==> code == NotFound && db.State() == old(db.State())
    ensures id in old(db.posts) && old(db.posts)[id].author != actor ==>
              code == Forbidden && db.State() == old(db.State())
    ensures id in old(db.posts) && old(db.posts)[id].author == actor ==>
              code == OK && db.State() == old(db.State()).(posts := old(db.posts) - {id})
  {
    if id !in db.posts {
      return NotFound;
    }
    if db.posts[id].author != actor {
      return Forbidden;
    }
    db.posts := db.posts - {id};
    code := OK;
  }

  /** PUT /:id: only the author may update; a supplied non-empty title or
      content replaces the old one, nothing else changes. */
  method UpdatePost(db: Db, actor: UserId, id: PostId, title: Option<string>, content: Option<string>)
      returns (code: Code, post: Option<Post>)
    requires db.Valid()
    modifies db
    ensures db.Valid()
    ensures id !in old(db.posts) ==> code == NotFound && post.None? && db.State() == old(db.State())
    ensures id in old(db.posts) && old(db.posts)[id].author != actor ==>
              code == Forbidden && post.None? && db.State() == old(db.State())
    ensures id in old(db.posts) && old(db.posts)[id].author == actor ==>
              var p := ApplyUpdate(old(db.posts)[id], title, content);
              && code == OK && post == Some(p)
              && db.State() == old(db.State()).(posts := old(db.posts)[id := p])
  {
    if id !in db.posts {
      return NotFound, None;
    }
    var p := db.posts[id];
    if p.author != actor {
      return Forbidden, None;
    }
    var q := ApplyUpdate(p, title, content);
    db.posts := db.posts[id := q];
    return OK, Some(q);
  }

  // ---------------------------------------------------------------------------
  // comments

  /** POST /:id/comment: a missing or empty text is refused before the post is
      looked up; otherwise the trimmed text by the actor is appended last.
      Text made only of white space passes the guard but is "" once trimmed,
      so the save fails validation. */
  method AddComment(db: Db, actor: UserId, postId: PostId, text: Option<string>, now: int)
      returns (code: Code, comment: Option<Comment>)
    requires db.Valid()
    modifies db
    ensures db.Valid()
    ensures !Truthy(text) ==> code == BadRequest && comment.None? && db.State() == old(db.State())
    ensures Truthy(text) && postId !in old(db.posts) ==>
              code == NotFound && comment.None? && db.State() == old(db.State())
    ensures Truthy(text) && postId in old(db.posts) && AllSpace(text.value) ==>
              code == ServerError && comment.None? && db.State() == old(db.State())
    ensures Truthy(text) && postId in old(db.posts) && !AllSpace(text.value) ==>
              var p := old(db.posts)[postId];
              var c := Comment(old(db.nextId), Trim(text.value), actor, now);
              && code == OK && comment == Some(c)
              && db.State() == old(db.State()).(
                   posts := old(db.posts)[postId := p.(comments := Pushed(p.comments, c))],
                   nextId := old(db.nextId) + 1)
  {
    if !Truthy(text) {
      code, comment := BadRequest, None;
    } else if postId !in db.posts {
      code, comment := NotFound, None;
    } else {
      var p := db.posts[postId];
      var t := Trim(text.value);
      TrimEmptyIffAllSpace(text.value);
      if t == [] {
        code, comment := ServerError, None;
      } else {
        var c := Comment(db.nextId, t, actor, now);
        PushComment(db, postId, c);
        code, comment := OK, Some(c);
      }
    }
  }

  /** `post.comments.push(c)` followed by `post.save()`, for a comment that
      carries the next fresh id. */
  method PushComment(db: Db, postId: PostId, c: Comment)
    requires db.Valid() && postId in db.posts
    requires c.id == db.nextId && ValidComment(c)
    modifies db
    ensures db.Valid()
    ensures db.State() == old(db.State()).(
              posts := old(db.posts)[postId := old(db.posts)[postId].(comments := Pushed(old(db.posts)[postId].comments, c))],
              nextId := old(db.nextId) + 1)
  {
    var p := db.posts[postId];
    AppendKeepsValid(db.State(), postId, c);
    db.SavePosts(db.posts[postId := p.(comments := Pushed(p.comments, c))], db.nextId + 1);
  }

  /** Appending a valid comment that carries the next fresh id to a stored
      post, and advancing the counter past it, keeps the store valid. */
  lemma AppendKeepsValid(s: DbState, postId: PostId, c: Comment)
    requires ValidState(s) && postId in s.posts
    requires c.id == s.nextId && ValidComment(c)
    ensures var p := s.posts[postId];
            ValidState(s.(posts := s.posts[postId := p.(comments := Pushed(p.comments, c))],
                          nextId := s.nextId + 1))
  {
    var p := s.posts[postId];
    var q := p.(comments := Pushed(p.comments, c));
    assert ValidPost(q) by {
      assert forall i :: 0 <= i < |p.comments| ==> q.comments[i] == p.comments[i];
    }
    assert DistinctCommentIds(q.comments) by {
      assert forall i :: 0 <= i < |p.comments| ==> p.comments[i].id < s.nextId;
    }
  }

  /** DELETE /:id/comment/:commentid: the comment's author or the post's
      author may delete it; exactly that comment is removed. */
  method DeleteComment(db: Db, actor: UserId, postId: PostId, commentId: CommentId)
      returns (code: Code)
    requires db.Valid()
    modifies db
    ensures db.Valid()
    ensures postId !in old(db.posts) ==> code == NotFound && db.State() == old(db.State())
    ensures postId in old(db.posts) && FindComment(old(db.posts)[postId].comments, commentId).None? ==>
              code == NotFound && db.State() == old(db.State())
    ensures postId in old(db.posts) && FindComment(old(db.posts)[postId].comments, commentId).Some? ==>
              var p := old(db.posts)[postId];
              var k := FindComment(p.comments, commentId).value;
              if p.comments[k].author == actor || p.author == actor then
                && code == OK
                && db.State() == old(db.State()).(posts := old(db.posts)[postId := p.(comments := RemoveAt(p.comments, k))])
              else
                code == Forbidden && db.State() == old(db.State())
  {
    if postId !in db.posts {
      return NotFound;
    }
    var p := db.posts[postId];
    var found := FindComment(p.comments, commentId);
    if found.None? {
      return NotFound;
    }
    var k := found.value;
    if !(p.comments[k].author == actor || p.author == actor) {
      return Forbidden;
    }
    RemoveFoundComment(p.comments, commentId);
    RemoveComment(db, postId, k);
    code := OK;
  }

  /** A comment's `deleteOne()` followed by `post.save()`. */
  method RemoveComment(db: Db, postId: PostId, k: nat)
    requires db.Valid() && postId in db.posts && k < |db.posts[postId].comments|
    requires DistinctCommentIds(RemoveAt(db.posts[postId].comments, k))
    modifies db
    ensures db.Valid()
    ensures db.State() == old(db.State()).(posts := old(db.posts)[postId :=
              old(db.posts)[postId].(comments := RemoveAt(old(db.posts)[postId].comments, k))])
  {
    var p := db.posts[postId];
    var q := p.(comments := RemoveAt(p.comments, k));
    assert forall i :: 0 <= i < |q.comments| ==> q.comments[i] in p.comments;
    assert ValidState(db.State().(posts := db.posts[postId := q]));
    db.SavePosts(db.posts[postId := q], db.nextId);
  }

  /** PUT /:id/comment/:commentid: only the comment's author may edit, and only
      that comment's text changes. A missing text, or one that trims to "",
      fails the `required` check on save. */
  method EditComment(db: Db, actor: UserId, postId: PostId, commentId: CommentId, text: Option<string>)
      returns (code: Code)
    requires db.Valid()
    modifies db
    ensures db.Valid()
    ensures postId !in old(db.posts) ==> code == NotFound && db.State() == old(db.State())
    ensures postId in old(db.posts) && FindComment(old(db.posts)[postId].comments, commentId).None? ==>
              code == NotFound && db.State() == old(db.State())
    ensures postId in old(db.posts) && FindComment(old(db.posts)[postId].comments, commentId).Some? ==>
              var p := old(db.posts)[postId];
              var k := FindComment(p.comments, commentId).value;
              if p.comments[k].author != actor then
                code == Forbidden && db.State() == old(db.State())
              else if text.None? || AllSpace(text.value) then
                code == ServerError && db.State() == old(db.State())
              else
                && code == OK
                && db.State() == old(db.State()).(posts := old(db.posts)[postId :=
                     p.(comments := WithText(p.comments, k, Trim(text.value)))])
  {
    if postId !in db.posts {
      return NotFound;
    }
    var p := db.posts[postId];
    var found := FindComment(p.comments, commentId);
    if found.None? {
      return NotFound;
    }
    var k := found.value;
    if p.comments[k].author != actor {
      return Forbidden;
    }
    if text.None? {
      return ServerError;
    }
    var t := Trim(text.value);
    TrimEmptyIffAllSpace(text.value);
    if t == [] {
      return ServerError;
    }
    SetCommentText(db, postId, k, t);
    code := OK;
  }

  /** `comment.text = t` followed by `post.save()`, for a text that passes
      the comment schema. */
  method SetCommentText(db: Db, postId: PostId, k: nat, t: string)
    requires db.Valid() && postId in db.posts && k < |db.posts[postId].comments|
    requires t != [] && IsTrimmed(t)
    modifies db
    ensures db.Valid()
    ensures db.State() == old(db.State()).(posts := old(db.posts)[postId :=
              old(db.posts)[postId].(comments := WithText(old(db.posts)[postId].comments, k, t))])
  {
    var p := db.posts[postId];
    SetTextKeepsValid(db.State(), postId, k, t);
    db.SavePosts(db.posts[postId := p.(comments := WithText(p.comments, k, t))], db.nextId);
  }

  /** Replacing one comment's text of a stored post by a non-empty trimmed
      text keeps the store valid. */
  lemma SetTextKeepsValid(s: DbState, postId: PostId, k: nat, t: string)
    requires ValidState(s) && postId in s.posts && k < |s.posts[postId].comments|
    requires t != [] && IsTrimmed(t)
    ensures var p := s.posts[postId];
            ValidState(s.(posts := s.posts[postId := p.(comments := WithText(p.comments, k, t))]))
  {
    var p := s.posts[postId];
    var q := p.(comments := WithText(p.comments, k, t));
    assert forall i :: 0 <= i < |q.comments| ==> q.comments[i].id == p.comments[i].id;
    assert ValidPost(q);
  }

  // ---------------------------------------------------------------------------
  // likes

  /** PUT /:id/like: pulls the actor from `likes` if present ("Unliked"),
      pushes them at the end otherwise ("Liked"); the response counts the
      likes after the change. */
  method ToggleLike(db: Db, actor: UserId, postId: PostId)
      returns (code: Code, message: string, likesCount: nat, likes: seq<UserId>)
    requires db.Valid()
    modifies db
    ensures db.Valid()
    ensures postId !in old(db.posts) ==> code == NotFound && db.State() == old(db.State())
    ensures postId in old(db.posts) ==>
              var p := old(db.posts)[postId];
              && code == OK
              && message == (if actor in p.likes then "Unliked" else "Liked")
              && likes == Toggle(p.likes, actor) && likesCount == |likes|
              && db.State() == old(db.State()).(posts := old(db.posts)[postId := p.(likes := likes)])
  {
    if postId !in db.posts {
      return NotFound, "", 0, [];
    }
    var p := db.posts[postId];
    var hasLiked := actor in p.likes;
    if hasLiked {
      likes := Without(p.likes, actor);
      message := "Unliked";
    } else {
      likes := p.likes + [actor];
      message := "Liked";
    }
    db.posts := db.posts[postId := p.(likes := likes)];
    code, likesCount := OK, |likes|;
  }
}
