/** The Post schema with its embedded Comment schema (models/Post.js), and the
    Mongoose array operations the post routes apply to a loaded document:
    `likes.some`, `likes.pull`, `likes.push`, `comments.id`, `comments.push`
    and a comment's `deleteOne`. */
module PostModel {
  import opened Common
  import opened JsStrings

  /** An embedded comment: its own `_id`, required trimmed `text`, required
      `author`, and its creation timestamp. */
  datatype Comment = Comment(id: CommentId, text: string, author: UserId, createdAt: int)

  /** `comments` is an ordered list of embedded comments; `likes` is a list of
      user references on which the schema imposes no uniqueness. */
  datatype Post = Post(
    title: string,
    content: string,
    author: UserId,
    comments: seq<Comment>,
    likes: seq<UserId>,
    createdAt: int)

  /** `required: true` rejects "" and `trim: true` stores the trimmed text. */
  predicate ValidComment(c: Comment) {
    c.text != [] && IsTrimmed(c.text)
  }

  /** `title` and `content` are required; every comment is valid. */
  predicate ValidPost(p: Post) {
    && p.title != [] && p.content != []
    && forall i :: 0 <= i < |p.comments| ==> ValidComment(p.comments[i])
  }

  predicate DistinctCommentIds(cs: seq<Comment>) {
    forall i, j :: 0 <= i < j < |cs| ==> cs[i].id != cs[j].id
  }

  // ---------------------------------------------------------------------------
  // likes

  /** Mongoose's `array.pull(x)`: every occurrence of `x` removed, the rest kept
      in order. */
  function Without(s: seq<UserId>, x: UserId): (r: seq<UserId>)
    ensures x !in r
    ensures forall y :: y != x ==> (y in r <==> y in s)
    ensures multiset(r) == multiset(s)[x := 0]
    ensures |r| + multiset(s)[x] == |s|
    ensures x !in s ==> r == s
    ensures NoDuplicates(s) ==> NoDuplicates(r)
  {
    if s == [] then []
    else
      assert s == [s[0]] + s[1..];
      assert NoDuplicates(s) ==> NoDuplicates(s[1..]) && s[0] !in s[1..];
      if s[0] == x then Without(s[1..], x) else [s[0]] + Without(s[1..], x)
  }

  /** The like toggle: an actor already in `likes` is pulled out, any other
      actor is pushed at the end. */
  function Toggle(likes: seq<UserId>, actor: UserId): (r: seq<UserId>)
    ensures actor in r <==> actor !in likes
    ensures forall u :: u != actor ==> (u in r <==> u in likes)
    ensures actor !in likes ==> r == likes + [actor]
  {
    if actor in likes then Without(likes, actor) else likes + [actor]
  }

  lemma {:induction false} WithoutAppended(s: seq<UserId>, x: UserId)
    ensures Without(s + [x], x) == Without(s, x)
    decreases |s|
  {
    if s == [] {
      assert [x][1..] == [];
    } else {
      assert (s + [x])[1..] == s[1..] + [x];
      WithoutAppended(s[1..], x);
    }
  }

  /** `pull` looks at the members one at a time from the front: the first is
      dropped when it is `x` and kept in front of the rest otherwise. */
  lemma WithoutCons(y: UserId, s: seq<UserId>, x: UserId)
    ensures Without([y] + s, x) == (if y == x then [] else [y]) + Without(s, x)
  {
    assert ([y] + s)[0] == y && ([y] + s)[1..] == s;
  }

  /** `pull` keeps the other members in their order: pulling from a
      concatenation is pulling from each part. */
  lemma {:induction false} WithoutConcat(a: seq<UserId>, b: seq<UserId>, x: UserId)
    ensures Without(a + b, x) == Without(a, x) + Without(b, x)
    decreases |a|
  {
    if a == [] {
      WithoutConcatNil(a, b, x);
    } else {
      WithoutConcat(a[1..], b, x);
      WithoutConcatStep(a, b, x);
    }
  }

  lemma WithoutConcatNil(a: seq<UserId>, b: seq<UserId>, x: UserId)
    requires a == []
    ensures Without(a + b, x) == Without(a, x) + Without(b, x)
  {
    assert a + b == b;
  }

  /** One step of `WithoutConcat`: from the tail of `a` to all of it. */
  lemma WithoutConcatStep(a: seq<UserId>, b: seq<UserId>, x: UserId)
    requires a != []
    requires Without(a[1..] + b, x) == Without(a[1..], x) + Without(b, x)
    ensures Without(a + b, x) == Without(a, x) + Without(b, x)
  {
    var y, t := a[0], a[1..];
    ConsOfConcat(a, b);
    WithoutCons(y, t + b, x);
    WithoutCons(y, t, x);
    SeqAssoc(if y == x then [] else [y], Without(t, x), Without(b, x));
  }

  /** `a` and `a + b` split into their first member and the rest. */
  lemma ConsOfConcat<T>(a: seq<T>, b: seq<T>)
    requires a != []
    ensures a == [a[0]] + a[1..] && a + b == [a[0]] + (a[1..] + b)
  {
  }

  lemma SeqAssoc<T>(p: seq<T>, q: seq<T>, r: seq<T>)
    ensures p + (q + r) == (p + q) + r
  {
  }

  /** Liking then unliking, or unliking then liking, restores who likes the
      post; from "not liked" it restores the list exactly. */
  lemma ToggleTwice(likes: seq<UserId>, actor: UserId)
    ensures forall u :: u in Toggle(Toggle(likes, actor), actor) <==> u in likes
    ensures actor !in likes ==> Toggle(Toggle(likes, actor), actor) == likes
  {
    if actor !in likes {
      WithoutAppended(likes, actor);
    }
  }

  lemma {:induction false} DistinctCount<T>(s: seq<T>, x: T)
    requires NoDuplicates(s) && x in s
    ensures multiset(s)[x] == 1
    decreases |s|
  {
    assert s == [s[0]] + s[1..];
    if s[0] == x {
      assert x !in s[1..];
    } else {
      DistinctCount(s[1..], x);
    }
  }

  /** A toggle keeps a duplicate-free list duplicate-free and moves its length
      by exactly one, so the reported `likesCount` counts distinct users. */
  lemma ToggleKeepsDistinct(likes: seq<UserId>, actor: UserId)
    requires NoDuplicates(likes)
    ensures NoDuplicates(Toggle(likes, actor))
    ensures |Toggle(likes, actor)| == if actor in likes then |likes| - 1 else |likes| + 1
  {
    if actor in likes {
      DistinctCount(likes, actor);
    }
  }

  // ---------------------------------------------------------------------------
  // comments

  /** Mongoose's `comments.id(cid)`: the position of the first comment with
      that id, if any. */
  function FindComment(cs: seq<Comment>, cid: CommentId): (k: Option<nat>)
    ensures k.Some? ==> k.value < |cs| && cs[k.value].id == cid
    ensures k.Some? ==> forall j :: 0 <= j < k.value ==> cs[j].id != cid
    ensures k.None? <==> forall j :: 0 <= j < |cs| ==> cs[j].id != cid
  {
    if cs == [] then None
    else if cs[0].id == cid then Some(0)
    else match FindComment(cs[1..], cid)
      case None => None
      case Some(k) => Some(k + 1)
  }

  /** The list after removing the comment at position `k`. */
  function RemoveAt<T>(s: seq<T>, k: nat): (r: seq<T>)
    requires k < |s|
    ensures |r| == |s| - 1
    ensures forall j :: 0 <= j < k ==> r[j] == s[j]
    ensures forall j :: k <= j < |r| ==> r[j] == s[j + 1]
  {
    s[..k] + s[k + 1..]
  }

  /** `comments.push(c)`: the new comment goes last, the others keep their
      places. */
  function Pushed(cs: seq<Comment>, c: Comment): (r: seq<Comment>)
    ensures |r| == |cs| + 1 && r[|cs|] == c
    ensures forall j :: 0 <= j < |cs| ==> r[j] == cs[j]
  {
    cs + [c]
  }

  /** The list after `comments[k].text = t`: only that comment's text
      changes. */
  function WithText(cs: seq<Comment>, k: nat, t: string): (r: seq<Comment>)
    requires k < |cs|
    ensures |r| == |cs| && r[k].text == t && r[k].(text := cs[k].text) == cs[k]
    ensures forall j :: 0 <= j < |cs| && j != k ==> r[j] == cs[j]
  {
    cs[k := cs[k].(text := t)]
  }

  /** With distinct ids, removing the comment found for `cid` removes exactly
      the comment with that id and keeps every other one. */
  lemma RemoveFoundComment(cs: seq<Comment>, cid: CommentId)
    requires DistinctCommentIds(cs) && FindComment(cs, cid).Some?
    ensures var r := RemoveAt(cs, FindComment(cs, cid).value);
            && DistinctCommentIds(r)
            && forall c :: c in r <==> c in cs && c.id != cid
  {
    var k := FindComment(cs, cid).value;
    RemoveAtDistinct(cs, k);
    RemoveAtMembers(cs, k);
  }

  /** Removing position `k` of a list with distinct ids leaves distinct ids,
      none of them the removed comment's. */
  lemma RemoveAtDistinct(cs: seq<Comment>, k: nat)
    requires DistinctCommentIds(cs) && k < |cs|
    ensures DistinctCommentIds(RemoveAt(cs, k))
    ensures forall c :: c in RemoveAt(cs, k) ==> c.id != cs[k].id
  {
    var r := RemoveAt(cs, k);
    forall c | c in r ensures c.id != cs[k].id {
      var j :| 0 <= j < |r| && r[j] == c;
      if j < k { assert c == cs[j]; } else { assert c == cs[j + 1]; }
    }
  }

  /** Removing position `k` keeps every element other than `s[k]` and adds
      none. */
  lemma RemoveAtMembers<T>(s: seq<T>, k: nat)
    requires k < |s|
    ensures forall x :: x in RemoveAt(s, k) ==> x in s
    ensures forall x :: x in s && x != s[k] ==> x in RemoveAt(s, k)
  {
    assert s == s[..k] + [s[k]] + s[k + 1..];
  }

  lemma {:induction false} FindAppended(cs: seq<Comment>, c: Comment)
    requires forall j :: 0 <= j < |cs| ==> cs[j].id != c.id
    ensures FindComment(cs + [c], c.id) == Some(|cs|)
    decreases |cs|
  {
    if cs != [] {
      assert (cs + [c])[1..] == cs[1..] + [c];
      FindAppended(cs[1..], c);
    }
  }

  /** Adding a comment and then deleting it by its id restores the list. */
  lemma AddThenDeleteRestores(cs: seq<Comment>, c: Comment)
    requires forall j :: 0 <= j < |cs| ==> cs[j].id != c.id
    ensures FindComment(cs + [c], c.id) == Some(|cs|)
    ensures RemoveAt(cs + [c], |cs|) == cs
  {
    FindAppended(cs, c);
  }

  // ---------------------------------------------------------------------------
  // post update

  /** `if (title) post.title = title; if (content) post.content = content;` */
  function ApplyUpdate(p: Post, title: Option<string>, content: Option<string>): (q: Post)
    ensures q.(title := p.title, content := p.content) == p
    ensures q.title == (if Truthy(title) then title.value else p.title)
    ensures q.content == (if Truthy(content) then content.value else p.content)
    ensures ValidPost(p) ==> ValidPost(q)
  {
    p.(title := if Truthy(title) then title.value else p.title,
       content := if Truthy(content) then content.value else p.content)
  }

  lemma ApplyUpdateIdempotent(p: Post, title: Option<string>, content: Option<string>)
    ensures ApplyUpdate(ApplyUpdate(p, title, content), title, content) == ApplyUpdate(p, title, content)
  {
  }
}
