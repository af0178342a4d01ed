/** Lecture discussions: comments with an ordered list of embedded replies
    (backend/controllers/commentController.js, backend/models/commentModel.js). */
module Discussion {
  import opened Js
  import opened Http

  type Id = string

  /** A timestamp in milliseconds (`Date.now()`). */
  type Time = int

  /** An embedded reply; `createdAt` defaults to the time it is added. */
  datatype Reply = Reply(user: Id, text: string, createdAt: Time)

  /** A Comment document with its own replies, in the order they were added,
      and the `createdAt`/`updatedAt` timestamps the schema maintains. */
  datatype Comment = Comment(
    id: Id, lecture: Id, user: Id, text: string,
    replies: seq<Reply>, createdAt: Time, updatedAt: Time)

  /** The schema's required fields: Mongoose refuses a missing or empty string. */
  predicate ReplyValid(r: Reply)
  {
    r.user != "" && r.text != ""
  }

  predicate CommentValid(c: Comment)
  {
    && c.id != "" && c.lecture != "" && c.user != "" && c.text != ""
    && forall i :: 0 <= i < |c.replies| ==> ReplyValid(c.replies[i])
  }

  /** The collection in its natural order: valid documents with distinct ids. */
  predicate StoreValid(cs: seq<Comment>)
  {
    && (forall i :: 0 <= i < |cs| ==> CommentValid(cs[i]))
    && (forall i, j :: 0 <= i < j < |cs| ==> cs[i].id != cs[j].id)
  }

  /** `Comment.findById`: the position of the comment with that id. */
  function IndexOf(cs: seq<Comment>, id: Id): (r: Option<nat>)
    ensures r.Some? ==> r.value < |cs| && cs[r.value].id == id
    ensures r.None? <==> forall i :: 0 <= i < |cs| ==> cs[i].id != id
  {
    if cs == [] then None
    else if cs[0].id == id then Some(0)
    else match IndexOf(cs[1..], id)
      case None => None
      case Some(i) => Some(i + 1)
  }

  /** `comment.replies.push({user, text})` followed by the save that bumps
      `updatedAt`. */
  function WithReply(c: Comment, user: Id, text: string, now: Time): Comment
  {
    c.(replies := c.replies + [Reply(user, text, now)], updatedAt := now)
  }

  /** A reply lands at the end; the earlier replies keep their content and
      order, and the comment's identity, lecture, author and text do not change. */
  lemma ReplyAppendsAtEnd(c: Comment, user: Id, text: string, now: Time)
    requires CommentValid(c) && user != "" && text != ""
    ensures var c' := WithReply(c, user, text, now);
      && CommentValid(c')
      && |c'.replies| == |c.replies| + 1
      && c'.replies[..|c.replies|] == c.replies
      && c'.replies[|c.replies|] == Reply(user, text, now)
      && c'.id == c.id && c'.lecture == c.lecture && c'.user == c.user && c'.text == c.text
      && c'.createdAt == c.createdAt
  {
  }

  /** Replies added one after another appear in the order they were added. */
  function AddReplies(c: Comment, replies: seq<Reply>): Comment
    decreases |replies|
  {
    if replies == [] then c
    else
      var last := replies[|replies| - 1];
      WithReply(AddReplies(c, replies[..|replies| - 1]), last.user, last.text, last.createdAt)
  }

  lemma {:induction false} RepliesKeepOrder(c: Comment, replies: seq<Reply>)
    ensures AddReplies(c, replies).replies == c.replies + replies
    ensures AddReplies(c, replies).createdAt == c.createdAt
    decreases |replies|
  {
    if replies != [] {
      var init := replies[..|replies| - 1];
      RepliesKeepOrder(c, init);
      assert init + [replies[|replies| - 1]] == replies;
    }
  }

  /** `Comment.find({lecture})` in natural order. */
  function OnLecture(cs: seq<Comment>, lecture: Id): (r: seq<Comment>)
    ensures forall c :: c in r <==> c in cs && c.lecture == lecture
    ensures forall c :: multiset(r)[c] == if c.lecture == lecture then multiset(cs)[c] else 0
    ensures |r| <= |cs|
  {
    if cs == [] then []
    else
      assert cs == [cs[0]] + cs[1..];
      if cs[0].lecture == lecture then [cs[0]] + OnLecture(cs[1..], lecture)
      else OnLecture(cs[1..], lecture)
  }

  /** The query keeps the collection's order: querying two stretches of the
      collection one after the other is querying the whole. */
  lemma {:induction false} OnLectureKeepsOrder(a: seq<Comment>, b: seq<Comment>, lecture: Id)
    ensures OnLecture(a + b, lecture) == OnLecture(a, lecture) + OnLecture(b, lecture)
  {
    if a == [] {
      assert a + b == b;
    } else {
      assert (a + b)[0] == a[0];
      assert (a + b)[1..] == a[1..] + b;
      OnLectureKeepsOrder(a[1..], b, lecture);
    }
  }

  /** Ordered by `createdAt` descending. */
  predicate NewestFirst(cs: seq<Comment>)
  {
    forall i, j :: 0 <= i < j < |cs| ==> cs[i].createdAt >= cs[j].createdAt
  }

  /** A comment no older than every comment of an ordered list can head it. */
  lemma PrependKeepsOrder(x: Comment, s: seq<Comment>)
    requires NewestFirst(s)
    requires forall y :: y in s ==> y.createdAt <= x.createdAt
    ensures NewestFirst([x] + s)
  {
    var r := [x] + s;
    forall i, j | 0 <= i < j < |r| ensures r[i].createdAt >= r[j].createdAt {
      assert r[j] == s[j - 1] && s[j - 1] in s;
      if i > 0 {
        assert r[i] == s[i - 1];
      }
    }
  }

  /** Everything in `rest` is `c` or a comment of `cs[1..]`, none newer than `cs[0]`. */
  lemma NoneNewerThanHead(c: Comment, cs: seq<Comment>, rest: seq<Comment>)
    requires NewestFirst(cs) && cs != [] && c.createdAt < cs[0].createdAt
    requires multiset(rest) == multiset(cs[1..]) + multiset{c}
    ensures forall y :: y in rest ==> y.createdAt <= cs[0].createdAt
  {
    forall y | y in rest ensures y.createdAt <= cs[0].createdAt {
      assert y in multiset(rest);
      if y != c {
        assert y in multiset(cs[1..]);
        var k :| 0 <= k < |cs[1..]| && cs[1..][k] == y;
        assert cs[k + 1] == y;
      }
    }
  }

  function InsertByDate(c: Comment, cs: seq<Comment>): (r: seq<Comment>)
    requires NewestFirst(cs)
    ensures NewestFirst(r)
    ensures multiset(r) == multiset(cs) + multiset{c}
  {
    if cs == [] || c.createdAt >= cs[0].createdAt then
      assert forall y :: y in cs ==> y.createdAt <= c.createdAt by {
        forall y | y in cs ensures y.createdAt <= c.createdAt {
          var k :| 0 <= k < |cs| && cs[k] == y;
          assert cs[0].createdAt >= cs[k].createdAt;
        }
      }
      PrependKeepsOrder(c, cs);
      [c] + cs
    else
      var rest := InsertByDate(c, cs[1..]);
      assert cs == [cs[0]] + cs[1..];
      NoneNewerThanHead(c, cs, rest);
      PrependKeepsOrder(cs[0], rest);
      [cs[0]] + rest
  }

  /** `.sort({createdAt: -1})`: the same comments, newest first. */
  function SortNewestFirst(cs: seq<Comment>): (r: seq<Comment>)
    ensures NewestFirst(r)
    ensures multiset(r) == multiset(cs)
  {
    if cs == [] then []
    else
      assert cs == [cs[0]] + cs[1..];
      InsertByDate(cs[0], SortNewestFirst(cs[1..]))
  }

  /** `getLectureComments`: exactly the lecture's comments, each once, newest first. */
  function LectureComments(cs: seq<Comment>, lecture: Id): (r: seq<Comment>)
    ensures NewestFirst(r)
    ensures multiset(r) == multiset(OnLecture(cs, lecture))
    ensures forall c :: c in r <==> c in cs && c.lecture == lecture
    ensures forall c :: multiset(r)[c] == if c.lecture == lecture then multiset(cs)[c] else 0
  {
    var r := SortNewestFirst(OnLecture(cs, lecture));
    assert forall c :: c in r <==> c in multiset(r);
    r
  }

  /** `comment.deleteOne()`: the document leaves the collection with its
      embedded replies. */
  function RemoveAt(cs: seq<Comment>, i: nat): seq<Comment>
    requires i < |cs|
  {
    cs[..i] + cs[i + 1..]
  }

  /** Deleting one comment removes exactly that comment: its id is gone and
      every other comment is still there, unchanged. */
  lemma RemoveAtRules(cs: seq<Comment>, i: nat)
    requires StoreValid(cs) && i < |cs|
    ensures StoreValid(RemoveAt(cs, i))
    ensures |RemoveAt(cs, i)| == |cs| - 1
    ensures IndexOf(RemoveAt(cs, i), cs[i].id).None?
    ensures forall c :: c in cs && c.id != cs[i].id ==> c in RemoveAt(cs, i)
  {
    var rest := RemoveAt(cs, i);
    forall j | 0 <= j < |rest| ensures rest[j] == (if j < i then cs[j] else cs[j + 1]) {
    }
    forall c | c in cs && c.id != cs[i].id ensures c in rest {
      var j :| 0 <= j < |cs| && cs[j] == c;
      if j < i { assert rest[j] == c; } else { assert rest[j - 1] == c; }
    }
  }

  /** The comments collection. */
  class Board {
    var comments: seq<Comment>

    ghost predicate Valid()
      reads this
    {
      StoreValid(comments)
    }

    constructor ()
      ensures Valid() && comments == []
    {
      comments := [];
    }

    /** `addComment` by the authenticated `user`; `newId` and `now` are the id
        and the timestamp the document store assigns. */
    method AddComment(user: Id, lecture: Id, text: string, newId: Id, now: Time) returns (r: Result<Comment>)
      requires Valid() && user != "" && newId != ""
      requires forall i :: 0 <= i < |comments| ==> comments[i].id != newId
      modifies this
      ensures Valid()
      ensures lecture == "" || text == "" ==>
        r == Err(Error(400, "Lecture ID and text are required")) && comments == old(comments)
      ensures lecture != "" && text != "" ==>
        var c := Comment(newId, lecture, user, text, [], now, now);
        comments == old(comments) + [c] && r == Ok(201, c)
    {
      if lecture == "" || text == "" {
        return Err(Error(400, "Lecture ID and text are required"));
      }
      var c := Comment(newId, lecture, user, text, [], now, now);
      comments := comments + [c];
      r := Ok(201, c);
    }

    /** `addReply` by the authenticated `user` at time `now`. */
    method AddReply(user: Id, commentId: Id, text: string, now: Time) returns (r: Result<Comment>)
      requires Valid() && user != ""
      modifies this
      ensures Valid()
      ensures commentId == "" || text == "" ==>
        r == Err(Error(400, "Comment ID and text are required")) && comments == old(comments)
      ensures commentId != "" && text != "" && IndexOf(old(comments), commentId).None? ==>
        r == Err(Error(404, "Comment not found")) && comments == old(comments)
      ensures commentId != "" && text != "" && IndexOf(old(comments), commentId).Some? ==>
        var i := IndexOf(old(comments), commentId).value;
        && comments == old(comments)[i := WithReply(old(comments)[i], user, text, now)]
        && r == Ok(200, comments[i])
    {
      if commentId == "" || text == "" {
        return Err(Error(400, "Comment ID and text are required"));
      }
      var found := IndexOf(comments, commentId);
      if found.None? {
        return Err(Error(404, "Comment not found"));
      }
      var i := found.value;
      ReplyAppendsAtEnd(comments[i], user, text, now);
      var c := WithReply(comments[i], user, text, now);
      comments := comments[i := c];
      r := Ok(200, c);
    }

    /** `deleteComment` requested by the authenticated `requester`. */
    method DeleteComment(requester: Id, commentId: Id) returns (r: Result<string>)
      requires Valid()
      modifies this
      ensures Valid()
      ensures IndexOf(old(comments), commentId).None? ==>
        r == Err(Error(404, "Comment not found")) && comments == old(comments)
      ensures IndexOf(old(comments), commentId).Some? &&
              old(comments)[IndexOf(old(comments), commentId).value].user != requester ==>
        r == Err(Error(403, "Not authorized to delete this comment")) && comments == old(comments)
      ensures IndexOf(old(comments), commentId).Some? &&
              old(comments)[IndexOf(old(comments), commentId).value].user == requester ==>
        var i := IndexOf(old(comments), commentId).value;
        comments == RemoveAt(old(comments), i) && r == Ok(200, "Comment deleted successfully")
    {
      var found := IndexOf(comments, commentId);
      if found.None? {
        return Err(Error(404, "Comment not found"));
      }
      var i := found.value;
      if comments[i].user != requester {
        return Err(Error(403, "Not authorized to delete this comment"));
      }
      RemoveAtRules(comments, i);
      comments := RemoveAt(comments, i);
      r := Ok(200, "Comment deleted successfully");
    }
  }
}
