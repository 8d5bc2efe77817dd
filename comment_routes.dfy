/**
 * The comment edit and delete handlers over the comment collection, kept
 * here as a map from comment id to comment, and the id validator both use.
 */
module CommentRoutes {
  import opened Common

  predicate IsHexDigit(c: char)
  {
    '0' <= c <= '9' || 'a' <= c <= 'f' || 'A' <= c <= 'F'
  }

  /** The regular expression `[0-9a-fA-F]{n}$` matched at the start of `s`:
      `n` hex digits, then the end of the input. */
  function HexRun(s: string, n: nat): (r: bool)
    ensures r <==> |s| == n && forall i :: 0 <= i < |s| ==> IsHexDigit(s[i])
  {
    if n == 0 then s == []
    else
      s != [] && IsHexDigit(s[0]) && HexRun(s[1..], n - 1)
  }

  /** `/^[0-9a-fA-F]{24}$/.test(id)`: exactly 24 characters, all hex. */
  function IsValidObjectId(id: string): (r: bool)
    ensures r <==> |id| == 24 && forall i :: 0 <= i < |id| ==> IsHexDigit(id[i])
  {
    HexRun(id, 24)
  }

  /** A hex digit as an object id prints it: lower case. */
  function LowerHexDigit(c: char): char
  {
    if 'A' <= c <= 'F' then (c as int - 'A' as int + 'a' as int) as char else c
  }

  /** The id under which the storage layer finds a comment: a valid id is
      decoded into an object id whatever the case of its hex digits, and an
      object id prints its digits in lower case. */
  function CanonicalId(id: string): (r: string)
    ensures |r| == |id|
    ensures forall i :: 0 <= i < |id| ==> r[i] == LowerHexDigit(id[i])
  {
    if id == [] then [] else [LowerHexDigit(id[0])] + CanonicalId(id[1..])
  }

  /** A valid id stays valid in its canonical form, and the canonical form
      is its own canonical form. */
  lemma CanonicalIdValid(id: string)
    requires IsValidObjectId(id)
    ensures IsValidObjectId(CanonicalId(id))
    ensures CanonicalId(CanonicalId(id)) == CanonicalId(id)
  {
    var c := CanonicalId(id);
    assert forall i :: 0 <= i < |c| ==> IsHexDigit(c[i]) && LowerHexDigit(c[i]) == c[i];
    assert CanonicalId(c) == c;
  }

  /** A stored comment. Its `updatedAt` timestamp, which the storage layer
      maintains, is not modelled. */
  datatype Comment = Comment(postId: string, nickname: string, content: string, password: string, createdAt: int)

  /** The body of an edit request; `None` is a missing field. */
  datatype EditBody = EditBody(nickname: Option<string>, content: Option<string>, password: Option<string>)

  /** The JSON body of a successful edit. */
  datatype EditedComment = EditedComment(id: string, nickname: string, content: string, createdAt: int)

  /** The edit handler's first check, made before any lookup. */
  predicate EditRequestWellFormed(commentId: string, body: EditBody)
  {
    Truthy(body.nickname) && Truthy(body.content) && Truthy(body.password) && IsValidObjectId(commentId)
  }

  /** The delete handler's first check, made before any lookup. */
  predicate DeleteRequestWellFormed(commentId: string, password: Option<string>)
  {
    Truthy(password) && IsValidObjectId(commentId)
  }

  class CommentStore {
    var comments: map<string, Comment>

    /** Comments are stored under object ids in their canonical form. */
    ghost predicate Valid()
      reads this
    {
      forall id :: id in comments ==> IsValidObjectId(id) && CanonicalId(id) == id
    }

    constructor (initial: map<string, Comment>)
      requires forall id :: id in initial ==> IsValidObjectId(id) && CanonicalId(id) == id
      ensures Valid() && comments == initial
    {
      comments := initial;
    }

    /** `PUT /comments/:commentId`: 400 on a missing field or a malformed id,
        then 404 for an unknown comment, 403 on a wrong password; otherwise
        the nickname and content are replaced and nothing else changes. The
        comment is looked up, and echoed, under the canonical id. */
    method Edit(commentId: string, body: EditBody) returns (reply: Reply<EditedComment>)
      requires Valid()
      modifies this
      ensures Valid()
      ensures !EditRequestWellFormed(commentId, body) ==>
                reply == Reply(StatusBadRequest, None) && comments == old(comments)
      ensures EditRequestWellFormed(commentId, body) && CanonicalId(commentId) !in old(comments) ==>
                reply == Reply(StatusNotFound, None) && comments == old(comments)
      ensures EditRequestWellFormed(commentId, body) && CanonicalId(commentId) in old(comments)
              && old(comments)[CanonicalId(commentId)].password != body.password.value ==>
                reply == Reply(StatusForbidden, None) && comments == old(comments)
      ensures EditRequestWellFormed(commentId, body) && CanonicalId(commentId) in old(comments)
              && old(comments)[CanonicalId(commentId)].password == body.password.value ==>
                var was := old(comments)[CanonicalId(commentId)];
                && comments == old(comments)[CanonicalId(commentId) :=
                     was.(nickname := body.nickname.value, content := body.content.value)]
                && reply == Reply(StatusOk, Some(EditedComment(CanonicalId(commentId), body.nickname.value,
                                                               body.content.value, was.createdAt)))
    {
      if !EditRequestWellFormed(commentId, body) {
        return Reply(StatusBadRequest, None);
      }
      var key := CanonicalId(commentId);
      if key !in comments {
        return Reply(StatusNotFound, None);
      }
      var comment := comments[key];
      if comment.password != body.password.value {
        return Reply(StatusForbidden, None);
      }
      comment := comment.(nickname := body.nickname.value);
      comment := comment.(content := body.content.value);
      comments := comments[key := comment];
      reply := Reply(StatusOk, Some(EditedComment(key, comment.nickname, comment.content, comment.createdAt)));
    }

    /** `DELETE /comments/:commentId`: 400 on a missing password or a
        malformed id, then 404 and 403 as for editing; otherwise exactly that
        comment is removed. The comment is looked up under the canonical id. */
    method Delete(commentId: string, password: Option<string>) returns (status: int)
      requires Valid()
      modifies this
      ensures Valid()
      ensures !DeleteRequestWellFormed(commentId, password) ==>
                status == StatusBadRequest && comments == old(comments)
      ensures DeleteRequestWellFormed(commentId, password) && CanonicalId(commentId) !in old(comments) ==>
                status == StatusNotFound && comments == old(comments)
      ensures DeleteRequestWellFormed(commentId, password) && CanonicalId(commentId) in old(comments)
              && old(comments)[CanonicalId(commentId)].password != password.value ==>
                status == StatusForbidden && comments == old(comments)
      ensures DeleteRequestWellFormed(commentId, password) && CanonicalId(commentId) in old(comments)
              && old(comments)[CanonicalId(commentId)].password == password.value ==>
                status == StatusOk && comments == old(comments) - {CanonicalId(commentId)}
    {
      if !DeleteRequestWellFormed(commentId, password) {
        return StatusBadRequest;
      }
      var key := CanonicalId(commentId);
      if key !in comments {
        return StatusNotFound;
      }
      if comments[key].password != password.value {
        return StatusForbidden;
      }
      comments := comments - {key};
      status := StatusOk;
    }
  }
}
