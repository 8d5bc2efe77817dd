/**
 * The group handlers (create, update, delete, detail, verify-password, like,
 * public-status) over the group collection, kept here as a map from the
 * numeric group id to the group record.
 */
module GroupRoutes {
  import opened Common

  /** A stored group, with the fields and defaults of the group schema. */
  datatype Group = Group(
    id: int,
    name: string,
    password: string,
    imageUrl: Option<string>,
    isPublic: bool,
    introduction: string,
    likeCount: int,
    badges: seq<string>,
    postCount: int,
    createdAt: int)

  /** The body of a create or update request. `isPublic` is `None` when it
      is missing or not a boolean. */
  datatype GroupBody = GroupBody(
    name: Option<string>,
    password: Option<string>,
    imageUrl: Option<string>,
    isPublic: Option<bool>,
    introduction: Option<string>)

  /** The `:groupId` path parameter after the storage layer casts it to the
      numeric id type; a parameter that is not a number fails the cast. */
  datatype IdParam = GroupIdNumber(id: int) | Uncastable

  /** The JSON body of a detail reply. */
  datatype GroupDetail = GroupDetail(
    id: int,
    name: string,
    imageUrl: Option<string>,
    isPublic: bool,
    likeCount: int,
    badgeCount: nat,
    postCount: int,
    createdAt: int,
    introduction: string)

  /** The JSON body of a public-status reply. */
  datatype PublicStatus = PublicStatus(id: int, isPublic: bool)

  /** The create and update handlers' first check. */
  predicate BodyWellFormed(body: GroupBody)
  {
    Truthy(body.name) && Truthy(body.password) && body.isPublic.Some?
  }

  /** The group a successful create stores: `imageUrl || null`,
      `introduction || ""`, and the schema defaults for the counters. */
  function NewGroup(id: int, body: GroupBody, now: int): (g: Group)
    requires BodyWellFormed(body)
    ensures g.id == id && g.name == body.name.value && g.password == body.password.value
    ensures g.isPublic == body.isPublic.value && g.createdAt == now
    ensures g.imageUrl == (if Truthy(body.imageUrl) then body.imageUrl else None)
    ensures g.introduction == (if Truthy(body.introduction) then body.introduction.value else "")
    ensures g.likeCount == 0 && g.badges == [] && g.postCount == 0
  {
    Group(id, body.name.value, body.password.value,
          if Truthy(body.imageUrl) then body.imageUrl else None,
          body.isPublic.value,
          if Truthy(body.introduction) then body.introduction.value else "",
          0, [], 0, now)
  }

  /** Saving a new record: the storage layer refuses a record without an
      `_id`, and the unique index refuses an `_id` already in use. */
  function SaveNew(groups: map<int, Group>, assignedId: Option<int>, body: GroupBody, now: int): (r: Option<Group>)
    requires BodyWellFormed(body)
    ensures r.Some? <==> assignedId.Some? && assignedId.value !in groups
    ensures r.Some? ==> r.value == NewGroup(assignedId.value, body, now)
  {
    if assignedId.None? || assignedId.value in groups then None
    else Some(NewGroup(assignedId.value, body, now))
  }

  /** `POST /groups` as written: the record is built from the body alone,
      and the schema's numeric `_id` has no default, so the record reaches
      `save()` without an `_id` and the handler's `catch` answers 500. */
  function CreateAsWritten(groups: map<int, Group>, body: GroupBody, now: int): (reply: Reply<Group>)
    ensures reply.status == StatusBadRequest <==> !BodyWellFormed(body)
    ensures BodyWellFormed(body) ==> reply == Reply(StatusServerError, None)
    ensures reply.status != StatusCreated
  {
    if !BodyWellFormed(body) then Reply(StatusBadRequest, None)
    else
      match SaveNew(groups, None, body, now)
      case Some(g) => Reply(StatusCreated, Some(g))
      case None => Reply(StatusServerError, None)
  }

  /** A well-formed body that the handler as written refuses, where a
      storage layer that assigns ids would create the group. */
  lemma CreateAsWrittenRefusesWellFormedBody()
    ensures var body := GroupBody(Some("hikers"), Some("secret"), None, Some(true), None);
      && BodyWellFormed(body)
      && CreateAsWritten(map[], body, 0) == Reply(StatusServerError, None)
      && SaveNew(map[], Some(1), body, 0) == Some(NewGroup(1, body, 0))
  {
  }

  /** The update merge: name and visibility are replaced, image and
      introduction only by a truthy value, and the password, counters,
      badges and creation time are kept. */
  function Merged(g: Group, body: GroupBody): (r: Group)
    requires BodyWellFormed(body)
    ensures r.name == body.name.value && r.isPublic == body.isPublic.value
    ensures r.imageUrl == (if Truthy(body.imageUrl) then body.imageUrl else g.imageUrl)
    ensures r.introduction == (if Truthy(body.introduction) then body.introduction.value else g.introduction)
    ensures r.id == g.id && r.password == g.password && r.likeCount == g.likeCount
    ensures r.badges == g.badges && r.postCount == g.postCount && r.createdAt == g.createdAt
  {
    var g1 := g.(name := body.name.value);
    var g2 := g1.(imageUrl := if Truthy(body.imageUrl) then body.imageUrl else g1.imageUrl);
    var g3 := g2.(isPublic := body.isPublic.value);
    g3.(introduction := if Truthy(body.introduction) then body.introduction.value else g3.introduction)
  }

  /** A group record as the handlers leave it: stored under its own id, with
      a non-empty name and password and non-negative counters. */
  ghost predicate GroupValid(id: int, g: Group)
  {
    g.id == id && g.name != "" && g.password != "" && g.likeCount >= 0 && g.postCount >= 0
  }

  /** Merging a well-formed body into a valid group keeps it valid. */
  lemma MergedValid(id: int, g: Group, body: GroupBody)
    requires GroupValid(id, g) && BodyWellFormed(body)
    ensures GroupValid(id, Merged(g, body))
  {
  }

  class GroupStore {
    var groups: map<int, Group>

    ghost predicate Valid()
      reads this
    {
      forall id :: id in groups ==> GroupValid(id, groups[id])
    }

    constructor ()
      ensures Valid() && groups == map[]
    {
      groups := map[];
    }

    /** `POST /groups` as intended: the record is saved under `newId`, an id
        assigned to it before saving, with `now` the clock reading for
        `createdAt`; an id already in use violates the unique index, which
        the handler reports as 500. */
    method Create(body: GroupBody, newId: int, now: int) returns (reply: Reply<Group>)
      requires Valid()
      modifies this
      ensures Valid()
      ensures !BodyWellFormed(body) ==> reply == Reply(StatusBadRequest, None) && groups == old(groups)
      ensures BodyWellFormed(body) && newId in old(groups) ==>
                reply == Reply(StatusServerError, None) && groups == old(groups)
      ensures BodyWellFormed(body) && newId !in old(groups) ==>
                reply == Reply(StatusCreated, Some(NewGroup(newId, body, now)))
                && groups == old(groups)[newId := NewGroup(newId, body, now)]
    {
      if !BodyWellFormed(body) {
        return Reply(StatusBadRequest, None);
      }
      var saved := SaveNew(groups, Some(newId), body, now);
      if saved.None? {
        return Reply(StatusServerError, None);
      }
      groups := groups[newId := saved.value];
      reply := Reply(StatusCreated, Some(saved.value));
    }

    /** `PUT /groups/:groupId`: 400, then a failed id cast (500), then 404,
        then 403; the store changes only on success, and then only in the
        fields the merge rule replaces. */
    method Update(groupId: IdParam, body: GroupBody) returns (reply: Reply<Group>)
      requires Valid()
      modifies this
      ensures Valid()
      ensures !BodyWellFormed(body) ==> reply == Reply(StatusBadRequest, None) && groups == old(groups)
      ensures BodyWellFormed(body) && groupId.Uncastable? ==>
                reply == Reply(StatusServerError, None) && groups == old(groups)
      ensures BodyWellFormed(body) && groupId.GroupIdNumber? && groupId.id !in old(groups) ==>
                reply == Reply(StatusNotFound, None) && groups == old(groups)
      ensures BodyWellFormed(body) && groupId.GroupIdNumber? && groupId.id in old(groups)
              && old(groups)[groupId.id].password != body.password.value ==>
                reply == Reply(StatusForbidden, None) && groups == old(groups)
      ensures BodyWellFormed(body) && groupId.GroupIdNumber? && groupId.id in old(groups)
              && old(groups)[groupId.id].password == body.password.value ==>
                var merged := Merged(old(groups)[groupId.id], body);
                reply == Reply(StatusOk, Some(merged)) && groups == old(groups)[groupId.id := merged]
    {
      if !BodyWellFormed(body) {
        return Reply(StatusBadRequest, None);
      }
      if groupId.Uncastable? {
        return Reply(StatusServerError, None);
      }
      if groupId.id !in groups {
        return Reply(StatusNotFound, None);
      }
      var group := groups[groupId.id];
      if group.password != body.password.value {
        return Reply(StatusForbidden, None);
      }
      group := Merged(group, body);
      MergedValid(groupId.id, groups[groupId.id], body);
      groups := groups[groupId.id := group];
      reply := Reply(StatusOk, Some(group));
    }

    /** `DELETE /groups/:groupId`: a failed id cast (500), 404, then 403 when
        the supplied password (possibly missing) is not the stored one;
        otherwise exactly that group is removed. */
    method Delete(groupId: IdParam, password: Option<string>) returns (status: int)
      requires Valid()
      modifies this
      ensures Valid()
      ensures groupId.Uncastable? ==> status == StatusServerError && groups == old(groups)
      ensures groupId.GroupIdNumber? && groupId.id !in old(groups) ==>
                status == StatusNotFound && groups == old(groups)
      ensures groupId.GroupIdNumber? && groupId.id in old(groups)
              && !StrictlyEquals(old(groups)[groupId.id].password, password) ==>
                status == StatusForbidden && groups == old(groups)
      ensures groupId.GroupIdNumber? && groupId.id in old(groups)
              && StrictlyEquals(old(groups)[groupId.id].password, password) ==>
                status == StatusOk && groups == old(groups) - {groupId.id}
    {
      if groupId.Uncastable? {
        return StatusServerError;
      }
      if groupId.id !in groups {
        return StatusNotFound;
      }
      if !StrictlyEquals(groups[groupId.id].password, password) {
        return StatusForbidden;
      }
      groups := groups - {groupId.id};
      status := StatusOk;
    }

    /** `GET /groups/:groupId`: 400 unless the raw parameter passes the
        object-id validity test (`idLooksValid`), then a failed cast (500),
        then 404; otherwise the record with `badgeCount` the number of
        badges. Nothing changes. */
    method Detail(idLooksValid: bool, groupId: IdParam) returns (reply: Reply<GroupDetail>)
      ensures !idLooksValid ==> reply == Reply(StatusBadRequest, None)
      ensures idLooksValid && groupId.Uncastable? ==> reply == Reply(StatusServerError, None)
      ensures idLooksValid && groupId.GroupIdNumber? && groupId.id !in groups ==>
                reply == Reply(StatusNotFound, None)
      ensures idLooksValid && groupId.GroupIdNumber? && groupId.id in groups ==>
                var g := groups[groupId.id];
                && reply.status == StatusOk && reply.payload.Some?
                && var d := reply.payload.value;
                && d.badgeCount == |g.badges|
                && d.id == g.id && d.name == g.name && d.imageUrl == g.imageUrl
                && d.isPublic == g.isPublic && d.likeCount == g.likeCount
                && d.postCount == g.postCount && d.createdAt == g.createdAt
                && d.introduction == g.introduction
    {
      if !idLooksValid {
        return Reply(StatusBadRequest, None);
      }
      if groupId.Uncastable? {
        return Reply(StatusServerError, None);
      }
      if groupId.id !in groups {
        return Reply(StatusNotFound, None);
      }
      var g := groups[groupId.id];
      reply := Reply(StatusOk, Some(GroupDetail(g.id, g.name, g.imageUrl, g.isPublic, g.likeCount,
                                                |g.badges|, g.postCount, g.createdAt, g.introduction)));
    }

    /** `POST /groups/:groupId/verify-password`: a failed cast (500), 404,
        401 (not 403) on a mismatch, 200 on a match. Nothing changes. */
    method VerifyPassword(groupId: IdParam, password: Option<string>) returns (status: int)
      ensures groupId.Uncastable? ==> status == StatusServerError
      ensures groupId.GroupIdNumber? && groupId.id !in groups ==> status == StatusNotFound
      ensures groupId.GroupIdNumber? && groupId.id in groups ==>
                (status == StatusOk <==> StrictlyEquals(groups[groupId.id].password, password))
                && (status != StatusOk ==> status == StatusUnauthorized)
    {
      if groupId.Uncastable? {
        return StatusServerError;
      }
      if groupId.id !in groups {
        return StatusNotFound;
      }
      if !StrictlyEquals(groups[groupId.id].password, password) {
        return StatusUnauthorized;
      }
      status := StatusOk;
    }

    /** `POST /groups/:groupId/like`: a failed cast (500), 404; otherwise the
        like count goes up by exactly one and nothing else changes. */
    method Like(groupId: IdParam) returns (status: int)
      requires Valid()
      modifies this
      ensures Valid()
      ensures groupId.Uncastable? ==> status == StatusServerError && groups == old(groups)
      ensures groupId.GroupIdNumber? && groupId.id !in old(groups) ==>
                status == StatusNotFound && groups == old(groups)
      ensures groupId.GroupIdNumber? && groupId.id in old(groups) ==>
                var was := old(groups)[groupId.id];
                status == StatusOk && groups == old(groups)[groupId.id := was.(likeCount := was.likeCount + 1)]
    {
      if groupId.Uncastable? {
        return StatusServerError;
      }
      if groupId.id !in groups {
        return StatusNotFound;
      }
      var group := groups[groupId.id];
      group := group.(likeCount := group.likeCount + 1);
      groups := groups[groupId.id := group];
      status := StatusOk;
    }

    /** `GET /groups/:groupId/public-status`: a failed cast (500), 404;
        otherwise the stored visibility. Nothing changes. */
    method PublicStatusOf(groupId: IdParam) returns (reply: Reply<PublicStatus>)
      ensures groupId.Uncastable? ==> reply == Reply(StatusServerError, None)
      ensures groupId.GroupIdNumber? && groupId.id !in groups ==> reply == Reply(StatusNotFound, None)
      ensures groupId.GroupIdNumber? && groupId.id in groups ==>
                reply == Reply(StatusOk, Some(PublicStatus(groupId.id, groups[groupId.id].isPublic)))
    {
      if groupId.Uncastable? {
        return Reply(StatusServerError, None);
      }
      if groupId.id !in groups {
        return Reply(StatusNotFound, None);
      }
      reply := Reply(StatusOk, Some(PublicStatus(groupId.id, groups[groupId.id].isPublic)));
    }
  }
}
