/**
 * The post routes' in-memory store: a module-level list of posts and an id
 * counter, the create handler that appends to it, and the list handler that
 * filters, sorts a fresh array in place and cuts out one page.
 */
module PostRoutes {
  import opened Common
  import opened PostQuery

  /** The body of a create request; `None` is a missing field. */
  datatype PostBody = PostBody(
    nickname: Option<string>,
    title: Option<string>,
    content: Option<string>,
    postPassword: Option<string>,
    groupPassword: Option<string>,
    imageUrl: Option<string>,
    tags: Option<seq<string>>,
    location: Option<string>,
    moment: Option<string>,
    isPublic: Option<bool>)

  /** The create handler's required-field check: every one of these must be
      truthy, the `groupId` path parameter included. */
  predicate RequiredFieldsPresent(body: PostBody, groupId: string)
  {
    && Truthy(body.nickname) && Truthy(body.title) && Truthy(body.content)
    && Truthy(body.postPassword) && Truthy(body.groupPassword) && groupId != ""
  }

  /** Ids strictly increase along the store. */
  ghost predicate IdsIncreasing(posts: seq<Post>)
  {
    forall i, j :: 0 <= i < j < |posts| ==> posts[i].id < posts[j].id
  }

  /** Strictly increasing ids are unique ids. */
  lemma IdsUnique(posts: seq<Post>)
    requires IdsIncreasing(posts)
    ensures forall i, j :: 0 <= i < |posts| && 0 <= j < |posts| && i != j ==> posts[i].id != posts[j].id
  {
  }

  /** The list filter keeps the store's increasing id order; with the
      filter's membership rule this fixes its result completely. */
  lemma {:induction false} FilterKeepsIdOrder(posts: seq<Post>, groupId: int, keyword: string, isPublic: bool)
    requires IdsIncreasing(posts)
    ensures IdsIncreasing(Filter(posts, groupId, keyword, isPublic))
  {
    if posts != [] {
      var tail := posts[1..];
      var rest := Filter(tail, groupId, keyword, isPublic);
      assert IdsIncreasing(tail) by {
        forall i, j | 0 <= i < j < |tail| ensures tail[i].id < tail[j].id {
          assert tail[i] == posts[i + 1] && tail[j] == posts[j + 1];
        }
      }
      FilterKeepsIdOrder(tail, groupId, keyword, isPublic);
      if Selected(posts[0], groupId, keyword, isPublic) {
        forall m | 0 <= m < |rest| ensures posts[0].id < rest[m].id {
          assert rest[m] in rest;
          var n :| 0 <= n < |tail| && tail[n] == rest[m];
          assert posts[n + 1] == rest[m];
        }
        IdsIncreasingCons(posts[0], rest);
      }
    }
  }

  /** A post whose id is below every id of an increasing sequence can go in
      front of it. */
  lemma IdsIncreasingCons(p: Post, rest: seq<Post>)
    requires IdsIncreasing(rest)
    requires forall m :: 0 <= m < |rest| ==> p.id < rest[m].id
    ensures IdsIncreasing([p] + rest)
  {
    var r := [p] + rest;
    forall i, j | 0 <= i < j < |r| ensures r[i].id < r[j].id {
      assert r[j] == rest[j - 1];
      if i > 0 {
        assert r[i] == rest[i - 1];
      }
    }
  }

  class PostStore {
    var posts: seq<Post>
    var postIdCounter: int

    /** Every stored id was drawn from the counter: at least 1, below the
        counter, and increasing in store order. */
    ghost predicate Valid()
      reads this
    {
      && postIdCounter >= 1
      && (forall i :: 0 <= i < |posts| ==> 1 <= posts[i].id < postIdCounter)
      && IdsIncreasing(posts)
    }

    /** The store as the module starts it: no posts, the counter at 1. */
    constructor ()
      ensures Valid()
      ensures posts == [] && postIdCounter == 1
    {
      posts := [];
      postIdCounter := 1;
    }

    /** `POST /groups/:groupId/posts`. `groupIdNumber` is `Number(groupId)`
        and `now` the clock reading that becomes `createdAt`. */
    method Create(groupId: string, groupIdNumber: JsNumber, body: PostBody, now: int)
      returns (reply: Reply<Post>)
      requires Valid()
      modifies this
      ensures Valid()
      ensures !RequiredFieldsPresent(body, groupId) ==>
                reply == Reply(StatusBadRequest, None)
                && posts == old(posts) && postIdCounter == old(postIdCounter)
      ensures RequiredFieldsPresent(body, groupId) ==>
                && reply.status == StatusOk && reply.payload.Some?
                && var p := reply.payload.value;
                && posts == old(posts) + [p]
                && p.id == old(postIdCounter) && postIdCounter == old(postIdCounter) + 1
                && p.groupId == groupIdNumber
                && p.nickname == body.nickname.value && p.title == body.title.value
                && p.content == body.content.value
                && p.imageUrl == body.imageUrl && p.tags == body.tags
                && p.location == body.location && p.moment == body.moment
                && p.isPublic == body.isPublic
                && p.likeCount == 0 && p.commentCount == 0 && p.createdAt == now
    {
      if !RequiredFieldsPresent(body, groupId) {
        return Reply(StatusBadRequest, None);
      }
      var newPost := Post(postIdCounter, groupIdNumber, body.nickname.value, body.title.value,
                          body.content.value, body.imageUrl, body.tags, body.location, body.moment,
                          body.isPublic, 0, 0, now);
      postIdCounter := postIdCounter + 1;
      posts := posts + [newPost];
      reply := Reply(StatusOk, Some(newPost));
    }

    /** `GET /groups/:groupId/posts`. `groupIdNumber` is `Number(groupId)`.
        The store is only read. */
    method List(groupIdNumber: JsNumber, query: ListQuery) returns (reply: Reply<ListPage>)
      ensures reply == ListPosts(posts, groupIdNumber, query)
    {
      var page, pageSize := query.PageNumber(), query.PageSizeNumber();
      if page.NaN? || pageSize.NaN? || groupIdNumber.NaN? {
        return Reply(StatusBadRequest, None);
      }
      var filtered := Filter(posts, groupIdNumber.n, query.Keyword(), query.PublicWanted());
      var a := new Post[|filtered|](i requires 0 <= i < |filtered| => filtered[i]);
      assert a[..] == filtered;
      var key := SortKeyOf(query.SortBy());
      if key.Some? {
        SortInPlace(a, key.value);
      }
      var totalItemCount := a.Length;
      var totalPages := TotalPages(totalItemCount, pageSize.n);
      var data := JsSlice(a[..], (page.n - 1) * pageSize.n, page.n * pageSize.n);
      reply := Reply(StatusOk, Some(ListPage(page.n, totalPages, totalItemCount, data)));
    }
  }

  /** `a.sort((x, y) => Key(y) - Key(x))`: a stable insertion sort in place,
      leaving `a` as the descending stable sort of what it held. */
  method SortInPlace(a: array<Post>, k: SortKey)
    modifies a
    ensures a[..] == SortDesc(old(a[..]), k)
  {
    ghost var input := a[..];
    var i := 0;
    while i < a.Length
      invariant 0 <= i <= a.Length
      invariant a[..i] == SortDesc(input[..i], k)
      invariant forall m :: i <= m < a.Length ==> a[m] == input[m]
    {
      SortDescSorted(input[..i], k);
      InsertNext(a, i, k);
      assert input[..i + 1] == input[..i] + [input[i]];
      i := i + 1;
    }
    assert input[..a.Length] == input;
    assert a[..a.Length] == a[..];
  }

  /** One step of the insertion sort: `a[i]` moves left past the posts of
      the sorted prefix whose key is smaller than its own. */
  method InsertNext(a: array<Post>, i: int, k: SortKey)
    requires 0 <= i < a.Length
    requires SortedDesc(a[..i], k)
    modifies a
    ensures a[..i + 1] == Insert(old(a[..i]), old(a[i]), k)
    ensures forall m :: i < m < a.Length ==> a[m] == old(a[m])
  {
    var x := a[i];
    ghost var sorted := a[..i];
    var j := ShiftSmaller(a, i, k);
    InsertAt(sorted, x, k, j);
    ghost var shifted := a[..];
    a[j] := x;
    FillGap(shifted, sorted, x, j, i);
    assert a[..] == shifted[j := x];
  }

  /** The shifting loop of one insertion step: the posts of the prefix
      `a[..i]` ending it whose key is below that of `a[i]` move one place
      right, opening a gap at `j`, the boundary where `a[i]` belongs. */
  method ShiftSmaller(a: array<Post>, i: int, k: SortKey) returns (j: int)
    requires 0 <= i < a.Length
    modifies a
    ensures 0 <= j <= i
    ensures forall m :: 0 <= m < j ==> a[m] == old(a[m])
    ensures forall m :: j < m <= i ==> a[m] == old(a[m - 1])
    ensures forall m :: i < m < a.Length ==> a[m] == old(a[m])
    ensures j > 0 ==> Key(old(a[j - 1]), k) >= Key(old(a[i]), k)
    ensures forall m :: j <= m < i ==> Key(old(a[m]), k) < Key(old(a[i]), k)
  {
    var x := a[i];
    j := i;
    while j > 0 && Key(a[j - 1], k) < Key(x, k)
      invariant 0 <= j <= i
      invariant forall m :: 0 <= m < j ==> a[m] == old(a[m])
      invariant forall m :: j < m <= i ==> a[m] == old(a[m - 1])
      invariant forall m :: i < m < a.Length ==> a[m] == old(a[m])
      invariant forall m :: j <= m < i ==> Key(old(a[m]), k) < Key(x, k)
    {
      a[j] := a[j - 1];
      j := j - 1;
    }
  }

  /** After the shift, `shifted` holds the sorted prefix with a gap at `j`;
      writing `x` into the gap gives `sorted[..j] + [x] + sorted[j..]`. */
  lemma FillGap(shifted: seq<Post>, sorted: seq<Post>, x: Post, j: int, i: int)
    requires 0 <= j <= i < |shifted| && |sorted| == i
    requires forall m :: 0 <= m < j ==> shifted[m] == sorted[m]
    requires forall m :: j < m <= i ==> shifted[m] == sorted[m - 1]
    ensures shifted[j := x][..i + 1] == sorted[..j] + [x] + sorted[j..]
  {
    var filled, inserted := shifted[j := x][..i + 1], sorted[..j] + [x] + sorted[j..];
    forall m | 0 <= m <= i ensures filled[m] == inserted[m] {
      if m < j {
        assert inserted[m] == sorted[m];
      } else if m > j {
        assert inserted[m] == sorted[m - 1];
      }
    }
  }
}
