/**
 * What the post-list endpoint computes from the stored posts and a query:
 * a filter on group, title keyword and visibility, an optional descending
 * sort on one key, and a page cut out with JavaScript's `slice`, together
 * with the pagination envelope (current page, total pages, total items).
 */
module PostQuery {
  import opened Common

  /** A stored post. The route validates `postPassword` and `groupPassword`
      but does not keep them. `isPublic` is whatever the request body held:
      `None` when that was missing or not a boolean. */
  datatype Post = Post(
    id: int,
    groupId: JsNumber,
    nickname: string,
    title: string,
    content: string,
    imageUrl: Option<string>,
    tags: Option<seq<string>>,
    location: Option<string>,
    moment: Option<string>,
    isPublic: Option<bool>,
    likeCount: int,
    commentCount: int,
    createdAt: int)

  // ---------------------------------------------------------------------
  // Keyword search

  /** `keyword` occurs in `s` starting at index `i`. */
  ghost predicate OccursAt(s: string, keyword: string, i: nat)
  {
    i + |keyword| <= |s| && s[i..i + |keyword|] == keyword
  }

  /** An occurrence in `s[1..]` is an occurrence in `s`, one place later. */
  lemma OccursShift(s: string, keyword: string)
    requires s != []
    ensures forall i: nat :: OccursAt(s[1..], keyword, i) <==> OccursAt(s, keyword, i + 1)
  {
    forall i: nat ensures OccursAt(s[1..], keyword, i) <==> OccursAt(s, keyword, i + 1) {
      if i + 1 + |keyword| <= |s| {
        assert s[1..][i..i + |keyword|] == s[i + 1..i + 1 + |keyword|];
      }
    }
  }

  /** JavaScript's `s.includes(keyword)`: a case-sensitive substring test;
      the empty keyword occurs everywhere. */
  function Includes(s: string, keyword: string): (r: bool)
    ensures r <==> exists i: nat :: OccursAt(s, keyword, i)
  {
    if keyword <= s then
      assert OccursAt(s, keyword, 0);
      true
    else if s == [] then
      false
    else
      OccursShift(s, keyword);
      assert !OccursAt(s, keyword, 0);
      assert forall i: nat :: OccursAt(s, keyword, i) ==> i == 0 || OccursAt(s[1..], keyword, i - 1);
      Includes(s[1..], keyword)
  }

  // ---------------------------------------------------------------------
  // Filtering

  /** The list filter: strict equality on the numeric group id (NaN equals
      nothing), a keyword occurring in the title, and strict equality of the
      stored `isPublic` with the requested boolean. */
  predicate Selected(p: Post, groupId: int, keyword: string, isPublic: bool)
  {
    p.groupId == Num(groupId) && Includes(p.title, keyword) && p.isPublic == Some(isPublic)
  }

  /** `posts.filter(...)`: the selected posts, in store order. */
  function Filter(posts: seq<Post>, groupId: int, keyword: string, isPublic: bool): (r: seq<Post>)
    ensures |r| <= |posts|
    ensures forall p :: p in r <==> p in posts && Selected(p, groupId, keyword, isPublic)
  {
    if posts == [] then []
    else
      var rest := Filter(posts[1..], groupId, keyword, isPublic);
      assert forall p :: p in posts <==> p == posts[0] || p in posts[1..];
      (if Selected(posts[0], groupId, keyword, isPublic) then [posts[0]] else []) + rest
  }

  /** Filtering a concatenation filters each part and keeps them in order,
      so the filter keeps store order and each stored post at most once. */
  lemma {:induction false} FilterAppend(a: seq<Post>, b: seq<Post>, groupId: int, keyword: string, isPublic: bool)
    ensures Filter(a + b, groupId, keyword, isPublic)
         == Filter(a, groupId, keyword, isPublic) + Filter(b, groupId, keyword, isPublic)
  {
    if a == [] {
      assert a + b == b;
    } else {
      assert (a + b)[0] == a[0];
      assert (a + b)[1..] == a[1..] + b;
      FilterAppend(a[1..], b, groupId, keyword, isPublic);
    }
  }

  /** A single post is kept exactly when it is selected. */
  lemma FilterOne(p: Post, groupId: int, keyword: string, isPublic: bool)
    ensures Filter([p], groupId, keyword, isPublic) == if Selected(p, groupId, keyword, isPublic) then [p] else []
  {
    assert [p][1..] == [];
  }

  // ---------------------------------------------------------------------
  // Sorting

  /** The three sort keys the list understands. */
  datatype SortKey = CreatedAt | CommentCount | LikeCount

  /** `sortBy` as the handler reads it; any other value means no sort. */
  function SortKeyOf(sortBy: string): Option<SortKey>
  {
    if sortBy == "latest" then Some(CreatedAt)
    else if sortBy == "mostCommented" then Some(CommentCount)
    else if sortBy == "mostLiked" then Some(LikeCount)
    else None
  }

  /** The number a comparator `(a, b) => b.key - a.key` subtracts. */
  function Key(p: Post, k: SortKey): int
  {
    match k
    case CreatedAt => p.createdAt
    case CommentCount => p.commentCount
    case LikeCount => p.likeCount
  }

  /** Non-increasing in the key. */
  ghost predicate SortedDesc(s: seq<Post>, k: SortKey)
  {
    forall i, j :: 0 <= i < j < |s| ==> Key(s[i], k) >= Key(s[j], k)
  }

  /** Places `x` after every leading post whose key is at least its own. */
  function Insert(s: seq<Post>, x: Post, k: SortKey): seq<Post>
  {
    if s == [] || Key(s[0], k) < Key(x, k) then [x] + s
    else [s[0]] + Insert(s[1..], x, k)
  }

  /** The stable descending sort that `Array.prototype.sort` performs with a
      comparator `(a, b) => b.key - a.key`: posts with equal keys keep their
      store order. Defined as insertion of each post, left to right. */
  function SortDesc(s: seq<Post>, k: SortKey): seq<Post>
  {
    if s == [] then [] else Insert(SortDesc(s[..|s| - 1], k), s[|s| - 1], k)
  }

  lemma {:induction false} InsertPermutes(s: seq<Post>, x: Post, k: SortKey)
    ensures multiset(Insert(s, x, k)) == multiset(s) + multiset{x}
    ensures |Insert(s, x, k)| == |s| + 1
  {
    if s != [] && Key(s[0], k) >= Key(x, k) {
      InsertPermutes(s[1..], x, k);
      assert s == [s[0]] + s[1..];
    }
  }

  lemma {:induction false} InsertSorted(s: seq<Post>, x: Post, k: SortKey)
    requires SortedDesc(s, k)
    ensures SortedDesc(Insert(s, x, k), k)
  {
    var r := Insert(s, x, k);
    if s != [] && Key(s[0], k) >= Key(x, k) {
      var t := Insert(s[1..], x, k);
      SortedTail(s, k);
      InsertSorted(s[1..], x, k);
      assert forall i :: 0 <= i < |s[1..]| ==> Key(s[1..][i], k) <= Key(s[0], k) by {
        forall i | 0 <= i < |s[1..]| ensures Key(s[1..][i], k) <= Key(s[0], k) {
          assert s[1..][i] == s[i + 1];
        }
      }
      InsertBounded(s[1..], x, k, Key(s[0], k));
      assert r == [s[0]] + t;
      forall a, b | 0 <= a < b < |r| ensures Key(r[a], k) >= Key(r[b], k) {
        assert r[b] == t[b - 1];
        if a > 0 {
          assert r[a] == t[a - 1];
        }
      }
    } else {
      assert r == [x] + s;
      forall a, b | 0 <= a < b < |r| ensures Key(r[a], k) >= Key(r[b], k) {
        assert r[b] == s[b - 1];
        if a > 0 {
          assert r[a] == s[a - 1];
        } else {
          assert Key(s[0], k) >= Key(s[b - 1], k);
        }
      }
    }
  }

  /** Inserting below a bound keeps every key below it. */
  lemma {:induction false} InsertBounded(s: seq<Post>, x: Post, k: SortKey, c: int)
    requires forall i :: 0 <= i < |s| ==> Key(s[i], k) <= c
    requires Key(x, k) <= c
    ensures forall i :: 0 <= i < |Insert(s, x, k)| ==> Key(Insert(s, x, k)[i], k) <= c
  {
    var r := Insert(s, x, k);
    if s != [] && Key(s[0], k) >= Key(x, k) {
      var t := Insert(s[1..], x, k);
      assert forall i :: 0 <= i < |s[1..]| ==> s[1..][i] == s[i + 1];
      InsertBounded(s[1..], x, k, c);
      assert r == [s[0]] + t;
      forall i | 0 <= i < |r| ensures Key(r[i], k) <= c {
        if i > 0 {
          assert r[i] == t[i - 1];
        }
      }
    } else {
      assert r == [x] + s;
      forall i | 0 <= i < |r| ensures Key(r[i], k) <= c {
        if i > 0 {
          assert r[i] == s[i - 1];
        }
      }
    }
  }

  /** Dropping the head of a sorted sequence leaves it sorted. */
  lemma SortedTail(s: seq<Post>, k: SortKey)
    requires s != [] && SortedDesc(s, k)
    ensures SortedDesc(s[1..], k)
  {
    var t := s[1..];
    forall a, b | 0 <= a < b < |t| ensures Key(t[a], k) >= Key(t[b], k) {
      assert t[a] == s[a + 1] && t[b] == s[b + 1];
    }
  }

  /** The sort only reorders: the result is a permutation of its input. */
  lemma {:induction false} SortDescPermutes(s: seq<Post>, k: SortKey)
    ensures multiset(SortDesc(s, k)) == multiset(s)
    ensures |SortDesc(s, k)| == |s|
  {
    if s != [] {
      var init := s[..|s| - 1];
      SortDescPermutes(init, k);
      InsertPermutes(SortDesc(init, k), s[|s| - 1], k);
      assert s == init + [s[|s| - 1]];
    }
  }

  /** The sort's result is non-increasing in its key. */
  lemma {:induction false} SortDescSorted(s: seq<Post>, k: SortKey)
    ensures SortedDesc(SortDesc(s, k), k)
  {
    if s != [] {
      SortDescSorted(s[..|s| - 1], k);
      InsertSorted(SortDesc(s[..|s| - 1], k), s[|s| - 1], k);
    }
  }

  /** Where insertion puts `x` in a sorted sequence: at the boundary `j`
      between the keys at least its own and the keys below it. */
  lemma {:induction false} InsertAt(s: seq<Post>, x: Post, k: SortKey, j: nat)
    requires SortedDesc(s, k)
    requires j <= |s|
    requires j > 0 ==> Key(s[j - 1], k) >= Key(x, k)
    requires j < |s| ==> Key(s[j], k) < Key(x, k)
    ensures Insert(s, x, k) == s[..j] + [x] + s[j..]
  {
    if j > 0 {
      var t := s[1..];
      SortedTail(s, k);
      assert Key(s[0], k) >= Key(x, k) by {
        assert Key(s[0], k) >= Key(s[j - 1], k);
      }
      assert j - 1 > 0 ==> t[j - 2] == s[j - 1];
      assert j - 1 < |t| ==> t[j - 1] == s[j];
      InsertAt(t, x, k, j - 1);
      SplitAfterHead(s, x, j);
    }
  }

  /** Splicing `x` in at `j - 1` after the head is splicing it in at `j`. */
  lemma SplitAfterHead<T>(s: seq<T>, x: T, j: nat)
    requires 0 < j <= |s|
    ensures [s[0]] + (s[1..][..j - 1] + [x] + s[1..][j - 1..]) == s[..j] + [x] + s[j..]
  {
    assert s[1..][..j - 1] == s[1..j];
    assert s[1..][j - 1..] == s[j..];
    assert s[..j] == [s[0]] + s[1..j];
  }

  /** The posts of `s` whose key equals `v`, in order. */
  function WithKey(s: seq<Post>, k: SortKey, v: int): seq<Post>
  {
    if s == [] then []
    else (if Key(s[0], k) == v then [s[0]] else []) + WithKey(s[1..], k, v)
  }

  lemma {:induction false} WithKeyAppend(s: seq<Post>, x: Post, k: SortKey, v: int)
    ensures WithKey(s + [x], k, v) == WithKey(s, k, v) + WithKey([x], k, v)
  {
    if s != [] {
      assert (s + [x])[1..] == s[1..] + [x];
      WithKeyAppend(s[1..], x, k, v);
    }
  }

  lemma {:induction false} WithKeyAbsent(s: seq<Post>, k: SortKey, v: int)
    requires forall i :: 0 <= i < |s| ==> Key(s[i], k) < v
    ensures WithKey(s, k, v) == []
  {
    if s != [] {
      WithKeyAbsent(s[1..], k, v);
    }
  }

  lemma {:induction false} WithKeyInsert(s: seq<Post>, x: Post, k: SortKey, v: int)
    requires SortedDesc(s, k)
    ensures WithKey(Insert(s, x, k), k, v) == WithKey(s, k, v) + WithKey([x], k, v)
    decreases |s|, 1
  {
    if s == [] {
      assert [x] + [] == [x];
    } else if Key(s[0], k) < Key(x, k) {
      WithKeyInsertFront(s, x, k, v);
    } else {
      WithKeyInsertBehind(s, x, k, v);
    }
  }

  /** Insertion behind the head of a sorted sequence: the head's
      contribution comes first on both sides. */
  lemma {:induction false} WithKeyInsertBehind(s: seq<Post>, x: Post, k: SortKey, v: int)
    requires SortedDesc(s, k)
    requires s != [] && Key(s[0], k) >= Key(x, k)
    ensures WithKey(Insert(s, x, k), k, v) == WithKey(s, k, v) + WithKey([x], k, v)
    decreases |s|, 0
  {
    SortedTail(s, k);
    WithKeyInsert(s[1..], x, k, v);
    WithKeyStep(s, Insert(s[1..], x, k), k, v, WithKey([x], k, v));
  }

  /** The head of `s` contributes the same entry to `WithKey(s)` and to the
      key selection of `[s[0]] + t`, ahead of what `t` selects. */
  lemma WithKeyStep(s: seq<Post>, t: seq<Post>, k: SortKey, v: int, last: seq<Post>)
    requires s != []
    requires WithKey(t, k, v) == WithKey(s[1..], k, v) + last
    ensures WithKey([s[0]] + t, k, v) == WithKey(s, k, v) + last
  {
    var h := if Key(s[0], k) == v then [s[0]] else [];
    WithKeyCons(s[0], t, k, v);
    WithKeyCons(s[0], s[1..], k, v);
    assert [s[0]] + s[1..] == s;
    ConcatAssoc(h, WithKey(s[1..], k, v), last);
  }

  lemma ConcatAssoc<T>(a: seq<T>, b: seq<T>, c: seq<T>)
    ensures a + (b + c) == (a + b) + c
  {
  }

  /** Insertion in front of a sorted sequence whose head key is below that
      of `x`: no post of the sequence shares the key of `x`. */
  lemma WithKeyInsertFront(s: seq<Post>, x: Post, k: SortKey, v: int)
    requires SortedDesc(s, k)
    requires s != [] && Key(s[0], k) < Key(x, k)
    ensures WithKey(Insert(s, x, k), k, v) == WithKey(s, k, v) + WithKey([x], k, v)
  {
    var hx := if Key(x, k) == v then [x] else [];
    assert Insert(s, x, k) == [x] + s;
    WithKeyCons(x, s, k, v);
    WithKeyCons(x, [], k, v);
    assert [x] + [] == [x];
    assert WithKey([x], k, v) == hx;
    if Key(x, k) == v {
      assert forall i :: 0 <= i < |s| ==> Key(s[i], k) < v by {
        forall i | 0 <= i < |s| ensures Key(s[i], k) < v {
          assert Key(s[i], k) <= Key(s[0], k);
        }
      }
      WithKeyAbsent(s, k, v);
      assert WithKey(Insert(s, x, k), k, v) == hx + [];
    } else {
      assert WithKey(Insert(s, x, k), k, v) == WithKey(s, k, v);
    }
  }

  /** One step of `WithKey`: the head is kept exactly when its key is `v`. */
  lemma WithKeyCons(p: Post, t: seq<Post>, k: SortKey, v: int)
    ensures WithKey([p] + t, k, v) == (if Key(p, k) == v then [p] else []) + WithKey(t, k, v)
  {
    assert ([p] + t)[0] == p;
    assert ([p] + t)[1..] == t;
  }

  /** Stability: among posts with equal keys, the sort keeps store order. */
  lemma {:induction false} SortDescStable(s: seq<Post>, k: SortKey, v: int)
    ensures WithKey(SortDesc(s, k), k, v) == WithKey(s, k, v)
  {
    if s != [] {
      var init, last := s[..|s| - 1], s[|s| - 1];
      SortDescStable(init, k, v);
      SortDescSorted(init, k);
      WithKeyInsert(SortDesc(init, k), last, k, v);
      assert s == init + [last];
      WithKeyAppend(init, last, k, v);
    }
  }

  // ---------------------------------------------------------------------
  // Paging

  /** How `slice` reads an index: a negative one counts back from the end;
      the result is clamped to `0..len`. */
  function SliceIndex(i: int, len: nat): (r: nat)
    ensures r <= len
    ensures 0 <= i <= len ==> r == i
    ensures i > len ==> r == len
  {
    if i < 0 then (if len + i < 0 then 0 else len + i)
    else if i < len then i
    else len
  }

  /** JavaScript's `s.slice(start, end)`. */
  function JsSlice<T>(s: seq<T>, start: int, end: int): (r: seq<T>)
    ensures |r| <= |s|
  {
    var from, to := SliceIndex(start, |s|), SliceIndex(end, |s|);
    if from < to then s[from..to] else []
  }

  /** Whatever the indices, a slice holds only elements of the sequence. */
  lemma JsSliceMembers<T>(s: seq<T>, start: int, end: int)
    ensures forall x :: x in JsSlice(s, start, end) ==> x in s
  {
    var from, to := SliceIndex(start, |s|), SliceIndex(end, |s|);
    if from < to {
      forall x | x in s[from..to] ensures x in s {
        var idx :| 0 <= idx < to - from && s[from..to][idx] == x;
        assert s[from + idx] == x;
      }
    }
  }

  /** A window of `size` elements from a non-negative `start`: the elements
      from `start` on, at most `size` of them, none when `start` is past the
      end. */
  lemma JsSliceWindow<T>(s: seq<T>, start: int, size: int)
    requires start >= 0 && size >= 1
    ensures var r := JsSlice(s, start, start + size);
      && |r| <= size
      && (start >= |s| ==> r == [])
      && (start < |s| ==>
            |r| == (if start + size <= |s| then size else |s| - start)
            && forall i :: 0 <= i < |r| ==> r[i] == s[start + i])
  {
  }

  /** Entry `offset` of a window is element `start + offset`. */
  lemma JsSliceAt<T>(s: seq<T>, start: int, size: int, offset: int)
    requires start >= 0 && 0 <= offset < size && start + offset < |s|
    ensures offset < |JsSlice(s, start, start + size)|
    ensures JsSlice(s, start, start + size)[offset] == s[start + offset]
  {
  }

  /** `Math.ceil(total / pageSize)` as the JSON reply carries it: division by
      zero yields Infinity or NaN, which JSON writes as `null` (`None`). */
  function TotalPages(total: nat, pageSize: int): Option<int>
  {
    if pageSize > 0 then Some((total + pageSize - 1) / pageSize)
    else if pageSize == 0 then None
    else Some(-(total / -pageSize))
  }

  /** For a positive page size the page count is the ceiling of the
      quotient: the smallest count whose pages hold every item. */
  lemma TotalPagesIsCeiling(total: nat, pageSize: int)
    requires pageSize >= 1
    ensures TotalPages(total, pageSize).Some?
    ensures var pages := TotalPages(total, pageSize).value;
      pages >= 0 && pages * pageSize >= total && (pages > 0 ==> (pages - 1) * pageSize < total)
  {
    var pages := (total + pageSize - 1) / pageSize;
    var rem := (total + pageSize - 1) % pageSize;
    assert total + pageSize - 1 == pages * pageSize + rem;
    assert pages * pageSize >= total;
    assert (pages - 1) * pageSize == pages * pageSize - pageSize;
  }

  // ---------------------------------------------------------------------
  // The list request

  /** The query string of a list request; a missing parameter is `None`.
      `page` and `pageSize` are already passed through `Number(...)`. */
  datatype ListQuery = ListQuery(
    page: Option<JsNumber>,
    pageSize: Option<JsNumber>,
    sortBy: Option<string>,
    keyword: Option<string>,
    isPublic: Option<string>)
  {
    /** `page`, defaulting to 1. */
    function PageNumber(): JsNumber { if page.Some? then page.value else Num(1) }
    /** `pageSize`, defaulting to 10. */
    function PageSizeNumber(): JsNumber { if pageSize.Some? then pageSize.value else Num(10) }
    /** `sortBy`, defaulting to "latest". */
    function SortBy(): string { if sortBy.Some? then sortBy.value else "latest" }
    /** `keyword`, defaulting to the empty string. */
    function Keyword(): string { if keyword.Some? then keyword.value else "" }
    /** `isPublic === 'true'`, the parameter defaulting to "true": any other
        string asks for the posts that are not public. */
    function PublicWanted(): bool { (if isPublic.Some? then isPublic.value else "true") == "true" }
  }

  /** The JSON body of a successful list reply. */
  datatype ListPage = ListPage(currentPage: int, totalPages: Option<int>, totalItemCount: nat, data: seq<Post>)

  /** The filtered posts, sorted when `sortBy` names a key. */
  function Arranged(filtered: seq<Post>, sortBy: string): seq<Post>
  {
    match SortKeyOf(sortBy)
    case Some(k) => SortDesc(filtered, k)
    case None => filtered
  }

  /** `arranged.slice((page - 1) * pageSize, page * pageSize)`. */
  function PageWindow(arranged: seq<Post>, page: int, pageSize: int): seq<Post>
  {
    JsSlice(arranged, (page - 1) * pageSize, page * pageSize)
  }

  /** The list endpoint over a store: 400 when page, page size or group id is
      NaN, and otherwise the requested page of the arranged posts. */
  function ListPosts(posts: seq<Post>, groupId: JsNumber, query: ListQuery): Reply<ListPage>
  {
    var page, pageSize := query.PageNumber(), query.PageSizeNumber();
    if page.NaN? || pageSize.NaN? || groupId.NaN? then
      Reply(StatusBadRequest, None)
    else
      var arranged := Arranged(Filter(posts, groupId.n, query.Keyword(), query.PublicWanted()), query.SortBy());
      var total := |arranged|;
      Reply(StatusOk, Some(ListPage(page.n, TotalPages(total, pageSize.n), total,
        PageWindow(arranged, page.n, pageSize.n))))
  }

  /** NaN is the only thing the list rejects: a zero or negative page or page
      size gets a 200 reply. */
  lemma ListRejectsOnlyNaN(posts: seq<Post>, groupId: JsNumber, query: ListQuery)
    ensures var reply := ListPosts(posts, groupId, query);
      (reply.status == StatusBadRequest <==>
         query.PageNumber().NaN? || query.PageSizeNumber().NaN? || groupId.NaN?)
      && (reply.status != StatusBadRequest ==> reply.status == StatusOk && reply.payload.Some?)
  {
  }

  /** Sorting reorders the filtered posts and nothing else: a permutation,
      non-increasing in the named key, and store order for any other
      `sortBy`. */
  lemma ArrangedReorders(filtered: seq<Post>, sortBy: string)
    ensures multiset(Arranged(filtered, sortBy)) == multiset(filtered)
    ensures |Arranged(filtered, sortBy)| == |filtered|
    ensures SortKeyOf(sortBy).Some? ==> SortedDesc(Arranged(filtered, sortBy), SortKeyOf(sortBy).value)
    ensures SortKeyOf(sortBy).None? ==> Arranged(filtered, sortBy) == filtered
  {
    if SortKeyOf(sortBy).Some? {
      SortDescPermutes(filtered, SortKeyOf(sortBy).value);
      SortDescSorted(filtered, SortKeyOf(sortBy).value);
    }
  }

  /** Every listed post is a stored post that passes the filter, whatever the
      page and page size. */
  lemma ListedPostsSelected(posts: seq<Post>, groupId: int, query: ListQuery)
    requires query.PageNumber().Num? && query.PageSizeNumber().Num?
    ensures var reply := ListPosts(posts, Num(groupId), query);
      reply.payload.Some?
      && forall p :: p in reply.payload.value.data ==>
           p in posts && Selected(p, groupId, query.Keyword(), query.PublicWanted())
  {
    var filtered := Filter(posts, groupId, query.Keyword(), query.PublicWanted());
    var arranged := Arranged(filtered, query.SortBy());
    ArrangedReorders(filtered, query.SortBy());
    var page, size := query.PageNumber().n, query.PageSizeNumber().n;
    var data := PageWindow(arranged, page, size);
    assert ListPosts(posts, Num(groupId), query).payload.value.data == data;
    JsSliceMembers(arranged, (page - 1) * size, page * size);
    forall p | p in data ensures p in filtered {
      assert p in multiset(arranged);
    }
  }

  /** With page >= 1 and page size >= 1 the envelope counts every filtered
      post, and the page count is the ceiling of that count over the page
      size. */
  lemma ListEnvelope(posts: seq<Post>, groupId: int, query: ListQuery)
    requires query.PageNumber().Num? && query.PageNumber().n >= 1
    requires query.PageSizeNumber().Num? && query.PageSizeNumber().n >= 1
    ensures var reply := ListPosts(posts, Num(groupId), query);
      var total := |Filter(posts, groupId, query.Keyword(), query.PublicWanted())|;
      var size := query.PageSizeNumber().n;
      && reply.status == StatusOk && reply.payload.Some?
      && reply.payload.value.currentPage == query.PageNumber().n
      && reply.payload.value.totalItemCount == total
      && reply.payload.value.totalPages.Some?
      && var pages := reply.payload.value.totalPages.value;
         pages >= 0 && pages * size >= total && (pages > 0 ==> (pages - 1) * size < total)
  {
    var filtered := Filter(posts, groupId, query.Keyword(), query.PublicWanted());
    ArrangedReorders(filtered, query.SortBy());
    TotalPagesIsCeiling(|filtered|, query.PageSizeNumber().n);
  }

  /** `data` is page `page` of `arranged` for pages of `size`: the posts
      from `(page-1)*size` on, at most `size` of them, element by element
      the arranged ones, and none past the end. */
  predicate IsPageOf(data: seq<Post>, arranged: seq<Post>, page: int, size: int)
  {
    var start := (page - 1) * size;
    && |data| <= size
    && (start >= |arranged| ==> data == [])
    && (start < |arranged| ==>
          |data| == (if page * size <= |arranged| then size else |arranged| - start)
          && forall i :: 0 <= i < |data| ==> 0 <= start + i < |arranged| && data[i] == arranged[start + i])
  }

  /** With page >= 1 and page size >= 1 the data is the window
      `[(page-1)*pageSize, page*pageSize)` of the arranged posts, cut off at
      the end: at most a page size of posts, and none past the last page. */
  lemma ListWindow(posts: seq<Post>, groupId: int, query: ListQuery)
    requires query.PageNumber().Num? && query.PageNumber().n >= 1
    requires query.PageSizeNumber().Num? && query.PageSizeNumber().n >= 1
    ensures var reply := ListPosts(posts, Num(groupId), query);
      && reply.payload.Some?
      && IsPageOf(reply.payload.value.data,
                  Arranged(Filter(posts, groupId, query.Keyword(), query.PublicWanted()), query.SortBy()),
                  query.PageNumber().n, query.PageSizeNumber().n)
  {
    var arranged := Arranged(Filter(posts, groupId, query.Keyword(), query.PublicWanted()), query.SortBy());
    ListData(posts, groupId, query);
    PageWindowShape(arranged, query.PageNumber().n, query.PageSizeNumber().n);
  }

  /** For a numeric page and page size the data is the page window of the
      arranged posts. */
  lemma ListData(posts: seq<Post>, groupId: int, query: ListQuery)
    requires query.PageNumber().Num? && query.PageSizeNumber().Num?
    ensures var reply := ListPosts(posts, Num(groupId), query);
      && reply.payload.Some?
      && reply.payload.value.data
         == PageWindow(Arranged(Filter(posts, groupId, query.Keyword(), query.PublicWanted()), query.SortBy()),
                       query.PageNumber().n, query.PageSizeNumber().n)
  {
  }

  /** The page window for page >= 1 and page size >= 1, on any sequence. */
  lemma PageWindowShape(arranged: seq<Post>, page: int, size: int)
    requires page >= 1 && size >= 1
    ensures IsPageOf(PageWindow(arranged, page, size), arranged, page, size)
  {
    PageBounds(page, size);
    JsSliceWindow(arranged, (page - 1) * size, size);
  }

  /** The window of page `page` starts at a non-negative index and is one
      page size long. */
  lemma PageBounds(page: int, size: int)
    requires page >= 1 && size >= 1
    ensures (page - 1) * size >= 0
    ensures page * size == (page - 1) * size + size
  {
  }

  /** Euclidean division of an item index by the page size, as the page
      window reads it. */
  lemma PageArithmetic(i: nat, size: int)
    requires size >= 1
    ensures i / size >= 0 && 0 <= i % size < size
    ensures i == (i / size) * size + i % size
    ensures (i / size + 1 - 1) * size == (i / size) * size
    ensures (i / size + 1) * size == (i / size) * size + size
  {
  }

  /** Every arranged post is listed on a page computable from its index:
      post `i` is entry `i % pageSize` of page `i / pageSize + 1`. */
  lemma ListPageOf(posts: seq<Post>, groupId: int, query: ListQuery, i: nat)
    requires query.PageSizeNumber().Num? && query.PageSizeNumber().n >= 1
    requires query.PageNumber() == Num(i / query.PageSizeNumber().n + 1)
    requires i < |Arranged(Filter(posts, groupId, query.Keyword(), query.PublicWanted()), query.SortBy())|
    ensures var reply := ListPosts(posts, Num(groupId), query);
      var arranged := Arranged(Filter(posts, groupId, query.Keyword(), query.PublicWanted()), query.SortBy());
      reply.payload.Some?
      && i % query.PageSizeNumber().n < |reply.payload.value.data|
      && reply.payload.value.data[i % query.PageSizeNumber().n] == arranged[i]
  {
    var size := query.PageSizeNumber().n;
    var arranged := Arranged(Filter(posts, groupId, query.Keyword(), query.PublicWanted()), query.SortBy());
    assert ListPosts(posts, Num(groupId), query).payload.value.data == PageWindow(arranged, i / size + 1, size);
    PageWindowAt(arranged, size, i);
  }

  /** Post `i` is entry `i % pageSize` of page `i / pageSize + 1`. */
  lemma PageWindowAt(arranged: seq<Post>, size: int, i: nat)
    requires size >= 1 && i < |arranged|
    ensures i % size < |PageWindow(arranged, i / size + 1, size)|
    ensures PageWindow(arranged, i / size + 1, size)[i % size] == arranged[i]
  {
    var pg, offset := i / size, i % size;
    PageArithmetic(i, size);
    JsSliceAt(arranged, pg * size, size, offset);
  }
}
