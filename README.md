# Codeit memory-board backend, modelled in Dafny

This project models the request handlers at the core of a small Express
backend. Groups share "memories", which are posts, and the posts carry
comments. The model covers four parts of that backend:

- **Badge rules** (`BadgeService`, `badge_service.dfy`). The evaluator checks a
  group record against four threshold rules and returns the badges it earns,
  in rule order. The badges are:
  - `memory-count-20`: at least 20 memories;
  - `memory-streak-7`: a memory streak of at least 7;
  - `space-received-10000`: at least 10000 space received;
  - `like-count-10000`: at least 10000 likes.

  Missing statistics count as zero. A missing `memories` counts as an empty
  array. A null or non-object argument earns nothing.
- **Posts** (`PostQuery`, `post_query.dfy`; `PostRoutes`, `post_routes.dfy`).
  The posts live in an in-memory list with an id counter. Creating a post
  checks the required fields, draws the next id and appends the post.
  Listing posts works in six steps:
  1. `Number(...)` coerces page, page size and group id; a NaN among them is
     a 400;
  2. the posts are filtered by group, by title substring and by visibility;
  3. the filtered posts are sorted, stably and in descending order, by
     creation time, comment count or like count;
  4. the posts are counted;
  5. one page is cut out with JavaScript `slice` semantics;
  6. the page count is reported as `Math.ceil(total / pageSize)`.

  `PostQuery` gives the pure reference for this pipeline. `PostStore.List`
  runs it over an array, with an in-place insertion sort, and is proved equal
  to the reference.
- **Comments** (`CommentRoutes`, `comment_routes.dfy`). Editing a comment
  first requires a truthy nickname, content and password and a
  24-hex-digit object id. Deleting one requires a truthy password and a valid
  id. The storage layer reads the id as an object id, whatever the case of
  its hex digits, so comments are stored and found under the lower-case form.
  Then a missing comment gives 404 and a wrong password gives 403. A
  successful edit replaces only the nickname and the content. A successful
  delete removes only that comment.
- **Groups** (`GroupRoutes`, `group_routes.dfy`). This part covers creating,
  updating, deleting, showing, password checking, liking and reporting the
  visibility of a group, over a map from the numeric group id to the record.
  A path parameter that cannot be cast to a number makes the lookup throw,
  which the handler's `catch` turns into a 500. Creating a group, as the
  code is written, always fails; see "## Findings".

`Common` (`common.dfy`) holds the JavaScript notions the handlers rely on:
- the truthiness of an optional string field;
- strict equality against a possibly missing value;
- the result of `Number()`;
- the status-and-payload shape of a reply.

In several places the code does less checking than a design for this API
might suggest, and the model keeps the code's behaviour:
- an unknown `sortBy` leaves the filtered order unchanged rather than being
  rejected;
- a zero or negative page or page size is not rejected;
- the keyword match is case-sensitive;
- any `isPublic` query value other than `"true"` selects the posts that are
  not public.

## Model

| member | source | states |
|---|---|---|
| BadgeService.CheckAndAssignBadges | services/badgeService.js:3-38 | A non-object earns nothing. Each badge is present exactly when its rule holds on the defaulted statistics, with `memories` counting only when it is an array. The result is in rule order with no repeats and matches the table-driven reference `Earned`. |
| BadgeService.EarnedRules | services/badgeService.js:12-33 | For the table-driven reference: the four if-and-only-if rules, with missing numbers read as 0 and a missing `memories` as empty; a non-object earns `[]`. |
| BadgeService.EarnedDistinct | services/badgeService.js:19-37 | The evaluator's list is strictly in rule order, never repeats a badge and has at most four entries. |
| BadgeService.EarnedMonotone | services/badgeService.js:19-33 | Raising a group's statistics never takes away a badge it already earned. |
| BadgeService.SelectRulesMembers | services/badgeService.js:19-33 | A badge is selected from a rule list exactly when its rule is in the list and fires. |
| BadgeService.TokensDistinct | services/badgeService.js:20-32 | Distinct badges are pushed as distinct string tokens. |
| PostQuery.Includes | routes/posts.js:71 | `title.includes(keyword)` holds exactly when the keyword occurs at some index of the title; the empty keyword occurs everywhere. |
| PostQuery.Filter | routes/posts.js:69-73 | A post is kept exactly when it is stored, has the numeric group id, contains the keyword and has the requested visibility; the result is no longer than the store. |
| PostQuery.FilterAppend | routes/posts.js:69-73 | Filtering a concatenation is the concatenation of the filtered parts, so the filter keeps store order and never repeats a stored post. |
| PostQuery.FilterOne | routes/posts.js:69-73 | A single post is kept exactly when it is selected. |
| PostRoutes.FilterKeepsIdOrder | routes/posts.js:69-73 | Over the store, whose ids increase, the filtered posts keep increasing ids, so they appear in store order, each once. |
| PostQuery.SortDescPermutes | routes/posts.js:76-82 | Sorting is a permutation of the filtered posts. |
| PostQuery.SortDescSorted | routes/posts.js:76-82 | The sorted posts are non-increasing in the comparator's key. |
| PostQuery.SortDescStable | routes/posts.js:76-82 | Posts with equal keys keep their store order, as `Array.prototype.sort` guarantees. |
| PostQuery.InsertAt | routes/posts.js:76-82 | Inserting into a sorted sequence puts the post at the boundary between the keys at or above its own and the keys below it. |
| PostQuery.SliceIndex | routes/posts.js:87 | A `slice` index is clamped into the sequence: unchanged inside it, the length past the end. |
| PostQuery.JsSliceWindow | routes/posts.js:87 | A slice from a non-negative start of one page size holds the elements from that start, at most a page size of them, and none past the end. |
| PostQuery.TotalPagesIsCeiling | routes/posts.js:86 | For a positive page size, the page count is the least count whose pages hold every item. |
| PostQuery.ListRejectsOnlyNaN | routes/posts.js:58-66 | The list answers 400 exactly when page, page size or group id is NaN, and 200 with a body otherwise. |
| PostQuery.ArrangedReorders | routes/posts.js:75-82 | The arranged posts are a permutation of the filtered ones: sorted by the named key, or untouched for any other `sortBy`. |
| PostQuery.ListedPostsSelected | routes/posts.js:69-87 | Every listed post is a stored post that passes the filter, whatever the page and page size. |
| PostQuery.ListEnvelope | routes/posts.js:85-94 | With page and page size at least 1, the reply is 200 and echoes the page. It counts every filtered post, and its page count is the ceiling of that count over the page size. |
| PostQuery.ListWindow | routes/posts.js:87-93 | With page and page size at least 1, the data is the arranged posts from `(page-1)*pageSize` on, at most a page size of them. They are element by element the arranged ones, and there are none past the last page. |
| PostQuery.ListPageOf | routes/posts.js:87 | Arranged post `i` is entry `i % pageSize` of page `i / pageSize + 1`, so the pages together list every post. |
| PostRoutes.IdsUnique | routes/posts.js:7-8 | Ids drawn from the increasing counter are unique across the store. |
| PostRoutes.PostStore.Create | routes/posts.js:11-53 | A missing required field or group id gives 400 and leaves the store and counter unchanged. Otherwise the new post gets the old counter value as its id, the counter goes up by one and the post is appended. Every field is copied from the body, the counts start at 0 and `createdAt` is the given time. The store's ids stay below the counter and strictly increasing. |
| PostRoutes.PostStore.List | routes/posts.js:54-95 | The handler's reply, computed in place over an array, is the reference `ListPosts` reply. |
| PostRoutes.SortInPlace | routes/posts.js:76-82 | The in-place sort leaves the array as the stable descending sort of its old contents. |
| PostRoutes.InsertNext | routes/posts.js:76-82 | One insertion step moves the next post into place in the sorted prefix and leaves the rest of the array alone. |
| CommentRoutes.IsValidObjectId | routes/comments.js:7-9 | An id is valid exactly when it has 24 characters, all hex digits. |
| CommentRoutes.HexRun | routes/comments.js:8 | The anchored pattern of `n` hex digits matches exactly the strings of length `n` made of hex digits. |
| CommentRoutes.CanonicalId | routes/comments.js:30 | The object id a hex id decodes to, printed back: every hex letter in lower case, the length unchanged. |
| CommentRoutes.CanonicalIdValid | routes/comments.js:30 | A valid id stays valid in its canonical form, and canonicalising twice changes nothing. |
| CommentRoutes.CommentStore.Edit | routes/comments.js:14-58 | The handler answers 400 on a missing field or malformed id, 404 when no comment has the id (matched case-insensitively) and 403 on a wrong password, in that order, each leaving the store unchanged. On success only that comment's nickname and content change. The reply echoes the lower-case id, the nickname, the content and the creation time. |
| CommentRoutes.CommentStore.Delete | routes/comments.js:59-96 | The handler answers 400, 404 and 403 as for editing, each leaving the store unchanged. On success exactly the comment with that id (matched case-insensitively) is removed. |
| GroupRoutes.NewGroup | routes/groups.js:24-30 | A new group takes the name, password and visibility from the body, `imageUrl \|\| null` and `introduction \|\| ""`, zero counters, no badges and the given creation time. |
| GroupRoutes.Merged | routes/groups.js:69-72 | An update replaces the name and visibility. It replaces the image and introduction only with a truthy value, and keeps the id, password, counters, badges and creation time. |
| GroupRoutes.MergedValid | routes/groups.js:54-72 | Merging a well-formed body keeps a group valid: its own id, a non-empty name and password, and non-negative counters. |
| GroupRoutes.SaveNew | routes/groups.js:32 | Saving a new record succeeds exactly when it carries an `_id` not yet in use, and stores the new group under that id. |
| GroupRoutes.CreateAsWritten | routes/groups.js:8-39 | As written, the handler answers 400 exactly on a malformed body; every well-formed body gets 500 and nothing ever gets 201. |
| GroupRoutes.CreateAsWrittenRefusesWellFormedBody | routes/groups.js:24-32 | A concrete well-formed body that the code as written refuses with 500, though saving it under an assigned id succeeds. |
| GroupRoutes.GroupStore.Create | routes/groups.js:8-39 | Intended behaviour, with an id assigned before saving. A missing name or password, or a non-boolean `isPublic`, gives 400; an id already in use gives 500. Both leave the store unchanged. Otherwise the new group is stored under its id and returned with 201. |
| GroupRoutes.GroupStore.Update | routes/groups.js:42-80 | The handler answers 400, then 500 for an uncastable id, then 404, then 403, each leaving the store unchanged. On success the stored group becomes the merge and is returned. |
| GroupRoutes.GroupStore.Delete | routes/groups.js:83-105 | The handler answers 500 for an uncastable id, then 404, then 403 unless the supplied password strictly equals the stored one. On success exactly that group is removed. |
| GroupRoutes.GroupStore.Detail | routes/groups.js:108-138 | The handler answers 400 unless the id passes the object-id test, then 500 or 404. On success the reply carries every listed field and `badgeCount` is the number of badges. The validity test and the numeric cast are separate inputs here, although in the source both are applied to the same raw `:groupId` string. |
| GroupRoutes.GroupStore.VerifyPassword | routes/groups.js:141-160 | The handler answers 500 or 404 as above. For an existing group it answers 200 exactly when the password strictly matches, and 401 otherwise. |
| GroupRoutes.GroupStore.Like | routes/groups.js:163-182 | The handler answers 500 or 404 with the store unchanged. On success exactly that group's like count goes up by one. |
| GroupRoutes.GroupStore.PublicStatusOf | routes/groups.js:185-199 | The handler answers 500 or 404 as above. On success it replies with the id and the stored visibility. |

## Left out

- HTTP, Express routing, JSON serialisation and the response messages are not modelled. A reply is its status code and its body value.
- Asynchronous execution and concurrent requests are not modelled. Each handler runs to completion on its own. In particular, two simultaneous likes could lose an update in the real system.
- Database failures are not modelled. The `catch` blocks answer 500 on any thrown error; three such cases are modelled: the failed id cast, the duplicate group id, and `save()` refusing a new group record that has no `_id` (`GroupRoutes.CreateAsWritten`).
- The clock becomes a parameter, `now`. Creation times are integers (milliseconds), not ISO strings or `Date` objects; the "latest" comparator subtracts exactly those.
- `Number(...)` coercion of the path and query strings becomes a caller-supplied `JsNumber`, which is NaN or an exact integer. Fractional numbers are not modelled, so a fractional page or page size is outside the model.
- Infinity is not modelled. `Number("Infinity")` or `Number("1e400")` gives an infinite value that passes the NaN check. For example, a page size of Infinity on page 1 lists every filtered post with a page count of 0, and the model cannot express that.
- Double-precision rounding is not modelled. Above 2^53, a group id cast from a long numeric string rounds to a nearby number.
- GroupRoutes.GroupStore.Like: the +1 is exact. Above 2^53 the source's `likeCount += 1` stops increasing, and the model does not capture that.
- PostRoutes.PostStore.Create: the id counter's +1 is exact. Above 2^53 the source's `postIdCounter++` stops increasing, so ids would repeat. The model does not capture that.
- Request bodies whose fields hold a non-string value where a string is expected are not modelled. A boolean `isPublic` in a group body or a post body is `Some`; any other value is `None`. For posts this means a non-boolean `isPublic`, such as the string `"true"`, is stored and echoed by the source (routes/posts.js:43,52) but stored as `None` by `PostRoutes.PostStore.Create`. Listing is unaffected, since such a value is never strictly equal to the requested boolean (routes/posts.js:72).
- The group handlers take `mongoose.Types.ObjectId.isValid` as a boolean parameter, and the numeric cast of `:groupId` as an `IdParam`. These two inputs are linked: both come from the same raw `:groupId` string. An ordinary numeric id such as `"7"` fails the validity test. A 24-hex id containing a letter passes it but then fails the cast. A 24-digit decimal id, such as the zero-padded `"000000000000000000000007"`, passes both and looks up the number it spells. So every stored group can reach the 200 path of `GroupStore.Detail` through its zero-padded form. The model lets the two inputs vary independently and does not capture the link: it also admits pairs that no raw string produces, such as a passing validity test together with the cast `7` of the unpadded `"7"`.
- GroupRoutes.GroupStore.Create: this is the intended behaviour, not the code as written. The schema declares a numeric `_id` without a default, and the handler sets none, so nothing assigns the new group an id and the code as written always answers 500 (see "## Findings", modelled by `GroupRoutes.CreateAsWritten`). `Create` takes the id that an id-assigning storage layer would give as a parameter.
- GroupRoutes.GroupStore.PublicStatusOf: the reply's `id` is modelled as the numeric id. The source reads the document's string `id` virtual.
- The storage-managed `updatedAt` timestamps of comments are not modelled. A comment's `postId` is stored and kept unchanged by edits, but nothing checks that the referenced post exists.
- The badge evaluator is not wired to the group records, and group records do not carry `memories`, a streak or `spaceReceived`. The evaluator takes its own record shape, which matches how it reads its argument. A truthy non-number statistic is not modelled.
- Logging is not modelled: the `console.error` calls of the badge evaluator and the group handlers have no counterpart.
- User, authentication, image-upload, seeding and application-setup code are not part of this model.

## Findings

| source | as written | input that shows it | evidently intended | confidence | as-written member | corrected member |
|---|---|---|---|---|---|---|
| routes/groups.js:24-38 | The new record is built from the body alone, and the schema's own numeric `_id` has no default (models/group.js:5-8). The storage library refuses to save a new top-level record without an `_id`, so `save()` rejects and the `catch` answers 500 to every well-formed body. | `{"name": "hikers", "password": "secret", "isPublic": true}` sent to an empty store | The group is saved under a fresh numeric id and returned with 201. | not executed; rests on the storage library's documented refusal to save a record without `_id` | GroupRoutes.CreateAsWritten | GroupRoutes.GroupStore.Create |
