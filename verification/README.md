# insta-api core, modelled in Dafny

This project models the logic of a photo-sharing GraphQL/HTTP backend. The
store holds four collections: users, sessions, posts and comments. The model
covers:

- **Null stripping** (`JsObject`, src/support/removeNulls.ts). A JavaScript
  object is the sequence of its properties in `Object.entries` order.
  `removeNulls` and `removeNullsExcept` are loops. Each loop assigns one
  property per entry and is proved equal to a specification function.
  Lemmas prove that keys are preserved, that nulls are replaced, that the
  copy is shallow, that `removeNulls` is idempotent, and how the allow-list
  behaves.
- **Authentication chain** (`Auth`, src/server.ts). The session id is the
  Authorization header with one leading `Bearer ` removed; the scheme is
  matched ignoring letter case, as in section 2.1 of RFC 6750 and section 2.1
  of RFC 7235. After that come the session lookup, the user lookup and
  `authenticate`.
- **Image routes** (`Images`, src/routes.ts). The `^\w+\.jpg$` name check,
  the GET handler's choice between `next()` and reading the file, and the
  name and URL of an upload.
- **Domain rules** (`Schema`, src/graphql/schema.ts). Username validity and
  uniqueness ignoring case, the like toggle, the derived post fields, the
  shallow merge of a user update, and the rules that keep each post's
  comment-id list in step with the comments.
- **Mutations** (`Database`, src/graphql/schema.ts). The store is a class with
  one `map<string, Record>` per collection declared in src/db.ts. Each
  resolver is a method. The method's `ensures` gives its error message or its
  result, and the exact new contents of every collection. Every method keeps
  `StoreInvariant`:
  - records are stored under their own ids;
  - sessions, posts and comments name existing users;
  - usernames are unique ignoring case;
  - comment lists are in step with the comments, in both directions;
  - like lists have no duplicates.

Inputs that the running program gets from outside are parameters:

- The request context is the Authorization header (`Option<string>`).
- The clock (`new Date().toISOString()`) is the `now` string.
- The identifier generator is `Store.NewId`. It picks any non-empty id it has
  never handed out, and claims nothing else about the id's format.

The model relies on ids being non-empty. `getCurrentUser` looks up the user
`''` when a request has no session. A stored user with the empty id would
therefore authenticate every anonymous request (`Auth.AuthenticatedIffSession`
needs `"" !in users`).

## Model

| member | source | states |
|---|---|---|
| JsObject.Lookup | src/support/removeNulls.ts:24 | reading a key the object does not have gives `undefined` |
| JsObject.Assign | src/support/removeNulls.ts:9 | `result[key] = v` on an existing key keeps the key order, makes that key read `v` and leaves every other property as it was; on a new key it appends exactly one property at the end |
| JsObject.Coalesce | src/support/removeNulls.ts:9 | `value ?? undefined` is never `null` and leaves every non-null value as it is |
| JsObject.Allowed | src/support/removeNulls.ts:24 | a key can only be exempted by an allow-list that has a property with that name |
| JsObject.WithoutNulls | src/support/removeNulls.ts:8-10 | the output has the input's keys in the same order; a `null` value becomes `undefined` and every other value (including `false`, `0`, `''` and nested objects or arrays holding nulls) is kept as it is |
| JsObject.WithoutNullsExcept | src/support/removeNulls.ts:23-28 | same keys in the same order; a key whose allow-list entry is `=== true` keeps its value, `null` included; every other key is treated as in `removeNulls` |
| JsObject.RemoveNulls | src/support/removeNulls.ts:6-12 | the loop that builds `result` one assignment at a time returns exactly `WithoutNulls(input)` |
| JsObject.RemoveNullsExcept | src/support/removeNulls.ts:17-33 | the loop with the allow-list test returns exactly `WithoutNullsExcept(input, allowNulls)` |
| JsObject.LookupFindsProp | src/support/removeNulls.ts:24 | in an object with distinct keys, reading a property gives the value stored under it |
| JsObject.LookupWithoutNulls | src/support/removeNulls.ts:9 | reading a property after `removeNulls` gives `undefined` where the input held `null` or nothing, and the input's value otherwise |
| JsObject.NoNullsRemain | src/support/removeNulls.ts:9 | no `null` value survives `removeNulls` |
| JsObject.WithoutNullsKeepsDistinctKeys | src/support/removeNulls.ts:8-10 | the result is again an object with distinct keys |
| JsObject.WithoutNullsFixedPoints | src/support/removeNulls.ts:9 | `removeNulls` leaves an object unchanged if and only if it holds no `null` |
| JsObject.WithoutNullsIdempotent | src/support/removeNulls.ts:8-10 | applying `removeNulls` twice equals applying it once |
| JsObject.AllowedNeedsTrueEntry | src/support/removeNulls.ts:24 | a key is exempted only through an allow-list entry whose value is `true` |
| JsObject.ExceptWithoutAllowedIsWithoutNulls | src/support/removeNulls.ts:21-28 | with an allow-list that has no `true` entry, `removeNullsExcept` equals `removeNulls` |
| Auth.HasBearerPrefix | src/server.ts:19 | `/^Bearer /i` matches exactly when the header's first seven characters, lower-cased, are `bearer `; the exact spelling `Bearer ` always matches |
| Auth.SessionId | src/server.ts:18-19 | a missing header counts as `''`; a header that starts with `Bearer ` in any letter case loses exactly those seven characters, and any other header is used unchanged |
| Auth.SessionIdOfBearerHeader | src/server.ts:19 | for every letter-case spelling of `Bearer ` and every token, extraction gives back the token, even a token that itself starts with `Bearer ` |
| Auth.SessionIdWithoutPrefix | src/server.ts:18-19 | a header without the prefix is the session id unchanged, and a missing header gives `''` |
| Auth.LowerCaseSchemeExamples | src/server.ts:19 | `bearer x` and `BEARER x` both give `x` |
| Auth.PrefixRemovedOnceExamples | src/server.ts:19 | `Bearer Bearer x` gives `Bearer x`, and `Bearerx` (no space) is kept whole |
| Auth.GetSession | src/server.ts:17-21 | the session stored under the extracted id, or none |
| Auth.CurrentUser | src/server.ts:22-25 | the user stored under the session's `user` field, looked up under `''` when there is no session |
| Auth.Authenticate | src/server.ts:26-32 | fails with "Not authenticated" exactly when there is no current user, and otherwise returns that user |
| Auth.AuthenticatedIffSession | src/server.ts:17-32 | when every session names a stored user and no user has the empty id, a request is authenticated if and only if its header names a stored session, and the viewer is that session's user |
| Images.IsServableName | src/routes.ts:14 | `^\w+\.jpg$` accepts exactly a name made of a non-empty run of word characters followed by `.jpg` |
| Images.GetImage | src/routes.ts:12-16 | the file is opened exactly when the name (or `''` if missing) matches `^\w+\.jpg$`; otherwise the request goes on to `next()` and no file is opened |
| Images.UploadFileName | src/routes.ts:33 | an upload is stored as the generated id followed by `.jpg`: the name starts with the id and its remainder is exactly `.jpg` |
| Images.UploadUrl | src/routes.ts:37 | the returned URL is `/images/` followed by the stored file name |
| Images.UploadServableIffWordId | src/routes.ts:14 | an upload can be fetched through its URL if and only if the generated id is one or more word characters |
| Images.ServableNameStaysInUploads | src/routes.ts:14-18 | an accepted name has no `/` or `\`, is not `.` or `..`, and its only dot is the one of the suffix, so it names a file directly inside the uploads directory |
| Images.RejectedNames | src/routes.ts:13-14 | `a.JPG` (the suffix is case-sensitive), `.jpg`, `../a.jpg` and `a.b.jpg` are rejected, `a_1.jpg` is accepted, and a missing name falls through |
| Schema.ValidUsername | src/graphql/schema.ts:290 | (also line 319) a username is accepted exactly when it is a non-empty run of word characters (neither `!username.length` nor `/\W/` fires) |
| Schema.UsernameTaken | src/graphql/schema.ts:293-298 | (also lines 322-326) a clash needs some stored user whose lower-cased name equals the lower-cased candidate; any user other than the excepted one with exactly that name is a clash |
| Schema.StoreUserKeepsUnique | src/graphql/schema.ts:293-298 | a username that passes the clash check can be stored, for a new user or a renamed one, without two users sharing a name up to case |
| Schema.CaseVariantOfOwnNameIsFree | src/graphql/schema.ts:322-326 | when usernames are unique, a new username that differs from the caller's own only in case never clashes with another user |
| Schema.LoginMatches | src/graphql/schema.ts:253-257 | a login match needs the exact password and a username of the same length; the exact username with the exact password always matches |
| Schema.LoginMatchIsUnique | src/graphql/schema.ts:253-257 | when usernames are unique, at most one user matches a login, so which match `findWhere` returns first does not matter |
| Schema.ApplyUserUpdates | src/graphql/schema.ts:331 | the merge never changes the id, an empty update changes nothing, and every field either keeps its value or takes the string given for it in the update |
| Schema.UpdateFromInput | src/graphql/schema.ts:316-331 | after null stripping and the merge, a field given as a string is replaced, a field given as `null` or left out keeps its value, and the id never changes |
| Schema.UpdateUsernameIsStringOrUndefined | src/graphql/schema.ts:316-318 | after null stripping, the `username` of a well-typed update input is a string or `undefined` |
| Schema.Without | src/graphql/schema.ts:420 | the filter removes every occurrence of the id and keeps every other id; the list shrinks exactly when the id was present, and is unchanged when it was absent |
| Schema.WithoutAppend | src/graphql/schema.ts:438 | filtering works element by element, so the remaining ids keep their order |
| Schema.WithoutKeepsNoDuplicates | src/graphql/schema.ts:438 | filtering keeps a list free of duplicates |
| Schema.WithoutRemovesOne | src/graphql/schema.ts:438-439 | in a list without duplicates, filtering out a present id shortens it by exactly one |
| Schema.ToggleLike | src/graphql/schema.ts:438-444 | if the viewer was in `likedBy`, every occurrence is removed and the result is `false`; otherwise the viewer is appended at the end and the result is `true`; other ids stay; the result says whether the viewer is in the new list |
| Schema.ToggleTwiceRestores | src/graphql/schema.ts:438-444 | liking and then unliking from "not liked" restores the original list |
| Schema.ToggleKeepsNoDuplicates | src/graphql/schema.ts:438-444 | the toggle keeps `likedBy` free of duplicates and changes its length by exactly one, up for a like and down for an unlike |
| Schema.IsLikedByViewer | src/graphql/schema.ts:97-106 | an anonymous viewer never sees a post as liked; a logged-in viewer whose id is in `likedBy` does; a liked post has a positive `likeCount` |
| Schema.LikeCount | src/graphql/schema.ts:107-109 | with no duplicate likes, `likeCount` is the number of distinct users who liked the post |
| Schema.DistinctCount | src/graphql/schema.ts:107-109 | a list without duplicates has as many elements as distinct members |
| Schema.CommentCount | src/graphql/schema.ts:75-77 | when every listed comment id is stored, `commentCount` equals the number of comments the `comments` field returns |
| Schema.LikeResultMatchesDerivedFields | src/graphql/schema.ts:97-109 | after `likePost`, `isLikedByViewer` for the same viewer equals the mutation's result and was its negation before, and `likeCount` moved by one in that direction |
| Schema.ResolvedComments | src/graphql/schema.ts:112-120 | the `comments` field returns at most one stored comment per listed id; a one-id list gives that id's stored comment, or nothing when it is not stored; when every id is stored there is one comment per id |
| Schema.ResolvedCommentsAppend | src/graphql/schema.ts:115-119 | resolution works id by id: resolving a concatenation is resolving each part, so together with the one-id case the result is the stored comments of the listed ids in list order, missing ones skipped |
| Schema.ResolvedCommentsComplete | src/graphql/schema.ts:112-120 | when every listed id is stored, the field returns exactly the listed comments in list order |
| Schema.AddCommentKeepsInStep | src/graphql/schema.ts:384-395 | appending the new comment's id to its post's list keeps the comment lists in step |
| Schema.ReplacePostKeepsInStep | src/graphql/schema.ts:443 | changing a post's other fields keeps the comment lists in step |
| Schema.RemoveCommentKeepsInStep | src/graphql/schema.ts:420-422 | removing a comment and every occurrence of its id from its post's list keeps the lists in step |
| Schema.RemovePostKeepsInStep | src/graphql/schema.ts:371 | deleting a post keeps the lists in step; its comments stay stored without a post |
| Schema.AddPostKeepsInStep | src/graphql/schema.ts:344-351 | a new post with an empty comment list, under an id that no comment names, keeps the lists in step |
| Database.DeleteCommentKeepsInvariant | src/graphql/schema.ts:420-422 | the store invariant survives `deleteComment`'s two writes |
| Database.Store.constructor | src/db.ts:4-9 | the store starts with four empty collections and satisfies its invariant |
| Database.Store.NewId | src/graphql/schema.ts:261 | (also lines 299, 344 and 388) the id the store's `insert` gives a new session, user, post or comment is non-empty and has never been handed out before |
| Database.Store.Login | src/graphql/schema.ts:251-266 | returns `null` and creates no session exactly when no user matches the username (ignoring case) and the password; otherwise it stores a new session, with a fresh id and `createdAt` = now, for a matching user |
| Database.Store.Logout | src/graphql/schema.ts:272-280 | deletes the request's session and returns `true` if it exists, and otherwise returns `false` and changes nothing |
| Database.Store.CreateUser | src/graphql/schema.ts:288-305 | "Invalid username" for an empty or non-`\w` name, then "Username already exists" if any user has it ignoring case, both with no change to the store; otherwise it stores the new user under a fresh id, keeping usernames unique |
| Database.Store.UpdateUser | src/graphql/schema.ts:313-333 | "Not authenticated" first; a username present after null stripping must be valid and must not match another user's name ignoring case; on success only the caller's record changes, to the merge of the stripped input |
| Database.Store.CreatePost | src/graphql/schema.ts:341-353 | an authenticated user's new post has a fresh id, that user as author, and no likes or comments; nothing else changes |
| Database.Store.DeletePost | src/graphql/schema.ts:361-373 | three outcomes: "Invalid postId" for a missing post, "Permission denied" unless the viewer is the author, and otherwise the post is removed and `true` is returned; only the last changes the store |
| Database.Store.CreateComment | src/graphql/schema.ts:381-397 | "Invalid postId" stores no comment; otherwise a comment with a fresh id is stored, and its id is appended to that post's `comments` list, with no other post field changed |
| Database.Store.DeleteComment | src/graphql/schema.ts:405-424 | "Invalid commentId", then "Comment does not belong to any known post", then "Permission denied" unless the viewer wrote the comment or the post; on success every occurrence of the id leaves the post's list and the comment is deleted |
| Database.Store.LikePost | src/graphql/schema.ts:432-445 | "Invalid postId" for a missing post; otherwise the post's `likedBy` becomes the toggled list, the result is the toggle's flag, and nothing else changes |
| Database.Store.PostComments | src/graphql/schema.ts:110-122 | the loop returns the stored comments of the listed ids in list order; for a stored post of a valid store there is one per listed id, and `commentCount` of them |

## Left out

- The store's internals (src/support/orm) are not part of this model. That
  covers id generation, persistence, reload and iteration order. Each
  collection is a map, and `findWhere`'s order is never relied on:
  `Store.Login` picks any matching user.
- The store's `update` is modelled as a shallow merge in which an `undefined`
  field means "no change". The store's source is not available to confirm
  this.
- Database.Store.NewId: uniqueness and non-emptiness are the only properties
  modelled of the ids the store's `insert` generates; their format is
  unknown, since src/support/orm and src/support/createId are not part of
  this model.
- Asynchrony and interleaving between concurrent requests are not modelled.
  Each resolver runs as one atomic step, so the read-modify-write races in
  `likePost` and `createComment` are not represented.
- `toLowerCase` is modelled on ASCII letters only. Unicode case mappings,
  such as the Kelvin sign lower-casing to `k`, are not modelled.
- `\w` is the ASCII class [A-Za-z0-9_], which is exact for regular
  expressions without the `u` flag.
- JsObject.Assign: appending a new key at the end does not model an own
  `__proto__` property, which `result[key] = v` hands to the prototype setter
  instead of copying, so the model keeps it where the source drops it (or
  changes the result's prototype). Integer-like keys are placed in numeric
  order by JavaScript rather than appended; this does not change the result,
  because `Object.entries` already lists them first in that order.
- Images.UploadFileName takes any id: the upload's `createId()` call is not
  tied to `Store.NewId`, whose format claims do not carry over either.
- JavaScript numbers are represented as integers. The null-stripping helpers
  only copy them.
- A property read on the allow-list ignores the prototype chain. No inherited
  property equals `true`, so the result is the same.
- The queries (`postCount`, `posts` with its `Date.parse` sort, `post`,
  `users`, `user`, `me`) are not modelled. They only read the store.
- The author and session-user field resolvers are not modelled. Their
  "Invalid userId" errors cannot arise in a store that keeps
  `StoreInvariant`, because every post, comment and session names a stored
  user.
- GraphQL schema building, graphql-yoga, Express routing, CORS, the
  playground, and file streams with their `ENOENT` handling are framework and
  I/O calls. They are not modelled.
- The upload directory's `mkdir` is not modelled, for the same reason.
- The seed script is not modelled.
- Database.Store.UpdateUser requires the input to be well typed: only the
  four declared fields, each a string or `null`. GraphQL input validation
  guarantees this before the resolver runs.
