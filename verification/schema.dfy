/** The domain rules the GraphQL resolvers apply, as functions on stored
    values: username validity and case-insensitive uniqueness, the like toggle,
    the derived post fields, and the invariants the mutations keep between the
    collections. */
module Schema {
  import opened Wrappers
  import opened Ascii
  import opened Records
  import opened JsObject

  // ---------------------------------------------------------------- usernames

  /** The username check: rejected when empty (`!username.length`) or when it
      contains a character outside `\w` (`username.match(/\W/)`). */
  predicate ValidUsername(username: string): (b: bool)
    ensures b <==> IsWord(username)
  {
    |username| != 0 && !exists i :: 0 <= i < |username| && !IsWordChar(username[i])
  }

  /** Some stored user, other than the one with id `exceptId`, already has
      `username` up to letter case. */
  predicate UsernameTaken(users: map<string, User>, username: string, exceptId: Option<string>): (b: bool)
    ensures b ==> exists k :: k in users && Lower(users[k].username) == Lower(username)
    ensures forall k :: k in users && Some(users[k].id) != exceptId && users[k].username == username ==> b
  {
    exists k :: k in users && Some(users[k].id) != exceptId && EqualsIgnoringCase(users[k].username, username)
  }

  /** No two stored users share a username up to letter case. */
  predicate UniqueUsernames(users: map<string, User>) {
    forall a, b :: a in users && b in users && a != b ==>
      !EqualsIgnoringCase(users[a].username, users[b].username)
  }

  /** Every record is stored under its own id. */
  predicate UsersKeyed(users: map<string, User>) {
    forall k :: k in users ==> users[k].id == k
  }

  /** A username that passes the clash check may be stored without breaking
      uniqueness, whether it is a new user's or a renamed one's. */
  lemma StoreUserKeepsUnique(users: map<string, User>, u: User)
    requires UsersKeyed(users) && UniqueUsernames(users)
    requires !UsernameTaken(users, u.username, Some(u.id))
    ensures UniqueUsernames(users[u.id := u])
  {
    var users' := users[u.id := u];
    forall a, b | a in users' && b in users' && a != b
      ensures !EqualsIgnoringCase(users'[a].username, users'[b].username)
    {
      if a == u.id {
        assert users[b].id == b;
      } else if b == u.id {
        assert users[a].id == a;
      }
    }
  }

  /** Among other users, a username that differs from the caller's own only in
      letter case is never taken, so such a rename passes the clash check. */
  lemma CaseVariantOfOwnNameIsFree(users: map<string, User>, self: string, username: string)
    requires UsersKeyed(users) && UniqueUsernames(users)
    requires self in users && EqualsIgnoringCase(username, users[self].username)
    ensures !UsernameTaken(users, username, Some(self))
  {
  }

  /** `login`'s filter: the username matches ignoring case and the password
      matches exactly. */
  predicate LoginMatches(u: User, username: string, password: string): (b: bool)
    ensures b ==> u.password == password && |u.username| == |username|
    ensures u.username == username && u.password == password ==> b
  {
    EqualsIgnoringCase(u.username, username) && u.password == password
  }

  /** With unique usernames at most one user matches a login, so which match
      `findWhere` lists first does not matter. */
  lemma LoginMatchIsUnique(users: map<string, User>, username: string, password: string, a: string, b: string)
    requires UniqueUsernames(users)
    requires a in users && LoginMatches(users[a], username, password)
    requires b in users && LoginMatches(users[b], username, password)
    ensures a == b
  {
    if a != b {
      assert EqualsIgnoringCase(users[a].username, users[b].username);
      assert false;
    }
  }

  // ------------------------------------------------------------ user updates

  /** `UserUpdateInput` as the GraphQL layer hands it over: an object whose
      properties are some of the four optional string fields, each a string or
      `null`. */
  predicate IsUserUpdateInput(input: seq<Prop>) {
    && DistinctKeys(input)
    && forall i :: 0 <= i < |input| ==>
         input[i].key in {"name", "profilePhoto", "username", "password"}
         && (input[i].value.Null? || input[i].value.Str?)
  }

  function StringOr(v: Value, current: string): string {
    if v.Str? then v.s else current
  }

  /** The store's `update(id, updates)` on a user: a shallow merge in which
      an `undefined` field means "no change". */
  function ApplyUserUpdates(u: User, updates: seq<Prop>): (r: User)
    ensures r.id == u.id
    ensures updates == [] ==> r == u
    ensures r.name == u.name || Lookup(updates, "name") == Str(r.name)
    ensures r.profilePhoto == u.profilePhoto || Lookup(updates, "profilePhoto") == Str(r.profilePhoto)
    ensures r.username == u.username || Lookup(updates, "username") == Str(r.username)
    ensures r.password == u.password || Lookup(updates, "password") == Str(r.password)
  {
    u.(name := StringOr(Lookup(updates, "name"), u.name),
       profilePhoto := StringOr(Lookup(updates, "profilePhoto"), u.profilePhoto),
       username := StringOr(Lookup(updates, "username"), u.username),
       password := StringOr(Lookup(updates, "password"), u.password))
  }

  /** What `updateUser` writes, read against its raw input: a field given as a
      string is replaced, a field given as `null` or left out keeps its value,
      and the id never changes. */
  lemma {:induction false} UpdateFromInput(u: User, input: seq<Prop>)
    requires IsUserUpdateInput(input)
    ensures var r := ApplyUserUpdates(u, WithoutNulls(input));
      && r.id == u.id
      && r.name == StringOr(Lookup(input, "name"), u.name)
      && r.profilePhoto == StringOr(Lookup(input, "profilePhoto"), u.profilePhoto)
      && r.username == StringOr(Lookup(input, "username"), u.username)
      && r.password == StringOr(Lookup(input, "password"), u.password)
  {
    LookupWithoutNulls(input, "name");
    LookupWithoutNulls(input, "profilePhoto");
    LookupWithoutNulls(input, "username");
    LookupWithoutNulls(input, "password");
  }

  /** After null-stripping, the `username` property of such an input is a
      string or `undefined`. */
  lemma {:induction false} UpdateUsernameIsStringOrUndefined(input: seq<Prop>)
    requires IsUserUpdateInput(input)
    ensures Lookup(WithoutNulls(input), "username").Str? || Lookup(WithoutNulls(input), "username") == Undefined
  {
    LookupWithoutNulls(input, "username");
    if "username" in Keys(input) {
      var i :| 0 <= i < |input| && Keys(input)[i] == "username";
      LookupFindsProp(input, i);
    }
  }

  // ------------------------------------------------------------- id lists

  /** `list.filter((id) => id !== x)`. */
  function Without(list: seq<string>, x: string): (r: seq<string>)
    ensures x !in r
    ensures forall y :: y != x ==> (y in r <==> y in list)
    ensures |r| <= |list|
    ensures |r| == |list| <==> x !in list
    ensures x !in list ==> r == list
  {
    if list == [] then []
    else (if list[0] == x then [] else [list[0]]) + Without(list[1..], x)
  }

  /** Filtering works element by element, so the remaining ids keep their
      order. */
  lemma {:induction false} WithoutAppend(a: seq<string>, b: seq<string>, x: string)
    ensures Without(a + b, x) == Without(a, x) + Without(b, x)
  {
    if a != [] {
      assert (a + b)[0] == a[0] && (a + b)[1..] == a[1..] + b;
      WithoutAppend(a[1..], b, x);
    } else {
      assert a + b == b;
    }
  }

  predicate NoDuplicates(list: seq<string>) {
    forall i, j :: 0 <= i < j < |list| ==> list[i] != list[j]
  }

  lemma {:induction false} WithoutKeepsNoDuplicates(list: seq<string>, x: string)
    requires NoDuplicates(list)
    ensures NoDuplicates(Without(list, x))
  {
    if list != [] {
      WithoutKeepsNoDuplicates(list[1..], x);
      assert list[0] !in list[1..];
    }
  }

  /** In a list without duplicates the filter removes exactly one id. */
  lemma {:induction false} WithoutRemovesOne(list: seq<string>, x: string)
    requires NoDuplicates(list) && x in list
    ensures |Without(list, x)| == |list| - 1
  {
    if list[0] == x {
      assert x !in list[1..];
    } else {
      WithoutRemovesOne(list[1..], x);
    }
  }

  // ------------------------------------------------------------ like toggle

  /** `likePost`'s list update: drop every occurrence of the viewer; if none
      was dropped, push the viewer. The flag is the mutation's result. */
  function ToggleLike(likedBy: seq<string>, viewer: string): (r: (seq<string>, bool))
    ensures r.1 <==> viewer !in likedBy
    ensures r.1 ==> r.0 == likedBy + [viewer]
    ensures !r.1 ==> r.0 == Without(likedBy, viewer)
    ensures viewer in r.0 <==> r.1
    ensures forall y :: y != viewer ==> (y in r.0 <==> y in likedBy)
  {
    var filtered := Without(likedBy, viewer);
    var wasRemoved := |likedBy| != |filtered|;
    if !wasRemoved then (filtered + [viewer], true) else (filtered, false)
  }

  /** Liking and then unliking gives back the original list. */
  lemma ToggleTwiceRestores(likedBy: seq<string>, viewer: string)
    requires viewer !in likedBy
    ensures ToggleLike(ToggleLike(likedBy, viewer).0, viewer) == (likedBy, false)
  {
    WithoutAppend(likedBy, [viewer], viewer);
    assert Without([viewer], viewer) == [] + Without([viewer][1..], viewer);
    assert [viewer][1..] == [];
    assert Without(likedBy + [viewer], viewer) == likedBy;
  }

  /** The toggle keeps a like list free of duplicates and moves its length by
      exactly one. */
  lemma ToggleKeepsNoDuplicates(likedBy: seq<string>, viewer: string)
    requires NoDuplicates(likedBy)
    ensures NoDuplicates(ToggleLike(likedBy, viewer).0)
    ensures |ToggleLike(likedBy, viewer).0| == |likedBy| + (if ToggleLike(likedBy, viewer).1 then 1 else -1)
  {
    if viewer in likedBy {
      WithoutKeepsNoDuplicates(likedBy, viewer);
      WithoutRemovesOne(likedBy, viewer);
    }
  }

  // --------------------------------------------------------- derived fields

  /** `isLikedByViewer`: false for an anonymous viewer. */
  function IsLikedByViewer(post: Post, viewer: Option<User>): (b: bool)
    ensures viewer.None? ==> !b
    ensures b ==> LikeCount(post) > 0
    ensures viewer.Some? && viewer.value.id in post.likedBy ==> b
  {
    match viewer
    case Some(u) => u.id in post.likedBy
    case None => false
  }

  /** `likeCount`: with no duplicate likes, the number of distinct likers. */
  function LikeCount(post: Post): (n: nat)
    ensures NoDuplicates(post.likedBy) ==> n == |set x | x in post.likedBy|
  {
    if NoDuplicates(post.likedBy) then DistinctCount(post.likedBy); |post.likedBy|
    else |post.likedBy|
  }

  /** A list without duplicates has as many elements as distinct members. */
  lemma {:induction false} DistinctCount(list: seq<string>)
    requires NoDuplicates(list)
    ensures |set x | x in list| == |list|
  {
    if list != [] {
      DistinctCount(list[1..]);
      assert (set x | x in list) == {list[0]} + (set x | x in list[1..]);
      assert list[0] !in list[1..];
    }
  }

  /** `commentCount`: when every listed id is a stored comment, as the store
      invariant guarantees, it is the number of comments the `comments` field
      returns. */
  function CommentCount(post: Post): (n: nat)
    ensures forall comments: map<string, Comment> ::
      (forall i :: 0 <= i < |post.comments| ==> post.comments[i] in comments) ==>
        n == |ResolvedComments(post.comments, comments)|
  {
    |post.comments|
  }

  /** After `likePost`, `isLikedByViewer` for the same viewer reports the
      mutation's result, and `likeCount` moved by one in that direction. */
  lemma LikeResultMatchesDerivedFields(post: Post, viewer: User)
    requires NoDuplicates(post.likedBy)
    ensures var (likedBy, liked) := ToggleLike(post.likedBy, viewer.id);
      && IsLikedByViewer(post.(likedBy := likedBy), Some(viewer)) == liked
      && IsLikedByViewer(post, Some(viewer)) == !liked
      && LikeCount(post.(likedBy := likedBy)) == LikeCount(post) + (if liked then 1 else -1)
  {
    ToggleKeepsNoDuplicates(post.likedBy, viewer.id);
  }

  /** The `comments` field: the stored comments for the post's ids, in list
      order, skipping ids that resolve to nothing. */
  function ResolvedComments(ids: seq<string>, comments: map<string, Comment>): (r: seq<Comment>)
    ensures |r| <= |ids|
    ensures forall c :: c in r ==> c in comments.Values
    ensures |ids| == 1 ==> r == (if ids[0] in comments then [comments[ids[0]]] else [])
    ensures (forall i :: 0 <= i < |ids| ==> ids[i] in comments) ==> |r| == |ids|
    decreases |ids|
  {
    if ids == [] then []
    else
      var last := ids[|ids| - 1];
      ResolvedComments(ids[..|ids| - 1], comments) + (if last in comments then [comments[last]] else [])
  }

  /** Resolution works id by id, so the comments come back in list order. */
  lemma {:induction false} ResolvedCommentsAppend(a: seq<string>, b: seq<string>, comments: map<string, Comment>)
    ensures ResolvedComments(a + b, comments) == ResolvedComments(a, comments) + ResolvedComments(b, comments)
    decreases |b|
  {
    if b == [] {
      assert a + b == a;
    } else {
      var init := b[..|b| - 1];
      assert (a + b)[..|a + b| - 1] == a + init;
      ResolvedCommentsAppend(a, init, comments);
    }
  }

  // ------------------------------------------------- cross-collection rules

  /** The comment lists are in step with the comments: every listed id is a
      stored comment of that post, and every stored comment of a stored post is
      listed there. */
  predicate CommentsInStep(posts: map<string, Post>, comments: map<string, Comment>) {
    && (forall p, c :: p in posts && c in posts[p].comments ==> c in comments && comments[c].post == p)
    && (forall c :: c in comments && comments[c].post in posts ==> c in posts[comments[c].post].comments)
  }

  /** Every listed comment of a post resolves, so the `comments` field returns
      one comment per listed id, in list order, and has `commentCount`
      entries. */
  lemma {:induction false} ResolvedCommentsComplete(ids: seq<string>, comments: map<string, Comment>)
    requires forall i :: 0 <= i < |ids| ==> ids[i] in comments
    ensures |ResolvedComments(ids, comments)| == |ids|
    ensures forall i :: 0 <= i < |ids| ==> ResolvedComments(ids, comments)[i] == comments[ids[i]]
    decreases |ids|
  {
    if ids != [] {
      var init := ids[..|ids| - 1];
      ResolvedCommentsComplete(init, comments);
      assert ResolvedComments(ids, comments) == ResolvedComments(init, comments) + [comments[ids[|ids| - 1]]];
    }
  }

  /** `createComment`'s effect keeps the lists in step. */
  lemma AddCommentKeepsInStep(posts: map<string, Post>, comments: map<string, Comment>, c: Comment)
    requires CommentsInStep(posts, comments)
    requires c.post in posts && c.id !in comments
    ensures var p := posts[c.post];
      CommentsInStep(posts[c.post := p.(comments := p.comments + [c.id])], comments[c.id := c])
  {
  }

  /** `deleteComment`'s effect keeps the lists in step. */
  lemma RemoveCommentKeepsInStep(posts: map<string, Post>, comments: map<string, Comment>, id: string)
    requires CommentsInStep(posts, comments)
    requires id in comments && comments[id].post in posts
    ensures var p := posts[comments[id].post];
      CommentsInStep(posts[comments[id].post := p.(comments := Without(p.comments, id))], comments - {id})
  {
    var pid := comments[id].post;
    var posts' := posts[pid := posts[pid].(comments := Without(posts[pid].comments, id))];
    var comments' := comments - {id};
    forall q, c | q in posts' && c in posts'[q].comments
      ensures c in comments' && comments'[c].post == q
    {
      assert c in posts[q].comments;
    }
  }

  /** Changing a post's other fields (`likePost`) keeps the lists in step. */
  lemma ReplacePostKeepsInStep(posts: map<string, Post>, comments: map<string, Comment>, id: string, post: Post)
    requires CommentsInStep(posts, comments)
    requires id in posts && post.comments == posts[id].comments
    ensures CommentsInStep(posts[id := post], comments)
  {
    var posts' := posts[id := post];
    forall q, c | q in posts' && c in posts'[q].comments
      ensures c in comments && comments[c].post == q
    {
      assert c in posts[q].comments;
    }
  }

  /** `deletePost`'s effect keeps the lists in step; the post's comments stay
      stored, but no longer belong to a stored post. */
  lemma RemovePostKeepsInStep(posts: map<string, Post>, comments: map<string, Comment>, id: string)
    requires CommentsInStep(posts, comments)
    ensures CommentsInStep(posts - {id}, comments)
  {
  }

  /** `createPost`'s effect keeps the lists in step, provided no stored comment
      already names the new id as its post. */
  lemma AddPostKeepsInStep(posts: map<string, Post>, comments: map<string, Comment>, post: Post)
    requires CommentsInStep(posts, comments)
    requires post.comments == [] && post.id !in posts
    requires forall c :: c in comments ==> comments[c].post != post.id
    ensures CommentsInStep(posts[post.id := post], comments)
  {
  }
}
