/** The store as the resolvers use it: one map from id to record per declared
    collection (`User`, `Session`, `Post`, `Comment`), and the GraphQL
    mutations as methods that read and change those maps. The request's
    Authorization header stands for the request context; `now` stands for the
    clock. */
module Database {
  import opened Wrappers
  import opened Records
  import opened JsObject
  import opened Auth
  import opened Schema

  /** Some length exceeds that of every id handed out so far, so an unused id
      always exists. */
  lemma LongerThanAll(ids: set<string>) returns (n: nat)
    ensures forall k :: k in ids ==> |k| < n
  {
    if ids == {} {
      n := 0;
    } else {
      var x :| x in ids;
      var m := LongerThanAll(ids - {x});
      n := if m > |x| then m else |x| + 1;
    }
  }

  /** The invariant the mutations keep: records stored under their own ids,
      ids drawn from the generator, references that resolve, unique usernames,
      comment lists in step and like lists without duplicates. */
  ghost predicate StoreInvariant(
    users: map<string, User>, sessions: map<string, Session>,
    posts: map<string, Post>, comments: map<string, Comment>, issued: set<string>)
  {
    && UsersKeyed(users)
    && (forall k :: k in sessions ==> sessions[k].id == k)
    && (forall k :: k in posts ==> posts[k].id == k)
    && (forall k :: k in comments ==> comments[k].id == k)
    && "" !in issued
    && users.Keys <= issued && sessions.Keys <= issued && posts.Keys <= issued && comments.Keys <= issued
    && (forall k :: k in comments ==> comments[k].post in issued)
    && (forall k :: k in sessions ==> sessions[k].user in users)
    && (forall k :: k in posts ==> posts[k].author in users)
    && (forall k :: k in comments ==> comments[k].author in users)
    && UniqueUsernames(users)
    && CommentsInStep(posts, comments)
    && (forall k :: k in posts ==> NoDuplicates(posts[k].likedBy))
  }

  /** Removing a comment and its id from its post's list keeps the invariant. */
  lemma DeleteCommentKeepsInvariant(
    users: map<string, User>, sessions: map<string, Session>,
    posts: map<string, Post>, comments: map<string, Comment>, issued: set<string>, id: string)
    requires StoreInvariant(users, sessions, posts, comments, issued)
    requires id in comments && comments[id].post in posts
    ensures var p := posts[comments[id].post];
      StoreInvariant(users, sessions, posts[p.id := p.(comments := Without(p.comments, id))], comments - {id}, issued)
  {
    var p := posts[comments[id].post];
    RemoveCommentKeepsInStep(posts, comments, id);
    var posts' := posts[p.id := p.(comments := Without(p.comments, id))];
    assert posts'.Keys == posts.Keys;
    assert forall k :: k in posts' ==> posts'[k].likedBy == posts[k].likedBy && posts'[k].author == posts[k].author;
  }

  class Store {
    var users: map<string, User>
    var sessions: map<string, Session>
    var posts: map<string, Post>
    var comments: map<string, Comment>
    /** Every id the generator has handed out; ids are never reused. */
    var issued: set<string>

    /** The invariant the mutations keep (see `StoreInvariant`). */
    ghost predicate Valid()
      reads this
    {
      StoreInvariant(users, sessions, posts, comments, issued)
    }

    constructor ()
      ensures Valid()
      ensures users == map[] && sessions == map[] && posts == map[] && comments == map[] && issued == {}
    {
      users, sessions, posts, comments, issued := map[], map[], map[], map[], {};
    }

    /** `createId()`: a non-empty id never handed out before. */
    method NewId() returns (id: string)
      modifies this`issued
      ensures id != "" && id !in old(issued) && issued == old(issued) + {id}
    {
      var n := LongerThanAll(issued);
      ghost var longer := seq(n + 1, _ => 'x');
      assert longer != "" && longer !in issued;
      id :| id != "" && id !in issued;
      issued := issued + {id};
    }

    /** `login`: a new session for a user whose username matches ignoring case
        and whose password matches exactly; `null` and no session otherwise. */
    method Login(username: string, password: string, now: string) returns (session: Option<Session>)
      requires Valid()
      modifies this
      ensures Valid()
      ensures users == old(users) && posts == old(posts) && comments == old(comments)
      ensures session.None? <==> !exists k :: k in users && LoginMatches(users[k], username, password)
      ensures session.None? ==> sessions == old(sessions) && issued == old(issued)
      ensures session.Some? ==>
        var s := session.value;
        && s.id !in old(issued) && s.createdAt == now
        && s.user in users && LoginMatches(users[s.user], username, password)
        && sessions == old(sessions)[s.id := s] && issued == old(issued) + {s.id}
    {
      if exists k :: k in users && LoginMatches(users[k], username, password) {
        var k :| k in users && LoginMatches(users[k], username, password);
        var user := users[k];
        var id := NewId();
        var s := Session(id, user.id, now);
        sessions := sessions[id := s];
        session := Some(s);
      } else {
        session := None;
      }
    }

    /** `logout`: deletes the request's session, if there is one. */
    method Logout(authHeader: Option<string>) returns (loggedOut: bool)
      requires Valid()
      modifies this
      ensures Valid()
      ensures users == old(users) && posts == old(posts) && comments == old(comments) && issued == old(issued)
      ensures loggedOut <==> SessionId(authHeader) in old(sessions)
      ensures sessions == old(sessions) - {SessionId(authHeader)}
    {
      var session := GetSession(sessions, authHeader);
      match session
      case Some(s) =>
        sessions := sessions - {s.id};
        loggedOut := true;
      case None =>
        loggedOut := false;
    }

    /** `createUser`: rejects an invalid or taken username before touching the
        store; otherwise stores and returns the new user. */
    method CreateUser(name: string, profilePhoto: string, username: string, password: string)
      returns (r: Result<User>)
      requires Valid()
      modifies this
      ensures Valid()
      ensures sessions == old(sessions) && posts == old(posts) && comments == old(comments)
      ensures
        if !ValidUsername(username) then
          r == Err("Invalid username") && users == old(users) && issued == old(issued)
        else if UsernameTaken(old(users), username, None) then
          r == Err("Username already exists") && users == old(users) && issued == old(issued)
        else
          && r.Ok? && r.value == User(r.value.id, name, profilePhoto, username, password)
          && r.value.id !in old(issued)
          && users == old(users)[r.value.id := r.value] && issued == old(issued) + {r.value.id}
    {
      if !ValidUsername(username) {
        return Err("Invalid username");
      }
      if UsernameTaken(users, username, None) {
        return Err("Username already exists");
      }
      var id := NewId();
      var user := User(id, name, profilePhoto, username, password);
      StoreUserKeepsUnique(users, user);
      users := users[id := user];
      r := Ok(user);
    }

    /** `updateUser`: for the authenticated user, strips nulls from the input,
        checks a given username (ignoring the caller's own record in the clash
        check) and merges the remaining fields into the stored user. */
    method UpdateUser(authHeader: Option<string>, input: seq<Prop>) returns (r: Result<User>)
      requires Valid() && IsUserUpdateInput(input)
      modifies this
      ensures Valid()
      ensures sessions == old(sessions) && posts == old(posts) && comments == old(comments) && issued == old(issued)
      ensures
        var auth := Authenticate(old(sessions), old(users), authHeader);
        var updates := WithoutNulls(input);
        var username := Lookup(updates, "username");
        if auth.Err? then
          r == Err(auth.message) && users == old(users)
        else if username.Str? && !ValidUsername(username.s) then
          r == Err("Invalid username") && users == old(users)
        else if username.Str? && UsernameTaken(old(users), username.s, Some(auth.value.id)) then
          r == Err("Username already exists") && users == old(users)
        else
          r == Ok(ApplyUserUpdates(auth.value, updates)) && users == old(users)[auth.value.id := r.value]
    {
      var auth := Authenticate(sessions, users, authHeader);
      if auth.Err? {
        return Err(auth.message);
      }
      var user := auth.value;
      var userId := user.id;
      var updates := RemoveNulls(input);
      var username := Lookup(updates, "username");
      UpdateUsernameIsStringOrUndefined(input);
      if username != Undefined {
        var name := username.s;
        if !ValidUsername(name) {
          return Err("Invalid username");
        }
        if UsernameTaken(users, name, Some(userId)) {
          return Err("Username already exists");
        }
      }
      var newUser := ApplyUserUpdates(user, updates);
      StoreUserKeepsUnique(users, newUser);
      users := users[user.id := newUser];
      r := Ok(newUser);
    }

    /** `createPost`: a new post by the authenticated user, with no likes and
        no comments. */
    method CreatePost(authHeader: Option<string>, photo: string, caption: string, now: string)
      returns (r: Result<Post>)
      requires Valid()
      modifies this
      ensures Valid()
      ensures users == old(users) && sessions == old(sessions) && comments == old(comments)
      ensures
        var auth := Authenticate(sessions, users, authHeader);
        if auth.Err? then
          r == Err(auth.message) && posts == old(posts) && issued == old(issued)
        else
          && r.Ok? && r.value == Post(r.value.id, auth.value.id, photo, caption, [], [], now)
          && r.value.id !in old(issued)
          && posts == old(posts)[r.value.id := r.value] && issued == old(issued) + {r.value.id}
    {
      var auth := Authenticate(sessions, users, authHeader);
      if auth.Err? {
        return Err(auth.message);
      }
      var user := auth.value;
      var id := NewId();
      var post := Post(id, user.id, photo, caption, [], [], now);
      AddPostKeepsInStep(posts, comments, post);
      posts := posts[id := post];
      r := Ok(post);
    }

    /** `deletePost`: only the author may delete; the post's comments stay
        stored. */
    method DeletePost(authHeader: Option<string>, postId: string) returns (r: Result<bool>)
      requires Valid()
      modifies this
      ensures Valid()
      ensures users == old(users) && sessions == old(sessions) && comments == old(comments) && issued == old(issued)
      ensures
        var auth := Authenticate(sessions, users, authHeader);
        if auth.Err? then
          r == Err(auth.message) && posts == old(posts)
        else if postId !in old(posts) then
          r == Err("Invalid postId") && posts == old(posts)
        else if old(posts)[postId].author != auth.value.id then
          r == Err("Permission denied") && posts == old(posts)
        else
          r == Ok(true) && posts == old(posts) - {postId}
    {
      var auth := Authenticate(sessions, users, authHeader);
      if auth.Err? {
        return Err(auth.message);
      }
      var user := auth.value;
      if postId !in posts {
        return Err("Invalid postId");
      }
      var post := posts[postId];
      if post.author != user.id {
        return Err("Permission denied");
      }
      RemovePostKeepsInStep(posts, comments, post.id);
      posts := posts - {post.id};
      r := Ok(true);
    }

    /** `createComment`: stores a comment on an existing post and appends its
        id to that post's comment list. */
    method CreateComment(authHeader: Option<string>, postId: string, text: string, now: string)
      returns (r: Result<Comment>)
      requires Valid()
      modifies this
      ensures Valid()
      ensures users == old(users) && sessions == old(sessions)
      ensures
        var auth := Authenticate(sessions, users, authHeader);
        if auth.Err? then
          r == Err(auth.message) && posts == old(posts) && comments == old(comments) && issued == old(issued)
        else if postId !in old(posts) then
          r == Err("Invalid postId") && posts == old(posts) && comments == old(comments) && issued == old(issued)
        else
          var post := old(posts)[postId];
          && r.Ok? && r.value == Comment(r.value.id, postId, auth.value.id, text, now)
          && r.value.id !in old(issued) && issued == old(issued) + {r.value.id}
          && comments == old(comments)[r.value.id := r.value]
          && posts == old(posts)[postId := post.(comments := post.comments + [r.value.id])]
    {
      var auth := Authenticate(sessions, users, authHeader);
      if auth.Err? {
        return Err(auth.message);
      }
      var user := auth.value;
      if postId !in posts {
        return Err("Invalid postId");
      }
      var post := posts[postId];
      var id := NewId();
      var comment := Comment(id, post.id, user.id, text, now);
      AddCommentKeepsInStep(posts, comments, comment);
      comments := comments[id := comment];
      var newCommentList := post.comments + [comment.id];
      posts := posts[post.id := post.(comments := newCommentList)];
      r := Ok(comment);
    }

    /** `deleteComment`: the comment's author or the post's author may delete
        it; its id leaves the post's list and the comment leaves the store. */
    method DeleteComment(authHeader: Option<string>, commentId: string) returns (r: Result<bool>)
      requires Valid()
      modifies this
      ensures Valid()
      ensures users == old(users) && sessions == old(sessions) && issued == old(issued)
      ensures
        var auth := Authenticate(sessions, users, authHeader);
        if auth.Err? then
          r == Err(auth.message) && posts == old(posts) && comments == old(comments)
        else if commentId !in old(comments) then
          r == Err("Invalid commentId") && posts == old(posts) && comments == old(comments)
        else
          var comment := old(comments)[commentId];
          if comment.post !in old(posts) then
            r == Err("Comment does not belong to any known post") && posts == old(posts) && comments == old(comments)
          else
            var post := old(posts)[comment.post];
            if comment.author != auth.value.id && post.author != auth.value.id then
              r == Err("Permission denied") && posts == old(posts) && comments == old(comments)
            else
              && r == Ok(true)
              && comments == old(comments) - {commentId}
              && posts == old(posts)[comment.post := post.(comments := Without(post.comments, commentId))]
    {
      var auth := Authenticate(sessions, users, authHeader);
      if auth.Err? {
        return Err(auth.message);
      }
      var user := auth.value;
      if commentId !in comments {
        return Err("Invalid commentId");
      }
      var comment := comments[commentId];
      var postId := comment.post;
      if postId !in posts {
        return Err("Comment does not belong to any known post");
      }
      var post := posts[postId];
      if comment.author != user.id && post.author != user.id {
        return Err("Permission denied");
      }
      assert comment.id == commentId && post.id == postId;
      DeleteCommentKeepsInvariant(users, sessions, posts, comments, issued, comment.id);
      var newCommentList := Without(post.comments, comment.id);
      posts := posts[post.id := post.(comments := newCommentList)];
      comments := comments - {comment.id};
      r := Ok(true);
    }

    /** `likePost`: toggles the viewer's like; the result says whether the
        post is now liked. */
    method LikePost(authHeader: Option<string>, postId: string) returns (r: Result<bool>)
      requires Valid()
      modifies this
      ensures Valid()
      ensures users == old(users) && sessions == old(sessions) && comments == old(comments) && issued == old(issued)
      ensures
        var auth := Authenticate(sessions, users, authHeader);
        if auth.Err? then
          r == Err(auth.message) && posts == old(posts)
        else if postId !in old(posts) then
          r == Err("Invalid postId") && posts == old(posts)
        else
          var post := old(posts)[postId];
          var (likedBy, liked) := ToggleLike(post.likedBy, auth.value.id);
          r == Ok(liked) && posts == old(posts)[postId := post.(likedBy := likedBy)]
    {
      var auth := Authenticate(sessions, users, authHeader);
      if auth.Err? {
        return Err(auth.message);
      }
      var user := auth.value;
      if postId !in posts {
        return Err("Invalid postId");
      }
      var post := posts[postId];
      var likedBy := Without(post.likedBy, user.id);
      var wasRemoved := |post.likedBy| != |likedBy|;
      if !wasRemoved {
        likedBy := likedBy + [user.id];
      }
      assert (likedBy, !wasRemoved) == ToggleLike(post.likedBy, user.id);
      ToggleKeepsNoDuplicates(post.likedBy, user.id);
      ReplacePostKeepsInStep(posts, comments, postId, post.(likedBy := likedBy));
      posts := posts[postId := post.(likedBy := likedBy)];
      r := Ok(!wasRemoved);
    }

    /** The `comments` field of a post: looks each listed id up and keeps the
        comments that exist, in list order. */
    method PostComments(post: Post) returns (list: seq<Comment>)
      ensures list == ResolvedComments(post.comments, comments)
      ensures Valid() && post.id in posts && posts[post.id] == post ==>
        |list| == CommentCount(post) && forall i :: 0 <= i < |list| ==> list[i] == comments[post.comments[i]]
    {
      list := [];
      for i := 0 to |post.comments|
        invariant list == ResolvedComments(post.comments[..i], comments)
      {
        var commentId := post.comments[i];
        assert post.comments[..i + 1][..i] == post.comments[..i];
        assert ResolvedComments(post.comments[..i + 1], comments) ==
          list + (if commentId in comments then [comments[commentId]] else []);
        if commentId in comments {
          list := list + [comments[commentId]];
        }
      }
      assert post.comments[..|post.comments|] == post.comments;
      if Valid() && post.id in posts && posts[post.id] == post {
        ResolvedCommentsComplete(post.comments, comments);
      }
    }
  }
}
