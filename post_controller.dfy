/** The handlers of the post controller. createPost and deletePost write
    both collections (the post, and its id in the owner's `posts` list);
    updatePost rewrites one post; the rest only read. */
module PostController {
  import opened Request
  import opened UserModel
  import opened PostModel
  import opened Store

  /** One element of the list getUserPosts sends. */
  datatype PostView = PostView(id: Id, userName: string, date: int, title: string, content: string)

  /** `v` shows post `v.id`, owned by `uid`, under its owner's name. */
  predicate IsOwnedView(users: map<Id, User>, posts: map<Id, Post>, uid: Id, v: PostView) {
    && v.id in posts && posts[v.id].userId == uid && uid in users
    && v == PostView(v.id, users[uid].name, posts[v.id].date, posts[v.id].title, posts[v.id].content)
  }

  /** GET /user/:idUser: the posts whose `userId` is the given id, in natural
      order, each with its owner's name. No existence check on the user: an
      unknown id, or a user without posts, gets an empty list and 200. */
  method GetUserPosts(db: Db, uid: Id) returns (status: int, views: seq<PostView>)
    requires db.Valid()
    ensures status == Ok
    ensures forall v :: v in views <==> IsOwnedView(db.users, db.posts, uid, v)
    ensures forall i, j :: 0 <= i < j < |views| ==> views[i].id < views[j].id
    ensures views == [] <==> Owned(db.posts, uid) == {}
  {
    var ids := KeysBelow(Owned(db.posts, uid), db.nextId);
    views := [];
    for k := 0 to |ids|
      invariant |views| == k
      invariant forall i :: 0 <= i < k ==> views[i].id == ids[i] && IsOwnedView(db.users, db.posts, uid, views[i])
    {
      assert ids[k] in ids;
      var post := db.posts[ids[k]];
      views := views + [PostView(ids[k], db.users[post.userId].name, post.date, post.title, post.content)];
    }
    forall v | IsOwnedView(db.users, db.posts, uid, v) ensures v in views {
      assert v.id in Owned(db.posts, uid) && v.id < db.nextId;
      assert v.id in ids;
      var i :| 0 <= i < |ids| && ids[i] == v.id;
      assert views[i] == v;
    }
    if Owned(db.posts, uid) != {} {
      var p :| p in Owned(db.posts, uid);
      assert p in ids;
    }
    assert ids != [] ==> ids[0] in ids;
    return Ok, views;
  }

  /** What createPost checks before it reads the store: all three fields
      given, a title of 5 to 100 characters, content of at least 10. */
  predicate PostInputValid(title: Field, content: Field, userName: Field) {
    && Supplied(title) && Supplied(content) && Supplied(userName)
    && 5 <= |title.value| <= 100 && |content.value| >= 10
  }

  /** `findOne({date: {$gte: startOfToday}, content})`: some post, owned by
      anyone, with the same content dated at or after the start of today.
      There is no upper bound on the date. */
  predicate SameDayDuplicate(posts: map<Id, Post>, content: string, startOfToday: int) {
    exists p :: p in posts && posts[p].content == content && posts[p].date >= startOfToday
  }

  /** POST /create-post. The `userId` field carries the owner's NAME. Missing
      fields or bad lengths are a 400; no user of that name is a 404; a
      same-day post with the same content is a 400. Otherwise the post is
      saved under a fresh id, owned by the user found, dated `now`, and its
      id is appended to that user's `posts`. The save never fails: the checks
      above already imply the schema bounds. */
  method CreatePost(db: Db, title: Field, content: Field, userName: Field, now: int, startOfToday: int)
    returns (status: int, saved: Option<Post>)
    requires db.Valid()
    modifies db
    ensures db.Valid()
    ensures status != ServerError
    ensures status == BadRequest <==>
      || !PostInputValid(title, content, userName)
      || (AnyMatch(old(db.users), ByName(userName.value)) && SameDayDuplicate(old(db.posts), content.value, startOfToday))
    ensures status == NotFound <==>
      PostInputValid(title, content, userName) && !AnyMatch(old(db.users), ByName(userName.value))
    ensures status == Created <==>
      && PostInputValid(title, content, userName) && AnyMatch(old(db.users), ByName(userName.value))
      && !SameDayDuplicate(old(db.posts), content.value, startOfToday)
    ensures saved.Some? <==> status == Created
    ensures status != Created ==>
      db.users == old(db.users) && db.posts == old(db.posts) && db.nextId == old(db.nextId)
    ensures status == Created ==>
      var p := saved.value;
      && p.title == title.value && p.content == content.value && p.date == now
      && p.userId in old(db.users) && old(db.users)[p.userId].name == userName.value
      && ValidPost(p)
      && db.posts == old(db.posts)[old(db.nextId) := p]
      && db.users == Link(old(db.users), p.userId, old(db.nextId))
      && db.nextId == old(db.nextId) + 1
  {
    if !Supplied(title) || !Supplied(content) || !Supplied(userName) {
      return BadRequest, None;
    }
    if |title.value| < 5 || |title.value| > 100 {
      return BadRequest, None;
    }
    if |content.value| < 10 {
      return BadRequest, None;
    }
    var owner := db.FindUser(ByName(userName.value));
    if owner.None? {
      return NotFound, None;
    }
    if SameDayDuplicate(db.posts, content.value, startOfToday) {
      return BadRequest, None;
    }
    var post := Post(title.value, content.value, owner.value, now);
    LinkPreserves(db.users, db.posts, db.nextId, post);
    db.posts := db.posts[db.nextId := post];
    db.users := Link(db.users, owner.value, db.nextId);
    db.nextId := db.nextId + 1;
    return Created, Some(post);
  }

  /** GET /get-by-id/:id. */
  method GetPostById(db: Db, id: Id) returns (status: int, post: Option<Post>)
    ensures status == Ok <==> id in db.posts
    ensures status == NotFound <==> id !in db.posts
    ensures post == if id in db.posts then Some(db.posts[id]) else None
  {
    if id !in db.posts {
      return NotFound, None;
    }
    return Ok, Some(db.posts[id]);
  }

  /** The record updatePost saves: an omitted or empty title or content
      keeps its stored value; owner and date are never touched. */
  function EditedPost(p: Post, title: Field, content: Field): Post {
    p.(title := Or(title, p.title), content := Or(content, p.content))
  }

  /** PUT /update-post/:id. An unknown id is a 404. The edited record goes
      through `save()`, so a title or content outside the schema bounds fails
      with 500; otherwise the post is replaced and the answer is 201. Users
      are never touched. */
  method UpdatePost(db: Db, id: Id, title: Field, content: Field) returns (status: int, edited: Option<Post>)
    requires db.Valid()
    modifies db
    ensures db.Valid()
    ensures status == NotFound <==> id !in old(db.posts)
    ensures status == ServerError <==> id in old(db.posts) && !ValidPost(EditedPost(old(db.posts)[id], title, content))
    ensures status == Created <==> id in old(db.posts) && ValidPost(EditedPost(old(db.posts)[id], title, content))
    ensures edited.Some? <==> status == Created
    ensures status != Created ==>
      db.users == old(db.users) && db.posts == old(db.posts) && db.nextId == old(db.nextId)
    ensures status == Created ==>
      && edited.value == EditedPost(old(db.posts)[id], title, content)
      && edited.value.userId == old(db.posts)[id].userId && edited.value.date == old(db.posts)[id].date
      && db.posts == old(db.posts)[id := edited.value]
      && db.users == old(db.users) && db.nextId == old(db.nextId)
  {
    if id !in db.posts {
      return NotFound, None;
    }
    var post := EditedPost(db.posts[id], title, content);
    if !ValidPost(post) {
      return ServerError, None;
    }
    ReplacePostPreserves(db.users, db.posts, db.nextId, id, post);
    db.posts := db.posts[id := post];
    return Created, Some(post);
  }

  /** DELETE /delete-post/:id. An unknown id is a 404. Otherwise the post is
      deleted and its id pulled from its owner's `posts`; afterwards no user
      lists it. */
  method DeletePost(db: Db, id: Id) returns (status: int)
    requires db.Valid()
    modifies db
    ensures db.Valid()
    ensures status == NotFound <==> id !in old(db.posts)
    ensures status == Ok <==> id in old(db.posts)
    ensures status == NotFound ==>
      db.users == old(db.users) && db.posts == old(db.posts) && db.nextId == old(db.nextId)
    ensures status == Ok ==>
      && db.posts == old(db.posts) - {id}
      && db.users == Unlink(old(db.users), old(db.posts)[id].userId, id)
      && db.nextId == old(db.nextId)
      && forall u :: u in db.users ==> id !in db.users[u].posts
  {
    if id !in db.posts {
      return NotFound;
    }
    var owner := db.posts[id].userId;
    UnlinkPreserves(db.users, db.posts, db.nextId, id);
    db.users := Unlink(db.users, owner, id);
    db.posts := db.posts - {id};
    return Ok;
  }

  /** One element of the list getAllPosts sends: the post with its owner
      reference resolved to the owner's name. */
  datatype PostListing = PostListing(id: Id, post: Post, ownerName: string)

  predicate IsListingOf(users: map<Id, User>, posts: map<Id, Post>, l: PostListing) {
    l.id in posts && l.post == posts[l.id] && l.post.userId in users && l.ownerName == users[l.post.userId].name
  }

  /** GET /get-all: every post, in natural order, with its owner's name. */
  method GetAllPosts(db: Db) returns (status: int, all: seq<PostListing>)
    requires db.Valid()
    ensures status == Ok
    ensures forall l :: l in all <==> IsListingOf(db.users, db.posts, l)
    ensures forall i, j :: 0 <= i < j < |all| ==> all[i].id < all[j].id
    ensures |all| == |db.posts|
  {
    var ids := KeysBelow(db.posts.Keys, db.nextId);
    all := [];
    for k := 0 to |ids|
      invariant |all| == k
      invariant forall i :: 0 <= i < k ==> all[i].id == ids[i] && IsListingOf(db.users, db.posts, all[i])
    {
      assert ids[k] in ids;
      var post := db.posts[ids[k]];
      all := all + [PostListing(ids[k], post, db.users[post.userId].name)];
    }
    forall l | IsListingOf(db.users, db.posts, l) ensures l in all {
      var i :| 0 <= i < |ids| && ids[i] == l.id;
      assert all[i] == l;
    }
    assert |all| == |db.posts| by {
      KeysBelowCount(db.posts.Keys, db.nextId);
    }
    return Ok, all;
  }
}
