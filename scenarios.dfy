/** Sequences of requests against the store, proved from the handlers'
    contracts alone. */
module Scenarios {
  import opened Request
  import opened Validation
  import opened UserModel
  import opened PostModel
  import opened Store
  import UserRoutes
  import PostController

  const Alice := User("Alice Smith", "a@b.com", "Abcde1!", [])

  /** A fresh store in which Alice has signed up: she gets the first id. */
  method StoreWithAlice() returns (db: Db, created: int)
    ensures fresh(db) && db.Valid()
    ensures created == Created
    ensures db.users == map[0 := Alice] && db.posts == map[] && db.nextId == 1
  {
    db := new Db();
    EmailExamples();
    StrongPasswordAccepted();
    created := UserRoutes.CreateUser(db, Some(Alice.name), Some(Alice.email), Some(Alice.password));
  }

  /** Alice writes a post under her name and is then deleted: the post is
      owned by her id and goes with her, so the global listing is empty. */
  method SignUpPostAndDelete(now: int, startOfToday: int)
    returns (posted: int, owner: Id, deleted: int, remaining: seq<PostController.PostListing>)
    ensures posted == Created && owner == 0 && deleted == Ok
    ensures remaining == []
  {
    var db, created := StoreWithAlice();
    var name := Some(Alice.name);
    assert Matches(db.users[0], ByName(name.value));
    var saved;
    posted, saved := PostController.CreatePost(db, Some("Hello World"), Some("This is content."), name, now, startOfToday);
    owner := saved.value.userId;
    deleted := UserRoutes.DeleteUser(db, owner);
    assert db.posts == map[];
    var listed;
    listed, remaining := PostController.GetAllPosts(db);
  }

  /** Alice's first post of the day, dated `now`. */
  method FirstPost(now: int, startOfToday: int) returns (db: Db, posted: int)
    ensures fresh(db) && db.Valid() && posted == Created
    ensures db.users.Keys == {0} && db.users[0].name == Alice.name
    ensures db.posts == map[1 := Post("Hello World", "This is content.", 0, now)]
  {
    var created;
    db, created := StoreWithAlice();
    var name := Some(Alice.name);
    assert Matches(db.users[0], ByName(name.value));
    var saved;
    posted, saved := PostController.CreatePost(db, Some("Hello World"), Some("This is content."), name, now, startOfToday);
  }

  /** The same content twice on one day: the second post is refused. */
  method SameContentSameDay() returns (first: int, second: int)
    ensures first == Created && second == BadRequest
  {
    var db;
    db, first := FirstPost(1000, 900);
    assert db.posts[1].content == "This is content." && db.posts[1].date >= 900;
    assert Matches(db.users[0], ByName(Alice.name));
    var saved;
    second, saved := PostController.CreatePost(db, Some("Hello World"), Some("This is content."), Some(Alice.name), 1010, 900);
  }

  /** The same content again on a later day is accepted. */
  method SameContentNextDay() returns (first: int, second: int)
    ensures first == Created && second == Created
  {
    var db;
    db, first := FirstPost(1000, 900);
    assert !PostController.SameDayDuplicate(db.posts, "This is content.", 1900);
    assert Matches(db.users[0], ByName(Alice.name));
    var saved;
    second, saved := PostController.CreatePost(db, Some("Hello World"), Some("This is content."), Some(Alice.name), 2000, 1900);
  }

  /** Creating a post and then deleting the id it was given leaves every
      user's `posts` list exactly as it was (same ids, order and length) and
      the posts collection as it was. When the creation fails, the id names
      no post and the deletion is a 404. */
  method CreateThenDeletePost(db: Db, title: Field, content: Field, userName: Field, now: int, startOfToday: int)
    returns (created: int, deleted: int)
    requires db.Valid()
    modifies db
    ensures db.Valid()
    ensures deleted == Ok <==> created == Created
    ensures db.users == old(db.users) && db.posts == old(db.posts)
  {
    var id := db.nextId;
    var saved;
    created, saved := PostController.CreatePost(db, title, content, userName, now, startOfToday);
    if created == Created {
      var owner := saved.value.userId;
      assert id !in old(db.users)[owner].posts by {
        assert forall q :: q in old(db.users)[owner].posts ==> q in old(db.posts);
      }
      UnlinkUndoesLink(old(db.users), owner, id);
    }
    deleted := PostController.DeletePost(db, id);
    assert db.posts == old(db.posts);
  }
}
