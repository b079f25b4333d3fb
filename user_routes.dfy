/** The handlers of the user router. Each takes the store and the request's
    fields and answers with an HTTP status code (and, for the queries, the
    records it sends). A handler that fails leaves the store as it was. */
module UserRoutes {
  import opened Request
  import opened Validation
  import opened UserModel
  import opened PostModel
  import opened Store

  /** The checks login runs on its input; create-user runs the same ones. */
  predicate CredentialsWellFormed(email: Field, password: Field) {
    && Supplied(email) && Supplied(password)
    && IsValidEmail(email.value) && IsValidPassword(password.value)
  }

  /** Everything create-user checks before it reads the store. */
  predicate CreateInputValid(name: Field, email: Field, password: Field) {
    Supplied(name) && CredentialsWellFormed(email, password)
  }

  function NewUser(name: Field, email: Field, password: Field): User
    requires CreateInputValid(name, email, password)
  {
    User(name.value, email.value, password.value, [])
  }

  /** No two users share an email address. */
  predicate UniqueEmails(users: map<Id, User>) {
    forall a, b :: a in users && b in users && users[a].email == users[b].email ==> a == b
  }

  /** POST /create-user. A missing or empty field, a malformed email or a weak
      password is a 400; so is an email some user already has. A record
      outside the schema bounds (a name shorter than 5, a password longer
      than 20) fails on save: 500. Otherwise one user is added, with an empty
      `posts` list. */
  method CreateUser(db: Db, name: Field, email: Field, password: Field) returns (status: int)
    requires db.Valid()
    modifies db
    ensures db.Valid()
    ensures status == BadRequest <==>
      !CreateInputValid(name, email, password) || AnyMatch(old(db.users), ByEmail(email.value))
    ensures status == ServerError <==>
      && CreateInputValid(name, email, password) && !AnyMatch(old(db.users), ByEmail(email.value))
      && !ValidUser(NewUser(name, email, password))
    ensures status == Created <==>
      && CreateInputValid(name, email, password) && !AnyMatch(old(db.users), ByEmail(email.value))
      && ValidUser(NewUser(name, email, password))
    ensures status != Created ==>
      db.users == old(db.users) && db.posts == old(db.posts) && db.nextId == old(db.nextId)
    ensures status == Created ==>
      && db.users == old(db.users)[old(db.nextId) := NewUser(name, email, password)]
      && db.posts == old(db.posts) && db.nextId == old(db.nextId) + 1
    ensures UniqueEmails(old(db.users)) ==> UniqueEmails(db.users)
  {
    if !Supplied(email) || !Supplied(name) || !Supplied(password) {
      return BadRequest;
    }
    if !IsValidEmail(email.value) {
      return BadRequest;
    }
    if !IsValidPassword(password.value) {
      return BadRequest;
    }
    var existing := db.FindUser(ByEmail(email.value));
    if existing.Some? {
      return BadRequest;
    }
    var user := User(name.value, email.value, password.value, []);
    if !ValidUser(user) {
      return ServerError;
    }
    InsertUserPreserves(db.users, db.posts, db.nextId, user);
    db.users := db.users[db.nextId := user];
    db.nextId := db.nextId + 1;
    return Created;
  }

  /** GET /get-all-user: every stored record, in natural order. */
  method GetAllUsers(db: Db) returns (status: int, all: seq<(Id, User)>)
    requires db.Valid()
    ensures status == Ok
    ensures forall r :: r in all <==> r.0 in db.users && r.1 == db.users[r.0]
    ensures forall i, j :: 0 <= i < j < |all| ==> all[i].0 < all[j].0
    ensures |all| == |db.users|
  {
    var ids := KeysBelow(db.users.Keys, db.nextId);
    var users := db.users;
    all := [];
    for k := 0 to |ids|
      invariant |all| == k
      invariant forall i :: 0 <= i < k ==> all[i] == (ids[i], users[ids[i]])
    {
      assert ids[k] in ids;
      all := all + [(ids[k], users[ids[k]])];
    }
    forall r: (Id, User) | r.0 in users && r.1 == users[r.0] ensures r in all {
      var i :| 0 <= i < |ids| && ids[i] == r.0;
      assert all[i] == r;
    }
    assert |all| == |db.users| by {
      KeysBelowCount(db.users.Keys, db.nextId);
    }
    return Ok, all;
  }

  /** GET /get-user-detail/:id. */
  method GetUserDetail(db: Db, id: Id) returns (status: int, user: Option<User>)
    ensures status == Ok <==> id in db.users
    ensures status == NotFound <==> id !in db.users
    ensures user == if id in db.users then Some(db.users[id]) else None
  {
    if id !in db.users {
      return NotFound, None;
    }
    return Ok, Some(db.users[id]);
  }

  /** GET /get-user-byEmail/:email and GET /get-user-byname/:name: some user
      whose field is exactly the one given, or 404 when no user has it. */
  method GetUserBy(db: Db, f: UserFilter) returns (status: int, user: Option<User>)
    requires f.ByEmail? || f.ByName?
    ensures status == Ok <==> AnyMatch(db.users, f)
    ensures status == NotFound <==> !AnyMatch(db.users, f)
    ensures user.Some? <==> status == Ok
    ensures user.Some? ==> Matches(user.value, f) && user.value in db.users.Values
  {
    var found := db.FindUser(f);
    if found.None? {
      return NotFound, None;
    }
    return Ok, Some(db.users[found.value]);
  }

  /** The record update-user saves: each field omitted or empty keeps its
      stored value; `posts` is never touched. */
  function Edited(u: User, name: Field, email: Field, password: Field): User {
    u.(name := Or(name, u.name), email := Or(email, u.email), password := Or(password, u.password))
  }

  /** The format checks update-user applies to the fields it is given. */
  predicate UpdateInputValid(email: Field, password: Field) {
    && (Supplied(email) ==> IsValidEmail(email.value))
    && (Supplied(password) ==> IsValidPassword(password.value))
  }

  /** PUT /update-user/:id. An unknown id is a 404, a malformed email or weak
      password given is a 400, an edited record outside the schema bounds
      fails on save with 500; otherwise the user is replaced by its edited
      record. Email uniqueness is not checked here. */
  method UpdateUser(db: Db, id: Id, name: Field, email: Field, password: Field) returns (status: int)
    requires db.Valid()
    modifies db
    ensures db.Valid()
    ensures status == NotFound <==> id !in old(db.users)
    ensures status == BadRequest <==> id in old(db.users) && !UpdateInputValid(email, password)
    ensures status == ServerError <==>
      id in old(db.users) && UpdateInputValid(email, password)
      && !ValidUser(Edited(old(db.users)[id], name, email, password))
    ensures status == Ok <==>
      id in old(db.users) && UpdateInputValid(email, password)
      && ValidUser(Edited(old(db.users)[id], name, email, password))
    ensures status != Ok ==>
      db.users == old(db.users) && db.posts == old(db.posts) && db.nextId == old(db.nextId)
    ensures status == Ok ==>
      && db.users == old(db.users)[id := Edited(old(db.users)[id], name, email, password)]
      && db.posts == old(db.posts) && db.nextId == old(db.nextId)
  {
    if id !in db.users {
      return NotFound;
    }
    if Supplied(email) && !IsValidEmail(email.value) {
      return BadRequest;
    }
    if Supplied(password) && !IsValidPassword(password.value) {
      return BadRequest;
    }
    var edited := Edited(db.users[id], name, email, password);
    if !ValidUser(edited) {
      return ServerError;
    }
    ReplaceUserPreserves(db.users, db.posts, db.nextId, id, edited);
    db.users := db.users[id := edited];
    return Ok;
  }

  /** DELETE /delete/:id. An unknown id is a 404. Otherwise the user and
      every post it owns are deleted; every other record is kept as it was. */
  method DeleteUser(db: Db, id: Id) returns (status: int)
    requires db.Valid()
    modifies db
    ensures db.Valid()
    ensures status == NotFound <==> id !in old(db.users)
    ensures status == Ok <==> id in old(db.users)
    ensures status == NotFound ==>
      db.users == old(db.users) && db.posts == old(db.posts) && db.nextId == old(db.nextId)
    ensures status == Ok ==>
      && db.users == old(db.users) - {id}
      && (forall p :: p in db.posts <==> p in old(db.posts) && old(db.posts)[p].userId != id)
      && (forall p :: p in db.posts ==> db.posts[p] == old(db.posts)[p])
      && db.nextId == old(db.nextId)
  {
    if id !in db.users {
      return NotFound;
    }
    CascadePreserves(db.users, db.posts, db.nextId, id);
    db.users := db.users - {id};
    db.posts := Cascade(db.posts, id);
    return Ok;
  }

  /** One element of the list GET /get-posts/:id sends. */
  datatype UserPostView = UserPostView(name: string, date: int, title: string, content: string)

  /** GET /get-posts/:id. An unknown id is a 404. Otherwise the user's posts,
      resolved through its back-reference list in that list's order, each
      shown with the user's name: one entry per post the user owns. */
  method GetPosts(db: Db, id: Id) returns (status: int, views: seq<UserPostView>)
    requires db.Valid()
    ensures status == NotFound <==> id !in db.users
    ensures status == Ok <==> id in db.users
    ensures status == NotFound ==> views == []
    ensures status == Ok ==>
      && |views| == |db.users[id].posts| == |Owned(db.posts, id)|
      && forall i :: 0 <= i < |views| ==>
           var p := db.users[id].posts[i];
           && p in db.posts && db.posts[p].userId == id
           && views[i] == UserPostView(db.users[id].name, db.posts[p].date, db.posts[p].title, db.posts[p].content)
  {
    if id !in db.users {
      return NotFound, [];
    }
    var user := db.users[id];
    BackRefsAreOwnedPosts(db.users, db.posts, id);
    views := [];
    for i := 0 to |user.posts|
      invariant |views| == i
      invariant forall k :: 0 <= k < i ==>
        var p := user.posts[k];
        p in db.posts && views[k] == UserPostView(user.name, db.posts[p].date, db.posts[p].title, db.posts[p].content)
    {
      var post := db.posts[user.posts[i]];
      views := views + [UserPostView(user.name, post.date, post.title, post.content)];
    }
    return Ok, views;
  }

  /** GET /login. Malformed or missing credentials are a 400 (the checks of
      create-user); otherwise 200 exactly when some user has that email and
      that password, compared as plain text, and 404 when none has. */
  method Login(db: Db, email: Field, password: Field) returns (status: int)
    ensures status == BadRequest <==> !CredentialsWellFormed(email, password)
    ensures status == NotFound <==>
      CredentialsWellFormed(email, password) && !AnyMatch(db.users, ByCredentials(email.value, password.value))
    ensures status == Ok <==>
      CredentialsWellFormed(email, password) && AnyMatch(db.users, ByCredentials(email.value, password.value))
  {
    if !Supplied(email) || !Supplied(password) {
      return BadRequest;
    }
    if !IsValidEmail(email.value) {
      return BadRequest;
    }
    if !IsValidPassword(password.value) {
      return BadRequest;
    }
    var found := db.FindUser(ByCredentials(email.value, password.value));
    if found.None? {
      return NotFound;
    }
    return Ok;
  }

  /** `n` copies of `c`. */
  function Repeat(c: char, n: nat): (r: string)
    ensures |r| == n && forall i :: 0 <= i < n ==> r[i] == c
  {
    if n == 0 then [] else [c] + Repeat(c, n - 1)
  }

  /** The two layers disagree on passwords: the strength expression has no
      upper bound, the schema stops at 20 characters. Every strong password
      of 21 characters or more passes the strength check, yet no user record
      holding it is within the schema: given a name and email that pass
      their checks, create-user answers 500 on save. "Aa1!" padded with `n`
      letters is such a password for each n >= 17. */
  lemma LongStrongPasswordFailsSave(name: string, email: string, n: nat)
    requires n >= 17
    ensures IsValidPassword("Aa1!" + Repeat('a', n))
    ensures !ValidUser(User(name, email, "Aa1!" + Repeat('a', n), []))
  {
    var pw := "Aa1!" + Repeat('a', n);
    assert |pw| == n + 4;
    assert NoLineTerminator(pw) by {
      forall i | 0 <= i < |pw| ensures !IsLineTerminator(pw[i]) {
        if i >= 4 { assert pw[i] == 'a'; }
      }
    }
    assert InClass(pw[0], Upper) && InClass(pw[1], Lower) && InClass(pw[2], Digit) && InClass(pw[3], Symbol);
    PasswordCharacterised(pw);
  }
}
