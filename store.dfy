/** The two collections, `users` and `posts`, held by one object whose
    handlers update them in place, together with the invariant that keeps
    them consistent: a user's `posts` list names exactly the posts whose
    `userId` is that user, each once. The three cross-collection writes
    (link a new post, unlink a deleted one, cascade a user's deletion) are
    functions on the two maps, each proved to preserve the invariant. */
module Store {
  import opened Request
  import opened UserModel
  import opened PostModel

  // ------------------------------------------------------- the invariant

  predicate Distinct(s: seq<Id>) {
    forall i, j :: 0 <= i < j < |s| ==> s[i] != s[j]
  }

  /** Every id in a user's `posts` names a stored post owned by that user. */
  predicate RefsOwned(users: map<Id, User>, posts: map<Id, Post>) {
    forall u, p :: u in users && p in users[u].posts ==> p in posts && posts[p].userId == u
  }

  /** Every post's owner exists and lists the post. */
  predicate OwnersList(users: map<Id, User>, posts: map<Id, Post>) {
    forall p :: p in posts ==> posts[p].userId in users && p in users[posts[p].userId].posts
  }

  predicate RefsDistinct(users: map<Id, User>) {
    forall u :: u in users ==> Distinct(users[u].posts)
  }

  predicate Linked(users: map<Id, User>, posts: map<Id, Post>) {
    RefsOwned(users, posts) && OwnersList(users, posts) && RefsDistinct(users)
  }

  /** The ids of the posts whose `userId` is `u`: the authoritative side. */
  function Owned(posts: map<Id, Post>, u: Id): set<Id> {
    set p | p in posts && posts[p].userId == u
  }

  /** What every handler keeps: ids below the counter, every record within
      its schema bounds (each write goes through `save()` or leaves the
      record's bounded fields alone), and the two sides linked. */
  predicate StoreInvariant(users: map<Id, User>, posts: map<Id, Post>, next: nat) {
    && (forall id :: id in users ==> id < next)
    && (forall id :: id in posts ==> id < next)
    && (forall id :: id in users ==> ValidUser(users[id]))
    && (forall id :: id in posts ==> ValidPost(posts[id]))
    && Linked(users, posts)
  }

  function Elements(s: seq<Id>): set<Id> {
    set p | p in s
  }

  lemma {:induction false} DistinctCard(s: seq<Id>)
    requires Distinct(s)
    ensures |Elements(s)| == |s|
  {
    if s != [] {
      var t := s[1..];
      assert Distinct(t) by {
        forall i, j | 0 <= i < j < |t| ensures t[i] != t[j] {
          assert t[i] == s[i + 1] && t[j] == s[j + 1];
        }
      }
      DistinctCard(t);
      assert s[0] !in t by {
        forall j | 0 <= j < |t| ensures t[j] != s[0] { assert t[j] == s[j + 1]; }
      }
      assert Elements(s) == Elements(t) + {s[0]} by {
        assert s == [s[0]] + t;
      }
    }
  }

  /** Under the invariant a user's back-reference list is the set of posts it
      owns, listed once each. */
  lemma BackRefsAreOwnedPosts(users: map<Id, User>, posts: map<Id, Post>, u: Id)
    requires Linked(users, posts) && u in users
    ensures Elements(users[u].posts) == Owned(posts, u)
    ensures |users[u].posts| == |Owned(posts, u)|
  {
    DistinctCard(users[u].posts);
  }

  // ------------------------------------------- the cross-collection writes

  /** `$pull`: every occurrence of `x` removed, the rest kept in order. */
  function RemoveAll(s: seq<Id>, x: Id): (r: seq<Id>)
    ensures forall y :: y in r <==> y in s && y != x
  {
    if s == [] then [] else (if s[0] == x then [] else [s[0]]) + RemoveAll(s[1..], x)
  }

  lemma {:induction false} RemoveAllAbsent(s: seq<Id>, x: Id)
    requires x !in s
    ensures RemoveAll(s, x) == s
  {
    if s != [] {
      RemoveAllAbsent(s[1..], x);
    }
  }

  lemma {:induction false} RemoveAllAppend(a: seq<Id>, b: seq<Id>, x: Id)
    ensures RemoveAll(a + b, x) == RemoveAll(a, x) + RemoveAll(b, x)
  {
    if a != [] {
      assert (a + b)[1..] == a[1..] + b;
      RemoveAllAppend(a[1..], b, x);
    } else {
      assert a + b == b;
    }
  }

  lemma {:induction false} RemoveAllDistinct(s: seq<Id>, x: Id)
    requires Distinct(s)
    ensures Distinct(RemoveAll(s, x))
  {
    if s != [] {
      RemoveAllDistinct(s[1..], x);
      assert s[0] !in s[1..];
    }
  }

  /** `$push: {posts: id}` on the owner. */
  function Link(users: map<Id, User>, owner: Id, id: Id): map<Id, User>
    requires owner in users
  {
    users[owner := users[owner].(posts := users[owner].posts + [id])]
  }

  /** `$pull: {posts: id}` on the owner; `findByIdAndUpdate` of an id no
      longer present changes nothing. */
  function Unlink(users: map<Id, User>, owner: Id, id: Id): map<Id, User> {
    if owner in users then users[owner := users[owner].(posts := RemoveAll(users[owner].posts, id))]
    else users
  }

  /** `deleteMany({userId: uid})`. */
  function Cascade(posts: map<Id, Post>, uid: Id): map<Id, Post> {
    map p | p in posts && posts[p].userId != uid :: posts[p]
  }

  /** Deleting a post right after creating it gives the owner back exactly the
      list it had: same ids, same order, same length. */
  lemma UnlinkUndoesLink(users: map<Id, User>, owner: Id, id: Id)
    requires owner in users && id !in users[owner].posts
    ensures Unlink(Link(users, owner, id), owner, id) == users
  {
    var s := users[owner].posts;
    RemoveAllAppend(s, [id], id);
    RemoveAllAbsent(s, id);
    assert RemoveAll([id], id) == [];
    assert RemoveAll(s + [id], id) == s;
  }

  /** A fresh user (empty `posts`) under a fresh id keeps the invariant. */
  lemma InsertUserPreserves(users: map<Id, User>, posts: map<Id, Post>, next: nat, u: User)
    requires StoreInvariant(users, posts, next)
    requires ValidUser(u) && u.posts == []
    ensures StoreInvariant(users[next := u], posts, next + 1)
  {
    var users' := users[next := u];
    forall q, p | q in users' && p in users'[q].posts ensures p in posts && posts[p].userId == q {
      assert q != next;
    }
  }

  /** Replacing a user's name, email or password keeps the invariant when the
      new record is within bounds and its `posts` are untouched. */
  lemma ReplaceUserPreserves(users: map<Id, User>, posts: map<Id, Post>, next: nat, id: Id, u: User)
    requires StoreInvariant(users, posts, next)
    requires id in users && ValidUser(u) && u.posts == users[id].posts
    ensures StoreInvariant(users[id := u], posts, next)
  {
  }

  /** Replacing a post's title or content keeps the invariant when the new
      record is within bounds and its owner is untouched. */
  lemma ReplacePostPreserves(users: map<Id, User>, posts: map<Id, Post>, next: nat, id: Id, p: Post)
    requires StoreInvariant(users, posts, next)
    requires id in posts && ValidPost(p) && p.userId == posts[id].userId
    ensures StoreInvariant(users, posts[id := p], next)
  {
  }

  /** Inserting a post under a fresh id and linking it to its owner keeps the
      invariant. */
  lemma LinkPreserves(users: map<Id, User>, posts: map<Id, Post>, next: nat, p: Post)
    requires StoreInvariant(users, posts, next)
    requires p.userId in users && ValidPost(p)
    ensures StoreInvariant(Link(users, p.userId, next), posts[next := p], next + 1)
  {
    var owner := p.userId;
    var users', posts' := Link(users, owner, next), posts[next := p];
    assert RefsOwned(users, posts);
    assert forall q :: q in users[owner].posts ==> q in posts;
    assert forall q :: q in users[owner].posts ==> q < next;
    forall u, q | u in users' && q in users'[u].posts ensures q in posts' && posts'[q].userId == u {
      if u == owner && q == next {
      } else if u == owner {
        assert q in users[owner].posts;
      } else {
        assert q in users[u].posts;
      }
    }
    assert Distinct(users'[owner].posts) by {
      var s := users[owner].posts;
      assert users'[owner].posts == s + [next];
      forall i, j | 0 <= i < j < |s| + 1 ensures (s + [next])[i] != (s + [next])[j] {
        if j == |s| { assert s[i] in s; }
      }
    }
    assert OwnersList(users', posts');
    assert RefsDistinct(users');
  }

  /** Deleting a post and pulling its id from its owner keeps the invariant. */
  lemma UnlinkPreserves(users: map<Id, User>, posts: map<Id, Post>, next: nat, id: Id)
    requires StoreInvariant(users, posts, next)
    requires id in posts
    ensures StoreInvariant(Unlink(users, posts[id].userId, id), posts - {id}, next)
  {
    var owner := posts[id].userId;
    var users', posts' := Unlink(users, owner, id), posts - {id};
    RemoveAllDistinct(users[owner].posts, id);
    forall u, q | u in users' && q in users'[u].posts ensures q in posts' && posts'[q].userId == u {
      if u != owner {
        assert q in users[u].posts;
        assert q != id;
      }
    }
  }

  /** Deleting a user and every post it owns keeps the invariant: no other
      user lists any of the deleted posts. */
  lemma CascadePreserves(users: map<Id, User>, posts: map<Id, Post>, next: nat, uid: Id)
    requires StoreInvariant(users, posts, next)
    ensures StoreInvariant(users - {uid}, Cascade(posts, uid), next)
  {
    var users', posts' := users - {uid}, Cascade(posts, uid);
    forall u, q | u in users' && q in users'[u].posts ensures q in posts' && posts'[q].userId == u {
      assert q in users[u].posts;
    }
  }

  // ------------------------------------------------------------ queries

  /** The filters `findOne` is called with on the users collection. */
  datatype UserFilter =
    | ByName(name: string)
    | ByEmail(email: string)
    | ByCredentials(email: string, password: string)

  predicate Matches(u: User, f: UserFilter) {
    match f
    case ByName(n) => u.name == n
    case ByEmail(e) => u.email == e
    case ByCredentials(e, pw) => u.email == e && u.password == pw
  }

  predicate AnyMatch(users: map<Id, User>, f: UserFilter) {
    exists id :: id in users && Matches(users[id], f)
  }

  /** The natural order in which `find` lists a collection: ascending id,
      which is creation order since ids come from one counter. */
  function KeysBelow(ks: set<Id>, n: nat): (r: seq<Id>)
    ensures forall x :: x in r <==> x in ks && x < n
    ensures forall i, j :: 0 <= i < j < |r| ==> r[i] < r[j]
  {
    if n == 0 then []
    else
      var prefix := KeysBelow(ks, n - 1);
      assert forall i :: 0 <= i < |prefix| ==> prefix[i] < n - 1 by {
        forall i | 0 <= i < |prefix| ensures prefix[i] < n - 1 { assert prefix[i] in prefix; }
      }
      prefix + (if n - 1 in ks then [n - 1] else [])
  }

  /** Listing every key below the counter lists each key of the collection
      exactly once. */
  lemma KeysBelowCount(ks: set<Id>, n: nat)
    requires forall k :: k in ks ==> k < n
    ensures |KeysBelow(ks, n)| == |ks|
  {
    var r := KeysBelow(ks, n);
    assert Distinct(r);
    DistinctCard(r);
    assert Elements(r) == ks;
  }

  // ---------------------------------------------------------- the store

  class Db {
    var users: map<Id, User>
    var posts: map<Id, Post>
    var nextId: nat

    ghost predicate Valid()
      reads this
    {
      StoreInvariant(users, posts, nextId)
    }

    constructor ()
      ensures Valid() && users == map[] && posts == map[] && nextId == 0
    {
      users, posts, nextId := map[], map[], 0;
    }

    /** `findOne(filter)`: some user that matches, or none when none does. */
    method FindUser(f: UserFilter) returns (r: Option<Id>)
      ensures r.Some? ==> r.value in users && Matches(users[r.value], f)
      ensures r.None? <==> !AnyMatch(users, f)
    {
      if AnyMatch(users, f) {
        var id :| id in users && Matches(users[id], f);
        r := Some(id);
      } else {
        r := None;
      }
    }
  }
}
