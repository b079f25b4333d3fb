/** The User schema: the record stored in the `users` collection and the
    bounds Mongoose re-checks on every `save()`. */
module UserModel {

  /** Store-generated record identifier (a Mongo ObjectId). Users and posts
      draw theirs from one counter, so an id is never reused. */
  type Id = nat

  /** `posts` is the back-reference list of the posts the user authored, in
      the order they were created; it starts empty. */
  datatype User = User(name: string, email: string, password: string, posts: seq<Id>)

  /** The schema bounds: `name` of 5 to 100 characters, `email` present and
      non-empty (no format check at this level), `password` of 6 to 20
      characters. `posts` is unconstrained. */
  predicate ValidUser(u: User) {
    && 5 <= |u.name| <= 100
    && |u.email| > 0
    && 6 <= |u.password| <= 20
  }
}
