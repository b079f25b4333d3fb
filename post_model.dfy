/** The Post schema: the record stored in the `posts` collection and the
    bounds Mongoose re-checks on every `save()`. */
module PostModel {
  import opened UserModel

  /** `userId` is the owning user's id (required); `date` is the creation
      instant, which the schema's default reads from the clock and the model
      takes as a parameter. */
  datatype Post = Post(title: string, content: string, userId: Id, date: int)

  /** The schema bounds: `title` of 5 to 100 characters and `content` of at
      least 10, with no upper bound. */
  predicate ValidPost(p: Post) {
    && 5 <= |p.title| <= 100
    && |p.content| >= 10
  }
}
