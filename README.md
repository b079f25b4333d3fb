# Users and posts: a verified model of the REST service's core

The service keeps two collections:
- **users**: name, email, plain-text password, and a list of the ids of the posts they wrote.
- **posts**: title, content, owner, date.

Two groups of HTTP handlers read and write them: the user router and the post controller.

This project models, in Dafny:
- the two input validators of the user router;
- the schema bounds of both collections, as validity predicates;
- the store, as a class `Store.Db` holding the two collections as maps and an id counter. Its handlers change these in place;
- every handler of the user router (create, list, detail, find by email and by name, update, delete with cascade, a user's posts, login);
- every handler of the post controller (a user's posts, create, get by id, update, delete, list all);
- a few request sequences (`Scenarios`).

The central property is the link between the two collections. For every user u, the ids in `u.posts` are exactly the posts whose owner is u, each listed once. `Store.StoreInvariant` states it as `Db.Valid()`. Every handler that writes, lists or joins records requires `Valid()`, and every writing handler ensures it again. The single-record lookups (`GetUserDetail`, `GetUserBy`, `Login`, `GetPostById`) need nothing of the store. The cross-collection writes are functions on the maps, and their preservation lemmas carry the proof:
- `$push` of a new post id is `Link`;
- `$pull` of a deleted one is `Unlink`;
- `deleteMany` of a deleted user's posts is `Cascade`.

Each handler's contract gives its status code as an if-and-only-if of the input and the old state. A request that fails leaves all of the store unchanged: both maps and the counter. A successful write states the new maps outright.

Modelling conventions:
- A request field is `Option<string>`. `None` is an absent field. JavaScript truthiness (`!x`, `x || y`) is `Supplied` and `Or` in `Request`.
- Ids are natural numbers from one counter that users and posts share. Listings come back in ascending id, which is creation order. This is an assumption of the model (see "## Left out").
- `findOne` picks some matching record (`Db.FindUser`). Which one is not determined.
- `save()` re-validates the schema. A record outside the bounds makes the handler answer 500 and change nothing.
- The clock is two parameters of `CreatePost`: `now`, the new post's date, and `startOfToday`, the value of `new Date().setHours(0,0,0,0)`.

## Model

| member | source | states |
|---|---|---|
| Validation.IsValidEmail | src/routers/user/index.js:7-10 | the email expression `^[^\s@]+@[^\s@]+\.[^\s@]+$`, as a choice of the `@` and the `.` with non-empty runs of non-whitespace, non-`@` characters around them |
| Validation.IsValidPassword | src/routers/user/index.js:13-16 | the password expression: four lookaheads (upper-case letter, lower-case letter, digit, non-ASCII-alphanumeric), each reached through non-line-terminators, and `.{6,}` over the whole string |
| Validation.EmailCharacterised | src/routers/user/index.js:7-10 | the email expression accepts a string exactly when it has no JavaScript whitespace, exactly one `@` (not the first character), and a `.` after the `@` with at least one character on each side; both directions |
| Validation.EmailExamples | src/routers/user/index.js:7-10 | "a@b.c" and "a@b.com" are accepted; "a@b" (no dot after the `@`) and "ab.c" (no `@`) are refused |
| Validation.PasswordCharacterised | src/routers/user/index.js:13-16 | the lookahead expression accepts a string exactly when it has at least 6 characters, no line terminator, and an upper-case letter, a lower-case letter, a digit and a character that is not an ASCII letter or digit; both directions |
| Validation.StrongPasswordAccepted | src/routers/user/index.js:13-16 | "Abcde1!" is a strong password |
| Validation.WeakPasswordsRejected | src/routers/user/index.js:13-16 | a password without an upper-case letter, one without a digit, and one of 4 characters are all refused |
| UserModel.ValidUser | src/models/user.model.js:5-21 | the User schema's bounds: a name of 5 to 100 characters, a non-empty email, a password of 6 to 20 characters |
| PostModel.ValidPost | src/models/post.model.js:5-25 | the Post schema's bounds: a title of 5 to 100 characters and content of at least 10; owner and date are unconstrained |
| UserRoutes.LongStrongPasswordFailsSave | src/models/user.model.js:16-21 | for each n >= 17, "Aa1!" followed by n letters passes the strength check, yet the schema's 20-character maximum refuses it: create-user lets it through and then fails on save |
| Store.BackRefsAreOwnedPosts | src/controllers/post.controller.js:74-78 | under the link invariant, a user's `posts` list holds exactly the ids of the posts it owns, and its length is their number |
| Store.InsertUserPreserves | src/routers/user/index.js:103-105 | adding a valid user with an empty `posts` list under a fresh id keeps the store invariant |
| Store.ReplaceUserPreserves | src/routers/user/index.js:276-283 | replacing a user by a valid record with the same `posts` list keeps the invariant |
| Store.ReplacePostPreserves | src/controllers/post.controller.js:124-128 | replacing a post by a valid record with the same owner keeps the invariant |
| Store.Link | src/controllers/post.controller.js:76-78 | `$push`: the new post's id appended to the end of its owner's `posts`, every other user unchanged |
| Store.Unlink | src/controllers/post.controller.js:154-156 | `$pull`: every occurrence of the id removed from the owner's `posts`; no change when the owner is not stored |
| Store.Cascade | src/routers/user/index.js:324 | `deleteMany({userId})`: exactly the posts of other owners kept, unchanged |
| Store.LinkPreserves | src/controllers/post.controller.js:68-78 | saving a valid post under a fresh id and appending that id to its existing owner's `posts` keeps the invariant |
| Store.UnlinkPreserves | src/controllers/post.controller.js:154-156 | deleting a post and pulling its id from its owner's `posts` keeps the invariant |
| Store.CascadePreserves | src/routers/user/index.js:323-324 | deleting a user together with every post it owns keeps the invariant |
| Store.RemoveAll | src/controllers/post.controller.js:155 | `$pull` keeps exactly the elements that differ from the pulled id |
| Store.UnlinkUndoesLink | src/controllers/post.controller.js:155 | pulling an id that was just pushed onto a list that lacked it gives back the original list: same ids, order and length |
| Store.KeysBelow | src/controllers/post.controller.js:166 | the natural order of a collection lists exactly its ids, strictly ascending |
| Store.KeysBelowCount | src/controllers/post.controller.js:166 | the natural order lists every id of the collection once: its length is the collection's size |
| Store.Db.constructor | src/models/user.model.js:30 | the two collections registered here (users at this line, posts at src/models/post.model.js:28) start empty, with a valid state |
| Store.Db.FindUser | src/routers/user/index.js:187-220 | `findOne` returns a user matching the filter, or nothing exactly when no user matches |
| UserRoutes.CreateUser | src/routers/user/index.js:69-111 | 400 exactly when a field is missing or empty, the email is malformed, the password is weak, or the email is taken; 500 exactly when the checks pass but the record breaks the schema bounds; otherwise 201, with the one new user added and everything else unchanged; unique emails are preserved |
| UserRoutes.GetAllUsers | src/routers/user/index.js:132-141 | 200 with every stored user exactly once, ascending by id |
| UserRoutes.GetUserDetail | src/routers/user/index.js:169-184 | 200 with the record exactly when the id is stored, 404 otherwise |
| UserRoutes.GetUserBy | src/routers/user/index.js:187-220 | 200 with a user whose email (or name) is exactly the one given, 404 exactly when no user has it |
| UserRoutes.Edited | src/routers/user/index.js:278-280 | name, email and password each fall back on the stored value, as JavaScript's `or` does: an absent or empty field keeps the stored value; `posts` untouched |
| UserRoutes.UpdateUser | src/routers/user/index.js:254-289 | 404 for an unknown id; 400 exactly when a given email or password is malformed; 500 exactly when the edited record breaks the schema; otherwise 200, with only that user replaced (empty fields keep their stored value, `posts` untouched) |
| UserRoutes.DeleteUser | src/routers/user/index.js:313-331 | 404 for an unknown id, store unchanged; otherwise 200, with the user removed and a post kept exactly when another user owns it, its record unchanged |
| UserRoutes.GetPosts | src/routers/user/index.js:361-388 | 404 for an unknown id; otherwise 200 with one entry per id in the user's `posts` list, in that order, each a post the user owns shown under the user's name; as many entries as the user owns posts |
| UserRoutes.Login | src/routers/user/index.js:390-427 | 400 exactly when the credentials are missing or malformed; otherwise 200 exactly when some user has that email and password, and 404 exactly when none has |
| PostController.GetUserPosts | src/controllers/post.controller.js:4-28 | always 200; lists exactly the posts the given id owns, ascending, each shown under its owner's name; the list is empty exactly when that id owns no post |
| PostController.CreatePost | src/controllers/post.controller.js:30-89 | 400 exactly when a field is missing or out of bounds, or, once a user of the given name is found, a post with the same content is dated at or after the start of today; 404 exactly when the fields are valid and no user has the given name; never 500; on 201 the post (dated `now`, owned by the named user, within the schema) is added under a fresh id and that id is appended to its owner's `posts` |
| PostController.SameDayDuplicate | src/controllers/post.controller.js:58-61 | some stored post, of any owner, has exactly that content and a date at or after the start of today; no upper bound on the date |
| PostController.EditedPost | src/controllers/post.controller.js:124-125 | title and content each fall back on the stored value, as JavaScript's `or` does: an absent or empty field keeps the stored value; owner and date untouched |
| PostController.GetPostById | src/controllers/post.controller.js:90-105 | 200 with the post exactly when the id is stored, 404 otherwise |
| PostController.UpdatePost | src/controllers/post.controller.js:106-143 | 404 for an unknown id; 500 exactly when the edited record breaks the schema; otherwise 201, with only that post's title and content replaced (empty fields keep their value), its owner and date kept |
| PostController.DeletePost | src/controllers/post.controller.js:144-163 | 404 for an unknown id, store unchanged; otherwise 200, with the post removed, its id pulled from its owner's `posts`, and no user listing it afterwards |
| PostController.GetAllPosts | src/controllers/post.controller.js:164-171 | 200 with every post exactly once, ascending by id, each with its owner's name |
| Scenarios.StoreWithAlice | src/routers/user/index.js:69-111 | a valid sign-up into an empty store is a 201 and gives the user id 0 |
| Scenarios.SignUpPostAndDelete | src/routers/user/index.js:313-331 | a user who signs up, posts and is deleted takes the post along: the post is owned by id 0 and the list of all posts ends up empty |
| Scenarios.FirstPost | src/controllers/post.controller.js:30-89 | the first post of a new user is a 201 and is stored under id 1, owned by user 0 and dated `now` |
| Scenarios.SameContentSameDay | src/controllers/post.controller.js:58-67 | the same content posted twice on one day: the second post is a 400 |
| Scenarios.SameContentNextDay | src/controllers/post.controller.js:58-67 | the same content posted again on a later day is a 201 |
| Scenarios.CreateThenDeletePost | src/controllers/post.controller.js:144-163 | creating any post and then deleting the id it was given gives back both collections exactly as they were; the deletion succeeds exactly when the creation did |

## Left out

- Persistence, the database connection, and concurrency are not modelled. Each handler is one atomic step over the two maps. In the service, the two writes of create-post, delete-post and delete-user are separate and not transactional. A crash or an interleaved request between them could break the link invariant.
- Generic 500 answers are not modelled. This covers database errors and malformed ids that fail to cast. An id is a natural number, so every id can be looked up.
- Response bodies, messages and logging (updatePost's `console.log` calls at src/controllers/post.controller.js:113 and 117) are left out. The model keeps the status code and the records sent.
- Request fields of a non-string JSON type are not modelled. A field is absent, or it is a string.
- Time zones are not modelled. The clock is two parameters of `PostController.CreatePost`.
- Lengths are counted in Unicode code points, as Dafny counts characters. The source counts UTF-16 code units in three places, so a character outside the Basic Multilingual Plane counts once here and twice there. First, the schemas' `minlength`/`maxlength` (src/models/user.model.js:9-10 and 19-20, src/models/post.model.js:9-10 and 15). Second, the password expression's `.{6,}`, which has no `u` flag (src/routers/user/index.js:14). For example, "Aa1!" followed by one emoji is 6 code units, which the source accepts and `Validation.IsValidPassword` refuses. Third, createPost's `title.length` and `content.length` checks (src/controllers/post.controller.js:38 and 43).
- `populate` quietly dropping a reference to a missing post is not modelled, and neither is getUserPosts' 500 when a post's owner is missing. The store invariant rules out both states, and the handlers that join records (`GetPosts`, `GetUserPosts`, `GetAllPosts`) require the invariant.
- UserRoutes.GetAllUsers, PostController.GetAllPosts and PostController.GetUserPosts promise ascending id order. This is an assumption, not a promise of the source: MongoDB's `find()` without a sort leaves the order unspecified. The model fixes one order so that a listing is a sequence, not a set. The membership and count clauses of these contracts do not depend on the choice.
- getUserPosts' 404 is unreachable (`find` returns an array, which is always truthy), so the model has no such branch.
- The post router (which only maps URLs to the controller), the app setup, the swagger description and the database connection file are not part of this model.

Three behaviours of the code that are easy to misread:
- updatePost goes through `save()`, so the schema is checked again: a title or content outside the bounds is a 500. The success status is 201.
- The `[\W_]` class of the password expression holds every character that is not an ASCII letter or digit. That includes `_` and whitespace.
- update-user does not check whether the new email is already taken. So unique emails are preserved only by create-user and are not part of the store invariant.
