/** What each route of the blogging backend does to the two tables and what it
    answers, stated as a function of the tables before the request.  The
    class in server.dfy performs the same routes statement by statement and
    is proved to agree with these functions. */
module Handlers {
  import opened Sql

  type Id = nat

  /** A row of the `users` table.  The password is kept exactly as it was
      registered: registration does not hash it. */
  datatype User = User(id: Id, username: string, email: string, password: string)

  /** A row of the `posts` table; `imageUrl` is NULL when the post has no image. */
  datatype Post = Post(id: Id, title: string, author: string, content: string, fulltext: string, imageUrl: Option<string>)

  /** Both tables, in storage order, and the next value of each table's id sequence. */
  datatype Db = Db(users: seq<User>, posts: seq<Post>, nextUserId: Id, nextPostId: Id)

  /** The database as it is created: no rows, both id sequences at 1. */
  const EmptyDb := Db([], [], 1, 1)

  /** A JSON response body. */
  datatype Body =
    | NoBody
    | Failure(message: string)
    | UserRow(user: User)
    | Session(userId: Id, username: string)
    | PostRow(post: Post)
    | PostList(posts: seq<Post>)

  datatype Response = Response(status: nat, body: Body)

  /** The tables after a request, and the response to it. */
  datatype Transition = Transition(after: Db, resp: Response)

  const FieldsRequired := "All fields are required"
  const UserExists := "User already exists"
  const InvalidCredentials := "Invalid credentials"
  const PostNotFound := "Post not found"

  /** Where an uploaded image is served from, relative to the server. */
  function UploadPath(filename: string): string
  {
    "uploads/" + filename
  }

  // The WHERE clauses and the SET list the handlers use.

  function HasEmail(email: string): User -> bool
  {
    (u: User) => u.email == email
  }

  function Identifies(identifier: string): User -> bool
  {
    (u: User) => u.email == identifier || u.username == identifier
  }

  function HasId(id: Id): Post -> bool
  {
    (p: Post) => p.id == id
  }

  function SetPost(title: string, author: string, content: string, fulltext: string, imageUrl: Option<string>): Post -> Post
  {
    (p: Post) => p.(title := title, author := author, content := content, fulltext := fulltext, imageUrl := imageUrl)
  }

  // Invariants of the tables.

  /** Every id was drawn from its table's sequence, and no id is used twice. */
  ghost predicate Valid(db: Db)
  {
    && (forall u :: u in db.users ==> u.id < db.nextUserId)
    && (forall i, j :: 0 <= i < j < |db.users| ==> db.users[i].id != db.users[j].id)
    && (forall p :: p in db.posts ==> p.id < db.nextPostId)
    && (forall i, j :: 0 <= i < j < |db.posts| ==> db.posts[i].id != db.posts[j].id)
  }

  /** No two users share an email. */
  ghost predicate EmailsUnique(users: seq<User>)
  {
    forall i, j :: 0 <= i < j < |users| ==> users[i].email != users[j].email
  }

  /** Every user has a non-empty username, email and password. */
  ghost predicate FieldsPresent(users: seq<User>)
  {
    forall u :: u in users ==> u.username != "" && u.email != "" && u.password != ""
  }

  /** Under unique ids, the row at `i` is the first and only row with its id. */
  lemma OnlyRowWithId(db: Db, i: nat)
    requires Valid(db) && i < |db.posts|
    ensures IsFirst(db.posts, HasId(db.posts[i].id), i)
    ensures forall j :: 0 <= j < |db.posts| && j != i ==> !HasId(db.posts[i].id)(db.posts[j])
  {
  }

  /** An UPDATE whose SET list keeps every row's id keeps the ids valid. */
  lemma UpdateKeepsValid(db: Db, where: Post -> bool, assign: Post -> Post)
    requires Valid(db)
    requires forall p :: assign(p).id == p.id
    ensures Valid(db.(posts := Update(db.posts, where, assign)))
  {
    var r := Update(db.posts, where, assign);
    forall p | p in r ensures p.id < db.nextPostId {
      var k :| 0 <= k < |r| && r[k] == p;
      assert db.posts[k] in db.posts;
    }
  }

  /** Removing one post keeps the ids valid. */
  lemma RemoveKeepsValid(db: Db, i: nat)
    requires i < |db.posts|
    ensures Valid(db) ==> Valid(db.(posts := db.posts[..i] + db.posts[i + 1..]))
  {
    if !Valid(db) { return; }
    var rest := db.posts[..i] + db.posts[i + 1..];
    assert forall k :: 0 <= k < |rest| ==> rest[k] == db.posts[if k < i then k else k + 1];
    forall p | p in rest ensures p.id < db.nextPostId {
      var k :| 0 <= k < |rest| && rest[k] == p;
      assert db.posts[if k < i then k else k + 1] in db.posts;
    }
  }

  // The routes.

  /** POST /register.  A missing (empty) field or an email already in use is a
      400 that changes nothing; otherwise exactly one row holding the given
      fields under a fresh id is appended and returned with 201. */
  function Register(db: Db, username: string, email: string, password: string): (t: Transition)
    ensures t.resp.status == 201 || t.resp.status == 400
    ensures t.resp.status == 400 ==> t.after == db
    ensures username == "" || email == "" || password == "" ==> t.resp == Response(400, Failure(FieldsRequired))
    ensures username != "" && email != "" && password != "" && (exists u :: u in db.users && u.email == email) ==>
              t.resp == Response(400, Failure(UserExists))
    ensures t.resp.status == 201 <==>
              username != "" && email != "" && password != "" && forall u :: u in db.users ==> u.email != email
    ensures t.resp.status == 201 ==>
              && t.resp.body.UserRow?
              && t.resp.body.user.username == username
              && t.resp.body.user.email == email
              && t.resp.body.user.password == password
              && t.after.users == db.users + [t.resp.body.user]
              && t.after.posts == db.posts
              && t.after.nextPostId == db.nextPostId
    ensures Valid(db) && t.resp.status == 201 ==> forall u :: u in db.users ==> u.id != t.resp.body.user.id
    ensures Valid(db) ==> Valid(t.after)
    ensures EmailsUnique(db.users) ==> EmailsUnique(t.after.users)
    ensures FieldsPresent(db.users) ==> FieldsPresent(t.after.users)
  {
    if username == "" || email == "" || password == "" then
      Transition(db, Response(400, Failure(FieldsRequired)))
    else if FirstIndex(db.users, HasEmail(email)).Some? then
      Transition(db, Response(400, Failure(UserExists)))
    else
      var row := User(db.nextUserId, username, email, password);
      Transition(db.(users := db.users + [row], nextUserId := db.nextUserId + 1), Response(201, UserRow(row)))
  }

  /** POST /login.  The first user in storage order whose email or username is
      the identifier decides: 200 with its id and username if `matches` accepts
      the password against the stored one, 401 otherwise; no such user is 401.
      `matches` stands for the password-hash comparison. */
  function Login(db: Db, identifier: string, password: string, matches: (string, string) -> bool): (resp: Response)
    ensures resp.status == 200 || resp.status == 401
    ensures resp.status == 401 ==> resp == Response(401, Failure(InvalidCredentials))
    ensures (forall u :: u in db.users ==> u.email != identifier && u.username != identifier) ==> resp.status == 401
    ensures forall i :: IsFirst(db.users, Identifies(identifier), i) ==>
              resp == if matches(password, db.users[i].password)
                      then Response(200, Session(db.users[i].id, db.users[i].username))
                      else Response(401, Failure(InvalidCredentials))
  {
    match FirstIndex(db.users, Identifies(identifier))
    case None => Response(401, Failure(InvalidCredentials))
    case Some(i) =>
      var user := db.users[i];
      if matches(password, user.password) then Response(200, Session(user.id, user.username))
      else Response(401, Failure(InvalidCredentials))
  }

  /** GET /posts: every post, in storage order. */
  function ListPosts(db: Db): (resp: Response)
    ensures resp.status == 200 && resp.body.PostList?
    ensures forall p :: p in resp.body.posts <==> p in db.posts
    ensures resp.body.posts == db.posts
  {
    Response(200, PostList(db.posts))
  }

  /** GET /posts/:id: 404 exactly when no post has the id, else 200 with a post that has it. */
  function ReadPost(db: Db, id: Id): (resp: Response)
    ensures resp.status == 200 || resp.status == 404
    ensures resp.status == 404 <==> forall p :: p in db.posts ==> p.id != id
    ensures resp.status == 404 ==> resp.body == Failure(PostNotFound)
    ensures resp.status == 200 ==> resp.body.PostRow? && resp.body.post in db.posts && resp.body.post.id == id
  {
    match FirstIndex(db.posts, HasId(id))
    case None => Response(404, Failure(PostNotFound))
    case Some(i) => Response(200, PostRow(db.posts[i]))
  }

  /** POST /posts: appends one post with the given fields under a fresh id; its
      image is the uploaded file's path when a file came with the request and
      NULL otherwise.  Answers 201 with the new row. */
  function CreatePost(db: Db, title: string, author: string, content: string, fulltext: string, file: Option<string>): (t: Transition)
    ensures t.resp.status == 201 && t.resp.body.PostRow?
    ensures var row := t.resp.body.post;
              && row.title == title && row.author == author
              && row.content == content && row.fulltext == fulltext
              && row.imageUrl == (if file.Some? then Some(UploadPath(file.value)) else None)
              && t.after.posts == db.posts + [row]
              && t.after.users == db.users
              && t.after.nextUserId == db.nextUserId
    ensures Valid(db) ==> forall p :: p in db.posts ==> p.id != t.resp.body.post.id
    ensures Valid(db) ==> Valid(t.after)
  {
    var imageUrl := if file.Some? then Some(UploadPath(file.value)) else None;
    var row := Post(db.nextPostId, title, author, content, fulltext, imageUrl);
    Transition(db.(posts := db.posts + [row], nextPostId := db.nextPostId + 1), Response(201, PostRow(row)))
  }

  /** PUT /posts/:id: overwrites the four text fields of the post with the id;
      its image becomes the uploaded file's path when a file came with the
      request and stays what it was otherwise.  Answers 200 with the new row,
      or 200 with no body and no change when no post has the id. */
  function UpdatePost(db: Db, id: Id, title: string, author: string, content: string, fulltext: string, file: Option<string>): (t: Transition)
    ensures t.resp.status == 200
    ensures (forall p :: p in db.posts ==> p.id != id) ==> t == Transition(db, Response(200, NoBody))
    ensures forall i :: IsFirst(db.posts, HasId(id), i) ==>
              var row := Post(id, title, author, content, fulltext,
                              if file.Some? then Some(UploadPath(file.value)) else db.posts[i].imageUrl);
              t.resp.body == PostRow(row) && t.after.posts == db.posts[i := row]
    ensures t.after == db.(posts := t.after.posts)
    ensures Valid(db) ==> Valid(t.after)
  {
    match FirstIndex(db.posts, HasId(id))
    case None => Transition(db, Response(200, NoBody))
    case Some(i) =>
      var imageUrl := if file.Some? then Some(UploadPath(file.value)) else db.posts[i].imageUrl;
      var row := Post(id, title, author, content, fulltext, imageUrl);
      Transition(db.(posts := db.posts[i := row]), Response(200, PostRow(row)))
  }

  /** The statements PUT /posts/:id issues: the image path starts as the empty
      string and becomes the upload's path, or else the current row's image if
      the row exists; then the UPDATE, whose first returned row is the answer.
      Under unique ids they do what UpdatePost states. */
  lemma UpdateStatements(db: Db, id: Id, title: string, author: string, content: string, fulltext: string,
                         file: Option<string>, imageUrl: Option<string>, rows: seq<Post>, resp: Response)
    requires Valid(db)
    requires file.Some? ==> imageUrl == Some(UploadPath(file.value))
    requires file.None? ==> forall i :: IsFirst(db.posts, HasId(id), i) ==> imageUrl == db.posts[i].imageUrl
    requires rows == Update(db.posts, HasId(id), SetPost(title, author, content, fulltext, imageUrl))
    requires var returned := Select(rows, HasId(id));
             resp == if |returned| > 0 then Response(200, PostRow(returned[0])) else Response(200, NoBody)
    ensures Valid(Db(db.users, rows, db.nextUserId, db.nextPostId))
    ensures UpdatePost(db, id, title, author, content, fulltext, file) == Transition(Db(db.users, rows, db.nextUserId, db.nextPostId), resp)
  {
    var assign := SetPost(title, author, content, fulltext, imageUrl);
    UpdateKeepsValid(db, HasId(id), assign);
    match FirstIndex(db.posts, HasId(id))
    case None =>
      UpdateNothing(db.posts, HasId(id), assign);
    case Some(i) =>
      OnlyRowWithId(db, i);
      assert imageUrl == if file.Some? then Some(UploadPath(file.value)) else db.posts[i].imageUrl;
      assert assign(db.posts[i]) == Post(id, title, author, content, fulltext, imageUrl);
      UpdateOnly(db.posts, HasId(id), assign, i);
  }

  /** DELETE /posts/:id: 404 and no change when no post has the id; otherwise
      the post is removed and the answer is 204 with no body. */
  function DeletePost(db: Db, id: Id): (t: Transition)
    ensures t.resp.status == 204 || t.resp.status == 404
    ensures t.resp.status == 404 <==> forall p :: p in db.posts ==> p.id != id
    ensures t.resp.status == 404 ==> t == Transition(db, Response(404, Failure(PostNotFound)))
    ensures t.resp.status == 204 ==>
              && t.resp.body == NoBody && t.after.users == db.users
              && t.after.nextUserId == db.nextUserId && t.after.nextPostId == db.nextPostId
    ensures forall i :: IsFirst(db.posts, HasId(id), i) ==> t.after.posts == db.posts[..i] + db.posts[i + 1..]
    ensures Valid(db) ==> Valid(t.after)
  {
    match FirstIndex(db.posts, HasId(id))
    case None => Transition(db, Response(404, Failure(PostNotFound)))
    case Some(i) =>
      RemoveKeepsValid(db, i);
      Transition(db.(posts := db.posts[..i] + db.posts[i + 1..]), Response(204, NoBody))
  }

  /** The statements DELETE /posts/:id issues: the lookup by id, then, when a
      row was found, the DELETE.  Under unique ids they do what DeletePost states. */
  lemma DeleteStatements(db: Db, id: Id)
    requires Valid(db)
    ensures var found := Select(db.posts, HasId(id));
            DeletePost(db, id) ==
              if |found| == 0 then Transition(db, Response(404, Failure(PostNotFound)))
              else Transition(db.(posts := Delete(db.posts, HasId(id))), Response(204, NoBody))
  {
    match FirstIndex(db.posts, HasId(id))
    case None =>
    case Some(i) =>
      OnlyRowWithId(db, i);
      DeleteOnly(db.posts, HasId(id), i);
  }
}
