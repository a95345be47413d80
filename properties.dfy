/** Properties of the routes that involve the table invariants or more than one
    request: what a client observes across calls. */
module Properties {
  import opened Sql
  import opened Handlers

  /** Registering an email that a previous registration took is refused and
      changes nothing, whatever the other fields are. */
  lemma RegisterTwice(db: Db, username: string, email: string, password: string, username': string, password': string)
    requires Register(db, username, email, password).resp.status == 201
    ensures var db' := Register(db, username, email, password).after;
            && Register(db', username', email, password').resp.status == 400
            && Register(db', username', email, password').after == db'
            && (username' != "" && password' != "" ==>
                  Register(db', username', email, password').resp.body == Failure(UserExists))
  {
    var t := Register(db, username, email, password);
    assert t.resp.body.user in t.after.users;
  }

  /** Right after a registration, logging in with the email and the same
      password succeeds, with the new user's id and username, exactly when the
      password comparison accepts the password against itself, because the
      password was stored as given (provided no earlier user has that email
      as username). */
  lemma LoginAfterRegister(db: Db, username: string, email: string, password: string, matches: (string, string) -> bool)
    requires Register(db, username, email, password).resp.status == 201
    requires forall u :: u in db.users ==> u.username != email
    ensures var t := Register(db, username, email, password);
            Login(t.after, email, password, matches) ==
              if matches(password, password) then Response(200, Session(t.resp.body.user.id, username))
              else Response(401, Failure(InvalidCredentials))
  {
    var t := Register(db, username, email, password);
    var n := |db.users|;
    assert t.after.users[n] == t.resp.body.user;
    forall j | 0 <= j < n ensures !Identifies(email)(t.after.users[j]) {
      assert t.after.users[j] == db.users[j];
      assert db.users[j] in db.users;
    }
    assert IsFirst(t.after.users, Identifies(email), n);
  }

  /** The lookup by email or username takes the first row in storage order, so
      when an earlier user's username is the email just registered, logging in
      with that email is answered against the earlier user, exactly as before
      the registration, and never opens a session for the new user. */
  lemma EarlierUsernameAnswersLogin(db: Db, username: string, email: string, password: string, password': string,
                                    matches: (string, string) -> bool)
    requires Valid(db)
    requires Register(db, username, email, password).resp.status == 201
    requires exists u :: u in db.users && u.username == email
    ensures var t := Register(db, username, email, password);
            && Login(t.after, email, password', matches) == Login(db, email, password', matches)
            && Login(t.after, email, password', matches).body != Session(t.resp.body.user.id, username)
  {
    var t := Register(db, username, email, password);
    var u :| u in db.users && u.username == email;
    FirstIndexAppend(db.users, [t.resp.body.user], Identifies(email));
    var i := FirstIndex(db.users, Identifies(email)).value;
    assert db.users[i] in db.users;
  }

  /** A login request without an identifier is refused, as long as every user
      has a username and an email, which registration ensures. */
  lemma LoginWithoutIdentifier(db: Db, password: string, matches: (string, string) -> bool)
    requires FieldsPresent(db.users)
    ensures Login(db, "", password, matches) == Response(401, Failure(InvalidCredentials))
  {
  }

  /** Under unique ids, reading a post's id answers that post. */
  lemma ReadFindsPost(db: Db, i: nat)
    requires Valid(db) && i < |db.posts|
    ensures ReadPost(db, db.posts[i].id) == Response(200, PostRow(db.posts[i]))
  {
    OnlyRowWithId(db, i);
  }

  /** A created post can be read back under the id it was given. */
  lemma CreateThenRead(db: Db, title: string, author: string, content: string, fulltext: string, file: Option<string>)
    requires Valid(db)
    ensures var t := CreatePost(db, title, author, content, fulltext, file);
            ReadPost(t.after, t.resp.body.post.id) == Response(200, t.resp.body)
  {
    var t := CreatePost(db, title, author, content, fulltext, file);
    ReadFindsPost(t.after, |db.posts|);
  }

  /** Updating an existing post overwrites its four text fields, keeps its id
      and position, takes the uploaded file's path as image when a file is
      sent and keeps its previous image exactly when none is; every other
      post is left as it was. */
  lemma UpdateExisting(db: Db, i: nat, title: string, author: string, content: string, fulltext: string, file: Option<string>)
    requires Valid(db) && i < |db.posts|
    ensures var prior := db.posts[i];
            var t := UpdatePost(db, prior.id, title, author, content, fulltext, file);
            var row := Post(prior.id, title, author, content, fulltext,
                            if file.Some? then Some(UploadPath(file.value)) else prior.imageUrl);
            && t.resp == Response(200, PostRow(row))
            && t.after.posts == db.posts[i := row]
            && t.after.users == db.users
            && (file.None? ==> t.resp.body.post.imageUrl == prior.imageUrl)
            && (forall j :: 0 <= j < |db.posts| && j != i ==> t.after.posts[j] == db.posts[j])
  {
    OnlyRowWithId(db, i);
  }

  /** Updating an id no post has changes nothing and answers 200 without a body. */
  lemma UpdateMissing(db: Db, id: Id, title: string, author: string, content: string, fulltext: string, file: Option<string>)
    requires forall p :: p in db.posts ==> p.id != id
    ensures UpdatePost(db, id, title, author, content, fulltext, file) == Transition(db, Response(200, NoBody))
  {
  }

  /** Under unique ids, deleting an existing post answers 204 and removes that
      post and nothing else. */
  lemma DeleteExisting(db: Db, i: nat)
    requires Valid(db) && i < |db.posts|
    ensures var t := DeletePost(db, db.posts[i].id);
            && t.resp == Response(204, NoBody)
            && t.after.users == db.users
            && t.after.posts == db.posts[..i] + db.posts[i + 1..]
            && |t.after.posts| == |db.posts| - 1
            && forall p :: p in t.after.posts <==> p in db.posts && p.id != db.posts[i].id
  {
    var id := db.posts[i].id;
    OnlyRowWithId(db, i);
    // The removal the route performs is the DELETE statement's, whose
    // contract says which rows remain.
    DeleteOnly(db.posts, HasId(id), i);
    assert Delete(db.posts, HasId(id)) == DeletePost(db, id).after.posts;
  }

  /** Once a post is deleted, reading its id answers 404. */
  lemma DeleteThenRead(db: Db, id: Id)
    requires Valid(db)
    ensures ReadPost(DeletePost(db, id).after, id) == Response(404, Failure(PostNotFound))
  {
    var t := DeletePost(db, id);
    if t.resp.status == 204 {
      var i := FirstIndex(db.posts, HasId(id)).value;
      DeleteExisting(db, i);
    }
  }

  // The server as a sequence of requests.

  /** One request to one of the seven routes, with its parsed fields; an
      absent field is the empty string, an absent file is `None`. */
  datatype Request =
    | PostRegister(username: string, email: string, password: string)
    | PostLogin(identifier: string, password: string)
    | GetPosts
    | GetPostById(id: Id)
    | PostPosts(title: string, author: string, content: string, fulltext: string, file: Option<string>)
    | PutPost(id: Id, title: string, author: string, content: string, fulltext: string, file: Option<string>)
    | DeletePostById(id: Id)

  /** Routes a request to its handler.  Every route keeps the table invariants;
      only registration touches the users table, and only by appending; the
      three reading routes change nothing. */
  function Dispatch(db: Db, req: Request, matches: (string, string) -> bool): (t: Transition)
    ensures Valid(db) ==> Valid(t.after)
    ensures EmailsUnique(db.users) ==> EmailsUnique(t.after.users)
    ensures FieldsPresent(db.users) ==> FieldsPresent(t.after.users)
    ensures db.users <= t.after.users
    ensures !req.PostRegister? ==> t.after.users == db.users
    ensures req.PostLogin? || req.GetPosts? || req.GetPostById? ==> t.after == db
  {
    match req
    case PostRegister(username, email, password) => Register(db, username, email, password)
    case PostLogin(identifier, password) => Transition(db, Login(db, identifier, password, matches))
    case GetPosts => Transition(db, ListPosts(db))
    case GetPostById(id) => Transition(db, ReadPost(db, id))
    case PostPosts(title, author, content, fulltext, file) => CreatePost(db, title, author, content, fulltext, file)
    case PutPost(id, title, author, content, fulltext, file) => UpdatePost(db, id, title, author, content, fulltext, file)
    case DeletePostById(id) => DeletePost(db, id)
  }

  /** The tables after serving `reqs` one after the other. */
  function Run(db: Db, reqs: seq<Request>, matches: (string, string) -> bool): Db
    decreases |reqs|
  {
    if reqs == [] then db else Run(Dispatch(db, reqs[0], matches).after, reqs[1..], matches)
  }

  /** Any sequence of requests keeps ids unique, emails unique and user fields
      present, and never removes or changes a user. */
  lemma {:induction false} RunKeepsInvariants(db: Db, reqs: seq<Request>, matches: (string, string) -> bool)
    requires Valid(db) && EmailsUnique(db.users) && FieldsPresent(db.users)
    ensures var db' := Run(db, reqs, matches);
            Valid(db') && EmailsUnique(db'.users) && FieldsPresent(db'.users) && db.users <= db'.users
    decreases |reqs|
  {
    if reqs != [] {
      var next := Dispatch(db, reqs[0], matches).after;
      RunKeepsInvariants(next, reqs[1..], matches);
    }
  }

  /** Starting from the empty database, no two users ever share an email. */
  lemma ServedFromEmpty(reqs: seq<Request>, matches: (string, string) -> bool)
    ensures var db := Run(EmptyDb, reqs, matches);
            Valid(db) && EmailsUnique(db.users) && FieldsPresent(db.users)
  {
    RunKeepsInvariants(EmptyDb, reqs, matches);
  }
}
