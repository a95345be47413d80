/** The server process: the two tables it queries and the seven route
    handlers, each a read of the tables followed by at most one write, in the
    order the handlers issue their statements. */
module Server {
  import opened Sql
  import opened Handlers

  class BlogServer {
    var users: seq<User>
    var posts: seq<Post>
    var nextUserId: Id
    var nextPostId: Id

    /** The tables as a value. */
    function Snapshot(): Db
      reads this
    {
      Db(users, posts, nextUserId, nextPostId)
    }

    ghost predicate Valid()
      reads this
    {
      Handlers.Valid(Snapshot())
    }

    constructor ()
      ensures Valid() && Snapshot() == EmptyDb
    {
      users, posts := [], [];
      nextUserId, nextPostId := 1, 1;
    }

    /** POST /register: presence check, lookup by email, then INSERT ... RETURNING *. */
    method Register(username: string, email: string, password: string) returns (resp: Response)
      requires Valid()
      modifies this`users, this`nextUserId
      ensures Valid()
      ensures Transition(Snapshot(), resp) == Handlers.Register(old(Snapshot()), username, email, password)
    {
      if username == "" || email == "" || password == "" {
        return Response(400, Failure(FieldsRequired));
      }
      var existing := Select(users, HasEmail(email));
      if |existing| > 0 {
        return Response(400, Failure(UserExists));
      }
      var row := User(nextUserId, username, email, password);
      users := users + [row];
      nextUserId := nextUserId + 1;
      resp := Response(201, UserRow(row));
    }

    /** POST /login: lookup by email or username, then the password comparison
        against the first row found.  Changes nothing. */
    method Login(identifier: string, password: string, matches: (string, string) -> bool) returns (resp: Response)
      ensures resp == Handlers.Login(Snapshot(), identifier, password, matches)
    {
      var found := Select(users, Identifies(identifier));
      if |found| == 0 {
        return Response(401, Failure(InvalidCredentials));
      }
      var user := found[0];
      var passwordMatch := matches(password, user.password);
      if !passwordMatch {
        return Response(401, Failure(InvalidCredentials));
      }
      resp := Response(200, Session(user.id, user.username));
    }

    /** GET /posts. */
    method ListPosts() returns (resp: Response)
      ensures resp == Handlers.ListPosts(Snapshot())
    {
      resp := Response(200, PostList(posts));
    }

    /** GET /posts/:id. */
    method ReadPost(id: Id) returns (resp: Response)
      ensures resp == Handlers.ReadPost(Snapshot(), id)
    {
      var found := Select(posts, HasId(id));
      if |found| == 0 {
        return Response(404, Failure(PostNotFound));
      }
      resp := Response(200, PostRow(found[0]));
    }

    /** POST /posts: the image path is chosen from the optional upload, then
        INSERT ... RETURNING *. */
    method CreatePost(title: string, author: string, content: string, fulltext: string, file: Option<string>)
      returns (resp: Response)
      requires Valid()
      modifies this`posts, this`nextPostId
      ensures Valid()
      ensures Transition(Snapshot(), resp) == Handlers.CreatePost(old(Snapshot()), title, author, content, fulltext, file)
    {
      var imageUrl := if file.Some? then Some(UploadPath(file.value)) else None;
      var row := Post(nextPostId, title, author, content, fulltext, imageUrl);
      posts := posts + [row];
      nextPostId := nextPostId + 1;
      resp := Response(201, PostRow(row));
    }

    /** The image path PUT /posts/:id writes: it starts as the empty string,
        becomes the upload's path when a file is sent, or else the image of
        the first row with the id (SELECT image_url ... WHERE id), when there
        is one.  Changes nothing. */
    method ImageForUpdate(id: Id, file: Option<string>) returns (imageUrl: Option<string>)
      ensures file.Some? ==> imageUrl == Some(UploadPath(file.value))
      ensures file.None? ==> forall i :: IsFirst(posts, HasId(id), i) ==> imageUrl == posts[i].imageUrl
      ensures file.None? && (forall p :: p in posts ==> p.id != id) ==> imageUrl == Some("")
    {
      imageUrl := Some("");
      if file.Some? {
        imageUrl := Some(UploadPath(file.value));
      } else {
        var current := Select(posts, HasId(id));
        if |current| > 0 {
          imageUrl := current[0].imageUrl;
        }
      }
    }

    /** PUT /posts/:id: the image path is chosen, then UPDATE ... WHERE id
        RETURNING *, whose first returned row (if any) is the response. */
    method UpdatePost(id: Id, title: string, author: string, content: string, fulltext: string, file: Option<string>)
      returns (resp: Response)
      requires Valid()
      modifies this`posts
      ensures Valid()
      ensures Transition(Snapshot(), resp) == Handlers.UpdatePost(old(Snapshot()), id, title, author, content, fulltext, file)
    {
      ghost var db := Snapshot();
      assert db.posts == posts;
      var imageUrl := ImageForUpdate(id, file);
      var assign := SetPost(title, author, content, fulltext, imageUrl);
      posts := Update(posts, HasId(id), assign);
      var updated := Select(posts, HasId(id));
      if |updated| > 0 {
        resp := Response(200, PostRow(updated[0]));
      } else {
        resp := Response(200, NoBody);
      }
      UpdateStatements(db, id, title, author, content, fulltext, file, imageUrl, posts, resp);
      assert Snapshot() == Db(db.users, posts, db.nextUserId, db.nextPostId);
    }

    /** DELETE /posts/:id: lookup by id, then DELETE ... WHERE id. */
    method DeletePost(id: Id) returns (resp: Response)
      requires Valid()
      modifies this`posts
      ensures Valid()
      ensures Transition(Snapshot(), resp) == Handlers.DeletePost(old(Snapshot()), id)
    {
      ghost var db := Snapshot();
      DeleteStatements(db, id);
      var post := Select(posts, HasId(id));
      if |post| == 0 {
        return Response(404, Failure(PostNotFound));
      }
      posts := Delete(posts, HasId(id));
      resp := Response(204, NoBody);
    }
  }
}
