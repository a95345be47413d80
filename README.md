# Blogging backend: a verified model of the route handlers

The blogging backend is an HTTP server over two relational tables. `users`
holds `(id, username, email, password)`. `posts` holds `(id, title, author,
content, fulltext, image_url)`, where `image_url` may be NULL. The server has
seven handlers: register, login, list posts, read a post, create, update and
delete. Each handler does at most one lookup and at most one write.

This project models those handlers as a sequential state machine over the two
tables.

- `sql.dfy` (module `Sql`) models the SQL statements the handlers issue.
  A table is a sequence of rows in storage order. `SELECT ... WHERE` is
  `Select`, `DELETE ... WHERE` is `Delete`, `UPDATE ... SET ... WHERE` is
  `Update`, and `INSERT` is appending a row. `FirstIndex` finds the first
  matching row, which is `rows[0]` of a query result.
- `handlers.dfy` (module `Handlers`) defines the rows, the database value
  `Db` and the responses. It has one function per route that says what the
  route answers and how it leaves the tables. Their contracts state each
  route's outcomes in terms of the tables before the request.
- `server.dfy` (module `Server`) has the class `BlogServer`. Its fields are
  the two tables and the two id sequences. One method per route issues the
  handler's statements in the source's order. This includes the update
  route's local image path, which starts as `''` and is then reassigned.
  Each route method is proved to agree with its function in `Handlers`.
  `ImageForUpdate`, the update route's image-path step, has a contract of
  its own.
- `properties.dfy` (module `Properties`) holds what holds across requests:
  - registering an email twice;
  - logging in right after registering;
  - a created post can be read back;
  - a deleted post reads as 404;
  - any sequence of requests keeps ids unique, keeps emails unique and
    never changes or removes a user.

Modelling choices:

- A field absent from the request body is the empty string. This matches
  the code only where a handler tests the field with `!field`, that is the
  registration check; the other routes pass the field to the database
  (see "## Left out").
- An uploaded file is an optional file name. Its stored path is
  `"uploads/" + name`.
- The password-hash comparison is an uninterpreted parameter,
  `matches(plain, stored)`.
- Ids come from one sequence per table, starting at 1, as a SERIAL column
  does.
- Registration stores the password unhashed, while login compares it with a
  hash comparison. `Properties.LoginAfterRegister` makes this visible:
  logging in with the new email right after registering succeeds exactly
  when `matches(password, password)` holds, provided no earlier user has that
  email as username. A login by username can be answered by an earlier user
  with the same username, since registration checks only the email.

Three behaviours of the code are worth noting:

- Updating an id with no post answers 200 with no body. It does not answer
  with an updated row or an error.
- Unique emails rest only on the look-up before the insert. The model proves
  that this is enough for requests served one at a time.
- The login look-up matches the identifier against the email or the
  username, and the first row wins. An earlier user whose username equals a
  newly registered email answers logins with that email
  (`Properties.EarlierUsernameAnswersLogin`).

## Model

| member | source | states |
|---|---|---|
| Sql.FirstIndex | blogging-backend/server.js:86-90 | the index returned is the first row, in storage order, that satisfies the WHERE clause; no index exactly when no row satisfies it |
| Sql.FirstIndexAppend | blogging-backend/server.js:83-90 | rows inserted after a matching row do not change which row a look-up finds first |
| Sql.Select | blogging-backend/server.js:59-60 | the result holds exactly the rows satisfying the WHERE clause; it is empty exactly when no row matches, and its first row is the first matching row of the table |
| Sql.Delete | blogging-backend/server.js:192 | the remaining rows are exactly the rows that do not satisfy the WHERE clause |
| Sql.Update | blogging-backend/server.js:171-176 | a table of the same length in which every matching row is replaced by its assigned version and every other row stays in place unchanged |
| Sql.DeleteNothing | blogging-backend/server.js:192 | a DELETE matching no row leaves the table unchanged |
| Sql.DeleteOnly | blogging-backend/server.js:192 | a DELETE matching exactly one row removes that row and keeps the order of the rest |
| Sql.DeleteAppend | blogging-backend/server.js:192 | a DELETE acts row by row: deleting from a table split in two parts is deleting from each part and joining the results |
| Sql.UpdateNothing | blogging-backend/server.js:171-177 | an UPDATE matching no row leaves the table unchanged and returns no row |
| Sql.UpdateOnly | blogging-backend/server.js:171-177 | an UPDATE matching exactly one row replaces only that row, and the first returned row is the new version |
| Handlers.Register | blogging-backend/server.js:53-70 | 400 with 'All fields are required' when any field is empty; 400 with 'User already exists' when all fields are present and a user has the email; 201 exactly when all are present and no user has the email; every 400 leaves both tables unchanged; a 201 appends exactly one row holding the given username, email and password under an id no existing user has, leaving the posts and their id sequence unchanged; ids valid, emails unique and fields present are each preserved |
| Handlers.Login | blogging-backend/server.js:83-105 | only 200 or 401; no user with that email or username gives 401 'Invalid credentials'; otherwise the first such row decides: 200 with its id and username if the password matches its stored password, else 401; the function returns no new tables, so login changes nothing |
| Handlers.ListPosts | blogging-backend/server.js:113-116 | 200 with every post in storage order |
| Handlers.ReadPost | blogging-backend/server.js:124-131 | 404 'Post not found' exactly when no post has the id; otherwise 200 with a post of the table that has the id |
| Handlers.CreatePost | blogging-backend/server.js:139-148 | 201 with a new row holding the given title, author, content and fulltext, whose image is 'uploads/<file>' when a file is sent and NULL otherwise; the row is appended, existing posts and users are unchanged, its id is fresh, and the users' id sequence is unchanged |
| Handlers.UpdatePost | blogging-backend/server.js:156-177 | always 200; no post with the id means no change and no body; otherwise the first post with the id is replaced in place by a row with the four given text fields, whose image is the upload's path when a file is sent and that post's previous image otherwise; users and both id sequences are unchanged; valid ids are preserved |
| Handlers.UpdateStatements | blogging-backend/server.js:159-177 | under unique ids, an image path that is the upload's path when a file is sent and otherwise the image of the first row with the id, followed by the UPDATE with that path and its first returned row, produces exactly UpdatePost's outcome and keeps the ids valid |
| Handlers.DeletePost | blogging-backend/server.js:185-193 | 404 'Post not found' with no change exactly when no post has the id; otherwise 204 with no body, the first post with the id removed, users and both id sequences unchanged; valid ids are preserved |
| Handlers.UpdateKeepsValid | blogging-backend/server.js:171-176 | an UPDATE whose SET list keeps every id keeps the ids unique and drawn from the sequence |
| Handlers.RemoveKeepsValid | blogging-backend/server.js:192 | removing one post from tables with valid ids leaves the ids valid |
| Handlers.DeleteStatements | blogging-backend/server.js:188-193 | the lookup by id and then, when a row was found, the DELETE by id produce exactly DeletePost's outcome under unique ids: 404 when the lookup is empty, otherwise 204 with the DELETE's remaining rows |
| Handlers.OnlyRowWithId | blogging-backend/server.js:127 | with unique ids, a post's id selects that post and no other |
| Properties.RegisterTwice | blogging-backend/server.js:59-62 | after a successful registration, registering the same email again answers 400 and changes nothing, with 'User already exists' when the other fields are present |
| Properties.LoginAfterRegister | blogging-backend/server.js:65-105 | provided no earlier user has the new email as username (the look-up matches either column and takes the first row): right after registering, logging in with the email and the same password answers 200 with the new user's id and username if the password comparison accepts the password against itself, and 401 otherwise |
| Properties.EarlierUsernameAnswersLogin | blogging-backend/server.js:83-105 | with unique ids, when an earlier user's username is the email just registered, logging in with that email answers exactly as before the registration, and never with a session for the new user |
| Properties.LoginWithoutIdentifier | blogging-backend/server.js:83-88 | if every user has a username and an email, a login request with no identifier is 401 |
| Properties.ReadFindsPost | blogging-backend/server.js:127-131 | with unique ids, reading a post's id answers 200 with exactly that post |
| Properties.CreateThenRead | blogging-backend/server.js:141-148 | a created post is read back, unchanged, under the id it was given |
| Properties.UpdateExisting | blogging-backend/server.js:159-177 | updating an existing post without a file keeps its prior image exactly; with a file the image is the upload path; the text fields are overwritten, the answer is 200 with the new row, and every other post is unchanged |
| Properties.UpdateMissing | blogging-backend/server.js:159-177 | updating an id no post has changes nothing and answers 200 without a body |
| Properties.DeleteExisting | blogging-backend/server.js:188-193 | deleting an existing post answers 204 and removes exactly the posts with that id (one row), leaving the rest in order |
| Properties.DeleteThenRead | blogging-backend/server.js:124-131 | after a delete of an id, reading that id answers 404 |
| Properties.Dispatch | blogging-backend/server.js:49-198 | every route preserves valid ids, unique emails and present user fields; users are only ever appended, and only by registration; login, list and read change nothing |
| Properties.RunKeepsInvariants | blogging-backend/server.js:49-198 | any sequence of requests, served one at a time, keeps those invariants and never removes or changes a user |
| Properties.ServedFromEmpty | blogging-backend/server.js:59-70 | starting from empty tables, no two users ever share an email, whatever requests are served |
| Server.BlogServer.Register | blogging-backend/server.js:49-75 | the presence check, the lookup by email and the insert leave the tables and answer as Handlers.Register states, preserving valid ids |
| Server.BlogServer.Login | blogging-backend/server.js:78-110 | the lookup by email or username and the comparison against the first row found answer as Handlers.Login states |
| Server.BlogServer.ListPosts | blogging-backend/server.js:113-121 | answers as Handlers.ListPosts states |
| Server.BlogServer.ReadPost | blogging-backend/server.js:124-136 | the lookup by id answers as Handlers.ReadPost states |
| Server.BlogServer.CreatePost | blogging-backend/server.js:139-153 | the image choice and the insert leave the tables and answer as Handlers.CreatePost states |
| Server.BlogServer.ImageForUpdate | blogging-backend/server.js:159-168 | the image path is the upload's path when a file is sent; otherwise it is the image of the first row with the id, or `''` when no row has the id; the tables are not changed |
| Server.BlogServer.UpdatePost | blogging-backend/server.js:156-182 | the image path from ImageForUpdate, the update by id and its returned row leave the tables and answer as Handlers.UpdatePost states |
| Server.BlogServer.DeletePost | blogging-backend/server.js:185-198 | the existence check and the delete by id leave the tables and answer as Handlers.DeletePost states |

## Left out

- Every 500 answer is left out. These are storage or file-system failures, and the server only logs them to the console. The model's storage never fails.
- Concurrent requests are left out. The lookup-then-insert of registration and the read-then-update of a post can race when two requests interleave. The model serves requests one at a time.
- A post id in the URL that is not a number is left out. The database rejects it and the handler answers 500. The model takes ids as natural numbers.
- The integer width of the id columns is left out. A SERIAL column is a 4-byte integer. A URL id above 2147483647 makes `WHERE id = $1` fail, so read, update and delete answer 500. The model instead answers 404 for read and delete, and 200 with no body for update. An exhausted id sequence, which makes register and create fail, is left out the same way. The model's ids are unbounded and never treated as an error.
- A request-body field that is not a string (a number, `null`, `false`) is left out. An absent field is modelled as the empty string.
- A login request without a password is only partly modelled. When no user matches the identifier, the handler answers 401 before the hash comparison, as the model does. When a user matches, the hash library rejects the undefined password and the handler answers 500. The model passes the empty string to `matches` instead.
- A post field absent from a create or update request (title, author, content, fulltext) is left out. The handler binds it as `undefined`, which the database driver sends as NULL. The stored and returned row then holds NULL, or the statement fails with a 500 if the column is NOT NULL. The model stores the empty string.
- A login request without an identifier is modelled with the empty string. In the code the identifier is bound as NULL, which matches no row, so the answer is 401 whatever the table holds. The model gets that 401 only when every user has a non-empty username and email (`Properties.LoginWithoutIdentifier`).
- The JSON key of an error body is left out. Registration, read and delete answer `{error: ...}`, and login answers `{message: ...}`. Both are `Failure(message)` in the model.
- The constant parts of a successful login answer are left out: `success: true` and `message: 'Login successful'`. `Session` carries only the user's id and username.
- The hash comparison itself is left out; it is a foreign library call. It is the function parameter `matches`.
- Writing uploaded files to disk and the time-stamped file-name scheme are left out; they need a clock and a file-system library. The stored file name is an input.
- Orphaned image files after a replace or delete are left out; the file store is not modelled.
- The Express setup, CORS, body parsing, static serving of `/uploads`, the database connection settings and `app.listen` are left out (server.js lines 1-46 and 200-202). They are framework and process plumbing.
- SQL gives no row order without `ORDER BY`. The model uses one fixed storage order. An UPDATE keeps the row in its place. "The first matching row" means first in that order.
- The front-end route table and app mounting (`src/router/router.js`, `src/main.js`) are left out. They are user-interface wiring for a library that is not part of this model.
