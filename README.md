# A verified model of the to-do service's authentication core

This project models, in Dafny, the three pieces of the to-do service that decide who a
request belongs to and what it may touch:

- **The authentication filter** (`JwtFilter.doFilterInternal`). Allow-listed paths
  (`/users/signup`, `/users/login`) go straight to the chain. Any other request has its
  `Authorization` header stripped of a leading `"Bearer "`. The token provider then reads
  the token. A token that reads and validates puts its subject on the request as the
  `username` attribute. An expired token makes the provider mint a new access token from
  the `Refresh-Token` header, and that token goes on the *response* as
  `"Bearer " + token`. A bad signature raises `INVALID_TOKEN`; a null pointer raises
  `TOKEN_NOT_FOUND`. `Authenticate` is the decision as a value; `DoFilterInternal` works on
  request, response and chain objects and is proved to carry that decision out.
- **Signup and login** (`UserService`), over the user table and the append-only
  refresh-token table. Login reuses the user's newest refresh token (highest id) while it
  still validates. Otherwise it issues a new one and saves exactly one record for it.
  `LoginOutcome` is login as a value; `UserService.Login` is proved to do exactly that.
- **The user-scoped to-do operations** (`TodoService`). Identity comes from the request
  attribute when it names an existing user. Otherwise it comes from the token provider's
  reading of the response's `Authorization` header, passed on exactly as stored, with the
  `"Bearer "` prefix the filter wrote still on it. Create, find, list, retitle, delete and
  complete then act only on to-dos the caller owns.

The token provider and the password encryption service are not part of this model. The
provider is a value of type `Tokens.Codec` whose five operations are arbitrary total
functions; `encrypt` is an arbitrary function. Every property below therefore holds for
every provider and every encryption. The repositories are in-memory tables (module
`Store`); the database hands out ids in increasing order.

Files: `Wrappers.dfy` (Option, Result), `Errors.dfy` (error codes and exceptions),
`Tokens.dfy` (the provider's boundary), `Servlet.dfy` (request, response, filter chain),
`Store.dfy` (entities and repositories), `JwtFilter.dfy`, `UserService.dfy` (module
`Accounts`), `TodoService.dfy` (module `Todos`).

## Model

| member | source | states |
|---|---|---|
| JwtFilter.IsWhitelistedPath | src/main/java/com/example/todo/config/JwtFilter.java:72-74 | a path is allow-listed exactly when it is `/users/signup` or `/users/login` (the two entries of `LIST`, line 23) |
| JwtFilter.StripBearer | src/main/java/com/example/todo/config/JwtFilter.java:40-42 | a header starting with `"Bearer "` becomes its remainder; any other header, and a missing one, is used unchanged |
| JwtFilter.StripBearerInverse | src/main/java/com/example/todo/config/JwtFilter.java:40-42 | stripping undoes the prefix the filter writes: `"Bearer " + t` is read back as `t` |
| JwtFilter.Authenticate | src/main/java/com/example/todo/config/JwtFilter.java:31-67 | an attribute is only ever the subject of a token that also validated; a response token only ever follows an expired access token and is `"Bearer "` + the minted token; the two never come together; a rejection only follows a provider exception; allow-listed paths are forwarded untouched |
| JwtFilter.DoFilterInternal | src/main/java/com/example/todo/config/JwtFilter.java:26-70 | request attributes, response headers and the raised exception are exactly those of `Authenticate`; the chain runs exactly once on a forwarded request and never on a rejected one |
| JwtFilter.WhitelistedPathBypasses | src/main/java/com/example/todo/config/JwtFilter.java:33-36 | for an allow-listed path the decision is "forward, nothing set" whatever the headers and whatever the provider: neither is consulted |
| JwtFilter.AttributeIffValidated | src/main/java/com/example/todo/config/JwtFilter.java:46-50 | the `username` attribute is set to u exactly when the processed token is present, reads as u and validates |
| JwtFilter.ReadableButInvalidForwardedBare | src/main/java/com/example/todo/config/JwtFilter.java:48-50 | a token that reads but does not validate is forwarded with no attribute and no response header |
| JwtFilter.ExpiredAccessRenewed | src/main/java/com/example/todo/config/JwtFilter.java:52-59 | an expired access token with a successful renewal is forwarded with no attribute and `"Bearer " + createNewAccessToken(Refresh-Token header)` on the response |
| JwtFilter.ExpiredAccessRenewalFails | src/main/java/com/example/todo/config/JwtFilter.java:56-57 | when renewal itself throws, that exception ends the request |
| JwtFilter.InvalidTokenIffBadSignature | src/main/java/com/example/todo/config/JwtFilter.java:61-62 | `INVALID_TOKEN` is raised exactly on a signature failure of a protected request |
| JwtFilter.TokenNotFoundIffNullPointer | src/main/java/com/example/todo/config/JwtFilter.java:63-64 | `TOKEN_NOT_FOUND` is raised exactly on a null-pointer failure of a protected request |
| JwtFilter.MissingHeaderOutcomes | src/main/java/com/example/todo/config/JwtFilter.java:38-67 | a protected request without an `Authorization` header hands the provider a null token. If the provider returns, the request is forwarded with nothing set. A null pointer raises `TOKEN_NOT_FOUND`, a bad signature `INVALID_TOKEN`, another failure goes out unchanged, and an expiry leads to the renewal path |
| Store.NewestFor | src/main/java/com/example/todo/service/UserService.java:55 | `findTopByUserOrderByIdDesc`: none exactly when the user has no record; otherwise a record of that user whose id is at least every other id of that user |
| Store.SavedIsNewest | src/main/java/com/example/todo/service/UserService.java:74 | a saved record gets an id above all others, so it becomes its user's newest, and ids stay below the next one |
| Store.SavedCounts | src/main/java/com/example/todo/service/UserService.java:74 | saving adds one record to its user and none to any other user |
| Store.UserRepository.FindByUsername | src/main/java/com/example/todo/service/UserService.java:50 | a user is found exactly when the table holds a row under that name, and what is found is that stored row, with that name |
| Store.UserRepository.ExistsByUsername | src/main/java/com/example/todo/service/UserService.java:37 | true exactly when some row of the table carries that username, that is, exactly when `FindByUsername` finds one |
| Store.UserRepository.Save | src/main/java/com/example/todo/service/UserService.java:41 | the user table gains (or replaces) the row under the user's name |
| Store.RefreshTokenRepository.FindTopByUserOrderByIdDesc | src/main/java/com/example/todo/service/UserService.java:55 | the table's record for the user with the highest id, as `Store.NewestFor` characterizes it |
| Store.RefreshTokenRepository.Save | src/main/java/com/example/todo/service/UserService.java:69-74 | the refresh-token table gains exactly one record, at the end, with the next id |
| Accounts.LoginOutcome | src/main/java/com/example/todo/service/UserService.java:49-80 | unknown user: `USER_NOT_FOUND`; wrong password: `WRONG_PASSWORD`; failures leave the table as it was; every success carries `generateAccessToken(username)`; a success that saves nothing returns the newest record's token, which validates; a success that saves appends exactly one record bound to the user holding the returned refresh token |
| Accounts.LoginReusesNewest | src/main/java/com/example/todo/service/UserService.java:55-63 | if the newest record exists and validates, login returns that exact token with a fresh access token and saves nothing |
| Accounts.LoginIssuesNew | src/main/java/com/example/todo/service/UserService.java:66-76 | otherwise login returns `generateRefreshToken(username)` and saves exactly one record with it |
| Accounts.ConsecutiveLoginsShareRefreshToken | src/main/java/com/example/todo/service/UserService.java:55-76 | after a successful login whose refresh token still validates, a second login returns the same refresh token and leaves the table as the first left it |
| Accounts.FirstLoginSavesOneRecord | src/main/java/com/example/todo/service/UserService.java:55-76 | a correct login for a user with no record leaves exactly one record for that user |
| Accounts.UserService.Signup | src/main/java/com/example/todo/service/UserService.java:31-46 | a taken username raises `DUPLICATE_USER_ID` and leaves the table unchanged; a new one adds exactly that user with `encrypt(password)` and returns only the username |
| Accounts.UserService.Login | src/main/java/com/example/todo/service/UserService.java:49-80 | returns, and leaves the refresh-token table as, `LoginOutcome` says |
| Todos.UserFromServlet | src/main/java/com/example/todo/service/TodoService.java:140-143 | a user is found exactly when the `username` attribute is present and names a row of the user table, and then it is that row |
| Todos.GetUser | src/main/java/com/example/todo/service/TodoService.java:145-156 | a user already found is kept; otherwise the provider reads the response `Authorization` header: a known name gives its row, an unknown name raises `TODO_NOT_FOUND`, and a provider exception goes out unchanged |
| Todos.ResolveUser | src/main/java/com/example/todo/service/TodoService.java:140-156 | the attribute's user when it names an existing user; otherwise what the provider reads from the response `Authorization` header as stored; `TODO_NOT_FOUND` exactly when that read gives an unknown name; a resolved user is always a row of the user table |
| Todos.AuthenticatedRequestServedAsItsUser | src/main/java/com/example/todo/service/TodoService.java:140-143 | a request the filter authenticated as an existing user u is served as u |
| Todos.RenewedRequestDecodesPrefixedHeader | src/main/java/com/example/todo/service/TodoService.java:145-152 | a renewed request is served as whoever the provider reads from `"Bearer " + newToken`, prefix included (the header as the filter wrote it on line 59 of JwtFilter.java) |
| Todos.OwnedBy | src/main/java/com/example/todo/service/TodoService.java:53 | the user's to-do list: exactly the rows the user owns, unchanged |
| Todos.Summaries | src/main/java/com/example/todo/service/TodoService.java:62-67 | the page's rows, in order and one for one, as their title and completion |
| Todos.Retitled | src/main/java/com/example/todo/service/TodoService.java:102 | only the chosen to-do's title changes; its completion, its owner and every other to-do stay |
| Todos.Completed | src/main/java/com/example/todo/service/TodoService.java:136-138 | only the chosen to-do changes, to completed, keeping title and owner |
| Todos.CompletedIdempotent | src/main/java/com/example/todo/service/TodoService.java:128 | completing twice leaves the table as completing once |
| Store.TodoRepository.FindByIdAndUser | src/main/java/com/example/todo/service/TodoService.java:85 | an entity is found exactly when one is stored under that id and its owner is the given user; what is found is that entity, with that id and owner |
| Store.TodoRepository.Save | src/main/java/com/example/todo/service/TodoService.java:44 | one new, not completed row under the next id; the rest unchanged; the one new entity is freshly allocated |
| Store.TodoRepository.Delete | src/main/java/com/example/todo/service/TodoService.java:117 | the row under the entity's id is gone; the rest unchanged; no entity is added |
| Store.Todo.constructor | src/main/java/com/example/todo/service/TodoService.java:39-42 | a new to-do has the given title and owner and is not completed |
| Store.Todo.SetTitle | src/main/java/com/example/todo/service/TodoService.java:102 | the title is replaced and the completion kept |
| Store.Todo.SetCompleted | src/main/java/com/example/todo/service/TodoService.java:137 | the completion is replaced and the title kept |
| Todos.TodoService.CreateTodo | src/main/java/com/example/todo/service/TodoService.java:35-46 | on a resolved caller, exactly one to-do is added with the given title, not completed, owned by the caller, and the request body is returned unchanged; on a failed resolution nothing changes; every entity the table gains is freshly allocated, so a caller may go on to update or complete it |
| Todos.TodoService.FindAll | src/main/java/com/example/todo/service/TodoService.java:49-78 | `TODO_NOT_FOUND` when the caller owns no to-do; otherwise `pageNo` and `pageSize` echoed, the repository's page in order as title and completion, and every row of the page a to-do the caller owns (for a repository query that pages only through the rows it is given) |
| Todos.TodoService.FindTodoById | src/main/java/com/example/todo/service/TodoService.java:81-92 | the title and completion of the to-do with that id if the caller owns it, `TODO_NOT_FOUND` if it does not |
| Todos.TodoService.UpdateTodoById | src/main/java/com/example/todo/service/TodoService.java:95-107 | on the caller's own to-do only the title changes and the returned title is the new one; otherwise `TODO_NOT_FOUND` (or the resolution error) and nothing changes |
| Todos.TodoService.DeleteTodoById | src/main/java/com/example/todo/service/TodoService.java:110-118 | on the caller's own to-do exactly that to-do is removed and every other to-do remains as it was; otherwise `TODO_NOT_FOUND` (or the resolution error) and nothing changes; the table gains no entity that was not freshly allocated |
| Todos.TodoService.CompleteTodo | src/main/java/com/example/todo/service/TodoService.java:121-134 | on the caller's own to-do only its completion changes, to true, and it is returned with its title; otherwise `TODO_NOT_FOUND` (or the resolution error) and nothing changes |
| Todos.TodoService.Complete | src/main/java/com/example/todo/service/TodoService.java:136-138 | the entity becomes completed and keeps its title |

## Behaviour of the code worth knowing

- On a URI other than the two allow-listed ones, a missing `Authorization` header goes to
  the provider as null. If the provider returns, the request is forwarded with nothing set.
  If it throws, that exception decides the outcome exactly as for a present token. It is
  `TOKEN_NOT_FOUND` only for a `NullPointerException`; an `ExpiredJwtException` even leads
  to a renewal (`MissingHeaderOutcomes`).
- One might expect a dedicated error for a failed renewal, such as a missing or invalid
  refresh token. The code has none. `createNewAccessToken` runs inside the
  `ExpiredJwtException` handler, so whatever it throws goes out unchanged; the sibling
  `catch` clauses do not see it. `Authenticate` therefore rejects with `Provider(fault)`.
- A token that reads but does not validate is not treated like an expired one. Such a
  request is forwarded with no attribute and no response header.
- One might expect the service to recover the caller from the renewed token. The code
  passes the response header as stored, `"Bearer " + token`, to the provider without
  stripping the prefix. `RenewedRequestDecodesPrefixedHeader` states what the service then
  sees. Whether that names the user depends on how the provider reads a prefixed token, and
  that code is not part of this model.

## Left out

- `JwtTokenProvider` is not part of this model: signing, encoding and the clock. Its
  operations are arbitrary functions, so expiry over time and the round trip "the subject
  of `generateAccessToken(u)` is u" are not stated. For the same reason, nothing says that
  the refresh token a first login returns validates: `validateToken` and
  `generateRefreshToken` are unrelated arbitrary functions. `FirstLoginSavesOneRecord`
  states only that exactly one record is saved.
- `validateToken` is taken never to throw. Two calls are affected. An exception from it
  inside the filter's `try` block is not modelled. Neither is one from login's
  `validateToken(DBRefreshToken)` (src/main/java/com/example/todo/service/UserService.java:60),
  which nothing catches and which runs before the null check.
- `PasswordEncryptionService` is not part of this model; `encrypt` is an arbitrary function.
- Spring Data paging: `PageRequest`, `Sort.by(sortBy).descending()`, `totalElements`,
  `totalPages` and `isLast`. `findAllByUser` is an arbitrary function (`Todos.Pager`) from
  the caller's to-dos, page number, page size and sort key to the page's rows.
  `PageResponse` carries only the content, `pageNo` and `pageSize`. The one thing assumed of
  the query (`Todos.PageWithin`) is that every row of a page is one of the rows it was
  given, which is what `findAllByUser(pageable, user)` promises; `FindAll` requires it.
  The argument checks of `PageRequest.of` and `Sort.by` are not modelled: their
  `IllegalArgumentException` for `pageNo < 0`, `pageSize < 1` or a blank `sortBy`
  (src/main/java/com/example/todo/service/TodoService.java:57). `FindAll` therefore
  succeeds on such arguments.
- `PatternMatchUtils.simpleMatch` wildcards: both allow-list entries are free of `*`, so
  only exact matching is modelled.
- Servlet plumbing: header names are matched exactly, where servlet containers ignore
  case. Logging, `OncePerRequestFilter` and the chain's downstream work are left out;
  the chain only counts how often it is called.
- `@Transactional` rollback and the concurrent-login race (two logins that both find no
  record and both save). The model is sequential, and every failing operation in it already
  fails before it changes anything.
- Java nulls in entities and DTOs: usernames, passwords, titles and stored refresh tokens
  are non-null strings. Every refresh record is written by login with a generated token, so
  login's `DBRefreshToken != null` guard always holds here. A null `username` attribute
  finds no user. Ids are natural numbers, never null.
- `User.getTodoList()` is taken to be the to-dos whose owner is the user (`Todos.OwnedBy`).
  The entity classes are not part of this model. A new to-do starts not completed, and to-dos
  and refresh records refer to their user by the unique username.
- The `@NotBlank` annotations on `TodoDto` and `TodoListDto`: the services never check them.
