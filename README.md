# Task-management backend: verified model of its business logic

This project models in Dafny the business logic of a small task-management
REST backend. Its four parts are:

- **Owner-scoped task store** (`task_service.dfy`, module `TaskService`).
  - The task table is a sequence of rows with unique ids. `TaskStore` holds it and changes it in place through four writes: create, which stamps the caller as owner and checks nothing, and three owner-checked writes: update, delete and toggle.
  - Two read-only queries run over the rows. `GetTaskById` fetches one task. `GetTasks` lists tasks: it filters by owner, status and a case-insensitive search on title or description, orders newest first, pages with `skip = (page - 1) * limit`, and reports `total` and `totalPages = ceil(total / limit)`.
- **Refresh-token sessions** (`auth_service.dfy`, module `AuthService`).
  - The user table maps ids to rows, and email is unique. Each row stores at most one refresh token.
  - `UserStore` runs register, login and logout, which write that one field. `Refresh` only reads it.
  - bcrypt and the JWT signers and verifier become fields of a `Crypto` value. Each field is a fixed function that is otherwise left arbitrary. The bcrypt salt and the signing clock are explicit parameters.
- **Request validation** (`validators.dfy`, module `Validators`). Each express-validator chain becomes a function that returns the list of error messages it reports. A request passes when that list is empty.
- **Bearer-token gate** (`auth_middleware.dfy`, module `AuthMiddleware`). The token is the second piece of the `Authorization` header split on single spaces. The gate answers 401 when there is no token, 403 when verification fails, and otherwise continues with the verified identity.

`types.dfy` (module `Types`) holds the shared values: `Option`, `Result`, the status enumeration and the token payload.

How the model matches the source:
- **Writes.** Each write method of `TaskStore` has a companion function: `UpdateInTable`, `DeleteInTable` or `ToggleInTable`. That function gives the result and the table afterwards. The method's postcondition states that its result and new table are exactly that. The properties of the writes are proved about these functions: ownership, what stays unchanged, and that toggling twice restores the table.
- **Sessions.** `Login` and `Logout` state their new table through `WithToken`, which is the single-field write of the refresh token. `Register` states the inserted row, stored refresh token included, directly. The session lemmas are about `WithToken` and `Refresh`.
- **Schema assumptions.** The database schema is not part of this model, so two of its effects are stated as assumptions. A new task gets status PENDING by default (`NewTask`). Ids are handed out in increasing order (`nextId`).
- **Update payload.** An update request carries only the three fields of `UpdateTaskDTO`: title, description and status. The service passes the request body to the database without filtering it. So a task's owner, id and creation time stay unchanged only because of this restriction in the model. The service itself does not enforce it.
- **Tie order.** Rows with equal `createdAt` keep their table order (`SortNewestFirst` is a stable sort). The database leaves their order unspecified.

Behaviour of the code worth stating:
- `Refresh` never rotates the refresh token; it issues only an access token.
- Login overwrites the stored token with the newly issued one. Nothing guarantees the new token differs from the old one: the payload is the same, and the issue time has one-second granularity. So `OnlyStoredTokenRefreshes` rejects the previous token only under an explicit assumption that the two tokens differ.
- The listing service does not clamp `limit`, but the listing validation rejects any limit above 100. `ValidatedQueryBounds` proves what follows from that validation.
- An empty search string is falsy in the source's `if (query.search)`, so it filters nothing (`EmptySearchFiltersNothing`).

## Model

| member | source | states |
|---|---|---|
| Types.ParseStatus | backend/src/utils/validators.ts:22 | a string names a status exactly when it is 'PENDING' or 'COMPLETED', and the status prints back as that string |
| Types.ParseStatusName | backend/src/utils/validators.ts:22 | every status survives printing and parsing |
| Validators.RegisterErrors | backend/src/utils/validators.ts:3-7 | a registration passes iff the email is well formed, the password has at least 6 characters and the name is non-empty; each failing field reports its own message |
| Validators.LoginErrors | backend/src/utils/validators.ts:9-12 | a login passes iff the email is well formed and the password is non-empty (no length bound) |
| Validators.CreateTaskErrors | backend/src/utils/validators.ts:14-17 | a creation passes iff the title is non-empty and a present description is a JSON string |
| Validators.UpdateTaskErrors | backend/src/utils/validators.ts:19-23 | an update passes iff a present title is non-empty, a present description is a string and a present status is PENDING or COMPLETED |
| Validators.TaskQueryErrors | backend/src/utils/validators.ts:25-30 | a listing query passes iff a present page is >= 1, a present limit is in 1..100 and a present status is one of the two names |
| TaskService.ValidatedQueryBounds | backend/src/utils/validators.ts:26-27 | after the listing validation, page >= 1, 1 <= limit <= 100, skip >= 0 and a listed page holds at most 100 tasks |
| TaskService.FromRaw | backend/src/services/task.service.ts:23-25 | a validated status string becomes the status it names; an absent one stays absent |
| TaskService.FindOwned | backend/src/services/task.service.ts:56-58 | the first row whose id and owner both match, or none exactly when no row matches both |
| TaskService.GetTaskById | backend/src/services/task.service.ts:55-65 | succeeds iff some row has this id and this owner, and then returns such a row; otherwise fails with 'Task not found' |
| TaskService.GetTaskByIdOwnership | backend/src/services/task.service.ts:55-65 | with unique ids, another user's task id gives 'Task not found', the answer an unknown id gives; the owner's id gives that very row |
| TaskService.ContainsIffOccurs | backend/src/services/task.service.ts:29-30 | the substring scan succeeds exactly when the needle occurs at some position of the text |
| TaskService.ExactOccurrenceFound | backend/src/services/task.service.ts:29-30 | a literal occurrence is also found by the case-insensitive search |
| TaskService.Matching | backend/src/services/task.service.ts:21-32 | the selected rows are exactly the rows owned by the caller with the requested status that match the search on title or description, each with its multiplicity in the table |
| TaskService.CountMatching | backend/src/services/task.service.ts:41 | the separate count equals the number of rows the filter selects |
| TaskService.SortNewestFirst | backend/src/services/task.service.ts:39 | the rows are ordered by createdAt descending and are a permutation of the input |
| TaskService.CeilDiv | backend/src/services/task.service.ts:50 | totalPages is the least number of pages of `limit` rows that hold `total` rows |
| TaskService.Window | backend/src/services/task.service.ts:37-38 | skip/take gives min(take, length - skip) rows, the ones from position skip on, and none past the end |
| TaskService.GetTasks | backend/src/services/task.service.ts:16-53 | every listed task is the caller's and matches status and search; the page is newest first and has at most limit tasks (exactly the remainder after skip, capped); total counts every match, not just the page; totalPages = ceil(total / limit) |
| TaskService.MatchOnItsPage | backend/src/services/task.service.ts:34-40 | the task of rank k among all matches is item k - skip of the page whose window covers k |
| TaskService.EveryMatchIsListed | backend/src/services/task.service.ts:17-40 | paging loses no task: the match of rank k, newest first, is listed on page k / limit + 1 at offset k - skip, whatever other page was requested, under the model's stable order for equal createdAt |
| TaskService.PageOfMatchWithinTotal | backend/src/services/task.service.ts:47-51 | every page that starts at or before the last match is within totalPages |
| TaskService.MatchingIgnoresPaging | backend/src/services/task.service.ts:21-32 | the filter reads only owner, status and an active search, never page or limit |
| TaskService.EmptySearchFiltersNothing | backend/src/services/task.service.ts:27 | an empty search string lists the same as no search |
| TaskService.OwnerWithoutTasksSeesNothing | backend/src/services/task.service.ts:21 | a user who owns no task gets an empty page and total 0, whatever other users own |
| TaskService.NewTask | backend/src/services/task.service.ts:4-14 | a created task is owned by the caller, has the given title and description, and has status PENDING |
| TaskService.Patched | backend/src/services/task.service.ts:76-79 | an update writes exactly the fields it names and keeps id, owner and creation time; an empty update changes nothing |
| TaskService.Flipped | backend/src/services/task.service.ts:107 | toggling always changes the status |
| TaskService.FlippedTwice | backend/src/services/task.service.ts:107 | toggling a status twice restores it |
| TaskService.UpdateInTable | backend/src/services/task.service.ts:67-82 | a task the caller does not own gives 'Task not found' and no change; otherwise only the targeted row changes, to its patched version; rows of other users never change |
| TaskService.DeleteInTable | backend/src/services/task.service.ts:84-96 | a task the caller does not own gives 'Task not found' and no change; otherwise exactly one copy of the targeted row is removed |
| TaskService.DeleteRemovesOnlyTarget | backend/src/services/task.service.ts:84-96 | with unique ids, after a delete the table holds exactly the rows with other ids |
| TaskService.ToggleInTable | backend/src/services/task.service.ts:98-115 | a task the caller does not own gives 'Task not found' and no change; otherwise only the targeted row changes, and only in its status, which flips |
| TaskService.ToggleTwiceRestores | backend/src/services/task.service.ts:98-115 | toggling the same task twice restores the whole table |
| TaskService.TaskStore.CreateTask | backend/src/services/task.service.ts:4-14 | appends a new task with a fresh id, owned by the caller, and keeps ids unique |
| TaskService.TaskStore.UpdateTask | backend/src/services/task.service.ts:67-82 | its result and new table are those of UpdateInTable on the old table |
| TaskService.TaskStore.DeleteTask | backend/src/services/task.service.ts:84-96 | its result and new table are those of DeleteInTable on the old table |
| TaskService.TaskStore.ToggleTaskStatus | backend/src/services/task.service.ts:98-115 | its result and new table are those of ToggleInTable on the old table |
| AuthService.FindByEmail | backend/src/services/auth.service.ts:44 | finds a row iff some row has this email, and then returns that row |
| AuthService.WithToken | backend/src/services/auth.service.ts:57-60 | writing the refresh token changes that one field of that one row and nothing else |
| AuthService.CheckCredentials | backend/src/services/auth.service.ts:44-52 | an unknown email and a wrong password fail with the same 'Invalid credentials'; success iff the email is known and bcrypt accepts the password against the stored hash |
| AuthService.Refresh | backend/src/services/auth.service.ts:73-87 | a token the verifier refuses fails; otherwise it succeeds iff the token's user exists and the stored token equals the presented one exactly, and then returns a new access token for that user; the table is not changed, so the refresh token is not rotated |
| AuthService.RefreshFailsAfterLogout | backend/src/services/auth.service.ts:89-94 | once the stored token is cleared, no token refreshes for that user |
| AuthService.OnlyStoredTokenRefreshes | backend/src/services/auth.service.ts:80 | after a token is stored, that token refreshes and any different token for the same user fails with 'Invalid refresh token' |
| AuthService.UserStore.Register | backend/src/services/auth.service.ts:6-39 | a taken email fails with 'Email already registered' and writes nothing; otherwise it adds one row with a fresh id and the password's hash, and stores the returned refresh token; the returned user has no password field |
| AuthService.UserStore.Login | backend/src/services/auth.service.ts:41-71 | bad credentials write nothing; otherwise the stored refresh token is overwritten with the newly issued one it returns; the returned user has no password field |
| AuthService.UserStore.Logout | backend/src/services/auth.service.ts:89-94 | the stored refresh token becomes null and nothing else changes; a missing user makes the write fail |
| AuthMiddleware.Split | backend/src/middleware/auth.ts:11 | split gives at least one piece and no piece contains the separator |
| AuthMiddleware.JoinSplit | backend/src/middleware/auth.ts:11 | joining the pieces with the separator gives the header back |
| AuthMiddleware.BearerToken | backend/src/middleware/auth.ts:11-13 | an extracted token is non-empty and contains no space |
| AuthMiddleware.BearerTokenOfHeader | backend/src/middleware/auth.ts:11 | for a header `<scheme> <token>`, with or without more space-separated text, the token extracted is exactly `<token>` |
| AuthMiddleware.TokenFollowsFirstSpace | backend/src/middleware/auth.ts:11 | an extracted token is the text after the first space, up to the next space or the end |
| AuthMiddleware.Authenticate | backend/src/middleware/auth.ts:5-25 | no header or no token gives 401 'Access token required'; a refused token gives 403 'Invalid or expired token'; otherwise the request continues with the verified payload as its user |
| AuthMiddleware.NoSpaceRejected | backend/src/middleware/auth.ts:11-16 | a header without a space, such as 'Bearer' alone, gives 401 |
| AuthMiddleware.DoubleSpaceRejected | backend/src/middleware/auth.ts:11-16 | a double space after the scheme leaves the token empty and gives 401 |

## Left out

- JWT signing, verification and expiry (backend/src/utils/jwt.ts): the signers and verifiers are arbitrary fixed functions of payload and time. No claim is made about token freshness, expiry windows or secrets.
- bcrypt: `hash` and `compare` are arbitrary fixed functions. Nothing links `compare` to `hash`, so the model does not claim that the right password logs in.
- Prisma and Postgres: tasks are a sequence and users a map, and each call is one atomic step. The two reads of `Promise.all` see the same table. Concurrent requests, last-write-wins races and `updatedAt` stamping are not modelled.
- Case-insensitive matching lower-cases ASCII letters only. The database collation behind `mode: 'insensitive'` is not modelled.
- TaskService.GetTasks: page, limit and skip are exact unbounded integers. In the source they are JavaScript numbers, and `(page - 1) * limit` is floating-point arithmetic that is exact only below 2^53. The listing validation bounds `limit` but not `page`, so a huge page string is rounded there and not here.
- TaskService.EveryMatchIsListed: holds across separate page requests only for the model's fixed tie order. The source pages with ORDER BY createdAt plus OFFSET/LIMIT and no tiebreaker, so the database may order tasks with equal `createdAt` differently on different pages. Such a task can then appear on two pages or on none.
- AuthService.CheckCredentials: covers string passwords only, as `LoginDTO` declares. The login validation's `notEmpty()` also lets a JSON number or boolean through. For a registered email, bcrypt's compare then fails with its own library error instead of 'Invalid credentials'. That library is not part of this model.
- `parseInt` on query strings and route parameters: page, limit and ids are already-parsed integers. NaN results and trailing garbage are not modelled.
- Validators.RegisterErrors: validator.js's email syntax (`isEmail`) is an abstract parameter. `isLength` counts characters and does not discount the emoji presentation selectors that validator.js ignores.
- Validators: array- and object-valued JSON fields are not modelled. A repeated query parameter is one such array. A number or boolean is represented by its printed text only.
- AuthService.OnlyStoredTokenRefreshes: rejects a previously issued refresh token only when it differs from the newly stored one. The signer is arbitrary here, and a real token signed within the same second for the same user can be identical.
- Controllers, routes, the error-handling middleware and the server entry: these are Express wiring and HTTP status translation.
- AuthMiddleware.Authenticate: the assignment to `req.user` and the calls to `next` and `res` are side effects. They are represented only by which `Outcome` value is returned.
- The frontend (dashboard, task components, local storage of tokens).
