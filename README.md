# A verified model of the pixit-tasks API core

This project models, in Dafny, the logic of a small multi-user task API
written in TypeScript (Fastify, Prisma, zod, bcrypt, Node crypto). It covers
five pieces:

- **Password protection** (`password.dfy`, `base64.dfy`, `js_string.dfy`).
  A password is protected like this: take its SHA-512 digest as base64 text,
  hash that with bcrypt (cost 10), and encrypt the bcrypt hash with
  AES-256-CTR under a static key and a fresh 16-byte IV. The stored secret is
  `ciphertext$base64(IV)`. Verifying splits the secret on `$`, decrypts, and
  bcrypt-compares the digest of the candidate password.
  - SHA-512, bcrypt and AES-CTR are function-valued fields of
    `Password.Primitives`. What the libraries guarantee is the predicate
    `Password.Lawful`. "bcrypt has no collisions among the SHA-512 digest
    texts it is given" is `Password.BcryptBinding`. Lemmas that need them
    take them as preconditions. `Password.AssumptionsCanHold` exhibits
    primitives that meet both at once.
  - Base64 (section 4 of RFC 4648) and JavaScript's `split` are modelled
    concretely. So the stored format, the split, the round trip and the
    distinct-IV property are proved rather than assumed.
- **Auth service** (`auth_service.dfy`). Registration and login over an
  in-memory user table keyed by email (`Db.UserTable`). The source's thrown
  errors become `Auth.AuthError` values.
- **Owner-scoped task CRUD** (`tasks_service.dfy`). `Tasks.TasksService`
  holds an owner id and a task table (`Db.TaskTable`). Every read filters by
  that owner, and update and delete check ownership first.
  `Tasks.OthersCannotTouch` proves that no sequence of operations by other
  owners changes an owner's tasks.
- **Authentication gate** (`server.dfy`). The `authenticate` hook is
  `Server.Authenticate`. It updates a `Request` and a `Reply` as decided by
  the pure function `Server.Gate`. Token decoding is a parameter.
- **Request schemas** (`task_schemas.dfy`, `auth_schemas.dfy`, `json.dfy`).
  The zod schemas are parse functions from JSON values to the typed data the
  services receive. The task view shown to clients is a projection. zod's
  email check is the parameter `isEmail`.

Random values and the clock are parameters: the IV, the bcrypt salt, the ids
the database generates, and creation times. If a create uses an id that is
already stored, it fails the way a unique constraint does. A registration with
a stored email never gets that far: the service refuses it first with
"Email is already in use".

Three behaviours of the code the model keeps:

- The hook calls `request.jwtDecode`, which only decodes. No signature or
  expiry check happens in this code, and none is modelled.
- A payload with no `id` claim is not answered with "Invalid token". The
  user lookup throws first, and the hook replies 401 with that error's
  message (the parameter `lookupError` of `Server.Gate`).
- When the cipher produces no output, `cipher.read()` returns `null`, so the
  stored text would start with `null$`. bcrypt output is always 60
  characters, so this cannot happen from `hashAndEncryptPassword`. The model
  keeps the case in `Password.CipherTextField`.

## Model

| member | source | states |
|---|---|---|
| `Base64.EncodeChar` | src/lib/password.ts:31 | each 6-bit value maps to a character of the standard alphabet, and decoding that character gives the value back |
| `Base64.ToSextets` | src/lib/password.ts:31 | n bytes give ceil(4n/3) base64 digits |
| `Base64.Encode` | src/lib/password.ts:31 | `toString('base64')` output is 4*ceil(n/3) characters long, and each one is an alphabet character or `=` |
| `Base64.Decode` | src/lib/password.ts:63-65 | `Buffer.from(s, 'base64')` yields three bytes for every four alphabet characters, rounding down, and other characters contribute nothing |
| `Base64.DecodeEncode` | src/lib/password.ts:63 | `Buffer.from(s, 'base64')` gives back exactly the bytes that were encoded |
| `Base64.EncodeInjective` | src/lib/password.ts:31 | distinct byte strings have distinct base64 encodings |
| `Base64.EncodeAvoids` | src/lib/password.ts:31 | no base64 encoding contains a character outside the alphabet and `=`, in particular `$` |
| `Base64.EncodePrefix` | src/lib/password.ts:17 | the first 4k characters of an encoding are the encoding of the first 3k bytes |
| `JsString.Split` | src/lib/password.ts:62 | `split` always returns at least one piece |
| `JsString.SplitPartsFree` | src/lib/password.ts:62 | no piece returned by `split` contains the separator |
| `JsString.JoinSplit` | src/lib/password.ts:62 | joining the pieces with the separator rebuilds the original string |
| `JsString.SplitJoin` | src/lib/password.ts:62 | splitting a join of separator-free pieces returns exactly those pieces |
| `JsString.SplitTwo` | src/lib/password.ts:62 | `(a + "$" + b).split("$")` is `[a, b]` when neither part contains `$` |
| `JsString.Utf16Length` | src/infra/schemas/task.ts:10 | JavaScript length is between the number of characters and twice that; it equals the number of characters exactly when none lies outside the Basic Multilingual Plane, and twice that exactly when all do |
| `JsString.Utf16LengthAppend` | src/infra/schemas/task.ts:10 | the length of a concatenation is the sum of the lengths |
| `Password.Digest` | src/lib/password.ts:14-18 | the SHA-512 digest text is 88 base64 characters |
| `Password.CipherTextField` | src/lib/password.ts:24-28 | the ciphertext field never contains `$` |
| `Password.Encrypt` | src/lib/password.ts:20-32 | encryption succeeds exactly when the key is 32 bytes long, and otherwise the cipher rejects it |
| `Password.HashAndEncryptPassword` | src/lib/password.ts:34-53 | protecting succeeds exactly when the key is 32 bytes long |
| `Password.Decrypt` | src/lib/password.ts:55-68 | decrypt returns null exactly for a null input; a secret with no `$` always fails with a missing IV, and a failure is a missing IV only then; a secret with `$` under a key that is not 32 bytes fails with the cipher's rejection |
| `Password.ComparePassword` | src/lib/password.ts:70-93 | an absent stored value gives false and never an error; a decrypt error is passed on unchanged; otherwise the bcrypt verdict on the digest of the clear password is returned, and an error bcrypt reports for a malformed hash becomes a failure carrying its message |
| `Password.SplitJoinedSecret` | src/lib/password.ts:62 | splitting `ciphertext$base64(IV)` on `$` gives back exactly the two joined parts |
| `Password.StoredSecretFormat` | src/lib/password.ts:20-31 | the stored secret is the ciphertext field, `$`, then the 24-character base64 of the IV, and it splits back into those two parts |
| `Password.DecryptInvertsEncrypt` | src/lib/password.ts:55-67 | with the same key and IV, decrypt of an encrypt output returns the original plaintext |
| `Password.ProtectedHashIsBcryptOfDigest` | src/lib/password.ts:34-45 | what a protected secret decrypts to is the cost-10 bcrypt hash of the password's SHA-512 digest, not of the password |
| `Password.ProtectThenCompare` | src/lib/password.ts:70-93 | comparing a password against the secret protected from it returns true |
| `Password.DistinctDigestsReachBcrypt` | src/lib/password.ts:85 | SHA-512 digests that differ in their first 54 bytes differ in the 72 characters bcrypt reads |
| `Password.AssumptionsCanHold` | src/lib/password.ts:85 | some primitives meet the library guarantees and the no-collision assumption together, with two passwords whose digests differ: the preconditions of `Password.OtherPasswordRejected` are not contradictory |
| `Password.OtherPasswordRejected` | src/lib/password.ts:78-91 | a secret protected from one password rejects another password (no bcrypt collisions; digests differ in their first 54 bytes) |
| `Password.DistinctIvsDistinctSecrets` | src/lib/password.ts:21-38 | protecting the same password twice, each time with its own salt and its own IV, gives two different stored strings whenever the IVs differ |
| `TaskSchemas.ParseCreateTask` | src/infra/schemas/task.ts:9-11 | a create body is accepted exactly when it is an object whose `title` is a string of at least 3 UTF-16 units, and the title is kept |
| `TaskSchemas.ParseUpdateTask` | src/infra/schemas/task.ts:13-16 | an update body is accepted exactly when a `title` it carries has length ≥ 1 and a `completed` it carries is a boolean; absent keys stay absent |
| `TaskSchemas.ParseTaskParams` | src/infra/schemas/task.ts:23-25 | path parameters are accepted exactly when `id` is a string, and the result is that string |
| `TaskSchemas.TaskParamsRoundTrip` | src/infra/schemas/task.ts:23-25 | `{id}` parses back to that id for every string, the empty one included |
| `TaskSchemas.CreateBodyRoundTrip` | src/infra/schemas/task.ts:9-11 | a create body parses back to its data exactly when the title has at least 3 units |
| `TaskSchemas.UpdateBodyRoundTrip` | src/infra/schemas/task.ts:13-16 | an update body parses back to its data exactly when any title it carries is non-empty |
| `TaskSchemas.EmptyUpdateAccepted` | src/infra/schemas/task.ts:13-16 | an update body with neither key is accepted |
| `TaskSchemas.EmptyUpdateTitleRejected` | src/infra/schemas/task.ts:14 | an update body whose title is empty is rejected |
| `TaskSchemas.TaskView` | src/infra/schemas/task.ts:3-7 | the task view has exactly the keys `id`, `title` and `completed`, with the task's values |
| `TaskSchemas.SerializeTask` | src/infra/schemas/task.ts:3-7 | serializing accepts exactly objects with string `id`, string `title` and boolean `completed`, and keeps only those three keys with the input's values |
| `TaskSchemas.SerializedRecordIsView` | src/infra/schemas/task.ts:3-7 | a stored task record is sent as its view; `userId` and `createdAt` do not affect what is sent |
| `TaskSchemas.TasksResponse` | src/infra/schemas/task.ts:30-32 | the list response is `{tasks}`, holding one view per task, in order |
| `AuthSchemas.ParseRegister` | src/infra/schemas/auth.ts:14-18 | a register body is accepted exactly when `name` is any string, `email` passes the email check and `password` has at least 6 units |
| `AuthSchemas.ParseLogin` | src/infra/schemas/auth.ts:3-6 | a login body is accepted exactly when `email` passes the email check and `password` is any string |
| `AuthSchemas.RegisterBodyRoundTrip` | src/infra/schemas/auth.ts:14-18 | a register body parses back to its data exactly when the email passes and the password has 6 or more units, whatever the name |
| `AuthSchemas.LoginBodyRoundTrip` | src/infra/schemas/auth.ts:3-6 | a login body parses back to its data exactly when the email passes: the password has no length limit |
| `AuthSchemas.NullEmailRejected` | src/infra/schemas/auth.ts:4 | register and login both reject a null email |
| `AuthSchemas.LoginResponse` | src/infra/schemas/auth.ts:10-12 | the login response is the single string field `token` |
| `Auth.ServiceMessage` | src/infra/modules/auth/auth.service.ts:16-46 | a taken email carries "Email is already in use", invalid credentials carry "Email or password is incorrect", and library errors carry none of the service's messages |
| `Auth.RegisterOutcome` | src/infra/modules/auth/auth.service.ts:6-28 | a taken email fails with "Email is already in use"; success inserts that email and name, with the protected secret as the password |
| `Auth.LoginOutcome` | src/infra/modules/auth/auth.service.ts:30-50 | an unknown email fails with "Email or password is incorrect", and any other failure is that error or a crypto-library error; it succeeds exactly when the stored password compares true, and then returns the user stored under that email |
| `Auth.RegisterKeepsTableWellFormed` | src/infra/modules/auth/auth.service.ts:21-27 | after a registration, users are still filed under their own email and ids stay unique |
| `Auth.RegisterThenLogin` | src/infra/modules/auth/auth.service.ts:30-50 | a freshly registered user logs in with its password and gets its stored record |
| `Auth.LoginFailuresAlike` | src/infra/modules/auth/auth.service.ts:39-47 | a password the stored secret rejects gives exactly the failure an unknown email gives, "Email or password is incorrect" |
| `Auth.RegisterThenWrongPassword` | src/infra/modules/auth/auth.service.ts:30-50 | after registration, another password (digests differing in their first 54 bytes) and an unknown email both fail with "Email or password is incorrect" |
| `Auth.AuthService.Register` | src/infra/modules/auth/auth.service.ts:6-28 | the table gains exactly the new user on success and is unchanged on failure |
| `Auth.AuthService.Login` | src/infra/modules/auth/auth.service.ts:30-50 | login returns `LoginOutcome` and modifies nothing |
| `Tasks.OwnedBy` | src/infra/modules/tasks/tasks.service.ts:18-26 | the owned part of the table holds exactly the tasks whose `userId` is the owner |
| `Tasks.ErrorMessage` | src/infra/modules/tasks/tasks.service.ts:43 | a missing or foreign task carries "Task not found"; database errors carry none |
| `Tasks.Patch` | src/infra/modules/tasks/tasks.service.ts:46-51 | an update keeps id, owner and creation time; a supplied title or completed value becomes the new one, and an absent one keeps the old value |
| `Tasks.Apply` | src/infra/modules/tasks/tasks.service.ts:28-67 | an owner's create, update or delete removes or changes only tasks that owner owns, and a task it adds belongs to that owner and is not completed |
| `Tasks.ApplyKeepsWellFormed` | src/infra/modules/tasks/tasks.service.ts:28-67 | each operation keeps every task filed under its own id |
| `Tasks.UpdateFrame` | src/infra/modules/tasks/tasks.service.ts:39-53 | an update changes at most the one task, only if the owner owns it, and nothing else |
| `Tasks.DeleteFrame` | src/infra/modules/tasks/tasks.service.ts:56-67 | a delete removes exactly the one task if the owner owns it, and nothing otherwise |
| `Tasks.ApplyKeepsOthers` | src/infra/modules/tasks/tasks.service.ts:32 | one owner's create, update or delete leaves every other owner's tasks exactly as they were |
| `Tasks.OthersCannotTouch` | src/infra/modules/tasks/tasks.service.ts:5 | no sequence of operations by other owners changes what an owner has |
| `Tasks.TasksService.GetTask` | src/infra/modules/tasks/tasks.service.ts:7-16 | a task is returned exactly when both its id and its `userId` match, and then it is the stored task |
| `Tasks.TasksService.GetTasks` | src/infra/modules/tasks/tasks.service.ts:18-26 | returns exactly the stored tasks whose `userId` is the service's owner |
| `Tasks.TasksService.CreateTask` | src/infra/modules/tasks/tasks.service.ts:28-37 | inserts one task owned by the service's owner, whatever the data, and no other owner's tasks change |
| `Tasks.TasksService.UpdateTask` | src/infra/modules/tasks/tasks.service.ts:39-54 | an absent or foreign task fails with "Task not found" and nothing changes; otherwise only that task's supplied fields change |
| `Tasks.TasksService.DeleteTask` | src/infra/modules/tasks/tasks.service.ts:56-68 | an absent or foreign task fails with "Task not found" and nothing changes; otherwise exactly that task is removed |
| `Server.UserWithId` | src/http/server.ts:72-74 | the lookup by id finds a user exactly when a stored user has that id, and returns that stored user |
| `Server.Gate` | src/http/server.ts:64-86 | every rejection is 401; a decoding failure carries the decoder's message; an empty payload gives "Invalid token"; it authenticates exactly when the payload id names a stored user, and returns that user |
| `Server.UnknownUserLikeEmptyPayload` | src/http/server.ts:68-78 | a payload id with no stored user gets the same answer as an empty payload, 401 "Invalid token" |
| `Server.LoginTokenAuthenticates` | src/http/server.ts:64-80 | the token issued at login, `{id: user.id}`, authenticates as that user while it is stored |
| `Server.RegisterLoginAuthenticate` | src/http/server.ts:64-80 | register, then log in, then present the token: the hook attaches the user that registration stored |
| `Server.Authenticate` | src/http/server.ts:64-86 | on success sets `request.user` and leaves the reply alone; on rejection leaves `request.user` unset and sends the status and message; reads the user table only |

## Left out

- The cryptographic algorithms: SHA-512 (FIPS 180-4), bcrypt, and AES-256-CTR (section 6.5 of NIST SP 800-38A). They are library calls, modelled as parameters with stated guarantees.
- Random IV and salt generation: the values are parameters.
- The UTF-8 conversion between the bcrypt hash and the cipher's bytes is folded into the cipher primitives.
- The error callback of `bcrypt.hash`. With a string and a numeric cost it does not fire, so `bcryptHash` is total. The errors `bcrypt.compare` reports for a malformed hash (a bad salt version or rounds, e.g. from a secret decrypted under another key) are modelled: they become `Password.CryptoError.HashRejected` with the library's message. The texts of those messages are not modelled.
- Promise and async plumbing.
- JWT signing and decoding (RFC 7519, HS256 per section 3.2 of RFC 7518, one-hour expiry). This is library code. Decoding is a parameter that returns an error message or a payload. The library's own messages, "No Authorization was found in request.headers" and "Authorization token is invalid: The token is malformed.", come out of that parameter.
- Errors thrown in the hook that are not `Error` instances. The source sends no reply for them, and the model does not represent them.
- Prisma persistence. It is replaced by in-memory maps.
- Concurrency, including the gap between the ownership check and the update or delete. Each operation is atomic here.
- `Base64.Decode` on malformed text only approximates Node's lenient decoder: other characters are skipped. It is exact on everything `Base64.Encode` produces, which is all the model relies on.
- Strings holding lone UTF-16 surrogates. Dafny characters are Unicode scalar values, so such strings cannot be represented.
- The order of `getTasks`. `Tasks.TasksService.GetTasks` returns a set, because the database's default order is not part of this model.
- The default of a new task's `completed` field. The database schema is not part of this model. `false` is taken from the stored records the source's fixtures show.
- `updateTaskResponseSchema` and the shared `{message}` response schema. They are plain wrappers with no logic.
- Route wiring and the error-to-status mapping in the router. One issue is noted there but not modelled: handlers that call `authenticate` inline keep running after it has sent a 401.
- The rest of the server: Swagger setup, rate limiting, `listen` and `process.exit`.
- zod internals. The email check is a parameter, and dropping unknown keys is built into the parse functions.
- Environment loading, the test harness and the type declarations. They hold no logic.
- `Password.DecryptInvertsEncrypt` requires a non-empty plaintext. For an empty one, `cipher.read()` yields `null` and the stored field reads `null`, which does not decode to the empty ciphertext. bcrypt output is never empty, so `Password.ProtectedHashIsBcryptOfDigest` holds unconditionally.
- `Password.OtherPasswordRejected` is stated for two passwords whose SHA-512 digests differ in their first 54 bytes, not for all pairs of different passwords. bcrypt reads only the first 72 of the 88 digest characters. Hash collisions cannot be excluded by the library's guarantees, so the lemma assumes `Password.BcryptBinding`: no collisions among the digest texts bcrypt receives.
- `Auth.RegisterOutcome` states that the stored password is the protected secret. It does not state that the secret differs from the clear text, which cannot be excluded for every possible string.
