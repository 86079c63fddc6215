# User directory of the signup/login test server

This project models the core of a small Express server that Flutter clients use as a development backend. All its state is one in-memory object, `users`, keyed by email. Five request handlers read or write that object:

- **signup** validates `{name, email, password}`, refuses an email that is already registered, and otherwise stores a new record. The record's id is `'user_' + Date.now()` and `createdAt` is the current ISO time.
- **login** checks `{email, password}` against the stored record by plain string equality.
- **check-email** reports whether an email is registered.
- **get-user** returns one record.
- **debug-list** returns every record.

Every answer that carries a user carries it without the password.

The files:

- `users.dfy` (module `Users`) holds the data: request fields, the stored `UserRecord`, its public view `UserPublic`, `Strip`, the identifier format, and the directory as a value (`Directory`). It also holds the directory's invariant `WellFormed`.
- `handlers.dfy` (module `Handlers`) holds the responses, the exact messages, and each handler as a function of the directory and the request. Signup also returns the directory it leaves behind.
- `directory.dfy` (module `Server`) holds the class `UserDirectory`. Its fields are the `users` map and the key insertion order. Its method `Signup` is the only place the state changes, an insert in place, and it is proved against `Handlers.Signup`.
- `properties.dfy` (module `Properties`) holds lemmas that connect several requests. Examples are signup followed by check-email, get-user or login, and a run of signups for one email.

Modelling choices:

- A request field is `Option<string>`. The server tests fields with JavaScript falsiness, so `Present` treats a missing field and `""` the same way.
- The clock is an input. `now` is the value of `Date.now()` in milliseconds, and `createdAt` is the ISO string. `UserId(now)` is `"user_"` followed by `now` in decimal.
- The directory keeps its keys in insertion order. This is the order in which `Object.values` lists the records, so debug-list is deterministic.
- `UserPublic` has no password field. No response constructor can hold a `UserRecord`, so the claim that no response contains a password holds by type.
- Ids are not unique. The code builds them as `'user_' + Date.now()` (server.js:55), so two signups in the same millisecond get the same id. `Properties.SameMillisecondSameId` shows such a pair, and `Users.UserIdMatchesClock` shows that ids are equal exactly when the clock readings are equal.

## Model

| member | source | states |
|---|---|---|
| `Users.Present` | server.js:40 | a field counts as given unless it is missing or the empty string, the two values JavaScript's `!field` treats as absent (the same test is used at server.js:83 and 120) |
| `Users.StripForgetsOnlyPassword` | server.js:68 | `Strip`, the password removal done at server.js:68, 108, 145 and 154, gives two records the same public view exactly when they differ only in their password |
| `Users.Decimal` | server.js:55 | the rendering of `Date.now()` is non-empty, all decimal digits, no leading zero, and has at least two digits from 10 on |
| `Users.DecimalInjective` | server.js:55 | different clock readings render as different digit strings |
| `Users.UserId` | server.js:55 | every id starts with `user_` followed by at least one character |
| `Users.UserIdMatchesClock` | server.js:55 | two ids are equal if and only if they were made at the same millisecond |
| `Users.Empty` | server.js:25 | the server starts with no users, and that state satisfies the invariant |
| `Users.OrderCountsRecords` | server.js:25 | in a well-formed directory the insertion order has exactly one entry per stored record |
| `Users.OneRecordPerEmail` | server.js:65 | each record is filed under its own email, so two stored records share an email only if they are the same entry |
| `Handlers.Status` | server.js:34-162 | each response maps to 200, 201, 400, 401 or 404, and it is below 400 exactly for the success responses |
| `Handlers.NewUser` | server.js:55-62 | the record a complete signup builds is filed under the request's email, has a non-empty name, email and password, and has an id starting with `user_` |
| `Handlers.Signup` | server.js:34-74 | a missing or empty field gives 400 "Name, email and password are required" and the state is unchanged; a registered email gives 400 "Email already registered" and the state is unchanged; otherwise it gives 201 with the stripped new record, and the map gains exactly that record under its email; no existing record is replaced; the invariant is preserved |
| `Handlers.Matches` | server.js:90-105 | the login condition holds only for a stored email whose password equals the supplied one exactly, and never for a missing or empty password |
| `Handlers.Login` | server.js:77-114 | a missing field gives 400; success (200 with the stripped stored record) happens if and only if the email is stored and its password equals the supplied one; an unknown email and a wrong password both give 401 "Invalid email or password" |
| `Handlers.CheckEmail` | server.js:117-132 | a missing or empty email gives 400 "Email parameter is required"; otherwise `exists` is true if and only if the email is stored |
| `Handlers.GetUser` | server.js:135-149 | it succeeds if and only if the email is stored, with the stripped record filed under that email; otherwise it gives 404 "User not found" |
| `Handlers.PublicViews` | server.js:153-156 | mapping over the keys gives one stripped record per key, in key order |
| `Handlers.ViewsCoverDirectory` | server.js:152-161 | the views in insertion order cover every stored record exactly once, each being the stripped record under its email |
| `Handlers.ListUsers` | server.js:152-162 | `count` equals the number of entries and the number of stored records; every entry is the stripped record under its email; every stored email appears exactly once |
| `Server.UserDirectory.constructor` | server.js:25 | a new directory is empty and valid |
| `Server.UserDirectory.Signup` | server.js:34-74 | the in-place insert gives the response and new state that `Handlers.Signup` specifies; it keeps the invariant; the map changes only on success, and then only by the new record under its email |
| `Properties.SignupThenLookup` | server.js:55-73 | after a successful signup, check-email reports the email as taken, get-user returns exactly the signup's answer, and debug-list's count grows by one |
| `Properties.SignupTwice` | server.js:47-52 | a second signup for a just-registered email gives 400 "Email already registered", leaves the state as it was, and keeps the first record |
| `Properties.SignupThenLogin` | server.js:100-113 | logging in with the password just signed up with returns the signup's view, with the same id; any other non-empty password gives 401 |
| `Properties.LoginFailuresIndistinguishable` | server.js:92-105 | an unknown email and a known email with a wrong password give identical 401 responses |
| `Properties.CheckEmailAgreesWithGetUser` | server.js:126 | check-email reports an email as taken if and only if get-user finds it |
| `Properties.LoginSucceedsOnlyForRegistered` | server.js:90-113 | a successful login is for a registered email and returns what get-user returns for that email |
| `Properties.SameMillisecondSameId` | server.js:55 | two successful signups for different emails in the same millisecond store records with the same id |
| `Properties.SignupAll` | server.js:34-74 | handling signups one after another gives one response per request and preserves the invariant |
| `Properties.Refusal` | server.js:40-52 | the answer a signup gets once its email is taken (the missing-field message if incomplete, otherwise "Email already registered") is always a 400 |
| `Properties.OneSignupPerEmail` | server.js:47-65 | among signups for one email handled in turn, at most one succeeds; if the email was already registered, every call is refused and the state is unchanged; if it was not and the first call is complete, that call succeeds, its record is kept, and every later call is refused |
| `Properties.FirstCompleteSignupWins` | server.js:40-65 | for an email not yet registered, the first complete signup for it succeeds wherever it stands in the run, its record is the one kept, and every other call is refused: earlier ones for a missing field, later ones with "Email already registered" when complete |

## Left out

- Express plumbing is left out: the app, CORS, JSON body parsing, route registration and `listen` (server.js:15-21, 195-210). This is framework and network I/O.
- The 404 fallback for unmatched routes and the 500 error middleware (server.js:177-189) are routing glue. They hold no logic over the directory.
- The health endpoint (server.js:165-170) returns a constant and the wall-clock time.
- Console logging is a side effect only.
- Clock reads are not modelled. `Date.now()` and `new Date().toISOString()` become the parameters `now` and `createdAt`.
- JSON fields that are not strings are not modelled; every field is modelled as an optional string. A numeric `password`, for example, would compare unequal to a stored string under `!==`. An array-valued `email` query parameter is also not modelled.
- JavaScript prototype keys are not modelled. `users` is a plain `{}`, so a key such as `"constructor"` reads an inherited, truthy value. The model uses a true finite map.
- JavaScript lists integer-like property names (such as `"42"`) before other keys, in numeric order. `Handlers.ListUsers` uses plain insertion order for every key.
- Concurrency is not modelled. Node runs each handler to completion, so requests are modelled as sequential calls; `Properties.SignupAll` is that sequence.
- The curl usage comment (server.js:216-237) is documentation only.
