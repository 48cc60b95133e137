# User service: validation and request dispatch

A Dafny model of the behavioural core of a small Node.js HTTP service that
exposes create, list, update and delete operations on a single `User`
resource kept in MongoDB (`server.js`). Two parts of that file have real
logic, and both are modelled here:

- **`validateUser`**: four independent rules, always checked in the order
  username, email, phone, dateOfBirth. Each failing rule adds one fixed
  message. The result is `null` when no rule fails and the list of messages
  otherwise. The three regular expressions are written as direct predicates
  over strings:
  - phone: `^\+?[1-9]\d{1,14}$`
  - dateOfBirth: `^\d{4}-\d{2}-\d{2}$`
  - email: the unanchored search `\S+@\S+\.\S+`
- **The request callback**:
  - The chain of method and URL tests picks one of five routes. GET and POST
    need the URL to be exactly `/users`. PUT and DELETE accept any URL that
    starts with `/users/`, and the id is `url.split('/')[2]`.
  - For POST and PUT, the body is then parsed and validated, in that order.
  - At most one store call follows.
  - Each outcome maps to a status code and a body shape.

Modules, one file each:

| file | module | what it holds |
|---|---|---|
| Wrappers.dfy | `Wrappers` | `Option`, for the source's value-or-`null` results |
| Patterns.dfy | `Patterns` | the three regular expressions; each executable predicate is proved equal to a definition that reads like the regex |
| Validation.dfy | `Validation` | `Field = Missing \| Str(s) \| NonStr`, the candidate record, the rules and messages, `ValidateUser` (the source's push-per-failure method) and its specification `ValidationResult` |
| Routing.dfy | `Routing` | `Route`, `String.prototype.split` and `startsWith`, the id extraction, and the dispatch chain `RouteOf` |
| Store.dfy | `Store` | the document store as an abstract collection (a sequence of users in natural order), its four calls, and its invariant |
| Handler.dfy | `Handler` | `Admit` (everything before the store call), `Complete` (store outcome to response), `Handle` (one whole request against a collection), and the end-to-end properties |

Three points where the callback behaves otherwise than its routes and
status codes alone suggest:

- The id of `PUT`/`DELETE /users/{id}` is the third `/`-separated segment
  (`split('/')[2]`), not everything after `/users/`. So `/users/a/b` names
  `a`, and `/users/` names the empty id (`Routing.IdIgnoresLaterSegments`,
  `Routing.EmptyIdAdmitted`).
- A JSON body of `null` gives a 500 just as a syntax error does:
  `validateUser` reads `user.username` and throws a `TypeError` inside the
  same `try`.
- Any other JSON value that is not an object (a number, a string, an array)
  has none of the four properties. It gets a 400 with all four messages.

Environment inputs are parameters of the model:

- the result of `JSON.parse` on the fully read body (`ParseOutcome`);
- the id the store assigns to a new document (`newId`, assumed fresh);
- a failure of the store itself (`fault`).

## Model

| member | source | states |
|---|---|---|
| `Patterns.PhoneMatchesRegex` | server.js:147 | the phone check accepts exactly the strings that are an optional `+`, a digit 1-9, then 1 to 14 more ASCII digits and nothing else |
| `Patterns.PhoneBounds` | server.js:147 | an accepted phone has length 2 to 16, a `+` only at index 0, a digit 1-9 right after it and ASCII digits everywhere else |
| `Patterns.DateMatchesRegex` | server.js:150 | the date check accepts exactly a 4-digit, a 2-digit and a 2-digit group of ASCII digits joined by `-` |
| `Patterns.EmailScanIsSpec` | server.js:144 | the executable email scan succeeds iff some `@` at i has a non-space before it and some `.` at k >= i+2 has no space strictly between i and k and a non-space after it |
| `Patterns.EmailSpecIsRegex` | server.js:144 | that positional characterisation holds iff some substring of the string is a whole match of `\S+@\S+\.\S+` |
| `Patterns.EmailMatchesRegex` | server.js:144 | the email check is exactly the unanchored regular expression's `test` |
| `Patterns.EmailSurroundingsIgnored` | server.js:144 | the check is unanchored: any prefix and suffix, spaces included, keep an accepted string accepted |
| `Patterns.EmailNeedsAt` | server.js:144 | an accepted email contains `@` and `.` and has at least 5 characters |
| `Validation.ValidateUser` | server.js:139-154 | the push-per-failure validator returns exactly the specification `ValidationResult`: the messages of the failing rules in rule order, or None when there are none |
| `Validation.ValidIffAllFieldsWellFormed` | server.js:141-153 | no errors iff username is a non-empty string, email a string with a `\S+@\S+\.\S+` window, phone a string of the phone pattern and dateOfBirth a string of the date pattern |
| `Validation.MessageIffRuleFails` | server.js:140-153 | a rule's message is in the result iff that rule fails, whatever the other fields hold (no short-circuiting) |
| `Validation.AbsentFieldReported` | server.js:141-151 | a field that is missing, not a string, or the empty string always yields its rule's message |
| `Validation.ErrorCountIsViolationCount` | server.js:140-153 | the result is None iff no rule fails; otherwise it has one message per failing rule, between 1 and 4 |
| `Validation.ErrorsInRuleOrder` | server.js:140-153 | every message belongs to a failing rule, and the messages appear in the order username, email, phone, dateOfBirth with none repeated |
| `Routing.SplitJoin` | server.js:73 | the model of `split('/')` loses nothing: joining its segments with `/` gives back the string |
| `Routing.SplitSegments` | server.js:73 | `split('/')` gives one more segment than there are `/`, and no segment contains `/` |
| `Routing.IdOf` | server.js:73 | `url.split('/')[2]` exists for every URL starting with `/users/` and contains no `/` |
| `Routing.RouteOf` | server.js:25-129 | GET and POST route only for the exact `/users`; PUT and DELETE route exactly when the URL starts with `/users/`, with the id equal to `url.split('/')[2]`: `/`-free, sitting right after `/users/` up to the next `/` or the end; everything else is not found |
| `Routing.IdLocated` | server.js:72-73 | for an admitted URL, the URL is `/users/` + id + a tail that is empty or starts with `/` |
| `Routing.IdOfUrl` | server.js:72-73 | conversely, `/users/` + a `/`-free id + such a tail is admitted and yields that id |
| `Routing.IdIgnoresLaterSegments` | server.js:109-110 | PUT and DELETE on `/users/a/b` address user `a` |
| `Routing.EmptyIdAdmitted` | server.js:72-73 | PUT and DELETE on `/users/` are admitted with the empty id (what the store then makes of that id is not part of the routing) |
| `Routing.ExactPathOnly` | server.js:25-39 | `GET /users/`, `GET /users?x`, `POST /users/`, `PATCH /users` and `GET /unknown` are not found |
| `Store.ToUser` | server.js:53 | the document built from a validated body holds exactly its four string fields and the given id |
| `Store.Execute` | server.js:26-111 | each store call resolves to an outcome its caller handles, and a rejected call changes nothing |
| `Store.ExecutePreservesInvariant` | server.js:11-16 | every store call keeps ids unique, emails unique and every stored field valid |
| `Store.InsertPreservesInvariant` | server.js:53-54 | inserting a valid document with a fresh id and an unused email keeps the invariant |
| `Store.UpdatePreservesInvariant` | server.js:87 | replacing a document in place with a valid one of the same id, whose email no other document has, keeps the invariant |
| `Store.RemovePreservesInvariant` | server.js:111 | removing a document keeps the invariant |
| `Store.DeleteRemovesId` | server.js:111 | deleting a stored id returns that document, leaves no document with that id, one document fewer, and every other document in place |
| `Handler.CheckBody` | server.js:45-51 | a body that does not parse is a 500 carrying the `SyntaxError`, a `null` body a 500 carrying the `TypeError`, a parsed body that fails validation a 400 carrying exactly the validator's messages, and a valid body is passed on unchanged |
| `Handler.Admit` | server.js:21-130 | not found iff the route is not found; GET and DELETE always call the store; POST and PUT call it iff the body parsed and passed validation, and then with that body and the URL's id |
| `Handler.Complete` | server.js:26-123 | a store rejection is a 500 and only that, carrying the store's error; `null` is a 404 `User not found`; GET gives 200 with the list, POST 201 with the document, PUT 200 with it, DELETE 204 with no body |
| `Handler.Handle` | server.js:21-130 | every response has one of the statuses 200, 201, 204, 400, 404, 500 with its body shape, and only 200, 201 and 204 can change the collection |
| `Handler.UnknownRouteNotFound` | server.js:127-129 | any other method and URL is a 404 `Route not found` and changes nothing |
| `Handler.UnreadableBodyIsServerError` | server.js:63-66 | for POST and PUT, a body that is not JSON, or is `null`, is a 500 `Server error` before any store call |
| `Handler.InvalidBodyIsRejected` | server.js:47-51 | for POST and PUT, an invalid body is a 400 carrying exactly the validator's 1 to 4 messages; the store is not consulted, so a PUT on a missing id still gets 400 |
| `Handler.StoreFaultIsServerError` | server.js:31-34 | whenever the store is called and rejects, the response is a 500 with the store's error and nothing changes |
| `Handler.ListReturnsAll` | server.js:26-30 | when the store does not fail, GET /users is a 200 listing the whole collection |
| `Handler.CreateStoresUser` | server.js:53-58 | when the store does not fail, POST with a valid body and an unused email is a 201 whose document has the new id and the submitted fields; the collection gains exactly it, and a later GET lists it |
| `Handler.DuplicateEmailRejected` | server.js:59-62 | when the store does not otherwise fail, POST with an email already stored is a 500 carrying the duplicate-key error and changes nothing |
| `Handler.UpdateUnknownIdNotFound` | server.js:87-92 | when the store does not fail, PUT with a valid body on an id that is not stored is a 404 `User not found` and changes nothing |
| `Handler.UpdateReplacesUser` | server.js:87-95 | when the store does not fail, PUT with a valid body on a stored id is a 200 whose document keeps the id and takes every field from the body; it replaces the old one in place and nothing else changes |
| `Handler.UpdateDuplicateEmailRejected` | server.js:87-98 | when the store does not otherwise fail, PUT on a stored id with an email another document has is a 500 carrying the duplicate-key error and changes nothing |
| `Handler.DeleteUnknownIdNotFound` | server.js:111-116 | when the store does not fail, DELETE on an id that is not stored is a 404 `User not found` and changes nothing |
| `Handler.DeleteRemovesUser` | server.js:111-119 | when the store does not fail, DELETE on a stored id is a 204 with no body; the collection loses only that document, and a later GET no longer lists the id |
| `Handler.HandlePreservesInvariant` | server.js:21-130 | no request breaks unique ids, unique emails or the validity of stored fields |

## Left out

- The MongoDB connection and the startup log (server.js:4-8): I/O. A store that never connected shows up as the `fault` parameter on every call.
- The mongoose schema and model (server.js:10-18) are a foreign library. The model keeps only what the handler can observe: the unique index on `email` becomes the `DuplicateEmail` rejection. Everything else the library may reject (an id that is not an ObjectId, casting, `runValidators`, an `_id` in a PUT body, a malformed or already used `_id` in a POST body) is covered by the abstract `fault`.
- `http.createServer`, `setHeader`, `writeHead`, `end`, and `listen` on port 1234 with its log line (server.js:21-22, 133-136): I/O. A response is modelled as a status and a body shape.
- Body buffering through `data`/`end` events (server.js:40-44, 74-78): the body is taken as fully read, then parsed.
- `JSON.parse` and `JSON.stringify` are foreign code. Parsing is an abstract `ParseOutcome`. Bodies are modelled by shape. The error texts of the `SyntaxError`, the `TypeError` on a `null` body, and the store's errors are kept abstract in `Cause`. Documents carry the store's id but not MongoDB's `_id`/`__v` encoding.
- Validation only looks at the four schema fields, and so does the stored document. Extra properties of a body are not modelled. The schema's strict mode drops them, except `_id` and `__v`, which every mongoose schema has: a well-formed unused `_id` in a POST body picks the new document's id (covered by `newId` being a free parameter), and any other `_id` makes the save reject (covered by `fault`).
- Promises and concurrent requests: each request is handled on its own, and no in-process state is shared.
- Ids are matched by string equality. MongoDB compares ObjectIds, whose hex form is case-insensitive, and rejects an id that is not an ObjectId (the empty id of `/users/` included) with a cast error. That rejection is a `fault` and gives a 500, so the 404 lemmas hold only when the store does not fail.
- The store's id generation: `newId` is a parameter and is required fresh, as the store guarantees for a body without `_id` (and as it enforces for one with `_id`, by rejecting a used one). The order of `find()` is the collection's sequence order.
- Full replacement on PUT: the model replaces all four schema fields. The source calls a `$set`-style update, which gives the same four fields because a validated body always has all four.
- Strings are sequences of Unicode scalar values, not UTF-16 code units, so a JSON string holding a lone surrogate such as `"\ud800"` cannot be a field value. No rule depends on this: without the `u` flag, `\S` and `\d` treat each surrogate half as a non-space, non-digit character.
