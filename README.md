# Parent login: a verified model of the login handler

The repository is one serverless HTTP endpoint, `handler` in
`api/loginParent.js`. A parent submits a student ID and a contact number. The
handler looks the student up in the `students` collection of a document
database. It answers "logged in" with the student's document identifier when
the number equals that student's stored `contact` or `guardianContact`.
Otherwise it answers with one of five fixed failure responses.

This project models that handler as a pure function and proves what each of
its branches does.

- `JsString` — `trim` and `toUpperCase` as the handler uses them, and the
  lookup key `toUpperCase(trim(studentId))`. `Trim` removes exactly the
  ECMAScript WhiteSpace and LineTerminator code points. `ToUpper` maps the
  ASCII letters a–z.
- `Firestore` — the `students` collection as a sequence of documents, in the
  order the database returns them. `Query` is the exact-equality filter on
  `student_id` the handler builds (`Where`). `Unreachable` stands for any
  exception raised while reaching the database or running the query.
- `LoginParent` — the request (HTTP method and parsed body), the six
  responses, and `Handle(req, db)`. `Handle` does the method check, the body
  validation and the lookup, then hands the query result to `Respond`, which
  compares contacts.
- `LoginScenarios` — concrete requests against concrete collections, with the
  exact response each gets.

A body field is a `Field`: either a string, or some other JavaScript value of
which only its truthiness matters. This models two paths of the source:

- a missing or falsy field is a 400;
- calling `.trim()` on a truthy non-string throws, and the `catch` turns that
  into the 500.

The contact number is trimmed only at `api/loginParent.js:57`, after a record
has been found. So a non-string contact number gets "Student ID not found."
when nothing matches, and the 500 when something does. A parsed body that is
`null` or `undefined` makes the destructuring at `api/loginParent.js:30`
throw, which is also a 500.

Stored `contact` and `guardianContact` values are `Option<string>`. `None`
stands for a field that is absent or is not a string: the strict comparison
at `api/loginParent.js:57` never matches such a value.

Where the written description of the system and the code differ, the model
follows the code:

- The description says both fields must be non-empty after trimming. The
  code checks only the raw values (`api/loginParent.js:33`). A
  whitespace-only student ID is therefore looked up under the key `""`. A
  whitespace-only contact number is compared as `""`, so it logs in to a
  record whose stored contact is the empty string (`BlankContactMatchesEmptyStored`).
- The description lists three outcomes. The code has six distinct responses,
  and each is modelled.

## Model

| member | source | states |
|---|---|---|
| `JsString.TrimStartSplits` | api/loginParent.js:42 | leading-whitespace removal keeps the suffix of the input that starts at its first non-whitespace character; everything it drops is whitespace |
| `JsString.TrimEndSplits` | api/loginParent.js:57 | trailing-whitespace removal keeps the prefix that ends at the last non-whitespace character; everything it drops is whitespace |
| `JsString.TrimSplits` | api/loginParent.js:42 | every string is leading whitespace, then its trimmed form, then trailing whitespace; the trimmed form has no whitespace at either end |
| `JsString.TrimPadded` | api/loginParent.js:57 | uniqueness: for any bare `m` with whitespace `p` and `q` around it, trimming `p + m + q` gives exactly `m` |
| `JsString.TrimBare` | api/loginParent.js:57 | a string with no whitespace at either end is unchanged by trimming |
| `JsString.TrimIdempotent` | api/loginParent.js:42 | trimming twice is trimming once |
| `JsString.TrimIgnoresPadding` | api/loginParent.js:42 | adding whitespace around any string never changes its trimmed form |
| `JsString.AllWhitespaceConcat` | api/loginParent.js:42 | a concatenation is all whitespace exactly when both parts are |
| `JsString.TrimStartPadded` | api/loginParent.js:42 | removing leading whitespace from whitespace followed by a string that does not start with whitespace gives that string |
| `JsString.TrimEndPadded` | api/loginParent.js:42 | removing trailing whitespace from a string that does not end with whitespace, followed by whitespace, gives that string |
| `JsString.ToUpperAt` | api/loginParent.js:42 | upper-casing keeps the length and maps each character independently |
| `JsString.ToUpperConcat` | api/loginParent.js:42 | upper-casing distributes over concatenation |
| `JsString.ToUpperPreservesWhitespace` | api/loginParent.js:42 | upper-casing leaves whitespace unchanged and keeps a string with no whitespace at either end in that state |
| `JsString.ToUpperIdempotent` | api/loginParent.js:42 | the result contains no lower-case ASCII letter, and upper-casing it again changes nothing |
| `JsString.ToUpperEqualIff` | api/loginParent.js:42 | two strings upper-case to the same string if and only if they differ only in the case of ASCII letters |
| `JsString.ToUpperTrimCommute` | api/loginParent.js:42 | trimming then upper-casing equals upper-casing then trimming |
| `JsString.KeyIgnoresPadding` | api/loginParent.js:42 | IDs that differ only by surrounding whitespace have the same lookup key |
| `JsString.KeyIgnoresCase` | api/loginParent.js:42 | IDs that differ only in ASCII case have the same lookup key |
| `JsString.KeyIsNormal` | api/loginParent.js:42 | a lookup key has no surrounding whitespace, no lower-case ASCII letter, and is its own key |
| `JsString.KeyOfNormal` | api/loginParent.js:42 | conversely, a string with no surrounding whitespace and no lower-case ASCII letter is its own key |
| `Firestore.WhereMembers` | api/loginParent.js:41-43 | the query returns exactly the documents whose `student_id` equals the key, and no more documents than the collection has |
| `Firestore.WhereEmptyIff` | api/loginParent.js:43-46 | the query result is empty if and only if no document's `student_id` equals the key |
| `Firestore.WhereAppend` | api/loginParent.js:41-43 | filtering a concatenation is the concatenation of the filtered parts, so the collection's order is kept |
| `Firestore.WhereHeadIsFirstMatch` | api/loginParent.js:53 | the first document returned is the first matching document of the collection |
| `Firestore.WhereHeadHasIndex` | api/loginParent.js:53 | conversely, when the result is non-empty, its first document sits at the collection's first matching index |
| `Firestore.WhereIdempotent` | api/loginParent.js:41-43 | filtering the result again changes nothing |
| `LoginParent.SixOutcomes` | api/loginParent.js:19-71 | every response is one of the five fixed failure responses, or a 200 success whose `docId` belongs to a stored document |
| `LoginParent.MethodNotAllowedIff` | api/loginParent.js:22-25 | status 405 occurs if and only if the method is not `POST`; then the response is exactly `Method Not Allowed`, for any body and database |
| `LoginParent.FieldsRequiredIff` | api/loginParent.js:30-35 | status 400 occurs if and only if a POST has a body with a falsy `studentId` or `contactNumber`; then the response is exactly the "required" message |
| `LoginParent.WhitespaceOnlyPassesValidation` | api/loginParent.js:33-35 | a whitespace-only ID or number passes validation; the ID's key is `""` and the number trims to `""` |
| `LoginParent.SameKeySameResponse` | api/loginParent.js:42 | two valid requests whose IDs have the same key get the same response from any database |
| `LoginParent.NormalisedIdsAgree` | api/loginParent.js:42 | an ID with surrounding whitespace, or with different ASCII case, gets the same response as the bare ID |
| `LoginParent.OnlyExactMatchesMatter` | api/loginParent.js:41-43 | deleting every document whose `student_id` is not exactly the key leaves the response unchanged |
| `LoginParent.StudentNotFoundIff` | api/loginParent.js:46-50 | "Student ID not found." occurs if and only if the POST has both fields truthy, the ID is a string, the database is reachable and no document matches the key |
| `LoginParent.FirstMatchDecides` | api/loginParent.js:53-63 | for a valid request, when index `i` is the first match: success with that document's id if the trimmed number equals its `contact` or `guardianContact`, otherwise the mismatch message |
| `LoginParent.AcceptedOnlyForFirstMatch` | api/loginParent.js:57-59 | a success occurs only for a valid request and a reachable database; its status is 200, and its `docId` is that of the first match, whose contact or guardian contact equals the trimmed number |
| `LoginParent.ContactMismatchOnlyForFirstMatch` | api/loginParent.js:60-63 | the mismatch message occurs only for a valid request whose first matching document has neither contact equal to the trimmed number |
| `LoginParent.LaterDocumentsIgnored` | api/loginParent.js:53-54 | appending documents after a match never changes the response |
| `LoginParent.RespondSeesOnlyTheFirst` | api/loginParent.js:53-63 | two query results with the same first document lead to the same response |
| `LoginParent.PaddedStoredContactNeverMatches` | api/loginParent.js:57 | a stored contact with whitespace at either end is never equal to any supplied number after trimming |
| `LoginParent.QueryFailureIsGeneric` | api/loginParent.js:65-70 | when the query fails, every valid request gets the generic 500 |
| `LoginParent.ErrorDetailHidden` | api/loginParent.js:65-70 | the response does not depend on which error the database raised |
| `LoginParent.InternalErrorIff` | api/loginParent.js:27-70 | status 500 occurs for a POST if and only if the body is null, the ID is a truthy non-string, the query fails, or the number is a truthy non-string and a document matched; then the response is exactly the generic message |
| `LoginScenarios.UpperIdIsItsKey` | api/loginParent.js:42 | the key of `"AB123"` is `"AB123"` |
| `LoginScenarios.LowerIdSameKey` | api/loginParent.js:42 | `"ab123"` has the same key as `"AB123"` |
| `LoginScenarios.PaddedIdSameKey` | api/loginParent.js:42 | `"  ab123  "` has the same key as `"ab123"` |
| `LoginScenarios.GuardianContactLogsIn` | api/loginParent.js:42-59 | ID `"xy9"` with number `" 0179999999 "` logs in to record `doc42` through its guardian contact |
| `LoginScenarios.WrongNumberIsMismatch` | api/loginParent.js:57-63 | the same record with number `"0000000000"` gets the mismatch message |
| `LoginScenarios.UnknownIdIsNotFound` | api/loginParent.js:46-50 | ID `"ZZZ"` with no matching record gets "Student ID not found." |
| `LoginScenarios.PrefixIsNotAMatch` | api/loginParent.js:42-50 | a stored `"AB1234"` is not found for `"AB123"`, so matching is not by prefix |
| `LoginScenarios.StoredTrailingSpaceIsMismatch` | api/loginParent.js:57-63 | a stored contact `"555-1234 "` does not match a supplied `"555-1234"` |
| `LoginScenarios.BlankContactMatchesEmptyStored` | api/loginParent.js:33-59 | a whitespace-only number passes validation and logs in to a record whose stored contact is `""` |
| `LoginScenarios.NonStringContactUnknownId` | api/loginParent.js:46-50 | a truthy non-string number with no matching record gets "Student ID not found." |
| `LoginScenarios.NonStringContactKnownId` | api/loginParent.js:57-70 | a truthy non-string number with a matching record gets the generic 500 |

## Left out

- Firebase Admin SDK setup (`api/loginParent.js:1-15`) is not modelled. This is the parse of the service-account environment variable and the one-time `initializeApp` guard: foreign library calls and process environment, with no decision logic of its own.
- Firestore internals (`getFirestore`, `collection`, `where`, `get`, lines 38-43) are not modelled. They are replaced by `Firestore.Query`, an exact-equality filter over a sequence of documents. The database's default ordering among duplicates is whatever order that sequence has.
- `async`/`await` and concurrent invocations on the hosting platform are not modelled. One call has a single suspension point, and the model takes the query's outcome as an input.
- The `console.error` logging (line 67) and the `response.status().json()` plumbing are I/O. The model returns the response as a value.
- `ToUpper` maps only the ASCII letters. JavaScript's `toUpperCase` applies full Unicode case mapping, for example `"é"` to `"É"` and `"ß"` to `"SS"`; other characters are left unchanged here.
- `IsWhitespace` lists the Unicode Zs category as of current Unicode versions. The set JavaScript engines use follows the engine's Unicode version.
- Request method: `Request.verb` is a string. A method that is not a string is represented by any string other than `"POST"`; both get a 405.
- Body values: only a field's string-ness and truthiness are modelled. Property getters or proxies that throw while the body is destructured are not modelled.
