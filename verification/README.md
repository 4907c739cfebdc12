# Employee store of the employee CRUD service

This project models, in Dafny, the in-memory employee store behind the HTTP
handlers of `backend/src/server.ts`: an insertion-ordered list of `Employee`
records (id, firstname, lastname, age, isMarried), seeded with three sample
employees, and the handlers that read and change it — list, get-by-id,
create, update-by-id, delete-by-id and search-by-firstname.

Each handler is a pure function from the current store and the request to a
`Handled` value: the reply (status `Ok` 200, `Created` 201, `NoContent` 204,
`NotFound` 404 or `Invalid` 400, plus the JSON body) and the store after the
request. Request-body fields and the search query are `Option` values, so a
missing field (`undefined`) is distinct from a present but falsy `""`, `0` or
`false` — the distinction the handlers hinge on: create rejects empty names
but accepts `age: 0` and `isMarried: false`; update replaces names only with a
non-empty value and age/isMarried with any present value.

Modules:

- `Optional` — the `Option` type for possibly-missing fields.
- `Text` — ASCII lower-casing and `String.prototype.includes`, whose
  contract says it holds exactly when the needle occurs at some position.
- `Employees` — the record, the store, the id predicates (`HasId`,
  `UniqueIds`, `FirstMatch`), `findIndex`, and the seed store.
- `Handlers` — the six handlers.
- `Properties` — lemmas relating several handler calls: invariant
  preservation, create/update/delete followed by get, idempotence of update,
  order preservation of search, the seed-store search and a full lifecycle.

The ids that `uuidv4()` generates are parameters: `Create` takes the new id
as an argument, and the lemmas that need it fresh say so as a hypothesis.

Searching `"jo"` on the seed store returns John Doe only: the handler
matches on the firstname alone, so Alice Johnson is not returned
(`Properties.LemmaSeedSearchJo`).

## Model

| member | source | states |
|---|---|---|
| Employees.FindIndex | backend/src/server.ts:79-80 | `findIndex` on `emp.id === id`: -1 exactly when no record has the id, otherwise the first index whose record has it |
| Employees.Seed | backend/src/server.ts:20-42 | the initial store holds three records, John, Jane and Alice, with distinct ids and non-empty names |
| Handlers.List | backend/src/server.ts:45-47 | listing returns status 200 with every record in insertion order and leaves the store unchanged |
| Handlers.Get | backend/src/server.ts:51-56 | 404 with "Employee not found" exactly when no record has the id; otherwise 200 with the record at the first matching index; the store is never modified |
| Handlers.Create | backend/src/server.ts:61-73 | 400 exactly when firstname or lastname is missing or empty, or age or isMarried is missing, and then the store is unchanged; otherwise 201 with a record holding the supplied fields and the new id, appended after all earlier records, which are unchanged |
| Handlers.Merge | backend/src/server.ts:84-90 | the merged record keeps the id; names are replaced only by a present non-empty value, age and isMarried by any present value including 0 and false |
| Handlers.Update | backend/src/server.ts:78-91 | 404 and an unchanged store exactly when no record has the id; otherwise 200, same length, only the record at the first matching index is replaced (by the merge), it keeps the id, and the reply carries it |
| Handlers.Delete | backend/src/server.ts:96-102 | 404 and an unchanged store exactly when no record has the id; otherwise 204 with no body and the store is the old one with the first matching record spliced out, one shorter |
| Handlers.Filter | backend/src/server.ts:111-113 | the filter keeps every matching record as often as it occurs and nothing else, in store order |
| Handlers.Search | backend/src/server.ts:107-114 | 400 exactly when the query is missing or empty; otherwise 200 with the order-preserving sublist of records whose lower-cased firstname includes the lower-cased query, each such record as many times as it occurs in the store; the store is unchanged |
| Handlers.Matches | backend/src/server.ts:111-112 | the filter callback holds exactly when the lower-cased query occurs at some position of the record's lower-cased firstname |
| Text.Includes | backend/src/server.ts:112 | `includes` holds exactly when the needle occurs at some position of the haystack |
| Text.Lower | backend/src/server.ts:112 | lower-casing keeps the length and maps each character independently |
| Properties.LemmaCreateKeepsUniqueIds | backend/src/server.ts:65-72 | appending a record whose id is not yet present keeps all ids distinct |
| Properties.LemmaCreateKeepsWellFormed | backend/src/server.ts:61-72 | after any create with a fresh id, ids stay distinct and every name stays non-empty |
| Properties.LemmaCreateAcceptsFalsyAgeAndMarried | backend/src/server.ts:62 | `age: 0` and `isMarried: false` with non-empty names are accepted and stored as given |
| Properties.LemmaCreateThenGet | backend/src/server.ts:52-56 | after a valid create with an id not yet in the store, get-by-id of that id returns the created record |
| Properties.LemmaMergeIdempotent | backend/src/server.ts:84-90 | merging the same body twice gives the same record as merging it once |
| Properties.LemmaMergeNothingSupplied | backend/src/server.ts:86-89 | a body with missing or empty names and missing age and isMarried leaves the record unchanged |
| Properties.LemmaUpdateIdempotent | backend/src/server.ts:78-91 | replaying an update yields the same reply and the same store |
| Properties.LemmaUpdateKeepsIds | backend/src/server.ts:84-90 | update keeps the length and the id at every position |
| Properties.LemmaUpdateKeepsWellFormed | backend/src/server.ts:84-90 | update keeps ids distinct and never empties a name |
| Properties.LemmaUpdateThenGet | backend/src/server.ts:52-56 | on every store, get-by-id after an update replies exactly what the update replied: the updated record, or 404 when the id is absent |
| Properties.LemmaUpdateFalsyValues | backend/src/server.ts:86-89 | an empty firstname in the body is ignored, while age 0 and isMarried false are applied |
| Properties.LemmaDeleteKeepsWellFormed | backend/src/server.ts:101 | removing a record keeps ids distinct and names non-empty |
| Properties.LemmaDeleteThenGetNotFound | backend/src/server.ts:97-101 | with distinct ids, get-by-id after a delete of that id replies 404, whether or not the id was present |
| Properties.LemmaFilterAppend | backend/src/server.ts:111-113 | filtering a concatenation is the concatenation of the filtered parts, so store order is kept |
| Properties.LemmaSearchMembership | backend/src/server.ts:111-113 | a stored record is in a valid search's result exactly when the lower-cased query occurs in its lower-cased firstname |
| Properties.LemmaLifecycle | backend/src/server.ts:60-102 | create Bob Lee (40, married) gives 201 and a get returns him; updating age to 41 changes only the age; delete gives 204 and a later get gives 404 |
| Properties.LemmaSeedSearchJo | backend/src/server.ts:20-42 | on the seed store, searching "jo" returns only John Doe: the match is on the firstname alone |

## Left out

- Express and server plumbing (`express()`, `express.json()`, `cors()`, `app.listen`, the port setting): I/O and library calls.
- Route dispatch: the search route is registered after `/employees/:id`, so a real GET to `/employees/search` would be answered by get-by-id under first-match dispatch; that is library behaviour, so `Handlers.Search` is the handler body called directly.
- Id generation: `uuidv4()` is random; the new id (and the seed ids) are parameters, and freshness is a hypothesis of the lemmas that need it rather than something the model generates.
- Unicode case mapping: `toLowerCase` is modelled on ASCII letters only; other characters are left as they are.
- Untyped JSON: request fields are taken to have their declared types (string, number, boolean) when present; `null`, wrong-typed values, and a query parameter that Express parses as an array (the `typeof` test) are not modelled.
- Ages are integers; JavaScript's non-integer numbers and `NaN` are not modelled.
- Concurrency: none exists, the handlers run to completion on one event loop.
- The browser client (`frontend/app.js`) and the compiled copy `backend/dist/server.js`, which repeats the same handler logic.
