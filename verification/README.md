# Identity resolution: the `/identify` handler

This project models the `/identify` endpoint of a small contact-reconciliation
service. The endpoint receives an optional email and an optional phone number.
It looks for a *primary* contact that matches them. If it finds none, it
creates a new primary. It then answers with:

- the primary's id;
- the ids of the secondary contacts linked to that primary;
- the de-duplicated, non-empty emails and phone numbers, taken from the
  primary first and then from the request.

The Prisma-backed `Contact` table becomes an in-memory `seq<Contact>` kept in
insertion order, together with the next autoincrement id. The handler becomes
a pure function `Identify.Handle(store, request, faults)`. It returns the new
store and the response body. `faults` is the set of store calls that throw.

Files:

- `optional.dfy`: `Option` for absent values (JavaScript `undefined`, SQL
  `NULL`) and JavaScript truthiness of an optional string.
- `lists.dfy`: `.filter(Boolean)` (`Compact`) and `Array.from(new Set(xs))`
  (`Dedup`), with first-seen order.
- `contact_store.dfy`: the `Contact` row, the store and its validity
  invariant. It also holds the three store calls: `findFirst` on primaries,
  `create`, and `findMany` of secondaries.
- `identify.dfy`: the request and response shapes, the lookup, the
  create-if-absent step, the response assembly and the handler with its
  failure path.
- `identify_properties.dfy`: properties relating several calls, and the
  handler's behaviour on concrete requests.

Assumptions the model makes explicit:

- **Absent phone in the email lookup.** When the email is truthy, the lookup
  filter is `OR: [{ email }, { phoneNumber }]`. The model treats an absent
  phone as contributing no disjunct, so only the email is matched. A present
  but empty phone (`""`) is matched by equality, like any other string.
- **Which primary `findFirst` returns.** The model returns the earliest
  matching row in store order. Its contract promises only what Prisma
  promises: some matching primary, or none exactly when no primary matches.
- **New ids.** `create` takes the store's next autoincrement id and then
  bumps it.
- **The zero fallback.** `primaryContact?.id || 0` yields `id` for every
  numeric id, so the response carries the primary's id. It is positive
  whenever the store is `Valid`: the autoincrement ids are positive,
  distinct and below the next id to be issued.

## Model

| member | source | states |
|---|---|---|
| `Lists.Compact` | src/server.ts:77 | `.filter(Boolean)` keeps exactly the present, non-empty strings of the list. A truthy first entry stays first, and the result is never longer than the input. |
| `Lists.CompactSingleton` | src/server.ts:77 | `.filter(Boolean)` of one entry is its value when that value is present and non-empty, and nothing otherwise. |
| `Lists.CompactAppend` | src/server.ts:77 | `.filter(Boolean)` of a concatenation is the concatenation of the filtered parts. With the singleton case, this makes the result exactly the truthy entries' values, in input order, with repeats kept. |
| `Lists.Dedup` | src/server.ts:75-79 | `Array.from(new Set(xs))` has no repeated value and holds exactly the values of `xs`. It is never longer than `xs` and starts with `xs[0]`. |
| `Lists.DedupKeepsFirstSeenOrder` | src/server.ts:75-79 | Values of the de-duplicated list appear in the order of their first occurrence in the input. |
| `ContactStore.FindFirstPrimary` | src/server.ts:39-51 | `findFirst` with `linkPrecedence: primary` returns a row of the store that is a primary and satisfies the filter. It returns nothing exactly when no such row exists. |
| `ContactStore.CreatePrimary` | src/server.ts:55-61 | `create` appends exactly one row: a primary with no link, holding exactly the given email and phone. In a valid store its id is positive and unused, and the store stays valid. |
| `ContactStore.SecondaryIds` | src/server.ts:65-72 | As a set, the ids returned are exactly those of the rows that are secondaries linked to the given primary id. |
| `ContactStore.SecondaryIdsDistinct` | src/server.ts:65-72 | When row ids are distinct, no secondary id is reported twice. |
| `Identify.Lookup` | src/server.ts:38-52 | The lookup returns only primaries. With a truthy email it matches on email or phone; otherwise, with a truthy phone, on phone only; otherwise it matches nothing. It finds nothing exactly when no row meets that condition. |
| `Identify.Resolve` | src/server.ts:38-62 | If a matching primary exists, the store is unchanged and the result is a matching primary. Otherwise exactly one primary holding the requested email and phone is appended; in a valid store its id is fresh and positive, and the store stays valid. |
| `Identify.UniqueValues` | src/server.ts:75-87 | A response value list has no duplicates, no empty or absent entries, and at most two elements. The primary's truthy value comes first, and the truthy requested value is included. Nothing else appears. |
| `Identify.Assemble` | src/server.ts:64-96 | The success body carries the primary's id. Its secondary ids are, as a set, exactly the secondaries linked to that primary. Its emails and phone numbers meet the list bounds, with the primary's value first and the requested value included. No other value appears in either list. |
| `Identify.Handle` | src/server.ts:32-109 | The error body (`primaryContactId = 0`, three empty arrays, `error = "Internal server error"`) is returned exactly when a store call that the handler makes throws: the lookup (made only for a truthy email or phone), the create (made only when the lookup found nothing), or the secondary query. Nothing else yields it. A success answers with the body assembled for the resolved primary over the resolved store, so every `Identify.Assemble` guarantee holds of it. Its id is positive in a valid store. The store is either unchanged or the resolved store, and a valid store stays valid. |
| `IdentifyProperties.UniqueValuesMatchesExpected` | src/server.ts:75-87 | Each value list equals the independent definition: the primary's truthy value, then the requested truthy value if it differs. |
| `IdentifyProperties.HandleIdempotent` | src/server.ts:38-96 | A request with a truthy email or phone, sent again against the store it produced, writes nothing and returns the identical outcome. The identical primary relies on the model's deterministic `findFirst` (see "Which primary `findFirst` returns"); Prisma itself promises no row order when several primaries match. |
| `IdentifyProperties.EmptyRequestAlwaysCreates` | src/server.ts:38-62 | A request with neither a truthy email nor a truthy phone always appends a new primary. It answers with that primary's id and empty email and phone lists. |
| `IdentifyProperties.LateFailureKeepsCreatedPrimary` | src/server.ts:54-109 | If the lookup and any create succeed and the secondary query then throws, the response is the zeroed error body while the resolved store is kept; when nothing matched, the newly created primary stays in the store. |
| `IdentifyProperties.UnreachedCallsCannotFail` | src/server.ts:38-73 | When every store call the handler makes succeeds, faults on calls it does not make leave the outcome as with no faults at all. |
| `IdentifyProperties.EarlyFailureWritesNothing` | src/server.ts:34-62 | If the lookup throws, or the create throws after an empty lookup, the store is unchanged and the response is the zeroed error body. |
| `IdentifyProperties.SecondaryIdsReportedOnce` | src/server.ts:64-73 | In a valid store, no id repeats in `secondaryContactIds`. |
| `IdentifyProperties.FirstRequestCreatesPrimary` | src/server.ts:54-96 | Against an empty table, `a@x`/`1` creates primary 1 and answers `{1, [a@x], [1], []}`. |
| `IdentifyProperties.KnownEmailWritesNothing` | src/server.ts:38-96 | When the truthy email matches an existing primary, nothing is written, whatever the phone. Each value list is the found primary's truthy value, then the requested truthy value if it differs; a new phone is listed after the primary's own phone. |
| `IdentifyProperties.NewPhoneForKnownEmailWritesNothing` | src/server.ts:38-96 | Example: on a table holding only primary 1 (`a@x`, `1`), the request `a@x`/`2` writes nothing and answers `{1, [a@x], [1, 2], []}`. |

## Where the code differs from full identity reconciliation

The service is meant to reconcile identities. That means:

- creating a secondary contact when a request brings a new email or phone;
- merging two primaries that one request links together;
- rejecting a request that has neither field;
- running each request in one transaction.

The handler does none of this, and the model follows the handler:

- It never creates a secondary contact (`KnownEmailWritesNothing`).
- It never merges or demotes primaries.
- It never matches secondary contacts during the lookup.
- A request with neither a truthy email nor a truthy phone creates a fresh
  primary each time, holding the request's falsy fields as given: absent or
  `""` (`EmptyRequestAlwaysCreates`).
- A failure after the create leaves the new row in place
  (`LateFailureKeepsCreatedPrimary`).

## Left out

- HTTP transport: Express routing, body parsing, status codes 200/500,
  `app.listen`, the `PORT` setting and console logging (src/server.ts:1-9,
  98, 100, 114-116). These are I/O around the handler. The status code
  follows from whether `error` is present.
- Prisma internals: how `findFirst`, `findMany` and `create` run. They are
  modelled as operations on the in-memory sequence. Prisma's handling of an
  `undefined` field inside `OR` is replaced by the stated assumption.
- Which exceptions occur: every store call may throw, chosen by the `faults`
  parameter. The model does not say why a call throws.
- Concurrency: the read-then-create sequence is not atomic. Interleavings of
  concurrent requests are outside this sequential model.
- Result order of `findMany`: Prisma gives none. `ContactStore.SecondaryIds`
  and `Identify.Assemble` state the secondary ids as a set only.
- Timestamps and soft deletion (`createdAt`, `updatedAt`, `deletedAt`): the
  handler never reads them.
- Request fields of a non-string JSON type: the request is taken to hold
  optional strings, as its declared interface says.
