# Contact store model

A Dafny model of the data layer of a React Router tutorial application: the
contact store in `src/contacts.js`. The store keeps one persisted entry,
`"contacts"`, that is either absent or the whole ordered list of contacts,
and one process-wide object, `fakeCache`, that the simulated-latency gate
`fakeNetwork` uses to remember which keys it has already delayed.

Each exported async function is modelled as a pure transition
`State -> Step<T>`: the state is the persisted list (`Option<seq<Contact>>`)
together with the gate's cache (`set<string>`), and the step carries the
state after the call and what the call resolves to, or, as a `Result`
failure, what it throws.

- `wrappers.dfy` — `Option` and `Result`.
- `contact.dfy` — a contact as a map from property name to `Str | Num | Bool`,
  the record `createContact` builds, and `Object.assign`.
- `sort_by.dfy` — `contacts.sort(sortBy("last", "createdAt"))` as a stable
  insertion sort under a total preorder on (`last`, `createdAt`).
- `fake_network.dfy` — the latency gate and its cache.
- `contact_store.dfy` — `getContacts`, `createContact`, `getContact`,
  `updateContact`, `deleteContact` and `set`.
- `store_properties.dfy` — properties that relate several calls: read after
  write, delete after create, read twice, the unique-id invariant, and a
  worked create/edit/search/delete scenario.

Points where the code's behaviour is easy to misread, and which the model follows:

- `getContact`, `updateContact` and `deleteContact` do not treat a missing
  list as empty. They call `.find`/`.findIndex` on `null` and throw, so they
  fail with `NullStore`. Only `getContacts` defaults to the empty list.
- `createContact` and `updateContact` call the gate with no key. That empties
  the cache and then remembers the key `"undefined"`; there is no
  create-specific constant key.
- The listing's gate key is the template literal `` `getContacts:${query}` ``,
  so a missing query gives `"getContacts:undefined"` and the router's `null`
  query gives `"getContacts:null"`.
- `updateContact` merges with `Object.assign`, so an update can overwrite
  `id` and `createdAt`. The model claims no id immutability; its read-back
  lemmas assume the update does not name `id`.
- `createContact` reads the old list through `getContacts()`, which sorts
  it. The persisted list after a create is the new record followed by the
  old records in (`last`, `createdAt`) order.

## Model

| member | source | states |
|---|---|---|
| Contact.NewContact | src/contacts.js:35-37 | the new record has exactly the properties `id` and `createdAt`, carrying the generated id and the supplied time |
| Contact.Assign | src/contacts.js:78 | the shallow merge has the union of both key sets; keys of the update win, and every other key of the record keeps its value |
| Contact.AssignIdempotent | src/contacts.js:78 | merging the same updates a second time changes nothing |
| Contact.AssignId | src/contacts.js:78 | a merge that omits `id` leaves the record's identity alone; one that names `id` moves the record to that id |
| SortBy.KeyLeTotalPreorder | src/contacts.js:27 | the (`last`, `createdAt`) comparator is reflexive, total and transitive, and two records tie exactly when both keys are equal |
| SortBy.SortPermutes | src/contacts.js:27 | sorting keeps exactly the records it is given, with their multiplicities |
| SortBy.SortSorted | src/contacts.js:27 | the sorted list is ascending by `last`, then by `createdAt` |
| SortBy.SortStable | src/contacts.js:27 | records that tie keep their original relative order |
| SortBy.SortOfSorted | src/contacts.js:27 | a list already in order is left as it is |
| SortBy.SortIdempotent | src/contacts.js:27 | sorting twice gives what sorting once gives |
| FakeNetwork.Gate | src/contacts.js:113-133 | a falsy key empties the cache first; a remembered truthy key resolves immediately and leaves the cache alone; a new key is remembered and delayed; afterwards the key's string form is always remembered |
| FakeNetwork.GateRepeat | src/contacts.js:122-127 | the second call with the same truthy key is immediate and leaves the cache as the first call left it |
| FakeNetwork.GateReset | src/contacts.js:117-119 | a call with no key forgets every earlier key and remembers only `"undefined"` |
| FakeNetwork.GateGrows | src/contacts.js:122-127 | a truthy key never removes a key from the cache and adds at most itself |
| ContactStore.FindIndex | src/contacts.js:93 | -1 exactly when no record has the id; otherwise the position of the first record that has it |
| ContactStore.Find | src/contacts.js:58 | no value exactly when no record has the id; otherwise the first record that has it |
| ContactStore.Set | src/contacts.js:107-109 | writing the list replaces the stored entry with that list and leaves the gate's cache alone |
| ContactStore.GetContacts | src/contacts.js:14-28 | storage is never written; the gate sees `getContacts:` plus the query's string form; the result is sorted; for a falsy query it is a stable permutation of the stored list, empty when nothing is stored; for a truthy query it is a permutation of what the search returned, with tied records in the search's order |
| ContactStore.CreateContact | src/contacts.js:31-48 | the new record has only `id` and `createdAt`; the stored list grows by one, starts with the new record, and continues with the old records in sorted order; the cache ends as `{"undefined", "getContacts:undefined"}` |
| ContactStore.GetContact | src/contacts.js:51-62 | storage is unchanged; throws exactly when nothing is stored; otherwise returns no value exactly when no record has the id, and else the first record that has it |
| ContactStore.UpdateContact | src/contacts.js:65-85 | throws without writing exactly when nothing is stored or no record has the id; otherwise it succeeds, only the first matching record changes, to its merge with the updates, the merged record is returned, and the cache ends as `{"undefined"}` |
| ContactStore.DeleteContact | src/contacts.js:88-104 | the cache is untouched; throws when nothing is stored; resolves to true exactly when some record has the id, and then only the first such record is removed with the rest in order; on false nothing is written |
| StoreProperties.SearchListsSubset | src/contacts.js:22-24 | when the search only drops records, a listing is a permutation of a subset of the stored records, and empty when nothing is stored |
| StoreProperties.CreateThenGet | src/contacts.js:40-41 | right after a create, reading the new id returns exactly the new record, even if an older record had the same id |
| StoreProperties.CreateThenDelete | src/contacts.js:40-44 | deleting the id just created succeeds and leaves the old records in sorted order, which is the inverse of create up to its sort |
| StoreProperties.CreateThenDeleteSorted | src/contacts.js:40-44 | on a list already in order, create followed by delete restores the store exactly |
| StoreProperties.GetTwice | src/contacts.js:52-61 | reading the same id twice gives the same answer, and the second read changes nothing, not even the cache |
| StoreProperties.UpdateThenGet | src/contacts.js:72-84 | when a stored record has the id, an update that does not name `id` succeeds, and reading the id then returns the record the update returned |
| StoreProperties.UpdateTwice | src/contacts.js:72-84 | when a stored record has the id, repeating an update that does not name `id` succeeds again, changes nothing and returns the same record |
| StoreProperties.FavoriteUpdate | src/routes/contact.jsx:26-28 | the favourite toggle sets `favorite` to true and keeps every other property of the record |
| StoreProperties.DeleteThenGet | src/contacts.js:93-99 | with unique ids, a deleted contact can no longer be read |
| StoreProperties.DeleteKeepsUnique | src/contacts.js:96-98 | deleting keeps ids unique |
| StoreProperties.UpdateKeepsUnique | src/contacts.js:78-81 | an update that does not name `id` keeps ids unique |
| StoreProperties.CreateKeepsUnique | src/contacts.js:37-44 | creating under an id that no record has keeps ids unique |
| StoreProperties.SortKeepsUnique | src/contacts.js:27 | sorting keeps ids unique |
| StoreProperties.Scenario | src/contacts.js:31-104 | on an empty store: create gives `{id: "x1", createdAt: 1000}`, naming it gives the merged record, a search that matches it lists just it, deleting it resolves to true, and the listing is then empty |

## Left out

- Persistence: `localforage` is one in-memory `Option<seq<Contact>>`. Its failures are not modelled, and neither is its serialisation. Reads are modelled as copies, so sorting a listing never reaches storage.
- `matchSorter`: a foreign fuzzy-ranking library. It is the caller-supplied `Search` function; the model proves only what holds for any search, or for any search that only drops records.
- The comparator: `sort-by` compares raw property values with `<` and `>`. Its handling of missing or mixed-type values is not a total preorder. The model compares a missing or non-text `last` as `""` and a missing or non-numeric `createdAt` as `0`, and compares text by Unicode scalar value. That differs from JavaScript's code-unit order only when a character above U+FFFF meets one in U+E000..U+FFFF, since JavaScript compares the first half of the surrogate pair.
- `Math.random` id generation and `Date.now()`: both are parameters of `CreateContact`. The seven-character base-36 shape of the id is not modelled. Timestamps are unbounded integers, not doubles.
- The delay of `fakeNetwork`: only whether there is one is modelled, not its random length or the `setTimeout` promise.
- Keys that name `Object.prototype` members (such as `"constructor"`) read as already cached in `fakeCache`; the model ignores that. No call site can produce such a key, because every key has a prefix or is absent.
- Async interleaving of concurrent calls and the lost updates it allows: the model runs each call to completion in turn.
- The text of the error thrown for an unknown id: it is only `NotFound(id)`. The source passes `id` as a second argument to `Error`, so the id never reaches the message.
- Property values other than text, numbers and booleans (`undefined`, objects): form data and the favourite toggle produce only these.
- The React views and router wiring under `src/routes/` and `src/main.jsx`.
