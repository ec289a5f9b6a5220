# express-brute-nedb: the expiring record store, in Dafny

This project models `nedbStore`, the nedb-backed store that express-brute uses to keep
its per-client counters. The store is a table of documents `{key, content, expires}`.
Each document is keyed by the store's `prefix` followed by the caller's key, and
`content` is the counter `{count, firstRequest, lastRequest}`. A document lives until
`expires`. Expiry is lazy: no timer purges a dead document. The next `get` or `set` of
that key finds it dead, deletes it and treats the key as absent. `set` reads the
document the same way, then inserts a new one or overwrites `content` and `expires` of
the live one. `reset` deletes the document, whether it is live or dead.

How the model is built:

- `store.dfy`, module `ExpressBruteNedb`, holds the data and the store itself.
  - The nedb collection is a `map` from the fully-qualified key to its document (`Table`).
  - The clock is the parameter `now`, in epoch milliseconds. The lifetime is whole seconds.
  - Which backend primitive (find, remove, or insert/update) reports an error during a
    call is the parameter `fault`. The caller receives that error unchanged.
  - Each operation has a pure step function (`GetRowStep`, `SetRowStep`, `RemoveRowStep`,
    `GetStep`). It gives the call's result and the collection after the call.
  - Class `NedbStore` holds the `prefix` and the collection in the field `db`. Its
    methods `Get`, `Set`, `Reset`, `GetRow`, `SetRow` and `RemoveRow` update `db` in
    place. Each method is proved equal to its step function. `Valid()` is the invariant
    that each document sits under its own key.
- `history.dfy`, module `StoreHistory`, runs a sequence of calls (`Replay`). By induction
  over that sequence it proves three things:
  - each call touches only its own key;
  - stores whose prefixes do not overlap cannot see each other's rows;
  - every stored row is exactly what some `set` wrote.
- `properties.dfy`, module `StoreProperties`, holds the per-call properties:
  - the `set`/`get` round trip;
  - expiry after the lifetime;
  - update in place;
  - idempotent `reset`;
  - the life cycle of one key: absent, live, lapsed (expired but still stored), absent.

Two points where the code gives weaker guarantees than one might expect. The model
follows the code in both:

- `lifetime` is not checked. A negative lifetime stores a document that is already dead,
  so, within the range of JavaScript dates, the round trip holds exactly when
  `lifetime >= 0` (`SetThenGet`). An expiry beyond that range is the exception noted
  under `IsExpired` in "## Left out".
- Keys are namespaced by plain string concatenation. Two stores over one collection stay
  apart only when neither prefix is a prefix of the other. With prefixes `a` and `ab`,
  key `bc` of the first store is key `c` of the second (`PrefixesCollide`).
  Each store built by the constructor opens its own nedb collection (lines 38-41), so
  this code never actually shares one collection between stores. The namespacing
  lemmas only describe how keys are qualified (lines 91, 122, 127, 143) over a single
  collection, taken as shared.

## Model

| member | source | states |
|---|---|---|
| `ExpressBruteNedb.RemoveRowStep` | lib/express-brute-nedb.js:142-144 | A successful remove leaves no document under the key and every other document as it was. Removing a missing key is not an error. A failed remove changes nothing and reports the backend's error. The invariant that rows sit under their own keys is kept. |
| `ExpressBruteNedb.GetRowStep` | lib/express-brute-nedb.js:90-108 | The lookup deletes at most the expired document under the key and nothing else. After a lookup without error, no dead document remains under the key. It reports a hit exactly when the find works and a live document exists (expiry is not strictly before `now`). The hit carries that document's key and content and leaves the collection unchanged. An error is reported exactly when the find fails or the purge of an expired document fails, carries the backend's error, and changes nothing. |
| `ExpressBruteNedb.GetStep` | lib/express-brute-nedb.js:69-75 | A missing key gives null and changes nothing. An expired document gives null and is removed whenever the find and the remove both succeed. A live document gives exactly its stored counter and changes nothing. A backend error reaches the caller and writes nothing. |
| `ExpressBruteNedb.SetRowStep` | lib/express-brute-nedb.js:117-135 | A failed lookup, whether the find fails or the purge of an expired document fails, writes nothing. A failed insert or update leaves only the purge of an expired document behind. The caller sees an error exactly when a primitive the call used failed. On success exactly one document sits under the key, holding the value and the expiry `now + lifetime*1000`. A live document keeps its key (update); otherwise the document gets the fully-qualified key (insert). No other key changes. |
| `ExpressBruteNedb.NedbStore.constructor` | lib/express-brute-nedb.js:21-48 | A new in-memory store has the given prefix and an empty collection. |
| `ExpressBruteNedb.NedbStore.RemoveRow` | lib/express-brute-nedb.js:142-144 | Deletes in place exactly as `RemoveRowStep` describes for `prefix + key`, and keeps `Valid()`. |
| `ExpressBruteNedb.NedbStore.GetRow` | lib/express-brute-nedb.js:90-108 | Looks up in place exactly as `GetRowStep` describes for `prefix + key`, purging through `RemoveRow`, and keeps `Valid()`. |
| `ExpressBruteNedb.NedbStore.SetRow` | lib/express-brute-nedb.js:117-135 | Reads through `GetRow`, then inserts or updates in place exactly as `SetRowStep` describes, and keeps `Valid()`. |
| `ExpressBruteNedb.NedbStore.Set` | lib/express-brute-nedb.js:61-63 | The public `set`: result and new collection as `SetRowStep` describes. |
| `ExpressBruteNedb.NedbStore.Get` | lib/express-brute-nedb.js:69-75 | The public `get`: null on miss or expiry, otherwise the stored counter; new collection as `GetStep` describes. |
| `ExpressBruteNedb.NedbStore.Reset` | lib/express-brute-nedb.js:81-83 | The public `reset`: removes unconditionally, as `RemoveRowStep` describes. |
| `StoreHistory.Apply` | lib/express-brute-nedb.js:61-83 | Any public call changes no document except the one under its own fully-qualified key. It keeps documents under their own keys. Every document after the call was there before, unchanged, or is exactly what this `set` wrote. |
| `StoreHistory.Replay` | lib/express-brute-nedb.js:61-83 | Any sequence of calls keeps every document's own `key` field equal to the key it is filed under, which the update branch relies on to keep the key unchanged. |
| `StoreHistory.ReplayUntouched` | lib/express-brute-nedb.js:91-95 | A key that no call of a run names keeps its document, or its absence, exactly. |
| `StoreHistory.PrefixesSeparate` | lib/express-brute-nedb.js:91 | When neither prefix is a prefix of the other, no two caller keys give the same fully-qualified key. |
| `StoreHistory.PrefixesCollide` | lib/express-brute-nedb.js:122 | When one prefix is a prefix of the other, some caller keys of the two stores coincide. |
| `StoreHistory.NamespaceIsolation` | lib/express-brute-nedb.js:91 | With namespaced prefixes over one collection, no run of calls on the first store changes what a `get` on the second store answers, or whether its document exists. |
| `StoreHistory.ReplayProvenance` | lib/express-brute-nedb.js:120-132 | Every document after a run was there at the start, untouched, or was written by some `set` of the run. Its content is that call's value and its expiry is that call's `now + lifetime*1000`. |
| `StoreHistory.FromEmptyEveryRowWasSet` | lib/express-brute-nedb.js:120-132 | Starting from an empty collection, every stored document is exactly what some `set` of the run wrote. |
| `StoreProperties.SetThenGet` | lib/express-brute-nedb.js:120-132 | A `set` that succeeds, followed by a `get` at the same instant, returns exactly the stored value and changes nothing, if and only if the lifetime is not negative. |
| `StoreProperties.SetThenGetLater` | lib/express-brute-nedb.js:94-95 | After a `set`, `get` returns the value until `now + lifetime*1000` inclusive, because the expiry test is strict. Later, `get` returns null and the document is gone, with all other keys as before the `set`. |
| `StoreProperties.SetTwiceUpdatesInPlace` | lib/express-brute-nedb.js:126-132 | A second `set` while the row is live, with any lifetime of its own, overwrites only its content and expiry under the same key. The collection does not grow. A `get` at that instant returns the new value exactly when the second lifetime is not negative. |
| `StoreProperties.ResetAbsent` | lib/express-brute-nedb.js:142-143 | `reset` of a missing key succeeds and changes nothing. |
| `StoreProperties.ResetIdempotent` | lib/express-brute-nedb.js:81-83 | Two `reset`s equal one, and both succeed. |
| `StoreProperties.ResetThenGet` | lib/express-brute-nedb.js:81-83 | After `reset`, `get` of the key returns null, whatever was stored. |
| `StoreProperties.KeyLifecycle` | lib/express-brute-nedb.js:90-144 | `get` turns a lapsed key absent and leaves absent and live keys alone. `set` with a non-negative lifetime makes the key live. `reset` makes it absent. A lapsed key stays lapsed as time advances. |

## Left out

- The nedb engine: file persistence, `autoload` and the autocompaction interval (lines 38-42). The collection is a map with find, insert, update and remove. The constructor models the in-memory store, so its collection starts empty. A file-backed store starts with the file's contents, which are not modelled.
- Callbacks and asynchrony: every call is one atomic step. The read-modify-write race between overlapping `set` calls on one key is not represented. That race can give two documents for one key, or a lost update. Sequential calls never insert when a document exists, so a map from key to document is faithful for them. Overlapping calls are outside the model.
- JSON `stringify`/`parse` and `Date`: content is stored as a record and timestamps are integer milliseconds, so the round trip through the string form is the identity. A malformed stored payload (`JSON.parse` throwing) is not modelled.
- The normalised row built by the row lookup has an `expires` field. It is copied from the parsed content (line 105), not from the document, and the content carries no such field. Nothing reads it (`get` returns only the content), so `Found` leaves it out.
- The clock: each call runs at a single instant `now`. In the source, `set` reads the clock once in the expiry test (line 94) and again when it computes the new expiry (lines 124, 130).
- IsExpired: the model compares integers. In the source, line 94 compares `Date` objects, and a `Date` built from a value outside ±8.64e15 ms is invalid (NaN). The test is then false, so such a row never expires and `get` returns its content. A very negative lifetime can produce such an expiry, for example `set(k, v, -1e13)`. The model treats that row as expired and answers null.
- Fractional lifetimes and the floating-point width of JavaScript numbers: lifetimes are whole seconds and all numbers are unbounded integers.
- Backend errors are one opaque `BackendError`. A call has at most one failing primitive, and a failing primitive is assumed to change nothing.
- nedb's `remove` and `update` act on one matching document by default. With one document per key that is the same as acting on all of them.
- The `debug` function, the `noop` default callbacks and the base class `AbstractClientStore` (lines 7, 12, 47) are pass-through or belong to another library.
