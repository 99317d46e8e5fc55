# OAuth2 client state store

This project models the in-memory state store of an OAuth2 client. The store
guards the Authorization Code flow against cross-site request forgery. It maps
an opaque state token to the URL the user originally asked for. It offers two
operations:

- `Save(state, originalUrl)` binds a state. If the state is already bound, it
  refuses and reports an error instead of overwriting.
- `Load(state)` is a read-only lookup. It returns the bound URL and `true`,
  or the empty string and `false`.

The model has two modules.

- `StateStorage` (`state_storage.dfy`) holds the class
  `InMemoryStateStorage`. The class has a `storage: map<string, string>`
  field, the constructor, and the `Load` and `Save` methods. Each method is
  proved against a pure function. `Lookup` specifies `Load`, and `Insert`
  specifies `Save`. `Save` reports `Ok` or `AlreadyExists`.
- `CallHistory` (`call_history.dfy`) covers the read/write lock. The lock
  makes each call one atomic step, so any run of concurrent requests behaves
  like some sequence of calls. `After` and `History` give the table and the
  replies of such a sequence. They are built from the same `Lookup` and
  `Insert`. `FirstSave` is an independent reference definition: the URL of
  the earliest `Save` of a state. The lemmas prove that the store behaves like
  this reference on every run.

The specification of the system describes more than the code does. It
describes a `Consume` that looks up and deletes in one step, expiry of old
entries, and a callback validator. The code has none of these. Its `Load`
does not remove the entry, and its callback handler is empty. The model
follows the code, so it has no consume, delete or expiry operation.

## Model

| member | source | states |
|---|---|---|
| `StateStorage.InMemoryStateStorage.constructor` | client/oauth2/state_storage.go:18-20 | A new store holds no binding. |
| `StateStorage.InMemoryStateStorage.Load` | client/oauth2/state_storage.go:22-27 | `ok` is true exactly when `state` is bound. Then `val` is the bound URL. Otherwise `val` is `""` (Go's zero value). The method changes nothing (it has no modifies clause). |
| `StateStorage.InMemoryStateStorage.Save` | client/oauth2/state_storage.go:29-37 | The new table and the result are those `Insert` gives for the old table. The result is `AlreadyExists` exactly when `state` was already bound, and then the table is unchanged. Otherwise the table is the old one with `state` bound to `originalUrl`. |
| `StateStorage.Insert` | client/oauth2/state_storage.go:32-35 | The result is `AlreadyExists` exactly when the state is already present, and then the map is identical. On `Ok` the key set grows by exactly `{state}` and `state` maps to the new URL. Every other key keeps its binding, and no binding is lost. |
| `CallHistory.AfterIsFirstSave` | client/oauth2/state_storage.go:22-37 | After any sequence of atomic calls, each state is bound to its initial binding, else to the URL of its first `Save`. A state with neither is unbound, so later `Save`s never overwrite. |
| `CallHistory.LoadSeesFirstSave` | client/oauth2/state_storage.go:22-37 | In any run, a `Load` answers with the URL of its state's initial binding or first earlier `Save`, and `true`. It answers `("", false)` when there is neither. |
| `CallHistory.SaveFailsIffAlreadySaved` | client/oauth2/state_storage.go:29-37 | In any run, a `Save` returns `AlreadyExists` exactly when its state was bound initially or by an earlier `Save`. Otherwise it returns `Ok`. |
| `CallHistory.AtMostOneSaveSucceeds` | client/oauth2/state_storage.go:29-37 | Of several `Save`s of one state in a run, at most one returns `Ok`. Every `Save` of that state after it returns `AlreadyExists`. |
| `CallHistory.BindingsAreFinal` | client/oauth2/state_storage.go:32-35 | No run changes or removes an existing binding. |
| `CallHistory.KeysGrowBySavedStates` | client/oauth2/state_storage.go:32-35 | After a run, the bound states are exactly the initially bound ones plus every state some `Save` presented. |
| `CallHistory.FreshStoreKeepsUnsavedUnbound` | client/oauth2/state_storage.go:18-27 | On a new store, a state that no `Save` in the run presented stays unbound, so `Load` gives `("", false)`. |
| `CallHistory.RepeatedLoadAgrees` | client/oauth2/state_storage.go:22-27 | Two `Load`s of the same state in a row give the same answer. |

## Left out

- Locking: the `sync.RWMutex` (client/oauth2/state_storage.go:14, 23-24, 30-31) is not modelled as a lock. It is modelled by what it guarantees: each `Load` and `Save` is one atomic step, and a concurrent run is a sequence of such steps (`CallHistory`).
- Error text: the message built at client/oauth2/state_storage.go:33 is not modelled. `Save` returns the `AlreadyExists` variant instead. The message has a `%s` verb with no argument, so it never contains the state.
- The `StateStorage` interface (client/oauth2/state_storage.go:8-11) is left out. Its signatures do not match the struct's methods, and nothing implements it.
- A zero-value `InMemoryStateStorage` has a nil map, and `Save` on it would panic. The model only builds stores through the constructor, which is what `NewInMemoryStateStorage` does.
- `NewState` in client/oauth2/state.go is left out. It reads `crypto/rand` and base64-encodes the bytes, so it depends on randomness and foreign code. State tokens are arbitrary strings in the model.
- client/main.go is left out. That covers server setup, shutdown, logging, templates and the `golang.org/x/oauth2` redirect URL. `handleLogin` does not use the store, and `handleCallback` is empty.
- client/api/client.go is left out. It is a JSON-over-HTTP wrapper, which is network I/O.
- Go strings are byte strings. The model uses Dafny's `string`, because the store only compares and copies them.
