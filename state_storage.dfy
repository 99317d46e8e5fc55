/**
  The in-memory OAuth2 state store of the client: a table from an opaque
  state token (the CSRF token sent to the authorization server) to the URL
  the user originally asked for.

  The functions Lookup and Insert say what one Load and one Save do to the
  table; the class InMemoryStateStorage holds the table in a mutable field
  and its methods are proved against those two functions. Each method is one
  atomic step: the read/write lock of the original only serves to make that
  so under concurrent requests.
 */
module StateStorage {

  /** The outcome of Save: the binding was made, or the state was already bound. */
  datatype SaveResult = Ok | AlreadyExists

  /** What Load answers on table `m`: the bound URL and `true`, or the
      zero value `""` of a string and `false` when `state` is unbound. */
  function Lookup(m: map<string, string>, state: string): (string, bool)
  {
    if state in m then (m[state], true) else ("", false)
  }

  /** The table after Save(state, originalUrl) on table `m`, with Save's result.
      An existing binding is never overwritten. */
  function Insert(m: map<string, string>, state: string, originalUrl: string): (r: (map<string, string>, SaveResult))
    ensures r.1 == AlreadyExists <==> state in m
    ensures r.1 == AlreadyExists ==> r.0 == m
    ensures r.1 == Ok ==> r.0.Keys == m.Keys + {state} && r.0[state] == originalUrl
    ensures forall k :: k in m ==> k in r.0 && r.0[k] == m[k]
    ensures forall k :: k in r.0 && k != state ==> k in m && r.0[k] == m[k]
  {
    if state in m then (m, AlreadyExists) else (m[state := originalUrl], Ok)
  }

  class InMemoryStateStorage {
    var storage: map<string, string>

    /** A new store holds no binding. */
    constructor ()
      ensures storage == map[]
    {
      storage := map[];
    }

    /** Reads the binding of `state`; the table is not changed (no modifies clause). */
    method Load(state: string) returns (val: string, ok: bool)
      ensures (val, ok) == Lookup(storage, state)
      ensures ok <==> state in storage
      ensures ok ==> val == storage[state]
      ensures !ok ==> val == ""
    {
      if state in storage {
        val, ok := storage[state], true;
      } else {
        val, ok := "", false;
      }
    }

    /** Binds `state` to `originalUrl` unless `state` is already bound, in which
        case it reports AlreadyExists and leaves the table as it was. */
    method Save(state: string, originalUrl: string) returns (result: SaveResult)
      modifies this
      ensures (storage, result) == Insert(old(storage), state, originalUrl)
      ensures result == AlreadyExists <==> state in old(storage)
      ensures result == AlreadyExists ==> storage == old(storage)
      ensures result == Ok ==> storage == old(storage)[state := originalUrl]
    {
      if state in storage {
        return AlreadyExists;
      }
      storage := storage[state := originalUrl];
      result := Ok;
    }
  }
}
