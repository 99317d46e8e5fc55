/**
  Runs of the state store under concurrent requests. The store's lock makes
  every Load and Save one atomic step, so any run of concurrent handlers is
  the same as some sequence of calls, each seeing the table that all earlier
  calls left behind. This module states that sequence semantics with the
  step functions of StateStorage and proves what the store promises over
  whole runs: the first Save of a state wins, later Saves of it fail and
  change nothing, no binding is ever changed or removed, and Load answers
  with the URL of that first Save.
 */
module CallHistory {
  import opened StateStorage

  datatype Option<T> = None | Some(value: T)

  /** One call on the store. */
  datatype Call = Load(state: string) | Save(state: string, originalUrl: string)

  /** What a call returns. */
  datatype Reply = Loaded(val: string, ok: bool) | Saved(result: SaveResult)

  /** One atomic call on table `m`: the table afterwards and the reply. */
  function Step(m: map<string, string>, c: Call): (map<string, string>, Reply)
  {
    match c
    case Load(s) =>
      var (v, ok) := Lookup(m, s);
      (m, Loaded(v, ok))
    case Save(s, u) =>
      var (m', r) := Insert(m, s, u);
      (m', Saved(r))
  }

  /** The table after running `calls` in order, starting from `m`. */
  function After(m: map<string, string>, calls: seq<Call>): map<string, string>
    decreases |calls|
  {
    if calls == [] then m
    else Step(After(m, calls[..|calls| - 1]), calls[|calls| - 1]).0
  }

  /** The reply of each call: call i sees the table left by calls[..i]. */
  function History(m: map<string, string>, calls: seq<Call>): (r: seq<Reply>)
    ensures |r| == |calls|
  {
    seq(|calls|, i requires 0 <= i < |calls| => Step(After(m, calls[..i]), calls[i]).1)
  }

  /** The URL of the earliest Save of `s` among `calls`, if there is one.
      This definition does not mention the table at all. */
  function FirstSave(calls: seq<Call>, s: string): Option<string>
    decreases |calls|
  {
    if calls == [] then None
    else
      var earlier := FirstSave(calls[..|calls| - 1], s);
      var last := calls[|calls| - 1];
      if earlier.Some? then earlier
      else if last.Save? && last.state == s then Some(last.originalUrl)
      else None
  }

  /** The states presented to some Save among `calls`. */
  function SavedStates(calls: seq<Call>): set<string>
  {
    set i | 0 <= i < |calls| && calls[i].Save? :: calls[i].state
  }

  /** The binding of `s` that the store should hold after `calls` on `m`:
      the one `m` already had, otherwise the first one saved. */
  function Expected(m: map<string, string>, calls: seq<Call>, s: string): (string, bool)
  {
    if s in m then (m[s], true)
    else match FirstSave(calls, s)
      case Some(u) => (u, true)
      case None => ("", false)
  }

  /** A Save of `s` anywhere in `calls` makes FirstSave(calls, s) defined. */
  lemma {:induction false} FirstSaveFound(calls: seq<Call>, s: string, i: nat)
    requires i < |calls| && calls[i].Save? && calls[i].state == s
    ensures FirstSave(calls, s).Some?
    decreases |calls|
  {
    var n := |calls|;
    if i < n - 1 {
      assert calls[..n - 1][i] == calls[i];
      FirstSaveFound(calls[..n - 1], s, i);
    }
  }

  /** The table after any run agrees, key by key, with Expected: a state is
      bound to the URL of its first Save (or to its initial binding), and is
      unbound when no Save of it ever ran. */
  lemma {:induction false} AfterIsFirstSave(m: map<string, string>, calls: seq<Call>, s: string)
    ensures Lookup(After(m, calls), s) == Expected(m, calls, s)
    decreases |calls|
  {
    if calls != [] {
      var n := |calls|;
      var prefix, last := calls[..n - 1], calls[n - 1];
      AfterIsFirstSave(m, prefix, s);
      var before := After(m, prefix);
      assert After(m, calls) == Step(before, last).0;
      match last
      case Load(_) =>
      case Save(s', u) =>
        if s' == s && s !in before {
          assert s !in m && FirstSave(prefix, s) == None;
        }
    }
  }

  /** On a fresh store, a run in which `s` is never saved leaves `s` unbound. */
  lemma {:induction false} FreshStoreKeepsUnsavedUnbound(calls: seq<Call>, s: string)
    requires forall i :: 0 <= i < |calls| ==> !(calls[i].Save? && calls[i].state == s)
    ensures Lookup(After(map[], calls), s) == ("", false)
  {
    AfterIsFirstSave(map[], calls, s);
    if FirstSave(calls, s).Some? {
      FirstSaveDefinedHasSave(calls, s);
    }
  }

  /** FirstSave is only defined when some Save of `s` occurs in `calls`. */
  lemma {:induction false} FirstSaveDefinedHasSave(calls: seq<Call>, s: string)
    requires FirstSave(calls, s).Some?
    ensures exists i :: 0 <= i < |calls| && calls[i] == Save(s, FirstSave(calls, s).value)
    decreases |calls|
  {
    var n := |calls|;
    var prefix := calls[..n - 1];
    if FirstSave(prefix, s).Some? {
      FirstSaveDefinedHasSave(prefix, s);
      var i :| 0 <= i < |prefix| && prefix[i] == Save(s, FirstSave(prefix, s).value);
      assert calls[i] == prefix[i];
    } else {
      assert calls[n - 1] == Save(s, FirstSave(calls, s).value);
    }
  }

  /** A Load in any run answers with the URL of the first earlier Save of its
      state (or the initial binding), and with ("", false) when there is none. */
  lemma {:induction false} LoadSeesFirstSave(m: map<string, string>, calls: seq<Call>, i: nat)
    requires i < |calls| && calls[i].Load?
    ensures History(m, calls)[i] == Loaded(Expected(m, calls[..i], calls[i].state).0, Expected(m, calls[..i], calls[i].state).1)
  {
    AfterIsFirstSave(m, calls[..i], calls[i].state);
  }

  /** A Save in any run fails exactly when its state was bound initially or
      saved by an earlier call. */
  lemma {:induction false} SaveFailsIffAlreadySaved(m: map<string, string>, calls: seq<Call>, i: nat)
    requires i < |calls| && calls[i].Save?
    ensures History(m, calls)[i] == Saved(AlreadyExists) <==> Expected(m, calls[..i], calls[i].state).1
    ensures History(m, calls)[i] == Saved(Ok) <==> !Expected(m, calls[..i], calls[i].state).1
  {
    AfterIsFirstSave(m, calls[..i], calls[i].state);
  }

  /** However many requests race to Save the same state, at most one of them
      succeeds; every other one gets AlreadyExists. */
  lemma {:induction false} AtMostOneSaveSucceeds(m: map<string, string>, calls: seq<Call>, i: nat, j: nat)
    requires i < j < |calls|
    requires calls[i].Save? && calls[j].Save? && calls[i].state == calls[j].state
    requires History(m, calls)[i] == Saved(Ok)
    ensures History(m, calls)[j] == Saved(AlreadyExists)
  {
    var s := calls[i].state;
    assert calls[..j][i] == calls[i];
    FirstSaveFound(calls[..j], s, i);
    SaveFailsIffAlreadySaved(m, calls, j);
  }

  /** No run changes or removes a binding: the first binding of a state is final. */
  lemma {:induction false} BindingsAreFinal(m: map<string, string>, calls: seq<Call>, s: string)
    requires s in m
    ensures s in After(m, calls) && After(m, calls)[s] == m[s]
  {
    AfterIsFirstSave(m, calls, s);
  }

  /** The states bound after a run are exactly those bound before it and
      those some Save in it presented: every Save leaves its state bound. */
  lemma {:induction false} KeysGrowBySavedStates(m: map<string, string>, calls: seq<Call>)
    ensures After(m, calls).Keys == m.Keys + SavedStates(calls)
  {
    var after := After(m, calls);
    forall s | s in after
      ensures s in m || s in SavedStates(calls)
    {
      AfterIsFirstSave(m, calls, s);
      if s !in m {
        FirstSaveDefinedHasSave(calls, s);
      }
    }
    forall s | s in m || s in SavedStates(calls)
      ensures s in after
    {
      AfterIsFirstSave(m, calls, s);
      if s !in m {
        var i :| 0 <= i < |calls| && calls[i].Save? && calls[i].state == s;
        FirstSaveFound(calls, s, i);
      }
    }
  }

  /** Two Loads of the same state in a row give the same answer. */
  lemma {:induction false} RepeatedLoadAgrees(m: map<string, string>, calls: seq<Call>, i: nat)
    requires i + 1 < |calls| && calls[i].Load? && calls[i + 1] == calls[i]
    ensures History(m, calls)[i + 1] == History(m, calls)[i]
  {
    var p := calls[..i + 1];
    assert p[..i] == calls[..i];
    assert After(m, p) == After(m, calls[..i]);
  }
}
