/**
 What a sequence of dispatches does to the snapshot.

 The host keeps one snapshot, starting from the empty map, and feeds the
 reducer one action at a time. `Replay` is that fold; the lemmas below state
 the lifecycle of an entry over any run of actions: it is created by the first
 SET_STATE that names it, never removed, its status is the last one requested
 for it, and its `processed` flag is only ever set by SET_PROCESSED.
 */
module Dispatch {
  import opened Extensions

  datatype Option<T> = None | Some(value: T)

  /** The snapshot after dispatching `actions` in order, starting from `state`. */
  function Replay(state: UpdateMap, actions: seq<ExtensionUpdateAction>): (r: UpdateMap)
    // a run of actions never removes an entry
    ensures state.Keys <= r.Keys
    decreases |actions|
  {
    if actions == [] then state
    else ExtensionUpdatesReducer(Replay(state, actions[..|actions| - 1]), actions[|actions| - 1])
  }

  /** The state that the last SET_STATE for `k` in `actions` asks for, if any. */
  function LastRequested(actions: seq<ExtensionUpdateAction>, k: string): (r: Option<ExtensionUpdateState>)
    decreases |actions|
  {
    if actions == [] then None
    else
      match actions[|actions| - 1]
      case SetState(n, s) => if n == k then Some(s) else LastRequested(actions[..|actions| - 1], k)
      case SetProcessed(_, _) => LastRequested(actions[..|actions| - 1], k)
  }

  /** Some SET_STATE for `k` has been requested exactly when `actions` holds one. */
  lemma {:induction false} LastRequestedSome(actions: seq<ExtensionUpdateAction>, k: string)
    ensures LastRequested(actions, k).Some? <==> exists s :: SetState(k, s) in actions
    ensures LastRequested(actions, k).Some? ==> SetState(k, LastRequested(actions, k).value) in actions
    decreases |actions|
  {
    if actions != [] {
      var init, last := actions[..|actions| - 1], actions[|actions| - 1];
      assert actions == init + [last];
      LastRequestedSome(init, k);
      if last.SetState? && last.name == k {
        assert SetState(k, last.state) in actions;
      } else if exists s :: SetState(k, s) in actions {
        var s :| SetState(k, s) in actions;
        assert SetState(k, s) in init;
      }
    }
  }

  /** After any run of actions a name has an entry exactly when it had one
      before or some SET_STATE asked for it, and its status is the last state
      requested for it (or the one it had, if none was requested). */
  lemma {:induction false} ReplayStatus(state: UpdateMap, actions: seq<ExtensionUpdateAction>, k: string)
    ensures k in Replay(state, actions) <==> k in state || LastRequested(actions, k).Some?
    ensures k in Replay(state, actions) ==>
      Replay(state, actions)[k].status ==
        (if LastRequested(actions, k).Some? then LastRequested(actions, k).value else state[k].status)
    decreases |actions|
  {
    if actions != [] {
      ReplayStatus(state, actions[..|actions| - 1], k);
    }
  }

  /** Entries are created only by SET_STATE and never removed: starting from
      any snapshot, a name is present after a run of actions exactly when it
      was present before or one of the actions is a SET_STATE for it. */
  lemma {:induction false} ReplayKeys(state: UpdateMap, actions: seq<ExtensionUpdateAction>, k: string)
    ensures k in Replay(state, actions) <==> k in state || exists s :: SetState(k, s) in actions
  {
    ReplayStatus(state, actions, k);
    LastRequestedSome(actions, k);
  }

  /** The `processed` flag is never raised by the reducer on its own: if it is
      set after a run of actions, it was set before, or some SET_PROCESSED
      asked for `true` on that name at a point where the name had an entry. */
  lemma {:induction false} ProcessedOnlyOnRequest(state: UpdateMap, actions: seq<ExtensionUpdateAction>, k: string)
    requires k in Replay(state, actions) && Replay(state, actions)[k].processed
    ensures || (k in state && state[k].processed)
            || exists i :: 0 <= i < |actions| && actions[i] == SetProcessed(k, true) && k in Replay(state, actions[..i])
    decreases |actions|
  {
    if actions != [] {
      var init, last := actions[..|actions| - 1], actions[|actions| - 1];
      var before := Replay(state, init);
      if k in before && before[k].processed && ExtensionUpdatesReducer(before, last)[k].processed {
        ProcessedOnlyOnRequest(state, init, k);
        if !(k in state && state[k].processed) {
          var i :| 0 <= i < |init| && init[i] == SetProcessed(k, true) && k in Replay(state, init[..i]);
          assert actions[..i] == init[..i];
        }
      } else {
        assert last == SetProcessed(k, true) && k in before;
        assert actions[..|actions| - 1] == init;
      }
    }
  }

  /** From the empty snapshot the host starts with, every entry after a run of
      actions was asked for by a SET_STATE and carries the last state requested
      for it; it is only marked processed if some SET_PROCESSED asked for it
      after a SET_STATE for the same name. */
  lemma {:induction false} FromEmpty(actions: seq<ExtensionUpdateAction>, k: string)
    requires k in Replay(map[], actions)
    ensures LastRequested(actions, k).Some?
    ensures SetState(k, Replay(map[], actions)[k].status) in actions
    ensures Replay(map[], actions)[k].status == LastRequested(actions, k).value
    ensures Replay(map[], actions)[k].processed ==>
      exists j, i :: 0 <= j < i < |actions| && actions[j].SetState? && actions[j].name == k
                     && actions[i] == SetProcessed(k, true)
  {
    ReplayStatus(map[], actions, k);
    LastRequestedSome(actions, k);
    if Replay(map[], actions)[k].processed {
      ProcessedOnlyOnRequest(map[], actions, k);
      var i :| 0 <= i < |actions| && actions[i] == SetProcessed(k, true) && k in Replay(map[], actions[..i]);
      ReplayKeys(map[], actions[..i], k);
      var s :| SetState(k, s) in actions[..i];
      var j :| 0 <= j < i && actions[..i][j] == SetState(k, s);
      assert actions[j] == SetState(k, s);
    }
  }
}
