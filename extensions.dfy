/**
 Per-extension update status of the CLI, and the reducer that advances it.

 The UI holds a map from extension name to an update status: the state of
 the extension's update lifecycle and a `processed` flag that says whether
 the UI has already surfaced that state. The map is only ever advanced by
 `ExtensionUpdatesReducer`, which takes one action and returns the next map.
 The TypeScript `extensionUpdatesReducer` returns the very same Map object
 when an action changes nothing and a fresh copy otherwise; Dafny maps are
 values, so "the same object" becomes "an equal map" here, and
 `UnchangedIffNoOp` shows that equality is an exact signal for the no-op
 cases.
 */
module Extensions {

  /** The update lifecycle state of one extension (the display strings of the
      TypeScript enum's members are left out). */
  datatype ExtensionUpdateState =
    | CheckingForUpdates
    | UpdatedNeedsRestart
    | Updating
    | UpdateAvailable
    | UpToDate
    | Error
    | NotUpdatable
    | Unknown

  /** One extension's entry: its state and whether the UI has processed it. */
  datatype ExtensionUpdateStatus = ExtensionUpdateStatus(status: ExtensionUpdateState, processed: bool)

  /** The two actions the reducer accepts. */
  datatype ExtensionUpdateAction =
    | SetState(name: string, state: ExtensionUpdateState)
    | SetProcessed(name: string, processed: bool)

  /** The snapshot: extension name to its status. A missing key means that no
      status has been recorded yet, which is not the same as `Unknown`. */
  type UpdateMap = map<string, ExtensionUpdateStatus>

  /** The next snapshot after `action`. The `default` branch of the TypeScript
      `extensionUpdatesReducer` returns the input for an unrecognised action
      type; with a closed datatype of actions that branch cannot be reached,
      so the match has no such case. */
  function ExtensionUpdatesReducer(state: UpdateMap, action: ExtensionUpdateAction): (r: UpdateMap)
    // no entry is ever removed, and the action's name is the only one that can be added
    ensures state.Keys <= r.Keys <= state.Keys + {action.name}
    // every other extension keeps its entry as it was
    ensures forall k :: k in state && k != action.name ==> r[k] == state[k]
  {
    match action
    case SetState(name, s) =>
      if name in state && state[name].status == s then state
      else state[name := ExtensionUpdateStatus(s, false)]
    case SetProcessed(name, p) =>
      if name !in state || state[name].processed == p then state
      else state[name := state[name].(processed := p)]
  }

  /** The cases in which the action asks for nothing new: SET_STATE to the
      status the name already has, SET_PROCESSED for a name with no entry, or
      SET_PROCESSED to the flag the entry already has. */
  predicate IsNoOp(state: UpdateMap, action: ExtensionUpdateAction)
  {
    match action
    case SetState(name, s) => name in state && state[name].status == s
    case SetProcessed(name, p) => name !in state || state[name].processed == p
  }

  /** The result equals the input exactly in the no-op cases, so comparing the
      result with the input is a sound and complete "nothing changed" signal. */
  lemma UnchangedIffNoOp(state: UpdateMap, action: ExtensionUpdateAction)
    ensures ExtensionUpdatesReducer(state, action) == state <==> IsNoOp(state, action)
  {
  }

  /** SET_STATE to the status the name already has returns the input. */
  lemma SetStateSameStatus(state: UpdateMap, name: string, s: ExtensionUpdateState)
    requires name in state && state[name].status == s
    ensures ExtensionUpdatesReducer(state, SetState(name, s)) == state
  {
  }

  /** SET_STATE that changes the status, or names an extension with no entry,
      records exactly the requested status with `processed` reset to false. */
  lemma SetStateChangesStatus(state: UpdateMap, name: string, s: ExtensionUpdateState)
    requires name !in state || state[name].status != s
    ensures var r := ExtensionUpdatesReducer(state, SetState(name, s));
      && r.Keys == state.Keys + {name}
      && r[name] == ExtensionUpdateStatus(s, false)
      && r != state
  {
  }

  /** After any SET_STATE the name is present with the requested status, and
      the key set has grown by at most that name. */
  lemma SetStateEstablishes(state: UpdateMap, name: string, s: ExtensionUpdateState)
    ensures var r := ExtensionUpdatesReducer(state, SetState(name, s));
      && r.Keys == state.Keys + {name}
      && r[name].status == s
      && (forall k :: k in state && k != name ==> r[k] == state[k])
  {
  }

  /** SET_PROCESSED for a name with no entry returns the input: it never
      creates an entry. */
  lemma SetProcessedAbsent(state: UpdateMap, name: string, p: bool)
    requires name !in state
    ensures ExtensionUpdatesReducer(state, SetProcessed(name, p)) == state
    ensures name !in ExtensionUpdatesReducer(state, SetProcessed(name, p))
  {
  }

  /** SET_PROCESSED to the flag the entry already has returns the input. */
  lemma SetProcessedSameFlag(state: UpdateMap, name: string, p: bool)
    requires name in state && state[name].processed == p
    ensures ExtensionUpdatesReducer(state, SetProcessed(name, p)) == state
  {
  }

  /** An effective SET_PROCESSED changes only that entry's flag: its status is
      kept, the key set is the same and every other entry is unchanged. */
  lemma SetProcessedChangesFlag(state: UpdateMap, name: string, p: bool)
    requires name in state && state[name].processed != p
    ensures var r := ExtensionUpdatesReducer(state, SetProcessed(name, p));
      && r.Keys == state.Keys
      && r[name].status == state[name].status
      && r[name].processed == p
      && (forall k :: k in state && k != name ==> r[k] == state[k])
      && r != state
  {
  }

  /** Dispatching the same action twice gives the same snapshot as once. */
  lemma Idempotent(state: UpdateMap, action: ExtensionUpdateAction)
    ensures var once := ExtensionUpdatesReducer(state, action);
      ExtensionUpdatesReducer(once, action) == once
  {
  }

  /** No action lets an entry keep a stale `processed`: whenever a name's
      entry is created or its status changes, its flag is false. */
  lemma StatusChangeResetsProcessed(state: UpdateMap, action: ExtensionUpdateAction, k: string)
    requires k in ExtensionUpdatesReducer(state, action)
    requires k !in state || ExtensionUpdatesReducer(state, action)[k].status != state[k].status
    ensures !ExtensionUpdatesReducer(state, action)[k].processed
  {
  }

  /** Actions for two different extensions can be dispatched in either order:
      each one touches only its own entry. */
  lemma DifferentNamesCommute(state: UpdateMap, a: ExtensionUpdateAction, b: ExtensionUpdateAction)
    requires a.name != b.name
    ensures ExtensionUpdatesReducer(ExtensionUpdatesReducer(state, a), b)
         == ExtensionUpdatesReducer(ExtensionUpdatesReducer(state, b), a)
  {
  }

  /** The sequence of dispatches from an empty snapshot in which one extension
      is checked, found to have an update, shown to the user, then re-reported
      (no change), and an unknown extension is marked processed (no change). */
  lemma ScenarioCheckThenAcknowledge()
    ensures var s0: UpdateMap := map[];
      var s1 := ExtensionUpdatesReducer(s0, SetState("foo", CheckingForUpdates));
      var s2 := ExtensionUpdatesReducer(s1, SetState("foo", UpdateAvailable));
      var s3 := ExtensionUpdatesReducer(s2, SetProcessed("foo", true));
      var s4 := ExtensionUpdatesReducer(s3, SetState("foo", UpdateAvailable));
      var s5 := ExtensionUpdatesReducer(s4, SetProcessed("bar", true));
      && s1 == map["foo" := ExtensionUpdateStatus(CheckingForUpdates, false)]
      && s2 == map["foo" := ExtensionUpdateStatus(UpdateAvailable, false)]
      && s3 == map["foo" := ExtensionUpdateStatus(UpdateAvailable, true)]
      && s4 == s3
      && s5 == s3
  {
  }
}
