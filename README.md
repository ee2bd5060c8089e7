# Extension update status reducer

A Dafny model of the extension update-status store of the Gemini CLI's
interactive UI. The UI keeps a map from extension name to an
`ExtensionUpdateStatus`. Each status holds the extension's update lifecycle
state (checking for updates, update available, updating, updated and needing
a restart, up to date, error, not updatable, unknown) and a `processed` flag.
The flag records whether the UI has already surfaced that state. The map
changes only through `extensionUpdatesReducer`. That reducer takes one action,
`SET_STATE` or `SET_PROCESSED`, and returns the next map.

- `extensions.dfy` (module `Extensions`) holds the three types and the reducer as a
  function over `map<string, ExtensionUpdateStatus>`. It also holds lemmas for each
  branch: the no-op cases, the effective cases, idempotence, the reset of
  `processed` and the commutation of actions on different names.
- `dispatch.dfy` (module `Dispatch`) holds `Replay`, the fold of a sequence of
  actions through the reducer, as the host's dispatch loop performs it. It also
  holds lemmas about the lifecycle of an entry over any run of actions. An entry
  is created by SET_STATE and never removed. Its status is the last state requested
  for it. Its flag is raised only by `SET_PROCESSED(name, true)`.

The model uses the code's names: the flag `processed` and the action `SET_PROCESSED`.

## Model

| member | source | states |
|---|---|---|
| Extensions.ExtensionUpdatesReducer | packages/cli/src/ui/state/extensions.ts:33-65 | No action removes an entry. The only key an action can add is its own name. Every other entry is left unchanged. |
| Extensions.UnchangedIffNoOp | packages/cli/src/ui/state/extensions.ts:39-60 | The result equals the input exactly when the action is a no-op: SET_STATE to the current status, or SET_PROCESSED to a missing name or to the current flag. So equality is a complete "nothing changed" signal. |
| Extensions.SetStateSameStatus | packages/cli/src/ui/state/extensions.ts:39-42 | SET_STATE to the status the name already has returns the input map. |
| Extensions.SetStateChangesStatus | packages/cli/src/ui/state/extensions.ts:43-48 | SET_STATE that changes the status, or names a missing extension, gives the name exactly `{status: requested, processed: false}`. It adds only that key and yields a different map. |
| Extensions.SetStateEstablishes | packages/cli/src/ui/state/extensions.ts:39-48 | After any SET_STATE the name is present with the requested status. The key set is the old one plus that name. Every other entry is unchanged. |
| Extensions.SetProcessedAbsent | packages/cli/src/ui/state/extensions.ts:51-53 | SET_PROCESSED for a name with no entry returns the input. It never creates an entry. |
| Extensions.SetProcessedSameFlag | packages/cli/src/ui/state/extensions.ts:51-53 | SET_PROCESSED to the flag the entry already has returns the input. |
| Extensions.SetProcessedChangesFlag | packages/cli/src/ui/state/extensions.ts:55-60 | An effective SET_PROCESSED sets that entry's flag and keeps its status. The key set stays the same. Every other entry is unchanged. |
| Extensions.Idempotent | packages/cli/src/ui/state/extensions.ts:37-61 | Dispatching the same action twice gives the same map as dispatching it once. This holds for both action kinds. |
| Extensions.StatusChangeResetsProcessed | packages/cli/src/ui/state/extensions.ts:44-47 | Under any action, an entry that is created or whose status changes has `processed` false. No state change keeps a stale flag. |
| Extensions.DifferentNamesCommute | packages/cli/src/ui/state/extensions.ts:43-59 | Two actions on different names give the same entries in either order. |
| Extensions.ScenarioCheckThenAcknowledge | packages/cli/src/ui/state/extensions.ts:37-61 | A concrete run from the empty map: check "foo", find an update, mark it processed. Repeating the same state and marking a missing "bar" both leave the map unchanged. |
| Dispatch.Replay | packages/cli/src/ui/state/extensions.ts:33-65 | Dispatching any sequence of actions in order never removes an entry. |
| Dispatch.LastRequestedSome | packages/cli/src/ui/state/extensions.ts:38-48 | A last-requested state exists for a name exactly when the actions hold a SET_STATE for it. That state comes from one of those actions. |
| Dispatch.ReplayStatus | packages/cli/src/ui/state/extensions.ts:37-61 | After any run of actions, a name is present exactly when it was present before or some SET_STATE was issued for it. Its status is the last state requested for it, or its old status if none was requested. |
| Dispatch.ReplayKeys | packages/cli/src/ui/state/extensions.ts:37-61 | After any run of actions, a name is present exactly when it was present before or one of the actions is a SET_STATE for it. |
| Dispatch.ProcessedOnlyOnRequest | packages/cli/src/ui/state/extensions.ts:44-59 | If an entry is processed after a run of actions, then it was processed before, or some SET_PROCESSED(name, true) was dispatched at a point where the name had an entry. |
| Dispatch.FromEmpty | packages/cli/src/ui/state/extensions.ts:37-61 | From the empty initial map, every entry was created by a SET_STATE and carries the last requested state. It is processed only if a SET_PROCESSED(name, true) was dispatched after some SET_STATE for that name. |

## Left out

- Reference identity: the TypeScript `extensionUpdatesReducer` returns the same `Map` object for a no-op and a fresh copy otherwise. Dafny maps are values, so the model uses value equality. `UnchangedIffNoOp` shows that equality holds exactly in the no-op cases.
- The `default` branch of the switch is not modelled. It returns the input for an unrecognised action type. With a closed datatype of actions it cannot be reached.
- The display strings of the enum members are not modelled. They are UI text. The states are bare constructors.
- The React hook that holds the map and dispatches into the reducer is not part of this model. Neither are update checking, downloading, restarting or rendering. `Replay` stands for the hook's one-action-at-a-time dispatch, starting from the empty map.
- Insertion order of the returned Map is not modelled. A JavaScript `Map` iterates in insertion order, and a Dafny `map` has no order. Equality, commutation and idempotence are about entries only.
