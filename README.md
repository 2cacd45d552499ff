# ts-duckduckfit core, modelled in Dafny

This project models the sequential logic of the ts-duckduckfit workout app
and proves properties of it:

- **Keyed structural diff and patch** (`src/lib/diff.ts`). `getChanges`
  compares two plain values and yields either a whole `replace` or a change
  list. Arrays are reconciled by element key; objects are diffed per
  property. `applyChanges` replays such a list.
- **Schema migration driver** (`migrate`, `initDocument` in
  `src/lib/repo/index.ts`). It walks the versions after the document's
  stored `version`, applies each defined migration through
  `docHandle.change`, and stamps the version number.
- **Peer bookkeeping of `WebRTCClientAdapter`**
  (`src/lib/sync/WebRTCClientAdapter.ts`). This covers the known and queued
  device ids, the peer held for each device, the announced remote peer ids,
  the ready flag, and the packets and events the adapter produces.
- **Active-workout cursor** (`createWorkout` in
  `src/lib/state/workout.svelte.ts`). This covers the cyclic search for the
  next set without a status, the active position, the rest timer, the
  `done` flag, and the group edits `moveSets`, `copySet` and `createSets`.
- **Training-session lifecycle**. This covers the `TrainingSession` entity
  (active, paused, completed; pause intervals; paused and elapsed time),
  the in-memory repository, and the Start, Pause, Resume and Complete use
  cases.
- **Small helpers**:
  - `getRealSetPosition` and the exercise-by-id maps
    (`src/lib/components/workout/util.ts`);
  - `findTranslation`;
  - `issuesToFieldMap` and `validate` (`src/lib/domain/Core/Utils/zod.ts`);
  - the `lazy` memoiser (`src/lib/lazy.ts`, and its identical copy in
    `src/lib/util.ts`).

Where the source is a function over values, the model is a Dafny function,
with lemmas about it. Where the source is a loop or mutates state, the
model is a method or a class. Each method is proved against a specification
function or predicate, and properties of that function are proved as
lemmas.

Modules follow the source:

| module | models |
|---|---|
| `Diff` | the diff as functions |
| `DiffLoops` | its loops as methods |
| `DiffFields`, `DiffKeys`, `DiffProofs` | the proofs |
| `Repo` | the migration driver |
| `WebRtc` | the adapter |
| `WorkoutState` | the workout cursor |
| `WorkoutUtil` | the workout helpers |
| `TrainingSessions` | the training-session lifecycle |
| `Translations` | `findTranslation` |
| `Validation` | the zod helpers |
| `Lazy` | `lazy` |
| `Wrappers` | `Option`, string and splice helpers |

Inputs the original reads from its environment are parameters of the model:
- the clock (`new Date()`);
- the local device id;
- the current locale;
- the id generator's result;
- the schema's `safeParse`;
- a failing `peer.send`.

## Model

| member | source | states |
|---|---|---|
| Diff.KeysOf | src/lib/diff.ts:90 | `arrayB.map(getKey)`: one key per element, in order |
| Diff.IndexOfFrom | src/lib/diff.ts:125 | `aKeys.indexOf(k, i + 1)`: -1 when `k` is absent from `from` on; otherwise an index at or after `from` holding `k`, with no earlier such index |
| Diff.FindField | src/lib/diff.ts:51-54 | the index of the first field with the given name, or -1 when the object has no such own property |
| Diff.Unwrap | src/lib/diff.ts:11-12 | a `Date` stands for its `valueOf()`, its milliseconds; every other value for itself |
| Diff.TypeOf | src/lib/diff.ts:13-14 | the `typeof` of an unwrapped value, with `null`, arrays and objects all `'object'` |
| Diff.GetChanges | src/lib/diff.ts:6-28 | defines `getChanges`: a `replace` carrying `b` when the types differ or two scalars differ, the array diff for two arrays, the object diff for two non-null objects, and an empty list for equal scalars |
| Diff.ObjectDiff | src/lib/diff.ts:41-77 | defines `getObjectChanges` as the entries for the keys of `a` then of `b`, each key once, in order |
| Diff.KeyChange | src/lib/diff.ts:51-73 | defines the entry for one key: nested changes or a set for a key in both, a delete for a key only in `a`, a set for a key only in `b` |
| Diff.DeleteAbsent | src/lib/diff.ts:100-108 | defines the deletion loop: from the last index down, every key missing from `b`'s keys is spliced out and its delete emitted |
| Diff.ItemChange | src/lib/diff.ts:114-122 | defines the entry for `arrayB[i]`: the nested diff against the element of `arrayA` with the same key, as changes or a replace, or a replace when the key is new |
| Diff.ScanStep | src/lib/diff.ts:110-145 | defines one turn of the scan: keep a key in place, move it forward from a later index, or insert `b`'s element |
| Diff.PopSurplus | src/lib/diff.ts:147-150 | defines the final loop: pop keys past `b`'s length, emitting a delete for the last index each time |
| Diff.ArrayDiff | src/lib/diff.ts:86-153 | defines `getArrayChanges` as the structural ops of the three phases followed by the per-element changes |
| Diff.ApplyChanges | src/lib/diff.ts:155-201 | defines `applyChanges` as the changes applied one after another, each to the result of the ones before |
| Diff.ApplyChange | src/lib/diff.ts:159-199 | defines one case of the `switch`: the splice, move, replace, nested apply, set or delete it names |
| DiffLoops.GetObjectChanges | src/lib/diff.ts:41-77 | the loop over the de-duplicated keys of `a` then `b` emits exactly `ObjectDiff(a, b)`, one entry per key in key order |
| DiffLoops.KeyEntry | src/lib/diff.ts:51-73 | one key: `object-set` of the new value when the nested diff is a `replace`; `object-changes` when it is a non-empty list; nothing when it is empty; `object-delete` for a key only in `a`; `object-set` for a key only in `b` |
| DiffLoops.ChangesOverStep | src/lib/diff.ts:50-74 | the invariant of `getObjectChanges`' loop: the changes pushed so far, followed by those the remaining keys yield, are the whole list |
| DiffLoops.GetArrayChanges | src/lib/diff.ts:86-153 | the three loops (delete absent keys downwards, scan `b` with keep/move/insert, pop the surplus) over the simulated key list emit exactly `ArrayDiff(a, b)`, structural ops first and per-element entries after |
| DiffLoops.ItemChanges | src/lib/diff.ts:115-122 | the entry for `arrayB[i]`: `getChanges` against the element of `a` with the same key, as `array-changes` or `array-replace`; a key not in `a` gives a `replace` with `arrayB[i]` |
| DiffLoops.ApplyChangeList | src/lib/diff.ts:155-201 | the `switch` applied to each change in turn gives `ApplyChanges(a, changes)` |
| DiffLoops.ApplyNested | src/lib/diff.ts:175-182 | a nested `changes` field is applied recursively when it is a list, and assigned when it is a `replace` |
| DiffLoops.GetAndApplyChanges | src/lib/diff.ts:203-211 | a non-empty change list is applied to `a` and `undefined` returned; a `replace` or an empty list leaves `a` untouched and returns `b`; either way the caller's value is deeply equal to `b` for well-formed, compatible inputs |
| DiffProofs.RoundTrip | src/lib/diff.ts:6-28 | `getChanges(a, b)` is a `replace` carrying `b` itself, or a list whose application to `a` gives a value deeply equal to `b`, for inputs with unique keys that agree in shape where their keys meet |
| DiffProofs.ObjectRoundTrip | src/lib/diff.ts:41-77 | applying `getObjectChanges(a, b)` to object `a` gives an object deeply equal to `b`: every key of `b` holds its value, and no other key survives |
| DiffProofs.SettledDeepEq | src/lib/diff.ts:191-198 | an object whose every key agrees with `b` and which has no key outside the visited ones is deeply equal to `b` |
| DiffProofs.KeyChangeSettles | src/lib/diff.ts:51-73 | applying one key's entry settles that key against `b` and leaves every other key as it was |
| DiffProofs.KeyBothSettles | src/lib/diff.ts:53-66 | a key in both objects ends deeply equal to `b`'s value, through `object-set` or `object-changes`, or stays when the nested diff is empty |
| DiffProofs.KeyDeleteSettles | src/lib/diff.ts:67-68 | a key only in `a` is removed |
| DiffProofs.KeySetSettles | src/lib/diff.ts:70-72 | a key only in `b` is set to `b`'s value |
| DiffProofs.ArrayRoundTrip | src/lib/diff.ts:86-153 | applying `getArrayChanges(a, b)` to array `a` gives an array deeply equal to `b`, element by element |
| DiffProofs.ScanStepCanon | src/lib/diff.ts:111-145 | one scan step keeps the invariant: the first `i + 1` keys are those of `b`, each element is the one expected for its key, and every inserted element is `b`'s element under its key; it appends at most the entry for index `i` |
| DiffProofs.ElemStep | src/lib/diff.ts:115-135 | applying the per-element entry for index `i` makes element `i` deeply equal to `b[i]` |
| DiffProofs.ApplyStructural | src/lib/diff.ts:160-170 | structural ops act on an array as they act on its key list, and keep every element the expected one for its key |
| DiffProofs.ObjectOver | src/lib/diff.ts:50-74 | the entries the loop emits for a list of distinct keys, applied, settle every listed key against `b` and leave every other key as it was |
| DiffProofs.ScanCanon | src/lib/diff.ts:110-145 | the scan from index `i` on appends exactly the per-element entries of the remaining indices, and each element it inserts is `b`'s element for its key |
| DiffProofs.ApplyElems | src/lib/diff.ts:114-152 | the per-element entries from index `i` on, applied after the structural ops, make every element from `i` on deeply equal to `b`'s and leave the earlier ones alone |
| DiffProofs.PhasesGood | src/lib/diff.ts:100-150 | every element inserted by the three phases is the one `b` holds for its key, and the scan's entries are the per-element entries of `b` |
| DiffProofs.DeleteKeys | src/lib/diff.ts:101-108 | the deletion loop keeps exactly the keys of `a` that are keys of `b`, without duplicates |
| DiffProofs.DeleteNothing | src/lib/diff.ts:104 | when every key is a key of `b`, the deletion loop changes nothing |
| DiffProofs.ScanSelf | src/lib/diff.ts:114-123 | scanning an array against itself finds every key in place and emits nothing |
| DiffProofs.ObjectOverSelf | src/lib/diff.ts:53-63 | diffing an object against itself emits nothing for any key |
| DiffProofs.SelfDiffEmpty | src/lib/diff.ts:27 | `getChanges(a, a)` is the empty list when every array inside `a` has unique keys |
| DiffProofs.ArraySelfEmpty | src/lib/diff.ts:100-123 | `getArrayChanges(a, a)` emits nothing: no key is deleted, each is found in place, and every nested diff is empty |
| DiffProofs.DeepEqRefl | src/lib/diff.ts:27 | deep equality is reflexive on well-formed values |
| DiffProofs.ApplyChangesAppend | src/lib/diff.ts:156-200 | applying two change lists in sequence is applying their concatenation |
| DiffKeys.KeySimulation | src/lib/diff.ts:100-150 | replaying the emitted list, in order, on `a`'s key list yields exactly `b`'s key list, for all arrays |
| DiffKeys.MovesReplay | src/lib/diff.ts:100-150 | replaying the structural ops of the three phases on `a`'s key list gives exactly `b`'s key list |
| DiffKeys.DeleteReplay | src/lib/diff.ts:100-108 | the deletion loop records every key edit it makes: replaying its deletes gives its key list |
| DiffKeys.DeleteOps | src/lib/diff.ts:101-108 | the deletion loop emits only `array-delete`s, at strictly descending indices, each of a key absent from `b` |
| DiffKeys.DeleteComplete | src/lib/diff.ts:101-108 | every key of `a` absent from `b` gets its `array-delete` |
| DiffKeys.ScanReplay | src/lib/diff.ts:110-145 | the scan appends only moves and inserts, records every key edit it makes, and leaves `b`'s keys at the front of the key list |
| DiffKeys.ScanChanges | src/lib/diff.ts:114-139 | the scan appends only per-element entries, at strictly ascending indices of `b` |
| DiffKeys.PopPhase | src/lib/diff.ts:147-150 | the pop loop cuts the key list to its first `|b|` keys, emitting only `array-delete`s, and replaying them gives the cut list |
| DiffKeys.ArrayDiffLayout | src/lib/diff.ts:152 | the result is the structural ops of the three phases followed by the per-element entries |
| DiffKeys.ArrayDiffDeletesFirst | src/lib/diff.ts:101-108 | the list opens with one `array-delete` for each key of `a` absent from `b`, at strictly descending indices, before any move or insert |
| DiffKeys.ArrayDiffStructural | src/lib/diff.ts:110-150 | the deletes are followed by moves or inserts only, then by pop deletes only |
| DiffKeys.ArrayDiffElementsLast | src/lib/diff.ts:114-152 | every structural op precedes every per-element entry; those entries are at strictly ascending indices of `b` |
| DiffKeys.PerElementSuffix | src/lib/diff.ts:152 | after the structural ops come only per-element entries, at ascending indices below `b`'s length |
| DiffKeys.ReplayAppend | src/lib/diff.ts:156-200 | replaying the concatenation of two op lists on a key list is replaying one after the other |
| Repo.Step | src/lib/repo/index.ts:46-50 | defines the two changes for one version: the migration's change applied to the snapshot, then `version` set to the version number |
| Repo.Run | src/lib/repo/index.ts:43-51 | defines the loop from a version on: a truthy migration applies its two changes, a falsy entry is skipped, a throwing one ends the run |
| Repo.Migrated | src/lib/repo/index.ts:40-43 | defines `migrate`'s run: from the stored version + 1 (`version ?? 0`) to the number of entries |
| Repo.RunVisits | src/lib/repo/index.ts:41-45 | the versions that run are exactly those from the stored version + 1 up to the number of entries (or up to the first migration that throws) that have a truthy migration, each once, in ascending order; a migration that throws has a truthy entry within the bound |
| Repo.RunShape | src/lib/repo/index.ts:45-50 | every version that ran has a migration that yielded a change on the snapshot it received; each ran with one snapshot and made two `change` calls |
| Repo.RunIsFold | src/lib/repo/index.ts:40-51 | each migration receives the snapshot left by the ones before it, and the final document is the fold of the migrations that ran; a migration that throws received that final document |
| Repo.RunChangeOrder | src/lib/repo/index.ts:46-50 | for each migration that ran, its change is applied to its snapshot first, and `version` is set to its number second |
| Repo.RunFinalVersion | src/lib/repo/index.ts:48-50 | when some migration ran, `version` ends at the number of the last one, also when a later one threw; when none did, the document is untouched and nothing is logged |
| Repo.UpToDate | src/lib/repo/index.ts:43 | a stored version of at least the number of entries means no change and no update |
| Repo.FullChain | src/lib/repo/index.ts:43-51 | with migrations 1 to n that do not throw and a document at version 0, every migration runs once, in order, no failure is reported, and the version ends at n |
| Repo.ChainStopsAtThrow | src/lib/repo/index.ts:43-51 | with migrations 1 to n and the one for f throwing, the loop stops at f: versions 1 to f - 1 have run and the document stays at version f - 1 |
| Repo.NoThrowNoFailure | src/lib/repo/index.ts:43-51 | a run in which no migration throws ends without a failure |
| Repo.FailsAt | src/lib/repo/index.ts:43-46 | a run fails at f when the migrations it meets before f do not throw and the one for f does |
| Repo.RunsAscending | src/lib/repo/index.ts:43 | a strictly ascending list of exactly the numbers `lo` to `hi` is `[lo, ..., hi]` |
| Repo.CountNotLargestKey | src/lib/repo/index.ts:41-43 | the bound is the number of entries, not the largest key: with entries for 1 and 3, only version 1 runs |
| Repo.DocHandle.constructor | src/lib/repo/index.ts:64 | a handle holds its document, with no changes logged and no listeners |
| Repo.DocHandle.Change | src/lib/repo/index.ts:46-50 | `change(fn)` replaces the document by `fn` of it and logs the new document |
| Repo.DocHandle.AddListener | src/lib/repo/index.ts:70-73 | `addListener` appends the listener and changes nothing else |
| Repo.ApplyVersion | src/lib/repo/index.ts:45-51 | one turn for a truthy migration: when it throws the handle is left as it was; otherwise its change and then the version stamp are applied and both documents logged |
| Repo.Migrate | src/lib/repo/index.ts:36-56 | the handle ends with the folded document, its log gains exactly the `change` results in order; the result is true exactly when some migration ran, or, when a migration threw, names its version, the versions before it staying applied |
| Repo.InitDocument | src/lib/repo/index.ts:64-75 | `migrate` runs first; `onInit` then sees the migrated document; the `onChange` listener is registered last, if given; the result is `migrate`'s; when a migration throws, neither `onInit` nor the listener happens |
| WebRtc.Kept | src/lib/sync/WebRTCClientAdapter.ts:66-75 | defines the new `deviceIds`: the listed ids other than the local device's, each once, in first-seen order |
| WebRtc.Queued | src/lib/sync/WebRTCClientAdapter.ts:71-73 | defines `#newDeviceIds` after the first loop: every listed id other than the local one that was not known is added |
| WebRtc.Stale | src/lib/sync/WebRTCClientAdapter.ts:76-86 | defines the devices the second loop drops: known before, no longer listed, and holding a peer |
| WebRtc.CreatedPeers | src/lib/sync/WebRTCClientAdapter.ts:132-134 | defines `#remotePeers` after `#createPeer` for each queued device in turn |
| WebRtc.Fanout | src/lib/sync/WebRTCClientAdapter.ts:165-183 | defines the packets of a `send` not addressed to `'self'`: one for each listed device holding a peer whose `send` does not throw |
| WebRtc.SetAdd | src/lib/sync/WebRTCClientAdapter.ts:95-96 | `Set.add`: the members are the old ones plus `x`, still without duplicates |
| WebRtc.SetDelete | src/lib/sync/WebRTCClientAdapter.ts:101-102 | `Set.delete`: the members are the old ones except `x`, still without duplicates |
| WebRtc.KeptMembers | src/lib/sync/WebRTCClientAdapter.ts:66-75 | the ids `setDeviceIds` keeps are exactly the listed ones other than the local device id, without duplicates |
| WebRtc.QueuedMembers | src/lib/sync/WebRTCClientAdapter.ts:71-73 | the queue afterwards holds the previously queued ids plus every listed non-local id not known before, without duplicates |
| WebRtc.CreatedPeersAt | src/lib/sync/WebRTCClientAdapter.ts:128-135 | after `#join`, the k-th queued device holds the k-th new peer; other devices keep their peers |
| WebRtc.JoinStep | src/lib/sync/WebRTCClientAdapter.ts:244-247 | one `#createPeer` closes the device's old peer, if any, and stores a fresh one |
| WebRtc.DropStep | src/lib/sync/WebRTCClientAdapter.ts:76-86 | one turn of the second loop adds the device to the dropped ones exactly when it is no longer listed and has a peer |
| WebRtc.CreatedOriginsAt | src/lib/sync/WebRTCClientAdapter.ts:241-268 | each new peer records the device it was created for; older peers keep theirs |
| WebRtc.FanoutReaches | src/lib/sync/WebRTCClientAdapter.ts:165-183 | every known device with a working peer receives the message once; nothing goes to a device that is unknown, has no peer, or fails; one failure does not stop the others |
| WebRtc.LinkedAfterClose | src/lib/sync/WebRTCClientAdapter.ts:266-267 | closing a peer and forgetting its device keeps the invariant linking peers, devices and closed peers |
| WebRtc.ReadyCountAppend | src/lib/sync/WebRTCClientAdapter.ts:234-239 | a `ready` event raises the count of `ready` events since the last `close`, a `close` resets it to zero, and any other event leaves it alone |
| WebRtc.WebRTCClientAdapter.constructor | src/lib/sync/WebRTCClientAdapter.ts:43-52 | a new adapter is not ready and has empty id sets, no peers, and no peer id |
| WebRtc.WebRTCClientAdapter.SetDeviceIds | src/lib/sync/WebRTCClientAdapter.ts:65-89 | `#deviceIds` becomes the listed ids other than the local one; ids not known before are queued; known ids no longer listed lose their peer (closed) and their remote peer id; then `#join` runs on the queue |
| WebRtc.WebRTCClientAdapter.ListedIds | src/lib/sync/WebRTCClientAdapter.ts:66-75 | the first loop of `setDeviceIds` returns the kept ids and queues the new ones |
| WebRtc.WebRTCClientAdapter.DropUnlisted | src/lib/sync/WebRTCClientAdapter.ts:76-86 | the second loop closes and forgets exactly the known, unlisted devices that have a peer |
| WebRtc.WebRTCClientAdapter.ClosePeer | src/lib/sync/WebRTCClientAdapter.ts:104-108 | the device's peer is closed, and its peer and remote peer id are deleted |
| WebRtc.WebRTCClientAdapter.AddDeviceId | src/lib/sync/WebRTCClientAdapter.ts:91-98 | nothing happens for a known or queued id; otherwise it joins both sets and `#join` runs |
| WebRtc.WebRTCClientAdapter.RemoveDeviceId | src/lib/sync/WebRTCClientAdapter.ts:100-109 | only that id leaves both sets; its peer, if any, is closed and forgotten with its remote peer id |
| WebRtc.WebRTCClientAdapter.IsReady | src/lib/sync/WebRTCClientAdapter.ts:54-56 | returns the ready flag, which `Connect`, `ForceReady` and `Disconnect` set and clear |
| WebRtc.WebRTCClientAdapter.Connect | src/lib/sync/WebRTCClientAdapter.ts:111-126 | records the peer id and metadata, runs `#join`, emits the `'self'` candidate, and becomes ready |
| WebRtc.WebRTCClientAdapter.Join | src/lib/sync/WebRTCClientAdapter.ts:128-135 | without a peer id nothing changes; otherwise the queue is emptied and each queued device gets a new peer, in queue order, closing any one it had |
| WebRtc.WebRTCClientAdapter.CreatePeer | src/lib/sync/WebRTCClientAdapter.ts:241-247 | the device's current peer, if any, is closed and replaced by a fresh peer |
| WebRtc.WebRTCClientAdapter.Disconnect | src/lib/sync/WebRTCClientAdapter.ts:137-147 | every peer is closed, both maps are cleared, ready becomes false, and `close` is emitted |
| WebRtc.WebRTCClientAdapter.CloseAll | src/lib/sync/WebRTCClientAdapter.ts:140-142 | the loop closes exactly the given peers |
| WebRtc.WebRTCClientAdapter.Send | src/lib/sync/WebRTCClientAdapter.ts:149-184 | a message for `'self'` is dispatched as if received from the local device, which sends nothing unless that dispatch replies with a `welcome` (a looped-back `arrive` when the local id holds a peer); any other message, stamped with the peer id, is sent to every known device with a working peer |
| WebRtc.WebRTCClientAdapter.Receive | src/lib/sync/WebRTCClientAdapter.ts:186-232 | a zero-length payload throws and changes nothing. `arrive` sends one `welcome` to the sender's peer, if present, records the remote peer id, emits `peer-candidate` and forces ready. `welcome` does the same without replying. Any other type is emitted as `message` |
| WebRtc.WebRTCClientAdapter.Announce | src/lib/sync/WebRTCClientAdapter.ts:207-213 | sets `remotePeerIds[from] = senderId`, emits the candidate, and leaves the adapter ready |
| WebRtc.WebRTCClientAdapter.EmitCandidate | src/lib/sync/WebRTCClientAdapter.ts:208-213 | the candidate event is followed by `ready` only when the adapter was not ready |
| WebRtc.WebRTCClientAdapter.ForceReady | src/lib/sync/WebRTCClientAdapter.ts:234-239 | ready goes from false to true once, and `ready` is emitted only on that transition: exactly once since the last `close` |
| WebRtc.WebRTCClientAdapter.OnPeerClose | src/lib/sync/WebRTCClientAdapter.ts:261-268 | the close handler emits `peer-disconnected` when the device has a truthy remote peer id, then deletes the device's peer and peer id |
| WebRtc.WebRTCClientAdapter.Emit | src/lib/sync/WebRTCClientAdapter.ts:228 | emitting an event other than `ready` and `close` appends it and keeps the ready count |
| WebRtc.WebRTCClientAdapter.ForgetPeer | src/lib/sync/WebRTCClientAdapter.ts:266-267 | the two deletes of the close handler remove the device's entries from both maps |
| WebRtc.WebRTCClientAdapter.OnPeerData | src/lib/sync/WebRTCClientAdapter.ts:258-260 | data from a peer is received as from the device the peer was created for |
| WorkoutState.AllDone | src/lib/state/workout.svelte.ts:11 | defines `done`: every set of every group has a status |
| WorkoutState.IsNext | src/lib/state/workout.svelte.ts:26-50 | defines what `getNext` looks for: a set without a status, every set the scan passes before it having one |
| WorkoutState.GetNext | src/lib/state/workout.svelte.ts:26-50 | `undefined` exactly when every set has a status; otherwise the first set without a status in the cyclic scan that starts just after the given position and wraps once |
| WorkoutState.SuccTight | src/lib/state/workout.svelte.ts:31-43 | one step of the scan skips no position |
| WorkoutState.LastPrefixAll | src/lib/state/workout.svelte.ts:34-37 | falling off the last set on the second pass means every set has a status |
| WorkoutState.LastScannedAll | src/lib/state/workout.svelte.ts:34-39 | falling off the last set on the first pass means every set after the start has a status |
| WorkoutState.FoundFirstPass | src/lib/state/workout.svelte.ts:44-49 | a set found in the first pass is the first without a status after the start |
| WorkoutState.FoundAfterWrap | src/lib/state/workout.svelte.ts:39-49 | the first set of the workout, found just after the wrap, is the next one |
| WorkoutState.FoundSecondPass | src/lib/state/workout.svelte.ts:44-49 | a set found in the second pass is the next one in cyclic order |
| WorkoutState.StepKeeps | src/lib/state/workout.svelte.ts:30-48 | stepping over a set with a status keeps the loop invariant |
| WorkoutState.CyclicTotal | src/lib/state/workout.svelte.ts:30-48 | of two distinct positions, one comes first in any scan |
| WorkoutState.IsNextUnique | src/lib/state/workout.svelte.ts:26-50 | at most one position is what the scan finds |
| WorkoutState.InitialScanSkipsFirst | src/lib/state/workout.svelte.ts:12-14 | the initial `getNext(w, 0, 0)` starts after the first set, so it never picks it unless it wraps back |
| WorkoutState.WithSet | src/lib/state/workout.svelte.ts:90-104 | the copied workout holds the new set at `[g, s]`; every other set, group id, group type and workout field is unchanged |
| WorkoutState.WithSetDone | src/lib/state/workout.svelte.ts:105 | afterwards every set is done exactly when the new set has a status and every other set had one |
| WorkoutState.MoveItem | src/lib/state/workout.svelte.ts:164-167 | the two splices put `s[from]` at its landing index and keep the other sets in their relative order |
| WorkoutState.MoveItemPermutes | src/lib/state/workout.svelte.ts:164-167 | moving a set keeps the multiset of sets |
| WorkoutState.MoveItemDone | src/lib/state/workout.svelte.ts:164-167 | every set has a status after the move exactly when every set had one before |
| WorkoutState.CopiedSets | src/lib/state/workout.svelte.ts:246-255 | one set more: the cleared copy sits directly after `setIndex`, with no status and the same exercise and measures, and the other sets keep their order; a `setIndex` past the end appends a blank set, as spreading `undefined` and splicing past the end do |
| WorkoutState.OneExerciseCount | src/lib/state/workout.svelte.ts:137-144 | one distinct `exerciseGuid` means every set has the first set's exercise, and conversely |
| WorkoutState.TwoExercisesCount | src/lib/state/workout.svelte.ts:137-147 | two distinct exercises means the first set's exercise and exactly one other, and conversely |
| WorkoutState.TwoExercisesHasTwo | src/lib/state/workout.svelte.ts:146-147 | sets of the first set's exercise and one other give exactly two distinct exercises |
| WorkoutState.HasTwoExercises | src/lib/state/workout.svelte.ts:146-147 | exactly two distinct exercises are the first set's and one other |
| WorkoutState.IdsOnly | src/lib/state/workout.svelte.ts:162 | `setGroups.map((sg) => ({ id: sg.id }))` keeps only the ids |
| WorkoutState.MoveSetsAsWritten | src/lib/state/workout.svelte.ts:162-172 | the group list `moveSets` assigns: the moved group with its sets but no `setGroupType`, every other group stripped to its id |
| WorkoutState.CopySetAsWritten | src/lib/state/workout.svelte.ts:244-264 | the group list `copySet` assigns, for any set index: the edited group with its sets but no `setGroupType`, every other group stripped to its id |
| WorkoutState.MoveSetsAsWrittenLosesSets | src/lib/state/workout.svelte.ts:162-172 | a two-group workout whose second group has a set loses that set when a set of the first group is moved |
| WorkoutState.MoveKeepsDone | src/lib/state/workout.svelte.ts:164-172 | moving a set within a group changes neither the group sizes nor whether every set is done |
| WorkoutState.ActiveWorkout.constructor | src/lib/state/workout.svelte.ts:6-17 | `done` says whether every set has a status; the active position is `getNext(w, 0, 0)`, or `[0, 0]` when there is none; the set duration is that set's |
| WorkoutState.ActiveWorkout.Next | src/lib/state/workout.svelte.ts:52-62 | returns false and keeps the position when `done` is set or no set lacks a status; otherwise moves to `getNext`'s result, restarts the timers, and returns true |
| WorkoutState.ActiveWorkout.SetSet | src/lib/state/workout.svelte.ts:71-77 | sets both indices, takes the new set's duration, and resets `restTimer` to 0 and `paused` to false |
| WorkoutState.ActiveWorkout.Update | src/lib/state/workout.svelte.ts:79-83 | the workout becomes `updateFn` of it, which is returned |
| WorkoutState.ActiveWorkout.InternalUpdateSet | src/lib/state/workout.svelte.ts:85-111 | only the set at `[g, s]` is replaced; `done` is recomputed; `restTimer` becomes `restAfterInSeconds \|\| 0` exactly when the set's status goes from none to some |
| WorkoutState.ActiveWorkout.CreateSets | src/lib/state/workout.svelte.ts:133-157 | the group type over the old and new sets is `straight` for one distinct exercise, `superset` for two, and `circuit` otherwise |
| WorkoutState.ActiveWorkout.MoveSets | src/lib/state/workout.svelte.ts:161-179 | the set moves from `fromIndex` to `toIndex` in group `g`; the active set index follows it when it was the moved one, whatever the group |
| WorkoutState.ActiveWorkout.CopySet | src/lib/state/workout.svelte.ts:243-266 | a cleared copy is inserted directly after `setIndex`, or a blank set appended for an index past the end, so not every set is done any more |
| WorkoutUtil.WorkingCount | src/lib/components/workout/util.ts:22-27 | the number of `"working"` sets is at most the number of sets |
| WorkoutUtil.GetRealSetPosition | src/lib/components/workout/util.ts:13-29 | -1 for a set that is not `"working"`; otherwise the number of `"working"` sets before `index` (all of them by default) |
| WorkoutUtil.WorkingCountAll | src/lib/components/workout/util.ts:21-28 | the count equals the number of sets exactly when all are working, and is 0 exactly when none is |
| WorkoutUtil.WorkingCountMonotone | src/lib/components/workout/util.ts:21-28 | positions grow with the index, so a working set's position lies in `[0, index]` |
| WorkoutUtil.ExercisesOf | src/lib/components/workout/util.ts:3-4 | the exercises of the items, in order |
| WorkoutUtil.ByIdKeys | src/lib/components/workout/util.ts:1-7 | the map has a key for every exercise id in the list and no other |
| WorkoutUtil.ByIdLastWins | src/lib/components/workout/util.ts:4 | on a duplicate id the later exercise wins |
| WorkoutUtil.ByIdKeyed | src/lib/components/workout/util.ts:4 | each exercise sits under its own id |
| WorkoutUtil.GetUniqueExerciseMap | src/lib/components/workout/util.ts:1-7 | the loop builds the last-wins id-to-exercise map of the items |
| WorkoutUtil.CreateExercisesById | src/lib/components/workout/util.ts:31-39 | the `reduce` builds the same last-wins map of the exercises |
| WorkoutUtil.SortedKeys | src/lib/components/workout/util.ts:10 | the ids in ascending order, the order `Object.values` visits integer keys |
| WorkoutUtil.Least | src/lib/components/workout/util.ts:10 | the smallest id of a non-empty set |
| WorkoutUtil.GetUniqueExercises | src/lib/components/workout/util.ts:9-11 | one exercise per distinct id, in ascending id order, each the one the map holds for its id |
| WorkoutUtil.ValuesInKeyOrder | src/lib/components/workout/util.ts:10 | the map's values in key order are ascending by id and carry exactly the map's keys |
| TrainingSessions.TotalPaused | src/lib/domain/training_sessions/entities/TrainingSession.ts:68-73 | defines `getTotalPausedMs` as the sum over the intervals of `(end ?? now) - start`, from the left |
| TrainingSessions.Elapsed | src/lib/domain/training_sessions/entities/TrainingSession.ts:75-78 | defines `getElapsedMs` as the time from the start to `completed_at ?? now`, less the paused time |
| TrainingSessions.PausedWithin | src/lib/domain/training_sessions/entities/TrainingSession.ts:68-73 | pauses taken one after another inside a stretch of time add up to between 0 and the length of that stretch |
| TrainingSessions.ActiveElapsedAdvances | src/lib/domain/training_sessions/entities/TrainingSession.ts:75-78 | while every pause is closed and the session is not completed, elapsed time advances exactly as the clock does |
| TrainingSessions.PausedElapsedFrozen | src/lib/domain/training_sessions/entities/TrainingSession.ts:68-78 | while the last pause is open, elapsed time stays at its value when the pause began |
| TrainingSessions.ClosedTotalFixed | src/lib/domain/training_sessions/entities/TrainingSession.ts:68-73 | with every pause closed, the paused total does not depend on the clock |
| TrainingSessions.TotalPausedNonNegative | src/lib/domain/training_sessions/entities/TrainingSession.ts:68-73 | the paused total is never negative when no interval ends before it starts |
| TrainingSessions.OpenPauseCounts | src/lib/domain/training_sessions/entities/TrainingSession.ts:70-71 | an open last pause adds the time since it started |
| TrainingSessions.CompletedElapsedFixed | src/lib/domain/training_sessions/entities/TrainingSession.ts:75-78 | a completed session with every pause closed has a fixed elapsed time |
| TrainingSessions.TimeTrackingExample | tests/domain/usecases/TrainingSession.test.ts:77-99 | starting at t, pausing from t+1000 to t+4000 and completing at t+6000 gives 3000 ms paused and 3000 ms elapsed |
| TrainingSessions.Closed | src/lib/domain/training_sessions/entities/TrainingSession.ts:42-49 | only the last interval gets an `end`, at `now`; the earlier intervals are kept, and all are then closed if the earlier ones were |
| TrainingSessions.TrainingSession.constructor | src/lib/domain/training_sessions/entities/TrainingSession.ts:15-22 | a new session has the given id and start, is `ACTIVE` by default, has no pause intervals and no `completed_at` |
| TrainingSessions.TrainingSession.Pause | src/lib/domain/training_sessions/entities/TrainingSession.ts:24-32 | only an active session pauses: it becomes paused with one open interval appended; any other status throws and changes nothing |
| TrainingSessions.TrainingSession.Resume | src/lib/domain/training_sessions/entities/TrainingSession.ts:34-50 | a session that is not paused throws and changes nothing; a paused one becomes active and its open interval is closed at `now`; without an open interval it throws after becoming active |
| TrainingSessions.TrainingSession.Complete | src/lib/domain/training_sessions/entities/TrainingSession.ts:52-62 | a completed session throws; a paused one is resumed first; the session then becomes completed at `now`; consistency is preserved |
| TrainingSessions.TrainingSession.TotalPausedMs | src/lib/domain/training_sessions/entities/TrainingSession.ts:68-73 | the sum of `(end ?? now) - start`; never negative for ordered intervals; independent of `now` once every pause is closed |
| TrainingSessions.TrainingSession.ElapsedMs | src/lib/domain/training_sessions/entities/TrainingSession.ts:75-78 | for pauses taken one after another between the start and `completed_at ?? now`, the elapsed time lies between 0 and the time from the start to that end |
| TrainingSessions.InMemoryTrainingSessionRepository.constructor | src/lib/infrastructure/in_memory/InMemoryTrainingSessionRepository.ts:6 | the store starts empty |
| TrainingSessions.InMemoryTrainingSessionRepository.List | src/lib/infrastructure/in_memory/InMemoryTrainingSessionRepository.ts:8-10 | exactly the stored sessions, one per id |
| TrainingSessions.InMemoryTrainingSessionRepository.Get | src/lib/infrastructure/in_memory/InMemoryTrainingSessionRepository.ts:16-18 | the session stored under the id, or `null` for an unknown id |
| TrainingSessions.InMemoryTrainingSessionRepository.Save | src/lib/infrastructure/in_memory/InMemoryTrainingSessionRepository.ts:12-14 | afterwards `get(e.id)` is `e`; an existing id is overwritten, so there is one entry per id; other ids are unchanged |
| TrainingSessions.InMemoryTrainingSessionRepository.Delete | src/lib/infrastructure/in_memory/InMemoryTrainingSessionRepository.ts:20-22 | true exactly when the id was stored; afterwards `get` is `null`; other ids are unchanged |
| TrainingSessions.KeysCount | src/lib/infrastructure/in_memory/InMemoryTrainingSessionRepository.ts:9 | there are as many stored sessions as ids in insertion order |
| TrainingSessions.Without | src/lib/infrastructure/in_memory/InMemoryTrainingSessionRepository.ts:21 | the insertion order without the deleted id, still without duplicates |
| TrainingSessions.NotFound | src/lib/kernel/errors.ts:38-39 | the error names the id and "TrainingSession", and says "TrainingSession with id … not found" with use case "CompleteTrainingSession" |
| TrainingSessions.StartTrainingSession.constructor | src/lib/domain/training_sessions/usecases/StartTrainingSession.ts:6-9 | the use case keeps its repository |
| TrainingSessions.StartTrainingSession.Execute | src/lib/domain/training_sessions/usecases/StartTrainingSession.ts:11-15 | a new active session, with the generated id and no pauses, is saved and returned; `get` of its id then yields it |
| TrainingSessions.PauseTrainingSession.constructor | src/lib/domain/training_sessions/usecases/PauseTrainingSession.ts:7 | the use case keeps its repository |
| TrainingSessions.PauseTrainingSession.Execute | src/lib/domain/training_sessions/usecases/PauseTrainingSession.ts:9-23 | an unknown id fails with `EntityNotFoundError` and saves nothing; an active session is paused, saved and returned; any other propagates the error and saves nothing; `completedAt` never changes, and a consistent session stays consistent |
| TrainingSessions.ResumeTrainingSession.constructor | src/lib/domain/training_sessions/usecases/ResumeTrainingSession.ts:7 | the use case keeps its repository |
| TrainingSessions.ResumeTrainingSession.Execute | src/lib/domain/training_sessions/usecases/ResumeTrainingSession.ts:9-23 | an unknown id fails and saves nothing; a paused session is resumed, with its interval closed, then saved and returned; otherwise the error propagates and nothing is saved, a paused session without an open interval being left active with its intervals unchanged; `completedAt` never changes, and a consistent session stays consistent |
| TrainingSessions.CompleteTrainingSession.constructor | src/lib/domain/training_sessions/usecases/CompleteTrainingSession.ts:7 | the use case keeps its repository |
| TrainingSessions.CompleteTrainingSession.Execute | src/lib/domain/training_sessions/usecases/CompleteTrainingSession.ts:9-24 | an unknown id fails and saves nothing; a completed session fails and saves nothing; a paused session without an open interval fails with the no-open-pause error, is left active and is not saved; any other is completed at `now` (a paused one after closing its interval), saved and returned; a consistent session stays consistent |
| Translations.FindTranslation | src/lib/shared/util/findTranslation.svelte.ts:4-16 | the first exact locale match when there is one; otherwise the last element after the first whose locale contains the current one, or else the first element; `undefined` for an empty list |
| Translations.ExactIsFirst | src/lib/shared/util/findTranslation.svelte.ts:11-13 | the scan stops at the first exact match, and only one element is that |
| Translations.FallbackUnique | src/lib/shared/util/findTranslation.svelte.ts:8-10 | without an exact match, the kept element is determined |
| Validation.Key | src/lib/domain/Core/Utils/zod.ts:8 | defines an issue's key: its path joined with `.`, or `_root` for an empty path |
| Validation.FirstMessage | src/lib/domain/Core/Utils/zod.ts:7-10 | defines the message the loop keeps for a key: that of the first issue for the key that carries one |
| Validation.SegmentTexts | src/lib/domain/Core/Utils/zod.ts:8 | each path segment as `join` writes it |
| Validation.KeyShapes | src/lib/domain/Core/Utils/zod.ts:8 | an empty path gives `'_root'`; a one-name path gives the name; longer paths give the segments joined by `'.'` |
| Validation.FirstMessageIsFirst | src/lib/domain/Core/Utils/zod.ts:9 | the message for a key is that of the first issue for it with a message, and there is none when no issue for it has one |
| Validation.FieldMapStep | src/lib/domain/Core/Utils/zod.ts:7-10 | one turn of the loop writes an issue's message only when its key is not yet written |
| Validation.IssuesToFieldMap | src/lib/domain/Core/Utils/zod.ts:3-12 | the keys are exactly those of issues with a message, each with the first such message |
| Validation.IssuesToFieldMapAsWritten | src/lib/domain/Core/Utils/zod.ts:9 | as written, `!out[key]` also reads inherited properties, so a key named like one of them is never written |
| Validation.ConstructorFieldDropped | src/lib/domain/Core/Utils/zod.ts:9 | one issue on field `constructor` with a message: the message exists, but the key is inherited |
| Validation.Validate | src/lib/domain/Core/Utils/zod.ts:21-40 | success gives `ok`, the data and no errors; failure gives no data and the field map `issuesToFieldMap` builds, which leaves out keys named like inherited properties |
| Validation.ValidateCorrected | src/lib/domain/Core/Utils/zod.ts:21-40 | as `validate`, with the corrected field map: on failure every key with a message gets its first message |
| Lazy.AfterAllThrew | src/lib/lazy.ts:6-7 | while every `init` call throws, each thunk call runs `init` again and nothing is cached |
| Lazy.AfterFirstSuccess | src/lib/lazy.ts:6-9 | once `init` returns, every later call yields that value and `init` is not run again |
| Lazy.CachedSticks | src/lib/lazy.ts:6-9 | `init` runs at most once per call, and a cached value is never replaced |
| Lazy.Lazy.constructor | src/lib/lazy.ts:3-5 | creating the thunk caches nothing and does not call `init` |
| Lazy.Lazy.Call | src/lib/util.ts:37-40 | a cached value is returned without calling `init`; otherwise `init` runs once and its result, if it returns, is cached and returned |

## Left out

- `src/lib/diff.ts`, `getKey`: its index and array arguments are not modelled. It is a function of the element alone, and numeric keys are their property-name strings.
- `src/lib/diff.ts`, `applyChanges`: the changes are applied to values, so in-place update and aliasing between the patched value and its parts are not captured.
- `src/lib/diff.ts`, ill-typed ops: an op on the wrong kind of value (an object op on an array, an array op on a scalar) is a no-op in the model. JavaScript would throw or write a stray property.
- `src/lib/diff.ts`, `array-move` out of range: a move from an index past the end is a no-op in the model. JavaScript would insert `undefined`.
- DiffLoops.ApplyChangeList: an `array-replace` or `array-changes` at an index past the end does nothing in the model. JavaScript's `aAny[i] = x` extends the array, with holes before `i`, and a nested apply would read `undefined`. The model has no holes in arrays; the diff never emits such an index for the arrays it was computed from.
- `src/lib/diff.ts`, key order: an object's keys keep their insertion order, and `object-set` of a new key appends it. JavaScript's `Object.keys` lists integer-like keys first, ascending, so for such keys the model's `getChanges` emits the object entries in a different order than the source.
- `src/lib/diff.ts`, special properties: the `length` property of arrays and keys such as `__proto__` are not modelled.
- `src/lib/diff.ts`, numbers: they are integers, and floating point is not modelled.
- DiffProofs.RoundTrip: it is stated under `WellFormed` and `Compatible`, with deep equality, because the source's promise fails otherwise. Object key order can change after a round trip. Duplicate keys, and an array paired with an object, break the reconciliation.
- `src/lib/repo/index.ts`: the awaits are taken as sequential.
- `src/lib/repo/index.ts`: the migration record is a map from integers, so a non-integer key cannot be written. Keys outside 1 to the number of entries stand for such keys: they count toward the size, as `Object.keys` counts them, and are never visited.
- Repo.Migrate: only a throwing `migrationFn` (or a rejected promise) is modelled. A `changeFn` that throws inside `docHandle.change` is not.
- `src/lib/repo/index.ts`: `onInit`'s own effects are not modelled. Only the document it receives is.
- `src/lib/repo/index.ts`: a change function that alters `version` itself is allowed, and its value is then overwritten.
- `src/lib/repo/index.ts`: `getRepo`, `findDocument`, `createDocument` and `deleteDocument` are calls into Automerge. They are not part of this model.
- `src/lib/sync/WebRTCClientAdapter.ts`: CBOR encoding and decoding, the signalling websocket (`#getWebSocket`, `#onWebSocketMessage`), the `Peer` library and `whenReady`'s promise are I/O. Messages are already-decoded values, peers are opaque handles, and sends and events are logs.
- WebRtc.WebRTCClientAdapter.Receive: a failing `welcome` send is not modelled. Only the `send` fan-out models failing peers.
- WebRtc.WebRTCClientAdapter.CreatePeer: errors of `#createPeer` and the timing of a peer's `close` event are not modelled. The close handler is a separate method that may run at any time.
- `src/lib/sync/WebRTCClientAdapter.ts`: `await getDeviceId()`, `await this.#join()`, `Promise.all` and the peer event callbacks are each modelled as one atomic step. Interleavings between them are not captured, and the local device id is a parameter.
- WebRtc.WebRTCClientAdapter.Send: `this.peerId!` is an `Option`, so an unset peer id stamps `None`.
- `src/lib/state/workout.svelte.ts`: persistence and its debounce (`internalUpdate`, `updateSet`'s await) are left out, as I/O.
- `src/lib/state/workout.svelte.ts`: the URL search parameters are left out, as `parseInt`/`toString` text handling.
- `src/lib/state/workout.svelte.ts`: the timers are left out; they tick in the UI.
- `src/lib/state/workout.svelte.ts`: the plain getters and setters are left out.
- `src/lib/state/workout.svelte.ts`: `deleteSet`, `deleteSetGroup`, `addSetGroup` and `moveSetGroups` are not modelled. The model of the group edits is limited to `moveSets`, `copySet` and `createSets`.
- WorkoutState.ActiveWorkout.CreateSets: only the classification is modelled. The source never assigns the group list it builds, so the workout is unchanged.
- WorkoutState.GetNext: it requires non-empty set groups and a group index in range. The source reads `setGroup.sets` only for the starting group, so an out-of-range group index throws. An empty group throws only when the scan lands in it and reads `set.status` (workout.svelte.ts:45). For example, with groups `[[], [s]]` and start (0, 0), the source returns `[1, 0]`. The model excludes every empty group.
- WorkoutState.ActiveWorkout.InternalUpdateSet, SetSet and MoveSets: they require positions in range, which the source reads without a check.
- WorkoutState.ActiveWorkout.CopySet, CopySetAsWritten and CreateSets: they require the group index in range, because the source reads `.sets` of `undefined` there and throws. A set index past the end is modelled: `copySet` appends a blank set.
- WorkoutState.ActiveWorkout.Next: `||` on durations is modelled as `?? 0`. A duration of 0 gives 0 either way.
- `src/lib/state/workout.svelte.ts`: a set's other numeric fields and a workout's other fields are carried as maps, unchanged.
- `src/lib/components/workout/util.ts`: `Object.values` order is modelled for non-negative integer ids, ascending.
- WorkoutUtil.GetRealSetPosition: an `index` past the end is excluded, because the source would read `undefined.setType` and throw.
- `src/lib/shared/util/findTranslation.svelte.ts`: the current locale is a parameter instead of the settings store.
- `src/lib/domain/Core/Utils/zod.ts`: symbol path segments are not modelled.
- `src/lib/domain/Core/Utils/zod.ts`: a field named `_root` shares its key with path-less issues, as in the source.
- `src/lib/domain/Core/Utils/zod.ts`: the schema's `safeParse` is a parameter.
- TrainingSessions: the clock is a single `now` per call.
- TrainingSessions: the use cases' awaits are sequential.
- TrainingSessions: aliasing through `getPauseIntervals()` is not modelled. The test edits the intervals through it, so the time-tracking example is stated on the functions.
- TrainingSessions: `n` pause/resume cycles leaving `n` closed intervals follows from composing the `Pause` and `Resume` contracts. No separate member states it.
- TrainingSessions.StartTrainingSession.Execute: the id generator's result is the parameter `newId`.
- TrainingSessions.InMemoryTrainingSessionRepository: it is the repository the use cases use. The `TrainingSessionRepository` interface is not modelled separately.
- Lazy: `init` is modelled as the outcome of its k-th call, where `None` is a throw.
- Lazy: a result equal to the `LAZY_UNINIT` sentinel cannot occur.
- Lazy: the two identical copies in `src/lib/lazy.ts` and `src/lib/util.ts:33-42` are modelled once.

## Findings

| source | as written | input that shows it | evidently intended | confidence | as-written member | corrected member |
|---|---|---|---|---|---|---|
| src/lib/state/workout.svelte.ts:162-172 | `moveSets` rebuilds every other group as `{ id: sg.id }` and the moved group without `setGroupType`, then assigns that list to `workout` | a workout with two groups, each holding a set; `moveSets(0, 0, 0)` leaves group 1 without its sets | the other groups keep their sets and type; only the moved group's sets change | not executed | WorkoutState.MoveSetsAsWritten, WorkoutState.MoveSetsAsWrittenLosesSets | WorkoutState.ActiveWorkout.MoveSets |
| src/lib/state/workout.svelte.ts:244-264 | `copySet` strips the other groups to `{ id }` and drops `setGroupType` in the same way | any workout with a second group that holds sets; `copySet(0, 0)` | only group `g` gains the copy | not executed | WorkoutState.CopySetAsWritten | WorkoutState.ActiveWorkout.CopySet |
| src/lib/domain/Core/Utils/zod.ts:9 | `!out[key]` reads inherited properties of `{}`, so a field named `constructor` (or `toString`, …) is never written | one issue with path `["constructor"]` and message `"Required"` gives `{}` | every key with a message gets its first message | not executed | Validation.IssuesToFieldMapAsWritten, Validation.ConstructorFieldDropped | Validation.IssuesToFieldMap, Validation.ValidateCorrected |
