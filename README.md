# Change-detection engine of the ghostunnel file watcher

This project models the part of ghostunnel's `watcher.go` that decides when
a watched file has changed. The watcher keeps a hash store: a map from each
watched file's base name to the SHA-256 digest last seen for it. It fills the
store once at start (`hashFiles`). It then runs one of two loops:

- The timed watcher (`watchTimed`) checks every file on each tick and sends
  one notification per tick if any of them changed.
- The event-driven watcher (`watchAuto`) maps each file-system event to the
  first watched file with the same base name. It re-subscribes to that file
  when the event has the Create bit, checks the file, and sends one
  notification if the file changed.

Both modes use one change detector (`fileChanged`). It re-hashes the file.
A read error counts as no change. A different digest overwrites the store
entry and counts as a change.

Layout:

- `wrappers.dfy`: the `Option` datatype.
- `change_model.dfy` (module `ChangeModel`): the behaviour as values. It has
  the store lookup, the detector `Detect`, the initial population `Populate`,
  one timed sweep `Sweep` and the event match `FirstMatch`, with the lemmas
  about them.
- `watcher.dfy` (module `Watcher`): the imperative watcher. `HashFiles` and
  `Subscribe` are loops that return the initial store and the initial
  subscriptions. The class `Watcher` holds the file list, the hash store,
  the set of subscribed paths and the number of notifications sent. Its
  methods `FileChanged`, `Tick` and `HandleEvent` change that state in place.
  Each method is proved equal to the matching function of `ChangeModel`.
- `scenarios.dfy` (module `Scenarios`): two clients. They edit a file, remove
  it and re-create it, and follow the outcome using only the methods'
  contracts.

The disk, SHA-256, `path.Base` and `path.Dir` are parameters, not fixed
functions:

- The disk is the `fs` argument of each step. It maps a path to its bytes, or
  to `None` when the read fails. Saying that nothing changed on disk between
  two steps means passing the same `fs` to both.
- SHA-256 is the watcher's `sha` field, a function from bytes to a 32-byte
  `Digest`.
- `path.Base` is the watcher's `base` field. `path.Dir` is a parameter of the
  event-driven constructor.

## Model

| member | source | states |
|---|---|---|
| `ChangeModel.Detect` | watcher.go:132-148 | Read error: no change, and the store is unchanged. Successful read: a change exactly when the stored digest (zero if absent) differs. Afterwards the store holds the new digest. Only the entry for that base name can be overwritten. No entry is ever removed. |
| `ChangeModel.DetectIdempotent` | watcher.go:139-147 | A second check of the same file with the same contents reports no change and leaves the store as it is. |
| `ChangeModel.ReadErrorPreservesBaseline` | watcher.go:133-137 | A failed read between two checks does not affect the next check. That check compares against the last digest successfully read. |
| `ChangeModel.Populate` | watcher.go:103-119 | Every entry of the initial store is the digest of some readable watched file with that base name. |
| `ChangeModel.PopulateKeys` | watcher.go:104-116 | The keys of the initial store are exactly the base names of the files that can be read. Unreadable files are skipped. |
| `ChangeModel.PopulateLastWins` | watcher.go:106-116 | A readable file keeps its own digest in the initial store when no later readable file shares its base name. So the later file wins a base-name collision. |
| `ChangeModel.PopulateAgrees` | watcher.go:106-116 | When readable files that share a base name have equal digests, every readable file's own digest is in the initial store under its base name. |
| `ChangeModel.Sweep` | watcher.go:86-92 | A sweep that reports no change leaves the store exactly as it was. A sweep never removes an entry. |
| `ChangeModel.SweepRefreshes` | watcher.go:86-92 | The sweep does not stop at the first change. Afterwards every entry reads as the old store overwritten by a fresh population from the same disk. |
| `ChangeModel.SweepLeavesOthers` | watcher.go:87-92 | A sweep does not touch an entry whose name no swept file has. |
| `ChangeModel.SweepReportsStale` | watcher.go:86-92 | For every file list, a sweep reports a change exactly when some readable file's digest differs from the one stored for its base name before the sweep. |
| `ChangeModel.SweepIdempotent` | watcher.go:86-98 | When readable files that share a base name have equal digests (always so for distinct base names or a path listed twice), a second sweep over an unchanged disk reports no change and leaves the store as it is. |
| `ChangeModel.CollidingFilesAlwaysChange` | watcher.go:87-92 | For any file list holding two readable files with the same base name and different digests, every sweep reports a change, even when nothing on disk changed. |
| `ChangeModel.FirstMatch` | watcher.go:47-49 | The matched index is a watched file whose base name equals the event's base name, and no earlier file has that base name. No match means no watched file has that base name. |
| `Watcher.HasCreate` | watcher.go:55 | The Create test holds exactly when the lowest bit of the op mask is set, whatever other bits the mask carries. |
| `Watcher.HashFiles` | watcher.go:103-119 | Builds the initial store: the population of the file list from the disk. Its keys are exactly the base names of the readable files. |
| `Watcher.Subscribe` | watcher.go:36-42 | Subscribes to every watched file and to every watched file's directory, and to nothing else. |
| `Watcher.Watcher.Timed` | watcher.go:78-79 | The timed watcher runs in timed mode only. It starts with the initial store, no subscriptions and no notifications. |
| `Watcher.Watcher.Auto` | watcher.go:31-42 | The event-driven watcher runs in event mode only. It starts with the initial store. It is subscribed to exactly the files and their directories, and has sent no notifications. |
| `Watcher.Watcher.FileChanged` | watcher.go:132-148 | The in-place detector: its result and the new store are those of `Detect` on the old store. |
| `Watcher.Watcher.Tick` | watcher.go:83-98 | One tick checks every file in order and leaves the store as `Sweep` does. It adds one notification if the sweep reported a change, and none otherwise. |
| `Watcher.Watcher.HandleEvent` | watcher.go:46-68 | With no matching file, nothing changes. Otherwise only the first match is processed. It is added to the subscriptions if the op mask has the Create bit, it is checked as by `Detect`, and at most one notification is sent, only on a change. |
| `Scenarios.TimedEditRemoveRecreate` | watcher.go:78-100 | A timed watcher sees a file rewritten, left alone, removed, and re-created with the same bytes. It sends exactly one notification. |
| `Scenarios.AutoRemoveRecreateEdit` | watcher.go:44-68 | Event-driven mode: a remove event sends nothing. Re-creating the file with its old bytes sends nothing. A later write with new bytes sends exactly one notification. |

Notes on the source:

- The store is keyed by base name. So two watched files in different
  directories with the same base name share one entry. If their contents
  differ, every timed tick reports a change, because the shared entry is
  overwritten back and forth (`CollidingFilesAlwaysChange`). If they agree,
  a repeated tick over an unchanged disk is quiet (`SweepIdempotent`).
  Together the two lemmas say that a quiet repeated tick is exactly the
  case where readable namesakes agree.
- `Lookup` and `HashFile` are definitions, not proved operations. `Lookup`
  reads the store as Go reads a map: an absent key gives the all-zero
  digest, Go's zero value for `[32]byte` (watcher.go:140). `HashFile` is
  the read followed by the digest (watcher.go:122-129): a failed read gives
  `None`, never a digest. `Detect`'s contract states what these mean for a
  check.
- An absent store entry is compared as the all-zero digest
  (watcher.go:140-141). A file first seen after start whose digest happened
  to be all zeros would read as "no change" and get no entry. The model
  keeps this comparison exactly as written.
- The Create test is a bit test on the event's op mask
  (watcher.go:55). An event carrying Create together with other bits also
  re-subscribes.

## Left out

- File reading (`ioutil.ReadFile`) is the `fs` argument of each step: a
  total map from path to `Some(bytes)` or `None`. Which error occurred is not
  modelled, since every error is handled the same way.
- SHA-256 is the `sha` parameter, with no properties assumed. A change of
  contents with an equal digest reads as "no change", as it would in the
  source.
- `path.Base` and `path.Dir` are the `base` and `dir` parameters; their own
  edge cases are not modelled.
- The values of fsnotify's op bits (Create = 1, Write = 2, Remove = 4) follow
  the order in which fsnotify v1 declares them. fsnotify is not part of this
  model.
- Watcher.Watcher.HandleEvent: together with Watcher.Subscribe, the model does not cover
  the OS dropping a removed file's subscription, a failed `watcher.Add`
  (it is still recorded as subscribed), or event delivery depending on the
  subscriptions. Re-subscribing on a Create event therefore changes the
  set of subscribed paths but has no observable effect on detection.
- Creating the OS watcher and aborting when that fails (`fsnotify.NewWatcher`,
  `panicOnError`) are not modelled. `watcher.Add` is modelled as inserting
  into the set of subscribed paths, and its own errors are ignored, as the
  source ignores them.
- The `watcher.Errors` case of the event loop (watcher.go:70-71) only logs.
  It changes no state and is not modelled.
- Channels, `select`, `time.Tick` and the blocking send `notify <- true` are
  concurrency and timing. A notification is one increment of
  `notifications`.
- The two loops never share a watcher: the class records its mode, and
  `Tick` and `HandleEvent` each require their own mode.
- The infinite `for {}` loops are modelled as one method call per iteration
  (`Tick`, `HandleEvent`).
- Logging (`logger.Printf`, `hex.EncodeToString`) is diagnostics only.
