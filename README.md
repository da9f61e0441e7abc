# Websocket connection registry of vibe-kickstart, modelled in Dafny

The Go server of vibe-kickstart keeps its live websocket connections in a
`ConnectionManager` (`vibekickstart/wsconn.go`). The manager maps a group name
to a `ConnectionInfo` record: the connections joined under that name, in join
order, and the name itself. `Add` appends a connection and creates the group if
needed. `Remove` deletes the first matching connection and drops a group once it
is empty. Four read-only queries report three counts and an existence test.
The two broadcasts first take a snapshot of their targets and then write to
each target concurrently.

This project models that registry as a sequential data structure.

- `registry.dfy`, module `Registry`: the registry state as a value
  (`Connections = map<string, ConnectionInfo>`). It defines what `Add` and `Remove`
  do to the map (`AddTo`, `RemoveFirst`, `RemoveFrom`). It defines the registry's
  contents as a multiset of (group name, handle) pairs (`Entries`) and its size
  (`Total`). Both are taken over the groups in no particular order, and
  `EntriesRemove` proves that the order does not matter. The lemmas prove the
  invariant, the count changes, group isolation, and the meaning of a snapshot.
- `wsconn.dfy`, module `WsConn`: `ConnectionManager` as a class with a single
  `connections` field. It has the Go code's methods:
  - `Remove` keeps the search loop and its `break`.
  - `BroadcastAll` keeps the nested copy loops.
  - `GetConnectionCount` keeps the summing loop.

  Each method is proved against the `Registry` functions. The three pure reads
  are functions.

  The rest of `wsconn.dfy` follows how the application uses the registry:
  - every websocket handler joins the single group `"counter"` on connect and
    leaves it on close (`vibekickstart/app.go:123-124`);
  - every counter update goes out through `BroadcastAll`
    (`vibekickstart/app.go:174-188`).

  `BroadcastCounter` proves that, with `"counter"` the only group there can
  be, the broadcast reaches exactly that group's clients, and nobody when the
  group is absent. `CounterScenario` joins two clients, broadcasts, lets the
  first leave and broadcasts again.

A connection handle is a `nat` identity (`Registry.Handle`). The registry only
ever compares handles, as the Go code compares `*websocket.Conn` pointers. Go map
iteration order is unspecified. The model walks a shrinking copy of the map and
picks each key with `:|`, so the proofs hold for every order. For the same reason,
the `BroadcastAll` snapshot is specified by its multiset of pairs, not by a
fixed order.

The invariant `Registry.Valid` says that no group is empty and that every
record's `name` equals its key. The constructor establishes it. `Add` and
`Remove`, and any sequence of them (`ReplayCounts`), preserve it.

`Add` does not check for duplicates: adding a handle twice gives two entries
(`AddOccurrences`), and `Remove` takes out only the first.

## Model

| member | source | states |
|---|---|---|
| `WsConn.ConnectionManager.constructor` | vibekickstart/wsconn.go:26-31 | a new manager has no groups and satisfies the invariant |
| `WsConn.ConnectionManager.Add` | vibekickstart/wsconn.go:33-50 | the new map is `AddTo` of the old one; the invariant is kept; the connection count and the group's size each rise by one; the group count rises by one exactly when the name was absent |
| `WsConn.ConnectionManager.Remove` | vibekickstart/wsconn.go:52-78 | the search loop with `break` and the final delete-or-store produce `RemoveFrom` of the old map; the invariant is kept; the connection count drops by one exactly when the handle was registered under that name |
| `WsConn.ConnectionManager.BroadcastAll` | vibekickstart/wsconn.go:80-94 | the snapshot lists have equal length, equal to the connection count; `allNames[i]` is a group that holds `allConns[i]`; the multiset of (name, handle) pairs equals the registry's contents, pair by pair |
| `WsConn.ConnectionManager.BroadcastToName` | vibekickstart/wsconn.go:119-132 | no targets for an absent group; otherwise the group's own list, in order, so its length is the group size and every handle appears as often as it is registered there |
| `WsConn.ConnectionManager.GetConnectionCount` | vibekickstart/wsconn.go:157-167 | the loop over the groups in any order returns the total number of registered handles |
| `WsConn.ConnectionManager.GetNameCount` | vibekickstart/wsconn.go:169-174 | the number of groups; under the invariant never more than the number of handles |
| `WsConn.ConnectionManager.GetConnectionsByName` | vibekickstart/wsconn.go:176-186 | 0 for an absent group, else the group's length; never more than the total |
| `WsConn.ConnectionManager.HasName` | vibekickstart/wsconn.go:188-196 | existence of the key; under the invariant, true exactly when `GetConnectionsByName` is positive |
| `WsConn.JoinCounter` | vibekickstart/app.go:123 | two clients joining `"counter"` from an empty manager give the single group `[h1, h2]` named `"counter"`, with the invariant |
| `WsConn.LeaveCounter` | vibekickstart/app.go:124 | the first client leaving leaves the single group `[h2]`, with the invariant |
| `WsConn.BroadcastCounter` | vibekickstart/app.go:174-188 | with `"counter"` the only group there can be, including the empty registry the ticker broadcasts to before any client joins, the targets of `BroadcastAll` are exactly the group's handles, each as often as it is registered, and none when the group is absent |
| `WsConn.CounterScenario` | vibekickstart/app.go:123-187 | two joins, a broadcast, one leave and a second broadcast: the first broadcast reaches `h1` and `h2` once each, the second reaches only `h2` |
| `Registry.AddTo` | vibekickstart/wsconn.go:38-49 | the key set gains `name`; `h` is appended at the end of the existing list, which keeps its record name; an absent group is created as `[h]` with `Name == name`; other groups are unchanged; the invariant is kept |
| `Registry.AddOccurrences` | vibekickstart/wsconn.go:47-49 | Add registers exactly one more copy of (name, h) and changes no other count, so nothing is deduplicated |
| `Registry.AddCounts` | vibekickstart/wsconn.go:39-49 | total +1; group size +1; group count +1 if and only if the name was absent |
| `Registry.RemoveFirst` | vibekickstart/wsconn.go:63-69 | the list with the first occurrence of `h` deleted, if there is one; its properties are the three lemmas below |
| `Registry.RemoveFirstCounts` | vibekickstart/wsconn.go:63-69 | the list loses one element exactly when `h` is in it, and its multiset loses exactly one `h` |
| `Registry.RemoveFirstAbsent` | vibekickstart/wsconn.go:63-69 | a list without `h` is unchanged |
| `Registry.RemoveFirstAt` | vibekickstart/wsconn.go:63-69 | when `i` is the first index of `h`, the result is `s[..i] + s[i+1..]`: only that element goes and the rest keep their order |
| `Registry.RemoveFrom` | vibekickstart/wsconn.go:57-77 | an absent group leaves the map as it is; otherwise the group keeps its record with the shortened list, or is deleted when that list is empty; other groups are unchanged; the invariant is kept |
| `Registry.RemoveAbsentIsNoOp` | vibekickstart/wsconn.go:57-77 | under the invariant, removing from an absent group or removing an absent handle leaves the whole map unchanged |
| `Registry.RemoveOccurrence` | vibekickstart/wsconn.go:63-77 | the count of one (group, handle) pair drops by one when it is the removed pair and present, and is otherwise unchanged |
| `Registry.RemoveOccurrences` | vibekickstart/wsconn.go:63-77 | the same for all pairs at once: Remove forgets exactly one registration, if there is one |
| `Registry.RemoveTotal` | vibekickstart/wsconn.go:63-77 | the total drops by one exactly when the handle was registered under that name |
| `Registry.RemoveNameCount` | vibekickstart/wsconn.go:71-77 | under the invariant, removing a group's last handle deletes the group and lowers the group count by one; otherwise the group count stays |
| `Registry.Entries` | vibekickstart/wsconn.go:88-93 | the reference fold that `BroadcastAll` is proved against: the multiset of (group name, handle) pairs, one per registration, with the groups in no particular order |
| `Registry.Total` | vibekickstart/wsconn.go:162-165 | the reference count that `GetConnectionCount` is proved against: the number of registrations, the size of `Entries` |
| `Registry.EntriesRemove` | vibekickstart/wsconn.go:88-93 | the registry's contents do not depend on the order in which the groups are visited |
| `Registry.EntriesCount` | vibekickstart/wsconn.go:88-93 | the contents hold (n, x) exactly as often as x is registered under n |
| `Registry.TotalRemove` | vibekickstart/wsconn.go:162-165 | the total is the sum of the group lengths: any group's length plus the total of the rest |
| `Registry.TotalUpdate` | vibekickstart/wsconn.go:162-165 | replacing one group's record changes the total by the difference in lengths |
| `Registry.GroupWithinTotal` | vibekickstart/wsconn.go:176-186 | a group's size never exceeds the total |
| `Registry.TotalAtLeastNames` | vibekickstart/wsconn.go:170-174 | under the invariant there are at least as many handles as groups, and the total is 0 exactly when there are no groups |
| `Registry.ReplayCounts` | vibekickstart/wsconn.go:34-78 | after any sequence of Add/Remove calls, the total equals the old total plus the additions minus the removals that found their handle; the invariant holds throughout |
| `Registry.JoinsAppend` | vibekickstart/wsconn.go:34-50 | joining handles one call at a time loses no update: the group ends with its old list followed by all of them, in call order |
| `Registry.SingleGroupSnapshot` | vibekickstart/wsconn.go:85-93 | when one group is registered, a snapshot's handles form exactly that group's multiset |
| `Registry.SnapshotContents` | vibekickstart/wsconn.go:85-93 | two parallel lists whose pairs are exactly the registry's contents have one entry per registered handle, and each handle is registered under the name beside it |

## Left out

- Locking (`sync.RWMutex`, `vibekickstart/wsconn.go:17` and the lock and unlock calls): every call is one atomic step, and nothing about concurrent callers is modelled.
- The dispatch half of both broadcasts (`vibekickstart/wsconn.go:96-116`, `134-154`): goroutines, `sync.WaitGroup`, the per-write 5-second `context.WithTimeout`, `conn.Write` and `log.Printf`. These are concurrency, time and a foreign websocket library. Each broadcast returns the list of targets it would attempt, one attempt per entry. Failure isolation and the wait-for-all behaviour are not modelled.
- The message payload and the `context.Context` parameters of the broadcasts are dropped, because only the dispatch uses them.
- In-place slice sharing: `slices.Delete` and `append` can reuse the backing array of the stored slice. The model works on immutable sequences, so it does not capture aliasing between the stored slice and the local `info.Conns`. No snapshot is affected, because the Go code copies the targets before it releases the lock.
- WsConn.ConnectionManager.BroadcastAll: requires the registry invariant, which the Go method does not check. Without the invariant, `allNames[i]` could be a record's stale `Name` field rather than its key. Every manager is built by the constructor and changed only by `Add` and `Remove`, which keep the invariant.
- `vibekickstart/app.go`: HTTP routing, templates, websocket accept, the read loop, JSON, the ticker and the global counter. Only its use of the group `"counter"` and of `BroadcastAll` is modelled, in `JoinCounter`, `LeaveCounter`, `BroadcastCounter` and `CounterScenario`.
- `vibekickstart/multiline.go`: the log handler, which is output formatting.
- `src/main.js`, `build.js` and `tests/e2e/*.spec.js`: browser UI, build script and browser tests. None of them touches the registry's logic.
