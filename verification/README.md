# Trainee status board: aggregation and websocket hub

A Dafny model of the two pieces of the training-cluster welcome app that do real work.

- **The trainee listing** behind the index page (`index(teacher)` in `main.go`). Credential
  Secrets are read from the cluster. Each one is enriched with three lookups: whether a
  `cluster-admin-<username>` ClusterRoleBinding exists, whether a ready container runs in the
  user's `<username>-webshell` pods, and the display name held by the
  `trainee-displayname-<username>` ConfigMap. Admins are hidden from trainees and marked for
  teachers. Readiness is computed for teachers only. The list is sorted by the number `getNum`
  reads after the `user` prefix.
- **The websocket hub** (`hub.run` plus the lock/unlock branch of the connection handler).
  It holds the connected clients and a shared `username -> locked` table. `locksChanged` is a
  one-slot buffered channel that is written with a non-blocking send. The hub sends the lock
  table to each new client. It broadcasts name maps to all clients, and after a change signal
  it sends the whole table to all clients.
- **The names broadcast** that follows a display-name update (`broadcastTraineeNames`).

The cluster client is modelled as oracle functions (`Trainees.Cluster`). They are keyed by the
resource names and label selectors the code builds, and `None` stands for a failed call. A
websocket connection is a number. Writes to a connection are appended to that client's outbox.
Inbound frames are already-decoded `{type, username}` envelopes. Hub events are applied one at
a time.

Modules: `Wrappers` (Option), `Strconv` (Go's `strconv.Atoi`), `Sorting` (sorting by an integer
key), `Trainees` (the listing, `getNum`, `getDisplayName`, the names map), `Hub` (the hub state
machine), `Bridge` (the names broadcast as a hub event).

Behaviour of the code that the model keeps:

- The code appends one entry per Secret and does not deduplicate usernames. It does not
  guarantee one entry per distinct username.
- `sort.Slice` is a deterministic pattern-defeating quicksort that is not stable. Up to 12
  elements it runs a stable insertion sort, which gives the same order as `Sorting.Sort`. On
  longer lists, entries with equal keys (every username without a number, for instance) may end
  up in another order than the model's. Only the key order and the permutation are claimed.
  `Sorting.SortedPermutationUnique` shows that when keys are distinct, every sort gives the
  same result.
- A failed Secret list panics inside the handler. The model treats it as a failed request
  (`Page.Failed`).
- The lock table is written by each connection's goroutine, not only by the hub loop. The model
  serialises these writes with the hub's events.
- A failed write to a client does not unregister it. Write errors are ignored, and a client is
  removed only when its own read loop ends.

## Model

| member | source | states |
|---|---|---|
| Strconv.Atoi | main.go:141 | A successful parse yields a value in Go's 64-bit `int` range, and the input is an optional sign followed by one or more decimal digits |
| Strconv.AtoiAcceptsPadded | main.go:141 | Every optionally signed, optionally zero-padded decimal form of an in-range integer parses to that integer |
| Strconv.AtoiRejectsOutOfRange | main.go:141-146 | The same forms are an error when the integer does not fit in an `int`, so `getNum` falls back to 0 |
| Strconv.AtoiAcceptsOnlyPadded | main.go:141 | Conversely, every accepted string is its sign, then leading zeros, then the canonical digits of the returned value's magnitude, and the sign agrees with the value |
| Strconv.AtoiFormatInt | main.go:141 | Round trip: Atoi reads back the canonical decimal form of every in-range integer |
| Strconv.AtoiRejectsSyntax | main.go:141-146 | The empty string, a lone sign, a doubled sign, a stray space, a letter or an underscore all make Atoi fail |
| Trainees.GetNum | main.go:138-147 | The key is Atoi's value of the text after `user` when the username has that prefix and Atoi succeeds; otherwise it is 0 |
| Trainees.GetNumOfUser | main.go:138-147 | `user<N>` has key N for every N up to the `int` maximum |
| Trainees.GetNumDefaults | main.go:139-146 | The bare prefix `user`, other prefixes (the prefix test is case sensitive) and non-numeric suffixes all have key 0 |
| Trainees.GetNumOfSuffix | main.go:139-146 | A `user`-prefixed username has as key whatever Atoi reads from the rest of it, and 0 when Atoi fails |
| Trainees.GetNumSignsAndPadding | main.go:140-144 | Zero padding and signs after the prefix are read as Atoi reads them: `user007` is 7, `user-3` is -3, `user+4` is 4 |
| Trainees.Field | main.go:89 | A Secret data field reads as its value, or as the empty string when the key is missing |
| Trainees.AnyContainerReady | main.go:113-118 | The scan of one pod's container statuses with early exit is true exactly when some container is ready |
| Trainees.AnyPodReady | main.go:112-122 | The nested scan with early exit is true exactly when some pod has some ready container |
| Trainees.PodReady | main.go:106-123 | Readiness is true exactly when the webshell pod list in the user's namespace succeeds and contains a ready container; a failed list means not ready |
| Trainees.ResolveDisplayName | main.go:395-403 | A non-empty result is the `displayName` entry of a fetched ConfigMap with data; a failed fetch, nil data or a missing key all give the empty string |
| Trainees.CollectOrigins | main.go:87-134 | Entry k of the aggregation loop is the entry built from Secret `Origins[k]`, copying its fields and lookups |
| Trainees.OriginsIncreasing | main.go:88-133 | The source indices of the entries strictly increase: fetch order is kept and no Secret yields two entries |
| Trainees.OriginsRetained | main.go:90-102 | A Secret has an entry exactly when it is retained: always for teachers, and only without an admin binding for trainees |
| Trainees.CollectHasRetained | main.go:87-134 | The aggregation loop builds an entry for every retained Secret |
| Trainees.CollectCountsRetained | main.go:87-134 | The loop builds exactly as many entries as there are retained Secrets |
| Trainees.Index | main.go:136-149 | The listing is a permutation of the loop's entries, ordered so that no entry's `getNum` of the username exceeds a later entry's |
| Trainees.IndexFromRetained | main.go:87-134 | Every listed entry is the entry built from some retained Secret |
| Trainees.IndexListsRetained | main.go:87-134 | Every retained Secret's entry is listed, and there are exactly as many entries as retained Secrets |
| Trainees.TraineeViewHidesAdmins | main.go:92-105 | Without the teacher flag, no listed entry has an admin binding or `IsAdmin`, no Secret of an admin username is listed, and `PodReady` is always false |
| Trainees.TeacherViewListsAll | main.go:94-124 | With the teacher flag, every Secret is listed. `IsAdmin` is true exactly when the binding exists, and `PodReady` matches the webshell readiness |
| Trainees.IndexCopiesSecrets | main.go:126-133 | Every entry carries a Secret's username and password unchanged and the display-name lookup for that username |
| Trainees.TraineeViewIgnoresPods | main.go:104-124 | Without the teacher flag, the listing does not depend on the pod lists: changing the pods oracle leaves it unchanged |
| Trainees.IndexPage | main.go:58-85 | Without the teacher flag, a configured token that the query does not match serves the login form. Otherwise a failed Secret list fails the request, and a successful one serves the listing |
| Trainees.ExampleNumericOrder | main.go:136-149 | Non-admin credentials user2, user10, user1 are listed as user1, user2, user10 |
| Trainees.ExampleAdminHidden | main.go:92-97 | With user3 an admin and user4 not, the trainee view lists only user4 |
| Trainees.ExampleAdminMarked | main.go:98-101 | The teacher view of that cluster lists both, user3 with `IsAdmin` and user4 without |
| Trainees.NamesMap | main.go:279-284 | The names map has exactly the usernames of the Secrets as keys, each mapped to its display-name lookup |
| Trainees.NamesMatchTeacherView | main.go:279-284 | The names map agrees with the teacher view: same usernames, same display names |
| Sorting.Sort | main.go:137-149 | The result is a permutation of the input and is ordered by key |
| Sorting.SortedPermutationUnique | main.go:137-149 | When no two elements share a key, any key-ordered permutation is unique, so only ties depend on the sort algorithm |
| Hub.Connect | main.go:207-211 | Registering adds the client and sends the current lock table to that client only. The table and the signal buffer are unchanged |
| Hub.Disconnect | main.go:212-216 | Unregistering removes the client, does nothing when it is not registered, and sends nothing |
| Hub.Broadcast | main.go:217-220 | Every registered client, and no other, is sent the same names message. Clients, locks and the buffer are unchanged |
| Hub.Signal | main.go:254-257 | A non-blocking send on the capacity-1 channel adds a signal when there is room and is dropped otherwise |
| Hub.Lock | main.go:252-257 | A lock frame sets its username to locked and leaves every other key, the clients and the outboxes alone. It leaves a signal pending |
| Hub.Unlock | main.go:258-263 | An unlock frame removes its username, leaves every other key, the clients and the outboxes alone, and leaves a signal pending |
| Hub.Handle | main.go:250-264 | `lock` frames lock, `unlock` frames unlock, and frames of any other type change nothing, including the signal buffer |
| Hub.Drain | main.go:221-225 | Taking a buffered signal sends the whole current table to every registered client and empties one slot; with no signal buffered nothing happens |
| Hub.NewHubValid | main.go:191-199 | A new hub, with no clients, an empty lock table and an empty signal buffer, is valid |
| Hub.StepValid | main.go:198 | Every event keeps at most one signal buffered and every lock-table value true |
| Hub.RunValid | main.go:204-227 | Any sequence of events keeps the hub valid |
| Hub.LockIdempotent | main.go:252-257 | Locking the same username twice gives the same hub state as locking it once |
| Hub.UnlockIdempotent | main.go:258-263 | Unlocking twice equals unlocking once, and unlocking an unlocked key leaves the table as it was |
| Hub.DisconnectIdempotent | main.go:212-216 | Unregistering twice equals unregistering once |
| Hub.FirstMessageIsLocks | main.go:207-211 | A newly connected client's first message is the lock table, which is the empty table on a fresh hub |
| Hub.SentOnlyGrows | main.go:204-227 | What a client has been sent is a prefix of what it has been sent after any further events |
| Hub.FrameBurst | main.go:250-264 | After inbound frames with no drain, clients and outboxes are unchanged, and each key is locked exactly when its last frame was a lock (or it was locked before and no frame names it). At most one signal is pending, exactly one if any frame was lock or unlock |
| Hub.CoalescedBroadcast | main.go:221-263 | After any burst with a lock or unlock frame, one drain sends each registered client exactly one locks message with the final table. The buffer is then empty, so a second drain sends nothing |
| Hub.ExampleTwoClientsLock | main.go:207-225 | Two clients connect and one locks user1: after the drain, both have been sent the empty table and then `{user1: true}` |
| Bridge.NamesBroadcast | main.go:270-285 | A failed Secret list submits no broadcast. Otherwise one broadcast is submitted, carrying every listed username mapped to its display name |
| Bridge.BroadcastReachesClients | main.go:217-220 | Applying that broadcast sends every connected client the same names message and leaves the lock table and buffer unchanged |
| Bridge.ExampleAlice | main.go:395-403 | Once user1's ConfigMap holds the display name "Alice", the broadcast names map is `{user1: "Alice"}` |

## Left out

- HTTP routing, the `logging` middleware, template rendering, static files and the health
  endpoint: these are I/O plumbing.
- The Kubernetes client: Secrets list, ClusterRoleBinding get, pods list, ConfigMap
  get/create/update. Their answers are the oracle functions of `Trainees.Cluster` and the
  `listing` parameters. `updateTraineeNameHandler`, which persists a name, is not modelled
  beyond the broadcast it triggers. `getTraineeNamesHandler` builds the same map as
  `Trainees.NamesMap`.
- The websocket upgrade, `ReadMessage`, `WriteJSON` and JSON decoding. Only the decoded
  `{type, username}` envelope is modelled. A malformed frame decodes to whatever fields
  `json.Unmarshal` managed to fill, which is an input to the model.
- Closing a connection on unregister, and write failures: a write is modelled as always
  succeeding.
- Goroutines, channel scheduling and the data race on the lock map. Events are applied one at
  a time, and nothing is claimed about interleavings.
- Lock ownership: as in the code, any frame can unlock any key. Locks are not tied to a
  connection and are not released on disconnect.
- `getLabProgressHandler`, an outbound HTTP proxy with a timeout.
- Environment-variable configuration and timing. The Secret data keys are the `Keys` parameter,
  with `DefaultKeys` as the defaults, and the access token is a parameter of `IndexPage`.
- Strconv.Atoi: models Go's `int` as 64 bits wide. A 32-bit build would reject more suffixes.
- Secret data and usernames are modelled as strings of characters, not bytes. The `user` prefix
  is ASCII, so byte index 4 and character index 4 are the same split.
