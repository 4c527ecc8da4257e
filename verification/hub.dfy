/**
 The websocket hub: the set of connected clients, the shared lock table, the one-slot
 `locksChanged` signal buffer, and what each client has been sent. Every channel receive
 of the hub loop, and every lock/unlock frame handled by a connection, is one event;
 events are applied one at a time.
 */
module Hub {
  import opened Wrappers

  /** A websocket connection. */
  type Client = nat

  /**
   The JSON messages written to clients. `Locks` is the `{"type": "locks", "locks": ...}`
   envelope; `Names` is the bare `{username: displayName}` object, with no `type` field.
   */
  datatype Message =
    | Names(names: map<string, string>)
    | Locks(locks: map<string, bool>)

  /** The decoded `{type, username}` envelope of an inbound frame. */
  datatype Frame = Frame(kind: string, username: string)

  datatype Event =
    | Register(client: Client)
    | Unregister(client: Client)
    | BroadcastNames(names: map<string, string>)
    | Receive(frame: Frame)
    | DrainLocksChanged

  /** The buffer size of the `locksChanged` channel. */
  const LocksChangedCapacity: nat := 1

  const LockKind := "lock"
  const UnlockKind := "unlock"

  /**
   The hub's state; `pending` is the number of signals buffered in `locksChanged`, and
   `outbox[c]` everything written to client `c` so far.
   */
  datatype Hub = Hub(
    clients: set<Client>,
    locks: map<string, bool>,
    pending: nat,
    outbox: map<Client, seq<Message>>)

  function NewHub(): Hub {
    Hub({}, map[], 0, map[])
  }

  /**
   The buffer never holds more than its capacity, and a key in the lock table always
   maps to true: presence is what means locked.
   */
  ghost predicate Valid(h: Hub) {
    && h.pending <= LocksChangedCapacity
    && forall u | u in h.locks :: h.locks[u]
  }

  /** A freshly started hub is valid, so the results assuming `Valid` hold from process start. */
  lemma NewHubValid()
    ensures Valid(NewHub())
  {
  }

  /** Everything written to `c` so far. */
  function Sent(h: Hub, c: Client): seq<Message> {
    if c in h.outbox then h.outbox[c] else []
  }

  /** Writes `m` to every client in `targets`. */
  function WriteAll(h: Hub, targets: set<Client>, m: Message): (outbox: map<Client, seq<Message>>)
    ensures forall c :: (if c in outbox then outbox[c] else [])
                        == if c in targets then Sent(h, c) + [m] else Sent(h, c)
  {
    map c | c in h.outbox.Keys + targets :: if c in targets then Sent(h, c) + [m] else h.outbox[c]
  }

  /** A client connects: it joins the set and is sent the current lock table, and only it. */
  function Connect(h: Hub, c: Client): (r: Hub)
    ensures r.clients == h.clients + {c}
    ensures Sent(r, c) == Sent(h, c) + [Locks(h.locks)]
    ensures forall d | d != c :: Sent(r, d) == Sent(h, d)
    ensures r.locks == h.locks && r.pending == h.pending
  {
    h.(clients := h.clients + {c}, outbox := h.outbox[c := Sent(h, c) + [Locks(h.locks)]])
  }

  /** A client disconnects; unregistering one that is not registered does nothing. */
  function Disconnect(h: Hub, c: Client): (r: Hub)
    ensures c !in r.clients && r.clients == h.clients - {c}
    ensures c !in h.clients ==> r == h
    ensures r.locks == h.locks && r.pending == h.pending && r.outbox == h.outbox
  {
    if c in h.clients then h.(clients := h.clients - {c}) else h
  }

  /** Every registered client is sent the same names message; nothing else changes. */
  function Broadcast(h: Hub, names: map<string, string>): (r: Hub)
    ensures forall c :: Sent(r, c) == if c in h.clients then Sent(h, c) + [Names(names)] else Sent(h, c)
    ensures r.clients == h.clients && r.locks == h.locks && r.pending == h.pending
  {
    h.(outbox := WriteAll(h, h.clients, Names(names)))
  }

  /** A non-blocking send on `locksChanged`: buffered if there is room, dropped otherwise. */
  function Signal(pending: nat): (p: nat)
    ensures pending < LocksChangedCapacity ==> p == pending + 1
    ensures pending >= LocksChangedCapacity ==> p == pending
  {
    if pending < LocksChangedCapacity then pending + 1 else pending
  }

  /** Marks `u` as locked and signals a change; no other key, client or message is affected. */
  function Lock(h: Hub, u: string): (r: Hub)
    ensures u in r.locks && r.locks[u]
    ensures forall k | k != u :: (k in r.locks <==> k in h.locks) && (k in h.locks ==> r.locks[k] == h.locks[k])
    ensures r.pending == Signal(h.pending) && r.pending > 0
    ensures r.clients == h.clients && r.outbox == h.outbox
  {
    h.(locks := h.locks[u := true], pending := Signal(h.pending))
  }

  /** Removes `u` from the table and signals a change; no other key, client or message is affected. */
  function Unlock(h: Hub, u: string): (r: Hub)
    ensures u !in r.locks
    ensures forall k | k != u :: (k in r.locks <==> k in h.locks) && (k in h.locks ==> r.locks[k] == h.locks[k])
    ensures r.pending == Signal(h.pending) && r.pending > 0
    ensures r.clients == h.clients && r.outbox == h.outbox
  {
    h.(locks := h.locks - {u}, pending := Signal(h.pending))
  }

  predicate IsLockFrame(f: Frame) {
    f.kind == LockKind || f.kind == UnlockKind
  }

  /** An inbound frame: `lock` and `unlock` act on the table, any other type is ignored. */
  function Handle(h: Hub, f: Frame): (r: Hub)
    ensures f.kind == LockKind ==> r == Lock(h, f.username)
    ensures f.kind == UnlockKind ==> r == Unlock(h, f.username)
    ensures !IsLockFrame(f) ==> r == h
  {
    if f.kind == LockKind then Lock(h, f.username)
    else if f.kind == UnlockKind then Unlock(h, f.username)
    else h
  }

  /**
   The hub loop takes a buffered signal and writes the whole current table to every
   registered client. With nothing buffered the receive is not ready and nothing happens.
   */
  function Drain(h: Hub): (r: Hub)
    ensures h.pending == 0 ==> r == h
    ensures h.pending > 0 ==> r.pending == h.pending - 1
    ensures h.pending > 0 ==>
              forall c :: Sent(r, c) == if c in h.clients then Sent(h, c) + [Locks(h.locks)] else Sent(h, c)
    ensures r.clients == h.clients && r.locks == h.locks
  {
    if h.pending == 0 then h
    else h.(pending := h.pending - 1, outbox := WriteAll(h, h.clients, Locks(h.locks)))
  }

  function Step(h: Hub, e: Event): Hub {
    match e
    case Register(c) => Connect(h, c)
    case Unregister(c) => Disconnect(h, c)
    case BroadcastNames(names) => Broadcast(h, names)
    case Receive(f) => Handle(h, f)
    case DrainLocksChanged => Drain(h)
  }

  /** The events applied in order. */
  function Run(h: Hub, events: seq<Event>): Hub
    decreases |events|
  {
    if |events| == 0 then h else Step(Run(h, events[..|events| - 1]), events[|events| - 1])
  }

  /** Every event keeps the hub valid. */
  lemma StepValid(h: Hub, e: Event)
    requires Valid(h)
    ensures Valid(Step(h, e))
  {
  }

  lemma {:induction false} RunValid(h: Hub, events: seq<Event>)
    requires Valid(h)
    ensures Valid(Run(h, events))
    decreases |events|
  {
    if |events| > 0 {
      RunValid(h, events[..|events| - 1]);
      StepValid(Run(h, events[..|events| - 1]), events[|events| - 1]);
    }
  }

  /** Locking twice is locking once, for the table and for the signal buffer alike. */
  lemma LockIdempotent(h: Hub, u: string)
    ensures Lock(Lock(h, u), u) == Lock(h, u)
  {
  }

  /** Unlocking twice is unlocking once; unlocking a key that is not locked only signals. */
  lemma UnlockIdempotent(h: Hub, u: string)
    ensures Unlock(Unlock(h, u), u) == Unlock(h, u)
    ensures u !in h.locks ==> Unlock(h, u).locks == h.locks
  {
  }

  /** Unregistering twice is unregistering once. */
  lemma DisconnectIdempotent(h: Hub, c: Client)
    ensures Disconnect(Disconnect(h, c), c) == Disconnect(h, c)
  {
  }

  /** A newly connected client's first message is the lock table, empty or not. */
  lemma FirstMessageIsLocks(h: Hub, c: Client)
    requires Sent(h, c) == []
    ensures Sent(Connect(h, c), c) == [Locks(h.locks)]
    ensures Sent(Connect(NewHub(), c), c) == [Locks(map[])]
  {
  }

  /** Nothing already written to a client is ever taken back. */
  lemma {:induction false} SentOnlyGrows(h: Hub, events: seq<Event>, c: Client)
    ensures Sent(h, c) <= Sent(Run(h, events), c)
    decreases |events|
  {
    if |events| > 0 {
      var before := Run(h, events[..|events| - 1]);
      SentOnlyGrows(h, events[..|events| - 1], c);
      assert Sent(before, c) <= Sent(Step(before, events[|events| - 1]), c);
    }
  }

  function Receives(frames: seq<Frame>): (events: seq<Event>)
    ensures |events| == |frames|
    ensures forall i | 0 <= i < |frames| :: events[i] == Receive(frames[i])
  {
    seq(|frames|, i requires 0 <= i < |frames| => Receive(frames[i]))
  }

  /**
   What the last `lock` or `unlock` frame for `u` in `frames` says: `Some(true)` for lock,
   `Some(false)` for unlock, `None` if no frame names `u`.
   */
  function LastWrite(frames: seq<Frame>, u: string): Option<bool>
    decreases |frames|
  {
    if |frames| == 0 then None
    else
      var f := frames[|frames| - 1];
      if IsLockFrame(f) && f.username == u then Some(f.kind == LockKind)
      else LastWrite(frames[..|frames| - 1], u)
  }

  predicate SomeLockFrame(frames: seq<Frame>) {
    exists i | 0 <= i < |frames| :: IsLockFrame(frames[i])
  }

  /**
   A run of inbound frames with no drain in between: clients and outboxes are untouched,
   each key ends locked exactly when its last frame was a lock (or, with no frame for it,
   when it was locked before), and at most one change signal is pending, exactly one if
   any frame was a lock or unlock.
   */
  lemma {:induction false} FrameBurst(h: Hub, frames: seq<Frame>)
    requires Valid(h)
    ensures var r := Run(h, Receives(frames));
            && r.clients == h.clients && r.outbox == h.outbox
            && (forall u :: u in r.locks <==> LastWrite(frames, u).GetOr(u in h.locks))
            && r.pending <= LocksChangedCapacity
            && (SomeLockFrame(frames) ==> r.pending == 1)
            && (!SomeLockFrame(frames) ==> r.pending == h.pending)
    decreases |frames|
  {
    if |frames| > 0 {
      var init := frames[..|frames| - 1];
      var last := frames[|frames| - 1];
      assert Receives(frames)[..|frames| - 1] == Receives(init);
      FrameBurst(h, init);
      RunValid(h, Receives(init));
      assert SomeLockFrame(frames) <==> SomeLockFrame(init) || IsLockFrame(last) by {
        if SomeLockFrame(frames) && !IsLockFrame(last) {
          var i :| 0 <= i < |frames| && IsLockFrame(frames[i]);
          assert i < |init| && init[i] == frames[i];
        }
        if SomeLockFrame(init) {
          var i :| 0 <= i < |init| && IsLockFrame(init[i]);
          assert frames[i] == init[i];
        }
      }
    }
  }

  /**
   Coalescing: however many lock and unlock frames arrive before the hub drains the
   signal, each registered client is then sent exactly one locks message, carrying the
   final table; the buffer is empty afterwards, so a further drain sends nothing.
   */
  lemma CoalescedBroadcast(h: Hub, frames: seq<Frame>)
    requires Valid(h) && SomeLockFrame(frames)
    ensures var burst := Run(h, Receives(frames));
            var r := Drain(burst);
            && (forall c | c in h.clients :: Sent(r, c) == Sent(h, c) + [Locks(burst.locks)])
            && (forall c | c !in h.clients :: Sent(r, c) == Sent(h, c))
            && r.pending == 0
            && Drain(r) == r
  {
    FrameBurst(h, frames);
  }

  /**
   Two clients connect and one of them locks user1: once the hub drains the signal, both
   have been sent the empty table and then the table holding user1.
   */
  lemma ExampleTwoClientsLock()
    ensures var h := Run(NewHub(), [Register(1), Register(2), Receive(Frame("lock", "user1")), DrainLocksChanged]);
            && Sent(h, 1) == [Locks(map[]), Locks(map["user1" := true])]
            && Sent(h, 2) == [Locks(map[]), Locks(map["user1" := true])]
  {
    var events := [Register(1), Register(2), Receive(Frame("lock", "user1")), DrainLocksChanged];
    assert events[..1][..0] == [] && events[..2][..1] == events[..1] && events[..3][..2] == events[..2];
    var h1 := Connect(NewHub(), 1);
    assert Run(NewHub(), events[..1]) == h1;
    var h2 := Connect(h1, 2);
    assert Run(NewHub(), events[..2]) == h2;
    var h3 := Lock(h2, "user1");
    assert Run(NewHub(), events[..3]) == h3;
    assert Sent(h2, 1) == [Locks(map[])] && Sent(h2, 2) == [Locks(map[])];
    assert h3.pending == 1 && h3.clients == {1, 2} && h3.locks == map["user1" := true];
    assert events[..4] == events;
  }
}
