/**
 The step that follows a saved display name: the names of all trainees are resolved again
 and handed to the hub as one broadcast.
 */
module Bridge {
  import opened Wrappers
  import opened Trainees
  import Hub

  /**
   The broadcast submitted after a display-name update. A failed Secret list submits
   nothing; otherwise the event carries every listed username with its display name.
   */
  function NamesBroadcast(c: Cluster, keys: Keys, listing: Option<seq<Secret>>): (e: Option<Hub.Event>)
    ensures e.None? <==> listing.None?
    ensures e.Some? ==> && e.value.BroadcastNames?
                        && e.value.names.Keys == (set i | 0 <= i < |listing.value| :: Username(keys, listing.value[i]))
                        && forall u | u in e.value.names :: e.value.names[u] == DisplayName(c, u)
  {
    match listing
    case None => None
    case Some(secrets) => Some(Hub.BroadcastNames(NamesMap(c, keys, secrets)))
  }

  /**
   Applying that broadcast sends every connected client the same names message and leaves
   the lock table and signal buffer as they were.
   */
  lemma BroadcastReachesClients(h: Hub.Hub, c: Cluster, keys: Keys, secrets: seq<Secret>)
    ensures var r := Hub.Step(h, NamesBroadcast(c, keys, Some(secrets)).value);
            && (forall d | d in h.clients :: Hub.Sent(r, d) == Hub.Sent(h, d) + [Hub.Names(NamesMap(c, keys, secrets))])
            && (forall d | d !in h.clients :: Hub.Sent(r, d) == Hub.Sent(h, d))
            && r.locks == h.locks && r.pending == h.pending
  {
  }

  /** A cluster where only `user1` has a display-name ConfigMap, holding "Alice". */
  function AliceCluster(c: Cluster): Cluster {
    c.(getConfigMap := (ns, name) =>
         if ns == "user1" && name == DisplayNamePrefix + "user1" then Some(ConfigMap(Some(map[DisplayNameKey := "Alice"])))
         else None)
  }

  /** Once user1's ConfigMap holds "Alice", the broadcast names map has user1 -> "Alice". */
  lemma ExampleAlice(c: Cluster, keys: Keys, s1: Secret)
    requires Username(keys, s1) == "user1"
    ensures var e := NamesBroadcast(AliceCluster(c), keys, Some([s1])).value;
            e.names == map["user1" := "Alice"]
  {
    var names := NamesMap(AliceCluster(c), keys, [s1]);
    assert Username(keys, [s1][0]) == "user1";
    assert names.Keys == {"user1"};
    assert DisplayName(AliceCluster(c), "user1") == "Alice";
  }
}
