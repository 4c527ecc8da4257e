/**
 The trainee listing behind the index page: credential Secrets are enriched with the
 admin binding, webshell readiness and display name read from the cluster, admins are
 hidden from trainees, and the result is ordered by the number in `user<N>`.
 The cluster client is replaced by oracle functions keyed by the resource names the
 listing asks for.
 */
module Trainees {
  import opened Wrappers
  import opened Strconv
  import Sorting

  /** A credential Secret, reduced to its `Data` map. */
  datatype Secret = Secret(data: map<string, string>)

  /** A pod, reduced to the `Ready` flag of each of its container statuses. */
  datatype Pod = Pod(containerReady: seq<bool>)

  /** A ConfigMap; `data == None` is a ConfigMap whose `Data` is nil. */
  datatype ConfigMap = ConfigMap(data: Option<map<string, string>>)

  /**
   What the cluster answers. `bindingExists(name)` is whether getting the
   ClusterRoleBinding `name` succeeds; `listPods(namespace, selector)` and
   `getConfigMap(namespace, name)` give `None` when the client call fails.
   */
  datatype Cluster = Cluster(
    bindingExists: string -> bool,
    listPods: (string, string) -> Option<seq<Pod>>,
    getConfigMap: (string, string) -> Option<ConfigMap>)

  /** The Secret data keys holding the username and the password. */
  datatype Keys = Keys(username: string, password: string)

  const DefaultKeys := Keys("username", "password")

  datatype Trainee = Trainee(
    username: string,
    password: string,
    displayName: string,
    isAdmin: bool,
    podReady: bool)

  /** What the index handler serves: the login form, a failed request, or the listing. */
  datatype Page = Login | Failed | Listing(trainees: seq<Trainee>)

  const AdminBindingPrefix := "cluster-admin-"
  const DisplayNamePrefix := "trainee-displayname-"
  const DisplayNameKey := "displayName"
  const UserPrefix := "user"

  /** A Secret's data field as a string; a missing key reads as empty. */
  function Field(s: Secret, key: string): (r: string)
    ensures key !in s.data ==> r == ""
    ensures key in s.data ==> r == s.data[key]
  {
    if key in s.data then s.data[key] else ""
  }

  function Username(keys: Keys, s: Secret): string {
    Field(s, keys.username)
  }

  function WebshellSelector(username: string): string {
    "app.kubernetes.io/instance=" + username + "-webshell"
  }

  predicate HasAdminBinding(c: Cluster, username: string) {
    c.bindingExists(AdminBindingPrefix + username)
  }

  /** Scans one pod's container statuses, stopping at the first ready one. */
  function AnyContainerReady(ready: seq<bool>): (r: bool)
    ensures r <==> exists j | 0 <= j < |ready| :: ready[j]
  {
    if |ready| == 0 then false
    else if ready[0] then true
    else AnyContainerReady(ready[1..])
  }

  /** Scans the pods in order, stopping at the first with a ready container. */
  function AnyPodReady(pods: seq<Pod>): (r: bool)
    ensures r <==> exists i, j | 0 <= i < |pods| && 0 <= j < |pods[i].containerReady| ::
                     pods[i].containerReady[j]
  {
    if |pods| == 0 then false
    else if AnyContainerReady(pods[0].containerReady) then true
    else AnyPodReady(pods[1..])
  }

  /**
   Whether `username`'s webshell is up: the pod list in the user's namespace succeeded and
   some listed pod has some ready container. A failed list counts as not ready.
   */
  function PodReady(c: Cluster, username: string): (r: bool)
    ensures r <==> && c.listPods(username, WebshellSelector(username)).Some?
                   && var pods := c.listPods(username, WebshellSelector(username)).value;
                      exists i, j | 0 <= i < |pods| && 0 <= j < |pods[i].containerReady| ::
                        pods[i].containerReady[j]
  {
    match c.listPods(username, WebshellSelector(username))
    case None => false
    case Some(pods) => AnyPodReady(pods)
  }

  /**
   The display name held by a ConfigMap lookup, with soft failure: a failed get, nil data
   and a missing key all read as the empty string.
   */
  function ResolveDisplayName(lookup: Option<ConfigMap>): (r: string)
    ensures r != "" ==> && lookup.Some? && lookup.value.data.Some?
                        && DisplayNameKey in lookup.value.data.value
                        && lookup.value.data.value[DisplayNameKey] == r
    ensures lookup.Some? && lookup.value.data.Some? && DisplayNameKey in lookup.value.data.value ==>
              r == lookup.value.data.value[DisplayNameKey]
  {
    match lookup
    case None => ""
    case Some(cm) =>
      match cm.data
      case None => ""
      case Some(data) => if DisplayNameKey in data then data[DisplayNameKey] else ""
  }

  /** The display name of `username`, read from its ConfigMap in the user's namespace. */
  function DisplayName(c: Cluster, username: string): string {
    ResolveDisplayName(c.getConfigMap(username, DisplayNamePrefix + username))
  }

  /** Whether a Secret survives the admin filter: teachers see everyone, trainees no admins. */
  predicate Retained(c: Cluster, teacher: bool, keys: Keys, s: Secret) {
    teacher || !HasAdminBinding(c, Username(keys, s))
  }

  /** The listing entry built for a retained Secret. */
  function Entry(c: Cluster, teacher: bool, keys: Keys, s: Secret): Trainee {
    var username := Username(keys, s);
    Trainee(
      username,
      Field(s, keys.password),
      DisplayName(c, username),
      HasAdminBinding(c, username),
      teacher && PodReady(c, username))
  }

  /** The aggregation loop: one entry per Secret in fetch order, admins skipped for trainees. */
  function Collect(c: Cluster, teacher: bool, keys: Keys, secrets: seq<Secret>): seq<Trainee>
    decreases |secrets|
  {
    if |secrets| == 0 then []
    else
      var username := Username(keys, secrets[0]);
      if HasAdminBinding(c, username) && !teacher then
        Collect(c, teacher, keys, secrets[1..])
      else
        [Entry(c, teacher, keys, secrets[0])] + Collect(c, teacher, keys, secrets[1..])
  }

  function Shift(o: seq<nat>): (r: seq<nat>)
    ensures |r| == |o|
    ensures forall k | 0 <= k < |o| :: r[k] == o[k] + 1
  {
    seq(|o|, k requires 0 <= k < |o| => o[k] + 1)
  }

  /** For each entry of `Collect`, the index of the Secret it was built from. */
  ghost function Origins(c: Cluster, teacher: bool, keys: Keys, secrets: seq<Secret>): seq<nat>
    decreases |secrets|
  {
    if |secrets| == 0 then []
    else
      var shifted := Shift(Origins(c, teacher, keys, secrets[1..]));
      if HasAdminBinding(c, Username(keys, secrets[0])) && !teacher then shifted else [0] + shifted
  }

  lemma ShiftMembers(o: seq<nat>, i: nat)
    ensures i + 1 in Shift(o) <==> i in o
    ensures 0 !in Shift(o)
  {
    var r := Shift(o);
    if i + 1 in r {
      var k :| 0 <= k < |r| && r[k] == i + 1;
      assert o[k] == i;
    }
    if i in o {
      var k :| 0 <= k < |o| && o[k] == i;
      assert r[k] == i + 1;
    }
  }

  /** Entry `k` of `Collect` is the entry built from Secret `Origins[k]`. */
  lemma {:induction false} CollectOrigins(c: Cluster, teacher: bool, keys: Keys, secrets: seq<Secret>)
    ensures |Origins(c, teacher, keys, secrets)| == |Collect(c, teacher, keys, secrets)|
    ensures forall k | 0 <= k < |Origins(c, teacher, keys, secrets)| ::
              && Origins(c, teacher, keys, secrets)[k] < |secrets|
              && Collect(c, teacher, keys, secrets)[k]
                 == Entry(c, teacher, keys, secrets[Origins(c, teacher, keys, secrets)[k]])
    decreases |secrets|
  {
    if |secrets| > 0 {
      var tail := secrets[1..];
      CollectOrigins(c, teacher, keys, tail);
      var rest := Origins(c, teacher, keys, tail);
      var o := Origins(c, teacher, keys, secrets);
      var col := Collect(c, teacher, keys, secrets);
      var colTail := Collect(c, teacher, keys, tail);
      if HasAdminBinding(c, Username(keys, secrets[0])) && !teacher {
        assert o == Shift(rest) && col == colTail;
        forall k | 0 <= k < |o|
          ensures o[k] < |secrets| && col[k] == Entry(c, teacher, keys, secrets[o[k]])
        {
          assert secrets[o[k]] == tail[rest[k]];
        }
      } else {
        assert o == [0] + Shift(rest);
        assert col == [Entry(c, teacher, keys, secrets[0])] + colTail;
        forall k | 1 <= k < |o|
          ensures o[k] < |secrets| && col[k] == Entry(c, teacher, keys, secrets[o[k]])
        {
          assert col[k] == colTail[k - 1];
          assert secrets[o[k]] == tail[rest[k - 1]];
        }
      }
    }
  }

  /** The origins are strictly increasing, so no Secret yields two entries. */
  lemma {:induction false} OriginsIncreasing(c: Cluster, teacher: bool, keys: Keys, secrets: seq<Secret>)
    ensures forall k, l | 0 <= k < l < |Origins(c, teacher, keys, secrets)| ::
              Origins(c, teacher, keys, secrets)[k] < Origins(c, teacher, keys, secrets)[l]
    decreases |secrets|
  {
    if |secrets| > 0 {
      var tail := secrets[1..];
      OriginsIncreasing(c, teacher, keys, tail);
      var rest := Origins(c, teacher, keys, tail);
      var o := Origins(c, teacher, keys, secrets);
      var skip := HasAdminBinding(c, Username(keys, secrets[0])) && !teacher;
      var d := if skip then 0 else 1;
      assert o == if skip then Shift(rest) else [0] + Shift(rest);
      forall k, l | 0 <= k < l < |o| ensures o[k] < o[l] {
        assert o[l] == rest[l - d] + 1;
        if k >= d {
          assert o[k] == rest[k - d] + 1;
        }
      }
    }
  }

  /** Exactly the retained Secrets have an origin among the entries. */
  lemma {:induction false} OriginsRetained(c: Cluster, teacher: bool, keys: Keys, secrets: seq<Secret>)
    ensures forall i | 0 <= i < |secrets| ::
              Retained(c, teacher, keys, secrets[i]) <==> i in Origins(c, teacher, keys, secrets)
    decreases |secrets|
  {
    if |secrets| > 0 {
      var tail := secrets[1..];
      OriginsRetained(c, teacher, keys, tail);
      var rest := Origins(c, teacher, keys, tail);
      var o := Origins(c, teacher, keys, secrets);
      var skip := HasAdminBinding(c, Username(keys, secrets[0])) && !teacher;
      assert o == if skip then Shift(rest) else [0] + Shift(rest);
      forall i | 0 <= i < |secrets| ensures Retained(c, teacher, keys, secrets[i]) <==> i in o {
        if i == 0 {
          ShiftMembers(rest, 0);
        } else {
          ShiftMembers(rest, i - 1);
          assert secrets[i] == tail[i - 1];
        }
      }
    }
  }

  /** Go's `strings.HasPrefix(username, "user")`. */
  predicate HasUserPrefix(username: string) {
    |username| >= |UserPrefix| && username[..|UserPrefix|] == UserPrefix
  }

  /**
   The sort key: the integer Atoi reads after the `user` prefix, and 0 for a username
   without the prefix or with a suffix Atoi refuses (including the empty suffix).
   */
  function GetNum(username: string): (n: int)
    ensures InIntRange(n)
    ensures HasUserPrefix(username) && Atoi(username[|UserPrefix|..]).Some? ==>
              n == Atoi(username[|UserPrefix|..]).value
    ensures !(HasUserPrefix(username) && Atoi(username[|UserPrefix|..]).Some?) ==> n == 0
  {
    if HasUserPrefix(username) then
      match Atoi(username[|UserPrefix|..])
      case Some(num) => num
      case None => 0
    else 0
  }

  function SortKey(t: Trainee): int {
    GetNum(t.username)
  }

  /** The trainee listing: the collected entries ordered by `GetNum` of their usernames. */
  function Index(c: Cluster, teacher: bool, keys: Keys, secrets: seq<Secret>): (r: seq<Trainee>)
    ensures multiset(r) == multiset(Collect(c, teacher, keys, secrets))
    ensures Sorting.SortedBy(r, SortKey)
  {
    Sorting.Sort(Collect(c, teacher, keys, secrets), SortKey)
  }

  /**
   The index handler. Without the teacher flag, a configured token must match the query
   token or the login form is served. A failed Secret list fails the request.
   */
  function IndexPage(c: Cluster, teacher: bool, keys: Keys, token: string, queryToken: string,
                     listing: Option<seq<Secret>>): (p: Page)
    ensures p == Login <==> !teacher && token != "" && queryToken != token
    ensures p == Failed <==> (teacher || token == "" || queryToken == token) && listing.None?
    ensures p.Listing? ==> listing.Some? && p.trainees == Index(c, teacher, keys, listing.value)
  {
    if !teacher && token != "" && queryToken != token then Login
    else
      match listing
      case None => Failed
      case Some(secrets) => Listing(Index(c, teacher, keys, secrets))
  }

  /**
   The `username -> displayName` map built from the Secrets, later Secrets overwriting
   earlier ones with the same username.
   */
  function NamesMap(c: Cluster, keys: Keys, secrets: seq<Secret>): (names: map<string, string>)
    ensures names.Keys == set i | 0 <= i < |secrets| :: Username(keys, secrets[i])
    ensures forall u | u in names :: names[u] == DisplayName(c, u)
    decreases |secrets|
  {
    if |secrets| == 0 then map[]
    else
      var prefix := secrets[..|secrets| - 1];
      var username := Username(keys, secrets[|secrets| - 1]);
      var names := NamesMap(c, keys, prefix);
      assert forall i | 0 <= i < |prefix| :: prefix[i] == secrets[i];
      names[username := DisplayName(c, username)]
  }

  /** The indices of the retained Secrets. */
  ghost function RetainedIndices(c: Cluster, teacher: bool, keys: Keys, secrets: seq<Secret>): set<nat> {
    set i: nat | i < |secrets| && Retained(c, teacher, keys, secrets[i])
  }

  function Elements(o: seq<nat>): set<nat> {
    set x | x in o
  }

  /** A strictly increasing sequence has as many distinct elements as it is long. */
  lemma {:induction false} IncreasingDistinct(o: seq<nat>)
    requires forall k, l | 0 <= k < l < |o| :: o[k] < o[l]
    ensures |Elements(o)| == |o|
    decreases |o|
  {
    if |o| > 0 {
      var tail := o[1..];
      assert forall k, l | 0 <= k < l < |tail| :: tail[k] < tail[l] by {
        forall k, l | 0 <= k < l < |tail| ensures tail[k] < tail[l] {
          assert tail[k] == o[k + 1] && tail[l] == o[l + 1];
        }
      }
      IncreasingDistinct(tail);
      assert o[0] !in Elements(tail) by {
        forall k | 0 <= k < |tail| ensures tail[k] != o[0] {
          assert tail[k] == o[k + 1];
        }
      }
      assert Elements(o) == Elements(tail) + {o[0]} by {
        assert o == [o[0]] + tail;
      }
    }
  }

  /** Sorting moves entries but neither adds nor drops any. */
  lemma InIndex(c: Cluster, teacher: bool, keys: Keys, secrets: seq<Secret>)
    ensures |Index(c, teacher, keys, secrets)| == |Collect(c, teacher, keys, secrets)|
    ensures forall t :: t in Index(c, teacher, keys, secrets) <==> t in Collect(c, teacher, keys, secrets)
  {
    var r := Index(c, teacher, keys, secrets);
    var col := Collect(c, teacher, keys, secrets);
    assert |r| == |multiset(r)| == |multiset(col)| == |col|;
    forall t ensures t in r <==> t in col {
      assert t in r <==> t in multiset(r);
      assert t in col <==> t in multiset(col);
    }
  }

  /** Each listed entry is built from a retained Secret. */
  lemma IndexFromRetained(c: Cluster, teacher: bool, keys: Keys, secrets: seq<Secret>)
    ensures forall t | t in Index(c, teacher, keys, secrets) ::
              exists i | 0 <= i < |secrets| ::
                Retained(c, teacher, keys, secrets[i]) && t == Entry(c, teacher, keys, secrets[i])
  {
    var col := Collect(c, teacher, keys, secrets);
    var o := Origins(c, teacher, keys, secrets);
    InIndex(c, teacher, keys, secrets);
    CollectOrigins(c, teacher, keys, secrets);
    OriginsRetained(c, teacher, keys, secrets);
    forall t | t in col
      ensures exists i | 0 <= i < |secrets| ::
                Retained(c, teacher, keys, secrets[i]) && t == Entry(c, teacher, keys, secrets[i])
    {
      var k :| 0 <= k < |col| && col[k] == t;
      assert o[k] in o;
    }
  }

  /** The aggregation loop builds an entry for each retained Secret. */
  lemma CollectHasRetained(c: Cluster, teacher: bool, keys: Keys, secrets: seq<Secret>)
    ensures forall i | 0 <= i < |secrets| && Retained(c, teacher, keys, secrets[i]) ::
              Entry(c, teacher, keys, secrets[i]) in Collect(c, teacher, keys, secrets)
  {
    var col := Collect(c, teacher, keys, secrets);
    var o := Origins(c, teacher, keys, secrets);
    CollectOrigins(c, teacher, keys, secrets);
    OriginsRetained(c, teacher, keys, secrets);
    forall i | 0 <= i < |secrets| && Retained(c, teacher, keys, secrets[i])
      ensures Entry(c, teacher, keys, secrets[i]) in col
    {
      var k :| 0 <= k < |o| && o[k] == i;
      assert col[k] == Entry(c, teacher, keys, secrets[i]);
    }
  }

  /** The aggregation loop builds as many entries as there are retained Secrets. */
  lemma CollectCountsRetained(c: Cluster, teacher: bool, keys: Keys, secrets: seq<Secret>)
    ensures |Collect(c, teacher, keys, secrets)| == |RetainedIndices(c, teacher, keys, secrets)|
  {
    var o := Origins(c, teacher, keys, secrets);
    CollectOrigins(c, teacher, keys, secrets);
    OriginsIncreasing(c, teacher, keys, secrets);
    OriginsRetained(c, teacher, keys, secrets);
    IncreasingDistinct(o);
    assert Elements(o) == RetainedIndices(c, teacher, keys, secrets);
  }

  /**
   Each retained Secret's entry is listed, and there are exactly as many entries as
   retained Secrets: one per retained Secret.
   */
  lemma IndexListsRetained(c: Cluster, teacher: bool, keys: Keys, secrets: seq<Secret>)
    ensures forall i | 0 <= i < |secrets| && Retained(c, teacher, keys, secrets[i]) ::
              Entry(c, teacher, keys, secrets[i]) in Index(c, teacher, keys, secrets)
    ensures |Index(c, teacher, keys, secrets)| == |RetainedIndices(c, teacher, keys, secrets)|
  {
    InIndex(c, teacher, keys, secrets);
    CollectHasRetained(c, teacher, keys, secrets);
    CollectCountsRetained(c, teacher, keys, secrets);
  }

  /**
   The trainee view (no teacher flag): no Secret whose username has an admin binding is
   listed, and every entry is a non-admin whose readiness is not computed.
   */
  lemma TraineeViewHidesAdmins(c: Cluster, keys: Keys, secrets: seq<Secret>)
    ensures forall t | t in Index(c, false, keys, secrets) ::
              !HasAdminBinding(c, t.username) && !t.isAdmin && !t.podReady
    ensures forall i | 0 <= i < |secrets| && HasAdminBinding(c, Username(keys, secrets[i])) ::
              forall t | t in Index(c, false, keys, secrets) :: t.username != Username(keys, secrets[i])
  {
    IndexFromRetained(c, false, keys, secrets);
  }

  /** With the teacher flag the loop never skips. */
  lemma {:induction false} TeacherCollectsAll(c: Cluster, keys: Keys, secrets: seq<Secret>)
    ensures |Collect(c, true, keys, secrets)| == |secrets|
    decreases |secrets|
  {
    if |secrets| > 0 {
      TeacherCollectsAll(c, keys, secrets[1..]);
    }
  }

  /**
   The teacher view: every Secret is listed, admins marked as such and everyone else not,
   and readiness reflects the webshell pods.
   */
  lemma TeacherViewListsAll(c: Cluster, keys: Keys, secrets: seq<Secret>)
    ensures |Index(c, true, keys, secrets)| == |secrets|
    ensures forall i | 0 <= i < |secrets| :: Entry(c, true, keys, secrets[i]) in Index(c, true, keys, secrets)
    ensures forall t | t in Index(c, true, keys, secrets) ::
              t.isAdmin == HasAdminBinding(c, t.username) && t.podReady == PodReady(c, t.username)
  {
    InIndex(c, true, keys, secrets);
    TeacherCollectsAll(c, keys, secrets);
    IndexFromRetained(c, true, keys, secrets);
    IndexListsRetained(c, true, keys, secrets);
  }

  /**
   Every entry copies the username and password of a Secret it was built from, and carries
   that username's display-name lookup.
   */
  lemma IndexCopiesSecrets(c: Cluster, teacher: bool, keys: Keys, secrets: seq<Secret>)
    ensures forall t | t in Index(c, teacher, keys, secrets) ::
              && t.displayName == DisplayName(c, t.username)
              && exists i | 0 <= i < |secrets| ::
                   t.username == Username(keys, secrets[i]) && t.password == Field(secrets[i], keys.password)
  {
    IndexFromRetained(c, teacher, keys, secrets);
  }

  /**
   The trainee view makes no use of the pod lists: answering them differently does not
   change it, so the per-trainee pod query can be (and is) skipped.
   */
  lemma {:induction false} TraineeViewIgnoresPods(c: Cluster, pods: (string, string) -> Option<seq<Pod>>,
                                                  keys: Keys, secrets: seq<Secret>)
    ensures Collect(c.(listPods := pods), false, keys, secrets) == Collect(c, false, keys, secrets)
    ensures Index(c.(listPods := pods), false, keys, secrets) == Index(c, false, keys, secrets)
    decreases |secrets|
  {
    if |secrets| > 0 {
      TraineeViewIgnoresPods(c, pods, keys, secrets[1..]);
    }
  }

  /**
   The names map agrees with the teacher view: its keys are the listed usernames and each
   maps to the display name listed for it.
   */
  lemma NamesMatchTeacherView(c: Cluster, keys: Keys, secrets: seq<Secret>)
    ensures forall t | t in Index(c, true, keys, secrets) ::
              t.username in NamesMap(c, keys, secrets) && NamesMap(c, keys, secrets)[t.username] == t.displayName
    ensures forall u | u in NamesMap(c, keys, secrets) ::
              exists t | t in Index(c, true, keys, secrets) :: t.username == u
  {
    var names := NamesMap(c, keys, secrets);
    var r := Index(c, true, keys, secrets);
    IndexCopiesSecrets(c, true, keys, secrets);
    TeacherViewListsAll(c, keys, secrets);
    forall u | u in names ensures exists t | t in r :: t.username == u {
      var i :| 0 <= i < |secrets| && Username(keys, secrets[i]) == u;
      assert Entry(c, true, keys, secrets[i]) in r;
    }
  }

  /** Numbered usernames get their number as sort key. */
  lemma GetNumOfUser(n: nat)
    requires n <= MaxInt
    ensures GetNum(UserPrefix + FormatNat(n)) == n
  {
    var u := UserPrefix + FormatNat(n);
    assert u[..|UserPrefix|] == UserPrefix && u[|UserPrefix|..] == FormatNat(n);
    AtoiFormatInt(n);
  }

  /** The bare prefix, another prefix (the match is case sensitive) and a non-numeric suffix give 0. */
  lemma GetNumDefaults()
    ensures GetNum("user") == 0 && GetNum("use") == 0
    ensures GetNum("admin") == 0 && GetNum("User1") == 0
    ensures GetNum("user1a") == 0 && GetNum("user-") == 0
  {
    assert "user"[4..] == "";
    assert !HasUserPrefix("User1") by { assert "User1"[0] != UserPrefix[0]; }
    assert "user1a"[..4] == UserPrefix && "user1a"[4..] == "1a";
    assert "user-"[..4] == UserPrefix && "user-"[4..] == "-";
    AtoiRejectsSyntax();
  }

  /** A `user`-prefixed username has as key what Atoi reads from the rest, or 0. */
  lemma GetNumOfSuffix(suffix: string)
    ensures GetNum(UserPrefix + suffix) == Atoi(suffix).GetOr(0)
  {
    var u := UserPrefix + suffix;
    assert u[..|UserPrefix|] == UserPrefix && u[|UserPrefix|..] == suffix;
  }

  /** Signs and zero padding in the suffix are read as Atoi reads them. */
  lemma GetNumSignsAndPadding()
    ensures GetNum("user007") == 7 && GetNum("user-3") == -3 && GetNum("user+4") == 4
  {
    assert GetNum("user007") == 7 by {
      assert Zeros(2) == "00" && FormatNat(7) == "7";
      assert "user007" == UserPrefix + ("" + Zeros(2) + FormatNat(7));
      GetNumOfSuffix("" + Zeros(2) + FormatNat(7));
      AtoiAcceptsPadded("", 2, 7);
    }
    assert GetNum("user-3") == -3 by {
      assert Zeros(0) == "" && FormatNat(3) == "3";
      assert "user-3" == UserPrefix + ("-" + Zeros(0) + FormatNat(3));
      GetNumOfSuffix("-" + Zeros(0) + FormatNat(3));
      AtoiAcceptsPadded("-", 0, 3);
    }
    assert GetNum("user+4") == 4 by {
      assert Zeros(0) == "" && FormatNat(4) == "4";
      assert "user+4" == UserPrefix + ("+" + Zeros(0) + FormatNat(4));
      GetNumOfSuffix("+" + Zeros(0) + FormatNat(4));
      AtoiAcceptsPadded("+", 0, 4);
    }
  }

  /** When no two entries share a key, the listing is the one sorted arrangement of them. */
  lemma IndexWithDistinctKeys(c: Cluster, teacher: bool, keys: Keys, secrets: seq<Secret>, sorted: seq<Trainee>)
    requires multiset(Collect(c, teacher, keys, secrets)) == multiset(sorted)
    requires Sorting.StrictlySortedBy(sorted, SortKey)
    ensures Index(c, teacher, keys, secrets) == sorted
  {
    Sorting.SortedPermutationUnique(Index(c, teacher, keys, secrets), sorted, SortKey);
  }

  /** The sort key of a literal `user<N>` username. */
  lemma UserKey(n: nat, username: string)
    requires n <= 10 && username == UserPrefix + FormatNat(n)
    ensures GetNum(username) == n
  {
    GetNumOfUser(n);
  }

  lemma RotatePermutes<T>(a: T, b: T, c: T)
    ensures multiset([a, b, c]) == multiset([c, a, b])
  {
    assert [a, b, c] == [a] + [b] + [c] && [c, a, b] == [c] + [a] + [b];
  }

  lemma CollectThreeRetained(c: Cluster, teacher: bool, keys: Keys, a: Secret, b: Secret, d: Secret)
    requires Retained(c, teacher, keys, a) && Retained(c, teacher, keys, b) && Retained(c, teacher, keys, d)
    ensures Collect(c, teacher, keys, [a, b, d])
            == [Entry(c, teacher, keys, a), Entry(c, teacher, keys, b), Entry(c, teacher, keys, d)]
  {
    assert [a, b, d][1..] == [b, d] && [b, d][1..] == [d] && [d][1..] == [];
    assert Collect(c, teacher, keys, []) == [];
    assert Collect(c, teacher, keys, [d]) == [Entry(c, teacher, keys, d)];
  }

  /** Three entries with distinct keys are listed in key order. */
  lemma IndexOfThree(c: Cluster, teacher: bool, keys: Keys, secrets: seq<Secret>, x: Trainee, y: Trainee, z: Trainee)
    requires Collect(c, teacher, keys, secrets) == [x, y, z]
    requires SortKey(z) < SortKey(x) < SortKey(y)
    ensures Index(c, teacher, keys, secrets) == [z, x, y]
  {
    RotatePermutes(x, y, z);
    Sorting.StrictlySortedThree(z, x, y, SortKey);
    IndexWithDistinctKeys(c, teacher, keys, secrets, [z, x, y]);
  }

  /** Credentials user2, user10, user1, none an admin, are listed as user1, user2, user10. */
  lemma ExampleNumericOrder(c: Cluster, teacher: bool, keys: Keys, s2: Secret, s10: Secret, s1: Secret)
    requires Username(keys, s2) == "user2" && Username(keys, s10) == "user10" && Username(keys, s1) == "user1"
    requires !HasAdminBinding(c, "user2") && !HasAdminBinding(c, "user10") && !HasAdminBinding(c, "user1")
    ensures var r := Index(c, teacher, keys, [s2, s10, s1]);
            |r| == 3 && r[0].username == "user1" && r[1].username == "user2" && r[2].username == "user10"
  {
    var e1 := Entry(c, teacher, keys, s1);
    var e2 := Entry(c, teacher, keys, s2);
    var e10 := Entry(c, teacher, keys, s10);
    CollectThreeRetained(c, teacher, keys, s2, s10, s1);
    assert e1.username == UserPrefix + FormatNat(1) by { assert FormatNat(1) == "1"; }
    assert e2.username == UserPrefix + FormatNat(2) by { assert FormatNat(2) == "2"; }
    assert e10.username == UserPrefix + FormatNat(10) by { assert FormatNat(10) == "10"; }
    UserKey(1, e1.username);
    UserKey(2, e2.username);
    UserKey(10, e10.username);
    IndexOfThree(c, teacher, keys, [s2, s10, s1], e2, e10, e1);
    assert Index(c, teacher, keys, [s2, s10, s1]) == [e1, e2, e10];
  }

  /** Two entries with distinct keys are listed in key order. */
  lemma IndexOfTwo(c: Cluster, teacher: bool, keys: Keys, secrets: seq<Secret>, x: Trainee, y: Trainee)
    requires Collect(c, teacher, keys, secrets) == [x, y]
    requires SortKey(x) < SortKey(y)
    ensures Index(c, teacher, keys, secrets) == [x, y]
  {
    IndexWithDistinctKeys(c, teacher, keys, secrets, [x, y]);
  }

  /** user3 has an admin binding, user4 does not: trainees see only user4. */
  lemma ExampleAdminHidden(c: Cluster, keys: Keys, s3: Secret, s4: Secret)
    requires Username(keys, s3) == "user3" && Username(keys, s4) == "user4"
    requires HasAdminBinding(c, "user3") && !HasAdminBinding(c, "user4")
    ensures Index(c, false, keys, [s3, s4]) == [Entry(c, false, keys, s4)]
  {
    var t4 := Entry(c, false, keys, s4);
    assert [s3, s4][1..] == [s4] && [s4][1..] == [];
    assert Collect(c, false, keys, []) == [];
    assert Collect(c, false, keys, [s4]) == [t4];
    assert Collect(c, false, keys, [s3, s4]) == [t4];
    IndexWithDistinctKeys(c, false, keys, [s3, s4], [t4]);
  }

  /** The same cluster seen by a teacher: both listed, user3 marked admin and user4 not. */
  lemma ExampleAdminMarked(c: Cluster, keys: Keys, s3: Secret, s4: Secret)
    requires Username(keys, s3) == "user3" && Username(keys, s4) == "user4"
    requires HasAdminBinding(c, "user3") && !HasAdminBinding(c, "user4")
    ensures var r := Index(c, true, keys, [s3, s4]);
            |r| == 2 && r[0].username == "user3" && r[0].isAdmin && r[1].username == "user4" && !r[1].isAdmin
  {
    var e3 := Entry(c, true, keys, s3);
    var e4 := Entry(c, true, keys, s4);
    assert [s3, s4][1..] == [s4] && [s4][1..] == [];
    assert Collect(c, true, keys, []) == [];
    assert Collect(c, true, keys, [s4]) == [e4];
    assert Collect(c, true, keys, [s3, s4]) == [e3, e4];
    UserKey(3, e3.username);
    UserKey(4, e4.username);
    IndexOfTwo(c, true, keys, [s3, s4], e3, e4);
  }
}
