/**
 The heartbeat table, primary election and quorum of src/database/cluster.go. Every node
 reads the table and decides for itself; nothing else coordinates them. Times are
 nanoseconds; the table keeps whole seconds.
 */
module ClusterNodes {
  import opened Results
  import opened Calendar
  import opened Sets
  import opened Text

  const HEARTBEAT_TIMEOUT: int := 90 * SECOND
  const HEARTBEAT_OFFLINE: int := 5 * MINUTE

  datatype State = Healthy | Degraded | Offline | Removed | Stale

  datatype Node = Node(id: string, stored: State, lastSeen: Option<int>, joined: int)

  function NodeState(lastSeen: Option<int>, now: int): State {
    if lastSeen.None? then Offline
    else if now - lastSeen.value < HEARTBEAT_TIMEOUT then Healthy
    else if now - lastSeen.value < HEARTBEAT_OFFLINE then Degraded
    else Offline
  }

  /** The stored marks win over liveness. */
  function EffectiveState(n: Node, now: int): State {
    if n.stored == Removed || n.stored == Stale then n.stored else NodeState(n.lastSeen, now)
  }

  predicate IsHealthy(n: Node, now: int) {
    EffectiveState(n, now) == Healthy
  }

  predicate UniqueIds(nodes: seq<Node>) {
    forall i, j | 0 <= i < j < |nodes| :: nodes[i].id != nodes[j].id
  }

  // ----- Election

  /** `p` is the healthy node with the lowest id; there is none if no node is healthy. */
  predicate Elected(nodes: seq<Node>, now: int, p: Option<Node>) {
    if p.None? then forall n | n in nodes :: !IsHealthy(n, now)
    else
      p.value in nodes && IsHealthy(p.value, now) &&
      forall n | n in nodes && IsHealthy(n, now) :: n.id == p.value.id || Before(p.value.id, n.id)
  }

  method PrimaryNodeAt(nodes: seq<Node>, now: int) returns (best: Option<Node>)
    ensures Elected(nodes, now, best)
    ensures best.Some? ==> best.value.stored !in {Removed, Stale} && best.value.lastSeen.Some? && now < best.value.lastSeen.value + 90_000_000_000
  {
    best := None;
    for i := 0 to |nodes|
      invariant Elected(nodes[..i], now, best)
    {
      ghost var was := best;
      if IsHealthy(nodes[i], now) && (best.None? || Before(nodes[i].id, best.value.id)) {
        best := Some(nodes[i]);
      }
      ElectedNext(nodes, now, i, was, best);
    }
    assert nodes[..|nodes|] == nodes;
  }

  lemma ElectedNext(nodes: seq<Node>, now: int, i: nat, was: Option<Node>, best: Option<Node>)
    requires i < |nodes| && Elected(nodes[..i], now, was)
    requires best == if IsHealthy(nodes[i], now) && (was.None? || Before(nodes[i].id, was.value.id)) then Some(nodes[i]) else was
    ensures Elected(nodes[..i + 1], now, best)
  {
    hide Before;
    assert nodes[..i + 1] == nodes[..i] + [nodes[i]];
    if was.Some? {
      BeforeTotal(nodes[i].id, was.value.id);
      forall n | n in nodes[..i] && IsHealthy(n, now) && Before(nodes[i].id, was.value.id) ensures Before(nodes[i].id, n.id) {
        if n.id != was.value.id {
          BeforeTransitive(nodes[i].id, was.value.id, n.id);
        }
      }
    }
  }

  /**
   Nodes that read the same rows at the same time elect the same primary, in whatever
   order they hold them.
   */
  lemma OrderDoesNotMatter(a: seq<Node>, b: seq<Node>, now: int, p: Option<Node>, q: Option<Node>)
    requires UniqueIds(a) && multiset(a) == multiset(b)
    requires Elected(a, now, p) && Elected(b, now, q)
    ensures p == q
  {
    hide Before;
    forall n: Node ensures n in a <==> n in b {
      assert n in multiset(a) <==> n in multiset(b);
    }
    if p.Some? && q.Some? {
      BeforeTotal(p.value.id, q.value.id);
    }
  }

  predicate HealthyId(nodes: seq<Node>, now: int, id: string) {
    exists n :: n in nodes && n.id == id && IsHealthy(n, now)
  }

  /**
   From one reading of the table to any later one: the primary changes exactly when it is
   no longer healthy, or a lower id is healthy now that was not healthy before.
   */
  lemma PrimaryChanges(a: seq<Node>, t: int, p: Node, b: seq<Node>, t': int, q: Option<Node>)
    requires Elected(a, t, Some(p)) && Elected(b, t', q)
    ensures !(q.Some? && q.value.id == p.id) <==>
            !HealthyId(b, t', p.id) ||
            exists id :: Before(id, p.id) && HealthyId(b, t', id) && !HealthyId(a, t, id)
  {
    hide Before, IsHealthy;
    forall n | n in a && IsHealthy(n, t) ensures !Before(n.id, p.id) {
      BeforeTotal(n.id, p.id);
    }
    if q.Some? {
      BeforeTotal(p.id, q.value.id);
      assert HealthyId(b, t', q.value.id);
      forall id | Before(id, p.id) && HealthyId(b, t', id) ensures q.value.id != p.id {
        var n :| n in b && n.id == id && IsHealthy(n, t');
        BeforeTotal(id, p.id);
      }
      if HealthyId(b, t', p.id) && q.value.id != p.id {
        var n :| n in b && n.id == p.id && IsHealthy(n, t');
        assert Before(q.value.id, p.id);
      }
    }
  }

  /** On an unchanged table no node that was not healthy becomes healthy, so a primary stays primary while healthy. */
  lemma NoPreemptionWithoutWrites(nodes: seq<Node>, t: int, t': int, p: Node)
    requires UniqueIds(nodes) && Elected(nodes, t, Some(p)) && t <= t'
    ensures Elected(nodes, t', Some(p)) <==> IsHealthy(p, t')
  {
    forall n | n in nodes && IsHealthy(n, t') ensures IsHealthy(n, t) {
      OnlyAges(n, t, t');
    }
  }

  /** Ninety seconds without a heartbeat end health, five minutes end everything but a mark. */
  lemma StateIff(n: Node, now: int)
    ensures IsHealthy(n, now) <==>
            n.stored !in {Removed, Stale} && n.lastSeen.Some? && now < n.lastSeen.value + 90_000_000_000
    ensures EffectiveState(n, now) == Offline <==>
            n.stored !in {Removed, Stale} && (n.lastSeen.Some? ==> now >= n.lastSeen.value + 300_000_000_000)
    ensures EffectiveState(n, now) == Removed <==> n.stored == Removed
    ensures EffectiveState(n, now) == Stale <==> n.stored == Stale
  {}

  // ----- Ageing

  function Age(s: State): nat {
    match s
    case Healthy => 0
    case Degraded => 1
    case _ => 2
  }

  /** Without a heartbeat or a mark a node's state only moves from healthy over degraded to offline. */
  lemma OnlyAges(n: Node, t: int, t': int)
    requires t <= t'
    ensures Age(EffectiveState(n, t)) <= Age(EffectiveState(n, t'))
    ensures EffectiveState(n, t) in {Removed, Stale, Offline} ==> EffectiveState(n, t') == EffectiveState(n, t)
    ensures EffectiveState(n, t') in {Removed, Stale} ==> EffectiveState(n, t) == EffectiveState(n, t')
  {}

  // ----- Quorum

  function Healthies(nodes: seq<Node>, now: int): seq<Node> {
    if nodes == [] then []
    else
      var rest := Healthies(nodes[..|nodes| - 1], now);
      if IsHealthy(nodes[|nodes| - 1], now) then rest + [nodes[|nodes| - 1]] else rest
  }

  function Members(nodes: seq<Node>): seq<Node> {
    if nodes == [] then []
    else
      var rest := Members(nodes[..|nodes| - 1]);
      if nodes[|nodes| - 1].stored != Removed then rest + [nodes[|nodes| - 1]] else rest
  }

  method HealthyNodes(nodes: seq<Node>, now: int) returns (healthy: seq<Node>)
    ensures healthy == Healthies(nodes, now)
  {
    healthy := [];
    for i := 0 to |nodes|
      invariant healthy == Healthies(nodes[..i], now)
    {
      assert nodes[..i + 1][..i] == nodes[..i];
      if IsHealthy(nodes[i], now) {
        healthy := healthy + [nodes[i]];
      }
    }
    assert nodes[..|nodes|] == nodes;
  }

  /** A strict majority of the nodes that are not removed. */
  predicate Quorum(nodes: seq<Node>, now: int) {
    2 * |Healthies(nodes, now)| > |Members(nodes)|
  }

  /** The places of the nodes that are healthy, and of those that are not removed. */
  function HealthyPlaces(nodes: seq<Node>, now: int): set<int> {
    set i | 0 <= i < |nodes| && nodes[i].stored !in {Removed, Stale} && nodes[i].lastSeen.Some? && now < nodes[i].lastSeen.value + 90_000_000_000
  }

  function MemberPlaces(nodes: seq<Node>): set<int> {
    set i | 0 <= i < |nodes| && nodes[i].stored != Removed
  }

  lemma {:induction false} CountsArePlaces(nodes: seq<Node>, now: int)
    ensures |Healthies(nodes, now)| == |HealthyPlaces(nodes, now)| && |Members(nodes)| == |MemberPlaces(nodes)|
  {
    if nodes != [] {
      var k := |nodes| - 1;
      CountsArePlaces(nodes[..k], now);
      StateIff(nodes[k], now);
      HealthyPlacesNext(nodes, now);
      MemberPlacesNext(nodes);
      hide IsHealthy, HealthyPlaces, MemberPlaces;
    }
  }

  lemma HealthyPlacesNext(nodes: seq<Node>, now: int)
    requires nodes != []
    ensures var k, n := |nodes| - 1, nodes[|nodes| - 1];
            var healthy := n.stored !in {Removed, Stale} && n.lastSeen.Some? && now < n.lastSeen.value + 90_000_000_000;
            HealthyPlaces(nodes, now) == HealthyPlaces(nodes[..k], now) + (if healthy then {k} else {}) &&
            k !in HealthyPlaces(nodes[..k], now)
  {}

  lemma MemberPlacesNext(nodes: seq<Node>)
    requires nodes != []
    ensures var k := |nodes| - 1;
            MemberPlaces(nodes) == MemberPlaces(nodes[..k]) + (if nodes[k].stored != Removed then {k} else {}) &&
            k !in MemberPlaces(nodes[..k])
  {}

  method HasQuorum(nodes: seq<Node>, now: int) returns (quorum: bool)
    ensures quorum == Quorum(nodes, now)
    ensures quorum <==> 2 * |HealthyPlaces(nodes, now)| > |MemberPlaces(nodes)|
  {
    CountsArePlaces(nodes, now);
    var total, healthy := 0, 0;
    for i := 0 to |nodes|
      invariant total == |Members(nodes[..i])| && healthy == |Healthies(nodes[..i], now)|
      invariant healthy <= total
    {
      assert nodes[..i + 1][..i] == nodes[..i];
      var state := EffectiveState(nodes[i], now);
      if state != Removed {
        total := total + 1;
        if state == Healthy {
          healthy := healthy + 1;
        }
      }
    }
    assert nodes[..|nodes|] == nodes;
    quorum := if total == 0 then false else healthy * 2 > total;
  }

  function Ids(nodes: seq<Node>): set<string> {
    set n | n in nodes :: n.id
  }

  lemma {:induction false} UniqueCount(nodes: seq<Node>)
    requires UniqueIds(nodes)
    ensures |Ids(nodes)| == |nodes|
  {
    if nodes != [] {
      var k := |nodes| - 1;
      UniqueCount(nodes[..k]);
      assert nodes == nodes[..k] + [nodes[k]];
      assert Ids(nodes) == Ids(nodes[..k]) + {nodes[k].id};
      assert nodes[k].id !in Ids(nodes[..k]);
    }
  }

  /** The filters keep exactly the nodes they are for, each once. */
  lemma {:induction false} FilteredNodes(nodes: seq<Node>, now: int)
    ensures forall n :: n in Healthies(nodes, now) <==> n in nodes && IsHealthy(n, now)
    ensures forall n :: n in Members(nodes) <==> n in nodes && n.stored != Removed
    ensures UniqueIds(nodes) ==> UniqueIds(Healthies(nodes, now)) && UniqueIds(Members(nodes))
  {
    if nodes != [] {
      var k := |nodes| - 1;
      FilteredNodes(nodes[..k], now);
      assert nodes == nodes[..k] + [nodes[k]];
      if UniqueIds(nodes) {
        forall n | n in nodes[..k] ensures n.id != nodes[k].id {}
        AppendUnique(Healthies(nodes[..k], now), nodes[k]);
        AppendUnique(Members(nodes[..k]), nodes[k]);
      }
    }
  }

  lemma AppendUnique(nodes: seq<Node>, n: Node)
    requires UniqueIds(nodes) && forall m | m in nodes :: m.id != n.id
    ensures UniqueIds(nodes + [n])
  {}

  /**
   Two views of the cluster with the same members, taken at any two times, cannot both have
   a quorum unless some node is healthy in both.
   */
  lemma QuorumsOverlap(a: seq<Node>, t: int, b: seq<Node>, t': int) returns (id: string)
    requires UniqueIds(a) && UniqueIds(b) && Ids(Members(a)) == Ids(Members(b))
    requires Quorum(a, t) && Quorum(b, t')
    ensures HealthyId(a, t, id) && HealthyId(b, t', id)
  {
    FilteredNodes(a, t);
    FilteredNodes(b, t');
    var ha, hb, all := Ids(Healthies(a, t)), Ids(Healthies(b, t')), Ids(Members(a));
    UniqueCount(Healthies(a, t));
    UniqueCount(Healthies(b, t'));
    UniqueCount(Members(a));
    UniqueCount(Members(b));
    HealthyAreMembers(a, t);
    HealthyAreMembers(b, t');
    if ha * hb == {} {
      SubsetSize(ha + hb, all);
      assert false;
    }
    id :| id in ha * hb;
  }

  lemma HealthyAreMembers(nodes: seq<Node>, now: int)
    ensures Ids(Healthies(nodes, now)) <= Ids(Members(nodes))
  {
    FilteredNodes(nodes, now);
  }

  lemma {:induction false} HealthiesShrink(nodes: seq<Node>, t: int, t': int)
    requires t <= t'
    ensures |Healthies(nodes, t')| <= |Healthies(nodes, t)|
  {
    if nodes != [] {
      HealthiesShrink(nodes[..|nodes| - 1], t, t');
      OnlyAges(nodes[|nodes| - 1], t, t');
    }
  }

  /** On an unchanged table a quorum that is lost stays lost. */
  lemma LostQuorumStaysLost(nodes: seq<Node>, t: int, t': int)
    requires t <= t' && !Quorum(nodes, t)
    ensures !Quorum(nodes, t')
  {
    HealthiesShrink(nodes, t, t');
  }

  // ----- The quorum that the comments describe

  function Offlines(nodes: seq<Node>, now: int): seq<Node> {
    if nodes == [] then []
    else
      var rest := Offlines(nodes[..|nodes| - 1], now);
      if EffectiveState(nodes[|nodes| - 1], now) == Offline then rest + [nodes[|nodes| - 1]] else rest
  }

  function WithoutOffline(nodes: seq<Node>, now: int): seq<Node> {
    if nodes == [] then []
    else
      var rest := WithoutOffline(nodes[..|nodes| - 1], now);
      if EffectiveState(nodes[|nodes| - 1], now) == Offline then rest else rest + [nodes[|nodes| - 1]]
  }

  /** A strict majority among the nodes that are left when the offline ones are excluded entirely. */
  predicate DocumentedQuorum(nodes: seq<Node>, now: int) {
    Quorum(WithoutOffline(nodes, now), now)
  }

  lemma {:induction false} WithoutOfflineCounts(nodes: seq<Node>, now: int)
    ensures Healthies(WithoutOffline(nodes, now), now) == Healthies(nodes, now)
    ensures |Members(WithoutOffline(nodes, now))| == |Members(nodes)| - |Offlines(nodes, now)|
    ensures |Healthies(nodes, now)| + |Offlines(nodes, now)| <= |Members(nodes)|
  {
    if nodes != [] {
      var k := |nodes| - 1;
      var front := WithoutOffline(nodes[..k], now);
      WithoutOfflineCounts(nodes[..k], now);
      assert (front + [nodes[k]])[..|front|] == front;
    }
  }

  /**
   The code and its comments differ exactly when the healthy nodes are a majority without
   the offline ones but not with them; the code never has a quorum that the comments deny.
   */
  lemma QuorumDiffersIff(nodes: seq<Node>, now: int)
    ensures Quorum(nodes, now) != DocumentedQuorum(nodes, now) <==>
            |Members(nodes)| - |Offlines(nodes, now)| < 2 * |Healthies(nodes, now)| <= |Members(nodes)|
    ensures Quorum(nodes, now) ==> DocumentedQuorum(nodes, now)
  {
    hide Members, Healthies, Offlines, WithoutOffline;
    WithoutOfflineCounts(nodes, now);
  }

  lemma {:induction false} OfflineMembers(nodes: seq<Node>, now: int)
    ensures Offlines(nodes, now) == [] <==> forall n | n in nodes :: EffectiveState(n, now) != Offline
  {
    if nodes != [] {
      var k := |nodes| - 1;
      OfflineMembers(nodes[..k], now);
      assert nodes == nodes[..k] + [nodes[k]];
    }
  }

  /** They agree on every table without an offline node. */
  lemma QuorumAgreesWithoutOffline(nodes: seq<Node>, now: int)
    requires forall n | n in nodes :: EffectiveState(n, now) != Offline
    ensures Quorum(nodes, now) == DocumentedQuorum(nodes, now)
  {
    hide Members, Healthies, Offlines, WithoutOffline;
    OfflineMembers(nodes, now);
    QuorumDiffersIff(nodes, now);
  }

  /** Of two nodes, one offline, the other is the documented majority but not the code's. */
  lemma OfflineNodesCount(a: Node, b: Node, now: int)
    requires EffectiveState(a, now) == Healthy && EffectiveState(b, now) == Offline
    ensures !Quorum([a, b], now) && DocumentedQuorum([a, b], now)
  {
    assert [a, b][..1] == [a] && [a][..0] == [];
    assert Members([a]) == [a] && Members([a, b]) == [a] + [b];
    assert Healthies([], now) == [] && Healthies([a], now) == [a];
    assert Healthies([a, b], now) == [a];
    assert WithoutOffline([], now) == [] && WithoutOffline([a], now) == [a];
    assert WithoutOffline([a, b], now) == [a];
  }

  // ----- Writing the table

  type Table = map<string, Node>

  ghost predicate Keyed(t: Table) {
    forall id | id in t :: t[id].id == id
  }

  /** The rows in some order. */
  ghost predicate Lists(nodes: seq<Node>, t: Table) {
    UniqueIds(nodes) && forall n :: n in nodes <==> n.id in t && t[n.id] == n
  }

  function WholeSeconds(t: int): int {
    t / SECOND * SECOND
  }

  datatype Write = Beat(id: string, first: State, now: int) | Mark(id: string, state: State) | Prune(cutoff: int)

  ghost function Apply(t: Table, w: Write): Table {
    match w
    case Beat(id, first, now) =>
      var seen := WholeSeconds(now);
      t[id := if id in t then t[id].(lastSeen := Some(seen)) else Node(id, first, Some(seen), seen)]
    case Mark(id, state) => if id in t then t[id := t[id].(stored := state)] else t
    case Prune(cutoff) =>
      map id | id in t && !(t[id].lastSeen.Some? && t[id].lastSeen.value < WholeSeconds(cutoff)) :: t[id]
  }

  class NodeTable {
    var rows: Table

    constructor ()
      ensures rows == map[]
    {
      rows := map[];
    }

    /** Writes the node's own row: inserted with its first state, afterwards refreshed without touching the state. */
    method Heartbeat(id: string, first: State, now: int) returns (ok: bool)
      modifies this
      ensures ok <==> id != ""
      ensures rows == if ok then Apply(old(rows), Beat(id, first, now)) else old(rows)
      ensures ok ==> id in rows && rows[id].lastSeen == Some(now - now % 1_000_000_000) && rows - {id} == old(rows) - {id}
      ensures ok && id in old(rows) ==> rows[id].stored == old(rows)[id].stored && rows[id].joined == old(rows)[id].joined
      ensures ok && id !in old(rows) ==> rows[id].stored == first
    {
      if id == "" {
        return false;
      }
      var seen := WholeSeconds(now);
      if id in rows {
        rows := rows[id := rows[id].(lastSeen := Some(seen))];
      } else {
        rows := rows[id := Node(id, first, Some(seen), seen)];
      }
      return true;
    }

    method MarkNodeState(id: string, state: State)
      modifies this
      ensures rows == Apply(old(rows), Mark(id, state))
    {
      if id in rows {
        rows := rows[id := rows[id].(stored := state)];
      }
    }

    method PruneNodes(cutoff: int) returns (deleted: nat)
      modifies this
      ensures rows == Apply(old(rows), Prune(cutoff))
      ensures deleted == |old(rows)| - |rows|
    {
      var was := rows;
      deleted := 0;
      var rest := was.Keys;
      while rest != {}
        invariant rest <= was.Keys
        invariant forall id :: id in rows <==>
          id in was && (id in rest || !(was[id].lastSeen.Some? && was[id].lastSeen.value < WholeSeconds(cutoff)))
        invariant forall id | id in rows :: rows[id] == was[id]
        invariant |rows| + deleted == |was|
        decreases |rest|
      {
        var id :| id in rest;
        rest := rest - {id};
        if was[id].lastSeen.Some? && was[id].lastSeen.value < WholeSeconds(cutoff) {
          assert rows.Keys == (rows - {id}).Keys + {id};
          rows := rows - {id};
          deleted := deleted + 1;
        }
      }
    }
  }

  ghost function ApplyAll(t: Table, ws: seq<Write>): Table {
    if ws == [] then t else Apply(ApplyAll(t, ws[..|ws| - 1]), ws[|ws| - 1])
  }

  /** The stored mark, which wins over liveness at any time. */
  ghost predicate IsRemoved(t: Table, id: string) {
    id in t && t[id].stored == Removed
  }

  /** A write that takes the removed mark off a row last seen at `seen`: another mark, or a pruning past it. */
  predicate Restores(w: Write, id: string, seen: Option<int>) {
    (w.Mark? && w.id == id && w.state != Removed) || (w.Prune? && seen.Some? && seen.value < WholeSeconds(w.cutoff))
  }

  /** One write leaves a removed node removed exactly when it is neither. */
  lemma RemovedStepIff(t: Table, w: Write, id: string)
    requires IsRemoved(t, id)
    ensures IsRemoved(Apply(t, w), id) <==> !Restores(w, id, t[id].lastSeen)
    ensures IsRemoved(Apply(t, w), id) ==>
              Apply(t, w)[id].lastSeen == if w.Beat? && w.id == id then Some(WholeSeconds(w.now)) else t[id].lastSeen
  {}

  /** When a row was last seen, told by the writes alone. */
  function SeenAfter(seen: Option<int>, ws: seq<Write>, id: string): Option<int> {
    if ws == [] then seen
    else
      var last := ws[|ws| - 1];
      if last.Beat? && last.id == id then Some(WholeSeconds(last.now)) else SeenAfter(seen, ws[..|ws| - 1], id)
  }

  /** No write of the sequence takes the mark off, given when the row was last seen by then. */
  ghost predicate NoneRestores(seen: Option<int>, ws: seq<Write>, id: string) {
    forall k | 0 <= k < |ws| :: !Restores(ws[k], id, SeenAfter(seen, ws[..k], id))
  }

  lemma NoneRestoresSnoc(seen: Option<int>, front: seq<Write>, last: Write, id: string)
    ensures NoneRestores(seen, front + [last], id) <==>
            NoneRestores(seen, front, id) && !Restores(last, id, SeenAfter(seen, front, id))
  {
    hide Restores, SeenAfter;
    var ws := front + [last];
    assert ws[..|front|] == front && ws[|front|] == last;
    assert forall k | 0 <= k <= |front| :: ws[..k] == front[..k];
    assert forall k | 0 <= k < |front| :: ws[k] == front[k];
  }

  lemma {:induction false} RemovedSoFar(t: Table, ws: seq<Write>, id: string)
    requires IsRemoved(t, id)
    ensures NoneRestores(t[id].lastSeen, ws, id) ==>
              IsRemoved(ApplyAll(t, ws), id) && ApplyAll(t, ws)[id].lastSeen == SeenAfter(t[id].lastSeen, ws, id)
    ensures (forall k: nat | k <= |ws| :: IsRemoved(ApplyAll(t, ws[..k]), id)) ==> NoneRestores(t[id].lastSeen, ws, id)
  {
    if ws != [] {
      var n := |ws| - 1;
      var front := ws[..n];
      hide Apply, Restores, IsRemoved, NoneRestores;
      RemovedSoFar(t, front, id);
      NoneRestoresSnoc(t[id].lastSeen, front, ws[n], id);
      assert front + [ws[n]] == ws;
      assert forall k | 0 <= k <= n :: front[..k] == ws[..k];
      assert ws[..|ws|] == ws;
      if NoneRestores(t[id].lastSeen, front, id) {
        RemovedStepIff(ApplyAll(t, front), ws[n], id);
      }
    }
  }

  /**
   A retired node stays retired through a sequence of writes exactly when none of them is a
   mark of it with another state or a pruning past its last heartbeat by then.
   */
  lemma RemovedStaysRemovedIff(t: Table, ws: seq<Write>, id: string)
    requires IsRemoved(t, id)
    ensures (forall k: nat | k <= |ws| :: IsRemoved(ApplyAll(t, ws[..k]), id)) <==> NoneRestores(t[id].lastSeen, ws, id)
  {
    hide Restores, SeenAfter, ApplyAll;
    RemovedSoFar(t, ws, id);
    if NoneRestores(t[id].lastSeen, ws, id) {
      forall k: nat | k <= |ws| ensures IsRemoved(ApplyAll(t, ws[..k]), id) {
        RemovedSoFar(t, ws[..k], id);
        assert forall m | 0 <= m < k :: ws[..k][..m] == ws[..m];
      }
    }
  }

  /** Pruning forgets the mark: a retired node whose row was pruned rejoins with its next heartbeat. */
  lemma PrunedNodeRejoins(t: Table, id: string, cutoff: int, now: int)
    requires id in t && t[id].stored == Removed && t[id].lastSeen.Some?
    requires t[id].lastSeen.value < WholeSeconds(cutoff)
    ensures var t' := ApplyAll(t, [Prune(cutoff), Beat(id, Healthy, now)]);
            id in t' && IsHealthy(t'[id], now)
  {
    var ws := [Prune(cutoff), Beat(id, Healthy, now)];
    assert ws[..1] == [Prune(cutoff)] && ws[..1][..0] == [];
    assert ApplyAll(t, ws[..1]) == Apply(t, Prune(cutoff));
    assert id !in Apply(t, Prune(cutoff));
  }

  /**
   A lower id that heartbeats takes the role from a primary that is still healthy. The
   comment on the election promises that it does not.
   */
  lemma LowerIdTakesOver(t: Table, a: seq<Node>, now: int, p: Node, id: string, b: seq<Node>, q: Option<Node>)
    requires Keyed(t) && Lists(a, t) && Elected(a, now, Some(p))
    requires id in t && t[id].stored !in {Removed, Stale} && Before(id, p.id)
    requires Lists(b, Apply(t, Beat(id, Healthy, now))) && Elected(b, now, q)
    ensures q.Some? && q.value.id != p.id && p in b && IsHealthy(p, now)
  {
    hide Before;
    BeforeTotal(id, p.id);
    var t' := Apply(t, Beat(id, Healthy, now));
    var n := t'[id];
    assert n in b && IsHealthy(n, now);
    assert p in a && p.id in t && t[p.id] == p && t'[p.id] == p;
  }
}
