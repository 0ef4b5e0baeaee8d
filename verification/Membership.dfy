/**
  Joining and leaving a meta cluster (metasrv/src/meta_service/meta_leader.rs, raftmeta.rs) and the
  listing of voters and non-voters (metasrv/src/store/meta_raft_store.rs). A raft write either takes
  effect as a whole or not at all.
 */
module Membership {
  import opened Wrappers

  type NodeId = nat
  datatype Node = Node(name: NodeId, endpoint: string)

  /** The applied membership and the node records of the state machine. */
  datatype Cluster = Cluster(voters: set<NodeId>, nodes: map<NodeId, Node>)

  // ----- The writes -----

  /** `AddNode` keeps a record that is already there. */
  function AddNode(c: Cluster, id: NodeId, endpoint: string): Cluster
  {
    if id in c.nodes then c else c.(nodes := c.nodes[id := Node(id, endpoint)])
  }

  function RemoveNode(c: Cluster, id: NodeId): Cluster
  {
    c.(nodes := c.nodes - {id})
  }

  function ChangeMembership(c: Cluster, voters: set<NodeId>): Cluster
  {
    c.(voters := voters)
  }

  /** The cluster after `init_cluster`, which sets the membership and then may fail to record the node. */
  function InitCluster(id: NodeId, endpoint: string, recorded: bool): Cluster
  {
    var c := ChangeMembership(Cluster({}, map[]), {id});
    if recorded then AddNode(c, id, endpoint) else c
  }

  // ----- Requests -----

  datatype Request = Join(id: NodeId, endpoint: string) | Leave(id: NodeId)

  /** A request of which the first `done` writes happen; a write that fails ends it. */
  function Perform(c: Cluster, r: Request, done: nat): Cluster
  {
    match r
    case Join(id, endpoint) =>
      if id in c.voters || done == 0 then c
      else
        var added := AddNode(c, id, endpoint);
        if done == 1 then added else ChangeMembership(added, c.voters + {id})
    case Leave(id) =>
      if id !in c.voters || done == 0 then c
      else
        var changed := ChangeMembership(c, c.voters - {id});
        if done == 1 then changed else RemoveNode(changed, id)
  }

  /** A request is done, fails in a write, or panics on a membership that is being changed. */
  datatype Response = Done | Failed | Panicked

  class MetaLeader {
    var cluster: Cluster

    constructor (id: NodeId, endpoint: string, recorded: bool)
      ensures cluster == InitCluster(id, endpoint, recorded)
    {
      cluster := InitCluster(id, endpoint, recorded);
    }

    /** `join`; `writes` says how many raft writes succeed before one fails, `joint` that a change is under way. */
    method HandleJoin(id: NodeId, endpoint: string, joint: bool, writes: nat) returns (r: Response)
      modifies this
      ensures cluster == Perform(old(cluster), Join(id, endpoint), if joint then 0 else writes)
      ensures r.Panicked? <==> id !in old(cluster.voters) && joint
      ensures r.Done? <==> id in old(cluster.voters) || (!joint && writes >= 2)
      ensures r.Done? ==> id in cluster.voters
    {
      if id in cluster.voters { return Done; }
      if joint { return Panicked; }
      var membership := cluster.voters + {id};
      if writes == 0 { return Failed; }
      cluster := AddNode(cluster, id, endpoint);
      if writes == 1 { return Failed; }
      cluster := ChangeMembership(cluster, membership);
      r := Done;
    }

    /** `leave`. */
    method HandleLeave(id: NodeId, joint: bool, writes: nat) returns (r: Response)
      modifies this
      ensures cluster == Perform(old(cluster), Leave(id), if joint then 0 else writes)
      ensures r.Panicked? <==> id in old(cluster.voters) && joint
      ensures r.Done? <==> id !in old(cluster.voters) || (!joint && writes >= 2)
      ensures r.Done? ==> id !in cluster.voters
    {
      if id !in cluster.voters { return Done; }
      if joint { return Panicked; }
      var membership := cluster.voters - {id};
      if writes == 0 { return Failed; }
      cluster := ChangeMembership(cluster, membership);
      if writes == 1 { return Failed; }
      cluster := RemoveNode(cluster, id);
      r := Done;
    }
  }

  // ----- Runs -----

  function Run(c: Cluster, requests: seq<(Request, nat)>): Cluster
  {
    if requests == [] then c
    else
      var last := requests[|requests| - 1];
      Perform(Run(c, requests[..|requests| - 1]), last.0, last.1)
  }

  /** Every voter has a node record under its own name. */
  ghost predicate VotersRecorded(c: Cluster)
  {
    c.voters <= c.nodes.Keys && forall id :: id in c.nodes ==> c.nodes[id].name == id
  }

  /** The node has left, at least as far as the membership goes. */
  ghost predicate HasLeft(id: NodeId, requests: seq<(Request, nat)>)
  {
    exists i :: 0 <= i < |requests| && requests[i].0 == Leave(id) && requests[i].1 >= 1
  }

  lemma HasLeftMore(id: NodeId, before: seq<(Request, nat)>, last: (Request, nat))
    ensures HasLeft(id, before + [last]) <==> HasLeft(id, before) || (last.0 == Leave(id) && last.1 >= 1)
  {
    var all := before + [last];
    assert all[|before|] == last;
    if i :| 0 <= i < |before| && before[i].0 == Leave(id) && before[i].1 >= 1 {
      assert all[i] == before[i];
    }
  }

  /** All voters are recorded, or all but this one. */
  ghost predicate RecordedBut(c: Cluster, id: NodeId, whole: bool)
  {
    && (forall i :: i in c.voters && i != id ==> i in c.nodes)
    && (forall i :: i in c.nodes ==> c.nodes[i].name == i)
    && (whole ==> id in c.voters ==> id in c.nodes)
    && (!whole ==> id in c.voters && id !in c.nodes)
  }

  lemma RequestKeepsRecorded(c: Cluster, id: NodeId, whole: bool, r: Request, done: nat)
    requires RecordedBut(c, id, whole)
    ensures RecordedBut(Perform(c, r, done), id, whole || (r == Leave(id) && done >= 1))
  {
  }

  lemma {:induction false} RunRecords(id: NodeId, endpoint: string, recorded: bool, requests: seq<(Request, nat)>)
    ensures RecordedBut(Run(InitCluster(id, endpoint, recorded), requests), id, recorded || HasLeft(id, requests))
    decreases |requests|
  {
    if requests != [] {
      var before, last := requests[..|requests| - 1], requests[|requests| - 1];
      RunRecords(id, endpoint, recorded, before);
      HasLeftMore(id, before, last);
      assert requests == before + [last];
      RequestKeepsRecorded(Run(InitCluster(id, endpoint, recorded), before), id, recorded || HasLeft(id, before),
                           last.0, last.1);
    }
  }

  /**
    Over every run of requests taken one after another, each possibly cut off, every voter is recorded exactly
    when the initialisation recorded the first node or that node has left since.
   */
  lemma RunKeepsVotersRecorded(id: NodeId, endpoint: string, recorded: bool, requests: seq<(Request, nat)>)
    ensures VotersRecorded(Run(InitCluster(id, endpoint, recorded), requests)) <==> recorded || HasLeft(id, requests)
  {
    RunRecords(id, endpoint, recorded, requests);
  }

  /** The failing input: joining the first node again does not repair what the initialisation left out. */
  lemma JoinDoesNotRepair(id: NodeId, endpoint: string, again: string, done: nat)
    ensures var c := InitCluster(id, endpoint, false);
            Perform(c, Join(id, again), done) == c && !VotersRecorded(c)
  {
    RunKeepsVotersRecorded(id, endpoint, false, []);
  }

  /** A node that is not a voter keeps its record until it joins again: leaving once more does not remove it. */
  lemma {:induction false} StrandedRecord(c: Cluster, id: NodeId, requests: seq<(Request, nat)>)
    requires id !in c.voters && id in c.nodes
    requires forall i :: 0 <= i < |requests| ==> !(requests[i].0.Join? && requests[i].0.id == id)
    ensures var r := Run(c, requests); id !in r.voters && id in r.nodes && r.nodes[id] == c.nodes[id]
    decreases |requests|
  {
    if requests != [] {
      StrandedRecord(c, id, requests[..|requests| - 1]);
    }
  }

  /** A leave cut off after its first write strands the record; a later join keeps the old endpoint. */
  lemma RejoinKeepsOldEndpoint(c: Cluster, id: NodeId, endpoint: string, requests: seq<(Request, nat)>)
    requires VotersRecorded(c) && id in c.voters
    requires forall i :: 0 <= i < |requests| ==> !(requests[i].0.Join? && requests[i].0.id == id)
    ensures var r := Perform(Run(Perform(c, Leave(id), 1), requests), Join(id, endpoint), 2);
            id in r.voters && id in r.nodes && r.nodes[id] == c.nodes[id]
  {
    StrandedRecord(Perform(c, Leave(id), 1), id, requests);
  }

  /** A completed join of a new voter records the endpoint it came with exactly if there was no other record. */
  lemma JoinRecordsEndpointIff(c: Cluster, id: NodeId, endpoint: string)
    requires VotersRecorded(c) && id !in c.voters
    ensures var r := Perform(c, Join(id, endpoint), 2);
            && id in r.voters && id in r.nodes
            && (r.nodes[id] == Node(id, endpoint) <==> id in c.nodes ==> c.nodes[id].endpoint == endpoint)
  {
  }

  /**
    A join and a leave that overlap, both having read the same membership, can leave a voter without a
    record, whatever the cluster.
   */
  lemma OverlapLosesRecord(c: Cluster, leaver: NodeId, joiner: NodeId, endpoint: string)
    requires VotersRecorded(c) && leaver in c.voters && joiner !in c.voters
    ensures var added := AddNode(c, joiner, endpoint);
            var left := ChangeMembership(added, c.voters - {leaver});
            var joined := ChangeMembership(left, c.voters + {joiner});
            var end := RemoveNode(joined, leaver);
            leaver in end.voters && leaver !in end.nodes && !VotersRecorded(end)
  {
    var left := ChangeMembership(AddNode(c, joiner, endpoint), c.voters - {leaver});
    var end := RemoveNode(ChangeMembership(left, c.voters + {joiner}), leaver);
    assert leaver in end.voters && leaver !in end.nodes.Keys;
  }

  // ----- Listing -----

  type Kvs = seq<(NodeId, Node)>

  /** What a range over the node records yields: all of them, by ascending id. */
  ghost predicate IsRange(nodes: map<NodeId, Node>, kvs: Kvs)
  {
    && (forall i, j :: 0 <= i < j < |kvs| ==> kvs[i].0 < kvs[j].0)
    && (forall i :: 0 <= i < |kvs| ==> kvs[i].0 in nodes && nodes[kvs[i].0] == kvs[i].1)
    && (forall id :: id in nodes ==> exists i :: 0 <= i < |kvs| && kvs[i].0 == id)
  }

  function Records(kvs: Kvs): seq<Node>
  {
    seq(|kvs|, i requires 0 <= i < |kvs| => kvs[i].1)
  }

  /** The pairs whose id is (or is not) in the set, in order. */
  function Select(kvs: Kvs, ids: set<NodeId>, inside: bool): Kvs
  {
    if kvs == [] then []
    else
      var rest, last := Select(kvs[..|kvs| - 1], ids, inside), kvs[|kvs| - 1];
      if (last.0 in ids) == inside then rest + [last] else rest
  }

  method ListNodes(kvs: Kvs, membership: Option<set<NodeId>>, inside: bool) returns (r: seq<Node>)
    ensures membership.None? ==> r == []
    ensures membership.Some? ==> r == Records(Select(kvs, membership.value, inside))
  {
    if membership.None? { return []; }
    ghost var picked: Kvs := [];
    r := [];
    for i := 0 to |kvs|
      invariant picked == Select(kvs[..i], membership.value, inside) && r == Records(picked)
    {
      assert kvs[..i + 1][..i] == kvs[..i];
      if (kvs[i].0 in membership.value) == inside {
        picked := picked + [kvs[i]];
        r := r + [kvs[i].1];
      }
    }
    assert kvs[..|kvs|] == kvs;
  }

  lemma {:induction false} SelectMembers(kvs: Kvs, ids: set<NodeId>, inside: bool)
    ensures forall kv :: kv in Select(kvs, ids, inside) <==> kv in kvs && (kv.0 in ids) == inside
    ensures (forall i, j :: 0 <= i < j < |kvs| ==> kvs[i].0 < kvs[j].0) ==>
              forall i, j :: 0 <= i < j < |Select(kvs, ids, inside)| ==>
                Select(kvs, ids, inside)[i].0 < Select(kvs, ids, inside)[j].0
    decreases |kvs|
  {
    if kvs != [] {
      var rest, last := kvs[..|kvs| - 1], kvs[|kvs| - 1];
      SelectMembers(rest, ids, inside);
      assert forall kv :: kv in kvs <==> kv in rest || kv == last;
      if forall i, j :: 0 <= i < j < |kvs| ==> kvs[i].0 < kvs[j].0 {
        forall kv | kv in rest ensures kv.0 < last.0 {
          var i :| 0 <= i < |rest| && rest[i] == kv;
          assert kvs[i] == kv;
        }
        var picked := Select(rest, ids, inside);
        assert forall i :: 0 <= i < |picked| ==> picked[i] in picked;
      }
    }
  }

  lemma {:induction false} SelectSplits(kvs: Kvs, ids: set<NodeId>)
    ensures multiset(Select(kvs, ids, true)) + multiset(Select(kvs, ids, false)) == multiset(kvs)
    ensures |Select(kvs, ids, true)| + |Select(kvs, ids, false)| == |kvs|
    decreases |kvs|
  {
    if kvs != [] {
      SelectSplits(kvs[..|kvs| - 1], ids);
      assert kvs == kvs[..|kvs| - 1] + [kvs[|kvs| - 1]];
    }
  }

  ghost function Ids(kvs: Kvs): set<NodeId>
  {
    set i | 0 <= i < |kvs| :: kvs[i].0
  }

  lemma IdsMore(rest: Kvs, last: (NodeId, Node))
    ensures Ids(rest + [last]) == Ids(rest) + {last.0}
  {
    var kvs := rest + [last];
    forall id | id in Ids(rest)
      ensures id in Ids(kvs)
    {
      var i :| 0 <= i < |rest| && rest[i].0 == id;
      assert kvs[i].0 == id;
    }
    assert kvs[|rest|].0 == last.0;
    assert forall i :: 0 <= i < |rest| ==> kvs[i] == rest[i];
  }

  lemma {:induction false} AscendingCount(kvs: Kvs)
    requires forall i, j :: 0 <= i < j < |kvs| ==> kvs[i].0 < kvs[j].0
    ensures |Ids(kvs)| == |kvs|
    decreases |kvs|
  {
    if kvs != [] {
      var rest, last := kvs[..|kvs| - 1], kvs[|kvs| - 1];
      AscendingCount(rest);
      IdsMore(rest, last);
      assert kvs == rest + [last];
      assert last.0 !in Ids(rest);
    }
  }

  /**
    In a cluster whose voters are all recorded, `get_voters` gives one record per member, and together
    with `get_non_voters` gives every record exactly once.
   */
  lemma ListingIsExact(c: Cluster, kvs: Kvs)
    requires VotersRecorded(c) && IsRange(c.nodes, kvs)
    ensures var voters, others := Select(kvs, c.voters, true), Select(kvs, c.voters, false);
            && Ids(voters) == c.voters && |voters| == |c.voters|
            && (forall i :: 0 <= i < |voters| ==>
                 voters[i].0 in c.nodes && voters[i].1 == c.nodes[voters[i].0] && voters[i].1.name == voters[i].0)
            && Ids(others) == c.nodes.Keys - c.voters
            && multiset(voters) + multiset(others) == multiset(kvs)
  {
    SelectSplits(kvs, c.voters);
    SelectedIds(c, kvs, true);
    SelectedIds(c, kvs, false);
    assert c.voters * c.nodes.Keys == c.voters;
    SelectedRecords(c, kvs);
  }

  /** The picked records are the stored ones, each once. */
  lemma SelectedRecords(c: Cluster, kvs: Kvs)
    requires VotersRecorded(c) && IsRange(c.nodes, kvs)
    ensures var voters := Select(kvs, c.voters, true);
            && |Ids(voters)| == |voters|
            && forall i :: 0 <= i < |voters| ==>
                 voters[i].0 in c.nodes && voters[i].1 == c.nodes[voters[i].0] && voters[i].1.name == voters[i].0
  {
    var voters := Select(kvs, c.voters, true);
    SelectMembers(kvs, c.voters, true);
    AscendingCount(voters);
    forall i | 0 <= i < |voters|
      ensures voters[i].0 in c.nodes && voters[i].1 == c.nodes[voters[i].0] && voters[i].1.name == voters[i].0
    {
      assert voters[i] in voters;
      var j :| 0 <= j < |kvs| && kvs[j] == voters[i];
    }
  }

  lemma SelectedIds(c: Cluster, kvs: Kvs, inside: bool)
    requires IsRange(c.nodes, kvs)
    ensures Ids(Select(kvs, c.voters, inside)) == if inside then c.voters * c.nodes.Keys else c.nodes.Keys - c.voters
  {
    SelectMembers(kvs, c.voters, inside);
    var picked := Select(kvs, c.voters, inside);
    forall id ensures id in Ids(picked) <==> id in c.nodes && (id in c.voters) == inside {
      if id in Ids(picked) {
        var i :| 0 <= i < |picked| && picked[i].0 == id;
        assert picked[i] in picked;
        var j :| 0 <= j < |kvs| && kvs[j] == picked[i];
      }
      if id in c.nodes && (id in c.voters) == inside {
        var j :| 0 <= j < |kvs| && kvs[j].0 == id;
        assert kvs[j] in picked;
        var i :| 0 <= i < |picked| && picked[i] == kvs[j];
        assert picked[i].0 == id;
      }
    }
  }
}
