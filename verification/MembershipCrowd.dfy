/**
  Any number of requests to a meta cluster that overlap (metasrv/src/meta_service/meta_leader.rs), each a
  reading of the membership and then two raft writes, in any order and cut off anywhere.
 */
module MembershipCrowd {
  import opened Wrappers
  import opened Membership
  import opened MembershipOverlap

  datatype Crowd = Crowd(cluster: Cluster, actors: seq<Actor>, clock: nat)

  /** The next step of request `i`. */
  function StepOf(p: Crowd, i: nat): Crowd
  {
    if i >= |p.actors| then p
    else
      var (c, x) := Act(p.cluster, p.actors[i], p.clock);
      Crowd(c, p.actors[i := x], p.clock + 1)
  }

  /** Any schedule of the requests; it may leave any of them unfinished. */
  function RunCrowd(c: Cluster, requests: seq<Request>, schedule: seq<nat>): Crowd
  {
    if schedule == [] then Crowd(c, seq(|requests|, i requires 0 <= i < |requests| => Fresh(requests[i])), 0)
    else StepOf(RunCrowd(c, requests, schedule[..|schedule| - 1]), schedule[|schedule| - 1])
  }

  // ----- Which write stands -----

  /** When a request made the write in question. */
  type When = Actor -> Option<nat>

  predicate Made(when: When, x: Actor, t: nat)
  {
    when(x).Some? && when(x).value < t
  }

  /** The request whose write is the last before `t`. */
  function Latest(actors: seq<Actor>, when: When, t: nat): (r: Option<nat>)
    ensures r.Some? ==> r.value < |actors| && Made(when, actors[r.value], t)
    ensures forall j :: 0 <= j < |actors| && Made(when, actors[j], t) ==>
              r.Some? && when(actors[j]).value <= when(actors[r.value]).value
  {
    if actors == [] then None
    else
      var n := |actors| - 1;
      var r := Latest(actors[..n], when, t);
      assert forall j :: 0 <= j < n ==> actors[..n][j] == actors[j];
      if Made(when, actors[n], t) && (r.None? || when(actors[r.value]).value < when(actors[n]).value) then Some(n)
      else r
  }

  /** The one's writes before `t` are the other's before `t'`. */
  predicate Alike(when: When, x: Actor, t: nat, y: Actor, t': nat)
  {
    (Made(when, x, t) <==> Made(when, y, t')) && (Made(when, x, t) ==> when(x) == when(y))
  }

  lemma {:induction false} LatestAlike(actors: seq<Actor>, t: nat, others: seq<Actor>, t': nat, when: When)
    requires |actors| == |others| && forall j :: 0 <= j < |actors| ==> Alike(when, actors[j], t, others[j], t')
    ensures Latest(actors, when, t) == Latest(others, when, t')
    decreases |actors|
  {
    if actors != [] {
      LatestAlike(actors[..|actors| - 1], t, others[..|actors| - 1], t', when);
    }
  }

  function MembershipWrites(): When
  {
    (x: Actor) => MembershipAt(x)
  }

  function RecordWrites(id: NodeId): When
  {
    (x: Actor) => if x.request.id == id then RecordAt(x) else None
  }

  /**
    Whether a node was a member just before `t`, by the chain of readings: the last request to write the
    membership decides about its own node, and about all others what it had read.
   */
  function Member(voters: set<NodeId>, actors: seq<Actor>, t: nat, id: NodeId): bool
    decreases t
  {
    var r := Latest(actors, MembershipWrites(), t);
    if r.None? then id in voters
    else
      var x := actors[r.value];
      if x.request.id == id then x.request.Join?
      else x.read.Some? && x.read.value < t && Member(voters, actors, x.read.value, id)
  }

  /** Whether it had a record: its last record write decides. */
  function Recorded(nodes: set<NodeId>, actors: seq<Actor>, t: nat, id: NodeId): bool
  {
    var r := Latest(actors, RecordWrites(id), t);
    if r.None? then id in nodes else actors[r.value].request.Join?
  }

  // ----- What holds throughout -----

  /** Every request made its steps in order, before now. */
  ghost predicate Timely(p: Crowd)
  {
    forall i :: 0 <= i < |p.actors| ==> InOrder(p.actors[i], p.clock)
  }

  ghost predicate SeenRight(c: Cluster, p: Crowd, x: Actor)
  {
    x.read.Some? ==> forall id :: id in x.seen <==> Member(c.voters, p.actors, x.read.value, id)
  }

  ghost predicate AllSeenRight(c: Cluster, p: Crowd)
  {
    forall i :: 0 <= i < |p.actors| ==> SeenRight(c, p, p.actors[i])
  }

  predicate VoterRight(c: Cluster, p: Crowd, id: NodeId)
  {
    id in p.cluster.voters <==> Member(c.voters, p.actors, p.clock, id)
  }

  predicate NodeRight(c: Cluster, p: Crowd, id: NodeId)
  {
    id in p.cluster.nodes <==> Recorded(c.nodes.Keys, p.actors, p.clock, id)
  }

  ghost predicate VotersRight(c: Cluster, p: Crowd)
  {
    forall id :: VoterRight(c, p, id)
  }

  ghost predicate NodesRight(c: Cluster, p: Crowd)
  {
    forall id :: NodeRight(c, p, id)
  }

  ghost predicate NamesRight(p: Crowd)
  {
    forall id :: id in p.cluster.nodes ==> p.cluster.nodes[id].name == id
  }

  ghost predicate CrowdInv(c: Cluster, p: Crowd)
  {
    Timely(p) && AllSeenRight(c, p) && VotersRight(c, p) && NodesRight(c, p) && NamesRight(p)
  }

  // ----- One step -----

  /** The four kinds of step. */
  predicate Reads(x: Actor)
  {
    x.read.None?
  }

  predicate WritesNext(x: Actor)
  {
    x.read.Some? && Active(x) && x.second.None?
  }

  predicate WritesMembership(x: Actor)
  {
    WritesNext(x) && (x.request.Join? <==> x.first.Some?)
  }

  predicate WritesRecord(x: Actor)
  {
    WritesNext(x) && (x.request.Join? <==> x.first.None?)
  }

  /** What a step does to its request and to no other. */
  lemma StepTaken(p: Crowd, i: nat)
    requires i < |p.actors| && Timely(p)
    ensures var x, y := p.actors[i], StepOf(p, i).actors[i];
            && x.request == y.request && (x.read.Some? ==> x.read == y.read && x.seen == y.seen)
            && MembershipAt(y) == (if WritesMembership(x) then Some(p.clock) else MembershipAt(x))
            && RecordAt(y) == (if WritesRecord(x) then Some(p.clock) else RecordAt(x))
            && (WritesMembership(x) ==> MembershipAt(x).None?) && (WritesRecord(x) ==> RecordAt(x).None?)
    ensures Timely(StepOf(p, i))
  {
  }

  /** A step changes nothing of what was written before it. */
  lemma MembershipAlike(p: Crowd, i: nat, t: nat)
    requires i < |p.actors| && Timely(p) && t <= p.clock
    ensures Latest(p.actors, MembershipWrites(), t) == Latest(StepOf(p, i).actors, MembershipWrites(), t)
  {
    StepTaken(p, i);
    LatestAlike(p.actors, t, StepOf(p, i).actors, t, MembershipWrites());
  }

  lemma {:induction false} MemberAlike(voters: set<NodeId>, p: Crowd, i: nat, t: nat, id: NodeId)
    requires i < |p.actors| && Timely(p) && t <= p.clock
    ensures Member(voters, p.actors, t, id) == Member(voters, StepOf(p, i).actors, t, id)
    decreases t
  {
    var r := Latest(p.actors, MembershipWrites(), t);
    MembershipAlike(p, i, t);
    StepTaken(p, i);
    if r.Some? && p.actors[r.value].request.id != id {
      MemberAlike(voters, p, i, p.actors[r.value].read.value, id);
    }
  }

  /** A membership write is the last one then. */
  lemma MembershipLatest(p: Crowd, i: nat)
    requires i < |p.actors| && Timely(p)
    ensures WritesMembership(p.actors[i]) ==>
              Latest(StepOf(p, i).actors, MembershipWrites(), p.clock + 1) == Some(i)
    ensures !WritesMembership(p.actors[i]) ==>
              Latest(StepOf(p, i).actors, MembershipWrites(), p.clock + 1) ==
              Latest(p.actors, MembershipWrites(), p.clock)
  {
    StepTaken(p, i);
    var q := StepOf(p, i);
    if WritesMembership(p.actors[i]) {
      assert Made(MembershipWrites(), q.actors[i], p.clock + 1);
    } else {
      LatestAlike(q.actors, p.clock + 1, p.actors, p.clock, MembershipWrites());
    }
  }

  /** What a step does to the cluster. */
  lemma ClusterNext(p: Crowd, i: nat)
    requires i < |p.actors|
    ensures var x, d := p.actors[i], StepOf(p, i).cluster;
            && d.voters == (if WritesMembership(x) then Writes(x) else p.cluster.voters)
            && d.nodes.Keys == (if !WritesRecord(x) then p.cluster.nodes.Keys
                                else if x.request.Join? then p.cluster.nodes.Keys + {x.request.id}
                                else p.cluster.nodes.Keys - {x.request.id})
  {
  }

  lemma MemberWritten(c: Cluster, p: Crowd, i: nat, id: NodeId)
    requires i < |p.actors| && Timely(p) && SeenRight(c, p, p.actors[i]) && WritesMembership(p.actors[i])
    ensures Member(c.voters, StepOf(p, i).actors, p.clock + 1, id) <==> id in Writes(p.actors[i])
  {
    var x := p.actors[i];
    StepTaken(p, i);
    MembershipLatest(p, i);
    if x.request.id != id {
      MemberAlike(c.voters, p, i, x.read.value, id);
    }
  }

  lemma MemberStays(voters: set<NodeId>, p: Crowd, i: nat, id: NodeId)
    requires i < |p.actors| && Timely(p) && !WritesMembership(p.actors[i])
    ensures Member(voters, StepOf(p, i).actors, p.clock + 1, id) == Member(voters, p.actors, p.clock, id)
  {
    var r := Latest(p.actors, MembershipWrites(), p.clock);
    StepTaken(p, i);
    MembershipLatest(p, i);
    if r.Some? && p.actors[r.value].request.id != id {
      MemberAlike(voters, p, i, p.actors[r.value].read.value, id);
    }
  }

  /** Who is a member after the step. */
  lemma MemberNext(c: Cluster, p: Crowd, i: nat, id: NodeId)
    requires i < |p.actors| && Timely(p) && SeenRight(c, p, p.actors[i]) && VoterRight(c, p, id)
    ensures VoterRight(c, StepOf(p, i), id)
  {
    var q := StepOf(p, i);
    ClusterNext(p, i);
    assert q.clock == p.clock + 1;
    if WritesMembership(p.actors[i]) {
      MemberWritten(c, p, i, id);
    } else {
      MemberStays(c.voters, p, i, id);
    }
  }

  lemma RecordLatest(p: Crowd, i: nat, id: NodeId)
    requires i < |p.actors| && Timely(p) && WritesRecord(p.actors[i]) && p.actors[i].request.id == id
    ensures Latest(StepOf(p, i).actors, RecordWrites(id), p.clock + 1) == Some(i)
  {
    StepTaken(p, i);
    assert Made(RecordWrites(id), StepOf(p, i).actors[i], p.clock + 1);
  }

  lemma NoNewRecord(p: Crowd, i: nat, id: NodeId, j: nat)
    requires i < |p.actors| && j < |p.actors| && Timely(p)
    requires !(WritesRecord(p.actors[i]) && p.actors[i].request.id == id)
    ensures Alike(RecordWrites(id), StepOf(p, i).actors[j], p.clock + 1, p.actors[j], p.clock)
  {
    StepTaken(p, i);
    assert InOrder(p.actors[j], p.clock);
  }

  lemma RecordStays(p: Crowd, i: nat, id: NodeId)
    requires i < |p.actors| && Timely(p) && !(WritesRecord(p.actors[i]) && p.actors[i].request.id == id)
    ensures Latest(StepOf(p, i).actors, RecordWrites(id), p.clock + 1) == Latest(p.actors, RecordWrites(id), p.clock)
  {
    var q := StepOf(p, i);
    forall j | 0 <= j < |p.actors|
      ensures Alike(RecordWrites(id), q.actors[j], p.clock + 1, p.actors[j], p.clock)
    {
      NoNewRecord(p, i, id, j);
    }
    LatestAlike(q.actors, p.clock + 1, p.actors, p.clock, RecordWrites(id));
  }

  /** Who has a record after the step. */
  lemma RecordedNext(c: Cluster, p: Crowd, i: nat, id: NodeId)
    requires i < |p.actors| && Timely(p) && NodeRight(c, p, id)
    ensures NodeRight(c, StepOf(p, i), id)
  {
    ClusterNext(p, i);
    StepKeepsRequests(p, i);
    if WritesRecord(p.actors[i]) && p.actors[i].request.id == id {
      RecordLatest(p, i, id);
    } else {
      RecordStays(p, i, id);
    }
  }

  lemma StepKeepsRequests(p: Crowd, i: nat)
    ensures |StepOf(p, i).actors| == |p.actors|
    ensures forall j :: 0 <= j < |p.actors| ==> StepOf(p, i).actors[j].request == p.actors[j].request
  {
  }

  lemma SeenNext(c: Cluster, p: Crowd, i: nat, j: nat)
    requires i < |p.actors| && j < |p.actors| && Timely(p) && AllSeenRight(c, p) && VotersRight(c, p)
    ensures SeenRight(c, StepOf(p, i), StepOf(p, i).actors[j])
  {
    var q := StepOf(p, i);
    var x, y := p.actors[j], q.actors[j];
    StepTaken(p, i);
    if y.read.Some? {
      forall id
        ensures id in y.seen <==> Member(c.voters, q.actors, y.read.value, id)
      {
        MemberAlike(c.voters, p, i, y.read.value, id);
        assert SeenRight(c, p, x) && VoterRight(c, p, id);
      }
    }
  }

  lemma AllSeenNext(c: Cluster, p: Crowd, i: nat)
    requires i < |p.actors| && Timely(p) && AllSeenRight(c, p) && VotersRight(c, p)
    ensures AllSeenRight(c, StepOf(p, i))
  {
    forall j | 0 <= j < |StepOf(p, i).actors|
      ensures SeenRight(c, StepOf(p, i), StepOf(p, i).actors[j])
    {
      SeenNext(c, p, i, j);
    }
  }

  lemma VotersNext(c: Cluster, p: Crowd, i: nat)
    requires i < |p.actors| && Timely(p) && AllSeenRight(c, p) && VotersRight(c, p)
    ensures VotersRight(c, StepOf(p, i))
  {
    forall id
      ensures VoterRight(c, StepOf(p, i), id)
    {
      MemberNext(c, p, i, id);
    }
  }

  lemma NodesNext(c: Cluster, p: Crowd, i: nat)
    requires i < |p.actors| && Timely(p) && NodesRight(c, p)
    ensures NodesRight(c, StepOf(p, i))
  {
    forall id
      ensures NodeRight(c, StepOf(p, i), id)
    {
      RecordedNext(c, p, i, id);
    }
  }

  lemma NamesNext(p: Crowd, i: nat)
    requires NamesRight(p)
    ensures NamesRight(StepOf(p, i))
  {
  }

  lemma StepKeepsCrowdInv(c: Cluster, p: Crowd, i: nat)
    requires CrowdInv(c, p)
    ensures CrowdInv(c, StepOf(p, i))
  {
    if i < |p.actors| {
      StepTaken(p, i);
      AllSeenNext(c, p, i);
      VotersNext(c, p, i);
      NodesNext(c, p, i);
      NamesNext(p, i);
    }
  }

  /** Over every schedule, voters and records are those that the chain of readings and the last writes say. */
  lemma {:induction false} CrowdKeepsInv(c: Cluster, requests: seq<Request>, schedule: seq<nat>)
    requires VotersRecorded(c)
    ensures CrowdInv(c, RunCrowd(c, requests, schedule))
    decreases |schedule|
  {
    if schedule == [] {
      NothingYet(c, RunCrowd(c, requests, []).actors);
    } else {
      CrowdKeepsInv(c, requests, schedule[..|schedule| - 1]);
      StepKeepsCrowdInv(c, RunCrowd(c, requests, schedule[..|schedule| - 1]), schedule[|schedule| - 1]);
    }
  }

  lemma NothingYet(c: Cluster, actors: seq<Actor>)
    requires forall i :: 0 <= i < |actors| ==> actors[i] == Fresh(actors[i].request)
    ensures VotersRight(c, Crowd(c, actors, 0)) && NodesRight(c, Crowd(c, actors, 0))
  {
  }

  // ----- The exact condition -----

  /** A completed leave whose removal is the last write on its node's record. */
  predicate Removed(p: Crowd, i: nat)
  {
    && i < |p.actors| && p.actors[i].request.Leave?
    && Latest(p.actors, RecordWrites(p.actors[i].request.id), p.clock) == Some(i)
  }

  /** Whoever became a member by the chain of readings was recorded at some time. */
  lemma {:induction false} MemberWasRecorded(c: Cluster, p: Crowd, t: nat, id: NodeId)
    requires VotersRecorded(c) && Timely(p) && t <= p.clock && Member(c.voters, p.actors, t, id)
    ensures id in c.nodes || Latest(p.actors, RecordWrites(id), p.clock).Some?
    decreases t
  {
    var r := Latest(p.actors, MembershipWrites(), t);
    if r.Some? {
      var x := p.actors[r.value];
      if x.request.id == id {
        assert Made(RecordWrites(id), x, p.clock);
      } else {
        MemberWasRecorded(c, p, x.read.value, id);
      }
    }
  }

  /**
    For every cluster, any number of requests and every schedule, cut off anywhere: every voter has its record
    exactly when no node whose record was last removed is still a member by the chain of readings.
   */
  lemma CrowdIsSafeIff(c: Cluster, requests: seq<Request>, schedule: seq<nat>)
    requires VotersRecorded(c)
    ensures var p := RunCrowd(c, requests, schedule);
            VotersRecorded(p.cluster) <==>
            forall i: nat :: Removed(p, i) ==> !Member(c.voters, p.actors, p.clock, p.actors[i].request.id)
  {
    var p := RunCrowd(c, requests, schedule);
    CrowdKeepsInv(c, requests, schedule);
    if VotersRecorded(p.cluster) {
      forall i: nat | Removed(p, i)
        ensures !Member(c.voters, p.actors, p.clock, p.actors[i].request.id)
      {
        var id := p.actors[i].request.id;
        assert VoterRight(c, p, id) && NodeRight(c, p, id) && !Recorded(c.nodes.Keys, p.actors, p.clock, id);
      }
    }
    if forall i: nat :: Removed(p, i) ==> !Member(c.voters, p.actors, p.clock, p.actors[i].request.id) {
      forall id | id in p.cluster.voters
        ensures id in p.cluster.nodes
      {
        assert VoterRight(c, p, id) && NodeRight(c, p, id);
        MemberWasRecorded(c, p, p.clock, id);
        var r := Latest(p.actors, RecordWrites(id), p.clock);
        if r.Some? && p.actors[r.value].request.Leave? {
          assert Removed(p, r.value);
        }
      }
    }
  }
}
