/**
  Two requests to a meta cluster that overlap (metasrv/src/meta_service/meta_leader.rs). Each reads the
  membership, and then makes its two raft writes; the other may act between any two of these steps, and
  either may be cut off after any of them.
 */
module MembershipOverlap {
  import opened Wrappers
  import opened Membership

  /** A request under way: the membership it read, and when it made each of its steps. */
  datatype Actor = Actor(
    request: Request, seen: set<NodeId>, read: Option<nat>, first: Option<nat>, second: Option<nat>)

  function Fresh(r: Request): Actor
  {
    Actor(r, {}, None, None, None)
  }

  /** Has read, and has something to do: a join of a stranger or a leave of a member. */
  predicate Active(x: Actor)
  {
    x.read.Some? && (x.request.Join? <==> x.request.id !in x.seen)
  }

  /** The membership a request writes, from the one it read. */
  function Writes(x: Actor): set<NodeId>
  {
    if x.request.Join? then x.seen + {x.request.id} else x.seen - {x.request.id}
  }

  /** When the membership was written: last by a join, first by a leave. */
  function MembershipAt(x: Actor): Option<nat>
  {
    if x.request.Join? then x.second else x.first
  }

  /** When the node record was written: first by a join, last by a leave. */
  function RecordAt(x: Actor): Option<nat>
  {
    if x.request.Join? then x.first else x.second
  }

  function WriteRecord(c: Cluster, r: Request): Cluster
  {
    if r.Join? then AddNode(c, r.id, r.endpoint) else RemoveNode(c, r.id)
  }

  /** The next step of a request, at time `now`; none once it has returned. */
  function Act(c: Cluster, x: Actor, now: nat): (Cluster, Actor)
  {
    if x.read.None? then (c, x.(seen := c.voters, read := Some(now)))
    else if !Active(x) || x.second.Some? then (c, x)
    else
      var membership := if x.request.Join? then x.first.Some? else x.first.None?;
      (if membership then ChangeMembership(c, Writes(x)) else WriteRecord(c, x.request),
       if x.first.None? then x.(first := Some(now)) else x.(second := Some(now)))
  }

  datatype Pair = Pair(cluster: Cluster, a: Actor, b: Actor, clock: nat)

  function Step(p: Pair, left: bool): Pair
  {
    if left then
      var (c, a) := Act(p.cluster, p.a, p.clock);
      Pair(c, a, p.b, p.clock + 1)
    else
      var (c, b) := Act(p.cluster, p.b, p.clock);
      Pair(c, p.a, b, p.clock + 1)
  }

  /** Any schedule of the two requests; it may leave either unfinished. */
  function RunPair(c: Cluster, r: Request, q: Request, schedule: seq<bool>): Pair
  {
    if schedule == [] then Pair(c, Fresh(r), Fresh(q), 0)
    else Step(RunPair(c, r, q, schedule[..|schedule| - 1]), schedule[|schedule| - 1])
  }

  // ----- When a record is lost -----

  predicate Before(s: Option<nat>, t: Option<nat>)
  {
    s.Some? && t.Some? && s.value < t.value
  }

  /** A completed leave whose membership write was undone by a request that had read the membership before it. */
  predicate Undone(x: Actor, y: Actor)
  {
    && x.request.Leave? && x.second.Some? && x.request.id != y.request.id
    && Before(y.read, x.first) && Before(x.first, MembershipAt(y))
  }

  /** A leave whose record removal came after the record write of a join of the same node that it had let in. */
  predicate Overtaken(x: Actor, y: Actor)
  {
    && x.request.Leave? && y.request.Join? && x.request.id == y.request.id
    && Before(x.first, y.read) && Before(y.first, x.second) && y.second.Some?
  }

  predicate Loses(x: Actor, y: Actor)
  {
    Undone(x, y) || Overtaken(x, y)
  }

  // ----- What holds throughout -----

  predicate InOrder(x: Actor, clock: nat)
  {
    && (x.read.Some? ==> x.read.value < clock)
    && (x.first.Some? ==> Active(x) && Before(x.read, x.first) && x.first.value < clock)
    && (x.second.Some? ==> Before(x.first, x.second) && x.second.value < clock)
  }

  predicate Apart(s: Option<nat>, t: Option<nat>)
  {
    s.Some? && t.Some? ==> s.value != t.value
  }

  predicate AllApart(x: Actor, y: Actor)
  {
    && Apart(x.read, y.read) && Apart(x.read, y.first) && Apart(x.read, y.second)
    && Apart(x.first, y.read) && Apart(x.first, y.first) && Apart(x.first, y.second)
    && Apart(x.second, y.read) && Apart(x.second, y.first) && Apart(x.second, y.second)
  }

  /** What a request has read is what was there: the other's membership if that was written by then. */
  predicate SawRight(voters: set<NodeId>, x: Actor, y: Actor)
  {
    x.read.Some? ==> x.seen == if Before(MembershipAt(y), x.read) then Writes(y) else voters
  }

  /** The membership after the writes so far: the later one stands. */
  function VotersNow(voters: set<NodeId>, x: Actor, y: Actor): set<NodeId>
  {
    var s, t := MembershipAt(x), MembershipAt(y);
    if s.None? && t.None? then voters
    else if t.None? || Before(t, s) then Writes(x)
    else Writes(y)
  }

  /** Whether a node has a record after the writes so far: the later one on it stands. */
  predicate RecordedNow(nodes: set<NodeId>, x: Actor, y: Actor, id: NodeId)
  {
    var s := if x.request.id == id then RecordAt(x) else None;
    var t := if y.request.id == id then RecordAt(y) else None;
    if s.None? && t.None? then id in nodes
    else if t.None? || Before(t, s) then x.request.Join?
    else y.request.Join?
  }

  ghost predicate Inv(c: Cluster, p: Pair)
  {
    && InOrder(p.a, p.clock) && InOrder(p.b, p.clock) && AllApart(p.a, p.b)
    && SawRight(c.voters, p.a, p.b) && SawRight(c.voters, p.b, p.a)
    && p.cluster.voters == VotersNow(c.voters, p.a, p.b)
    && (forall id :: id in p.cluster.nodes <==> RecordedNow(c.nodes.Keys, p.a, p.b, id))
    && (forall id :: id in p.cluster.nodes ==> p.cluster.nodes[id].name == id)
  }

  function Swap(p: Pair): Pair
  {
    Pair(p.cluster, p.b, p.a, p.clock)
  }

  lemma InvIsSymmetric(c: Cluster, p: Pair)
    requires Inv(c, p)
    ensures Inv(c, Swap(p))
  {
  }

  lemma LeftStepKeepsOrder(c: Cluster, p: Pair)
    requires Inv(c, p)
    ensures var q := Step(p, true); InOrder(q.a, q.clock) && InOrder(q.b, q.clock) && AllApart(q.a, q.b)
  {
  }

  lemma LeftStepKeepsVoters(c: Cluster, p: Pair)
    requires Inv(c, p)
    ensures var q := Step(p, true);
            && SawRight(c.voters, q.a, q.b) && SawRight(c.voters, q.b, q.a)
            && q.cluster.voters == VotersNow(c.voters, q.a, q.b)
  {
  }

  lemma LeftStepKeepsRecords(c: Cluster, p: Pair, id: NodeId)
    requires Inv(c, p)
    ensures var q := Step(p, true);
            && (id in q.cluster.nodes <==> RecordedNow(c.nodes.Keys, q.a, q.b, id))
            && (id in q.cluster.nodes ==> q.cluster.nodes[id].name == id)
  {
  }

  lemma LeftStepKeepsInv(c: Cluster, p: Pair)
    requires Inv(c, p)
    ensures Inv(c, Step(p, true))
  {
    LeftStepKeepsOrder(c, p);
    LeftStepKeepsVoters(c, p);
    forall id {
      LeftStepKeepsRecords(c, p, id);
    }
  }

  lemma StepKeepsInv(c: Cluster, p: Pair, left: bool)
    requires Inv(c, p)
    ensures Inv(c, Step(p, left))
  {
    if left {
      LeftStepKeepsInv(c, p);
    } else {
      InvIsSymmetric(c, p);
      LeftStepKeepsInv(c, Swap(p));
      InvIsSymmetric(c, Step(Swap(p), true));
    }
  }

  lemma {:induction false} RunKeepsInv(c: Cluster, r: Request, q: Request, schedule: seq<bool>)
    requires VotersRecorded(c)
    ensures Inv(c, RunPair(c, r, q, schedule))
    decreases |schedule|
  {
    if schedule != [] {
      var n := |schedule| - 1;
      RunKeepsInv(c, r, q, schedule[..n]);
      StepKeepsInv(c, RunPair(c, r, q, schedule[..n]), schedule[n]);
    }
  }

  // ----- The exact condition -----

  /** The node of a request is a voter without a record exactly when a record is lost. */
  lemma MissingIff(c: Cluster, p: Pair)
    requires VotersRecorded(c) && Inv(c, p)
    ensures var id := p.a.request.id;
            id in p.cluster.voters && id !in p.cluster.nodes <==>
            Loses(p.a, p.b) || (p.b.request.id == id && Loses(p.b, p.a))
  {
  }

  /**
    For every cluster, every two requests and every schedule, cut off anywhere: every voter has its record
    exactly when neither request has lost one.
   */
  lemma OverlapIsSafeIff(c: Cluster, r: Request, q: Request, schedule: seq<bool>)
    requires VotersRecorded(c)
    ensures var p := RunPair(c, r, q, schedule);
            VotersRecorded(p.cluster) <==> !Loses(p.a, p.b) && !Loses(p.b, p.a)
  {
    var p := RunPair(c, r, q, schedule);
    RunKeepsInv(c, r, q, schedule);
    InvIsSymmetric(c, p);
    MissingIff(c, p);
    MissingIff(c, Swap(p));
  }

  /**
    A join of one node and a leave of another, both completed: every voter has its record unless the join
    read the membership before the leave's membership write and wrote its own after it.
   */
  lemma JoinAndLeaveSafeIff(c: Cluster, joiner: NodeId, endpoint: string, leaver: NodeId, schedule: seq<bool>)
    requires VotersRecorded(c) && joiner != leaver
    requires var p := RunPair(c, Join(joiner, endpoint), Leave(leaver), schedule); p.a.second.Some? && p.b.second.Some?
    ensures var p := RunPair(c, Join(joiner, endpoint), Leave(leaver), schedule);
            VotersRecorded(p.cluster) <==> !(Before(p.a.read, p.b.first) && Before(p.b.first, p.a.second))
  {
    OverlapIsSafeIff(c, Join(joiner, endpoint), Leave(leaver), schedule);
    RequestsStay(c, Join(joiner, endpoint), Leave(leaver), schedule);
  }

  lemma {:induction false} RequestsStay(c: Cluster, r: Request, q: Request, schedule: seq<bool>)
    ensures var p := RunPair(c, r, q, schedule); p.a.request == r && p.b.request == q
    decreases |schedule|
  {
    if schedule != [] {
      RequestsStay(c, r, q, schedule[..|schedule| - 1]);
    }
  }
}
