/**
  The watcher manager (metasrv/src/watcher/watcher_manager.rs) over its range map
  (common/base/src/rangemap/range_map.rs, range_map_key.rs).
 */
module Watcher {
  import opened Strings
  import opened Wrappers

  // ----- Ends of ranges -----

  const NUL: char := 0 as char

  /** `end` followed by a zero character is the least string above `end`. */
  lemma {:induction false} SuccessorBound(p: string, end: string)
    ensures Less(p, end + [NUL]) <==> Leq(p, end)
    decreases |p|
  {
    var next := end + [NUL];
    if p != "" && end != "" && p[0] == end[0] {
      assert next[1..] == end[1..] + [NUL];
      SuccessorBound(p[1..], end[1..]);
    } else if end == "" {
      assert next[0] == NUL && next[1..] == "";
      assert p != "" ==> !(p[0] < NUL);
    }
  }

  // ----- The range map -----

  type WatcherId = int

  datatype RangeKey = RangeKey(start: string, end: string, id: WatcherId)

  /** `RangeMapKey::cmp` gives at least: the end weighs most, then the start, then the id. */
  predicate KeyGeq(a: RangeKey, b: RangeKey)
  {
    if a.end != b.end then Less(b.end, a.end)
    else if a.start != b.start then Less(b.start, a.start)
    else a.id >= b.id
  }

  /** `get_by_point`: the scan starts at the empty range at the point, with the default id 0. */
  predicate Hit(k: RangeKey, point: string)
  {
    KeyGeq(k, RangeKey(point, point, 0)) && Leq(k.start, point)
  }

  // ----- Requests and events -----

  datatype Filter = All | Update | Delete

  datatype Request = Request(key: string, keyEnd: Option<string>, filter: Filter)

  datatype Kv = Kv(key: string, prev: Option<nat>, current: Option<nat>)

  /** `get_range_key`. */
  function GetRangeKey(r: Request): Option<(string, string)>
  {
    match r.keyEnd
    case Some(end) => if Less(end, r.key) then None else Some((r.key, end + [NUL]))
    case None => Some((r.key, r.key))
  }

  predicate Passes(f: Filter, kv: Kv)
  {
    !((f.Delete? && kv.current.Some?) || (f.Update? && kv.current.None?))
  }

  /** The keys a request is about: the closed range, or the single key. */
  predicate Covers(r: Request, point: string)
  {
    match r.keyEnd
    case Some(end) => Leq(r.key, point) && Leq(point, end)
    case None => point == r.key
  }

  /** Events about a covered key; with a filter, just those that leave a value, or just those that leave none. */
  predicate Wants(r: Request, kv: Kv)
  {
    && Covers(r, kv.key)
    && match r.filter
       case All => true
       case Update => kv.current.Some?
       case Delete => kv.current.None?
  }

  /** The range map finds a watcher for a key exactly when its request covers the key. */
  lemma HitIffCovers(r: Request, id: WatcherId, point: string)
    requires GetRangeKey(r).Some? && id >= 0
    ensures var (start, end) := GetRangeKey(r).value; Hit(RangeKey(start, end, id), point) <==> Covers(r, point)
  {
    var (start, end) := GetRangeKey(r).value;
    LessAntisymmetric(start, point);
    LessAntisymmetric(end, point);
    LessAntisymmetric(start, end);
    if r.keyEnd.Some? {
      SuccessorBound(point, r.keyEnd.value);
      SuccessorBound(start, r.keyEnd.value);
      if point == end && Leq(start, point) {
        LessAntisymmetric(point, point);
        LessAntisymmetric(start, r.keyEnd.value);
      }
    }
  }

  // ----- The manager -----

  datatype Stream = Stream(id: WatcherId, filter: Filter, start: string, end: string)

  /** `sent` is what each watcher's channel has accepted. */
  datatype Core = Core(ranges: map<RangeKey, Stream>, currentId: WatcherId, sent: map<WatcherId, seq<Kv>>)

  const INITIAL_CORE := Core(map[], 1, map[])

  /** Input to the event loop; `failing` are the watchers whose channel refuses this event. */
  datatype Input = CreateWatcher(request: Request) | KvChanged(kv: Kv, failing: set<WatcherId>)

  function Created(c: Core, r: Request): Core
  {
    match GetRangeKey(r)
    case None => c
    case Some((start, end)) =>
      var id := c.currentId + 1;
      Core(c.ranges[RangeKey(start, end, id) := Stream(id, r.filter, start, end)], id, c.sent[id := []])
  }

  predicate Addressed(c: Core, k: RangeKey, kv: Kv)
  {
    k in c.ranges && Hit(k, kv.key) && Passes(c.ranges[k].filter, kv)
  }

  function Ids(keys: set<RangeKey>): set<WatcherId>
  {
    set k | k in keys :: k.id
  }

  function Targets(c: Core, kv: Kv): set<RangeKey>
  {
    set k | k in c.ranges && Addressed(c, k, kv)
  }

  function Extended(sent: map<WatcherId, seq<Kv>>, kv: Kv, accepting: set<WatcherId>): map<WatcherId, seq<Kv>>
  {
    map id | id in sent :: if id in accepting then sent[id] + [kv] else sent[id]
  }

  ghost function Notified(c: Core, kv: Kv, failing: set<WatcherId>): Core
  {
    Core(map k | k in c.ranges && !(Addressed(c, k, kv) && k.id in failing) :: c.ranges[k],
         c.currentId,
         Extended(c.sent, kv, Ids(Targets(c, kv)) - failing))
  }

  ghost function Next(c: Core, i: Input): Core
  {
    match i
    case CreateWatcher(r) => Created(c, r)
    case KvChanged(kv, failing) => Notified(c, kv, failing)
  }

  /** Streams agree with their keys, ids are unique and never reused. */
  ghost predicate Inv(c: Core)
  {
    && c.currentId >= 1
    && (forall k :: k in c.ranges ==> 1 < k.id <= c.currentId && k.id in c.sent)
    && (forall k :: k in c.ranges ==>
         c.ranges[k].id == k.id && c.ranges[k].start == k.start && c.ranges[k].end == k.end)
    && (forall k, l :: k in c.ranges && l in c.ranges && k.id == l.id ==> k == l)
    && (forall id :: id in c.sent ==> 1 < id <= c.currentId)
  }

  lemma CreationKeepsInv(c: Core, r: Request)
    requires Inv(c)
    ensures Inv(Created(c, r))
  {
    var range := GetRangeKey(r);
    if range.Some? {
      var id, d := c.currentId + 1, Created(c, r);
      var added := RangeKey(range.value.0, range.value.1, id);
      assert d.ranges == c.ranges[added := Stream(id, r.filter, added.start, added.end)];
      assert d.currentId == id && d.sent == c.sent[id := []];
      assert forall k :: k in c.ranges ==> k.id != id;
    }
  }

  lemma NotificationKeepsInv(c: Core, kv: Kv, failing: set<WatcherId>)
    requires Inv(c)
    ensures Inv(Notified(c, kv, failing))
  {
    var d := Notified(c, kv, failing);
    assert d.sent.Keys == c.sent.Keys && d.ranges.Keys <= c.ranges.Keys;
    assert forall k :: k in d.ranges ==> d.ranges[k] == c.ranges[k];
  }

  lemma StepKeepsInv(c: Core, i: Input)
    requires Inv(c)
    ensures Inv(Next(c, i))
  {
    match i
    case CreateWatcher(r) => CreationKeepsInv(c, r);
    case KvChanged(kv, failing) => NotificationKeepsInv(c, kv, failing);
  }

  class WatcherManagerCore {
    var ranges: map<RangeKey, Stream>
    var currentId: WatcherId
    var sent: map<WatcherId, seq<Kv>>

    ghost function State(): Core
      reads this
    {
      Core(ranges, currentId, sent)
    }

    constructor ()
      ensures State() == INITIAL_CORE && Inv(State())
    {
      ranges, currentId, sent := map[], 1, map[];
    }

    /** `create_watcher_stream`. */
    method CreateWatcherStream(r: Request)
      requires Inv(State())
      modifies this
      ensures State() == Created(old(State()), r) && Inv(State())
    {
      StepKeepsInv(State(), CreateWatcher(r));
      var range := GetRangeKey(r);
      if range.None? { return; }
      var (start, end) := range.value;
      currentId := currentId + 1;
      ranges := ranges[RangeKey(start, end, currentId) := Stream(currentId, r.filter, start, end)];
      sent := sent[currentId := []];
    }

    /** `notify_event`: first every send, then the removals. */
    method NotifyEvent(kv: Kv, failing: set<WatcherId>)
      requires Inv(State())
      modifies this
      ensures State() == Notified(old(State()), kv, failing) && Inv(State())
    {
      ghost var before := State();
      StepKeepsInv(before, KvChanged(kv, failing));
      var watchers := set k | k in ranges && Hit(k, kv.key);
      assert Targets(before, kv) == set k | k in watchers && Passes(ranges[k].filter, kv);
      var removeKeys := SendAll(kv, failing, watchers);
      RemoveAll(removeKeys);
      assert ranges == Notified(before, kv, failing).ranges;
    }

    /** The sends, in the order of the range map or any other. */
    method SendAll(kv: Kv, failing: set<WatcherId>, watchers: set<RangeKey>) returns (removeKeys: seq<RangeKey>)
      requires Inv(State()) && watchers <= ranges.Keys
      modifies this`sent
      ensures var targets := set k | k in watchers && Passes(ranges[k].filter, kv);
              && sent == Extended(old(sent), kv, Ids(targets) - failing)
              && forall k :: k in removeKeys <==> k in targets && k.id in failing
    {
      removeKeys := [];
      var todo := watchers;
      ghost var targets: set<RangeKey> := {};
      while todo != {}
        invariant todo <= watchers
        invariant targets == set k | k in watchers - todo && Passes(ranges[k].filter, kv)
        invariant sent == Extended(old(sent), kv, Ids(targets) - failing)
        invariant forall k :: k in removeKeys <==> k in targets && k.id in failing
      {
        var k :| k in todo;
        var stream := ranges[k];
        todo := todo - {k};
        if Passes(stream.filter, kv) {
          assert stream.id == k.id;
          assert k.id !in Ids(targets);
          assert Ids(targets + {k}) == Ids(targets) + {k.id};
          targets := targets + {k};
          if k.id in failing {
            removeKeys := removeKeys + [RangeKey(stream.start, stream.end, k.id)];
          } else {
            sent := sent[k.id := sent[k.id] + [kv]];
          }
        }
      }
      assert watchers - todo == watchers;
    }

    /** `close_stream` for each collected key. */
    method RemoveAll(keys: seq<RangeKey>)
      modifies this`ranges
      ensures ranges == map k | k in old(ranges) && k !in keys :: old(ranges)[k]
    {
      for i := 0 to |keys|
        invariant ranges == map k | k in old(ranges) && k !in keys[..i] :: old(ranges)[k]
      {
        ranges := ranges - {keys[i]};
      }
    }
  }

  // ----- Whole runs of the event loop -----

  ghost function Run(c: Core, inputs: seq<Input>): Core
    decreases |inputs|
  {
    if inputs == [] then c else Run(Next(c, inputs[0]), inputs[1..])
  }

  /** What a watcher is owed: the events it wants, in order, up to the first one its channel refuses. */
  function Owed(r: Request, id: WatcherId, inputs: seq<Input>): seq<Kv>
    decreases |inputs|
  {
    if inputs == [] then []
    else if inputs[0].KvChanged? && Wants(r, inputs[0].kv) then
      if id in inputs[0].failing then [] else [inputs[0].kv] + Owed(r, id, inputs[1..])
    else Owed(r, id, inputs[1..])
  }

  /** Where its channel refuses nothing, a watcher is owed an event exactly if it came and is of its kind. */
  lemma {:induction false} OwedIff(r: Request, id: WatcherId, inputs: seq<Input>, kv: Kv)
    requires forall i :: 0 <= i < |inputs| && inputs[i].KvChanged? ==> id !in inputs[i].failing
    ensures kv in Owed(r, id, inputs) <==>
              && Covers(r, kv.key) && (r.filter.All? || (r.filter.Delete? <==> kv.current.None?))
              && exists i :: 0 <= i < |inputs| && inputs[i].KvChanged? && inputs[i].kv == kv
    decreases |inputs|
  {
    if inputs != [] {
      var rest := inputs[1..];
      OwedIff(r, id, rest, kv);
      assert forall i :: 0 < i < |inputs| ==> inputs[i] == rest[i - 1];
      assert forall i :: 0 <= i < |rest| ==> rest[i] == inputs[i + 1];
    }
  }

  lemma {:induction false} RunKeepsInv(c: Core, inputs: seq<Input>)
    requires Inv(c)
    ensures Inv(Run(c, inputs))
    decreases |inputs|
  {
    if inputs != [] {
      StepKeepsInv(c, inputs[0]);
      RunKeepsInv(Next(c, inputs[0]), inputs[1..]);
    }
  }

  /** Watcher `id` is registered for request `r`. */
  predicate Registered(c: Core, r: Request, id: WatcherId)
  {
    GetRangeKey(r).Some? &&
    var (start, end) := GetRangeKey(r).value;
    var k := RangeKey(start, end, id);
    k in c.ranges && c.ranges[k].filter == r.filter
  }

  /** Watcher `id` was created and is no longer registered. */
  ghost predicate Closed(c: Core, id: WatcherId)
  {
    id in c.sent && forall k :: k in c.ranges ==> k.id != id
  }

  /** A closed watcher stays closed and receives nothing more. */
  lemma {:induction false} ClosedStaysClosed(c: Core, id: WatcherId, inputs: seq<Input>)
    requires Inv(c) && Closed(c, id)
    ensures Closed(Run(c, inputs), id) && Run(c, inputs).sent[id] == c.sent[id]
    decreases |inputs|
  {
    if inputs != [] {
      StepKeepsInv(c, inputs[0]);
      ClosedStaysClosed(Next(c, inputs[0]), id, inputs[1..]);
    }
  }

  /** One input's effect on a registered watcher. */
  lemma RegisteredStep(c: Core, r: Request, id: WatcherId, i: Input)
    requires Inv(c) && Registered(c, r, id)
    ensures var d := Next(c, i);
            var wanted := i.KvChanged? && Wants(r, i.kv);
            && id in d.sent
            && (if wanted && id in i.failing then Closed(d, id) && d.sent[id] == c.sent[id]
                else Registered(d, r, id) && d.sent[id] == c.sent[id] + if wanted then [i.kv] else [])
  {
    if i.KvChanged? {
      var (start, end) := GetRangeKey(r).value;
      var k := RangeKey(start, end, id);
      HitIffCovers(r, id, i.kv.key);
      assert Addressed(c, k, i.kv) <==> Wants(r, i.kv);
      assert forall l :: Addressed(c, l, i.kv) && l.id == id ==> l == k;
    }
  }

  /** What one input adds to what a watcher is owed, unless its channel refuses it. */
  lemma OwedStep(r: Request, id: WatcherId, i: Input, rest: seq<Input>)
    requires !(i.KvChanged? && Wants(r, i.kv) && id in i.failing)
    ensures Owed(r, id, [i] + rest) == (if i.KvChanged? && Wants(r, i.kv) then [i.kv] else []) + Owed(r, id, rest)
  {
    var inputs := [i] + rest;
    assert inputs[0] == i && inputs[1..] == rest;
  }

  /** From registration on, a watcher receives exactly what it is owed, whatever else the loop handles. */
  lemma {:induction false} RegisteredReceives(c: Core, r: Request, id: WatcherId, inputs: seq<Input>)
    requires Inv(c) && Registered(c, r, id)
    ensures var d := Run(c, inputs); id in d.sent && d.sent[id] == c.sent[id] + Owed(r, id, inputs)
    decreases |inputs|
  {
    if inputs == [] {
      assert c.sent[id] + Owed(r, id, inputs) == c.sent[id];
    } else {
      var i, rest := inputs[0], inputs[1..];
      StepKeepsInv(c, i);
      RegisteredStep(c, r, id, i);
      if i.KvChanged? && Wants(r, i.kv) && id in i.failing {
        ClosedStaysClosed(Next(c, i), id, rest);
        assert c.sent[id] + Owed(r, id, inputs) == c.sent[id];
      } else {
        RegisteredReceives(Next(c, i), r, id, rest);
        assert [i] + rest == inputs;
        OwedStep(r, id, i, rest);
        Associates(c.sent[id], if i.KvChanged? && Wants(r, i.kv) then [i.kv] else [], Owed(r, id, rest));
      }
    }
  }

  /** Runs compose. */
  lemma {:induction false} RunAppend(c: Core, before: seq<Input>, after: seq<Input>)
    ensures Run(c, before + after) == Run(Run(c, before), after)
    decreases |before|
  {
    if before == [] {
      assert before + after == after;
    } else {
      assert (before + after)[1..] == before[1..] + after;
      RunAppend(Next(c, before[0]), before[1..], after);
    }
  }

  /**
    A request with its bounds in order registers a watcher under an id no earlier watcher had; any other
    creates nothing.
   */
  lemma CreationRegisters(c: Core, r: Request)
    requires Inv(c)
    ensures var id := c.currentId + 1;
            var d := Created(c, r);
            if r.keyEnd.None? || Leq(r.key, r.keyEnd.value) then
              Registered(d, r, id) && id !in c.sent && id in d.sent && d.sent[id] == []
            else
              d == c
  {
  }

  lemma RunCreated(c: Core, r: Request, later: seq<Input>)
    ensures Run(c, [CreateWatcher(r)] + later) == Run(Created(c, r), later)
  {
    var inputs := [CreateWatcher(r)] + later;
    assert inputs[0] == CreateWatcher(r) && inputs[1..] == later;
  }

  /** From any reached state, a request with its bounds in order creates a watcher that receives what it is owed. */
  lemma CreatedReceives(c: Core, r: Request, later: seq<Input>)
    requires Inv(c) && (r.keyEnd.None? || Leq(r.key, r.keyEnd.value))
    ensures var id := c.currentId + 1;
            var end := Run(Created(c, r), later);
            id !in c.sent && id in end.sent && end.sent[id] == Owed(r, id, later)
  {
    var id := c.currentId + 1;
    CreationRegisters(c, r);
    StepKeepsInv(c, CreateWatcher(r));
    RegisteredReceives(Created(c, r), r, id, later);
    assert [] + Owed(r, id, later) == Owed(r, id, later);
  }

  /**
    Over every run of the manager: the watcher created by a request with its bounds in order has been sent
    exactly the events it is owed by the inputs after its creation, under an id no earlier watcher had.
   */
  lemma WatcherReceivesExactlyItsEvents(earlier: seq<Input>, r: Request, later: seq<Input>)
    requires r.keyEnd.None? || Leq(r.key, r.keyEnd.value)
    ensures var before := Run(INITIAL_CORE, earlier);
            var id := before.currentId + 1;
            var end := Run(INITIAL_CORE, earlier + ([CreateWatcher(r)] + later));
            id !in before.sent && id in end.sent && end.sent[id] == Owed(r, id, later)
  {
    var before := Run(INITIAL_CORE, earlier);
    RunKeepsInv(INITIAL_CORE, earlier);
    CreatedReceives(before, r, later);
    RunCreated(before, r, later);
    RunAppend(INITIAL_CORE, earlier, [CreateWatcher(r)] + later);
  }
}
