/**
  Installing a snapshot (metasrv/src/store/meta_raft_store.rs, inner `install_snapshot` and the
  recovery in `open_create`): the state machine lives in a tree of the database, a snapshot is loaded
  into a second tree, and a persisted pair of tree ids says which tree is current and which is garbage.

  Every durable write is one step, and the process may crash between any two of them.
 */
module SnapshotStore {
  import opened Wrappers

  type Key(==, !new)
  type Bytes(==, !new)
  type Contents = map<Key, Bytes>
  type Snapshot = seq<(Key, Bytes)>

  /** The entry that opening a tree writes if it is missing. */
  datatype Config = Config(initKey: Key, initValue: Bytes)

  /** `trees` holds the trees that exist; the pair is what `write_state_machine_id` stores. */
  datatype Disk = Disk(smId: nat, prevSmId: nat, trees: map<nat, Contents>) {
    function Tree(id: nat): Contents
    {
      if id in trees then trees[id] else map[]
    }
  }

  const FRESH_DISK := Disk(0, 0, map[])

  function WithInit(c: Config, m: Contents): Contents
  {
    if c.initKey in m then m else m[c.initKey := c.initValue]
  }

  /** The first `n` pairs of a snapshot inserted into a newly opened tree. */
  function Loaded(c: Config, snap: Snapshot, n: nat): Contents
    requires n <= |snap|
  {
    if n == 0 then WithInit(c, map[]) else Loaded(c, snap, n - 1)[snap[n - 1].0 := snap[n - 1].1]
  }

  function SnapshotContents(c: Config, snap: Snapshot): Contents
  {
    Loaded(c, snap, |snap|)
  }

  // ----- Steps -----

  datatype Stage = Marked | Filling(inserted: nat) | Flushed | Switched | Cleaned

  datatype RecoveryStage = Started | StaleCleaned | IdsEqual

  /** Where the process stands; `tree` is the tree its in-memory handle uses. */
  datatype Phase =
    | Down
    | Recovering(stage: RecoveryStage)
    | Running(tree: nat)
    | Installing(tree: nat, snap: Snapshot, progress: Stage)

  datatype State = State(disk: Disk, phase: Phase)

  datatype Event =
    | Open
    | CleanStale
    | ResetIds
    | OpenTree
    | Apply(deletes: set<Key>, puts: Contents)
    | InstallRefused
    | InstallBegin(snapshot: Snapshot)
    | InstallOpen
    | InstallInsert
    | InstallFlush
    | InstallSwitch(snapshot: Snapshot)
    | InstallClean
    | InstallFinish
    | InstallFail
    | InstallLateFail
    | Crash(unflushed: Contents)

  function Applied(m: Contents, deletes: set<Key>, puts: Contents): Contents
  {
    m - deletes + puts
  }

  function WithTree(d: Disk, id: nat, m: Contents): Disk
  {
    d.(trees := d.trees[id := m])
  }

  /** The state after an event, if the event can happen. */
  function Next(c: Config, s: State, e: Event): Option<State>
  {
    var d := s.disk;
    match (s.phase, e)
    // Recovery: drop the garbage tree, make the ids equal, open the current tree.
    case (Down, Open) => Some(State(d, Recovering(if d.smId == d.prevSmId then IdsEqual else Started)))
    case (Recovering(Started), CleanStale) => Some(State(d.(trees := d.trees - {d.prevSmId}), Recovering(StaleCleaned)))
    case (Recovering(StaleCleaned), ResetIds) => Some(State(d.(prevSmId := d.smId), Recovering(IdsEqual)))
    case (Recovering(IdsEqual), OpenTree) =>
      Some(State(WithTree(d, d.smId, WithInit(c, d.Tree(d.smId))), Running(d.smId)))
    // Log entries are applied to the tree in memory, each in one transaction.
    case (Running(t), Apply(deletes, puts)) => Some(State(WithTree(d, t, Applied(d.Tree(t), deletes, puts)), s.phase))
    // Installation.
    case (Running(_), InstallRefused) => if d.smId != d.prevSmId then Some(s) else None
    case (Running(t), InstallBegin(snap)) =>
      if d.smId == d.prevSmId then Some(State(d.(prevSmId := d.smId + 1), Installing(t, snap, Marked))) else None
    case (Installing(t, snap, Marked), InstallOpen) =>
      Some(State(WithTree(d, d.prevSmId, WithInit(c, d.Tree(d.prevSmId))), Installing(t, snap, Filling(0))))
    case (Installing(t, snap, Filling(i)), InstallInsert) =>
      if i < |snap| then
        var more := d.Tree(d.prevSmId)[snap[i].0 := snap[i].1];
        Some(State(WithTree(d, d.prevSmId, more), Installing(t, snap, Filling(i + 1))))
      else None
    case (Installing(t, snap, Filling(i)), InstallFlush) =>
      if i == |snap| then Some(State(d, Installing(t, snap, Flushed))) else None
    case (Installing(t, snap, Flushed), InstallSwitch(snap')) =>
      if snap == snap' then Some(State(d.(smId := d.prevSmId, prevSmId := d.smId), Installing(t, snap, Switched)))
      else None
    case (Installing(t, snap, Switched), InstallClean) =>
      Some(State(d.(trees := d.trees - {d.prevSmId}), Installing(t, snap, Cleaned)))
    case (Installing(t, snap, Cleaned), InstallFinish) => Some(State(d.(prevSmId := d.smId), Running(d.smId)))
    // An I/O error before the switch ends the installation; the old tree stays in use.
    case (Installing(t, snap, stage), InstallFail) =>
      if stage.Switched? || stage.Cleaned? then None else Some(State(d, Running(t)))
    // An I/O error after it does so too, although the old tree is then the garbage.
    case (Installing(t, snap, stage), InstallLateFail) =>
      if stage.Switched? || stage.Cleaned? then Some(State(d, Running(t))) else None
    // A crash loses what the new tree has not flushed: anything may be left in it.
    case (Down, Crash(_)) => None
    case (Installing(t, snap, Filling(_)), Crash(left)) => Some(State(WithTree(d, d.prevSmId, left), Down))
    case (_, Crash(_)) => Some(State(d, Down))
    case (_, _) => None
  }

  function Exec(c: Config, s: State, events: seq<Event>): Option<State>
  {
    if events == [] then Some(s)
    else
      match Exec(c, s, events[..|events| - 1])
      case None => None
      case Some(s1) => Next(c, s1, events[|events| - 1])
  }

  // ----- The abstract store -----

  /** The contents a reopening shows, and whether the process in memory works on them. */
  datatype Logical = Logical(contents: Contents, attached: bool)

  const EMPTY := Logical(map[], true)

  /**
    What an event does to the logical contents: only applying, while attached, and the switch-over write
    change them.
   */
  function Effect(c: Config, l: Logical, e: Event): Logical
  {
    match e
    case Apply(deletes, puts) => if l.attached then l.(contents := Applied(l.contents, deletes, puts)) else l
    case InstallSwitch(snap) => l.(contents := SnapshotContents(c, snap))
    case InstallLateFail => l.(attached := false)
    case OpenTree => Logical(WithInit(c, l.contents), true)
    case _ => l
  }

  function Replay(c: Config, l: Logical, events: seq<Event>): Logical
  {
    if events == [] then l else Effect(c, Replay(c, l, events[..|events| - 1]), events[|events| - 1])
  }

  /** Every tree but the two named by the pair is empty. */
  ghost predicate OthersEmpty(d: Disk)
  {
    forall id :: id != d.smId && id != d.prevSmId ==> d.Tree(id) == map[]
  }

  /** The current tree holds the logical contents, at every step of everything. */
  ghost predicate Inv(c: Config, l: Logical, s: State)
  {
    var d := s.disk;
    && d.Tree(d.smId) == l.contents
    && OthersEmpty(d)
    && match s.phase
       case Down => true
       case Recovering(stage) =>
         && (stage.IdsEqual? <==> d.smId == d.prevSmId)
         && (stage.StaleCleaned? ==> d.Tree(d.prevSmId) == map[])
       case Running(t) => if l.attached then t == d.smId else t == d.prevSmId && t != d.smId
       case Installing(t, snap, stage) => l.attached && InstallInv(c, l.contents, d, t, snap, stage)
  }

  ghost predicate InstallInv(c: Config, m: Contents, d: Disk, t: nat, snap: Snapshot, stage: Stage)
  {
    if stage.Switched? || stage.Cleaned? then
      && t == d.prevSmId && d.smId == t + 1 && m == SnapshotContents(c, snap)
      && (stage.Cleaned? ==> d.Tree(t) == map[])
    else
      && t == d.smId && d.prevSmId == t + 1
      && match stage
         case Marked => d.Tree(d.prevSmId) == map[]
         case Filling(i) => i <= |snap| && d.Tree(d.prevSmId) == Loaded(c, snap, i)
         case _ => d.Tree(d.prevSmId) == SnapshotContents(c, snap)
  }

  lemma StepKeepsInv(c: Config, l: Logical, s: State, e: Event)
    requires Inv(c, l, s) && Next(c, s, e).Some?
    ensures Inv(c, Effect(c, l, e), Next(c, s, e).value)
  {
    var d, d' := s.disk, Next(c, s, e).value.disk;
    assert e.InstallBegin? ==> d.Tree(d'.prevSmId) == map[];
    forall id | id != d'.smId && id != d'.prevSmId ensures d'.Tree(id) == map[] {
      assert id != d.smId && id != d.prevSmId ==> d.Tree(id) == map[];
    }
  }

  lemma {:induction false} RunKeepsInv(c: Config, l: Logical, s: State, events: seq<Event>)
    requires Inv(c, l, s) && Exec(c, s, events).Some?
    ensures Inv(c, Replay(c, l, events), Exec(c, s, events).value)
    decreases |events|
  {
    if events != [] {
      var before := events[..|events| - 1];
      RunKeepsInv(c, l, s, before);
      StepKeepsInv(c, Replay(c, l, before), Exec(c, s, before).value, events[|events| - 1]);
    }
  }

  // ----- Reopening -----

  /** What `open_create` does after a crash, according to the pair it finds. */
  function RecoveryScript(d: Disk): seq<Event>
  {
    if d.smId == d.prevSmId then [Open, OpenTree] else [Open, CleanStale, ResetIds, OpenTree]
  }

  lemma ExecConcat(c: Config, s: State, a: seq<Event>, b: seq<Event>)
    ensures Exec(c, s, a + b) == match Exec(c, s, a) case None => None case Some(s1) => Exec(c, s1, b)
    decreases |b|
  {
    if b == [] {
      assert a + b == a;
    } else {
      assert (a + b)[..|a + b| - 1] == a + b[..|b| - 1];
      ExecConcat(c, s, a, b[..|b| - 1]);
    }
  }

  lemma ExecOne(c: Config, s: State, e: Event)
    ensures Exec(c, s, [e]) == Next(c, s, e)
  {
    assert [e][..0] == [];
  }

  /** The disk after the recovery, written out. */
  lemma RecoveryDisk(c: Config, d: Disk)
    ensures var d1 := if d.smId == d.prevSmId then d else d.(trees := d.trees - {d.prevSmId}, prevSmId := d.smId);
            Exec(c, State(d, Down), RecoveryScript(d)) ==
            Some(State(WithTree(d1, d.smId, WithInit(c, d1.Tree(d.smId))), Running(d.smId)))
  {
    var s := State(d, Down);
    if d.smId == d.prevSmId {
      ExecConcat(c, s, [Open], [OpenTree]);
      ExecOne(c, s, Open);
      ExecOne(c, State(d, Recovering(IdsEqual)), OpenTree);
      assert RecoveryScript(d) == [Open] + [OpenTree];
    } else {
      var d1 := d.(trees := d.trees - {d.prevSmId});
      ExecConcat(c, s, [Open], [CleanStale]);
      ExecConcat(c, s, [Open] + [CleanStale], [ResetIds]);
      ExecConcat(c, s, [Open] + [CleanStale] + [ResetIds], [OpenTree]);
      ExecOne(c, s, Open);
      ExecOne(c, State(d, Recovering(Started)), CleanStale);
      ExecOne(c, State(d1, Recovering(StaleCleaned)), ResetIds);
      ExecOne(c, State(d1.(prevSmId := d.smId), Recovering(IdsEqual)), OpenTree);
      assert RecoveryScript(d) == [Open] + [CleanStale] + [ResetIds] + [OpenTree];
    }
  }

  /** From any disk the recovery runs through, and keeps exactly the current tree. */
  lemma RecoveryCompletes(c: Config, d: Disk)
    requires OthersEmpty(d)
    ensures var r := Exec(c, State(d, Down), RecoveryScript(d));
            && r.Some? && r.value.phase == Running(d.smId)
            && r.value.disk.smId == r.value.disk.prevSmId == d.smId
            && r.value.disk.Tree(d.smId) == WithInit(c, d.Tree(d.smId))
            && forall id :: id != d.smId ==> r.value.disk.Tree(id) == map[]
  {
    RecoveryDisk(c, d);
    var r := Exec(c, State(d, Down), RecoveryScript(d));
    forall id | id != d.smId ensures r.value.disk.Tree(id) == map[] {
      assert id != d.prevSmId ==> d.Tree(id) == map[];
    }
  }

  /**
    Over every run from a fresh disk, with crashes anywhere: the process sees exactly the contents
    that the applied entries and the switch-over writes amount to, unless an installation has failed
    late since the opening; and right after opening there is no other tree.
   */
  lemma RunningStoreIsExact(c: Config, events: seq<Event>)
    requires Exec(c, State(FRESH_DISK, Down), events).Some?
    requires Exec(c, State(FRESH_DISK, Down), events).value.phase.Running?
    ensures var s := Exec(c, State(FRESH_DISK, Down), events).value;
            && s.disk.Tree(s.disk.smId) == Replay(c, EMPTY, events).contents
            && (s.phase.tree == s.disk.smId <==> !FailedLate(events))
            && OthersEmpty(s.disk)
            && (s.disk.smId == s.disk.prevSmId ==> forall id :: id != s.phase.tree ==> s.disk.Tree(id) == map[])
  {
    RunKeepsInv(c, EMPTY, State(FRESH_DISK, Down), events);
    AttachedIff(c, EMPTY, events);
  }

  /** An installation has failed after its switch-over write, and the store was not opened since. */
  ghost predicate FailedLate(events: seq<Event>)
  {
    exists i :: 0 <= i < |events| && events[i].InstallLateFail? && NotOpened(events[i..])
  }

  ghost predicate NotOpened(events: seq<Event>)
  {
    forall i :: 0 <= i < |events| ==> !events[i].OpenTree?
  }

  lemma FailedLateMore(before: seq<Event>, e: Event)
    ensures FailedLate(before + [e]) <==> e.InstallLateFail? || (FailedLate(before) && !e.OpenTree?)
  {
    var events := before + [e];
    if e.InstallLateFail? {
      assert events[|before|..] == [e];
    } else if FailedLate(before) && !e.OpenTree? {
      var i :| 0 <= i < |before| && before[i].InstallLateFail? && NotOpened(before[i..]);
      assert events[i..] == before[i..] + [e] && events[i] == before[i];
    }
    if FailedLate(events) && !e.InstallLateFail? {
      var i :| 0 <= i < |events| && events[i].InstallLateFail? && NotOpened(events[i..]);
      assert events[i..][|before| - i] == e;
      assert forall j :: 0 <= j < |before| - i ==> before[i..][j] == events[i..][j];
      assert before[i] == events[i];
    }
  }

  lemma {:induction false} AttachedIff(c: Config, l: Logical, events: seq<Event>)
    requires l.attached
    ensures Replay(c, l, events).attached <==> !FailedLate(events)
    decreases |events|
  {
    if events != [] {
      var before, e := events[..|events| - 1], events[|events| - 1];
      AttachedIff(c, l, before);
      FailedLateMore(before, e);
      assert events == before + [e];
    }
  }

  // ----- The contents, key by key -----

  function Lookup(m: Contents, k: Key): Option<Bytes>
  {
    if k in m then Some(m[k]) else None
  }

  predicate IsLast(snap: Snapshot, k: Key, i: int)
  {
    forall j :: 0 <= j < |snap| && i < j ==> snap[j].0 != k
  }

  /** The value of the last pair with the key, or what a newly opened tree has under it. */
  ghost predicate IsLastPair(c: Config, snap: Snapshot, k: Key, v: Option<Bytes>)
  {
    || (exists i :: 0 <= i < |snap| && snap[i].0 == k && v == Some(snap[i].1) && IsLast(snap, k, i))
    || ((forall i :: 0 <= i < |snap| ==> snap[i].0 != k) && v == if k == c.initKey then Some(c.initValue) else None)
  }

  lemma {:induction false} LoadedAt(c: Config, snap: Snapshot, n: nat, k: Key)
    requires n <= |snap|
    ensures IsLastPair(c, snap[..n], k, Lookup(Loaded(c, snap, n), k))
    decreases n
  {
    if n > 0 {
      LoadedAt(c, snap, n - 1, k);
      var before, now := snap[..n - 1], snap[..n];
      assert now == before + [snap[n - 1]];
      if snap[n - 1].0 == k {
        assert now[n - 1].0 == k;
      } else if i :| 0 <= i < |before| && before[i].0 == k && IsLast(before, k, i) {
        assert now[i] == before[i] && IsLast(now, k, i);
      }
    }
  }

  lemma SnapshotAt(c: Config, snap: Snapshot, k: Key, v: Option<Bytes>)
    ensures IsLastPair(c, snap, k, v) <==> v == Lookup(SnapshotContents(c, snap), k)
  {
    LoadedAt(c, snap, |snap|, k);
    assert snap[..|snap|] == snap;
  }

  /** Who wrote the key last decides; an entry that reaches nothing durable writes nothing. */
  ghost predicate ShowsAt(c: Config, events: seq<Event>, k: Key, v: Option<Bytes>)
    decreases |events|
  {
    if events == [] then v.None?
    else
      var before := events[..|events| - 1];
      match events[|events| - 1]
      case Apply(deletes, puts) =>
        if FailedLate(before) then ShowsAt(c, before, k, v)
        else if k in puts then v == Some(puts[k])
        else if k in deletes then v.None?
        else ShowsAt(c, before, k, v)
      case InstallSwitch(snap) => IsLastPair(c, snap, k, v)
      case OpenTree =>
        if k == c.initKey && ShowsAt(c, before, k, None) then v == Some(c.initValue) else ShowsAt(c, before, k, v)
      case _ => ShowsAt(c, before, k, v)
  }

  lemma {:induction false} ReplayAt(c: Config, events: seq<Event>, k: Key, v: Option<Bytes>)
    ensures ShowsAt(c, events, k, v) <==> v == Lookup(Replay(c, EMPTY, events).contents, k)
    decreases |events|
  {
    if events != [] {
      var before, e := events[..|events| - 1], events[|events| - 1];
      ReplayAt(c, before, k, v);
      ReplayAt(c, before, k, None);
      AttachedIff(c, EMPTY, before);
      if e.InstallSwitch? {
        SnapshotAt(c, e.snapshot, k, v);
      }
    }
  }

  /** Over every run: under each key the current tree has what was written to it last. */
  lemma CurrentTreeKeyByKey(c: Config, events: seq<Event>, k: Key)
    requires Exec(c, State(FRESH_DISK, Down), events).Some?
    ensures var d := Exec(c, State(FRESH_DISK, Down), events).value.disk;
            forall v :: ShowsAt(c, events, k, v) <==> v == Lookup(d.Tree(d.smId), k)
  {
    RunKeepsInv(c, EMPTY, State(FRESH_DISK, Down), events);
    forall v
      ensures ShowsAt(c, events, k, v) <==> v == Lookup(Replay(c, EMPTY, events).contents, k)
    {
      ReplayAt(c, events, k, v);
    }
  }

  // ----- Crashes -----

  /**
    A crash at any point of any run loses nothing and adds nothing: reopening gives the contents from
    before the crash, which are the snapshot's if and only if the switch-over write came last.
   */
  lemma CrashThenReopen(c: Config, events: seq<Event>, unflushed: Contents)
    requires Exec(c, State(FRESH_DISK, Down), events + [Crash(unflushed)]).Some?
    ensures var s := Exec(c, State(FRESH_DISK, Down), events + [Crash(unflushed)]).value;
            var r := Exec(c, s, RecoveryScript(s.disk));
            && s.phase == Down && r.Some? && r.value.phase == Running(s.disk.smId)
            && r.value.disk.Tree(s.disk.smId) == WithInit(c, Replay(c, EMPTY, events).contents)
            && forall id :: id != s.disk.smId ==> r.value.disk.Tree(id) == map[]
  {
    var start, all := State(FRESH_DISK, Down), events + [Crash(unflushed)];
    assert all[..|all| - 1] == events;
    RunKeepsInv(c, EMPTY, start, all);
    var s := Exec(c, start, all).value;
    RecoveryCompletes(c, s.disk);
  }

  // ----- An installation and its outcome -----

  predicate IsInstallStep(e: Event)
  {
    e.InstallOpen? || e.InstallInsert? || e.InstallFlush? || e.InstallSwitch? || e.InstallClean? || e.InstallFinish?
  }

  /** No event of the list is the switch-over write. */
  ghost predicate NoSwitch(events: seq<Event>)
  {
    forall i :: 0 <= i < |events| ==> !events[i].InstallSwitch?
  }

  ghost predicate BeforeSwitch(p: Phase, snap: Snapshot)
  {
    p.Installing? && p.snap == snap && !p.progress.Switched? && !p.progress.Cleaned?
  }

  ghost predicate AfterSwitch(p: Phase)
  {
    p.Running? || (p.Installing? && (p.progress.Switched? || p.progress.Cleaned?))
  }

  lemma InstallStep(c: Config, s: State, snap: Snapshot, e: Event)
    requires IsInstallStep(e) && Next(c, s, e).Some?
    ensures var p := Next(c, s, e).value.phase;
            && (BeforeSwitch(s.phase, snap) ==>
                  if e.InstallSwitch? then AfterSwitch(p) && e.snapshot == snap else BeforeSwitch(p, snap))
            && (AfterSwitch(s.phase) ==> AfterSwitch(p) && !e.InstallSwitch?)
  {
  }

  lemma NoSwitchMore(before: seq<Event>, e: Event)
    ensures NoSwitch(before + [e]) <==> NoSwitch(before) && !e.InstallSwitch?
  {
    var steps := before + [e];
    assert steps[|before|] == e && forall i :: 0 <= i < |before| ==> before[i] == steps[i];
  }

  ghost predicate SwitchesTo(steps: seq<Event>, snap: Snapshot)
  {
    forall i :: 0 <= i < |steps| ==> IsInstallStep(steps[i]) && (steps[i].InstallSwitch? ==> steps[i].snapshot == snap)
  }

  /** The steps of a run switch to the snapshot being installed. */
  lemma {:induction false} InstallPhases(c: Config, s: State, snap: Snapshot, steps: seq<Event>)
    requires BeforeSwitch(s.phase, snap) && Exec(c, s, steps).Some?
    requires forall i :: 0 <= i < |steps| ==> IsInstallStep(steps[i])
    ensures SwitchesTo(steps, snap)
    ensures var p := Exec(c, s, steps).value.phase; BeforeSwitch(p, snap) || AfterSwitch(p)
    decreases |steps|
  {
    if steps != [] {
      var before, e := steps[..|steps| - 1], steps[|steps| - 1];
      InstallPhases(c, s, snap, before);
      InstallStep(c, Exec(c, s, before).value, snap, e);
      assert forall i :: 0 <= i < |before| ==> steps[i] == before[i];
    }
  }

  lemma {:induction false} InstallEffect(c: Config, l: Logical, snap: Snapshot, steps: seq<Event>)
    requires SwitchesTo(steps, snap)
    ensures Replay(c, l, steps).contents == if NoSwitch(steps) then l.contents else SnapshotContents(c, snap)
    decreases |steps|
  {
    if steps != [] {
      var before, e := steps[..|steps| - 1], steps[|steps| - 1];
      InstallEffect(c, l, snap, before);
      assert steps == before + [e];
      NoSwitchMore(before, e);
    }
  }

  /**
    An installation cut off by a crash after any of its steps: the reopened store holds exactly the
    old contents or exactly the snapshot's, the latter if and only if the switch-over write happened.
   */
  lemma InstallIsAtomic(c: Config, events: seq<Event>, snap: Snapshot, steps: seq<Event>, unflushed: Contents)
    requires forall i :: 0 <= i < |steps| ==> IsInstallStep(steps[i])
    requires Exec(c, State(FRESH_DISK, Down), events + [InstallBegin(snap)] + steps + [Crash(unflushed)]).Some?
    ensures var s := Exec(c, State(FRESH_DISK, Down), events + [InstallBegin(snap)] + steps + [Crash(unflushed)]).value;
            var r := Exec(c, s, RecoveryScript(s.disk));
            && r.Some? && r.value.phase.Running?
            && r.value.disk.Tree(r.value.phase.tree) ==
                 WithInit(c, if NoSwitch(steps) then Replay(c, EMPTY, events).contents else SnapshotContents(c, snap))
            && forall id :: id != r.value.phase.tree ==> r.value.disk.Tree(id) == map[]
  {
    var run := events + [InstallBegin(snap)] + steps;
    CrashThenReopen(c, run, unflushed);
    assert (run + [Crash(unflushed)])[..|run|] == run;
    InstallReplay(c, State(FRESH_DISK, Down), events, snap, steps);
  }

  /** What a run that ends in an installation leaves of the contents. */
  lemma InstallReplay(c: Config, start: State, events: seq<Event>, snap: Snapshot, steps: seq<Event>)
    requires forall i :: 0 <= i < |steps| ==> IsInstallStep(steps[i])
    requires Exec(c, start, events + [InstallBegin(snap)] + steps).Some?
    ensures Replay(c, EMPTY, events + [InstallBegin(snap)] + steps).contents ==
            if NoSwitch(steps) then Replay(c, EMPTY, events).contents else SnapshotContents(c, snap)
  {
    var begun := events + [InstallBegin(snap)];
    ExecConcat(c, start, begun, steps);
    ReplayConcat(c, EMPTY, begun, steps);
    assert begun[..|begun| - 1] == events;
    BegunPhase(c, start, events, snap);
    InstallPhases(c, Exec(c, start, begun).value, snap, steps);
    InstallEffect(c, Replay(c, EMPTY, begun), snap, steps);
  }

  lemma BegunPhase(c: Config, start: State, events: seq<Event>, snap: Snapshot)
    requires Exec(c, start, events + [InstallBegin(snap)]).Some?
    ensures BeforeSwitch(Exec(c, start, events + [InstallBegin(snap)]).value.phase, snap)
  {
    var begun := events + [InstallBegin(snap)];
    assert begun[..|begun| - 1] == events && begun[|begun| - 1] == InstallBegin(snap);
  }

  lemma {:induction false} ReplayConcat(c: Config, l: Logical, a: seq<Event>, b: seq<Event>)
    ensures Replay(c, l, a + b) == Replay(c, Replay(c, l, a), b)
    decreases |b|
  {
    if b == [] {
      assert a + b == a;
    } else {
      assert (a + b)[..|a + b| - 1] == a + b[..|b| - 1];
      ReplayConcat(c, l, a, b[..|b| - 1]);
    }
  }

  // ----- After a failed installation -----

  /** An installation has failed since the last opening. */
  ghost predicate FailedSince(events: seq<Event>)
  {
    exists i :: 0 <= i < |events| && (events[i].InstallFail? || events[i].InstallLateFail?) && NotOpened(events[i..])
  }

  lemma FailedSinceMore(before: seq<Event>, e: Event)
    ensures FailedSince(before + [e])
            <==> e.InstallFail? || e.InstallLateFail? || (FailedSince(before) && !e.OpenTree?)
  {
    var events := before + [e];
    if e.InstallFail? || e.InstallLateFail? {
      assert events[|before|] == e && events[|before|..] == [e];
    } else if FailedSince(before) && !e.OpenTree? {
      var i :| 0 <= i < |before| && (before[i].InstallFail? || before[i].InstallLateFail?) && NotOpened(before[i..]);
      assert events[i..] == before[i..] + [e] && events[i] == before[i];
    }
    if FailedSince(events) && !e.InstallFail? && !e.InstallLateFail? {
      var i :| 0 <= i < |events| && (events[i].InstallFail? || events[i].InstallLateFail?) && NotOpened(events[i..]);
      assert events[i..][|before| - i] == e;
      assert forall j :: 0 <= j < |before| - i ==> before[i..][j] == events[i..][j];
      assert before[i] == events[i];
    }
  }

  /** The ids lie apart in a running process exactly after a failure, and during an installation none came before. */
  ghost predicate IdsTell(s: State, failed: bool)
  {
    match s.phase
    case Down => true
    case Recovering(stage) => stage.IdsEqual? ==> s.disk.smId == s.disk.prevSmId
    case Running(_) => s.disk.smId != s.disk.prevSmId <==> failed
    case Installing(_, _, _) => s.disk.smId != s.disk.prevSmId && !failed
  }

  lemma StepKeepsIdsTell(c: Config, s: State, e: Event, failed: bool)
    requires IdsTell(s, failed) && Next(c, s, e).Some?
    ensures IdsTell(Next(c, s, e).value, e.InstallFail? || e.InstallLateFail? || (failed && !e.OpenTree?))
  {
  }

  lemma {:induction false} RunKeepsIdsTell(c: Config, events: seq<Event>)
    requires Exec(c, State(FRESH_DISK, Down), events).Some?
    ensures IdsTell(Exec(c, State(FRESH_DISK, Down), events).value, FailedSince(events))
    decreases |events|
  {
    if events != [] {
      var before, e := events[..|events| - 1], events[|events| - 1];
      RunKeepsIdsTell(c, before);
      StepKeepsIdsTell(c, Exec(c, State(FRESH_DISK, Down), before).value, e, FailedSince(before));
      FailedSinceMore(before, e);
      assert events == before + [e];
    }
  }

  /** Over every run: the next installation is refused if and only if one has failed since the last opening. */
  lemma RefusedIff(c: Config, events: seq<Event>, snap: Snapshot)
    requires Exec(c, State(FRESH_DISK, Down), events).Some?
    requires Exec(c, State(FRESH_DISK, Down), events).value.phase.Running?
    ensures var s := Exec(c, State(FRESH_DISK, Down), events).value;
            && (Next(c, s, InstallRefused).Some? <==> FailedSince(events))
            && (Next(c, s, InstallBegin(snap)).Some? <==> !FailedSince(events))
  {
    RunKeepsIdsTell(c, events);
  }

  /** The ids differ, so every later installation is refused until the process restarts. */
  lemma {:induction false} RefusedUntilReopened(c: Config, s: State, events: seq<Event>)
    requires s.phase.Running? && s.disk.smId != s.disk.prevSmId
    requires Exec(c, s, events).Some? && forall i :: 0 <= i < |events| ==> !events[i].Crash?
    ensures var s' := Exec(c, s, events).value;
            && s'.phase == s.phase && s'.disk.smId == s.disk.smId && s'.disk.prevSmId == s.disk.prevSmId
            && (forall snap :: Next(c, s', InstallBegin(snap)).None?)
            && Next(c, s', InstallRefused) == Some(s')
    decreases |events|
  {
    if events != [] {
      RefusedUntilReopened(c, s, events[..|events| - 1]);
    }
  }

  lemma FailedInstallLeavesIdsApart(c: Config, l: Logical, s: State)
    requires Inv(c, l, s) && Next(c, s, InstallFail).Some?
    ensures var s' := Next(c, s, InstallFail).value;
            s'.phase.Running? && s'.disk.smId != s'.disk.prevSmId && s'.disk.Tree(s'.phase.tree) == l.contents
  {
  }

  // ----- An error after the switch -----

  /** After one more entry, reopening the store shows what the process shows. */
  ghost predicate ShowsSame(c: Config, s: State, deletes: set<Key>, puts: Contents)
    requires s.phase.Running?
  {
    var seen := Next(c, s, Apply(deletes, puts)).value;
    var r := Exec(c, State(seen.disk, Down), RecoveryScript(seen.disk));
    && r.Some? && r.value.phase.Running?
    && r.value.disk.Tree(r.value.phase.tree) == WithInit(c, seen.disk.Tree(s.phase.tree))
  }

  lemma ReopenedAfterApply(c: Config, l: Logical, s: State, deletes: set<Key>, puts: Contents)
    requires s.phase.Running? && Inv(c, l, s)
    ensures var seen := Next(c, s, Apply(deletes, puts)).value;
            var r := Exec(c, State(seen.disk, Down), RecoveryScript(seen.disk));
            && r.Some? && r.value.phase.Running?
            && seen.disk.Tree(s.phase.tree) == Applied(s.disk.Tree(s.phase.tree), deletes, puts)
            && r.value.disk.Tree(r.value.phase.tree) ==
                 WithInit(c, if l.attached then Applied(l.contents, deletes, puts) else l.contents)
  {
    StepKeepsInv(c, l, s, Apply(deletes, puts));
    RecoveryCompletes(c, Next(c, s, Apply(deletes, puts)).value.disk);
  }

  /** While detached, an entry that gives the process a key the current tree lacks, or takes one away, shows. */
  lemma DetachedDiffers(c: Config, l: Logical, s: State, k: Key, deletes: set<Key>, puts: Contents)
    requires s.phase.Running? && Inv(c, l, s) && !l.attached && k != c.initKey
    requires k in l.contents <==> k !in Applied(s.disk.Tree(s.phase.tree), deletes, puts)
    ensures !ShowsSame(c, s, deletes, puts)
  {
    var seen := Next(c, s, Apply(deletes, puts)).value;
    var r := Exec(c, State(seen.disk, Down), RecoveryScript(seen.disk));
    ReopenedAfterApply(c, l, s, deletes, puts);
    assert k in r.value.disk.Tree(r.value.phase.tree) <==> k in l.contents;
    assert k in WithInit(c, seen.disk.Tree(s.phase.tree)) <==> k !in l.contents;
  }

  /**
    Over every run: whatever is applied next, reopening shows what the process shows, exactly when no
    installation has failed after its switch-over write since the store was opened.
   */
  lemma LateErrorDivergesIff(c: Config, events: seq<Event>, k: Key, v: Bytes)
    requires Exec(c, State(FRESH_DISK, Down), events).Some? && k != c.initKey
    requires Exec(c, State(FRESH_DISK, Down), events).value.phase.Running?
    ensures var s := Exec(c, State(FRESH_DISK, Down), events).value;
            (forall deletes, puts :: ShowsSame(c, s, deletes, puts)) <==> !FailedLate(events)
  {
    var s, l := Exec(c, State(FRESH_DISK, Down), events).value, Replay(c, EMPTY, events);
    RunKeepsInv(c, EMPTY, State(FRESH_DISK, Down), events);
    AttachedIff(c, EMPTY, events);
    if l.attached {
      forall deletes, puts
        ensures ShowsSame(c, s, deletes, puts)
      {
        ReopenedAfterApply(c, l, s, deletes, puts);
      }
    } else {
      var deletes: set<Key>, puts: Contents := {k}, if k in l.contents then map[] else map[k := v];
      DetachedDiffers(c, l, s, k, deletes, puts);
    }
  }

  /** So an entry applied after such a failure is lost: the reopened store does not have it. */
  lemma LateErrorLosesApplies(c: Config, events: seq<Event>, k: Key, v: Bytes)
    requires Exec(c, State(FRESH_DISK, Down), events).Some? && FailedLate(events)
    requires Exec(c, State(FRESH_DISK, Down), events).value.phase.Running?
    requires k != c.initKey && k !in Replay(c, EMPTY, events).contents
    ensures var s := Exec(c, State(FRESH_DISK, Down), events).value;
            var seen := Next(c, s, Apply({}, map[k := v])).value;
            var r := Exec(c, State(seen.disk, Down), RecoveryScript(seen.disk));
            && r.Some? && r.value.phase.Running?
            && k in seen.disk.Tree(s.phase.tree) && k !in r.value.disk.Tree(r.value.phase.tree)
  {
    var s, l := Exec(c, State(FRESH_DISK, Down), events).value, Replay(c, EMPTY, events);
    RunKeepsInv(c, EMPTY, State(FRESH_DISK, Down), events);
    AttachedIff(c, EMPTY, events);
    ReopenedAfterApply(c, l, s, {}, map[k := v]);
  }

  // ----- The code -----

  datatype StoreError = AnotherInstallUnfinished | BadSnapshotData

  /** The steps of an installation that runs through. */
  function InstallScript(snap: Snapshot): seq<Event>
  {
    [InstallBegin(snap), InstallOpen] + Inserts(|snap|) +
    [InstallFlush, InstallSwitch(snap), InstallClean, InstallFinish]
  }

  function Inserts(n: nat): seq<Event>
  {
    seq(n, i => InstallInsert)
  }

  lemma InsertsMore(events: seq<Event>, n: nat)
    ensures events + Inserts(n) + [InstallInsert] == events + Inserts(n + 1)
  {
  }

  lemma PreparedEvents(events: seq<Event>, snap: Snapshot)
    ensures events + [InstallBegin(snap)] + [InstallOpen] + Inserts(|snap|) + [InstallFlush]
         == events + ([InstallBegin(snap), InstallOpen] + Inserts(|snap|) + [InstallFlush])
  {
  }

  /** `MetaRaftStore`: each method's writes are a run of the steps above. */
  class MetaRaftStore {
    const config: Config
    var disk: Disk
    var stateMachine: nat
    ghost var events: seq<Event>

    ghost predicate Valid()
      reads this
    {
      Exec(config, State(FRESH_DISK, Down), events) == Some(State(disk, Running(stateMachine)))
    }

    /** `open_create` on the disk that a run has left behind. */
    constructor (config: Config, disk: Disk, ghost past: seq<Event>)
      requires Exec(config, State(FRESH_DISK, Down), past) == Some(State(disk, Down))
      ensures Valid() && this.config == config
      ensures events == past + RecoveryScript(disk)
      ensures this.disk.smId == this.disk.prevSmId == stateMachine == disk.smId
      ensures this.disk.Tree(stateMachine) == WithInit(config, Replay(config, EMPTY, past).contents)
      ensures forall id :: id != stateMachine ==> this.disk.Tree(id) == map[]
    {
      var d := disk;
      if d.smId != d.prevSmId {
        d := d.(trees := d.trees - {d.prevSmId});
        d := d.(prevSmId := d.smId);
      }
      d := WithTree(d, d.smId, WithInit(config, d.Tree(d.smId)));
      this.config := config;
      this.disk := d;
      stateMachine := d.smId;
      events := past + RecoveryScript(disk);
      RunKeepsInv(config, EMPTY, State(FRESH_DISK, Down), past);
      RecoveryCompletes(config, disk);
      RecoveryDisk(config, disk);
      ExecConcat(config, State(FRESH_DISK, Down), past, RecoveryScript(disk));
    }

    ghost method Happens(e: Event, before: State, after: State)
      requires Exec(config, State(FRESH_DISK, Down), events) == Some(before) && Next(config, before, e) == Some(after)
      modifies this`events
      ensures events == old(events) + [e] && Exec(config, State(FRESH_DISK, Down), events) == Some(after)
    {
      events := events + [e];
      assert events[..|events| - 1] == old(events);
    }

    /** One log entry, in one transaction on the tree in memory. */
    method ApplyEntry(deletes: set<Key>, puts: Contents)
      requires Valid()
      modifies this
      ensures Valid() && events == old(events) + [Apply(deletes, puts)]
      ensures disk.Tree(stateMachine) == Applied(old(disk.Tree(stateMachine)), deletes, puts)
      ensures forall k :: Lookup(disk.Tree(stateMachine), k)
                       == if k in puts then Some(puts[k])
                          else if k in deletes then None else Lookup(old(disk.Tree(stateMachine)), k)
      ensures stateMachine == old(stateMachine) && disk.smId == old(disk.smId) && disk.prevSmId == old(disk.prevSmId)
      ensures forall id :: id != stateMachine ==> disk.Tree(id) == old(disk.Tree(id))
    {
      ghost var before := State(disk, Running(stateMachine));
      disk := WithTree(disk, stateMachine, Applied(disk.Tree(stateMachine), deletes, puts));
      Happens(Apply(deletes, puts), before, State(disk, Running(stateMachine)));
    }

    /** The inner `install_snapshot`; `None` is data that does not decode. */
    method InstallSnapshot(data: Option<Snapshot>) returns (r: Result<(), StoreError>)
      requires Valid()
      modifies this
      ensures Valid()
      ensures r.Ok? <==> old(disk.smId == disk.prevSmId) && data.Some?
      ensures r.Err? ==> disk == old(disk) && stateMachine == old(stateMachine)
      ensures r == Err(AnotherInstallUnfinished) <==> old(disk.smId != disk.prevSmId)
      ensures events == old(events) + if r.Ok? then InstallScript(data.value)
                                      else if r.error.AnotherInstallUnfinished? then [InstallRefused] else []
      ensures r.Ok? ==> disk.Tree(stateMachine) == SnapshotContents(config, data.value)
      ensures r.Ok? ==> disk.smId == disk.prevSmId == stateMachine
      ensures r.Ok? ==> forall id :: id != stateMachine ==> disk.Tree(id) == map[]
    {
      var smId, prevSmId := disk.smId, disk.prevSmId;
      ghost var st := State(disk, Running(stateMachine));
      if smId != prevSmId {
        Happens(InstallRefused, st, st);
        return Err(AnotherInstallUnfinished);
      }
      if data.None? { return Err(BadSnapshotData); }
      PrepareTree(data.value);
      SwitchOver(data.value);
      RunKeepsInv(config, EMPTY, State(FRESH_DISK, Down), events);
      r := Ok(());
    }

    /** The process is at this point of its run. */
    ghost predicate At(phase: Phase)
      reads this
    {
      Exec(config, State(FRESH_DISK, Down), events) == Some(State(disk, phase))
    }

    /** Up to the flush: the pair names the new tree as garbage while it is filled. */
    method PrepareTree(snap: Snapshot)
      requires Valid() && disk.smId == disk.prevSmId
      modifies this
      ensures At(Installing(stateMachine, snap, Flushed))
      ensures disk.smId == old(disk.smId) && disk.prevSmId == disk.smId + 1 &&
              stateMachine == old(stateMachine) == disk.smId
      ensures disk.trees == old(disk.trees)[disk.prevSmId := SnapshotContents(config, snap)]
      ensures events == old(events) + ([InstallBegin(snap), InstallOpen] + Inserts(|snap|) + [InstallFlush])
    {
      ghost var t := stateMachine;
      RunKeepsInv(config, EMPTY, State(FRESH_DISK, Down), events);
      assert disk.Tree(disk.smId + 1) == map[];
      MarkNewTree(snap);
      OpenNewTree(snap);
      FillTree(t, snap, disk.prevSmId);
      Happens(InstallFlush, State(disk, Installing(t, snap, Filling(|snap|))),
              State(disk, Installing(t, snap, Flushed)));
      PreparedEvents(old(events), snap);
    }

    method MarkNewTree(snap: Snapshot)
      requires At(Running(stateMachine)) && disk.smId == disk.prevSmId
      modifies this
      ensures At(Installing(stateMachine, snap, Marked)) && stateMachine == old(stateMachine)
      ensures disk == old(disk).(prevSmId := old(disk).smId + 1)
      ensures events == old(events) + [InstallBegin(snap)]
    {
      ghost var before := State(disk, Running(stateMachine));
      disk := disk.(prevSmId := disk.smId + 1);
      Happens(InstallBegin(snap), before, State(disk, Installing(stateMachine, snap, Marked)));
    }

    method OpenNewTree(snap: Snapshot)
      requires At(Installing(stateMachine, snap, Marked))
      modifies this
      ensures At(Installing(stateMachine, snap, Filling(0))) && stateMachine == old(stateMachine)
      ensures disk == WithTree(old(disk), old(disk).prevSmId, WithInit(config, old(disk).Tree(old(disk).prevSmId)))
      ensures events == old(events) + [InstallOpen]
    {
      ghost var before := State(disk, Installing(stateMachine, snap, Marked));
      disk := WithTree(disk, disk.prevSmId, WithInit(config, disk.Tree(disk.prevSmId)));
      Happens(InstallOpen, before, State(disk, Installing(stateMachine, snap, Filling(0))));
    }

    /** From the switch-over write on: the old tree is the garbage, and goes. */
    method SwitchOver(snap: Snapshot)
      requires At(Installing(stateMachine, snap, Flushed)) && disk.smId != disk.prevSmId
      modifies this
      ensures Valid()
      ensures disk.smId == disk.prevSmId == stateMachine == old(disk.prevSmId)
      ensures disk.trees == old(disk.trees) - {old(disk.smId)}
      ensures events == old(events) + [InstallSwitch(snap), InstallClean, InstallFinish]
    {
      SwitchIds(snap);
      CleanOldTree(snap);
      FinishInstall(snap);
    }

    method SwitchIds(snap: Snapshot)
      requires At(Installing(stateMachine, snap, Flushed))
      modifies this
      ensures At(Installing(stateMachine, snap, Switched)) && stateMachine == old(stateMachine)
      ensures disk == old(disk).(smId := old(disk).prevSmId, prevSmId := old(disk).smId)
      ensures events == old(events) + [InstallSwitch(snap)]
    {
      ghost var before := State(disk, Installing(stateMachine, snap, Flushed));
      disk := disk.(smId := disk.prevSmId, prevSmId := disk.smId);
      Happens(InstallSwitch(snap), before, State(disk, Installing(stateMachine, snap, Switched)));
    }

    method CleanOldTree(snap: Snapshot)
      requires At(Installing(stateMachine, snap, Switched))
      modifies this
      ensures At(Installing(stateMachine, snap, Cleaned)) && stateMachine == old(stateMachine)
      ensures disk == old(disk).(trees := old(disk).trees - {old(disk).prevSmId})
      ensures events == old(events) + [InstallClean]
    {
      ghost var before := State(disk, Installing(stateMachine, snap, Switched));
      disk := disk.(trees := disk.trees - {disk.prevSmId});
      Happens(InstallClean, before, State(disk, Installing(stateMachine, snap, Cleaned)));
    }

    method FinishInstall(snap: Snapshot)
      requires At(Installing(stateMachine, snap, Cleaned))
      modifies this
      ensures At(Running(stateMachine)) && stateMachine == disk.smId
      ensures disk == old(disk).(prevSmId := old(disk).smId)
      ensures events == old(events) + [InstallFinish]
    {
      ghost var before := State(disk, Installing(stateMachine, snap, Cleaned));
      disk := disk.(prevSmId := disk.smId);
      stateMachine := disk.smId;
      Happens(InstallFinish, before, State(disk, Running(stateMachine)));
    }

    /** The loop that inserts the snapshot's pairs into the new tree. */
    method FillTree(ghost t: nat, snap: Snapshot, newSmId: nat)
      requires At(Installing(t, snap, Filling(0)))
      requires disk.prevSmId == newSmId && newSmId in disk.trees && disk.trees[newSmId] == Loaded(config, snap, 0)
      modifies this
      ensures At(Installing(t, snap, Filling(|snap|)))
      ensures disk == WithTree(old(disk), newSmId, SnapshotContents(config, snap))
      ensures stateMachine == old(stateMachine) && events == old(events) + Inserts(|snap|)
    {
      for i := 0 to |snap|
        invariant At(Installing(t, snap, Filling(i)))
        invariant disk == WithTree(old(disk), newSmId, Loaded(config, snap, i))
        invariant stateMachine == old(stateMachine) && events == old(events) + Inserts(i)
      {
        InsertPair(t, snap, newSmId, i);
        InsertsMore(old(events), i);
      }
    }

    method InsertPair(ghost t: nat, snap: Snapshot, newSmId: nat, i: nat)
      requires i < |snap| && At(Installing(t, snap, Filling(i))) && disk.prevSmId == newSmId
      modifies this
      ensures At(Installing(t, snap, Filling(i + 1))) && stateMachine == old(stateMachine)
      ensures disk == WithTree(old(disk), newSmId, old(disk).Tree(newSmId)[snap[i].0 := snap[i].1])
      ensures events == old(events) + [InstallInsert]
    {
      ghost var before := State(disk, Installing(t, snap, Filling(i)));
      disk := WithTree(disk, newSmId, disk.Tree(newSmId)[snap[i].0 := snap[i].1]);
      Happens(InstallInsert, before, State(disk, Installing(t, snap, Filling(i + 1))));
    }
  }
}
