/**
  The raft log of the meta store (metasrv/src/store/meta_raft_store.rs with
  common/meta/raft-store/src/log/raft_log.rs): appending, deleting conflicts, and purging in two durable
  steps with a crash possible between them.
 */
module RaftLog {
  import opened Wrappers

  datatype LogId = LogId(term: nat, index: nat)

  /** The order of log ids: term first. */
  predicate IdLeq(a: LogId, b: LogId)
  {
    a.term < b.term || (a.term == b.term && a.index <= b.index)
  }

  /** What is on disk; `removing` is a purge between its two steps, in memory only. */
  datatype Log = Log(logs: map<nat, LogId>, lastPurged: Option<LogId>, removing: Option<nat>)

  const EMPTY_LOG := Log(map[], None, None)

  datatype Event =
    | Append(entries: seq<LogId>)
    | DeleteSince(from: nat)
    | PurgeMark(upto: LogId)
    | PurgeRemove
    | Crash

  function Appended(logs: map<nat, LogId>, entries: seq<LogId>): map<nat, LogId>
  {
    if entries == [] then logs
    else
      var last := entries[|entries| - 1];
      Appended(logs, entries[..|entries| - 1])[last.index := last]
  }

  function Below(logs: map<nat, LogId>, n: nat): map<nat, LogId>
  {
    map i | i in logs && i < n :: logs[i]
  }

  function Above(logs: map<nat, LogId>, n: nat): map<nat, LogId>
  {
    map i | i in logs && i > n :: logs[i]
  }

  /** One durable step; the steps themselves check nothing. */
  function Next(l: Log, e: Event): Log
  {
    match e
    case Append(entries) => l.(logs := Appended(l.logs, entries))
    case DeleteSince(i) => l.(logs := Below(l.logs, i))
    case PurgeMark(id) => l.(lastPurged := Some(id), removing := Some(id.index))
    case PurgeRemove =>
      l.(logs := if l.removing.Some? then Above(l.logs, l.removing.value) else l.logs, removing := None)
    case Crash => l.(removing := None)
  }

  datatype LogState = LogState(lastPurged: Option<LogId>, lastLog: Option<LogId>)

  ghost predicate IsLast(logs: map<nat, LogId>, i: nat)
  {
    i in logs && forall j :: j in logs ==> j <= i
  }

  // ----- The shape of the log -----

  /** The log holds exactly the indexes from `lo` below `hi`, terms never falling, and the purge point fits in. */
  ghost predicate Shape(l: Log, lo: nat, hi: nat)
  {
    && lo <= hi
    && (forall i :: i in l.logs <==> lo <= i < hi)
    && (forall i :: i in l.logs ==> l.logs[i].index == i)
    && (forall i, j :: i in l.logs && j in l.logs && i <= j ==> l.logs[i].term <= l.logs[j].term)
    && (match l.lastPurged
        case None => lo == 0
        case Some(p) => lo <= p.index + 1 <= hi && Fits(l.logs, p))
    && (l.removing.Some? ==> l.lastPurged.Some? && l.removing.value == l.lastPurged.value.index)
  }

  /** `p` is the id of the entry at its index, if that is there, and no later entry has an older term. */
  ghost predicate Fits(logs: map<nat, LogId>, p: LogId)
  {
    && (p.index in logs ==> logs[p.index] == p)
    && (forall i :: i in logs && i > p.index ==> p.term <= logs[i].term)
  }

  /** What raft's use of the log guarantees of each step. */
  ghost predicate Legal(l: Log, lo: nat, hi: nat, e: Event)
  {
    match e
    case Append(entries) =>
      && l.removing.None?
      && (forall k :: 0 <= k < |entries| ==> entries[k].index == hi + k)
      && (forall k, m :: 0 <= k <= m < |entries| ==> entries[k].term <= entries[m].term)
      && (forall k, i :: 0 <= k < |entries| && i in l.logs ==> l.logs[i].term <= entries[k].term)
      && (forall k :: 0 <= k < |entries| && l.lastPurged.Some? ==> l.lastPurged.value.term <= entries[k].term)
    case DeleteSince(i) => l.removing.None? && (l.lastPurged.Some? ==> i > l.lastPurged.value.index)
    case PurgeMark(id) => l.removing.None? && PurgeFits(l, lo, hi, id) && Fits(l.logs, id)
    case PurgeRemove => l.removing.Some?
    case Crash => true
  }

  /** The purge leaves no hole below the first entry and does not pass the last one. */
  ghost predicate PurgeFits(l: Log, lo: nat, hi: nat, id: LogId)
  {
    lo <= id.index + 1 && (l.logs != map[] ==> id.index < hi)
  }

  function Max(a: nat, b: nat): nat { if a < b then b else a }
  function Min(a: nat, b: nat): nat { if a < b then a else b }

  /** The bounds after a legal step. */
  ghost function NextBounds(l: Log, lo: nat, hi: nat, e: Event): (nat, nat)
  {
    match e
    case Append(entries) => (lo, hi + |entries|)
    case DeleteSince(i) => (lo, Max(lo, Min(hi, i)))
    case PurgeMark(id) => if l.logs == map[] then (id.index + 1, id.index + 1) else (lo, hi)
    case PurgeRemove => if l.removing.Some? then (Max(lo, l.removing.value + 1), hi) else (lo, hi)
    case Crash => (lo, hi)
  }

  lemma {:induction false} AppendedContents(logs: map<nat, LogId>, lo: nat, hi: nat, entries: seq<LogId>)
    requires forall i :: i in logs <==> lo <= i < hi
    requires lo <= hi && forall k :: 0 <= k < |entries| ==> entries[k].index == hi + k
    ensures forall i :: i in Appended(logs, entries) <==> lo <= i < hi + |entries|
    ensures forall i :: i in logs ==> Appended(logs, entries)[i] == logs[i]
    ensures forall k :: 0 <= k < |entries| ==> Appended(logs, entries)[hi + k] == entries[k]
    decreases |entries|
  {
    if entries != [] {
      AppendedContents(logs, lo, hi, entries[..|entries| - 1]);
    }
  }

  lemma AppendKeepsShape(l: Log, lo: nat, hi: nat, entries: seq<LogId>)
    requires Shape(l, lo, hi) && Legal(l, lo, hi, Append(entries))
    ensures Shape(Next(l, Append(entries)), lo, hi + |entries|)
  {
    AppendedContents(l.logs, lo, hi, entries);
    var logs := Appended(l.logs, entries);
    assert forall i :: i in logs && i >= hi ==> logs[i] == entries[i - hi];
    assert forall i :: i in logs && i < hi ==> logs[i] == l.logs[i];
  }

  lemma StepKeepsShape(l: Log, lo: nat, hi: nat, e: Event)
    requires Shape(l, lo, hi) && Legal(l, lo, hi, e)
    ensures var (lo', hi') := NextBounds(l, lo, hi, e); Shape(Next(l, e), lo', hi')
  {
    if e.Append? {
      AppendKeepsShape(l, lo, hi, e.entries);
    } else if e.PurgeMark? && l.logs == map[] {
      assert lo !in l.logs;
    }
  }

  // ----- What the shape gives -----

  /** Every index below `hi` is in the log or purged. */
  ghost predicate NothingLost(l: Log, hi: nat)
  {
    forall i :: 0 <= i < hi ==> i in l.logs || (l.lastPurged.Some? && i <= l.lastPurged.value.index)
  }

  /** `get_log_state`, as the code reads it off the disk. */
  ghost predicate Reports(l: Log, s: LogState)
  {
    && s.lastPurged == l.lastPurged
    && (l.logs == map[] ==> s.lastLog == l.lastPurged)
    && (l.logs != map[] ==> exists i :: IsLast(l.logs, i) && s.lastLog == Some(l.logs[i]))
  }

  /** The last log id is reported, is that of the last index, and is not below the purge point. */
  ghost predicate StateIsRight(l: Log, hi: nat, s: LogState)
  {
    && (s.lastLog.None? <==> hi == 0)
    && (s.lastLog.Some? ==> s.lastLog.value.index == hi - 1)
    && (s.lastPurged.Some? ==>
         s.lastLog.Some? && IdLeq(s.lastPurged.value, s.lastLog.value) &&
         s.lastPurged.value.index <= s.lastLog.value.index)
  }

  lemma ShapeIsGood(l: Log, lo: nat, hi: nat, s: LogState)
    requires Shape(l, lo, hi) && Reports(l, s)
    ensures NothingLost(l, hi) && StateIsRight(l, hi, s)
  {
    if l.logs == map[] {
      assert lo !in l.logs;
    } else {
      var i :| IsLast(l.logs, i) && s.lastLog == Some(l.logs[i]);
      assert hi - 1 in l.logs;
    }
  }

  // ----- Runs -----

  /** A run of legal steps, with the bounds it ends with. */
  ghost predicate LegalRun(l: Log, lo: nat, hi: nat, events: seq<Event>, l': Log, lo': nat, hi': nat)
    decreases |events|
  {
    if events == [] then l' == l && lo' == lo && hi' == hi
    else
      var e := events[0];
      var b := NextBounds(l, lo, hi, e);
      Legal(l, lo, hi, e) && LegalRun(Next(l, e), b.0, b.1, events[1..], l', lo', hi')
  }

  /** After every run of legal steps and crashes nothing live is lost and the reported state is right. */
  lemma {:induction false} RunIsGood(l: Log, lo: nat, hi: nat, events: seq<Event>, l': Log, lo': nat, hi': nat,
                                     s: LogState)
    requires Shape(l, lo, hi) && LegalRun(l, lo, hi, events, l', lo', hi') && Reports(l', s)
    ensures Shape(l', lo', hi') && NothingLost(l', hi') && StateIsRight(l', hi', s)
    decreases |events|
  {
    if events == [] {
      ShapeIsGood(l, lo, hi, s);
    } else {
      StepKeepsShape(l, lo, hi, events[0]);
      var b := NextBounds(l, lo, hi, events[0]);
      RunIsGood(Next(l, events[0]), b.0, b.1, events[1..], l', lo', hi', s);
    }
  }

  /** Setting the purge point keeps the log right exactly when the purge fits. */
  lemma PurgeFitsIff(l: Log, lo: nat, hi: nat, id: LogId, s: LogState)
    requires Shape(l, lo, hi) && l.removing.None? && Fits(l.logs, id)
    requires Reports(Next(l, PurgeMark(id)), s)
    ensures PurgeFits(l, lo, hi, id) <==>
            NothingLost(Next(l, PurgeMark(id)), hi) && (s.lastLog.Some? ==> id.index <= s.lastLog.value.index)
  {
    var l' := Next(l, PurgeMark(id));
    if l.logs != map[] {
      var i :| IsLast(l.logs, i) && s.lastLog == Some(l.logs[i]);
      assert hi - 1 in l.logs;
    }
    assert lo > 0 ==> lo - 1 !in l'.logs;
  }

  /**
    Deleting from `i` on keeps the reported last log id from falling below the purge point exactly when `i`
    is above it, or takes all.
   */
  lemma DeleteFitsIff(l: Log, lo: nat, hi: nat, i: nat, s: LogState)
    requires Shape(l, lo, hi) && l.lastPurged.Some? && Reports(Next(l, DeleteSince(i)), s)
    ensures s.lastLog.Some?
    ensures l.lastPurged.value.index <= s.lastLog.value.index <==> i > l.lastPurged.value.index || i <= lo
  {
    var logs, end := Next(l, DeleteSince(i)).logs, Min(hi, i);
    assert forall j :: j in logs <==> lo <= j < end;
    if lo < end {
      assert end - 1 in logs;
    } else {
      assert logs == map[];
    }
  }

  /** Both steps of a purge. */
  lemma PurgeKeepsShape(l: Log, lo: nat, hi: nat, id: LogId)
    requires Shape(l, lo, hi) && Legal(l, lo, hi, PurgeMark(id))
    ensures Shape(Next(Next(l, PurgeMark(id)), PurgeRemove), id.index + 1, Max(hi, id.index + 1))
  {
    var (lo1, hi1) := NextBounds(l, lo, hi, PurgeMark(id));
    StepKeepsShape(l, lo, hi, PurgeMark(id));
    StepKeepsShape(Next(l, PurgeMark(id)), lo1, hi1, PurgeRemove);
    assert l.logs == map[] ==> lo !in l.logs;
  }

  // ----- The code -----

  class MetaRaftLog {
    var logs: map<nat, LogId>
    var lastPurged: Option<LogId>
    ghost var lo: nat
    ghost var hi: nat

    ghost function State(): Log
      reads this
    {
      Log(logs, lastPurged, None)
    }

    ghost predicate Valid()
      reads this
    {
      Shape(State(), lo, hi)
    }

    constructor ()
      ensures Valid() && State() == EMPTY_LOG && lo == hi == 0
    {
      logs, lastPurged, lo, hi := map[], None, 0, 0;
    }

    /** `append_to_log`, one batch. */
    method AppendToLog(entries: seq<LogId>)
      modifies this
      ensures State() == Next(old(State()), Append(entries))
      ensures old(Valid() && Legal(State(), lo, hi, Append(entries))) ==>
                Valid() && hi == old(hi) + |entries| && lo == old(lo)
    {
      ghost var before := State();
      var batch := logs;
      for k := 0 to |entries|
        invariant batch == Appended(logs, entries[..k])
      {
        assert entries[..k + 1][..k] == entries[..k];
        batch := batch[entries[k].index := entries[k]];
      }
      assert entries[..|entries|] == entries;
      logs := batch;
      if Shape(before, lo, hi) && Legal(before, lo, hi, Append(entries)) {
        StepKeepsShape(before, lo, hi, Append(entries));
      }
      hi := hi + |entries|;
    }

    /** `delete_conflict_logs_since`. */
    method DeleteConflictLogsSince(id: LogId)
      modifies this
      ensures State() == Next(old(State()), DeleteSince(id.index))
      ensures old(Valid() && Legal(State(), lo, hi, DeleteSince(id.index))) ==>
                Valid() && lo == old(lo) && hi == Max(lo, Min(old(hi), id.index))
    {
      ghost var before := State();
      logs := Below(logs, id.index);
      if Shape(before, lo, hi) && Legal(before, lo, hi, DeleteSince(id.index)) {
        StepKeepsShape(before, lo, hi, DeleteSince(id.index));
      }
      hi := Max(lo, Min(hi, id.index));
    }

    /** `purge_logs_upto`: the purge point first, then the entries. */
    method PurgeLogsUpto(id: LogId)
      modifies this
      ensures lastPurged == Some(id) && State() == Next(Next(old(State()), PurgeMark(id)), PurgeRemove)
      ensures old(Valid() && Legal(State(), lo, hi, PurgeMark(id))) ==>
                Valid() && lo == id.index + 1 && hi == Max(old(hi), id.index + 1)
    {
      ghost var before := State();
      if Shape(before, lo, hi) && Legal(before, lo, hi, PurgeMark(id)) {
        PurgeKeepsShape(before, lo, hi, id);
      }
      lastPurged := Some(id);
      logs := Above(logs, id.index);
      lo, hi := id.index + 1, Max(hi, id.index + 1);
    }

    /** `get_log_state`. */
    method GetLogState() returns (s: LogState)
      ensures Reports(State(), s)
      ensures Valid() ==> NothingLost(State(), hi) && StateIsRight(State(), hi, s)
    {
      if logs == map[] {
        s := LogState(lastPurged, lastPurged);
      } else {
        var i := LastIndex();
        s := LogState(lastPurged, Some(logs[i]));
      }
      if Valid() {
        ShapeIsGood(State(), lo, hi, s);
      }
    }

    /** The last key of the key space. */
    method LastIndex() returns (i: nat)
      requires logs != map[]
      ensures IsLast(logs, i)
    {
      var keys := logs.Keys;
      assert keys != {};
      i :| i in keys;
      keys := keys - {i};
      while keys != {}
        invariant i in logs && keys <= logs.Keys
        invariant forall j :: j in logs && j !in keys ==> j <= i
      {
        var j :| j in keys;
        keys := keys - {j};
        if j > i { i := j; }
      }
    }
  }
}
