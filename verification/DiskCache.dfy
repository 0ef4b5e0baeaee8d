/**
  The disk cache (common/cache/src/disk_cache.rs) over its LRU index (common/cache/src/cache/lru.rs): an index
  of file names and sizes that is meant to agree with the files on disk.
 */
module DiskCache {
  import opened Wrappers

  type Key = string

  datatype Entry = Entry(key: Key, size: nat)

  datatype CacheError = FileTooLarge | FileNotInCache | Io

  /** The index, least recent use first, and the files on disk with their sizes. */
  datatype Store = Store(index: seq<Entry>, disk: map<Key, nat>)

  function Sum(index: seq<Entry>): nat
  {
    if index == [] then 0 else index[0].size + Sum(index[1..])
  }

  function Lookup(index: seq<Entry>, key: Key): Option<nat>
  {
    if index == [] then None
    else if index[0].key == key then Some(index[0].size)
    else Lookup(index[1..], key)
  }

  predicate Distinct(index: seq<Entry>)
  {
    index != [] ==> Lookup(index[1..], index[0].key).None? && Distinct(index[1..])
  }

  function OnDisk(disk: map<Key, nat>, key: Key): Option<nat>
  {
    if key in disk then Some(disk[key]) else None
  }

  function Deleted(disk: map<Key, nat>, files: seq<Entry>): map<Key, nat>
  {
    map key | key in disk && Lookup(files, key).None? :: disk[key]
  }

  /** No name twice in the index, and exactly the indexed files on disk, with the indexed sizes. */
  ghost predicate Agree(s: Store)
  {
    Distinct(s.index) && forall key :: OnDisk(s.disk, key) == Lookup(s.index, key)
  }

  lemma {:induction false} LookupAppend(a: seq<Entry>, b: seq<Entry>, key: Key)
    ensures Lookup(a + b, key) == if Lookup(a, key).Some? then Lookup(a, key) else Lookup(b, key)
  {
    if a == [] {
      assert a + b == b;
    } else {
      assert (a + b)[1..] == a[1..] + b;
      LookupAppend(a[1..], b, key);
    }
  }

  lemma {:induction false} SumAppend(a: seq<Entry>, b: seq<Entry>)
    ensures Sum(a + b) == Sum(a) + Sum(b)
  {
    if a == [] {
      assert a + b == b;
    } else {
      assert (a + b)[1..] == a[1..] + b;
      SumAppend(a[1..], b);
    }
  }

  lemma {:induction false} DistinctAppend(a: seq<Entry>, b: seq<Entry>)
    requires Distinct(a) && Distinct(b)
    requires forall key :: Lookup(a, key).Some? ==> Lookup(b, key).None?
    ensures Distinct(a + b)
  {
    if a == [] {
      assert a + b == b;
    } else {
      assert (a + b)[1..] == a[1..] + b;
      forall key
        ensures Lookup(a[1..], key).Some? ==> Lookup(b, key).None?
      {
        assert Lookup(a, key).None? ==> Lookup(a[1..], key).None?;
      }
      DistinctAppend(a[1..], b);
      LookupAppend(a[1..], b, a[0].key);
      assert Lookup(a, a[0].key).Some?;
    }
  }

  lemma {:induction false} DistinctSplit(a: seq<Entry>, b: seq<Entry>, key: Key)
    requires Distinct(a + b)
    ensures Distinct(a) && Distinct(b)
    ensures Lookup(a, key).Some? ==> Lookup(b, key).None?
  {
    if a == [] {
      assert a + b == b;
    } else {
      assert (a + b)[1..] == a[1..] + b;
      DistinctSplit(a[1..], b, key);
      LookupAppend(a[1..], b, a[0].key);
    }
  }

  // ----- The LRU index -----

  function Without(index: seq<Entry>, key: Key): seq<Entry>
  {
    if index == [] then []
    else if index[0].key == key then index[1..]
    else [index[0]] + Without(index[1..], key)
  }

  function Put(index: seq<Entry>, key: Key, size: nat): seq<Entry>
  {
    Without(index, key) + [Entry(key, size)]
  }

  /** The entry of a key and everything used after it. */
  function From(index: seq<Entry>, key: Key): seq<Entry>
  {
    if index == [] || index[0].key == key then index else From(index[1..], key)
  }

  /** What is left when the least recently used entries go until the rest is within the limit. */
  function Evict(index: seq<Entry>, limit: int): seq<Entry>
  {
    if index == [] || Sum(index) <= limit then index else Evict(index[1..], limit)
  }

  function Gone(index: seq<Entry>, limit: int): seq<Entry>
  {
    if index == [] || Sum(index) <= limit then [] else [index[0]] + Gone(index[1..], limit)
  }

  lemma {:induction false} WithoutLookup(index: seq<Entry>, key: Key, k: Key)
    requires Distinct(index)
    ensures Lookup(Without(index, key), k) == if k == key then None else Lookup(index, k)
  {
    if index != [] && index[0].key != key {
      WithoutLookup(index[1..], key, k);
      assert Without(index, key)[1..] == Without(index[1..], key);
    }
  }

  lemma {:induction false} WithoutFacts(index: seq<Entry>, key: Key)
    requires Distinct(index)
    ensures Distinct(Without(index, key))
    ensures Sum(Without(index, key)) == Sum(index) - (if Lookup(index, key).Some? then Lookup(index, key).value else 0)
  {
    if index != [] && index[0].key != key {
      WithoutFacts(index[1..], key);
      WithoutLookup(index[1..], key, index[0].key);
      assert Without(index, key)[1..] == Without(index[1..], key);
    }
  }

  lemma PutLookup(index: seq<Entry>, key: Key, size: nat, k: Key)
    requires Distinct(index)
    ensures Lookup(Put(index, key, size), k) == if k == key then Some(size) else Lookup(index, k)
  {
    WithoutLookup(index, key, k);
    LookupAppend(Without(index, key), [Entry(key, size)], k);
  }

  lemma PutFacts(index: seq<Entry>, key: Key, size: nat)
    requires Distinct(index)
    ensures Distinct(Put(index, key, size))
    ensures Sum(Put(index, key, size))
            == Sum(index) + size - (if Lookup(index, key).Some? then Lookup(index, key).value else 0)
  {
    var w, e := Without(index, key), [Entry(key, size)];
    WithoutFacts(index, key);
    SumAppend(w, e);
    forall k
      ensures Lookup(w, k).Some? ==> Lookup(e, k).None?
    {
      WithoutLookup(index, key, k);
    }
    DistinctAppend(w, e);
  }

  lemma {:induction false} EvictSplits(index: seq<Entry>, limit: int)
    ensures Gone(index, limit) + Evict(index, limit) == index
    ensures limit >= 0 ==> Sum(Evict(index, limit)) <= limit
  {
    if index != [] && Sum(index) > limit {
      EvictSplits(index[1..], limit);
    }
  }

  /** Eviction leaves the longest run of most recently used entries that is within the limit. */
  lemma {:induction false} EvictIsLongest(older: seq<Entry>, newer: seq<Entry>, limit: int)
    requires Sum(newer) <= limit
    ensures |newer| <= |Evict(older + newer, limit)|
  {
    var index := older + newer;
    if older == [] {
      assert index == newer;
    } else if Sum(index) > limit {
      assert index[1..] == older[1..] + newer;
      EvictIsLongest(older[1..], newer, limit);
    }
  }

  lemma {:induction false} FromIsSmaller(index: seq<Entry>, key: Key)
    ensures Sum(From(index, key)) <= Sum(index)
  {
    if index != [] && index[0].key != key {
      FromIsSmaller(index[1..], key);
    }
  }

  /** An entry goes exactly when it and everything used after it are too much. */
  lemma {:induction false} GoneIff(index: seq<Entry>, key: Key, limit: int)
    requires Lookup(index, key).Some?
    ensures Lookup(Gone(index, limit), key).Some? <==> Sum(From(index, key)) > limit
  {
    if Sum(index) <= limit {
      FromIsSmaller(index, key);
    } else {
      assert Gone(index, limit)[1..] == Gone(index[1..], limit);
      if index[0].key != key {
        GoneIff(index[1..], key, limit);
      }
    }
  }

  // ----- Operations as functions of the store -----

  datatype Op =
    | Insert(key: Key, size: nat, sizeKnown: bool)
    | InsertFails(key: Key, left: Option<nat>)
    | Get(key: Key)
    | Remove(key: Key)

  /** How the write of a new file ends; a failed one leaves a file of some size, or none. */
  datatype Write = Done | Failed(left: Option<nat>)

  /** The store with a file added and the evicted ones deleted. */
  function Added(s: Store, capacity: nat, key: Key, size: nat): Store
  {
    var limit := capacity - size;
    Store(Put(Evict(s.index, limit), key, size), Deleted(s.disk, Gone(s.index, limit)))
  }

  /** A write to the file of `key`, and what it leaves there. */
  function Written(s: Store, key: Key, left: Option<nat>): Store
  {
    s.(disk := if left.Some? then s.disk[key := left.value] else s.disk - {key})
  }

  /** The eviction loop, one file at a time; `None` is the panic over a file that is not there. */
  function EvictFiles(s: Store, limit: int): Option<Store>
    decreases |s.index|
  {
    if s.index == [] || Sum(s.index) <= limit then Some(s)
    else if s.index[0].key !in s.disk then None
    else EvictFiles(Store(s.index[1..], s.disk - {s.index[0].key}), limit)
  }

  /** `add_file` of a file that can be stored. */
  function AddFile(s: Store, capacity: nat, key: Key, size: nat): Option<Store>
  {
    match EvictFiles(s, capacity - size)
    case None => None
    case Some(t) => Some(t.(index := Put(t.index, key, size)))
  }

  /** The store after an operation, or `None` if it panics. */
  function Next(s: Store, capacity: nat, op: Op): Option<Store>
  {
    match op
    case Insert(key, size, sizeKnown) =>
      if size <= capacity then AddFile(Written(s, key, Some(size)), capacity, key, size)
      else if sizeKnown then Some(s)
      else Some(Written(s, key, None))
    case InsertFails(key, left) => Some(Written(s, key, left))
    case Get(key) =>
      var found := Lookup(s.index, key);
      Some(if found.Some? then s.(index := Put(s.index, key, found.value)) else s)
    case Remove(key) =>
      Some(if Lookup(s.index, key).Some? then Store(Without(s.index, key), s.disk - {key}) else s)
  }

  // ----- When an insertion panics -----

  /** Every one of the entries has its file. */
  ghost predicate AllThere(files: seq<Entry>, disk: map<Key, nat>)
  {
    forall key :: Lookup(files, key).Some? ==> key in disk
  }

  lemma DeletedCons(disk: map<Key, nat>, e: Entry, rest: seq<Entry>)
    ensures Deleted(disk - {e.key}, rest) == Deleted(disk, [e] + rest)
  {
    assert ([e] + rest)[1..] == rest;
    assert forall key :: Lookup([e] + rest, key).None? <==> key != e.key && Lookup(rest, key).None?;
  }

  lemma AllThereCons(disk: map<Key, nat>, e: Entry, rest: seq<Entry>)
    requires Lookup(rest, e.key).None?
    ensures AllThere([e] + rest, disk) <==> e.key in disk && AllThere(rest, disk - {e.key})
  {
    assert ([e] + rest)[1..] == rest;
    assert forall key :: Lookup([e] + rest, key).Some? <==> key == e.key || Lookup(rest, key).Some?;
  }

  lemma {:induction false} GoneIsIndexed(index: seq<Entry>, limit: int, key: Key)
    requires Lookup(index, key).None?
    ensures Lookup(Gone(index, limit), key).None?
  {
    EvictSplits(index, limit);
    LookupAppend(Gone(index, limit), Evict(index, limit), key);
  }

  /** The eviction loop panics exactly when a file to be evicted is not there, and otherwise deletes exactly those. */
  lemma {:induction false} EvictFilesIff(s: Store, limit: int)
    requires Distinct(s.index)
    ensures EvictFiles(s, limit).Some? <==> AllThere(Gone(s.index, limit), s.disk)
    ensures EvictFiles(s, limit).Some? ==>
              EvictFiles(s, limit).value == Store(Evict(s.index, limit), Deleted(s.disk, Gone(s.index, limit)))
    decreases |s.index|
  {
    if s.index == [] || Sum(s.index) <= limit {
      assert Deleted(s.disk, []) == s.disk;
    } else {
      var e, rest := s.index[0], s.index[1..];
      var gone := Gone(rest, limit);
      GoneIsIndexed(rest, limit, e.key);
      AllThereCons(s.disk, e, gone);
      DeletedCons(s.disk, e, gone);
      if e.key in s.disk {
        EvictFilesIff(Store(rest, s.disk - {e.key}), limit);
      }
    }
  }

  /** An insertion panics exactly when an entry it has to evict has no file, once its own file is written. */
  lemma PanicIff(s: Store, capacity: nat, op: Op)
    requires Distinct(s.index)
    ensures Next(s, capacity, op).None? <==>
            && op.Insert? && op.size <= capacity
            && !AllThere(Gone(s.index, capacity - op.size), s.disk[op.key := op.size])
    ensures op.Insert? && op.size <= capacity && Next(s, capacity, op).Some? ==>
              Next(s, capacity, op).value == Added(Written(s, op.key, Some(op.size)), capacity, op.key, op.size)
  {
    if op.Insert? && op.size <= capacity {
      EvictFilesIff(Written(s, op.key, Some(op.size)), capacity - op.size);
    }
  }

  /** Where index and disk agree nothing panics. */
  lemma AgreeNeverPanics(s: Store, capacity: nat, op: Op)
    requires Agree(s)
    ensures Next(s, capacity, op).Some?
  {
    PanicIff(s, capacity, op);
    if op.Insert? {
      forall key | Lookup(Gone(s.index, capacity - op.size), key).Some?
        ensures key in s.disk
      {
        EvictSplits(s.index, capacity - op.size);
        LookupAppend(Gone(s.index, capacity - op.size), Evict(s.index, capacity - op.size), key);
        assert OnDisk(s.disk, key).Some?;
      }
    }
  }

  lemma AddFileFacts(s: Store, capacity: nat, key: Key, size: nat)
    requires Distinct(s.index) && size <= capacity
    ensures var r := Added(s, capacity, key, size); Distinct(r.index) && Sum(r.index) <= capacity
  {
    var limit := capacity - size;
    EvictSplits(s.index, limit);
    DistinctSplit(Gone(s.index, limit), Evict(s.index, limit), key);
    PutFacts(Evict(s.index, limit), key, size);
  }

  // ----- When index and disk stay in agreement -----

  /** What decides it: before an insertion, room for the file; after a write that failed, what it left. */
  predicate Harmless(s: Store, capacity: nat, op: Op)
  {
    match op
    case Insert(key, size, sizeKnown) =>
      || Lookup(s.index, key).None?
      || (sizeKnown && size > capacity)
      || Sum(From(s.index, key)) + size <= capacity
    case InsertFails(key, left) =>
      left == OnDisk(s.disk, key)
    case Get(_) => true
    case Remove(_) => true
  }

  /** One key after a file was written and added. */
  lemma AddFileAt(s: Store, capacity: nat, key: Key, size: nat, k: Key)
    requires Agree(s) && size <= capacity
    ensures var r := Added(Written(s, key, Some(size)), capacity, key, size);
            && Lookup(r.index, key).Some?
            && OnDisk(r.disk, k) ==
               if k == key && Lookup(Gone(s.index, capacity - size), key).Some? then None else Lookup(r.index, k)
  {
    var gone, kept := Gone(s.index, capacity - size), Evict(s.index, capacity - size);
    EvictSplits(s.index, capacity - size);
    DistinctSplit(gone, kept, k);
    LookupAppend(gone, kept, k);
    PutLookup(kept, key, size, k);
    PutLookup(kept, key, size, key);
  }

  lemma AddFileAgreesIff(s: Store, capacity: nat, key: Key, size: nat)
    requires Agree(s) && size <= capacity
    ensures Agree(Added(Written(s, key, Some(size)), capacity, key, size))
            <==> Lookup(s.index, key).None? || Sum(From(s.index, key)) + size <= capacity
  {
    var gone, kept := Gone(s.index, capacity - size), Evict(s.index, capacity - size);
    var r := Added(Written(s, key, Some(size)), capacity, key, size);
    AddFileFacts(Written(s, key, Some(size)), capacity, key, size);
    EvictSplits(s.index, capacity - size);
    LookupAppend(gone, kept, key);
    if Lookup(s.index, key).Some? {
      GoneIff(s.index, key, capacity - size);
    }
    AddFileAt(s, capacity, key, size, key);
    if Lookup(gone, key).None? {
      forall k
        ensures OnDisk(r.disk, k) == Lookup(r.index, k)
      {
        AddFileAt(s, capacity, key, size, k);
      }
    }
  }

  lemma WriteAgreesIff(s: Store, key: Key, left: Option<nat>)
    requires Agree(s)
    ensures Agree(Written(s, key, left)) <==> left == OnDisk(s.disk, key)
  {
    var r := Written(s, key, left);
    assert forall k :: OnDisk(r.disk, k) == if k == key then left else OnDisk(s.disk, k);
  }

  lemma GetAgrees(s: Store, capacity: nat, key: Key)
    requires Agree(s)
    ensures Agree(Next(s, capacity, Get(key)).value)
  {
    var r, found := Next(s, capacity, Get(key)).value, Lookup(s.index, key);
    if found.Some? {
      PutFacts(s.index, key, found.value);
      forall k
        ensures OnDisk(r.disk, k) == Lookup(r.index, k)
      {
        PutLookup(s.index, key, found.value, k);
      }
    }
  }

  lemma RemoveAgrees(s: Store, capacity: nat, key: Key)
    requires Agree(s)
    ensures Agree(Next(s, capacity, Remove(key)).value)
  {
    var r := Next(s, capacity, Remove(key)).value;
    WithoutFacts(s.index, key);
    if Lookup(s.index, key).Some? {
      forall k
        ensures OnDisk(r.disk, k) == Lookup(r.index, k)
      {
        WithoutLookup(s.index, key, k);
      }
    }
  }

  /** Where index and disk agree an operation does not panic, and keeps them so exactly when it is harmless. */
  lemma AgreementKeptIff(s: Store, capacity: nat, op: Op)
    requires Agree(s)
    ensures Next(s, capacity, op).Some?
    ensures Agree(Next(s, capacity, op).value) <==> Harmless(s, capacity, op)
  {
    AgreeNeverPanics(s, capacity, op);
    PanicIff(s, capacity, op);
    if op.Insert? {
      if op.size <= capacity {
        AddFileAgreesIff(s, capacity, op.key, op.size);
      } else if !op.sizeKnown {
        WriteAgreesIff(s, op.key, None);
      }
    } else if op.InsertFails? {
      WriteAgreesIff(s, op.key, op.left);
    } else if op.Get? {
      GetAgrees(s, capacity, op.key);
    } else {
      RemoveAgrees(s, capacity, op.key);
    }
  }

  /** The total stays within the capacity whatever the operation, agreement or not, as long as it does not panic. */
  lemma CapacityKept(s: Store, capacity: nat, op: Op)
    requires Distinct(s.index) && Sum(s.index) <= capacity && Next(s, capacity, op).Some?
    ensures var r := Next(s, capacity, op).value; Distinct(r.index) && Sum(r.index) <= capacity
  {
    PanicIff(s, capacity, op);
    if op.Insert? {
      if op.size <= capacity {
        AddFileFacts(Written(s, op.key, Some(op.size)), capacity, op.key, op.size);
      }
    } else if op.Get? {
      var found := Lookup(s.index, op.key);
      if found.Some? {
        PutFacts(s.index, op.key, found.value);
      }
    } else if op.Remove? {
      WithoutFacts(s.index, op.key);
    }
  }

  /**
    A file that fits, stored again at the same size, ends up in the index and not on disk; and the next file
    panics.
   */
  lemma ReinsertLosesFile()
    ensures var s := Store([Entry("a", 6)], map["a" := 6]);
            var r := Next(s, 10, Insert("a", 6, true));
            && Agree(s) && r == Some(Store([Entry("a", 6)], map[])) && !Agree(r.value)
            && Next(r.value, 10, Insert("b", 6, true)) == None
  {
    var index := [Entry("a", 6)];
    assert Sum(index) == 6 && index[1..] == [];
    var full, lost := Store(index, map["a" := 6]), Store(index, map[]);
    assert Lookup(index, "a") == Some(6) && Put([], "a", 6) == index;
    assert full.disk["a" := 6] == full.disk && full.disk - {"a"} == map[];
    assert EvictFiles(full, 4) == Some(Store([], map[]));
    assert Next(full, 10, Insert("a", 6, true)) == AddFile(full, 10, "a", 6);
    assert OnDisk(lost.disk, "a").None?;
    assert EvictFiles(Store(index, map["b" := 6]), 4) == None;
    assert Written(lost, "b", Some(6)) == Store(index, map["b" := 6]);
  }

  // ----- Whole runs -----

  /** A run, up to its first panic. */
  function Run(s: Store, capacity: nat, ops: seq<Op>): Option<Store>
  {
    if ops == [] then Some(s)
    else
      match Run(s, capacity, ops[..|ops| - 1])
      case None => None
      case Some(t) => Next(t, capacity, ops[|ops| - 1])
  }

  /** Each operation is harmless where it happens. */
  predicate HarmlessRun(s: Store, capacity: nat, ops: seq<Op>)
  {
    ops != [] ==>
      && HarmlessRun(s, capacity, ops[..|ops| - 1])
      && var before := Run(s, capacity, ops[..|ops| - 1]);
         before.Some? && Harmless(before.value, capacity, ops[|ops| - 1])
  }

  /**
    Over every run, up to its first panic, the capacity is respected; and a harmless run has no panic and
    ends in agreement.
   */
  lemma {:induction false} RunIsSound(s: Store, capacity: nat, ops: seq<Op>)
    requires Agree(s) && Sum(s.index) <= capacity
    ensures var r := Run(s, capacity, ops);
            && (r.Some? ==> Distinct(r.value.index) && Sum(r.value.index) <= capacity)
            && (HarmlessRun(s, capacity, ops) ==> r.Some? && Agree(r.value))
  {
    if ops != [] {
      var n := |ops| - 1;
      var before := Run(s, capacity, ops[..n]);
      RunIsSound(s, capacity, ops[..n]);
      if before.Some? {
        if Next(before.value, capacity, ops[n]).Some? {
          CapacityKept(before.value, capacity, ops[n]);
        }
        if Agree(before.value) {
          AgreementKeptIff(before.value, capacity, ops[n]);
        }
      }
    }
  }

  /** The key an operation uses: stored, or found by a get. */
  function Used(s: Store, capacity: nat, op: Op): seq<Key>
  {
    if (op.Insert? && op.size <= capacity) || (op.Get? && Lookup(s.index, op.key).Some?) then [op.key] else []
  }

  function Uses(s: Store, capacity: nat, ops: seq<Op>): seq<Key>
  {
    if ops == [] then []
    else
      var n := |ops| - 1;
      var before := Run(s, capacity, ops[..n]);
      Uses(s, capacity, ops[..n]) + if before.Some? then Used(before.value, capacity, ops[n]) else []
  }

  /** Index of the last use of a key, or -1. */
  function LastUse(uses: seq<Key>, key: Key): int
  {
    if uses == [] then -1
    else if uses[|uses| - 1] == key then |uses| - 1
    else LastUse(uses[..|uses| - 1], key)
  }

  lemma {:induction false} LastUseIsLast(uses: seq<Key>, key: Key)
    ensures var i := LastUse(uses, key);
            && -1 <= i < |uses|
            && (i >= 0 ==> uses[i] == key)
            && forall j :: i < j < |uses| ==> uses[j] != key
  {
    if uses != [] {
      LastUseIsLast(uses[..|uses| - 1], key);
    }
  }

  /** The index is in the order of last uses, all of them after `bound`. */
  predicate ByLastUse(index: seq<Entry>, uses: seq<Key>, bound: int)
  {
    index != [] ==>
      bound < LastUse(uses, index[0].key) && ByLastUse(index[1..], uses, LastUse(uses, index[0].key))
  }

  lemma {:induction false} SuffixKeepsOrder(older: seq<Entry>, newer: seq<Entry>, uses: seq<Key>, bound: int,
                                            lower: int)
    requires ByLastUse(older + newer, uses, bound) && lower <= bound
    ensures ByLastUse(newer, uses, lower)
  {
    if older == [] {
      assert older + newer == newer;
    } else {
      var all := older + newer;
      assert all[1..] == older[1..] + newer;
      SuffixKeepsOrder(older[1..], newer, uses, LastUse(uses, all[0].key), lower);
    }
  }

  lemma {:induction false} WithoutKeepsOrder(index: seq<Entry>, uses: seq<Key>, key: Key, bound: int)
    requires ByLastUse(index, uses, bound)
    ensures ByLastUse(Without(index, key), uses, bound)
  {
    if index != [] {
      if index[0].key == key {
        assert index == [index[0]] + index[1..];
        SuffixKeepsOrder([index[0]], index[1..], uses, bound, bound);
      } else {
        WithoutKeepsOrder(index[1..], uses, key, LastUse(uses, index[0].key));
        assert Without(index, key)[1..] == Without(index[1..], key);
      }
    }
  }

  lemma {:induction false} UseGoesLast(index: seq<Entry>, uses: seq<Key>, e: Entry, bound: int)
    requires ByLastUse(index, uses, bound) && bound < |uses| && Lookup(index, e.key).None?
    ensures ByLastUse(index + [e], uses + [e.key], bound)
  {
    var later, all := uses + [e.key], index + [e];
    assert later[..|uses|] == uses;
    if index == [] {
      assert all[0] == e && all[1..] == [];
    } else {
      assert all[0] == index[0] && all[1..] == index[1..] + [e];
      LastUseIsLast(uses, index[0].key);
      UseGoesLast(index[1..], uses, e, LastUse(uses, index[0].key));
    }
  }

  lemma PutKeepsOrder(index: seq<Entry>, uses: seq<Key>, key: Key, size: nat)
    requires Distinct(index) && ByLastUse(index, uses, -1)
    ensures ByLastUse(Put(index, key, size), uses + [key], -1)
  {
    WithoutKeepsOrder(index, uses, key, -1);
    WithoutLookup(index, key, key);
    UseGoesLast(Without(index, key), uses, Entry(key, size), -1);
  }

  lemma EvictKeepsOrder(index: seq<Entry>, uses: seq<Key>, limit: int)
    requires Distinct(index) && ByLastUse(index, uses, -1)
    ensures Distinct(Evict(index, limit)) && ByLastUse(Evict(index, limit), uses, -1)
  {
    var gone, kept := Gone(index, limit), Evict(index, limit);
    EvictSplits(index, limit);
    DistinctSplit(gone, kept, "");
    SuffixKeepsOrder(gone, kept, uses, -1, -1);
  }

  lemma StepKeepsOrder(s: Store, capacity: nat, op: Op, uses: seq<Key>)
    requires Distinct(s.index) && ByLastUse(s.index, uses, -1) && Next(s, capacity, op).Some?
    ensures ByLastUse(Next(s, capacity, op).value.index, uses + Used(s, capacity, op), -1)
  {
    PanicIff(s, capacity, op);
    assert uses + [] == uses;
    if op.Insert? && op.size <= capacity {
      EvictKeepsOrder(s.index, uses, capacity - op.size);
      PutKeepsOrder(Evict(s.index, capacity - op.size), uses, op.key, op.size);
    } else if op.Get? && Lookup(s.index, op.key).Some? {
      PutKeepsOrder(s.index, uses, op.key, Lookup(s.index, op.key).value);
    } else if op.Remove? {
      WithoutKeepsOrder(s.index, uses, op.key, -1);
    }
  }

  /** Over every run that starts empty, up to its first panic, the index lists the files by their last use. */
  lemma {:induction false} IndexIsByLastUse(capacity: nat, ops: seq<Op>)
    ensures var s := Store([], map[]);
            var r := Run(s, capacity, ops);
            r.Some? ==> ByLastUse(r.value.index, Uses(s, capacity, ops), -1)
  {
    var s := Store([], map[]);
    if ops != [] && Run(s, capacity, ops).Some? {
      var n := |ops| - 1;
      IndexIsByLastUse(capacity, ops[..n]);
      RunIsSound(s, capacity, ops[..n]);
      StepKeepsOrder(Run(s, capacity, ops[..n]).value, capacity, ops[n], Uses(s, capacity, ops[..n]));
    }
  }

  // ----- `init` -----

  function Storable(files: seq<Entry>, capacity: nat): seq<Entry>
  {
    if files == [] then []
    else
      var n := |files| - 1;
      Storable(files[..n], capacity) + if files[n].size <= capacity then [files[n]] else []
  }

  lemma {:induction false} EvictTwice(index: seq<Entry>, limit: int, lower: int)
    requires lower <= limit
    ensures Evict(Evict(index, limit), lower) == Evict(index, lower)
  {
    if index != [] && Sum(index) > limit {
      EvictTwice(index[1..], limit, lower);
    }
  }

  /** Making room and then appending leaves what appending and then evicting leaves. */
  lemma {:induction false} EvictThenAppend(index: seq<Entry>, e: Entry, capacity: nat)
    requires e.size <= capacity
    ensures Evict(index + [e], capacity) == Evict(index, capacity - e.size) + [e]
  {
    SumAppend(index, [e]);
    assert Sum([e]) == e.size;
    if index != [] && Sum(index) > capacity - e.size {
      assert (index + [e])[1..] == index[1..] + [e];
      EvictThenAppend(index[1..], e, capacity);
    }
  }

  /** Deleting the files of some entries leaves disk agreeing with the others. */
  lemma DeleteAgrees(front: seq<Entry>, gone: seq<Entry>, rest: seq<Entry>, disk: map<Key, nat>)
    requires Agree(Store(front + (gone + rest), disk))
    ensures Agree(Store(front + rest, Deleted(disk, gone)))
  {
    forall key
      ensures OnDisk(Deleted(disk, gone), key) == Lookup(front + rest, key)
      ensures Lookup(front, key).Some? ==> Lookup(rest, key).None?
    {
      DistinctSplit(front, gone + rest, key);
      DistinctSplit(gone, rest, key);
      LookupAppend(front, gone + rest, key);
      LookupAppend(gone, rest, key);
      LookupAppend(front, rest, key);
    }
    DistinctSplit(front, gone + rest, "");
    DistinctSplit(gone, rest, "");
    DistinctAppend(front, rest);
  }

  lemma {:induction false} WithoutAbsent(index: seq<Entry>, key: Key)
    requires Lookup(index, key).None?
    ensures Without(index, key) == index
  {
    if index != [] {
      WithoutAbsent(index[1..], key);
    }
  }

  /** A storable file: the index stays what eviction leaves of the storable files so far. */
  lemma InitIndex(seen: seq<Entry>, capacity: nat, e: Entry)
    requires e.size <= capacity
    ensures Evict(Storable(seen + [e], capacity), capacity)
            == Evict(Evict(Storable(seen, capacity), capacity), capacity - e.size) + [e]
  {
    assert (seen + [e])[..|seen|] == seen;
    EvictThenAppend(Storable(seen, capacity), e, capacity);
    EvictTwice(Storable(seen, capacity), capacity, capacity - e.size);
  }

  /** Adding it does not panic. */
  lemma AddedIsAllThere(s: Store, capacity: nat, e: Entry, rest: seq<Entry>)
    requires Agree(Store(s.index + ([e] + rest), s.disk))
    ensures AddFile(s, capacity, e.key, e.size) == Some(Added(s, capacity, e.key, e.size))
  {
    var limit := capacity - e.size;
    DistinctSplit(s.index, [e] + rest, "");
    EvictSplits(s.index, limit);
    forall key | Lookup(Gone(s.index, limit), key).Some?
      ensures key in s.disk
    {
      LookupAppend(Gone(s.index, limit), Evict(s.index, limit), key);
      LookupAppend(s.index, [e] + rest, key);
      assert OnDisk(s.disk, key).Some?;
    }
    EvictFilesIff(s, limit);
  }

  lemma KeptLacks(index: seq<Entry>, limit: int, e: Entry, rest: seq<Entry>)
    requires Distinct(index + ([e] + rest))
    ensures Without(Evict(index, limit), e.key) == Evict(index, limit)
  {
    EvictSplits(index, limit);
    DistinctSplit(index, [e] + rest, e.key);
    assert Lookup([e] + rest, e.key).Some?;
    LookupAppend(Gone(index, limit), Evict(index, limit), e.key);
    WithoutAbsent(Evict(index, limit), e.key);
  }

  lemma Regroup(gone: seq<Entry>, kept: seq<Entry>, e: Entry, rest: seq<Entry>)
    ensures (gone + kept) + ([e] + rest) == [] + (gone + (kept + [e] + rest))
    ensures [] + (kept + [e] + rest) == kept + [e] + rest
  {
  }

  /** ... and disk agrees with the index and the files still to come. */
  lemma InitAgrees(s: Store, capacity: nat, e: Entry, rest: seq<Entry>)
    requires Agree(Store(s.index + ([e] + rest), s.disk))
    ensures var r := Added(s, capacity, e.key, e.size);
            && r.index == Evict(s.index, capacity - e.size) + [e]
            && Agree(Store(r.index + rest, r.disk))
  {
    var gone, kept := Gone(s.index, capacity - e.size), Evict(s.index, capacity - e.size);
    EvictSplits(s.index, capacity - e.size);
    KeptLacks(s.index, capacity - e.size, e, rest);
    Regroup(gone, kept, e, rest);
    DeleteAgrees([], gone, kept + [e] + rest, s.disk);
  }

  /** A file over the capacity is deleted and leaves the index as it is. */
  lemma InitSkip(s: Store, capacity: nat, seen: seq<Entry>, e: Entry, rest: seq<Entry>)
    requires e.size > capacity
    requires Agree(Store(s.index + ([e] + rest), s.disk))
    ensures Storable(seen + [e], capacity) == Storable(seen, capacity)
    ensures Agree(Store(s.index + rest, s.disk - {e.key}))
  {
    assert (seen + [e])[..|seen|] == seen;
    DeleteAgrees(s.index, [e], rest, s.disk);
    assert forall key :: Lookup([e], key).None? <==> key != e.key;
    assert Deleted(s.disk, [e]) == s.disk - {e.key};
  }

  lemma {:induction false} FilesAgree(files: seq<Entry>)
    requires Distinct(files)
    ensures Agree(Store(files, FilesOf(files)))
  {
    if files != [] {
      FilesAgree(files[1..]);
      assert forall key :: OnDisk(FilesOf(files), key) ==
               if key == files[0].key then Some(files[0].size) else OnDisk(FilesOf(files[1..]), key);
    }
  }

  function FilesOf(files: seq<Entry>): map<Key, nat>
  {
    if files == [] then map[] else FilesOf(files[1..])[files[0].key := files[0].size]
  }

  lemma EmptyStart(files: seq<Entry>)
    ensures [] + files[0..] == files && files[..0] == []
  {
  }

  lemma TakeOne(files: seq<Entry>, i: nat)
    requires i < |files|
    ensures files[i..] == [files[i]] + files[i + 1..] && files[..i + 1] == files[..i] + [files[i]]
  {
  }

  lemma AllTaken(index: seq<Entry>, files: seq<Entry>)
    ensures files[..|files|] == files && index + files[|files|..] == index
  {
  }

  // ----- The cache -----

  datatype Outcome = Stored | Refused(error: CacheError) | Panicked

  /** The operation an insertion amounts to. */
  function InsertOp(capacity: nat, key: Key, size: nat, sizeKnown: bool, write: Write): Op
  {
    if write.Failed? && !(sizeKnown && size > capacity) then InsertFails(key, write.left)
    else Insert(key, size, sizeKnown)
  }

  /** What an insertion that does not panic returns. */
  function Reported(capacity: nat, size: nat, sizeKnown: bool, write: Write): Outcome
  {
    if sizeKnown && size > capacity then Refused(FileTooLarge)
    else if write.Failed? then Refused(Io)
    else if size > capacity then Refused(FileTooLarge) else Stored
  }

  class DiskCache {
    const capacity: nat
    var index: seq<Entry>
    var measure: nat
    var disk: map<Key, nat>

    ghost function State(): Store
      reads this
    {
      Store(index, disk)
    }

    /** What holds even when index and disk disagree. */
    ghost predicate Valid()
      reads this
    {
      Distinct(index) && measure == Sum(index) && measure <= capacity
    }

    /** An empty cache over a root that already holds files. */
    constructor (capacity: nat, files: seq<Entry>)
      requires Distinct(files)
      ensures this.capacity == capacity && index == [] && Valid() && Agree(Store(files, disk))
    {
      this.capacity := capacity;
      index, measure := [], 0;
      disk := FilesOf(files);
      FilesAgree(files);
    }

    /** `init`: adopt the files found under the root, oldest modification first. */
    method Init(files: seq<Entry>)
      requires index == [] && Valid() && Agree(Store(files, disk))
      modifies this
      ensures Valid() && Agree(State())
      ensures index == Evict(Storable(files, capacity), capacity)
    {
      var i := 0;
      EmptyStart(files);
      while i < |files|
        invariant 0 <= i <= |files| && Valid()
        invariant index == Evict(Storable(files[..i], capacity), capacity)
        invariant Agree(Store(index + files[i..], disk))
      {
        TakeOne(files, i);
        Adopt(files[i], files[..i], files[i + 1..]);
        i := i + 1;
      }
      AllTaken(index, files);
    }

    /** One file of `init`; `seen` came before it and `rest` is still to come. */
    method Adopt(file: Entry, ghost seen: seq<Entry>, ghost rest: seq<Entry>)
      requires Valid() && index == Evict(Storable(seen, capacity), capacity)
      requires Agree(Store(index + ([file] + rest), disk))
      modifies this
      ensures Valid() && index == Evict(Storable(seen + [file], capacity), capacity)
      ensures Agree(Store(index + rest, disk))
    {
      if !CanStore(file.size) {
        InitSkip(State(), capacity, seen, file, rest);
        disk := disk - {file.key};
      } else {
        InitIndex(seen, capacity, file);
        InitAgrees(State(), capacity, file, rest);
        AddedIsAllThere(State(), capacity, file, rest);
        var _ := AddToIndex(file.key, file.size);
      }
    }

    predicate CanStore(size: nat)
    {
      size <= capacity
    }

    /** `add_file`: evict until the file fits, then put it. The cache is never empty where it evicts. */
    method AddToIndex(key: Key, size: nat) returns (outcome: Outcome)
      requires Valid()
      modifies this
      ensures Valid()
      ensures size > capacity ==> outcome == Refused(FileTooLarge) && State() == old(State())
      ensures size <= capacity ==>
                var r := AddFile(old(State()), capacity, key, size);
                if r.None? then outcome.Panicked? else outcome.Stored? && State() == r.value
    {
      if !CanStore(size) {
        return Refused(FileTooLarge);
      }
      while measure + size > capacity
        invariant Valid()
        invariant EvictFiles(State(), capacity - size) == old(EvictFiles(State(), capacity - size))
        decreases |index|
      {
        assert index != [];
        var oldest := index[0];
        index, measure := index[1..], measure - oldest.size;
        if oldest.key !in disk {
          return Panicked;
        }
        disk := disk - {oldest.key};
      }
      PutFacts(index, key, size);
      PutEntry(key, size);
      return Stored;
    }

    /** `LruCache::put`. */
    method PutEntry(key: Key, size: nat)
      requires Distinct(index) && measure == Sum(index)
      modifies this`index, this`measure
      ensures index == Evict(Put(old(index), key, size), capacity)
      ensures Valid()
    {
      PutFacts(index, key, size);
      WithoutFacts(index, key);
      var found := Lookup(index, key);
      measure := measure + size;
      if found.Some? {
        measure := measure - found.value;
      }
      index := Put(index, key, size);
      while measure > capacity
        invariant measure == Sum(index) && Distinct(index)
        invariant Evict(index, capacity) == Evict(Put(old(index), key, size), capacity)
        decreases |index|
      {
        measure, index := measure - index[0].size, index[1..];
      }
    }

    /**
      `insert_by`; `sizeKnown` tells `insert_bytes` and `insert_file` from `insert_with`, and a write that
      fails leaves what it leaves.
     */
    method InsertBy(key: Key, size: nat, sizeKnown: bool, write: Write) returns (outcome: Outcome)
      requires Valid()
      modifies this
      ensures Valid()
      ensures var op := InsertOp(capacity, key, size, sizeKnown, write);
              var r := Next(old(State()), capacity, op);
              && (outcome.Panicked? <==> r.None?)
              && (r.Some? ==> State() == r.value && outcome == Reported(capacity, size, sizeKnown, write))
              && (old(Agree(State())) ==> r.Some? && (Agree(State()) <==> Harmless(old(State()), capacity, op)))
    {
      ghost var op := InsertOp(capacity, key, size, sizeKnown, write);
      if Agree(State()) {
        AgreementKeptIff(State(), capacity, op);
      }
      if sizeKnown && !CanStore(size) {
        return Refused(FileTooLarge);
      }
      if write.Failed? {
        disk := if write.left.Some? then disk[key := write.left.value] else disk - {key};
        return Refused(Io);
      }
      disk := disk[key := size];
      outcome := AddToIndex(key, size);
      if outcome.Refused? {
        disk := disk - {key};
        assert disk == old(disk) - {key};
      }
    }

    /** `get_file`. */
    method GetFile(key: Key) returns (r: Result<nat, CacheError>)
      requires Valid()
      modifies this`index
      ensures Valid() && (old(Agree(State())) ==> Agree(State()))
      ensures Next(old(State()), capacity, Get(key)) == Some(State())
      ensures r == if Lookup(old(index), key).None? then Err(FileNotInCache)
                   else if key in disk then Ok(disk[key])
                   else Err(Io)
    {
      if Agree(State()) {
        AgreementKeptIff(State(), capacity, Get(key));
      }
      var found := Lookup(index, key);
      if found.None? {
        return Err(FileNotInCache);
      }
      PutFacts(index, key, found.value);
      index := Put(index, key, found.value);
      return if key in disk then Ok(disk[key]) else Err(Io);
    }

    /** `remove`. */
    method RemoveFile(key: Key) returns (error: Option<CacheError>)
      requires Valid()
      modifies this
      ensures Valid() && (old(Agree(State())) ==> Agree(State()))
      ensures Next(old(State()), capacity, Remove(key)) == Some(State())
      ensures error == if Lookup(old(index), key).Some? && key !in old(disk) then Some(Io) else None
    {
      if Agree(State()) {
        AgreementKeptIff(State(), capacity, Remove(key));
      }
      WithoutFacts(index, key);
      var found := Lookup(index, key);
      if found.None? {
        return None;
      }
      measure := measure - found.value;
      index := Without(index, key);
      error := if key in disk then None else Some(Io);
      disk := disk - {key};
    }
  }
}
