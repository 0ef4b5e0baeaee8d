/**
  The block streams behind LIMIT BY, OFFSET and LIMIT (common/streams/src/stream_limit_by.rs, stream_skip.rs,
  stream_take.rs). A block is the sequence of its rows.
 */
module Streams {

  type Key(==, !new)

  type Values(==, !new)

  /** A row and the serialised values of its LIMIT BY columns. */
  datatype Row = Row(key: Key, values: Values)

  type Block = seq<Row>

  type StreamError(==, !new)

  /** What a poll gives while the stream goes on; the end of a stream is the end of the sequence. */
  datatype Item = Ok(block: Block) | Err(error: StreamError) | Pending

  function Rows(items: seq<Item>): Block
  {
    if items == [] then []
    else (if items[0].Ok? then items[0].block else []) + Rows(items[1..])
  }

  /** The errors and pending polls of a stream, in order. */
  function Others(items: seq<Item>): seq<Item>
  {
    if items == [] then []
    else (if items[0].Ok? then [] else [items[0]]) + Others(items[1..])
  }

  function Min(a: nat, b: nat): nat
  {
    if a < b then a else b
  }

  // ----- Skip -----

  /** Everything a skip stream gives from here on. */
  function Skipped(items: seq<Item>, n: nat): seq<Item>
  {
    if items == [] || n == 0 then items
    else if !items[0].Ok? then [items[0]] + Skipped(items[1..], n)
    else if n >= |items[0].block| then Skipped(items[1..], n - |items[0].block|)
    else [Ok(items[0].block[n..])] + items[1..]
  }

  datatype Poll = Ready(item: Item) | End

  class SkipStream {
    var input: seq<Item>
    var remaining: nat

    constructor (input: seq<Item>, n: nat)
      ensures Skipped(this.input, remaining) == Skipped(input, n)
    {
      this.input, remaining := input, n;
    }

    /** A poll gives the head of what is to come, and leaves the rest to come. */
    method PollNext() returns (poll: Poll)
      modifies this
      ensures var before := old(Skipped(input, remaining));
              if poll.End? then before == [] && Skipped(input, remaining) == []
              else before == [poll.item] + Skipped(input, remaining)
    {
      while remaining > 0
        invariant Skipped(input, remaining) == old(Skipped(input, remaining))
        decreases |input|
      {
        if input == [] {
          return End;
        }
        var item := input[0];
        input := input[1..];
        if !item.Ok? {
          return Ready(item);
        }
        var rows := |item.block|;
        if remaining >= rows {
          remaining := remaining - rows;
        } else {
          var skip := remaining;
          remaining := 0;
          return Ready(Ok(item.block[skip..]));
        }
      }
      if input == [] {
        return End;
      }
      var item := input[0];
      input := input[1..];
      return Ready(item);
    }
  }

  lemma Cons(item: Item, rest: seq<Item>)
    ensures Rows([item] + rest) == (if item.Ok? then item.block else []) + Rows(rest)
    ensures Others([item] + rest) == (if item.Ok? then [] else [item]) + Others(rest)
  {
    assert ([item] + rest)[1..] == rest;
  }

  /** Whatever the blocks, a skip stream gives all rows but the first `n`, and every error and pending poll. */
  lemma {:induction false} SkipDropsRows(items: seq<Item>, n: nat)
    ensures Rows(Skipped(items, n)) == Rows(items)[Min(n, |Rows(items)|)..]
    ensures Others(Skipped(items, n)) == Others(items)
  {
    if items != [] && n > 0 {
      var first, rest := items[0], items[1..];
      if !first.Ok? {
        SkipDropsRows(rest, n);
        Cons(first, Skipped(rest, n));
        assert [] + Rows(rest) == Rows(rest);
        assert [] + Rows(Skipped(rest, n)) == Rows(Skipped(rest, n));
      } else if n >= |first.block| {
        SkipDropsRows(rest, n - |first.block|);
        assert [] + Others(rest) == Others(rest);
      } else {
        Cons(Ok(first.block[n..]), rest);
      }
    }
  }

  // ----- Take -----

  /** Everything a take stream gives from here on. */
  function Taken(items: seq<Item>, n: nat): seq<Item>
  {
    if items == [] then []
    else if !items[0].Ok? then [items[0]] + Taken(items[1..], n)
    else if n == 0 then []
    else if n >= |items[0].block| then [items[0]] + Taken(items[1..], n - |items[0].block|)
    else [Ok(items[0].block[..n])] + Taken(items[1..], 0)
  }

  class TakeStream {
    var input: seq<Item>
    var remaining: nat

    constructor (input: seq<Item>, n: nat)
      ensures Taken(this.input, remaining) == Taken(input, n)
    {
      this.input, remaining := input, n;
    }

    method PollNext() returns (poll: Poll)
      modifies this
      ensures var before := old(Taken(input, remaining));
              if poll.End? then before == [] else before == [poll.item] + Taken(input, remaining)
    {
      if input == [] {
        return End;
      }
      var item := input[0];
      input := input[1..];
      if !item.Ok? {
        return Ready(item);
      }
      var rows := |item.block|;
      if remaining == 0 {
        return End;
      } else if remaining >= rows {
        remaining := remaining - rows;
        return Ready(item);
      } else {
        var take := remaining;
        remaining := 0;
        return Ready(Ok(item.block[..take]));
      }
    }
  }

  /** Whatever the blocks, a take stream gives the first `n` rows, and errors and pending polls until it ends. */
  lemma {:induction false} TakeKeepsRows(items: seq<Item>, n: nat)
    ensures Rows(Taken(items, n)) == Rows(items)[..Min(n, |Rows(items)|)]
    ensures Others(Taken(items, n)) <= Others(items)
  {
    if items != [] {
      var rest, out := items[1..], Taken(items, n);
      if !items[0].Ok? {
        TakeKeepsRows(rest, n);
        assert out[1..] == Taken(rest, n);
      } else if n > 0 {
        var block := items[0].block;
        if n >= |block| {
          TakeKeepsRows(rest, n - |block|);
          assert out[1..] == Taken(rest, n - |block|);
        } else {
          TakeKeepsRows(rest, 0);
          assert out[0] == Ok(block[..n]) && out[1..] == Taken(rest, 0);
        }
      }
    }
  }

  /** What comes out at position `i` while the stream goes on: the item, a block cut to the rows that are left. */
  function TakenAt(items: seq<Item>, n: nat, i: nat): Item
    requires i < |items|
  {
    if !items[i].Ok? then items[i]
    else Ok(items[i].block[..Min(n - Min(n, |Rows(items[..i])|), |items[i].block|)])
  }

  /** The stream ends at the first block that comes when all rows are out, or with its input. */
  ghost predicate EndsAt(items: seq<Item>, n: nat, k: nat)
  {
    && k <= |items|
    && (k < |items| ==> items[k].Ok? && |Rows(items[..k])| >= n)
    && (forall i :: 0 <= i < k && items[i].Ok? ==> |Rows(items[..i])| < n)
  }

  /** What is left to take after the first item. */
  function Left(first: Item, n: nat): nat
  {
    if first.Ok? then n - Min(n, |first.block|) else n
  }

  lemma TakenShift(items: seq<Item>, n: nat, i: nat)
    requires i + 1 < |items|
    ensures TakenAt(items, n, i + 1) == TakenAt(items[1..], Left(items[0], n), i)
  {
    RowsShift(items, i);
  }

  lemma RowsShift(items: seq<Item>, i: nat)
    requires i < |items|
    ensures Rows(items[..i + 1]) == (if items[0].Ok? then items[0].block else []) + Rows(items[1..][..i])
  {
    assert items[..i + 1][0] == items[0] && items[..i + 1][1..] == items[1..][..i];
  }

  lemma EndsShift(items: seq<Item>, n: nat, k: nat)
    requires items != [] && (items[0].Ok? ==> n > 0) && EndsAt(items[1..], Left(items[0], n), k)
    ensures EndsAt(items, n, k + 1)
  {
    var rest := items[1..];
    if k < |rest| {
      RowsShift(items, k);
      assert items[k + 1] == rest[k];
    }
    forall i | 0 <= i < k + 1 && items[i].Ok?
      ensures |Rows(items[..i])| < n
    {
      if i > 0 {
        RowsShift(items, i - 1);
        assert rest[i - 1] == items[i];
      } else {
        assert items[..0] == [];
      }
    }
  }

  /**
    Item by item: up to its end a take stream gives every error, every pending poll and every block in its
    place, and nothing after it.
   */
  lemma {:induction false} TakeItemByItem(items: seq<Item>, n: nat)
    ensures EndsAt(items, n, |Taken(items, n)|)
    ensures forall i :: 0 <= i < |Taken(items, n)| ==> Taken(items, n)[i] == TakenAt(items, n, i)
    decreases |items|
  {
    if items != [] && (items[0].Ok? ==> n > 0) {
      var rest, left := items[1..], Left(items[0], n);
      assert Taken(items, n) == [TakenAt(items, n, 0)] + Taken(rest, left) by { TakenFirst(items, n); }
      TakeItemByItem(rest, left);
      EndsShift(items, n, |Taken(rest, left)|);
      forall i | 0 <= i < |Taken(items, n)|
        ensures Taken(items, n)[i] == TakenAt(items, n, i)
      {
        if i > 0 {
          TakenShift(items, n, i - 1);
        }
      }
    } else if items != [] {
      assert items[..0] == [];
    }
  }

  lemma TakenFirst(items: seq<Item>, n: nat)
    requires items != [] && (items[0].Ok? ==> n > 0)
    ensures Taken(items, n) == [TakenAt(items, n, 0)] + Taken(items[1..], Left(items[0], n))
  {
    assert Rows(items[..0]) == [];
    if items[0].Ok? {
      var block := items[0].block;
      if n >= |block| {
        assert TakenAt(items, n, 0) == items[0] by { assert block[..|block|] == block; }
      } else {
        assert TakenAt(items, n, 0) == Ok(block[..n]);
      }
    }
  }

  /** OFFSET then LIMIT: exactly the rows from `offset` to `offset + n`, as far as there are any. */
  lemma SkipThenTake(items: seq<Item>, offset: nat, n: nat)
    ensures var rows := Rows(items);
            Rows(Taken(Skipped(items, offset), n)) == rows[Min(offset, |rows|)..Min(offset + n, |rows|)]
  {
    SkipDropsRows(items, offset);
    TakeKeepsRows(Skipped(items, offset), n);
  }

  // ----- Limit by -----

  function Occurs(rows: Block, key: Key): nat
  {
    if rows == [] then 0
    else Occurs(rows[..|rows| - 1], key) + if rows[|rows| - 1].key == key then 1 else 0
  }

  /** Rows at the set positions, in order. */
  function Filter(rows: Block, mask: seq<bool>): Block
    requires |rows| == |mask|
  {
    if rows == [] then []
    else
      var n := |rows| - 1;
      Filter(rows[..n], mask[..n]) + if mask[n] then [rows[n]] else []
  }

  /** A row of `rows` stays when fewer than `limit` rows of its key come before it, `seen` included. */
  predicate Stays(seen: Block, rows: Block, i: nat, limit: nat)
    requires i < |rows|
  {
    Occurs(seen + rows[..i], rows[i].key) < limit
  }

  function Mask(seen: Block, rows: Block, limit: nat): seq<bool>
  {
    seq(|rows|, i requires 0 <= i < |rows| => Stays(seen, rows, i, limit))
  }

  function Limited(seen: Block, rows: Block, limit: nat): Block
  {
    Filter(rows, Mask(seen, rows, limit))
  }

  lemma {:induction false} OccursAppend(a: Block, b: Block, key: Key)
    ensures Occurs(a + b, key) == Occurs(a, key) + Occurs(b, key)
  {
    if b == [] {
      assert a + b == a;
    } else {
      assert (a + b)[..|a + b| - 1] == a + b[..|b| - 1];
      OccursAppend(a, b[..|b| - 1], key);
    }
  }

  /** Positions of a key, ascending. */
  function Positions(rows: Block, key: Key): seq<nat>
  {
    if rows == [] then []
    else
      var n := |rows| - 1;
      Positions(rows[..n], key) + if rows[n].key == key then [n] else []
  }

  lemma {:induction false} PositionsAreRanks(rows: Block, key: Key)
    ensures |Positions(rows, key)| == Occurs(rows, key)
    ensures forall j :: 0 <= j < |Positions(rows, key)| ==>
              var i := Positions(rows, key)[j]; i < |rows| && rows[i].key == key && Occurs(rows[..i], key) == j
    ensures forall i :: 0 <= i < |rows| && rows[i].key == key ==>
              Occurs(rows[..i], key) < Occurs(rows, key) && Positions(rows, key)[Occurs(rows[..i], key)] == i
  {
    if rows != [] {
      var n := |rows| - 1;
      var front := rows[..n];
      PositionsAreRanks(front, key);
      assert forall i :: 0 <= i < n ==> front[..i] == rows[..i];
    }
  }

  lemma {:induction false} PositionsInRange(rows: Block, key: Key)
    ensures |Positions(rows, key)| == Occurs(rows, key)
    ensures forall j :: 0 <= j < |Positions(rows, key)| ==>
              Positions(rows, key)[j] < |rows| && rows[Positions(rows, key)[j]].key == key
  {
    if rows != [] {
      PositionsInRange(rows[..|rows| - 1], key);
    }
  }

  lemma Present(rows: Block, i: nat)
    requires i < |rows|
    ensures Occurs(rows, rows[i].key) > 0
  {
    var key := rows[i].key;
    assert rows == rows[..i + 1] + rows[i + 1..];
    OccursAppend(rows[..i + 1], rows[i + 1..], key);
    assert Occurs(rows[..i + 1], key) > 0;
  }

  /** The rows of a key that stay are the first ones, as many as the limit leaves room for. */
  lemma RankDecides(seen: Block, rows: Block, key: Key, limit: nat, i: nat)
    requires i < |rows|
    ensures var positions, room := Positions(rows, key), limit - Min(limit, Occurs(seen, key));
            i in positions[..Min(room, |positions|)] <==> rows[i].key == key && Stays(seen, rows, i, limit)
  {
    PositionsAreRanks(rows, key);
    OccursAppend(seen, rows[..i], key);
    var positions, room := Positions(rows, key), limit - Min(limit, Occurs(seen, key));
    var first := positions[..Min(room, |positions|)];
    if rows[i].key == key {
      var rank := Occurs(rows[..i], key);
      assert positions[rank] == i;
      if rank < |first| {
        assert first[rank] == i;
      }
    }
  }

  /** `group_by_get_indices`. */
  method GroupIndices(rows: Block) returns (groups: map<Key, seq<nat>>)
    ensures forall key :: key in groups <==> Occurs(rows, key) > 0
    ensures forall key :: key in groups ==> groups[key] == Positions(rows, key)
  {
    groups := map[];
    for i := 0 to |rows|
      invariant forall key :: key in groups <==> Occurs(rows[..i], key) > 0
      invariant forall key :: key in groups ==> groups[key] == Positions(rows[..i], key)
    {
      var key := rows[i].key;
      assert rows[..i + 1][..i] == rows[..i];
      PositionsAreRanks(rows[..i], key);
      if key !in groups {
        groups := groups[key := [i]];
      } else {
        groups := groups[key := groups[key] + [i]];
      }
    }
    assert rows[..|rows|] == rows;
  }

  class LimitByStream {
    const limit: nat
    var keysCount: map<Key, nat>
    ghost var seen: Block

    /** The counters stop at the limit. */
    ghost predicate Valid()
      reads this
    {
      forall key :: Count(keysCount, key) == Min(limit, Occurs(seen, key))
    }

    constructor (limit: nat)
      ensures this.limit == limit && seen == [] && Valid()
    {
      this.limit, keysCount, seen := limit, map[], [];
    }

    /** `limit_by`: a block in, the rows within the limit out, whatever order the groups come in. */
    method LimitBy(block: Block) returns (kept: Block)
      requires Valid()
      modifies this
      ensures Valid() && seen == old(seen) + block
      ensures kept == Limited(old(seen), block, limit)
    {
      var filter := new bool[|block|](_ => false);
      var groups := GroupIndices(block);
      assert Grouped(block, groups) by {
        forall key | key in groups { PositionsInRange(block, key); }
      }
      FillAll(block, filter, groups);
      forall i | 0 <= i < |block|
        ensures filter[i] == Mask(seen, block, limit)[i]
      {
        Present(block, i);
        RankDecides(seen, block, block[i].key, limit, i);
      }
      assert filter[..] == Mask(seen, block, limit);
      kept := Filter(block, filter[..]);
      forall key
        ensures Count(keysCount, key) == Min(limit, Occurs(seen + block, key))
      {
        CountAdvances(limit, seen, block, old(keysCount), groups, key);
      }
      seen := seen + block;
    }

    /** The loop over the groups: of each group the first rows, as many as the limit leaves room for. */
    method FillAll(block: Block, filter: array<bool>, groups: map<Key, seq<nat>>)
      requires Grouped(block, groups) && filter.Length == |block|
      requires forall i :: 0 <= i < |block| ==> !filter[i]
      requires forall key :: Count(keysCount, key) <= limit
      modifies this`keysCount, filter
      ensures keysCount == old(keysCount) + Advanced(limit, old(keysCount), groups)
      ensures forall i :: 0 <= i < |block| ==>
                filter[i] == (block[i].key in groups && i in First(limit, old(keysCount), groups, block[i].key))
    {
      ghost var counts := keysCount;
      var todo := groups.Keys;
      ghost var done: set<Key> := {};
      while todo != {}
        invariant done + todo == groups.Keys && done !! todo
        invariant keysCount.Keys == counts.Keys + done
        invariant forall key :: key in keysCount ==>
                    keysCount[key] == if key in done then Advanced(limit, counts, groups)[key] else counts[key]
        invariant forall i :: 0 <= i < |block| ==>
                    filter[i] == (block[i].key in done && i in First(limit, counts, groups, block[i].key))
      {
        var key :| key in todo;
        var count, rows := Count(keysCount, key), groups[key];
        if count < limit {
          count := Fill(filter, rows, count, limit);
        }
        keysCount := keysCount[key := count];
        todo, done := todo - {key}, done + {key};
      }
    }
  }

  /** Each group holds rows of its own key. */
  predicate Grouped(block: Block, groups: map<Key, seq<nat>>)
  {
    forall key, j :: key in groups && 0 <= j < |groups[key]| ==>
      groups[key][j] < |block| && block[groups[key][j]].key == key
  }

  function First(limit: nat, counts: map<Key, nat>, groups: map<Key, seq<nat>>, key: Key): seq<nat>
    requires key in groups
  {
    groups[key][..Min(limit - Min(limit, Count(counts, key)), |groups[key]|)]
  }

  function Advanced(limit: nat, counts: map<Key, nat>, groups: map<Key, seq<nat>>): map<Key, nat>
  {
    map key | key in groups :: Min(limit, Count(counts, key) + |groups[key]|)
  }

  lemma CountAdvances(limit: nat, seen: Block, block: Block, counts: map<Key, nat>, groups: map<Key, seq<nat>>,
                      key: Key)
    requires Count(counts, key) == Min(limit, Occurs(seen, key))
    requires key in groups <==> Occurs(block, key) > 0
    requires key in groups ==> groups[key] == Positions(block, key)
    ensures Count(counts + Advanced(limit, counts, groups), key) == Min(limit, Occurs(seen + block, key))
  {
    OccursAppend(seen, block, key);
    PositionsInRange(block, key);
  }

  function Count(counts: map<Key, nat>, key: Key): nat
  {
    if key in counts then counts[key] else 0
  }

  /** The rows of one group that still fit. */
  method Fill(filter: array<bool>, rows: seq<nat>, start: nat, limit: nat) returns (count: nat)
    requires start < limit
    requires forall j :: 0 <= j < |rows| ==> rows[j] < filter.Length
    modifies filter
    ensures count == Min(limit, start + |rows|)
    ensures forall i :: 0 <= i < filter.Length ==>
              filter[i] == (old(filter[i]) || i in rows[..Min(limit - start, |rows|)])
  {
    count := start;
    var n := Min(limit - start, |rows|);
    for j := 0 to n
      invariant count == start + j
      invariant forall i :: 0 <= i < filter.Length ==> filter[i] == (old(filter[i]) || i in rows[..j])
    {
      assert rows[..j + 1] == rows[..j] + [rows[j]];
      filter[rows[j]] := count <= limit;
      count := count + 1;
    }
  }

  // ----- Every split of the rows into blocks -----

  function Concat(blocks: seq<Block>): Block
  {
    if blocks == [] then [] else blocks[0] + Concat(blocks[1..])
  }

  /** What a limit-by stream gives for a run of blocks. */
  function LimitedBlocks(seen: Block, blocks: seq<Block>, limit: nat): seq<Block>
    decreases |blocks|
  {
    if blocks == [] then []
    else [Limited(seen, blocks[0], limit)] + LimitedBlocks(seen + blocks[0], blocks[1..], limit)
  }

  lemma {:induction false} FilterAppend(a: Block, b: Block, maskA: seq<bool>, maskB: seq<bool>)
    requires |a| == |maskA| && |b| == |maskB|
    ensures Filter(a + b, maskA + maskB) == Filter(a, maskA) + Filter(b, maskB)
  {
    if b == [] {
      assert a + b == a && maskA + maskB == maskA;
    } else {
      var n := |b| - 1;
      assert (a + b)[..|a| + n] == a + b[..n] && (maskA + maskB)[..|a| + n] == maskA + maskB[..n];
      FilterAppend(a, b[..n], maskA, maskB[..n]);
    }
  }

  lemma LimitedAppend(seen: Block, a: Block, b: Block, limit: nat)
    ensures Limited(seen, a + b, limit) == Limited(seen, a, limit) + Limited(seen + a, b, limit)
  {
    var all, maskA, maskB := Mask(seen, a + b, limit), Mask(seen, a, limit), Mask(seen + a, b, limit);
    forall i | 0 <= i < |a + b|
      ensures all[i] == (maskA + maskB)[i]
    {
      if i < |a| {
        assert (a + b)[..i] == a[..i];
      } else {
        assert seen + (a + b)[..i] == seen + a + b[..i - |a|];
      }
    }
    assert all == maskA + maskB;
    FilterAppend(a, b, maskA, maskB);
  }

  /**
    Whatever the split into blocks, the rows that come out are those with fewer than `limit` earlier rows of
    their key.
   */
  lemma {:induction false} SplitIsIrrelevant(seen: Block, blocks: seq<Block>, limit: nat)
    ensures Concat(LimitedBlocks(seen, blocks, limit)) == Limited(seen, Concat(blocks), limit)
    decreases |blocks|
  {
    if blocks != [] {
      SplitIsIrrelevant(seen + blocks[0], blocks[1..], limit);
      LimitedAppend(seen, blocks[0], Concat(blocks[1..]), limit);
      var out := LimitedBlocks(seen, blocks, limit);
      assert out[1..] == LimitedBlocks(seen + blocks[0], blocks[1..], limit);
    }
  }

  lemma LimitedOne(seen: Block, row: Row, limit: nat)
    ensures Limited(seen, [row], limit) == if Occurs(seen, row.key) < limit then [row] else []
  {
    assert seen + [row][..0] == seen;
    assert Filter([row][..0], Mask(seen, [row], limit)[..0]) == [];
  }

  ghost predicate Tight(seen: Block, rows: Block, limit: nat, key: Key)
  {
    Occurs(Limited(seen, rows, limit), key)
    == Min(limit, Occurs(seen, key) + Occurs(rows, key)) - Min(limit, Occurs(seen, key))
  }

  lemma TightMore(seen: Block, front: Block, row: Row, limit: nat, key: Key)
    requires Tight(seen, front, limit, key)
    ensures Tight(seen, front + [row], limit, key)
  {
    LimitedAppend(seen, front, [row], limit);
    OccursAppend(seen, front, key);
    OccursAppend(front, [row], key);
    LimitedOne(seen + front, row, limit);
    OccursAppend(Limited(seen, front, limit), Limited(seen + front, [row], limit), key);
    assert Occurs([row], key) == if row.key == key then 1 else 0 by { assert [row][..0] == []; }
  }

  /** No key comes out more than `limit` times, and a key comes out as often as the limit allows. */
  lemma {:induction false} LimitIsTight(seen: Block, rows: Block, limit: nat, key: Key)
    ensures Occurs(Limited(seen, rows, limit), key)
            == Min(limit, Occurs(seen, key) + Occurs(rows, key)) - Min(limit, Occurs(seen, key))
  {
    if rows != [] {
      var n := |rows| - 1;
      LimitIsTight(seen, rows[..n], limit, key);
      TightMore(seen, rows[..n], rows[n], limit, key);
      assert rows == rows[..n] + [rows[n]];
    }
  }
}
