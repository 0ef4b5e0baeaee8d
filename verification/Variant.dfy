/** The order on JSON variants, `VariantValue::cmp` (common/datavalues/src/variant_value.rs). */
module Variant {
  import opened Strings
  import opened Wrappers

  type U64 = n: int | 0 <= n < 0x1_0000_0000_0000_0000

  type NegI64 = n: int | -0x8000_0000_0000_0000 <= n < 0 witness -1

  /** A JSON number as parsed: a floating-point number stands for the real it denotes. */
  datatype Num = PosInt(u: U64) | NegInt(i: NegI64) | Float(x: real)

  /** An object lists its members in the order in which the map yields them. */
  datatype Value =
    | Null
    | Arr(items: seq<Value>)
    | Obj(members: seq<Member>)
    | Str(s: string)
    | Number(n: Num)
    | Bool(b: bool)

  datatype Member = Member(key: string, value: Value)

  datatype Ordering = Less | Equal | Greater

  function Flip(o: Ordering): Ordering
  {
    match o
    case Less => Greater
    case Equal => Equal
    case Greater => Less
  }

  function CmpInt(a: int, b: int): Ordering
  {
    if a < b then Less else if a == b then Equal else Greater
  }

  function CmpReal(a: real, b: real): Ordering
  {
    if a > b then Greater else if a < b then Less else Equal
  }

  function CmpString(a: string, b: string): Ordering
  {
    if Strings.Less(a, b) then Less else if a == b then Equal else Greater
  }

  // ----- Numbers -----

  /** Conversion of an integer to the nearest floating-point number. */
  type Rounding = int -> real

  predicate IsU64(n: Num)
  {
    n.PosInt?
  }

  predicate IsI64(n: Num)
  {
    n.NegInt? || (n.PosInt? && n.u <= 0x7fff_ffff_ffff_ffff)
  }

  function IntOf(n: Num): int
    requires !n.Float?
  {
    if n.PosInt? then n.u else n.i
  }

  function AsFloat(round: Rounding, n: Num): real
  {
    if n.Float? then n.x else round(IntOf(n))
  }

  function CmpNum(round: Rounding, a: Num, b: Num): Ordering
  {
    if a.Float? || b.Float? then CmpReal(AsFloat(round, a), AsFloat(round, b))
    else if IsU64(a) && IsU64(b) then CmpInt(a.u, b.u)
    else if IsI64(a) && IsI64(b) then CmpInt(IntOf(a), IntOf(b))
    else if IsU64(a) && IsI64(b) then
      if IntOf(b) < 0 || a.u > 0x7fff_ffff_ffff_ffff then Greater else CmpInt(a.u, IntOf(b))
    else if IsI64(a) && IsU64(b) then
      if IntOf(a) < 0 || b.u > 0x7fff_ffff_ffff_ffff then Less else CmpInt(IntOf(a), b.u)
    else Equal
  }

  // ----- Equality of values, which does not see the order of members -----

  function Find(members: seq<Member>, key: string): Option<Value>
    ensures Find(members, key).Some? ==>
              exists i :: 0 <= i < |members| && members[i] == Member(key, Find(members, key).value)
  {
    if members == [] then None
    else if members[0].key == key then Some(members[0].value)
    else Find(members[1..], key)
  }

  predicate Eq(v: Value, w: Value)
    decreases v
  {
    match (v, w)
    case (Arr(a), Arr(b)) => |a| == |b| && forall i :: 0 <= i < |a| ==> Eq(a[i], b[i])
    case (Obj(a), Obj(b)) =>
      |a| == |b| && forall i :: 0 <= i < |a| ==>
        var found := Find(b, a[i].key); found.Some? && Eq(a[i].value, found.value)
    case (Arr(_), _) => false
    case (Obj(_), _) => false
    case _ => v == w
  }

  // ----- The order -----

  function Level(v: Value): nat
  {
    match v
    case Null => 0
    case Arr(_) => 1
    case Obj(_) => 2
    case Str(_) => 3
    case Number(_) => 4
    case Bool(_) => 5
  }

  function Cmp(round: Rounding, v: Value, w: Value): Ordering
    decreases v, 0
  {
    if Level(v) != Level(w) then Flip(CmpInt(Level(v), Level(w)))
    else
      match v
      case Null => Equal
      case Arr(a) => CmpItems(round, a, w.items)
      case Obj(o) => CmpMembers(round, o, w.members)
      case Str(s) => CmpString(s, w.s)
      case Number(n) => CmpNum(round, n, w.n)
      case Bool(b) => if b && !w.b then Greater else if !b && w.b then Less else Equal
  }

  function CmpItems(round: Rounding, a: seq<Value>, b: seq<Value>): Ordering
    decreases a, 1
  {
    if a == [] || b == [] then CmpInt(|a|, |b|)
    else if !Eq(a[0], b[0]) then Cmp(round, a[0], b[0])
    else CmpItems(round, a[1..], b[1..])
  }

  /** A map has no key twice, so the value found under a key is the one at its position. */
  function CmpMembers(round: Rounding, a: seq<Member>, b: seq<Member>): Ordering
    decreases a, 1
  {
    if a == [] || b == [] then CmpInt(|a|, |b|)
    else if a[0].key == b[0].key then
      var res := Cmp(round, a[0].value, b[0].value);
      if res == Equal then CmpMembers(round, a[1..], b[1..]) else res
    else Flip(CmpString(a[0].key, b[0].key))
  }

  // ----- Which values are ordered -----

  /** A choice of the numbers and of the orders of keys that may occur. */
  datatype Universe = Universe(numbers: Num -> bool, keys: seq<string> -> bool)

  function Keys(members: seq<Member>): seq<string>
  {
    seq(|members|, i requires 0 <= i < |members| => members[i].key)
  }

  predicate Distinct(keys: seq<string>)
  {
    forall i, j :: 0 <= i < j < |keys| ==> keys[i] != keys[j]
  }

  /** The values over a universe, at every depth. A map has no key twice. */
  ghost predicate In(v: Value, u: Universe)
    decreases v
  {
    match v
    case Number(n) => u.numbers(n)
    case Arr(items) => forall i :: 0 <= i < |items| ==> In(items[i], u)
    case Obj(members) =>
      && u.keys(Keys(members)) && Distinct(Keys(members))
      && forall i :: 0 <= i < |members| ==> In(members[i].value, u)
    case _ => true
  }

  ghost predicate Monotone(round: Rounding)
  {
    forall m: int, n: int :: m <= n ==> round(m) <= round(n)
  }

  /** No floating-point number is what an integer rounds to. */
  ghost predicate NumbersApart(round: Rounding, u: Universe)
  {
    forall n: Num, x: Num :: u.numbers(n) && u.numbers(x) && !n.Float? && x.Float? ==> round(IntOf(n)) != x.x
  }

  /** The same keys come in the same order. */
  ghost predicate KeysInOneOrder(u: Universe)
  {
    forall a: seq<string>, b: seq<string> ::
      u.keys(a) && u.keys(b) && Distinct(a) && Distinct(b) && |a| == |b| && (forall k :: k in a ==> k in b) ==> a == b
  }

  ghost predicate Clear(round: Rounding, u: Universe)
  {
    NumbersApart(round, u) && KeysInOneOrder(u)
  }

  // ----- Equality is identity -----

  lemma {:induction false} FindAt(members: seq<Member>, i: nat)
    requires Distinct(Keys(members)) && i < |members|
    ensures Find(members, members[i].key) == Some(members[i].value)
  {
    if i > 0 {
      var rest := members[1..];
      assert Keys(members)[0] != Keys(members)[i];
      assert Keys(rest) == Keys(members)[1..];
      FindAt(rest, i - 1);
    }
  }

  lemma {:induction false} EqIsIdentity(round: Rounding, u: Universe, v: Value, w: Value)
    requires Clear(round, u) && In(v, u) && In(w, u)
    ensures Eq(v, w) <==> v == w
    decreases v
  {
    if v.Arr? && w.Arr? {
      forall i | 0 <= i < |v.items| && i < |w.items|
        ensures Eq(v.items[i], w.items[i]) <==> v.items[i] == w.items[i]
      {
        EqIsIdentity(round, u, v.items[i], w.items[i]);
      }
    } else if v.Obj? && w.Obj? {
      EqMembersIsIdentity(round, u, v, w);
    }
  }

  lemma {:induction false} FoundIsKey(members: seq<Member>, key: string)
    requires Find(members, key).Some?
    ensures key in Keys(members)
  {
    var i :| 0 <= i < |members| && members[i].key == key;
    assert Keys(members)[i] == key;
  }

  lemma EqHasSameKeys(u: Universe, v: Value, w: Value)
    requires KeysInOneOrder(u) && In(v, u) && In(w, u) && v.Obj? && w.Obj? && Eq(v, w)
    ensures Keys(v.members) == Keys(w.members)
  {
    var a, b := Keys(v.members), Keys(w.members);
    forall i | 0 <= i < |a|
      ensures a[i] in b
    {
      FoundIsKey(w.members, v.members[i].key);
    }
    assert |a| == |b|;
  }

  lemma EqMembersIsIdentity(round: Rounding, u: Universe, v: Value, w: Value)
    requires Clear(round, u) && In(v, u) && In(w, u) && v.Obj? && w.Obj?
    ensures Eq(v, w) <==> v == w
    decreases v, 0
  {
    var a, b := v.members, w.members;
    if Eq(v, w) {
      EqHasSameKeys(u, v, w);
    }
    if Keys(a) == Keys(b) {
      assert |a| == |Keys(a)| == |b|;
      forall i | 0 <= i < |a|
        ensures Find(b, a[i].key) == Some(b[i].value)
        ensures Eq(a[i].value, b[i].value) <==> a[i].value == b[i].value
        ensures a[i].key == b[i].key
      {
        assert a[i].key == Keys(a)[i] == Keys(b)[i] == b[i].key;
        FindAt(b, i);
        EqIsIdentity(round, u, a[i].value, b[i].value);
      }
      if Eq(v, w) {
        assert forall i :: 0 <= i < |a| ==> a[i] == b[i];
      }
    }
  }

  // ----- Numbers and strings -----

  lemma NumLaws(round: Rounding, u: Universe, a: Num, b: Num, c: Num)
    requires Monotone(round) && NumbersApart(round, u)
    requires u.numbers(a) && u.numbers(b) && u.numbers(c)
    ensures CmpNum(round, a, b) == Equal <==> a == b
    ensures CmpNum(round, a, b) == Flip(CmpNum(round, b, a))
    ensures CmpNum(round, a, b) == Less && CmpNum(round, b, c) == Less ==> CmpNum(round, a, c) == Less
  {
  }

  lemma StringLaws(a: string, b: string, c: string)
    ensures CmpString(a, b) == Equal <==> a == b
    ensures CmpString(a, b) == Flip(CmpString(b, a))
    ensures CmpString(a, b) == Less && CmpString(b, c) == Less ==> CmpString(a, c) == Less
  {
    LessAntisymmetric(a, b);
    LessAntisymmetric(a, a);
    LessAntisymmetric(b, c);
    if Strings.Less(a, b) && Strings.Less(b, c) {
      LessTransitive(a, b, c);
    }
  }

  // ----- The order laws, by recursion over the values -----

  lemma HeadAndTail<T>(a: seq<T>, b: seq<T>)
    requires a != [] && b != []
    ensures a == b <==> a[0] == b[0] && a[1..] == b[1..]
  {
    assert a == [a[0]] + a[1..] && b == [b[0]] + b[1..];
  }

  ghost predicate AllIn(items: seq<Value>, u: Universe)
  {
    forall i :: 0 <= i < |items| ==> In(items[i], u)
  }

  lemma {:induction false} ItemsEqualIff(round: Rounding, u: Universe, a: seq<Value>, b: seq<Value>)
    requires Monotone(round) && Clear(round, u) && AllIn(a, u) && AllIn(b, u)
    ensures CmpItems(round, a, b) == Equal <==> a == b
    ensures CmpItems(round, a, b) == Flip(CmpItems(round, b, a))
    decreases a, 1
  {
    if a != [] && b != [] {
      EqIsIdentity(round, u, a[0], b[0]);
      EqIsIdentity(round, u, b[0], a[0]);
      EqualIff(round, u, a[0], b[0]);
      HeadAndTail(a, b);
      if a[0] == b[0] {
        ItemsEqualIff(round, u, a[1..], b[1..]);
      }
    }
  }

  lemma {:induction false} MembersEqualIff(round: Rounding, u: Universe, a: seq<Member>, b: seq<Member>)
    requires Monotone(round) && Clear(round, u)
    requires (forall i :: 0 <= i < |a| ==> In(a[i].value, u)) && (forall i :: 0 <= i < |b| ==> In(b[i].value, u))
    ensures CmpMembers(round, a, b) == Equal <==> a == b
    ensures CmpMembers(round, a, b) == Flip(CmpMembers(round, b, a))
    decreases a, 1
  {
    if a != [] && b != [] {
      StringLaws(a[0].key, b[0].key, "");
      EqualIff(round, u, a[0].value, b[0].value);
      HeadAndTail(a, b);
      if a[0] == b[0] {
        MembersEqualIff(round, u, a[1..], b[1..]);
      }
    }
  }

  lemma {:induction false} EqualIff(round: Rounding, u: Universe, v: Value, w: Value)
    requires Monotone(round) && Clear(round, u) && In(v, u) && In(w, u)
    ensures Cmp(round, v, w) == Equal <==> v == w
    ensures Cmp(round, v, w) == Flip(Cmp(round, w, v))
    decreases v, 0
  {
    if Level(v) == Level(w) {
      if v.Arr? {
        ItemsEqualIff(round, u, v.items, w.items);
      } else if v.Obj? {
        MembersEqualIff(round, u, v.members, w.members);
      } else if v.Str? {
        StringLaws(v.s, w.s, "");
      } else if v.Number? {
        NumLaws(round, u, v.n, w.n, w.n);
      }
    }
  }

  lemma {:induction false} ItemsTransitive(round: Rounding, u: Universe, a: seq<Value>, b: seq<Value>, c: seq<Value>)
    requires Monotone(round) && Clear(round, u) && AllIn(a, u) && AllIn(b, u) && AllIn(c, u)
    requires CmpItems(round, a, b) == Less && CmpItems(round, b, c) == Less
    ensures CmpItems(round, a, c) == Less
    decreases a, 1
  {
    if a != [] {
      EqIsIdentity(round, u, a[0], b[0]);
      EqIsIdentity(round, u, b[0], c[0]);
      EqIsIdentity(round, u, a[0], c[0]);
      if a[0] == b[0] && b[0] == c[0] {
        ItemsTransitive(round, u, a[1..], b[1..], c[1..]);
      } else if a[0] != b[0] && b[0] != c[0] {
        Transitive(round, u, a[0], b[0], c[0]);
        EqualIff(round, u, a[0], c[0]);
      }
    }
  }

  lemma {:induction false} MembersTransitive(round: Rounding, u: Universe, a: seq<Member>, b: seq<Member>,
                                             c: seq<Member>)
    requires Monotone(round) && Clear(round, u)
    requires (forall i :: 0 <= i < |a| ==> In(a[i].value, u)) && (forall i :: 0 <= i < |b| ==> In(b[i].value, u))
    requires forall i :: 0 <= i < |c| ==> In(c[i].value, u)
    requires CmpMembers(round, a, b) == Less && CmpMembers(round, b, c) == Less
    ensures CmpMembers(round, a, c) == Less
    decreases a, 1
  {
    if a != [] {
      var k, l, m := a[0].key, b[0].key, c[0].key;
      StringLaws(l, k, m);
      StringLaws(m, l, k);
      StringLaws(k, m, l);
      if k == l && l == m {
        EqualIff(round, u, a[0].value, b[0].value);
        EqualIff(round, u, b[0].value, c[0].value);
        if a[0].value == b[0].value && b[0].value == c[0].value {
          MembersTransitive(round, u, a[1..], b[1..], c[1..]);
        } else if a[0].value != b[0].value && b[0].value != c[0].value {
          Transitive(round, u, a[0].value, b[0].value, c[0].value);
        }
      }
    }
  }

  lemma {:induction false} Transitive(round: Rounding, u: Universe, v: Value, w: Value, x: Value)
    requires Monotone(round) && Clear(round, u) && In(v, u) && In(w, u) && In(x, u)
    requires Cmp(round, v, w) == Less && Cmp(round, w, x) == Less
    ensures Cmp(round, v, x) == Less
    decreases v, 0
  {
    if Level(v) == Level(w) == Level(x) {
      if v.Arr? {
        ItemsTransitive(round, u, v.items, w.items, x.items);
      } else if v.Obj? {
        MembersTransitive(round, u, v.members, w.members, x.members);
      } else if v.Str? {
        StringLaws(v.s, w.s, x.s);
      } else if v.Number? {
        NumLaws(round, u, v.n, w.n, x.n);
      }
    }
  }

  // ----- When it is a total order -----

  /** Equal exactly for equal values, antisymmetric, transitive. */
  ghost predicate TotalOrder(round: Rounding, u: Universe)
  {
    && (forall v, w :: In(v, u) && In(w, u) ==>
          && (Cmp(round, v, w) == Equal <==> Eq(v, w))
          && Cmp(round, v, w) == Flip(Cmp(round, w, v)))
    && (forall v, w, x :: In(v, u) && In(w, u) && In(x, u) ==>
          (Cmp(round, v, w) != Greater && Cmp(round, w, x) != Greater ==> Cmp(round, v, x) != Greater))
  }

  lemma ClearIsTotalOrder(round: Rounding, u: Universe)
    requires Monotone(round) && Clear(round, u)
    ensures TotalOrder(round, u)
  {
    forall v, w | In(v, u) && In(w, u)
      ensures Cmp(round, v, w) == Equal <==> Eq(v, w)
      ensures Cmp(round, v, w) == Flip(Cmp(round, w, v))
    {
      EqIsIdentity(round, u, v, w);
      EqualIff(round, u, v, w);
    }
    forall v, w, x | In(v, u) && In(w, u) && In(x, u) && Cmp(round, v, w) != Greater && Cmp(round, w, x) != Greater
      ensures Cmp(round, v, x) != Greater
    {
      EqualIff(round, u, v, w);
      EqualIff(round, u, w, x);
      if Cmp(round, v, w) == Less && Cmp(round, w, x) == Less {
        Transitive(round, u, v, w, x);
      }
    }
  }

  /** Members that compare equal have the same keys in the same order. */
  lemma {:induction false} EqualHasSameKeys(round: Rounding, a: seq<Member>, b: seq<Member>)
    requires CmpMembers(round, a, b) == Equal
    ensures Keys(a) == Keys(b)
  {
    if a != [] {
      EqualHasSameKeys(round, a[1..], b[1..]);
      StringLaws(a[0].key, b[0].key, "");
      assert Keys(a) == [a[0].key] + Keys(a[1..]) && Keys(b) == [b[0].key] + Keys(b[1..]);
    }
  }

  /** An object with the given keys, all null. */
  function Nulls(keys: seq<string>): seq<Member>
  {
    seq(|keys|, i requires 0 <= i < |keys| => Member(keys[i], Null))
  }

  lemma NullsWithSameKeys(round: Rounding, a: seq<string>, b: seq<string>)
    requires Distinct(b) && |a| == |b| && (forall k :: k in a ==> k in b)
    ensures Eq(Obj(Nulls(a)), Obj(Nulls(b)))
    ensures Cmp(round, Obj(Nulls(a)), Obj(Nulls(b))) == Equal ==> a == b
  {
    var o, p := Nulls(a), Nulls(b);
    assert Keys(o) == a && Keys(p) == b;
    forall i | 0 <= i < |o|
      ensures Find(p, o[i].key) == Some(Null)
    {
      assert a[i] in b;
      var j :| 0 <= j < |b| && b[j] == a[i];
      FindAt(p, j);
    }
    if CmpMembers(round, o, p) == Equal {
      EqualHasSameKeys(round, o, p);
    }
  }

  lemma TotalOrderIsClear(round: Rounding, u: Universe)
    requires TotalOrder(round, u)
    ensures Clear(round, u)
  {
    forall n: Num, x: Num | u.numbers(n) && u.numbers(x) && !n.Float? && x.Float?
      ensures round(IntOf(n)) != x.x
    {
      assert In(Number(n), u) && In(Number(x), u);
      assert !Eq(Number(n), Number(x));
    }
    forall a: seq<string>, b: seq<string> |
      u.keys(a) && u.keys(b) && Distinct(a) && Distinct(b) && |a| == |b| && (forall k :: k in a ==> k in b)
      ensures a == b
    {
      NullsWithSameKeys(round, a, b);
      assert Keys(Nulls(a)) == a && Keys(Nulls(b)) == b;
      assert In(Obj(Nulls(a)), u) && In(Obj(Nulls(b)), u);
    }
  }

  /**
    The comparison is a total order on all values over a universe, at every depth, exactly when no
    floating-point number of the universe is what an integer of it rounds to and no two orders of the same
    keys occur.
   */
  lemma TotalOrderIff(round: Rounding, u: Universe)
    requires Monotone(round)
    ensures TotalOrder(round, u) <==> Clear(round, u)
  {
    if Clear(round, u) {
      ClearIsTotalOrder(round, u);
    }
    if TotalOrder(round, u) {
      TotalOrderIsClear(round, u);
    }
  }

  // ----- Sorted keys and no floats -----

  predicate Sorted(keys: seq<string>)
  {
    forall i, j :: 0 <= i < j < |keys| ==> Strings.Less(keys[i], keys[j])
  }

  lemma {:induction false} NotBefore(a: seq<string>, b: seq<string>, i: nat, p: nat)
    requires Sorted(a) && Sorted(b) && (forall k :: k in a ==> k in b)
    requires i < |a| && p < |b| && b[p] == a[i]
    ensures i <= p
  {
    if i > 0 {
      assert a[i - 1] in b;
      var q :| 0 <= q < |b| && b[q] == a[i - 1];
      NotBefore(a, b, i - 1, q);
      LessAntisymmetric(b[p], b[q]);
    }
  }

  lemma {:induction false} NotAfter(a: seq<string>, b: seq<string>, i: nat, p: nat)
    requires Sorted(a) && Sorted(b) && (forall k :: k in a ==> k in b) && |a| == |b|
    requires i < |a| && p < |b| && b[p] == a[i]
    ensures p <= i
    decreases |a| - i
  {
    if i + 1 < |a| {
      assert a[i + 1] in b;
      var q :| 0 <= q < |b| && b[q] == a[i + 1];
      NotAfter(a, b, i + 1, q);
      LessAntisymmetric(b[p], b[q]);
    }
  }

  lemma SortedInOneOrder(a: seq<string>, b: seq<string>)
    requires Sorted(a) && Sorted(b) && |a| == |b| && (forall k :: k in a ==> k in b)
    ensures a == b
  {
    forall i | 0 <= i < |a|
      ensures a[i] == b[i]
    {
      assert a[i] in b;
      var p :| 0 <= p < |b| && b[p] == a[i];
      NotBefore(a, b, i, p);
      NotAfter(a, b, i, p);
    }
  }

  const SORTED_FLOAT_FREE := Universe((n: Num) => !n.Float?, (keys: seq<string>) => Sorted(keys))

  /** Float-free values with sorted keys are totally ordered, and only identical ones are equal. */
  lemma SortedFloatFreeIsTotalOrder(round: Rounding)
    requires Monotone(round)
    ensures TotalOrder(round, SORTED_FLOAT_FREE)
    ensures forall v, w :: In(v, SORTED_FLOAT_FREE) && In(w, SORTED_FLOAT_FREE) ==>
              (Cmp(round, v, w) == Equal <==> v == w)
  {
    var u := SORTED_FLOAT_FREE;
    forall a: seq<string>, b: seq<string> |
      u.keys(a) && u.keys(b) && |a| == |b| && (forall k :: k in a ==> k in b)
      ensures a == b
    {
      SortedInOneOrder(a, b);
    }
    assert Clear(round, u);
    TotalOrderIff(round, u);
    forall v, w | In(v, u) && In(w, u)
      ensures Cmp(round, v, w) == Equal <==> v == w
    {
      EqualIff(round, u, v, w);
    }
  }

  // ----- What goes wrong otherwise -----

  /** An integer and the float it rounds to, inside arrays: equal to both, though the two differ. */
  lemma FloatBreaksTransitivity(round: Rounding, n: U64)
    ensures var int', float := Number(PosInt(n)), Number(Float(round(n)));
            var v, w, x := Arr([int', Bool(false)]), Arr([float]), Arr([int', Bool(true)]);
            && Cmp(round, v, w) == Equal && Cmp(round, w, x) == Equal && Cmp(round, v, x) == Less
  {
    var int', float := Number(PosInt(n)), Number(Float(round(n)));
    var a, c := [int', Bool(false)], [int', Bool(true)];
    assert CmpItems(round, a, [float]) == Cmp(round, int', float);
    assert CmpItems(round, [float], c) == Cmp(round, float, int');
    assert a[1..] == [Bool(false)] && c[1..] == [Bool(true)];
    assert CmpItems(round, a[1..], c[1..]) == Cmp(round, Bool(false), Bool(true));
  }

  /** Two objects with the same members in different orders are equal inside an array and not by themselves. */
  lemma MemberOrderMatters(round: Rounding)
    ensures var v, w := Obj(Nulls(["a", "b"])), Obj(Nulls(["b", "a"]));
            Cmp(round, Arr([v]), Arr([w])) == Equal && Cmp(round, v, w) == Greater
  {
    var a, b := ["a", "b"], ["b", "a"];
    var v, w := Obj(Nulls(a)), Obj(Nulls(b));
    assert a[0] == "a" && b[0] == "b" && "a"[0] == 'a' && "b"[0] == 'b';
    assert forall k :: k in a ==> k in b;
    NullsWithSameKeys(round, a, b);
    assert CmpItems(round, [v], [w]) == CmpItems(round, [v][1..], [w][1..]);
    assert Strings.Less("a", "b");
  }
}
