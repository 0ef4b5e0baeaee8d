/**
  What the order on JSON variants puts first, for all values
  (common/datavalues/src/variant_value.rs:74-193).
 */
module VariantOrder {
  import Strings
  import V = Variant

  /** Kinds from the least to the greatest. */
  function Rank(v: V.Value): nat
  {
    match v
    case Bool(_) => 0
    case Number(_) => 1
    case Str(_) => 2
    case Obj(_) => 3
    case Arr(_) => 4
    case Null => 5
  }

  /** `a` agrees with `b` up to `k`, and there `a` ends or has the smaller character. */
  predicate EarlierAt(a: string, b: string, k: nat)
  {
    k <= |a| && k < |b| && a[..k] == b[..k] && (k == |a| || a[k] < b[k])
  }

  ghost predicate Earlier(a: string, b: string)
  {
    exists k :: EarlierAt(a, b, k)
  }

  /** Integers by size; two numbers of which one is a float by the reals they are rounded to. */
  predicate Smaller(round: V.Rounding, a: V.Num, b: V.Num)
  {
    if a.Float? || b.Float? then RealOf(round, a) < RealOf(round, b) else Integer(a) < Integer(b)
  }

  function Integer(n: V.Num): int
    requires !n.Float?
  {
    match n case PosInt(u) => u case NegInt(i) => i
  }

  function RealOf(round: V.Rounding, n: V.Num): real
  {
    match n case Float(x) => x case _ => round(Integer(n))
  }

  /** Which way a comparison is to come out: the first value below the second, or above it. */
  datatype Side = Below | Above

  /** `v` is on that side of `w`. */
  ghost predicate Lies(round: V.Rounding, side: Side, v: V.Value, w: V.Value)
    decreases v, 1
  {
    if Rank(v) != Rank(w) then if side.Below? then Rank(v) < Rank(w) else Rank(w) < Rank(v)
    else
      match v
      case Null => false
      case Bool(b) => if side.Below? then !b && w.b else b && !w.b
      case Number(n) => if side.Below? then Smaller(round, n, w.n) else Smaller(round, w.n, n)
      case Str(s) => if side.Below? then Earlier(s, w.s) else Earlier(w.s, s)
      case Arr(a) => ItemsLie(round, side, a, w.items)
      case Obj(o) => MembersLie(round, side, o, w.members)
  }

  /** One list ends at `k` while the other goes on; the shorter is below. */
  predicate EndsAt(side: Side, n: nat, m: nat, k: nat)
  {
    if side.Below? then k == n < m else k == m < n
  }

  /** A position of both lists, or the end of one of them. */
  predicate Within(n: nat, m: nat, k: nat)
  {
    k <= n && k <= m
  }

  /** At the first position whose items are not equal, the items lie on the side, or one array ends. */
  ghost predicate ItemsLie(round: V.Rounding, side: Side, a: seq<V.Value>, b: seq<V.Value>)
    decreases a, 0
  {
    exists k: nat ::
      && Within(|a|, |b|, k)
      && (forall j :: 0 <= j < k ==> V.Eq(a[j], b[j]))
      && (EndsAt(side, |a|, |b|, k) || (k < |a| && k < |b| && !V.Eq(a[k], b[k]) && Lies(round, side, a[k], b[k])))
  }

  /** Same key, and neither value lies below or above the other. */
  ghost predicate Tied(round: V.Rounding, x: V.Member, y: V.Member)
    decreases x, 2
  {
    x.key == y.key && !Lies(round, Below, x.value, y.value) && !Lies(round, Above, x.value, y.value)
  }

  /** A later key comes first; under one key, the values decide. */
  ghost predicate MemberLies(round: V.Rounding, side: Side, x: V.Member, y: V.Member)
    decreases x, 2
  {
    if x.key == y.key then Lies(round, side, x.value, y.value)
    else if side.Below? then Earlier(y.key, x.key) else Earlier(x.key, y.key)
  }

  /** At the first position whose members are not tied, the members lie on the side, or one object ends. */
  ghost predicate MembersLie(round: V.Rounding, side: Side, a: seq<V.Member>, b: seq<V.Member>)
    decreases a, 0
  {
    exists k: nat ::
      && Within(|a|, |b|, k)
      && (forall j :: 0 <= j < k ==> Tied(round, a[j], b[j]))
      && (EndsAt(side, |a|, |b|, k) || (k < |a| && k < |b| && MemberLies(round, side, a[k], b[k])))
  }

  // ----- The comparison comes out accordingly -----

  lemma {:induction false} EarlierIff(a: string, b: string)
    ensures Strings.Less(a, b) <==> Earlier(a, b)
    decreases |a|
  {
    if a == "" {
      if b != "" {
        assert EarlierAt(a, b, 0);
      }
    } else if b != "" {
      if a[0] != b[0] {
        assert a[0] < b[0] ==> EarlierAt(a, b, 0);
        forall k: nat | EarlierAt(a, b, k) ensures a[0] < b[0] {
          assert k > 0 ==> a[..k][0] == b[..k][0];
        }
      } else {
        EarlierIff(a[1..], b[1..]);
        forall k: nat | EarlierAt(a[1..], b[1..], k) ensures EarlierAt(a, b, k + 1) {
          assert a[..k + 1] == [a[0]] + a[1..][..k] && b[..k + 1] == [b[0]] + b[1..][..k];
        }
        forall k: nat | EarlierAt(a, b, k) ensures k > 0 && EarlierAt(a[1..], b[1..], k - 1) {
          assert k > 0 ==> a[1..][..k - 1] == a[..k][1..] && b[1..][..k - 1] == b[..k][1..];
        }
      }
    }
  }

  function Outcome(side: Side): V.Ordering
  {
    if side.Below? then V.Less else V.Greater
  }

  lemma StringsIff(a: string, b: string)
    ensures V.CmpString(a, b) == V.Less <==> Earlier(a, b)
    ensures V.CmpString(a, b) == V.Greater <==> Earlier(b, a)
  {
    EarlierIff(a, b);
    EarlierIff(b, a);
    Strings.LessAntisymmetric(a, b);
  }

  lemma NumbersIff(round: V.Rounding, a: V.Num, b: V.Num)
    ensures V.CmpNum(round, a, b) == V.Less <==> Smaller(round, a, b)
    ensures V.CmpNum(round, a, b) == V.Greater <==> Smaller(round, b, a)
  {
  }

  lemma ItemsLieRest(round: V.Rounding, side: Side, a: seq<V.Value>, b: seq<V.Value>, c: seq<V.Value>,
                     d: seq<V.Value>)
    requires a != [] && b != [] && a[1..] == c && b[1..] == d && V.Eq(a[0], b[0])
    requires ItemsLie(round, side, a, b)
    ensures ItemsLie(round, side, c, d)
  {
    var k: nat :|
        && Within(|a|, |b|, k) && (forall j :: 0 <= j < k ==> V.Eq(a[j], b[j]))
        && (EndsAt(side, |a|, |b|, k) || (k < |a| && k < |b| && !V.Eq(a[k], b[k]) && Lies(round, side, a[k], b[k])));
    assert k > 0 && Within(|c|, |d|, k - 1);
    forall j | 0 <= j < k - 1 ensures V.Eq(c[j], d[j]) {
      assert c[j] == a[j + 1] && d[j] == b[j + 1];
    }
    assert k < |a| && k < |b| ==> c[k - 1] == a[k] && d[k - 1] == b[k];
  }

  lemma ItemsLieMore(round: V.Rounding, side: Side, a: seq<V.Value>, b: seq<V.Value>, c: seq<V.Value>,
                     d: seq<V.Value>)
    requires a != [] && b != [] && a[1..] == c && b[1..] == d && V.Eq(a[0], b[0])
    requires ItemsLie(round, side, c, d)
    ensures ItemsLie(round, side, a, b)
  {
    var k: nat :|
        && Within(|c|, |d|, k) && (forall j :: 0 <= j < k ==> V.Eq(c[j], d[j]))
        && (EndsAt(side, |c|, |d|, k) || (k < |c| && k < |d| && !V.Eq(c[k], d[k]) && Lies(round, side, c[k], d[k])));
    assert Within(|a|, |b|, k + 1);
    forall j | 0 <= j < k + 1 ensures V.Eq(a[j], b[j]) {
      assert j > 0 ==> a[j] == c[j - 1] && b[j] == d[j - 1];
    }
    assert k < |c| && k < |d| ==> c[k] == a[k + 1] && d[k] == b[k + 1];
  }

  lemma {:induction false} ItemsIff(round: V.Rounding, side: Side, a: seq<V.Value>, b: seq<V.Value>)
    ensures V.CmpItems(round, a, b) == Outcome(side) <==> ItemsLie(round, side, a, b)
    decreases a, 0
  {
    if a == [] || b == [] {
      assert Within(|a|, |b|, 0);
    } else if V.Eq(a[0], b[0]) {
      ItemsIff(round, side, a[1..], b[1..]);
      if ItemsLie(round, side, a, b) {
        ItemsLieRest(round, side, a, b, a[1..], b[1..]);
      }
      if ItemsLie(round, side, a[1..], b[1..]) {
        ItemsLieMore(round, side, a, b, a[1..], b[1..]);
      }
    } else {
      OrderIff(round, side, a[0], b[0]);
      assert Within(|a|, |b|, 0);
    }
  }

  lemma MembersLieRest(round: V.Rounding, side: Side, a: seq<V.Member>, b: seq<V.Member>, c: seq<V.Member>,
                       d: seq<V.Member>)
    requires a != [] && b != [] && a[1..] == c && b[1..] == d && Tied(round, a[0], b[0])
    requires MembersLie(round, side, a, b)
    ensures MembersLie(round, side, c, d)
  {
    var k: nat :|
        && Within(|a|, |b|, k) && (forall j :: 0 <= j < k ==> Tied(round, a[j], b[j]))
        && (EndsAt(side, |a|, |b|, k) || (k < |a| && k < |b| && MemberLies(round, side, a[k], b[k])));
    assert k > 0 && Within(|c|, |d|, k - 1);
    forall j | 0 <= j < k - 1 ensures Tied(round, c[j], d[j]) {
      assert c[j] == a[j + 1] && d[j] == b[j + 1];
    }
    assert k < |a| && k < |b| ==> c[k - 1] == a[k] && d[k - 1] == b[k];
  }

  lemma MembersLieMore(round: V.Rounding, side: Side, a: seq<V.Member>, b: seq<V.Member>, c: seq<V.Member>,
                       d: seq<V.Member>)
    requires a != [] && b != [] && a[1..] == c && b[1..] == d && Tied(round, a[0], b[0])
    requires MembersLie(round, side, c, d)
    ensures MembersLie(round, side, a, b)
  {
    var k: nat :|
        && Within(|c|, |d|, k) && (forall j :: 0 <= j < k ==> Tied(round, c[j], d[j]))
        && (EndsAt(side, |c|, |d|, k) || (k < |c| && k < |d| && MemberLies(round, side, c[k], d[k])));
    assert Within(|a|, |b|, k + 1);
    forall j | 0 <= j < k + 1 ensures Tied(round, a[j], b[j]) {
      assert j > 0 ==> a[j] == c[j - 1] && b[j] == d[j - 1];
    }
    assert k < |c| && k < |d| ==> c[k] == a[k + 1] && d[k] == b[k + 1];
  }

  lemma {:induction false} MembersIff(round: V.Rounding, side: Side, a: seq<V.Member>, b: seq<V.Member>)
    ensures V.CmpMembers(round, a, b) == Outcome(side) <==> MembersLie(round, side, a, b)
    decreases a, 0
  {
    if a == [] || b == [] {
      assert Within(|a|, |b|, 0);
    } else {
      StringsIff(a[0].key, b[0].key);
      OrderIff(round, Below, a[0].value, b[0].value);
      OrderIff(round, Above, a[0].value, b[0].value);
      if Tied(round, a[0], b[0]) {
        MembersIff(round, side, a[1..], b[1..]);
        if MembersLie(round, side, a, b) {
          MembersLieRest(round, side, a, b, a[1..], b[1..]);
        }
        if MembersLie(round, side, a[1..], b[1..]) {
          MembersLieMore(round, side, a, b, a[1..], b[1..]);
        }
      } else {
        assert Within(|a|, |b|, 0);
      }
    }
  }

  /** The comparison is `Less` exactly when the first value lies below, `Greater` exactly when it lies above. */
  lemma {:induction false} OrderIff(round: V.Rounding, side: Side, v: V.Value, w: V.Value)
    ensures V.Cmp(round, v, w) == Outcome(side) <==> Lies(round, side, v, w)
    decreases v, 1
  {
    if Rank(v) == Rank(w) {
      match v
      case Null =>
      case Bool(b) =>
      case Number(n) => NumbersIff(round, n, w.n);
      case Str(s) => StringsIff(s, w.s);
      case Arr(a) => ItemsIff(round, side, a, w.items);
      case Obj(o) => MembersIff(round, side, o, w.members);
    }
  }
}
