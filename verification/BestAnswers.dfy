/**
  The arithmetic functions withhold no answer (common/functions/src/scalars: arithmetics, maths/abs.rs,
  function_monotonic.rs): one is given exactly when all moves that the operands may make, as far as their own
  answers tell, take the result one way.
 */
module BestAnswers {
  import opened Wrappers
  import opened Expressions
  import opened Monotonicity
  import opened ArithmeticMonotonicity

  /** What an operand's answer tells of its moves: none, or in one direction, on one side of zero or anywhere. */
  datatype Operand = Operand(constant: bool, up: bool, sign: int)

  function OperandOf(n: Numbers, m: Mono): Operand
  {
    Operand(m.isConstant, m.isPositive, match CompareWithZero(n, m) case Ok(c) => c case Err(_) => 0)
  }

  predicate OnSide(sign: int, x: real)
  {
    (sign == 1 ==> x >= 0.0) && (sign == -1 ==> x <= 0.0)
  }

  predicate Goes(o: Operand, x: real, x': real)
  {
    && OnSide(o.sign, x) && OnSide(o.sign, x')
    && if o.constant then x == x' else Along(o.up, x, x')
  }

  predicate BothGo(f: Operand, g: Operand, x: real, y: real, x': real, y': real)
  {
    Goes(f, x, x') && Goes(g, y, y')
  }

  /** All moves of the operands take the result one way, up or down. */
  ghost predicate Settled(op: (real, real) -> real, f: Operand, g: Operand)
  {
    || (forall x, y, x', y' :: BothGo(f, g, x, y, x', y') ==> op(x, y) <= op(x', y'))
    || (forall x, y, x', y' :: BothGo(f, g, x, y, x', y') ==> op(x, y) >= op(x', y'))
  }

  function Sum(): (real, real) -> real { (x: real, y: real) => x + y }

  function Difference(): (real, real) -> real { (x: real, y: real) => x - y }

  function Times(): (real, real) -> real { (x: real, y: real) => Product(x, y) }

  function AbsFirst(): (real, real) -> real { (x: real, y: real) => Abs(x) }

  function NegatedFirst(): (real, real) -> real { (x: real, y: real) => -x }

  /** An operand that says nothing. */
  const ABSENT := Operand(true, true, 0)

  /** A move of an operand that varies: from one or minus one to two or minus two, or back. */
  function From(o: Operand): real
  {
    if o.sign == -1 then (if o.up then -2.0 else -1.0) else (if o.up then 1.0 else 2.0)
  }

  function To(o: Operand): real
  {
    if o.sign == -1 then (if o.up then -1.0 else -2.0) else (if o.up then 2.0 else 1.0)
  }

  lemma FromTo(o: Operand)
    requires !o.constant
    ensures Goes(o, From(o), To(o)) && Goes(o, From(o), From(o))
    ensures if o.up then From(o) < To(o) else To(o) < From(o)
  {
  }

  /** A move up and a move down leave nothing settled. */
  lemma Unsettled(op: (real, real) -> real, f: Operand, g: Operand, x: real, y: real, x': real, y': real,
                  u: real, v: real, u': real, v': real)
    requires BothGo(f, g, x, y, x', y') && op(x, y) < op(x', y')
    requires BothGo(f, g, u, v, u', v') && op(u, v) > op(u', v')
    ensures !Settled(op, f, g)
  {
  }

  /** `compare_with_zero` gives no sign only where an end is unknown or the ends lie on both sides of zero. */
  lemma SignIsBest(n: Numbers, m: Mono)
    requires CompareWithZero(n, m) == Ok(0) && m.left.Some? && m.right.Some?
    ensures var (l, r) := (n.num(m.left.value), n.num(m.right.value)); if m.isPositive then l < 0.0 < r else r < 0.0 < l
  {
  }

  lemma PlusAnsweredIff(n: Numbers, f: Mono, g: Mono)
    requires f.isMonotonic && g.isMonotonic
    ensures PlusMono(f, g).Ok?
    ensures PlusMono(f, g).value.isMonotonic <==> Settled(Sum(), OperandOf(n, f), OperandOf(n, g))
  {
    var p, q := OperandOf(n, f), OperandOf(n, g);
    if !PlusMono(f, g).value.isMonotonic {
      FromTo(p);
      FromTo(q);
      if f.isPositive {
        Unsettled(Sum(), p, q, From(p), From(q), To(p), From(q), From(p), From(q), From(p), To(q));
      } else {
        Unsettled(Sum(), p, q, From(p), From(q), From(p), To(q), From(p), From(q), To(p), From(q));
      }
    }
  }

  lemma MinusAnsweredIff(n: Numbers, f: Mono, g: Mono)
    requires f.isMonotonic && g.isMonotonic
    ensures MinusMono(f, g).Ok?
    ensures MinusMono(f, g).value.isMonotonic <==> Settled(Difference(), OperandOf(n, f), OperandOf(n, g))
  {
    var p, q := OperandOf(n, f), OperandOf(n, g);
    if !MinusMono(f, g).value.isMonotonic {
      FromTo(p);
      FromTo(q);
      if f.isPositive {
        Unsettled(Difference(), p, q, From(p), From(q), To(p), From(q), From(p), From(q), From(p), To(q));
      } else {
        Unsettled(Difference(), p, q, From(p), From(q), From(p), To(q), From(p), From(q), To(p), From(q));
      }
    }
  }

  lemma AbsAnsweredIff(n: Numbers, f: Mono)
    requires f.isMonotonic
    ensures AbsMono(n, f).Ok?
    ensures AbsMono(n, f).value.isMonotonic <==> Settled(AbsFirst(), OperandOf(n, f), ABSENT)
  {
    var p := OperandOf(n, f);
    if !AbsMono(n, f).value.isMonotonic {
      if f.isPositive {
        Unsettled(AbsFirst(), p, ABSENT, 1.0, 0.0, 2.0, 0.0, -2.0, 0.0, -1.0, 0.0);
      } else {
        Unsettled(AbsFirst(), p, ABSENT, -1.0, 0.0, -2.0, 0.0, 2.0, 0.0, 1.0, 0.0);
      }
    }
  }

  lemma NegateAnsweredIff(n: Numbers, f: Mono)
    requires f.isMonotonic
    ensures NegateMono(f).Ok?
    ensures NegateMono(f).value.isMonotonic <==> Settled(NegatedFirst(), OperandOf(n, f), ABSENT)
  {
    var p := OperandOf(n, f);
    if f.isPositive {
      assert forall x, y, x', y' :: BothGo(p, ABSENT, x, y, x', y') ==> NegatedFirst()(x, y) >= NegatedFirst()(x', y');
    } else {
      assert forall x, y, x', y' :: BothGo(p, ABSENT, x, y, x', y') ==> NegatedFirst()(x, y) <= NegatedFirst()(x', y');
    }
  }

  // ----- Products -----

  /** A number of the operand's sign, to hold the operand at; the other way if either will do. */
  function Held(o: Operand, other: bool): real
  {
    if o.sign == 1 then 1.0 else if o.sign == -1 then -1.0 else if other then -1.0 else 1.0
  }

  /** Moving one operand while the other is held takes the product up. */
  predicate RisesWith(o: Operand, held: real)
  {
    o.up == (held > 0.0)
  }

  lemma HeldGoes(o: Operand, other: bool)
    ensures Goes(o, Held(o, other), Held(o, other)) && Held(o, other) != 0.0
  {
  }

  lemma MoveFirst(f: Operand, g: Operand, held: real)
    requires !f.constant && held in {-1.0, 1.0} && Goes(g, held, held)
    ensures BothGo(f, g, From(f), held, To(f), held)
    ensures if RisesWith(f, held) then Times()(From(f), held) < Times()(To(f), held)
            else Times()(From(f), held) > Times()(To(f), held)
  {
    FromTo(f);
  }

  lemma MoveSecond(f: Operand, g: Operand, held: real)
    requires !g.constant && held in {-1.0, 1.0} && Goes(f, held, held)
    ensures BothGo(f, g, held, From(g), held, To(g))
    ensures if RisesWith(g, held) then Times()(held, From(g)) < Times()(held, To(g))
            else Times()(held, From(g)) > Times()(held, To(g))
  {
    FromTo(g);
  }

  /** Two moves, one of each operand, that take the product opposite ways. */
  lemma Opposed(f: Operand, g: Operand, x: real, y: real)
    requires !f.constant && !g.constant && x in {-1.0, 1.0} && y in {-1.0, 1.0} && Goes(f, x, x) && Goes(g, y, y)
    requires RisesWith(f, y) != RisesWith(g, x)
    ensures !Settled(Times(), f, g)
  {
    MoveFirst(f, g, y);
    MoveSecond(f, g, x);
    if RisesWith(f, y) {
      Unsettled(Times(), f, g, From(f), y, To(f), y, x, From(g), x, To(g));
    } else {
      Unsettled(Times(), f, g, x, From(g), x, To(g), From(f), y, To(f), y);
    }
  }

  lemma MulWithheld(n: Numbers, f: Mono, g: Mono)
    requires f.isMonotonic && g.isMonotonic && MulDivMono(n, true, f, g).Ok?
    requires !MulDivMono(n, true, f, g).value.isMonotonic
    ensures !Settled(Times(), OperandOf(n, f), OperandOf(n, g))
  {
    var p, q := OperandOf(n, f), OperandOf(n, g);
    var y := Held(q, false);
    var x := Held(p, RisesWith(p, y) == q.up);
    HeldGoes(q, false);
    HeldGoes(p, RisesWith(p, y) == q.up);
    if RisesWith(p, y) != RisesWith(q, x) {
      Opposed(p, q, x, y);
    } else {
      var y' := Held(q, true);
      HeldGoes(q, true);
      Opposed(p, q, x, y');
    }
  }

  lemma MulGiven(n: Numbers, f: Mono, g: Mono, x: real, y: real, x': real, y': real)
    requires f.isMonotonic && g.isMonotonic && MulDivMono(n, true, f, g).Ok?
    requires MulDivMono(n, true, f, g).value.isMonotonic
    requires BothGo(OperandOf(n, f), OperandOf(n, g), x, y, x', y')
    ensures if MulDivMono(n, true, f, g).value.isPositive then Times()(x, y) <= Times()(x', y')
            else Times()(x, y) >= Times()(x', y')
  {
    MulNumbers(n, f, g, x, y, x', y');
  }

  lemma MulAnsweredIff(n: Numbers, f: Mono, g: Mono)
    requires f.isMonotonic && g.isMonotonic && MulDivMono(n, true, f, g).Ok?
    ensures MulDivMono(n, true, f, g).value.isMonotonic <==> Settled(Times(), OperandOf(n, f), OperandOf(n, g))
  {
    var p, q := OperandOf(n, f), OperandOf(n, g);
    if MulDivMono(n, true, f, g).value.isMonotonic {
      forall x, y, x', y' | BothGo(p, q, x, y, x', y')
        ensures if MulDivMono(n, true, f, g).value.isPositive then Times()(x, y) <= Times()(x', y')
                else Times()(x, y) >= Times()(x', y')
      {
        MulGiven(n, f, g, x, y, x', y');
      }
    } else {
      MulWithheld(n, f, g);
    }
  }

  // ----- Quotients, away from a zero divisor -----

  function Over(x: real, y: real): real
    requires y != 0.0
  {
    x / y
  }

  predicate GoAway(f: Operand, g: Operand, x: real, y: real, x': real, y': real)
  {
    BothGo(f, g, x, y, x', y') && y != 0.0 && y' != 0.0
  }

  ghost predicate SettledAway(f: Operand, g: Operand)
  {
    || (forall x, y, x', y' :: GoAway(f, g, x, y, x', y') ==> Over(x, y) <= Over(x', y'))
    || (forall x, y, x', y' :: GoAway(f, g, x, y, x', y') ==> Over(x, y) >= Over(x', y'))
  }

  lemma UnsettledAway(f: Operand, g: Operand, x: real, y: real, x': real, y': real,
                      u: real, v: real, u': real, v': real)
    requires GoAway(f, g, x, y, x', y') && Over(x, y) < Over(x', y')
    requires GoAway(f, g, u, v, u', v') && Over(u, v) > Over(u', v')
    ensures !SettledAway(f, g)
  {
  }

  lemma MoveNumerator(f: Operand, g: Operand, held: real)
    requires !f.constant && held in {-1.0, 1.0} && Goes(g, held, held)
    ensures GoAway(f, g, From(f), held, To(f), held)
    ensures if RisesWith(f, held) then Over(From(f), held) < Over(To(f), held)
            else Over(From(f), held) > Over(To(f), held)
  {
    FromTo(f);
  }

  lemma MoveDivisor(f: Operand, g: Operand, held: real)
    requires !g.constant && held in {-1.0, 1.0} && Goes(f, held, held)
    ensures GoAway(f, g, held, From(g), held, To(g))
    ensures if RisesWith(g, held) then Over(held, From(g)) > Over(held, To(g))
            else Over(held, From(g)) < Over(held, To(g))
  {
    FromTo(g);
  }

  lemma OpposedAway(f: Operand, g: Operand, x: real, y: real)
    requires !f.constant && !g.constant && x in {-1.0, 1.0} && y in {-1.0, 1.0} && Goes(f, x, x) && Goes(g, y, y)
    requires RisesWith(f, y) == RisesWith(g, x)
    ensures !SettledAway(f, g)
  {
    MoveNumerator(f, g, y);
    MoveDivisor(f, g, x);
    if RisesWith(f, y) {
      UnsettledAway(f, g, From(f), y, To(f), y, x, From(g), x, To(g));
    } else {
      UnsettledAway(f, g, x, From(g), x, To(g), From(f), y, To(f), y);
    }
  }

  /** A divisor that passes zero takes the quotient both ways, whatever the numerator does. */
  lemma PassingZero(f: Operand, g: Operand, x: real)
    requires !g.constant && g.sign == 0 && x in {-1.0, 1.0} && Goes(f, x, x)
    ensures !SettledAway(f, g)
  {
    MoveDivisor(f, g, x);
    var y, y' := if g.up then -1.0 else 1.0, if g.up then 1.0 else -1.0;
    assert GoAway(f, g, x, y, x, y');
    if RisesWith(g, x) {
      UnsettledAway(f, g, x, y, x, y', x, From(g), x, To(g));
    } else {
      UnsettledAway(f, g, x, From(g), x, To(g), x, y, x, y');
    }
  }

  lemma DivWithheld(n: Numbers, f: Mono, g: Mono)
    requires f.isMonotonic && g.isMonotonic && MulDivMono(n, false, f, g).Ok?
    requires !MulDivMono(n, false, f, g).value.isMonotonic
    ensures !SettledAway(OperandOf(n, f), OperandOf(n, g))
  {
    var p, q := OperandOf(n, f), OperandOf(n, g);
    HeldGoes(p, false);
    if q.sign == 0 {
      PassingZero(p, q, Held(p, false));
    } else {
      var y := Held(q, false);
      HeldGoes(q, false);
      HeldGoes(p, true);
      if RisesWith(p, y) == RisesWith(q, Held(p, false)) {
        OpposedAway(p, q, Held(p, false), y);
      } else {
        OpposedAway(p, q, Held(p, true), y);
      }
    }
  }

  lemma DivGiven(n: Numbers, f: Mono, g: Mono, x: real, y: real, x': real, y': real)
    requires f.isMonotonic && g.isMonotonic && MulDivMono(n, false, f, g).Ok?
    requires MulDivMono(n, false, f, g).value.isMonotonic
    requires GoAway(OperandOf(n, f), OperandOf(n, g), x, y, x', y')
    ensures if MulDivMono(n, false, f, g).value.isPositive then Over(x, y) <= Over(x', y')
            else Over(x, y) >= Over(x', y')
  {
    if f.isConstant && !g.isConstant {
      DivConstantLeft(n, f, g, x, y, x', y');
    } else if !f.isConstant && g.isConstant {
      DivConstantRight(n, f, g, x, y, x', y');
    } else if !f.isConstant {
      DivBothVary(n, f, g, x, y, x', y');
    }
  }

  lemma DivAnsweredIff(n: Numbers, f: Mono, g: Mono)
    requires f.isMonotonic && g.isMonotonic && MulDivMono(n, false, f, g).Ok?
    ensures MulDivMono(n, false, f, g).value.isMonotonic <==> SettledAway(OperandOf(n, f), OperandOf(n, g))
  {
    var p, q := OperandOf(n, f), OperandOf(n, g);
    if MulDivMono(n, false, f, g).value.isMonotonic {
      forall x, y, x', y' | GoAway(p, q, x, y, x', y')
        ensures if MulDivMono(n, false, f, g).value.isPositive then Over(x, y) <= Over(x', y')
                else Over(x, y) >= Over(x', y')
      {
        DivGiven(n, f, g, x, y, x', y');
      }
    } else {
      DivWithheld(n, f, g);
    }
  }

  // ----- The arms marked unreachable -----

  /** A function is answered as constant only where all its arguments are. */
  ghost predicate ConstantOnConstants(a: Analysis)
  {
    forall op, types, ms: seq<Mono> ::
      a.functions.monotonicity(op, types, ms).Ok? && a.functions.monotonicity(op, types, ms).value.isConstant
      ==> forall i :: 0 <= i < |ms| ==> ms[i].isConstant
  }

  /** That is so of the arithmetic functions, division included. */
  lemma OperatorsConstantOnConstants(n: Numbers, o: Operator, ms: seq<Mono>)
    requires |ms| == Arity(o) && OperatorMono(n, o, ms).Ok? && OperatorMono(n, o, ms).value.isConstant
    ensures forall i :: 0 <= i < |ms| ==> ms[i].isConstant
  {
  }

  lemma DivisionConstantOnConstants(n: Numbers, f: Mono, g: Mono)
    requires MulDivMono(n, false, f, g).Ok? && MulDivMono(n, false, f, g).value.isConstant
    ensures f.isConstant && g.isConstant
  {
  }

  lemma BoundaryKnown(a: Analysis, op: string, ends: seq<Option<Value>>)
    requires Boundary(a, op, ends).Ok? && forall i :: 0 <= i < |ends| ==> ends[i].Some?
    ensures Boundary(a, op, ends).value.Some?
  {
  }

  lemma FunctionEndsKnown(a: Analysis, op: string, items: seq<Item>)
    requires FunctionMono(a, op, items).Ok?
    requires forall i :: 0 <= i < |items| ==> items[i].1.left.Some? && items[i].1.right.Some?
    ensures FunctionMono(a, op, items).value.1.left.Some? && FunctionMono(a, op, items).value.1.right.Some?
  {
    BoundaryKnown(a, op, Lefts(items));
    BoundaryKnown(a, op, Rights(items));
  }

  /** Both ends of whatever is answered as constant are known. */
  lemma {:induction false} ConstantEndsKnown(a: Analysis, e: Expression)
    requires !a.singlePoint && ConstantOnConstants(a) && MonoOf(a, e).Ok? && MonoOf(a, e).value.1.isConstant
    ensures MonoOf(a, e).value.1.left.Some? && MonoOf(a, e).value.1.right.Some?
    decreases e
  {
    if IsFunction(e) {
      var cs := Children(e);
      var items := MonosOf(a, cs).value;
      MonosOfElements(a, cs);
      var types := seq(|items|, i requires 0 <= i < |items| => items[i].0);
      var monos := seq(|items|, i requires 0 <= i < |items| => items[i].1);
      assert a.functions.monotonicity(OpOf(e), types, monos).value.isConstant;
      forall i | 0 <= i < |items|
        ensures items[i].1.left.Some? && items[i].1.right.Some?
      {
        assert monos[i].isConstant;
        ConstantEndsKnown(a, cs[i]);
      }
      FunctionEndsKnown(a, OpOf(e), items);
    }
  }

  /** In a product or quotient of two expressions that are answered, no arm marked unreachable is reached. */
  lemma UnreachableIsNotReached(n: Numbers, isMul: bool, a: Analysis, left: Expression, right: Expression)
    requires !a.singlePoint && ConstantOnConstants(a) && MonoOf(a, left).Ok? && MonoOf(a, right).Ok?
    ensures MulDivMono(n, isMul, MonoOf(a, left).value.1, MonoOf(a, right).value.1) != Err("unreachable")
  {
    var f, g := MonoOf(a, left).value.1, MonoOf(a, right).value.1;
    if f.isConstant {
      ConstantEndsKnown(a, left);
    }
    if g.isConstant {
      ConstantEndsKnown(a, right);
    }
  }
}
