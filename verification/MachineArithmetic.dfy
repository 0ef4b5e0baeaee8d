/**
  Arithmetic on machine numbers (common/functions/src/scalars/arithmetics: arithmetic_plus.rs,
  arithmetic_minus.rs, arithmetic_mul.rs, arithmetic_negate.rs): 64-bit results wrap around, so what the
  monotonicity check answers for numbers is right only as far as nothing wraps.
 */
module MachineArithmetic {
  import opened Wrappers
  import opened Expressions
  import opened Monotonicity
  import opened ArithmeticMonotonicity

  // ----- Whole expressions -----

  /** How a function's result on these arguments is made to fit its type: wrapped, rounded, or not at all. */
  type Fit = (string, seq<Value>, real) -> real

  datatype Machine = Machine(n: Numbers, names: string -> Option<Operator>, fit: Fit)

  predicate Handles(k: Machine, op: string, vs: seq<Value>)
  {
    k.names(op).Some? && |vs| == Arity(k.names(op).value)
  }

  /** The result over the real numbers. */
  function ExactResult(k: Machine, op: string, vs: seq<Value>): real
    requires Handles(k, op, vs)
  {
    OperatorResult(k.n, k.names(op).value, vs)
  }

  /** The machine's result is that one. */
  predicate IsExact(k: Machine, op: string, vs: seq<Value>)
  {
    Handles(k, op, vs) ==> k.fit(op, vs, ExactResult(k, op, vs)) == ExactResult(k, op, vs)
  }

  /** The analysis evaluates arithmetic on the machine. */
  ghost predicate RunsOn(k: Machine, a: Analysis)
  {
    && Valid(k.n)
    && (forall op, types, ms :: a.functions.monotonicity(op, types, ms) ==
          if k.names(op).Some? && |ms| == Arity(k.names(op).value) then OperatorMono(k.n, k.names(op).value, ms)
          else Err("refused"))
    && (forall op, vs :: Handles(k, op, vs) ==>
          a.semantics.apply(op, vs) == k.n.of(k.fit(op, vs, ExactResult(k, op, vs))))
  }

  /** The same analysis over the real numbers. */
  function Ideal(k: Machine, a: Analysis): Analysis
  {
    a.(semantics := a.semantics.(apply := IdealApply(k, a)))
  }

  function IdealApply(k: Machine, a: Analysis): (string, seq<Value>) -> Value
  {
    (op: string, vs: seq<Value>) =>
      if Handles(k, op, vs) then k.n.of(ExactResult(k, op, vs)) else a.semantics.apply(op, vs)
  }

  lemma ExactApply(k: Machine, a: Analysis, op: string, vs: seq<Value>)
    requires RunsOn(k, a) && IsExact(k, op, vs)
    ensures Ideal(k, a).semantics.apply(op, vs) == a.semantics.apply(op, vs)
  {
  }

  lemma IdealIsArithmetic(k: Machine, a: Analysis)
    requires RunsOn(k, a)
    ensures IsArithmetic(k.n, k.names, Ideal(k, a))
  {
    var b := Ideal(k, a);
    forall op, vs | k.names(op).Some? && |vs| == Arity(k.names(op).value)
      ensures b.semantics.apply(op, vs) == OperatorValue(k.n, k.names(op).value, vs)
    {
      assert Handles(k, op, vs);
    }
  }

  /** The function a node applies. */
  function Applied(e: Expression): Option<string>
  {
    match e
    case Unary(op, _) => Some(op)
    case Binary(op, _, _) => Some(op)
    case ScalarFunction(op, _) => Some(op)
    case MapAccess(_, _) => Some("get")
    case _ => None
  }

  /** On this row every arithmetic result in the expression is exact. */
  ghost predicate ExactAt(k: Machine, s: Semantics, row: Row, e: Expression)
    decreases e
  {
    && (forall i :: 0 <= i < |Children(e)| ==> ExactAt(k, s, row, Children(e)[i]))
    && (Applied(e).Some? ==> IsExact(k, Applied(e).value, EvalAll(s, row, Children(e))))
  }

  lemma ApplySame(k: Machine, a: Analysis, row: Row, e: Expression, vs: seq<Value>)
    requires RunsOn(k, a) && |vs| == |Children(e)| && (Applied(e).Some? ==> IsExact(k, Applied(e).value, vs))
    ensures Apply(Ideal(k, a).semantics, row, e, vs) == Apply(a.semantics, row, e, vs)
  {
    if Applied(e).Some? {
      ExactApply(k, a, Applied(e).value, vs);
    }
  }

  lemma {:induction false} EvalSame(k: Machine, a: Analysis, row: Row, e: Expression)
    requires RunsOn(k, a) && ExactAt(k, a.semantics, row, e)
    ensures Eval(Ideal(k, a).semantics, row, e) == Eval(a.semantics, row, e)
    decreases e
  {
    var cs, s, t := Children(e), a.semantics, Ideal(k, a).semantics;
    forall i | 0 <= i < |cs|
      ensures Eval(t, row, cs[i]) == Eval(s, row, cs[i])
    {
      EvalSame(k, a, row, cs[i]);
    }
    assert EvalAll(t, row, cs) == EvalAll(s, row, cs);
    EvalUnfold(s, row, e);
    EvalUnfold(t, row, e);
    ApplySame(k, a, row, e, EvalAll(s, row, cs));
  }

  /** The ends of the arguments, if all are known, are their values on the end row. */
  lemma BoundarySame(k: Machine, a: Analysis, op: string, ends: seq<Option<Value>>, vs: seq<Value>)
    requires RunsOn(k, a) && IsExact(k, op, vs) && |ends| == |vs|
    requires forall i :: 0 <= i < |ends| && ends[i].Some? ==> ends[i].value == vs[i]
    ensures Boundary(Ideal(k, a), op, ends) == Boundary(a, op, ends)
  {
    if forall i :: 0 <= i < |ends| ==> ends[i].Some? {
      assert seq(|ends|, i requires 0 <= i < |ends| => ends[i].value) == vs;
      ExactApply(k, a, op, vs);
    }
  }

  /** Every arithmetic result is exact on the two rows of range ends. */
  ghost predicate ExactAtEnds(k: Machine, a: Analysis, row: Row, e: Expression)
  {
    && ExactAt(k, a.semantics, Leftmost(a.variables, row), e)
    && ExactAt(k, a.semantics, Rightmost(a.variables, row), e)
  }

  lemma FunctionMonoSame(k: Machine, a: Analysis, row: Row, e: Expression, items: seq<Item>)
    requires RunsOn(k, a) && IsFunction(e) && ExactAtEnds(k, a, row, e) && |items| == |Children(e)|
    requires forall i :: 0 <= i < |items| ==> EndsRight(a, row, items[i].1, Children(e)[i])
    ensures FunctionMono(Ideal(k, a), OpOf(e), items) == FunctionMono(a, OpOf(e), items)
  {
    var cs, l, r := Children(e), Leftmost(a.variables, row), Rightmost(a.variables, row);
    BoundarySame(k, a, OpOf(e), Lefts(items), EvalAll(a.semantics, l, cs));
    BoundarySame(k, a, OpOf(e), Rights(items), EvalAll(a.semantics, r, cs));
  }

  lemma {:induction false} MonosSame(a: Analysis, b: Analysis, es: seq<Expression>)
    requires forall i :: 0 <= i < |es| ==> MonoOf(a, es[i]) == MonoOf(b, es[i])
    ensures MonosOf(a, es) == MonosOf(b, es)
    decreases |es|
  {
    if es != [] {
      MonosSame(a, b, es[..|es| - 1]);
    }
  }

  lemma {:induction false} MonoSame(k: Machine, a: Analysis, row: Row, e: Expression)
    requires RunsOn(k, a) && ExactAtEnds(k, a, row, e)
    ensures MonoOf(Ideal(k, a), e) == MonoOf(a, e)
    decreases e
  {
    var cs := Children(e);
    forall i | 0 <= i < |cs|
      ensures MonoOf(Ideal(k, a), cs[i]) == MonoOf(a, cs[i])
    {
      MonoSame(k, a, row, cs[i]);
    }
    MonosSame(Ideal(k, a), a, cs);
    var items := MonosOf(a, cs);
    if IsFunction(e) && items.Ok? {
      MonosOfElements(a, cs);
      forall i | 0 <= i < |cs|
        ensures EndsRight(a, row, items.value[i].1, cs[i])
      {
        EndsAreValues(a, cs[i], row);
      }
      FunctionMonoSame(k, a, row, e, items.value);
    }
  }

  /**
    On any machine the check is right about every two rows on which, and at whose range ends, all results
    are exact: whatever wraps or rounds elsewhere.
   */
  lemma MachineCheckIsSound(k: Machine, a: Analysis, e: Expression, p: Row, q: Row)
    requires RunsOn(k, a) && Comparable(Leq(k.n), a, p, q)
    requires ExactAt(k, a.semantics, p, e) && ExactAt(k, a.semantics, q, e) && ExactAtEnds(k, a, p, e)
    ensures Follows(Leq(k.n), Checked(a, e), Eval(a.semantics, p, e), Eval(a.semantics, q, e))
  {
    IdealIsArithmetic(k, a);
    MonoSame(k, a, p, e);
    EvalSame(k, a, p, e);
    EvalSame(k, a, q, e);
    ArithmeticCheckIsSound(k.n, k.names, Ideal(k, a), e, p, q);
  }

  // ----- Integers that wrap around -----

  /** Which window of the width a number lies in, counted from the type's least number. */
  function Window(base: int, width: int, x: int): int
    requires width > 0
  {
    (x - base) / width
  }

  /** `wrapping_add` and the like: the number of the type that is equal to `x` modulo the width. */
  function Wrap(base: int, width: int, x: int): int
    requires width > 0
  {
    base + (x - base) % width
  }

  /** The windows, one width apart. */
  function Shift(width: int, k: int): int
  {
    width * k
  }

  lemma Unwrap(base: int, width: int, x: int)
    requires width > 0
    ensures x == Wrap(base, width, x) + Shift(width, Window(base, width, x))
    ensures base <= Wrap(base, width, x) < base + width
  {
  }

  lemma ShiftUp(width: int, k: int, l: int)
    requires width > 0 && k < l
    ensures Shift(width, k) + width <= Shift(width, l)
  {
    assert width * (k + 1) <= width * l;
  }

  lemma WindowUp(base: int, width: int, x: int, y: int)
    requires width > 0 && x <= y
    ensures Window(base, width, x) <= Window(base, width, y)
  {
    Unwrap(base, width, x);
    Unwrap(base, width, y);
    if Window(base, width, y) < Window(base, width, x) {
      ShiftUp(width, Window(base, width, y), Window(base, width, x));
    }
  }

  /** A small rise keeps its direction exactly when it stays in one window. */
  lemma RiseKeptIff(base: int, width: int, x: int, y: int)
    requires width > 0 && x <= y < x + width
    ensures Wrap(base, width, x) <= Wrap(base, width, y) <==> Window(base, width, x) == Window(base, width, y)
  {
    Unwrap(base, width, x);
    Unwrap(base, width, y);
    WindowUp(base, width, x, y);
    if Window(base, width, x) < Window(base, width, y) {
      ShiftUp(width, Window(base, width, x), Window(base, width, y));
    }
  }

  /** Any rise within one window keeps its direction. */
  lemma RiseKept(base: int, width: int, x: int, y: int)
    requires width > 0 && x <= y && Window(base, width, x) == Window(base, width, y)
    ensures Wrap(base, width, x) <= Wrap(base, width, y)
  {
    Unwrap(base, width, x);
    Unwrap(base, width, y);
  }

  // ----- One operation on two moving operands -----

  /** An operand that takes the whole numbers of a range one by one, up or down; a constant takes one. */
  datatype Operand = Operand(lo: int, hi: int, up: bool, isConstant: bool)

  /** Its numbers are within one width of zero, as all numbers of a machine type are. */
  ghost predicate IsOperand(f: Operand, width: int)
  {
    && f.lo <= f.hi && (f.isConstant ==> f.lo == f.hi)
    && -width < f.lo && f.hi < width
  }

  function Last(f: Operand): int
  {
    f.hi - f.lo
  }

  /** The operand at its step `t`. */
  function At(f: Operand, t: int): int
  {
    if f.up then f.lo + t else f.hi - t
  }

  /** What the monotonicity check knows of the operand. */
  function Known(n: Numbers, f: Operand): Mono
  {
    Mono(true, f.up, f.isConstant, Some(n.of(At(f, 0) as real)), Some(n.of(At(f, Last(f)) as real)))
  }

  /** The check's answer; an operator of one operand leaves the second out. */
  function Answer(n: Numbers, o: Operator, f: Operand, g: Operand): Result<Mono, string>
  {
    OperatorMono(n, o, if Arity(o) == 1 then [Known(n, f)] else [Known(n, f), Known(n, g)])
  }

  function IntegerResult(o: Operator, x: int, y: int): int
  {
    match o
    case Plus => x + y
    case Minus => x - y
    case Times => IntegerProduct(x, y)
    case Negate => -x
    case Absolute => if x < 0 then -x else x
  }

  function IntegerProduct(x: int, y: int): int
  {
    x * y
  }

  /** The exact result, by the steps of the operands. */
  function CourseAt(o: Operator, f: Operand, g: Operand, t: int, s: int): int
  {
    IntegerResult(o, At(f, t), At(g, s))
  }

  /** The exact result rises with both operands, by less than the width for each single step of one. */
  ghost predicate Climbs(width: int, o: Operator, f: Operand, g: Operand)
  {
    && (forall t, s :: 0 <= t < Last(f) && 0 <= s <= Last(g) ==>
         CourseAt(o, f, g, t, s) <= CourseAt(o, f, g, t + 1, s) < CourseAt(o, f, g, t, s) + width)
    && (forall t, s :: 0 <= t <= Last(f) && 0 <= s < Last(g) ==>
         CourseAt(o, f, g, t, s) <= CourseAt(o, f, g, t, s + 1) < CourseAt(o, f, g, t, s) + width)
  }

  /** After wrapping it still rises, on all moves. */
  ghost predicate StillRises(base: int, width: int, o: Operator, f: Operand, g: Operand)
    requires width > 0
  {
    forall t, s, t', s' :: 0 <= t <= t' <= Last(f) && 0 <= s <= s' <= Last(g) ==>
      Wrap(base, width, CourseAt(o, f, g, t, s)) <= Wrap(base, width, CourseAt(o, f, g, t', s'))
  }

  lemma {:induction false} ClimbsFar(width: int, o: Operator, f: Operand, g: Operand,
                                     t: int, s: int, t': int, s': int)
    requires Climbs(width, o, f, g) && 0 <= t <= t' <= Last(f) && 0 <= s <= s' <= Last(g)
    ensures CourseAt(o, f, g, t, s) <= CourseAt(o, f, g, t', s')
    decreases t' - t + s' - s
  {
    if t < t' {
      ClimbsFar(width, o, f, g, t + 1, s, t', s');
    } else if s < s' {
      ClimbsFar(width, o, f, g, t, s + 1, t', s');
    }
  }

  /** Where each single step keeps its direction, none leaves its window. */
  lemma {:induction false} OneWindow(base: int, width: int, o: Operator, f: Operand, g: Operand,
                                     t: int, s: int)
    requires width > 0 && Climbs(width, o, f, g) && StillRises(base, width, o, f, g)
    requires 0 <= t <= Last(f) && 0 <= s <= Last(g)
    ensures Window(base, width, CourseAt(o, f, g, t, s)) == Window(base, width, CourseAt(o, f, g, 0, 0))
    decreases t + s
  {
    if t > 0 {
      OneWindow(base, width, o, f, g, t - 1, s);
      assert CourseAt(o, f, g, t - 1, s) <= CourseAt(o, f, g, t - 1 + 1, s) < CourseAt(o, f, g, t - 1, s) + width;
      RiseKeptIff(base, width, CourseAt(o, f, g, t - 1, s), CourseAt(o, f, g, t, s));
    } else if s > 0 {
      OneWindow(base, width, o, f, g, t, s - 1);
      assert CourseAt(o, f, g, t, s - 1) <= CourseAt(o, f, g, t, s - 1 + 1) < CourseAt(o, f, g, t, s - 1) + width;
      RiseKeptIff(base, width, CourseAt(o, f, g, t, s - 1), CourseAt(o, f, g, t, s));
    }
  }

  /** It still rises on all moves exactly when the two ends lie in one window. */
  lemma StillRisesIff(base: int, width: int, o: Operator, f: Operand, g: Operand)
    requires width > 0 && Climbs(width, o, f, g) && 0 <= Last(f) && 0 <= Last(g)
    ensures StillRises(base, width, o, f, g) <==>
            Window(base, width, CourseAt(o, f, g, 0, 0)) == Window(base, width, CourseAt(o, f, g, Last(f), Last(g)))
  {
    if StillRises(base, width, o, f, g) {
      OneWindow(base, width, o, f, g, Last(f), Last(g));
    }
    if Window(base, width, CourseAt(o, f, g, 0, 0)) == Window(base, width, CourseAt(o, f, g, Last(f), Last(g))) {
      forall t, s, t', s' | 0 <= t <= t' <= Last(f) && 0 <= s <= s' <= Last(g)
        ensures Wrap(base, width, CourseAt(o, f, g, t, s)) <= Wrap(base, width, CourseAt(o, f, g, t', s'))
      {
        ClimbsFar(width, o, f, g, 0, 0, t, s);
        ClimbsFar(width, o, f, g, t, s, t', s');
        ClimbsFar(width, o, f, g, t', s', Last(f), Last(g));
        WindowUp(base, width, CourseAt(o, f, g, 0, 0), CourseAt(o, f, g, t, s));
        WindowUp(base, width, CourseAt(o, f, g, t, s), CourseAt(o, f, g, t', s'));
        WindowUp(base, width, CourseAt(o, f, g, t', s'), CourseAt(o, f, g, Last(f), Last(g)));
        RiseKept(base, width, CourseAt(o, f, g, t, s), CourseAt(o, f, g, t', s'));
      }
    }
  }

  lemma OperandMoves(n: Numbers, f: Operand, t: int, t': int)
    requires Valid(n) && f.lo <= f.hi && (f.isConstant ==> f.lo == f.hi) && 0 <= t <= t' <= Last(f)
    ensures Moves(n, Known(n, f), n.of(At(f, t) as real), n.of(At(f, t') as real))
  {
    var m := Known(n, f);
    FollowsFromNumbers(n, m, At(f, t) as real, At(f, t') as real);
    FollowsFromNumbers(n, m, At(f, 0) as real, At(f, t) as real);
    FollowsFromNumbers(n, m, At(f, 0) as real, At(f, t') as real);
    FollowsFromNumbers(n, m, At(f, t) as real, At(f, Last(f)) as real);
    FollowsFromNumbers(n, m, At(f, t') as real, At(f, Last(f)) as real);
  }

  lemma ProductAsReal(x: int, y: int)
    ensures IntegerProduct(x, y) as real == Product(x as real, y as real)
  {
  }

  lemma ResultAsReal(n: Numbers, o: Operator, x: int, y: int)
    requires Valid(n)
    ensures var vs := if Arity(o) == 1 then [n.of(x as real)] else [n.of(x as real), n.of(y as real)];
            OperatorResult(n, o, vs) == IntegerResult(o, x, y) as real
  {
    ProductAsReal(x, y);
  }

  /** Before wrapping the answer is right. */
  lemma ExactMoves(n: Numbers, o: Operator, f: Operand, g: Operand, t: int, s: int, t': int, s': int)
    requires Valid(n) && Answer(n, o, f, g).Ok?
    requires f.lo <= f.hi && (f.isConstant ==> f.lo == f.hi) && g.lo <= g.hi && (g.isConstant ==> g.lo == g.hi)
    requires 0 <= t <= t' <= Last(f) && 0 <= s <= s' <= Last(g)
    ensures NumFollows(Answer(n, o, f, g).value,
                       CourseAt(o, f, g, t, s) as real, CourseAt(o, f, g, t', s') as real)
  {
    var x, y, x', y' := At(f, t), At(g, s), At(f, t'), At(g, s');
    var unary := Arity(o) == 1;
    var ms := if unary then [Known(n, f)] else [Known(n, f), Known(n, g)];
    var us := if unary then [n.of(x as real)] else [n.of(x as real), n.of(y as real)];
    var vs := if unary then [n.of(x' as real)] else [n.of(x' as real), n.of(y' as real)];
    OperandMoves(n, f, t, t');
    OperandMoves(n, g, s, s');
    OperatorSound(n, o, ms, us, vs);
    MovesAsNumbers(n, Answer(n, o, f, g).value, OperatorValue(n, o, us), OperatorValue(n, o, vs));
    ResultAsReal(n, o, x, y);
    ResultAsReal(n, o, x', y');
  }

  /** One step of one operand changes the result by less than the width. */
  lemma SmallStep(o: Operator, width: int, x: int, y: int, d: int)
    requires width > 1 && -width < x < width && -width < y < width && d in {1, -1}
    ensures -width < IntegerResult(o, x + d, y) - IntegerResult(o, x, y) < width
    ensures -width < IntegerResult(o, x, y + d) - IntegerResult(o, x, y) < width
  {
    if o.Times? {
      assert (x + d) * y == x * y + d * y && x * (y + d) == x * y + d * x;
    }
  }

  lemma CourseStep(o: Operator, width: int, f: Operand, g: Operand, t: int, s: int)
    requires width > 1 && IsOperand(f, width) && IsOperand(g, width) && 0 <= t <= Last(f) && 0 <= s <= Last(g)
    ensures t < Last(f) ==> -width < CourseAt(o, f, g, t + 1, s) - CourseAt(o, f, g, t, s) < width
    ensures s < Last(g) ==> -width < CourseAt(o, f, g, t, s + 1) - CourseAt(o, f, g, t, s) < width
  {
    var d, d' := if f.up then 1 else -1, if g.up then 1 else -1;
    SmallStep(o, width, At(f, t), At(g, s), d);
    SmallStep(o, width, At(f, t), At(g, s), d');
    assert At(f, t + 1) == At(f, t) + d && At(g, s + 1) == At(g, s) + d';
  }

  lemma RisingCourse(n: Numbers, o: Operator, width: int, f: Operand, g: Operand)
    requires Valid(n) && width > 1 && IsOperand(f, width) && IsOperand(g, width)
    requires Answer(n, o, f, g).Ok? && Answer(n, o, f, g).value.isMonotonic && Answer(n, o, f, g).value.isPositive
    ensures Climbs(width, o, f, g)
  {
    forall t, s | 0 <= t < Last(f) && 0 <= s <= Last(g)
      ensures CourseAt(o, f, g, t, s) <= CourseAt(o, f, g, t + 1, s) < CourseAt(o, f, g, t, s) + width
    {
      ExactMoves(n, o, f, g, t, s, t + 1, s);
      CourseStep(o, width, f, g, t, s);
    }
    forall t, s | 0 <= t <= Last(f) && 0 <= s < Last(g)
      ensures CourseAt(o, f, g, t, s) <= CourseAt(o, f, g, t, s + 1) < CourseAt(o, f, g, t, s) + width
    {
      ExactMoves(n, o, f, g, t, s, t, s + 1);
      CourseStep(o, width, f, g, t, s);
    }
  }

  function Backwards(f: Operand): Operand
  {
    f.(up := !f.up)
  }

  lemma SameBackwards(o: Operator, f: Operand, g: Operand, t: int, s: int)
    ensures CourseAt(o, Backwards(f), Backwards(g), t, s) == CourseAt(o, f, g, Last(f) - t, Last(g) - s)
    ensures CourseAt(o, f, g, t, s) == CourseAt(o, Backwards(f), Backwards(g), Last(f) - t, Last(g) - s)
  {
    assert At(Backwards(f), t) == At(f, Last(f) - t) && At(Backwards(g), s) == At(g, Last(g) - s);
    assert At(f, t) == At(Backwards(f), Last(f) - t) && At(g, s) == At(Backwards(g), Last(g) - s);
  }

  lemma BackwardsMoves(n: Numbers, o: Operator, f: Operand, g: Operand, t: int, s: int, t': int, s': int)
    requires Valid(n) && Answer(n, o, f, g).Ok?
    requires f.lo <= f.hi && (f.isConstant ==> f.lo == f.hi) && g.lo <= g.hi && (g.isConstant ==> g.lo == g.hi)
    requires Answer(n, o, f, g).value.isMonotonic && !Answer(n, o, f, g).value.isPositive
    requires 0 <= t <= t' <= Last(f) && 0 <= s <= s' <= Last(g)
    ensures CourseAt(o, Backwards(f), Backwards(g), t, s) <= CourseAt(o, Backwards(f), Backwards(g), t', s')
  {
    ExactMoves(n, o, f, g, Last(f) - t', Last(g) - s', Last(f) - t, Last(g) - s);
    SameBackwards(o, f, g, t, s);
    SameBackwards(o, f, g, t', s');
  }

  /** A falling course rises when both operands run backwards. */
  lemma FallingCourse(n: Numbers, o: Operator, width: int, f: Operand, g: Operand)
    requires Valid(n) && width > 1 && IsOperand(f, width) && IsOperand(g, width)
    requires Answer(n, o, f, g).Ok? && Answer(n, o, f, g).value.isMonotonic && !Answer(n, o, f, g).value.isPositive
    ensures Climbs(width, o, Backwards(f), Backwards(g))
  {
    var p, q := Backwards(f), Backwards(g);
    forall t, s | 0 <= t < Last(p) && 0 <= s <= Last(q)
      ensures CourseAt(o, p, q, t, s) <= CourseAt(o, p, q, t + 1, s) < CourseAt(o, p, q, t, s) + width
    {
      BackwardsMoves(n, o, f, g, t, s, t + 1, s);
      CourseStep(o, width, p, q, t, s);
    }
    forall t, s | 0 <= t <= Last(p) && 0 <= s < Last(q)
      ensures CourseAt(o, p, q, t, s) <= CourseAt(o, p, q, t, s + 1) < CourseAt(o, p, q, t, s) + width
    {
      BackwardsMoves(n, o, f, g, t, s, t, s + 1);
      CourseStep(o, width, p, q, t, s);
    }
  }

  /** After wrapping, the result falls on all moves. */
  ghost predicate StillFalls(base: int, width: int, o: Operator, f: Operand, g: Operand)
    requires width > 0
  {
    forall t, s, t', s' :: 0 <= t <= t' <= Last(f) && 0 <= s <= s' <= Last(g) ==>
      Wrap(base, width, CourseAt(o, f, g, t', s')) <= Wrap(base, width, CourseAt(o, f, g, t, s))
  }

  lemma FallsIff(base: int, width: int, o: Operator, f: Operand, g: Operand)
    requires width > 0
    ensures StillFalls(base, width, o, f, g) <==> StillRises(base, width, o, Backwards(f), Backwards(g))
  {
    var p, q := Backwards(f), Backwards(g);
    if StillRises(base, width, o, p, q) {
      forall t, s, t', s' | 0 <= t <= t' <= Last(f) && 0 <= s <= s' <= Last(g)
        ensures Wrap(base, width, CourseAt(o, f, g, t', s')) <= Wrap(base, width, CourseAt(o, f, g, t, s))
      {
        SameBackwards(o, f, g, t, s);
        SameBackwards(o, f, g, t', s');
      }
    }
    if StillFalls(base, width, o, f, g) {
      forall t, s, t', s' | 0 <= t <= t' <= Last(p) && 0 <= s <= s' <= Last(q)
        ensures Wrap(base, width, CourseAt(o, p, q, t, s)) <= Wrap(base, width, CourseAt(o, p, q, t', s'))
      {
        SameBackwards(o, f, g, t, s);
        SameBackwards(o, f, g, t', s');
      }
    }
  }

  /** The answer is right about the wrapped results, on all moves. */
  ghost predicate RightWrapped(m: Mono, base: int, width: int, o: Operator, f: Operand, g: Operand)
    requires width > 0
  {
    m.isMonotonic ==> if m.isPositive then StillRises(base, width, o, f, g) else StillFalls(base, width, o, f, g)
  }

  /**
    The check's answer for an operation on machine integers is right, on all moves of its operands,
    exactly when the results at the two ends of the operands lie in one window of the width.
   */
  lemma WrappedAnswerIff(n: Numbers, o: Operator, base: int, width: int, f: Operand, g: Operand)
    requires Valid(n) && width > 1 && IsOperand(f, width) && IsOperand(g, width)
    requires Answer(n, o, f, g).Ok? && Answer(n, o, f, g).value.isMonotonic
    ensures RightWrapped(Answer(n, o, f, g).value, base, width, o, f, g) <==>
            Window(base, width, IntegerResult(o, At(f, 0), At(g, 0))) ==
            Window(base, width, IntegerResult(o, At(f, Last(f)), At(g, Last(g))))
  {
    if Answer(n, o, f, g).value.isPositive {
      RisingCourse(n, o, width, f, g);
      StillRisesIff(base, width, o, f, g);
    } else {
      FallingCourse(n, o, width, f, g);
      StillRisesIff(base, width, o, Backwards(f), Backwards(g));
      FallsIff(base, width, o, f, g);
      SameBackwards(o, f, g, 0, 0);
      SameBackwards(o, f, g, Last(f), Last(g));
    }
  }

  const UINT64_WIDTH := 0x1_0000_0000_0000_0000

  /** The failing input: adding one to an unsigned 64-bit column that reaches the greatest number. */
  lemma PlusWraps(n: Numbers)
    requires Valid(n)
    ensures var f, one := Operand(0, UINT64_WIDTH - 1, true, false), Operand(1, 1, true, true);
            var m := Answer(n, Plus, f, one);
            && m.Ok? && m.value.isMonotonic && m.value.isPositive
            && !RightWrapped(m.value, 0, UINT64_WIDTH, Plus, f, one)
            && Wrap(0, UINT64_WIDTH, IntegerResult(Plus, UINT64_WIDTH - 1, 1)) == 0
  {
    WrappedAnswerIff(n, Plus, 0, UINT64_WIDTH, Operand(0, UINT64_WIDTH - 1, true, false), Operand(1, 1, true, true));
  }

  // ----- Absolute values -----

  const INT64_MIN := -0x8000_0000_0000_0000

  type Int64 = x: int | INT64_MIN <= x < -INT64_MIN
  type UInt64 = x: int | 0 <= x < UINT64_WIDTH

  /** `impl_abs_function` on a column of signed 64-bit integers: the least number fails the whole column. */
  method AbsColumn(column: seq<Int64>) returns (r: Result<seq<UInt64>, string>)
    ensures r.Ok? <==> INT64_MIN !in column
    ensures r.Ok? ==> |r.value| == |column|
    ensures r.Ok? ==> forall i :: 0 <= i < |column| ==> r.value[i] == IntegerResult(Absolute, column[i], 0)
  {
    var out: seq<UInt64>, failed := [], false;
    for k := 0 to |column|
      invariant failed <==> INT64_MIN in column[..k]
      invariant |out| == k
      invariant forall i :: 0 <= i < k && column[i] != INT64_MIN ==>
                  out[i] == IntegerResult(Absolute, column[i], 0)
    {
      if column[k] == INT64_MIN {
        failed := true;
        out := out + [0];
      } else {
        out := out + [if column[k] < 0 then -column[k] else column[k]];
      }
      assert column[..k + 1] == column[..k] + [column[k]];
    }
    assert column[..|column|] == column;
    r := if failed then Err("Overflow on abs signed number") else Ok(out);
  }
}
