/**
  The monotonicity answers of the arithmetic functions
  (common/functions/src/scalars: arithmetics/arithmetic_plus.rs, arithmetic_minus.rs,
  arithmetic_negate.rs, arithmetic_mul.rs, maths/abs.rs, function_monotonic.rs), over real numbers.
 */
module ArithmeticMonotonicity {
  import opened Wrappers
  import opened Expressions
  import opened Monotonicity

  /** Numeric values and back. */
  datatype Numbers = Numbers(num: Value -> real, of: real -> Value)

  ghost predicate Valid(n: Numbers)
  {
    forall r :: n.num(n.of(r)) == r
  }

  function Leq(n: Numbers): (Value, Value) -> bool
  {
    (x: Value, y: Value) => n.num(x) <= n.num(y)
  }

  function Create(isMonotonic: bool, isPositive: bool, isConstant: bool): Mono
  {
    Mono(isMonotonic, isPositive, isConstant, None, None)
  }

  /** `compare_with_zero`: 1 if the range is at or above zero, -1 if at or below, 0 if unknown. */
  function CompareWithZero(n: Numbers, m: Mono): Result<int, string>
  {
    if !m.isMonotonic then Err("not monotonic")
    else
      var (min, max) := if m.isPositive then (m.left, m.right) else (m.right, m.left);
      if min.None? || max.None? then Ok(0)
      else if n.num(min.value) >= 0.0 then Ok(1)
      else if m.isConstant then Ok(-1)
      else if n.num(max.value) <= 0.0 then Ok(-1)
      else Ok(0)
  }

  function PlusMono(f: Mono, g: Mono): Result<Mono, string>
  {
    if !f.isMonotonic || !g.isMonotonic then Ok(DEFAULT_MONO)
    else if f.isConstant then Ok(Create(g.isMonotonic, g.isPositive, g.isConstant))
    else if g.isConstant then Ok(Create(f.isMonotonic, f.isPositive, f.isConstant))
    else if f.isPositive != g.isPositive then Ok(DEFAULT_MONO)
    else Ok(Create(true, f.isPositive, false))
  }

  function MinusMono(f: Mono, g: Mono): Result<Mono, string>
  {
    if f.isConstant then Ok(Create(g.isMonotonic || g.isConstant, !g.isPositive, g.isConstant))
    else if g.isConstant then Ok(Create(f.isMonotonic, f.isPositive, f.isConstant))
    else if !f.isMonotonic || !g.isMonotonic then Ok(DEFAULT_MONO)
    else if f.isPositive == g.isPositive then Ok(DEFAULT_MONO)
    else Ok(Create(true, f.isPositive, false))
  }

  function NegateMono(f: Mono): Result<Mono, string>
  {
    Ok(Create(f.isMonotonic || f.isConstant, !f.isPositive, f.isConstant))
  }

  function AbsMono(n: Numbers, f: Mono): Result<Mono, string>
  {
    if f.isConstant then Ok(f)
    else if f.left.None? || f.right.None? then Ok(DEFAULT_MONO)
    else
      var c :- CompareWithZero(n, f);
      Ok(if c == 1 then Create(true, f.isPositive, false)
         else if c == -1 then Create(true, !f.isPositive, false)
         else DEFAULT_MONO)
  }

  /** `arithmetic_mul_div_monotonicity`; the `unreachable!` arms are errors here. */
  function MulDivMono(n: Numbers, isMul: bool, f: Mono, g: Mono): Result<Mono, string>
  {
    if f.isConstant && g.isConstant then Ok(CONSTANT_MONO)
    else if f.isConstant then
      var c :- CompareWithZero(n, f);
      if c == 0 then Err("unreachable")
      else if isMul then Ok(Create(g.isMonotonic, if c == 1 then g.isPositive else !g.isPositive, g.isConstant))
      else
        var d :- CompareWithZero(n, g);
        Ok(if d == 0 then DEFAULT_MONO
           else Create(g.isMonotonic, if c == 1 then !g.isPositive else g.isPositive, g.isConstant))
    else if g.isConstant then
      var c :- CompareWithZero(n, g);
      if c == 0 then Err("unreachable")
      else Ok(Create(f.isMonotonic, if c == 1 then f.isPositive else !f.isPositive, f.isConstant))
    else if f.isMonotonic && g.isMonotonic then
      var c :- CompareWithZero(n, f);
      var d :- CompareWithZero(n, g);
      Ok(BothVary(isMul, c, d, f.isPositive, g.isPositive))
    else Ok(DEFAULT_MONO)
  }

  /** Neither operand is constant; `c` and `d` are the signs of their ranges. */
  function BothVary(isMul: bool, c: int, d: int, fUp: bool, gUp: bool): Mono
  {
    if c == 0 || d == 0 then DEFAULT_MONO
    else if c == d then
      // At or above zero; flipped where both are at or below.
      var (known, up) :=
        if (isMul && fUp && gUp) || (!isMul && fUp && !gUp) then (true, true)
        else if (isMul && !fUp && !gUp) || (!isMul && !fUp && gUp) then (true, false)
        else (false, false);
      Create(known, if c == -1 then !up else up, false)
    else
      // The left operand at or above zero, the right at or below; flipped the other way round.
      var (known, up) :=
        if (!isMul && fUp && gUp) || (isMul && fUp && !gUp) then (true, false)
        else if (!isMul && !fUp && !gUp) || (isMul && !fUp && gUp) then (true, true)
        else (false, false);
      Create(known, if c == -1 then !up else up, false)
  }

  // ----- Signs -----

  /** The sign `compare_with_zero` reports is the sign of every value in the range. */
  lemma SignIsRight(n: Numbers, m: Mono, u: Value)
    requires CompareWithZero(n, m).Ok? && Between(Leq(n), m, u)
    ensures CompareWithZero(n, m).value == 1 ==> n.num(u) >= 0.0
    ensures CompareWithZero(n, m).value == -1 ==> n.num(u) <= 0.0
  {
    var leq := Leq(n);
    if m.left.Some? {
      assert leq(m.left.value, u) == (n.num(m.left.value) <= n.num(u));
      assert leq(u, m.left.value) == (n.num(u) <= n.num(m.left.value));
    }
    if m.right.Some? {
      assert leq(m.right.value, u) == (n.num(m.right.value) <= n.num(u));
      assert leq(u, m.right.value) == (n.num(u) <= n.num(m.right.value));
    }
  }

  // ----- Products and quotients of ordered numbers -----

  lemma ScaleUp(k: real, x: real, y: real)
    requires k >= 0.0 && x <= y
    ensures k * x <= k * y
  {
  }

  lemma ProductUp(x: real, y: real, x': real, y': real)
    requires 0.0 <= x <= x' && 0.0 <= y <= y'
    ensures x * y <= x' * y'
  {
    ScaleUp(x, y, y');
    ScaleUp(y', x, x');
  }

  lemma ReciprocalDown(y: real, y': real)
    requires 0.0 < y' <= y
    ensures 0.0 <= 1.0 / y <= 1.0 / y'
  {
    assert y * (1.0 / y) == 1.0 && y' * (1.0 / y') == 1.0;
  }

  lemma QuotientUp(x: real, y: real, x': real, y': real)
    requires 0.0 <= x <= x' && 0.0 < y' <= y
    ensures x / y <= x' / y'
  {
    ReciprocalDown(y, y');
    ProductUp(x, 1.0 / y, x', 1.0 / y');
    assert x / y == x * (1.0 / y) && x' / y' == x' * (1.0 / y');
  }

  // ----- Soundness of each answer -----

  /** Argument `i` moves from `u` to `v` as `m` says, within its range. */
  ghost predicate Moves(n: Numbers, m: Mono, u: Value, v: Value)
  {
    Follows(Leq(n), m, u, v) && Between(Leq(n), m, u) && Between(Leq(n), m, v)
  }

  /** Read as numbers. */
  lemma MovesAsNumbers(n: Numbers, m: Mono, u: Value, v: Value)
    requires Follows(Leq(n), m, u, v)
    ensures m.isConstant ==> n.num(u) == n.num(v)
    ensures m.isMonotonic && m.isPositive ==> n.num(u) <= n.num(v)
    ensures m.isMonotonic && !m.isPositive ==> n.num(v) <= n.num(u)
  {
    var leq := Leq(n);
    assert leq(u, v) == (n.num(u) <= n.num(v)) && leq(v, u) == (n.num(v) <= n.num(u));
  }

  /** And back, for a result built from a number. */
  lemma FollowsFromNumbers(n: Numbers, m: Mono, x: real, y: real)
    requires Valid(n)
    requires m.isConstant ==> x == y
    requires m.isMonotonic && m.isPositive ==> x <= y
    requires m.isMonotonic && !m.isPositive ==> y <= x
    ensures Follows(Leq(n), m, n.of(x), n.of(y))
  {
    var leq := Leq(n);
    assert leq(n.of(x), n.of(y)) == (x <= y) && leq(n.of(y), n.of(x)) == (y <= x);
  }

  lemma PlusSound(n: Numbers, f: Mono, g: Mono, u1: Value, u2: Value, v1: Value, v2: Value)
    requires Valid(n) && Moves(n, f, u1, v1) && Moves(n, g, u2, v2)
    ensures Follows(Leq(n), PlusMono(f, g).value, n.of(n.num(u1) + n.num(u2)), n.of(n.num(v1) + n.num(v2)))
  {
    MovesAsNumbers(n, f, u1, v1);
    MovesAsNumbers(n, g, u2, v2);
    FollowsFromNumbers(n, PlusMono(f, g).value, n.num(u1) + n.num(u2), n.num(v1) + n.num(v2));
  }

  lemma MinusSound(n: Numbers, f: Mono, g: Mono, u1: Value, u2: Value, v1: Value, v2: Value)
    requires Valid(n) && Moves(n, f, u1, v1) && Moves(n, g, u2, v2)
    ensures Follows(Leq(n), MinusMono(f, g).value, n.of(n.num(u1) - n.num(u2)), n.of(n.num(v1) - n.num(v2)))
  {
    MovesAsNumbers(n, f, u1, v1);
    MovesAsNumbers(n, g, u2, v2);
    FollowsFromNumbers(n, MinusMono(f, g).value, n.num(u1) - n.num(u2), n.num(v1) - n.num(v2));
  }

  lemma NegateSound(n: Numbers, f: Mono, u: Value, v: Value)
    requires Valid(n) && Moves(n, f, u, v)
    ensures Follows(Leq(n), NegateMono(f).value, n.of(-n.num(u)), n.of(-n.num(v)))
  {
    MovesAsNumbers(n, f, u, v);
    FollowsFromNumbers(n, NegateMono(f).value, -n.num(u), -n.num(v));
  }

  function Abs(x: real): real { if x < 0.0 then -x else x }

  lemma AbsSound(n: Numbers, f: Mono, u: Value, v: Value)
    requires Valid(n) && Moves(n, f, u, v) && AbsMono(n, f).Ok?
    ensures Follows(Leq(n), AbsMono(n, f).value, n.of(Abs(n.num(u))), n.of(Abs(n.num(v))))
  {
    MovesAsNumbers(n, f, u, v);
    if CompareWithZero(n, f).Ok? {
      SignIsRight(n, f, u);
      SignIsRight(n, f, v);
    }
    FollowsFromNumbers(n, AbsMono(n, f).value, Abs(n.num(u)), Abs(n.num(v)));
  }

  /** Two varying factors, by the signs of their ranges. */
  lemma BothVaryMul(c: int, d: int, fUp: bool, gUp: bool, x: real, y: real, x': real, y': real)
    requires c in {1, -1} && d in {1, -1}
    requires if c == 1 then x >= 0.0 && x' >= 0.0 else x <= 0.0 && x' <= 0.0
    requires if d == 1 then y >= 0.0 && y' >= 0.0 else y <= 0.0 && y' <= 0.0
    requires (if fUp then x <= x' else x' <= x) && (if gUp then y <= y' else y' <= y)
    ensures var m := BothVary(true, c, d, fUp, gUp);
            && (m.isMonotonic && m.isPositive ==> x * y <= x' * y')
            && (m.isMonotonic && !m.isPositive ==> x' * y' <= x * y)
  {
    var a, b, a', b' := Abs(x), Abs(y), Abs(x'), Abs(y');
    assert x * y == (if c == d then a * b else -(a * b));
    assert x' * y' == (if c == d then a' * b' else -(a' * b'));
    if a <= a' && b <= b' { ProductUp(a, b, a', b'); }
    if a' <= a && b' <= b { ProductUp(a', b', a, b); }
  }

  /** Scaling by a constant of sign `c`. */
  lemma Scaled(c: int, k: real, up: bool, x: real, x': real)
    requires c in {1, -1} && (if c == 1 then k >= 0.0 else k <= 0.0)
    requires if up then x <= x' else x' <= x
    ensures if (c == 1) == up then k * x <= k * x' else k * x' <= k * x
  {
    var lo, hi := if up then x else x', if up then x' else x;
    ScaleUp(Abs(k), lo, hi);
  }

  /** `Follows`, on numbers. */
  ghost predicate NumFollows(m: Mono, x: real, y: real)
  {
    && (m.isConstant ==> x == y)
    && (m.isMonotonic && m.isPositive ==> x <= y)
    && (m.isMonotonic && !m.isPositive ==> y <= x)
  }

  /** The number has the sign that `compare_with_zero` reports, if it reports one. */
  ghost predicate HasSign(n: Numbers, m: Mono, x: real)
  {
    CompareWithZero(n, m).Ok? ==>
      && (CompareWithZero(n, m).value == 1 ==> x >= 0.0)
      && (CompareWithZero(n, m).value == -1 ==> x <= 0.0)
      && CompareWithZero(n, m).value in {-1, 0, 1}
  }

  /** An argument that moves from `x` to `y`, both of the reported sign. */
  ghost predicate NumMoves(n: Numbers, m: Mono, x: real, y: real)
  {
    NumFollows(m, x, y) && HasSign(n, m, x) && HasSign(n, m, y)
  }

  lemma MovesToNumbers(n: Numbers, m: Mono, u: Value, v: Value)
    requires Moves(n, m, u, v)
    ensures NumMoves(n, m, n.num(u), n.num(v))
  {
    MovesAsNumbers(n, m, u, v);
    if CompareWithZero(n, m).Ok? {
      SignIsRight(n, m, u);
      SignIsRight(n, m, v);
    }
  }

  lemma MulConstantLeft(n: Numbers, f: Mono, g: Mono, x: real, y: real, x': real, y': real)
    requires f.isConstant && !g.isConstant && NumMoves(n, f, x, x') && NumMoves(n, g, y, y') &&
             MulDivMono(n, true, f, g).Ok?
    ensures NumFollows(MulDivMono(n, true, f, g).value, x * y, x' * y')
  {
    if g.isMonotonic {
      Scaled(CompareWithZero(n, f).value, x, g.isPositive, y, y');
    }
  }

  lemma MulConstantRight(n: Numbers, f: Mono, g: Mono, x: real, y: real, x': real, y': real)
    requires !f.isConstant && g.isConstant && NumMoves(n, f, x, x') && NumMoves(n, g, y, y') &&
             MulDivMono(n, true, f, g).Ok?
    ensures NumFollows(MulDivMono(n, true, f, g).value, x * y, x' * y')
  {
    if f.isMonotonic {
      Scaled(CompareWithZero(n, g).value, y, f.isPositive, x, x');
      assert x * y == y * x && x' * y' == y' * x';
    }
  }

  lemma MulBothVary(n: Numbers, f: Mono, g: Mono, x: real, y: real, x': real, y': real)
    requires !f.isConstant && !g.isConstant && NumMoves(n, f, x, x') && NumMoves(n, g, y, y') &&
             MulDivMono(n, true, f, g).Ok?
    ensures NumFollows(MulDivMono(n, true, f, g).value, x * y, x' * y')
  {
    if f.isMonotonic && g.isMonotonic {
      var c, d := CompareWithZero(n, f).value, CompareWithZero(n, g).value;
      if c != 0 && d != 0 {
        BothVaryMul(c, d, f.isPositive, g.isPositive, x, y, x', y');
      }
    }
  }

  function Product(x: real, y: real): real
  {
    x * y
  }

  lemma MulNumbers(n: Numbers, f: Mono, g: Mono, x: real, y: real, x': real, y': real)
    requires NumMoves(n, f, x, x') && NumMoves(n, g, y, y') && MulDivMono(n, true, f, g).Ok?
    ensures NumFollows(MulDivMono(n, true, f, g).value, Product(x, y), Product(x', y'))
  {
    if f.isConstant && g.isConstant {
      assert x == x' && y == y';
    } else if f.isConstant {
      MulConstantLeft(n, f, g, x, y, x', y');
    } else if g.isConstant {
      MulConstantRight(n, f, g, x, y, x', y');
    } else {
      MulBothVary(n, f, g, x, y, x', y');
    }
  }

  lemma MulSound(n: Numbers, f: Mono, g: Mono, u1: Value, u2: Value, v1: Value, v2: Value)
    requires Valid(n) && Moves(n, f, u1, v1) && Moves(n, g, u2, v2) && MulDivMono(n, true, f, g).Ok?
    ensures Follows(Leq(n), MulDivMono(n, true, f, g).value,
                    n.of(Product(n.num(u1), n.num(u2))), n.of(Product(n.num(v1), n.num(v2))))
  {
    MovesToNumbers(n, f, u1, v1);
    MovesToNumbers(n, g, u2, v2);
    MulNumbers(n, f, g, n.num(u1), n.num(u2), n.num(v1), n.num(v2));
    FollowsFromNumbers(n, MulDivMono(n, true, f, g).value,
                       Product(n.num(u1), n.num(u2)), Product(n.num(v1), n.num(v2)));
  }

  // ----- Division -----

  lemma BothVaryDiv(c: int, d: int, fUp: bool, gUp: bool, x: real, y: real, x': real, y': real)
    requires c in {1, -1} && d in {1, -1} && y != 0.0 && y' != 0.0
    requires if c == 1 then x >= 0.0 && x' >= 0.0 else x <= 0.0 && x' <= 0.0
    requires if d == 1 then y >= 0.0 && y' >= 0.0 else y <= 0.0 && y' <= 0.0
    requires (if fUp then x <= x' else x' <= x) && (if gUp then y <= y' else y' <= y)
    ensures var m := BothVary(false, c, d, fUp, gUp);
            && (m.isMonotonic && m.isPositive ==> x / y <= x' / y')
            && (m.isMonotonic && !m.isPositive ==> x' / y' <= x / y)
  {
    var a, b, a', b' := Abs(x), Abs(y), Abs(x'), Abs(y');
    QuotientSign(x, y);
    QuotientSign(x', y');
    if a <= a' && b' <= b { QuotientUp(a, b, a', b'); }
    if a' <= a && b <= b' { QuotientUp(a', b', a, b); }
  }

  lemma QuotientSign(x: real, y: real)
    requires y != 0.0
    ensures (x >= 0.0 && y > 0.0) || (x <= 0.0 && y < 0.0) ==> x / y == Abs(x) / Abs(y)
    ensures (x >= 0.0 && y < 0.0) || (x <= 0.0 && y > 0.0) ==> x / y == -(Abs(x) / Abs(y))
  {
    var q := Abs(x) / Abs(y);
    assert q * Abs(y) == Abs(x);
  }

  lemma DivConstantLeft(n: Numbers, f: Mono, g: Mono, x: real, y: real, x': real, y': real)
    requires f.isConstant && !g.isConstant && NumMoves(n, f, x, x') && NumMoves(n, g, y, y') &&
             MulDivMono(n, false, f, g).Ok?
    requires y != 0.0 && y' != 0.0
    ensures NumFollows(MulDivMono(n, false, f, g).value, x / y, x' / y')
  {
    var c, d := CompareWithZero(n, f).value, CompareWithZero(n, g).value;
    if d != 0 {
      // A constant numerator is one that moves both ways.
      BothVaryDiv(c, d, true, g.isPositive, x, y, x', y');
      BothVaryDiv(c, d, false, g.isPositive, x, y, x', y');
    }
  }

  lemma DivConstantRight(n: Numbers, f: Mono, g: Mono, x: real, y: real, x': real, y': real)
    requires !f.isConstant && g.isConstant && NumMoves(n, f, x, x') && NumMoves(n, g, y, y') &&
             MulDivMono(n, false, f, g).Ok?
    requires y != 0.0 && y' != 0.0
    ensures NumFollows(MulDivMono(n, false, f, g).value, x / y, x' / y')
  {
    var k := 1.0 / y;
    QuotientIsProduct(x, y);
    QuotientIsProduct(x', y);
    assert y' == y && x / y == k * x && x' / y' == k * x';
    if f.isMonotonic {
      Scaled(CompareWithZero(n, g).value, k, f.isPositive, x, x');
    }
  }

  lemma DivBothVary(n: Numbers, f: Mono, g: Mono, x: real, y: real, x': real, y': real)
    requires !f.isConstant && !g.isConstant && NumMoves(n, f, x, x') && NumMoves(n, g, y, y') &&
             MulDivMono(n, false, f, g).Ok?
    requires y != 0.0 && y' != 0.0
    ensures NumFollows(MulDivMono(n, false, f, g).value, x / y, x' / y')
  {
    if f.isMonotonic && g.isMonotonic {
      var c, d := CompareWithZero(n, f).value, CompareWithZero(n, g).value;
      if c != 0 && d != 0 {
        BothVaryDiv(c, d, f.isPositive, g.isPositive, x, y, x', y');
      }
    }
  }

  /** Away from zero, the answer for division is right. */
  lemma DivSound(n: Numbers, f: Mono, g: Mono, u1: Value, u2: Value, v1: Value, v2: Value)
    requires Valid(n) && Moves(n, f, u1, v1) && Moves(n, g, u2, v2) && MulDivMono(n, false, f, g).Ok?
    requires n.num(u2) != 0.0 && n.num(v2) != 0.0
    ensures Follows(Leq(n), MulDivMono(n, false, f, g).value, n.of(n.num(u1) / n.num(u2)), n.of(n.num(v1) / n.num(v2)))
  {
    var x, y, x', y' := n.num(u1), n.num(u2), n.num(v1), n.num(v2);
    MovesToNumbers(n, f, u1, v1);
    MovesToNumbers(n, g, u2, v2);
    if f.isConstant && !g.isConstant {
      DivConstantLeft(n, f, g, x, y, x', y');
    } else if !f.isConstant && g.isConstant {
      DivConstantRight(n, f, g, x, y, x', y');
    } else if !f.isConstant {
      DivBothVary(n, f, g, x, y, x', y');
    }
    FollowsFromNumbers(n, MulDivMono(n, false, f, g).value, x / y, x' / y');
  }

  lemma QuotientIsProduct(x: real, y: real)
    requires y != 0.0
    ensures x / y == (1.0 / y) * x
    ensures y > 0.0 ==> 1.0 / y > 0.0
    ensures y < 0.0 ==> 1.0 / y < 0.0
  {
  }

  /** The same, by what a caller knows of the divisor: both ends of its range, neither of them zero. */
  lemma DivSoundInRange(n: Numbers, f: Mono, g: Mono, u1: Value, u2: Value, v1: Value, v2: Value)
    requires Valid(n) && Moves(n, f, u1, v1) && Moves(n, g, u2, v2) && MulDivMono(n, false, f, g).Ok?
    requires g.isMonotonic && g.left.Some? && g.right.Some?
    requires (n.num(g.left.value) > 0.0 && n.num(g.right.value) > 0.0)
          || (n.num(g.left.value) < 0.0 && n.num(g.right.value) < 0.0)
    ensures n.num(u2) != 0.0 && n.num(v2) != 0.0
    ensures Follows(Leq(n), MulDivMono(n, false, f, g).value,
                    n.of(n.num(u1) / n.num(u2)), n.of(n.num(v1) / n.num(v2)))
  {
    RangeAvoidsZero(n, g, u2);
    RangeAvoidsZero(n, g, v2);
    DivSound(n, f, g, u1, u2, v1, v2);
  }

  lemma RangeAvoidsZero(n: Numbers, g: Mono, u: Value)
    requires Between(Leq(n), g, u) && g.isMonotonic && g.left.Some? && g.right.Some?
    requires (n.num(g.left.value) > 0.0 && n.num(g.right.value) > 0.0)
          || (n.num(g.left.value) < 0.0 && n.num(g.right.value) < 0.0)
    ensures n.num(u) != 0.0
  {
    MovesAsNumbers(n, g, g.left.value, u);
    MovesAsNumbers(n, g, u, g.right.value);
  }

  // ----- Division by a range that ends at zero -----

  function Constant(n: Numbers, k: real): Mono
  {
    Mono(true, true, true, Some(n.of(k)), Some(n.of(k)))
  }

  /** A variable that rises from `lo` to `hi`. */
  function Rising(n: Numbers, lo: real, hi: real): Mono
  {
    Mono(true, true, false, Some(n.of(lo)), Some(n.of(hi)))
  }

  /** An answer is right about a function of that variable, on all moves. */
  ghost predicate RightOn<T(!new)>(m: Mono, leq: (T, T) -> bool, f: real -> T, lo: real, hi: real)
  {
    forall x, y :: lo <= x <= y <= hi && m.isMonotonic ==> if m.isPositive then leq(f(x), f(y)) else leq(f(y), f(x))
  }

  /** The answer for a non-zero constant over the variable: none where the range has zero inside. */
  lemma DivAnswer(n: Numbers, k: real, lo: real, hi: real)
    requires Valid(n) && k != 0.0 && lo < hi
    ensures MulDivMono(n, false, Constant(n, k), Rising(n, lo, hi)) ==
            Ok(if lo < 0.0 < hi then DEFAULT_MONO else Create(true, k < 0.0, false))
  {
    assert CompareWithZero(n, Constant(n, k)) == Ok(if k > 0.0 then 1 else -1);
  }

  lemma QuotientFalls(k: real, x: real, y: real)
    requires x <= y && (0.0 < x || y < 0.0)
    ensures k >= 0.0 ==> k / y <= k / x
    ensures k <= 0.0 ==> k / x <= k / y
  {
    var a, x', y' := Abs(k), Abs(x), Abs(y);
    QuotientSign(k, x);
    QuotientSign(k, y);
    if x > 0.0 {
      QuotientUp(a, y', a, x');
    } else {
      QuotientUp(a, x', a, y');
    }
  }

  /** Numbers with the two infinities, as floating-point division gives them. */
  datatype Extended = MinusInfinity | Finite(r: real) | PlusInfinity

  function ExtendedLeq(): (Extended, Extended) -> bool
  {
    (u: Extended, v: Extended) =>
      u.MinusInfinity? || v.PlusInfinity? || (u.Finite? && v.Finite? && u.r <= v.r)
  }

  /** `div_scalar`: a non-zero number over zero is infinite, with the sign of the number. */
  function FloatQuotient(k: real): real -> Extended
  {
    (y: real) => if y != 0.0 then Finite(k / y) else if k > 0.0 then PlusInfinity else MinusInfinity
  }

  lemma FloatQuotientFalls(k: real, x: real, y: real)
    requires k != 0.0 && x <= y && (0.0 <= x || y < 0.0)
    ensures if k > 0.0 then ExtendedLeq()(FloatQuotient(k)(y), FloatQuotient(k)(x))
            else ExtendedLeq()(FloatQuotient(k)(x), FloatQuotient(k)(y))
  {
    if x != 0.0 {
      QuotientFalls(k, x, y);
    }
  }

  /**
    Under floating-point division the answer is right on all moves exactly when the range does not end at
    zero from below.
   */
  lemma FloatDivRightIff(n: Numbers, k: real, lo: real, hi: real)
    requires Valid(n) && k != 0.0 && lo < hi
    ensures var m := MulDivMono(n, false, Constant(n, k), Rising(n, lo, hi));
            m.Ok? && (RightOn(m.value, ExtendedLeq(), FloatQuotient(k), lo, hi) <==> hi != 0.0)
  {
    var q, m := FloatQuotient(k), MulDivMono(n, false, Constant(n, k), Rising(n, lo, hi));
    DivAnswer(n, k, lo, hi);
    if hi == 0.0 {
      QuotientSign(k, lo);
      assert q(lo) == Finite(k / lo) && q(hi) == (if k > 0.0 then PlusInfinity else MinusInfinity);
      assert !RightOn(m.value, ExtendedLeq(), q, lo, hi);
    } else if !(lo < 0.0 < hi) {
      forall x, y | lo <= x <= y <= hi
        ensures if k < 0.0 then ExtendedLeq()(q(x), q(y)) else ExtendedLeq()(q(y), q(x))
      {
        FloatQuotientFalls(k, x, y);
      }
    }
  }

  /** The failing input: 12 over a variable between -1 and 0. */
  lemma DivUnsoundAtZero(n: Numbers)
    requires Valid(n)
    ensures var m := MulDivMono(n, false, Constant(n, 12.0), Rising(n, -1.0, 0.0)).value;
            && m.isMonotonic && !m.isPositive
            && !ExtendedLeq()(FloatQuotient(12.0)(0.0), FloatQuotient(12.0)(-1.0))
  {
    DivAnswer(n, 12.0, -1.0, 0.0);
  }

  /** Division with a number read for a division by zero. */
  function RealQuotient(k: real, atZero: real): real -> real
  {
    (y: real) => if y != 0.0 then k / y else atZero
  }

  /** Close enough to zero, on the given side, a quotient is beyond any number. */
  lemma QuotientUnbounded(k: real, bound: real, end: real) returns (y: real)
    requires k != 0.0 && end != 0.0
    ensures if end > 0.0 then 0.0 < y <= end else end <= y < 0.0
    ensures if (k > 0.0) == (end > 0.0) then k / y > bound else k / y < bound
  {
    var a, b := Abs(k), Abs(bound) + 1.0;
    var small := if a / b < Abs(end) then a / b else Abs(end);
    PositiveQuotient(a, b);
    y := if end > 0.0 then small else -small;
    QuotientUp(a, a / b, a, small);
    DoubleQuotient(a, b);
    QuotientSign(k, y);
  }

  lemma PositiveQuotient(a: real, b: real)
    requires a > 0.0 && b > 0.0
    ensures a / b > 0.0
  {
  }

  lemma DoubleQuotient(a: real, b: real)
    requires a > 0.0 && b > 0.0
    ensures a / b > 0.0 && a / (a / b) == b
  {
    var q := a / b;
    assert q * b == a;
  }

  /** With any number read for it, the answer is right on all moves exactly when neither end is zero. */
  lemma RealDivRightIff(n: Numbers, k: real, atZero: real, lo: real, hi: real)
    requires Valid(n) && k != 0.0 && lo < hi
    ensures var m := MulDivMono(n, false, Constant(n, k), Rising(n, lo, hi));
            m.Ok? && (RightOn(m.value, (x: real, y: real) => x <= y, RealQuotient(k, atZero), lo, hi) <==>
                      lo != 0.0 && hi != 0.0)
  {
    var leq, q := (x: real, y: real) => x <= y, RealQuotient(k, atZero);
    var m := MulDivMono(n, false, Constant(n, k), Rising(n, lo, hi)).value;
    DivAnswer(n, k, lo, hi);
    if lo == 0.0 {
      var y := QuotientUnbounded(k, atZero, hi);
      assert q(y) == k / y && q(lo) == atZero;
      assert !RightOn(m, leq, q, lo, hi);
    } else if hi == 0.0 {
      var y := QuotientUnbounded(k, atZero, lo);
      assert q(y) == k / y && q(hi) == atZero;
      assert !RightOn(m, leq, q, lo, hi);
    } else if !(lo < 0.0 < hi) {
      forall x, y | lo <= x <= y <= hi
        ensures if k < 0.0 then leq(q(x), q(y)) else leq(q(y), q(x))
      {
        QuotientFalls(k, x, y);
      }
    }
  }

  // ----- Division of two variables -----

  /** A variable that moves through a range, up or down. */
  function Moving(n: Numbers, lo: real, hi: real, up: bool): Mono
  {
    Mono(true, up, false, Some(n.of(if up then lo else hi)), Some(n.of(if up then hi else lo)))
  }

  /** Two variables in their ranges. */
  datatype Ranges = Ranges(lo: real, hi: real, up: bool, divisorLo: real, divisorHi: real, divisorUp: bool)

  /** Both ranges are proper, and the numerator has one strict sign. */
  predicate Strict(r: Ranges)
  {
    r.lo < r.hi && r.divisorLo < r.divisorHi && (r.lo > 0.0 || r.hi < 0.0)
  }

  predicate Along(up: bool, x: real, x': real)
  {
    if up then x <= x' else x' <= x
  }

  /** A move of both variables within their ranges. */
  predicate MovesIn(r: Ranges, x: real, y: real, x': real, y': real)
  {
    && Along(r.up, x, x') && r.lo <= x <= r.hi && r.lo <= x' <= r.hi
    && Along(r.divisorUp, y, y') && r.divisorLo <= y <= r.divisorHi && r.divisorLo <= y' <= r.divisorHi
  }

  function DivOf(n: Numbers, r: Ranges): Result<Mono, string>
  {
    MulDivMono(n, false, Moving(n, r.lo, r.hi, r.up), Moving(n, r.divisorLo, r.divisorHi, r.divisorUp))
  }

  /** The quotient follows the answer on one move. */
  predicate QuotientFollows(m: Mono, x: real, y: real, x': real, y': real)
  {
    var u, v := FloatQuotient(x)(y), FloatQuotient(x')(y');
    m.isMonotonic ==> if m.isPositive then ExtendedLeq()(u, v) else ExtendedLeq()(v, u)
  }

  ghost predicate QuotientRight(m: Mono, r: Ranges)
  {
    forall x, y, x', y' | MovesIn(r, x, y, x', y') :: QuotientFollows(m, x, y, x', y')
  }

  function SignOf(lo: real, hi: real): int
  {
    if lo >= 0.0 then 1 else if hi <= 0.0 then -1 else 0
  }

  lemma DivOfAnswer(n: Numbers, r: Ranges)
    requires Valid(n) && Strict(r)
    ensures DivOf(n, r) ==
            Ok(BothVary(false, SignOf(r.lo, r.hi), SignOf(r.divisorLo, r.divisorHi), r.up, r.divisorUp))
  {
    var f, g := Moving(n, r.lo, r.hi, r.up), Moving(n, r.divisorLo, r.divisorHi, r.divisorUp);
    assert CompareWithZero(n, f) == Ok(SignOf(r.lo, r.hi));
    assert CompareWithZero(n, g) == Ok(SignOf(r.divisorLo, r.divisorHi));
  }

  /** A divisor at or above zero: the quotient grows with the numerator's size and falls with the divisor. */
  lemma QuotientGrows(x: real, y: real, x': real, y': real)
    requires 0.0 <= y' <= y
    ensures 0.0 < x <= x' ==> ExtendedLeq()(FloatQuotient(x)(y), FloatQuotient(x')(y'))
    ensures x' <= x < 0.0 ==> ExtendedLeq()(FloatQuotient(x')(y'), FloatQuotient(x)(y))
  {
    if y' > 0.0 && Abs(x) <= Abs(x') {
      QuotientUp(Abs(x), y, Abs(x'), y');
      QuotientSign(x, y);
      QuotientSign(x', y');
    }
  }

  /** Below zero the answer is right as over the real numbers. */
  lemma BelowZeroFollows(n: Numbers, r: Ranges, x: real, y: real, x': real, y': real)
    requires Valid(n) && Strict(r) && MovesIn(r, x, y, x', y') && y < 0.0 && y' < 0.0 && r.divisorHi <= 0.0
    ensures DivOf(n, r).Ok? && QuotientFollows(DivOf(n, r).value, x, y, x', y')
  {
    DivOfAnswer(n, r);
    BothVaryDiv(SignOf(r.lo, r.hi), -1, r.up, r.divisorUp, x, y, x', y');
  }

  /** At or above zero it is right as well, where a division by zero is infinite. */
  lemma AboveZeroFollows(n: Numbers, r: Ranges, x: real, y: real, x': real, y': real)
    requires Valid(n) && Strict(r) && MovesIn(r, x, y, x', y') && r.divisorLo >= 0.0
    ensures DivOf(n, r).Ok? && QuotientFollows(DivOf(n, r).value, x, y, x', y')
  {
    DivOfAnswer(n, r);
    if y' <= y {
      QuotientGrows(x, y, x', y');
    }
    if y <= y' {
      QuotientGrows(x', y', x, y);
    }
  }

  /** Up to zero from below it is wrong on a move of the divisor alone. */
  lemma EndAtZeroFails(n: Numbers, r: Ranges)
    requires Valid(n) && Strict(r) && r.divisorHi == 0.0 && DivOf(n, r).Ok? && DivOf(n, r).value.isMonotonic
    ensures !QuotientRight(DivOf(n, r).value, r)
  {
    var x, lo := r.lo, r.divisorLo;
    DivOfAnswer(n, r);
    QuotientSign(x, lo);
    var (y, y') := if r.divisorUp then (lo, 0.0) else (0.0, lo);
    assert MovesIn(r, x, y, x, y');
    assert FloatQuotient(x)(0.0) == (if x > 0.0 then PlusInfinity else MinusInfinity);
    assert FloatQuotient(x)(lo) == Finite(x / lo);
    assert !QuotientFollows(DivOf(n, r).value, x, y, x, y');
  }

  /**
    For a numerator of one strict sign over a divisor, both varying: the answer is right on all moves exactly
    when it says nothing or the divisor's range does not end at zero from below.
   */
  lemma FloatDivBothIff(n: Numbers, r: Ranges)
    requires Valid(n) && Strict(r)
    ensures DivOf(n, r).Ok?
    ensures QuotientRight(DivOf(n, r).value, r) <==> !DivOf(n, r).value.isMonotonic || r.divisorHi != 0.0
  {
    DivOfAnswer(n, r);
    var m := DivOf(n, r).value;
    if r.divisorHi == 0.0 && m.isMonotonic {
      EndAtZeroFails(n, r);
    } else if m.isMonotonic {
      forall x, y, x', y' | MovesIn(r, x, y, x', y')
        ensures QuotientFollows(m, x, y, x', y')
      {
        if r.divisorHi < 0.0 {
          BelowZeroFollows(n, r, x, y, x', y');
        } else {
          AboveZeroFollows(n, r, x, y, x', y');
        }
      }
    }
  }

  // ----- Arithmetic expressions -----

  datatype Operator = Plus | Minus | Times | Negate | Absolute

  function Arity(o: Operator): nat
  {
    if o.Negate? || o.Absolute? then 1 else 2
  }

  function OperatorMono(n: Numbers, o: Operator, ms: seq<Mono>): Result<Mono, string>
    requires |ms| == Arity(o)
  {
    match o
    case Plus => PlusMono(ms[0], ms[1])
    case Minus => MinusMono(ms[0], ms[1])
    case Times => MulDivMono(n, true, ms[0], ms[1])
    case Negate => NegateMono(ms[0])
    case Absolute => AbsMono(n, ms[0])
  }

  function OperatorResult(n: Numbers, o: Operator, vs: seq<Value>): real
    requires |vs| == Arity(o)
  {
    match o
    case Plus => n.num(vs[0]) + n.num(vs[1])
    case Minus => n.num(vs[0]) - n.num(vs[1])
    case Times => Product(n.num(vs[0]), n.num(vs[1]))
    case Negate => -n.num(vs[0])
    case Absolute => Abs(n.num(vs[0]))
  }

  function OperatorValue(n: Numbers, o: Operator, vs: seq<Value>): Value
    requires |vs| == Arity(o)
  {
    n.of(OperatorResult(n, o, vs))
  }

  /** Function names that mean an operator, at its arity; all other uses are refused. */
  ghost predicate IsArithmetic(n: Numbers, names: string -> Option<Operator>, a: Analysis)
  {
    && Valid(n)
    && (forall op, types, ms :: a.functions.monotonicity(op, types, ms) ==
          if names(op).Some? && |ms| == Arity(names(op).value) then OperatorMono(n, names(op).value, ms)
          else Err("refused"))
    && (forall op, vs :: names(op).Some? && |vs| == Arity(names(op).value) ==>
         a.semantics.apply(op, vs) == OperatorValue(n, names(op).value, vs))
  }

  lemma PlusMinusSound(n: Numbers, o: Operator, ms: seq<Mono>, us: seq<Value>, vs: seq<Value>)
    requires Valid(n) && |us| == |vs| == |ms| == 2 && (o.Plus? || o.Minus?) && OperatorMono(n, o, ms).Ok?
    requires Moves(n, ms[0], us[0], vs[0]) && Moves(n, ms[1], us[1], vs[1])
    ensures Follows(Leq(n), OperatorMono(n, o, ms).value, OperatorValue(n, o, us), OperatorValue(n, o, vs))
  {
    if o.Plus? {
      PlusSound(n, ms[0], ms[1], us[0], us[1], vs[0], vs[1]);
    } else {
      MinusSound(n, ms[0], ms[1], us[0], us[1], vs[0], vs[1]);
    }
  }

  lemma UnarySound(n: Numbers, o: Operator, ms: seq<Mono>, us: seq<Value>, vs: seq<Value>)
    requires Valid(n) && |us| == |vs| == |ms| == 1 && (o.Negate? || o.Absolute?) && OperatorMono(n, o, ms).Ok?
    requires Moves(n, ms[0], us[0], vs[0])
    ensures Follows(Leq(n), OperatorMono(n, o, ms).value, OperatorValue(n, o, us), OperatorValue(n, o, vs))
  {
    if o.Negate? {
      NegateSound(n, ms[0], us[0], vs[0]);
    } else {
      AbsSound(n, ms[0], us[0], vs[0]);
    }
  }

  lemma OperatorSound(n: Numbers, o: Operator, ms: seq<Mono>, us: seq<Value>, vs: seq<Value>)
    requires Valid(n) && |us| == |vs| == |ms| == Arity(o) && OperatorMono(n, o, ms).Ok?
    requires forall i :: 0 <= i < |ms| ==> Moves(n, ms[i], us[i], vs[i])
    ensures Follows(Leq(n), OperatorMono(n, o, ms).value, OperatorValue(n, o, us), OperatorValue(n, o, vs))
  {
    if o.Times? {
      MulSound(n, ms[0], ms[1], us[0], us[1], vs[0], vs[1]);
    } else if o.Plus? || o.Minus? {
      PlusMinusSound(n, o, ms, us, vs);
    } else {
      UnarySound(n, o, ms, us, vs);
    }
  }

  lemma ArithmeticFunctionSound(n: Numbers, names: string -> Option<Operator>, a: Analysis, op: string)
    requires IsArithmetic(n, names, a)
    ensures FunctionSound(Leq(n), a, op)
  {
    forall types: seq<DataType>, ms, us, vs |
      |us| == |vs| == |ms| && a.functions.monotonicity(op, types, ms).Ok? && ArgumentsMove(Leq(n), ms, us, vs)
      ensures Follows(Leq(n), a.functions.monotonicity(op, types, ms).value,
                      a.semantics.apply(op, us), a.semantics.apply(op, vs))
    {
      assert forall i :: 0 <= i < |ms| ==> Moves(n, ms[i], us[i], vs[i]);
      OperatorSound(n, names(op).value, ms, us, vs);
    }
  }

  /** For every arithmetic expression, evaluated over the real numbers, the check is right. */
  lemma ArithmeticCheckIsSound(n: Numbers, names: string -> Option<Operator>, a: Analysis, e: Expression, p: Row,
                               q: Row)
    requires IsArithmetic(n, names, a) && Comparable(Leq(n), a, p, q)
    ensures Follows(Leq(n), Checked(a, e), Eval(a.semantics, p, e), Eval(a.semantics, q, e))
  {
    forall op ensures FunctionSound(Leq(n), a, op) {
      ArithmeticFunctionSound(n, names, a, op);
    }
    assert Preorder(Leq(n));
    CheckIsSound(Leq(n), a, e, p, q);
  }
}
