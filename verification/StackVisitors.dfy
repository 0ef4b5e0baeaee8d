/**
  Visitors that keep one result per finished subtree on a stack: type inference, rewriting and
  monotonicity all pop a node's arguments and push its result. One theorem covers them: driven by
  the visitor machine they compute a fold over the expression tree.
 */
module StackVisitors {
  import opened Wrappers
  import opened Expressions
  import opened Visitor

  datatype State<T, X> = State(inner: T, stack: seq<X>)

  function Reverse<X>(xs: seq<X>): (r: seq<X>)
    ensures |r| == |xs| && forall i :: 0 <= i < |xs| ==> r[i] == xs[|xs| - 1 - i]
  {
    seq(|xs|, i requires 0 <= i < |xs| => xs[|xs| - 1 - i])
  }

  /** The arguments popped one by one, the top of the stack first. */
  datatype Arguments<X> = Underflow | Arguments(args: seq<X>, rest: seq<X>)

  function Pop<X>(stack: seq<X>, n: nat): (a: Arguments<X>)
    ensures a.Underflow? <==> |stack| < n
    ensures a.Arguments? ==> |a.args| == n && a.rest + Reverse(a.args) == stack
  {
    if |stack| < n then Underflow else Arguments(Reverse(stack[|stack| - n..]), stack[..|stack| - n])
  }

  /** The popping loop of `post_visit` and `visit_function`. */
  method PopArguments<X>(stack: seq<X>, n: nat) returns (a: Arguments<X>)
    ensures a == Pop(stack, n)
  {
    var rest, args := stack, [];
    for index := 0 to n
      invariant index <= |stack| && |args| == index
      invariant rest == stack[..|stack| - index]
      invariant args == Reverse(stack[|stack| - index..])
    {
      if rest == [] { return Underflow; }
      args := args + [rest[|rest| - 1]];
      rest := rest[..|rest| - 1];
    }
    a := Arguments(args, rest);
  }

  lemma PopPushed<X>(stack: seq<X>, xs: seq<X>)
    ensures Pop(stack + Reverse(xs), |xs|) == Arguments(xs, stack)
  {
    var all := stack + Reverse(xs);
    assert all[|all| - |xs|..] == Reverse(xs) && all[..|all| - |xs|] == stack;
    assert Reverse(Reverse(xs)) == xs;
  }

  // ----- The fold -----

  datatype Hooks<!T, !X, !E> = Hooks(
    before: (T, Expression) -> Result<(T, bool), E>,
    combine: (T, Expression, seq<X>) -> Result<(T, X), E>)

  /** A node's result from its children's, which are computed last to first and passed left to right. */
  function Fold<T, X, E>(h: Hooks<T, X, E>, t: T, e: Expression): Result<(T, X), E>
    decreases Size(e), 0
  {
    var (t1, _) :- h.before(t, e);
    var (t2, xs) :- FoldAll(h, t1, Children(e));
    h.combine(t2, e, xs)
  }

  function FoldAll<T, X, E>(h: Hooks<T, X, E>, t: T, es: seq<Expression>): (r: Result<(T, seq<X>), E>)
    ensures r.Ok? ==> |r.value.1| == |es|
    decreases SizeAll(es), 1
  {
    if es == [] then Ok((t, []))
    else
      var (t1, x) :- Fold(h, t, es[|es| - 1]);
      var (t2, xs) :- FoldAll(h, t1, es[..|es| - 1]);
      Ok((t2, xs + [x]))
  }

  function Pushed<T, X, E>(stack: seq<X>, r: Result<(T, X), E>): Result<State<T, X>, E>
  {
    match r
    case Err(x) => Err(x)
    case Ok((t, x)) => Ok(State(t, stack + [x]))
  }

  /** The visitor's hooks act as `h` does, on every stack that holds the node's arguments. */
  ghost predicate Implements<T(!new), X(!new), E(!new)>(v: Visitor<State<T, X>, E>, h: Hooks<T, X, E>)
  {
    && (forall t, stack, e :: v.pre(State(t, stack), e) == PreOf(h, t, stack, e))
    && (forall t, stack, e, xs :: |xs| == |Children(e)| ==> PostMatches(v, h, t, stack, e, xs))
    && (forall t, e :: Children(e) != [] && h.before(t, e).Ok? ==> h.before(t, e).value.1)
  }

  function PreOf<T, X, E>(h: Hooks<T, X, E>, t: T, stack: seq<X>, e: Expression): Result<Recursion<State<T, X>>, E>
  {
    var (t1, descend) :- h.before(t, e);
    Ok(if descend then Continue(State(t1, stack)) else Stop(State(t1, stack)))
  }

  ghost predicate PostMatches<T(!new), X(!new), E(!new)>(
      v: Visitor<State<T, X>, E>, h: Hooks<T, X, E>, t: T, stack: seq<X>, e: Expression, xs: seq<X>)
  {
    v.post(State(t, stack + Reverse(xs)), e) == Pushed(stack, h.combine(t, e, xs))
  }

  /** From any stack, the walk of a subtree pushes exactly its fold, or stops with the fold's error. */
  lemma {:induction false} WalkIsFold<T(!new), X(!new), E(!new)>(
      v: Visitor<State<T, X>, E>, h: Hooks<T, X, E>, t: T, stack: seq<X>, e: Expression)
    requires Implements(v, h)
    ensures Walk(v, State(t, stack), e) == Pushed(stack, Fold(h, t, e))
    decreases Size(e), 0
  {
    var cs := Children(e);
    assert v.pre(State(t, stack), e) == PreOf(h, t, stack, e);
    var b := h.before(t, e);
    if b.Ok? {
      var (t1, descend) := b.value;
      var r := FoldAll(h, t1, cs);
      WalkAllIsFold(v, h, t1, stack, cs);
      if r.Ok? {
        var (t2, xs) := r.value;
        assert PostMatches(v, h, t2, stack, e, xs);
        if !descend {
          assert stack + Reverse(xs) == stack;
        }
      }
    }
  }

  lemma {:induction false} WalkAllIsFold<T(!new), X(!new), E(!new)>(
      v: Visitor<State<T, X>, E>, h: Hooks<T, X, E>, t: T, stack: seq<X>, es: seq<Expression>)
    requires Implements(v, h)
    ensures WalkLastFirst(v, State(t, stack), es) ==
            match FoldAll(h, t, es)
            case Err(x) => Err(x)
            case Ok((t', xs)) => Ok(State(t', stack + Reverse(xs)))
    decreases SizeAll(es), 1
  {
    if es == [] {
      assert stack + Reverse([]) == stack;
    } else {
      var last, rest := es[|es| - 1], es[..|es| - 1];
      WalkIsFold(v, h, t, stack, last);
      var r := Fold(h, t, last);
      if r.Ok? {
        var (t1, x) := r.value;
        WalkAllIsFold(v, h, t1, stack + [x], rest);
        var q := FoldAll(h, t1, rest);
        if q.Ok? {
          var xs := q.value.1;
          assert stack + [x] + Reverse(xs) == stack + Reverse(xs + [x]);
        }
      }
    }
  }
}
