/**
  The expression rewriter (common/planners/src/plan_expression_rewriter.rs): a visitor that
  replaces each node by what a hook makes of it and of its rewritten children.
 */
module ExpressionRewriter {
  import opened Wrappers
  import opened Expressions
  import opened Visitor
  import opened StackVisitors

  /** `pre_visit` and the family of `mutate_*` hooks, one per kind of node, over the rewriter's state. */
  datatype Rewriter<!T, !E> = Rewriter(
    preVisit: (T, Expression) -> Result<(T, bool), E>,
    mutate: (T, Expression, seq<Expression>) -> Result<(T, Expression), E>)

  /** A hook's error, or one of the two `LogicalError`s about the stack. */
  datatype RewriteError<E> = Hook(error: E) | MissingArguments | WrongStackSize

  function OfHook<R, E>(r: Result<R, E>): Result<R, RewriteError<E>>
  {
    match r case Ok(x) => Ok(x) case Err(x) => Err(Hook(x))
  }

  type RewriteState<T> = State<T, Expression>

  function PreVisit<T, E>(w: Rewriter<T, E>, s: RewriteState<T>, e: Expression)
    : Result<Recursion<RewriteState<T>>, RewriteError<E>>
  {
    var (t, descend) :- OfHook(w.preVisit(s.inner, e));
    Ok(if descend then Continue(State(t, s.stack)) else Stop(State(t, s.stack)))
  }

  function PostVisit<T, E>(w: Rewriter<T, E>, s: RewriteState<T>, e: Expression)
    : Result<RewriteState<T>, RewriteError<E>>
  {
    match Pop(s.stack, |Children(e)|)
    case Underflow => Err(MissingArguments)
    case Arguments(args, rest) =>
      var (t, x) :- OfHook(w.mutate(s.inner, e, args));
      Ok(State(t, rest + [x]))
  }

  function RewriteVisitor<T, E>(w: Rewriter<T, E>): Visitor<RewriteState<T>, RewriteError<E>>
  {
    Visitor((s: RewriteState<T>, e: Expression) => PreVisit(w, s, e),
            (s: RewriteState<T>, e: Expression) => PostVisit(w, s, e))
  }

  function RewriteHooks<T, E>(w: Rewriter<T, E>): Hooks<T, Expression, RewriteError<E>>
  {
    Hooks((t: T, e: Expression) => OfHook(w.preVisit(t, e)),
          (t: T, e: Expression, args: seq<Expression>) => OfHook(w.mutate(t, e, args)))
  }

  /** The rewritten expression by recursion: children last to first, handed to the hook left to right. */
  function Rewritten<T, E>(w: Rewriter<T, E>, t: T, e: Expression): Result<Expression, RewriteError<E>>
  {
    match Fold(RewriteHooks(w), t, e)
    case Ok((_, x)) => Ok(x)
    case Err(x) => Err(x)
  }

  /** `pre_visit` descends into every node that has children. */
  ghost predicate Descends<T(!new), E(!new)>(w: Rewriter<T, E>)
  {
    forall t, e :: Children(e) != [] && w.preVisit(t, e).Ok? ==> w.preVisit(t, e).value.1
  }

  /** `ExpressionRewriter::mutate`. */
  method Mutate<T(!new), E(!new)>(w: Rewriter<T, E>, t: T, e: Expression)
    returns (r: Result<Expression, RewriteError<E>>)
    ensures Descends(w) ==> r == Rewritten(w, t, e)
    ensures r == Machine(w, t, e)
  {
    var walked := Visit(RewriteVisitor(w), State(t, []), e);
    if Descends(w) {
      RewriteWalk(w, t, e);
    }
    if walked.Err? { return Err(walked.error); }
    if |walked.value.stack| != 1 { return Err(WrongStackSize); }
    r := Ok(walked.value.stack[0]);
  }

  function Machine<T, E>(w: Rewriter<T, E>, t: T, e: Expression): Result<Expression, RewriteError<E>>
  {
    var s :- Walk(RewriteVisitor(w), State(t, []), e);
    if |s.stack| == 1 then Ok(s.stack[0]) else Err(WrongStackSize)
  }

  lemma RewriteVisitorImplements<T(!new), E(!new)>(w: Rewriter<T, E>)
    requires Descends(w)
    ensures Implements(RewriteVisitor(w), RewriteHooks(w))
  {
    var v, h := RewriteVisitor(w), RewriteHooks(w);
    forall t, stack, e, xs | |xs| == |Children(e)| ensures PostMatches(v, h, t, stack, e, xs) {
      PopPushed(stack, xs);
    }
  }

  lemma RewriteWalk<T(!new), E(!new)>(w: Rewriter<T, E>, t: T, e: Expression)
    requires Descends(w)
    ensures Machine(w, t, e) == Rewritten(w, t, e)
    ensures Machine(w, t, e).Err? ==> Machine(w, t, e).error.Hook?
  {
    RewriteVisitorImplements(w);
    WalkIsFold(RewriteVisitor(w), RewriteHooks(w), t, [], e);
    FoldErrors(w, t, e);
  }

  lemma {:induction false} FoldErrors<T(!new), E(!new)>(w: Rewriter<T, E>, t: T, e: Expression)
    ensures Fold(RewriteHooks(w), t, e).Err? ==> Fold(RewriteHooks(w), t, e).error.Hook?
    decreases Size(e), 0
  {
    var h, b := RewriteHooks(w), w.preVisit(t, e);
    if b.Ok? {
      FoldAllErrors(w, b.value.0, Children(e));
      var r := FoldAll(h, b.value.0, Children(e));
      if r.Ok? {
        assert h.combine(r.value.0, e, r.value.1) == OfHook(w.mutate(r.value.0, e, r.value.1));
      }
    }
  }

  lemma {:induction false} FoldAllErrors<T(!new), E(!new)>(w: Rewriter<T, E>, t: T, es: seq<Expression>)
    ensures FoldAll(RewriteHooks(w), t, es).Err? ==> FoldAll(RewriteHooks(w), t, es).error.Hook?
    decreases SizeAll(es), 1
  {
    if es != [] {
      FoldErrors(w, t, es[|es| - 1]);
      var r := Fold(RewriteHooks(w), t, es[|es| - 1]);
      if r.Ok? {
        FoldAllErrors(w, r.value.0, es[..|es| - 1]);
      }
    }
  }

  // ----- The default hooks -----

  /** The trait's defaults: always descend, rebuild every node over its rewritten children. */
  function DefaultRewriter<T, E>(fallback: E): Rewriter<T, E>
  {
    Rewriter((t: T, e: Expression) => Ok((t, true)),
             (t: T, e: Expression, cs: seq<Expression>) =>
               if |cs| == |Children(e)| then Ok((t, WithChildren(e, cs))) else Err(fallback))
  }

  lemma {:induction false} DefaultFold<T(!new), E(!new)>(fallback: E, t: T, e: Expression)
    ensures Fold(RewriteHooks(DefaultRewriter(fallback)), t, e) == Ok((t, e))
    decreases Size(e), 0
  {
    DefaultFoldAll(fallback, t, Children(e));
    var w: Rewriter<T, E> := DefaultRewriter(fallback);
    var h := RewriteHooks(w);
    assert h.before(t, e) == OfHook(w.preVisit(t, e)) == Ok((t, true));
    assert w.mutate(t, e, Children(e)) == Ok((t, WithChildren(e, Children(e))));
    assert h.combine(t, e, Children(e)) == OfHook(w.mutate(t, e, Children(e))) == Ok((t, e));
  }

  lemma FoldAllKeeps<T(!new), E(!new)>(h: Hooks<T, Expression, E>, t: T, es: seq<Expression>)
    requires es != [] && Fold(h, t, es[|es| - 1]) == Ok((t, es[|es| - 1]))
    requires FoldAll(h, t, es[..|es| - 1]) == Ok((t, es[..|es| - 1]))
    ensures FoldAll(h, t, es) == Ok((t, es))
  {
    assert es[..|es| - 1] + [es[|es| - 1]] == es;
  }

  lemma {:induction false} DefaultFoldAll<T(!new), E(!new)>(fallback: E, t: T, es: seq<Expression>)
    ensures FoldAll(RewriteHooks(DefaultRewriter(fallback)), t, es) == Ok((t, es))
    decreases SizeAll(es), 1
  {
    if es != [] {
      DefaultFold(fallback, t, es[|es| - 1]);
      DefaultFoldAll(fallback, t, es[..|es| - 1]);
      FoldAllKeeps(RewriteHooks(DefaultRewriter(fallback)), t, es);
    }
  }

  /** Rewriting with the default hooks returns the same expression. */
  lemma DefaultIsIdentity<T(!new), E(!new)>(fallback: E, t: T, e: Expression)
    ensures Machine(DefaultRewriter(fallback), t, e) == Ok(e)
  {
    RewriteWalk(DefaultRewriter(fallback), t, e);
    DefaultFold(fallback, t, e);
  }

  // ----- A `pre_visit` that stops -----

  /** A rewriter whose `pre_visit` only tests the node, and whose hooks never fail. */
  ghost predicate Tests<T(!new), E(!new)>(w: Rewriter<T, E>, descend: Expression -> bool)
  {
    && (forall t, e :: w.preVisit(t, e) == Ok((t, descend(e))))
    && (forall t, e, cs :: w.mutate(t, e, cs).Ok?)
  }

  /** The walk stops at some node that has children. */
  ghost predicate StopsInside(descend: Expression -> bool, e: Expression)
    decreases Size(e), 0
  {
    Children(e) != [] && (!descend(e) || AnyStops(descend, Children(e)))
  }

  ghost predicate AnyStops(descend: Expression -> bool, es: seq<Expression>)
    decreases SizeAll(es), 1
  {
    es != [] && (StopsInside(descend, es[|es| - 1]) || AnyStops(descend, es[..|es| - 1]))
  }

  /** A stopped inner node costs the stack at least one element. */
  lemma {:induction false} NetPush<T(!new), E(!new)>(
      w: Rewriter<T, E>, descend: Expression -> bool, s: RewriteState<T>, e: Expression)
    requires Tests(w, descend)
    ensures var r := Walk(RewriteVisitor(w), s, e);
            r.Ok? ==> 1 <= |r.value.stack| <= |s.stack| + (if StopsInside(descend, e) then 0 else 1)
    decreases Size(e), 0
  {
    if descend(e) {
      NetPushAll(w, descend, s, Children(e));
      assert PreVisit(w, s, e) == Ok(Continue(s));
    } else {
      assert PreVisit(w, s, e) == Ok(Stop(s));
    }
  }

  lemma {:induction false} NetPushAll<T(!new), E(!new)>(
      w: Rewriter<T, E>, descend: Expression -> bool, s: RewriteState<T>, es: seq<Expression>)
    requires Tests(w, descend)
    ensures var r := WalkLastFirst(RewriteVisitor(w), s, es);
            r.Ok? ==> |r.value.stack| <= |s.stack| + |es| - (if AnyStops(descend, es) then 1 else 0)
    decreases SizeAll(es), 1
  {
    if es != [] {
      NetPush(w, descend, s, es[|es| - 1]);
      var r := Walk(RewriteVisitor(w), s, es[|es| - 1]);
      if r.Ok? {
        NetPushAll(w, descend, r.value, es[..|es| - 1]);
      }
    }
  }

  /** A rewriter whose hooks never fail still fails exactly when it stops at a node with children. */
  lemma RewriteFailsIffStopped<T(!new), E(!new)>(w: Rewriter<T, E>, descend: Expression -> bool, t: T, e: Expression)
    requires Tests(w, descend)
    ensures Machine(w, t, e).Err? <==> StopsInside(descend, e)
  {
    NetPush(w, descend, State(t, []), e);
    if !StopsInside(descend, e) {
      UnstoppedPushes(w, descend, State(t, []), e);
    }
  }

  lemma {:induction false} UnstoppedPushes<T(!new), E(!new)>(
      w: Rewriter<T, E>, descend: Expression -> bool, s: RewriteState<T>, e: Expression)
    requires Tests(w, descend) && !StopsInside(descend, e)
    ensures var r := Walk(RewriteVisitor(w), s, e); r.Ok? && |r.value.stack| == |s.stack| + 1
    decreases Size(e), 0
  {
    assert PreVisit(w, s, e) == Ok(if descend(e) then Continue(s) else Stop(s));
    if descend(e) {
      UnstoppedPushesAll(w, descend, s, Children(e));
    }
  }

  lemma {:induction false} UnstoppedPushesAll<T(!new), E(!new)>(
      w: Rewriter<T, E>, descend: Expression -> bool, s: RewriteState<T>, es: seq<Expression>)
    requires Tests(w, descend) && !AnyStops(descend, es)
    ensures var r := WalkLastFirst(RewriteVisitor(w), s, es); r.Ok? && |r.value.stack| == |s.stack| + |es|
    decreases SizeAll(es), 1
  {
    if es != [] {
      UnstoppedPushes(w, descend, s, es[|es| - 1]);
      UnstoppedPushesAll(w, descend, Walk(RewriteVisitor(w), s, es[|es| - 1]).value, es[..|es| - 1]);
    }
  }
}
