/**
  The expression visitor (common/planners/src/plan_expression_visitor.rs): an explicit stack of
  Call and Ret frames, shown equal to a recursive walk for every visitor and expression.
 */
module Visitor {
  import opened Wrappers
  import opened Expressions

  datatype Recursion<S> = Continue(state: S) | Stop(state: S)

  datatype Visitor<!S, !E> = Visitor(
    pre: (S, Expression) -> Result<Recursion<S>, E>,
    post: (S, Expression) -> Result<S, E>)

  /** The recursive meaning: pre-visit, the children last to first unless stopped, post-visit. */
  function Walk<S, E>(v: Visitor<S, E>, s: S, e: Expression): Result<S, E>
    decreases Size(e), 0
  {
    var r :- v.pre(s, e);
    match r
    case Stop(s1) => v.post(s1, e)
    case Continue(s1) =>
      var s2 :- WalkLastFirst(v, s1, Children(e));
      v.post(s2, e)
  }

  function WalkLastFirst<S, E>(v: Visitor<S, E>, s: S, es: seq<Expression>): Result<S, E>
    decreases SizeAll(es), 1
  {
    if es == [] then Ok(s)
    else
      var s1 :- Walk(v, s, es[|es| - 1]);
      WalkLastFirst(v, s1, es[..|es| - 1])
  }

  // ----- The stack machine -----

  datatype Frame = Call(expr: Expression) | Ret(expr: Expression)

  /** What is left to do when the machine stands at `stack` (its top is the last element). */
  ghost function Unwind<S, E>(v: Visitor<S, E>, s: S, stack: seq<Frame>): Result<S, E>
    decreases |stack|
  {
    if stack == [] then Ok(s)
    else
      var top := stack[|stack| - 1];
      var s1 :- match top case Call(e) => Walk(v, s, e) case Ret(e) => v.post(s, e);
      Unwind(v, s1, stack[..|stack| - 1])
  }

  function Calls(es: seq<Expression>): seq<Frame>
  {
    seq(|es|, i requires 0 <= i < |es| => Call(es[i]))
  }

  /** Frames pushed for the children are worked off as the last-to-first walk. */
  lemma {:induction false} UnwindCalls<S, E>(v: Visitor<S, E>, s: S, stack: seq<Frame>, es: seq<Expression>)
    ensures Unwind(v, s, stack + Calls(es)) ==
            match WalkLastFirst(v, s, es)
            case Err(x) => Err(x)
            case Ok(s1) => Unwind(v, s1, stack)
    decreases |es|
  {
    var all := stack + Calls(es);
    if es == [] {
      assert all == stack;
    } else {
      var rest := es[..|es| - 1];
      assert all[|all| - 1] == Call(es[|es| - 1]);
      assert all[..|all| - 1] == stack + Calls(rest);
      var r := Walk(v, s, es[|es| - 1]);
      if r.Ok? {
        UnwindCalls(v, r.value, stack, rest);
      }
    }
  }

  ghost function Weight(f: Frame): nat
  {
    match f case Call(e) => 2 * Size(e) case Ret(_) => 1
  }

  ghost function Work(stack: seq<Frame>): nat
  {
    if stack == [] then 0 else Work(stack[..|stack| - 1]) + Weight(stack[|stack| - 1])
  }

  lemma WorkPush(stack: seq<Frame>, f: Frame)
    ensures Work(stack + [f]) == Work(stack) + Weight(f)
  {
    assert (stack + [f])[..|stack|] == stack;
  }

  lemma {:induction false} WorkOfCalls(stack: seq<Frame>, es: seq<Expression>)
    ensures Work(stack + Calls(es)) == Work(stack) + 2 * SizeAll(es)
    decreases |es|
  {
    if es == [] {
      assert stack + Calls(es) == stack;
    } else {
      var rest := es[..|es| - 1];
      assert stack + Calls(es) == stack + Calls(rest) + [Call(es[|es| - 1])];
      WorkPush(stack + Calls(rest), Call(es[|es| - 1]));
      WorkOfCalls(stack, rest);
    }
  }

  method Visit<S, E>(v: Visitor<S, E>, s: S, root: Expression) returns (r: Result<S, E>)
    ensures r == Walk(v, s, root)
  {
    var self, stack := s, [Call(root)];
    assert stack[..0] == [];
    while stack != []
      invariant Unwind(v, self, stack) == Walk(v, s, root)
      decreases Work(stack)
    {
      var element := stack[|stack| - 1];
      stack := stack[..|stack| - 1];
      match element
      case Ret(e) =>
        var p := v.post(self, e);
        if p.Err? { return Err(p.error); }
        self := p.value;
      case Call(e) =>
        ghost var below := stack;
        stack := stack + [Ret(e)];
        assert stack[..|below|] == below;
        var p := v.pre(self, e);
        if p.Err? { return Err(p.error); }
        self := p.value.state;
        if p.value.Continue? {
          ghost var base := stack;
          var cs := Children(e);
          for i := 0 to |cs|
            invariant stack == base + Calls(cs[..i])
          {
            assert Calls(cs[..i + 1]) == Calls(cs[..i]) + [Call(cs[i])];
            stack := stack + [Call(cs[i])];
          }
          assert cs[..|cs|] == cs;
          UnwindCalls(v, self, base, cs);
          WorkOfCalls(base, cs);
        }
    }
    r := Ok(self);
  }

  /** `Expression::accept`: its own pre- and post-visit of the root around the whole visit. */
  method Accept<S, E>(v: Visitor<S, E>, s: S, root: Expression) returns (r: Result<S, E>)
    ensures r == Accepted(v, s, root)
  {
    var p := v.pre(s, root);
    if p.Err? { return Err(p.error); }
    if p.value.Stop? { return Ok(p.value.state); }
    var w := Visit(v, p.value.state, root);
    if w.Err? { return w; }
    r := v.post(w.value, root);
  }

  function Accepted<S, E>(v: Visitor<S, E>, s: S, e: Expression): Result<S, E>
  {
    var r :- v.pre(s, e);
    match r
    case Stop(s1) => Ok(s1)
    case Continue(s1) =>
      var s2 :- Walk(v, s1, e);
      v.post(s2, e)
  }

  // ----- The order of the visits -----

  datatype Event = Pre(node: Expression) | Post(node: Expression)

  /** A visitor that records its calls and never stops. */
  function Recorder(): Visitor<seq<Event>, string>
  {
    Visitor((log: seq<Event>, e: Expression) => Ok(Continue(log + [Pre(e)])),
            (log: seq<Event>, e: Expression) => Ok(log + [Post(e)]))
  }

  /** Depth-first events with the children last to first. */
  ghost function Trace(e: Expression): seq<Event>
    decreases Size(e), 0
  {
    [Pre(e)] + TraceLastFirst(Children(e)) + [Post(e)]
  }

  ghost function TraceLastFirst(es: seq<Expression>): seq<Event>
    decreases SizeAll(es), 1
  {
    if es == [] then [] else Trace(es[|es| - 1]) + TraceLastFirst(es[..|es| - 1])
  }

  /** The order the comment on `accept` gives: children first to last. */
  ghost function DocumentedTrace(e: Expression): seq<Event>
    decreases Size(e), 0
  {
    [Pre(e)] + DocumentedAll(Children(e)) + [Post(e)]
  }

  ghost function DocumentedAll(es: seq<Expression>): seq<Event>
    decreases SizeAll(es), 1
  {
    if es == [] then [] else DocumentedAll(es[..|es| - 1]) + DocumentedTrace(es[|es| - 1])
  }

  /** One node around the events of its children. */
  lemma RecorderNode(log: seq<Event>, e: Expression, inner: seq<Event>)
    requires WalkLastFirst(Recorder(), log + [Pre(e)], Children(e)) == Ok(log + [Pre(e)] + inner)
    ensures Walk(Recorder(), log, e) == Ok(log + ([Pre(e)] + inner + [Post(e)]))
  {
    assert log + [Pre(e)] + inner + [Post(e)] == log + ([Pre(e)] + inner + [Post(e)]);
  }

  lemma {:induction false} RecorderWalk(log: seq<Event>, e: Expression)
    ensures Walk(Recorder(), log, e) == Ok(log + Trace(e))
    decreases Size(e), 0
  {
    RecorderWalkAll(log + [Pre(e)], Children(e));
    RecorderNode(log, e, TraceLastFirst(Children(e)));
  }

  lemma WalkList<S, E>(v: Visitor<S, E>, s: S, es: seq<Expression>, s1: S, s2: S)
    requires es != [] && Walk(v, s, es[|es| - 1]) == Ok(s1) && WalkLastFirst(v, s1, es[..|es| - 1]) == Ok(s2)
    ensures WalkLastFirst(v, s, es) == Ok(s2)
  {
  }

  lemma {:induction false} RecorderWalkAll(log: seq<Event>, es: seq<Expression>)
    ensures WalkLastFirst(Recorder(), log, es) == Ok(log + TraceLastFirst(es))
    decreases SizeAll(es), 1
  {
    if es != [] {
      var first, later := Trace(es[|es| - 1]), TraceLastFirst(es[..|es| - 1]);
      RecorderWalk(log, es[|es| - 1]);
      RecorderWalkAll(log + first, es[..|es| - 1]);
      WalkList(Recorder(), log, es, log + first, log + first + later);
      Associates(log, first, later);
    } else {
      assert log + TraceLastFirst(es) == log;
    }
  }

  /** `accept` visits the root twice: the full trace, itself framed by the root's events. */
  lemma AcceptVisitsRootTwice(e: Expression)
    ensures Accepted(Recorder(), [], e) == Ok([Pre(e)] + Trace(e) + [Post(e)])
    ensures Trace(e)[0] == Pre(e) && Trace(e)[|Trace(e)| - 1] == Post(e)
  {
    assert [] + [Pre(e)] == [Pre(e)];
    RecorderWalk([Pre(e)], e);
  }

  /** Every node's children read the same forwards and backwards. */
  ghost predicate Palindromic(e: Expression)
  {
    var cs := Children(e);
    IsReverse(cs, cs) && forall i :: 0 <= i < |cs| ==> Palindromic(cs[i])
  }

  ghost predicate IsReverse(es: seq<Expression>, fs: seq<Expression>)
  {
    |es| == |fs| && forall i :: 0 <= i < |es| ==> es[|es| - 1 - i] == fs[i]
  }

  lemma {:induction false} TraceLengths(e: Expression)
    ensures |Trace(e)| == |DocumentedTrace(e)| == 2 * Size(e)
    decreases Size(e), 0
  {
    TraceLengthsAll(Children(e));
  }

  lemma {:induction false} TraceLengthsAll(es: seq<Expression>)
    ensures |TraceLastFirst(es)| == |DocumentedAll(es)| == 2 * SizeAll(es)
    decreases SizeAll(es), 1
  {
    if es != [] {
      TraceLengths(es[|es| - 1]);
      TraceLengthsAll(es[..|es| - 1]);
    }
  }

  lemma {:induction false} DocumentedFront(es: seq<Expression>)
    requires es != []
    ensures DocumentedAll(es) == DocumentedTrace(es[0]) + DocumentedAll(es[1..])
    decreases |es|
  {
    if |es| > 1 {
      var n := |es| - 1;
      DocumentedFront(es[..n]);
      assert es[..n][1..] == es[1..][..n - 1] && es[1..][n - 1] == es[n];
      assert DocumentedAll(es[1..]) == DocumentedAll(es[1..][..n - 1]) + DocumentedTrace(es[n]);
    } else {
      assert es[..0] == es[1..] == [];
    }
  }

  ghost predicate AllAsDocumented(es: seq<Expression>)
  {
    forall i :: 0 <= i < |es| ==> Trace(es[i]) == DocumentedTrace(es[i])
  }

  lemma ReverseFront(es: seq<Expression>, fs: seq<Expression>)
    requires es != [] && fs != []
    ensures IsReverse(es, fs) <==> es[|es| - 1] == fs[0] && IsReverse(es[..|es| - 1], fs[1..])
  {
    var n := |es| - 1;
    if es[n] == fs[0] && IsReverse(es[..n], fs[1..]) {
      forall i | 0 <= i < |es| ensures es[n - i] == fs[i] {
        if i > 0 { assert es[..n][n - 1 - (i - 1)] == fs[1..][i - 1]; }
      }
    }
    if IsReverse(es, fs) {
      forall i | 0 <= i < n ensures es[..n][n - 1 - i] == fs[1..][i] {
        assert es[n - (i + 1)] == fs[i + 1];
      }
      assert es[n - 0] == fs[0];
    }
  }

  lemma TracesSplit(e: Expression, es: seq<Expression>, f: Expression, fs: seq<Expression>)
    ensures Trace(e) + TraceLastFirst(es) == DocumentedTrace(f) + DocumentedAll(fs) <==>
            e == f && Trace(f) == DocumentedTrace(f) && TraceLastFirst(es) == DocumentedAll(fs)
  {
    var t, d, ts, ds := Trace(e), DocumentedTrace(f), TraceLastFirst(es), DocumentedAll(fs);
    TraceLengths(e);
    TraceLengths(f);
    if t + ts == d + ds {
      assert (t + ts)[0] == Pre(e) && (d + ds)[0] == Pre(f);
      assert t == (t + ts)[..|t|] == (d + ds)[..|d|] == d;
      assert ts == (t + ts)[|t|..] == (d + ds)[|d|..] == ds;
    }
  }

  /** Two lists have equal traces, one read backwards, only if they mirror each other. */
  lemma {:induction false} MirrorTraces(es: seq<Expression>, fs: seq<Expression>)
    ensures TraceLastFirst(es) == DocumentedAll(fs) <==> IsReverse(es, fs) && AllAsDocumented(fs)
    decreases |es|
  {
    if es == [] || fs == [] {
      TraceLengthsAll(es);
      TraceLengthsAll(fs);
    } else {
      DocumentedFront(fs);
      ReverseFront(es, fs);
      TracesSplit(es[|es| - 1], es[..|es| - 1], fs[0], fs[1..]);
      MirrorTraces(es[..|es| - 1], fs[1..]);
      assert AllAsDocumented(fs) <==> Trace(fs[0]) == DocumentedTrace(fs[0]) && AllAsDocumented(fs[1..]) by {
        assert forall i :: 1 <= i < |fs| ==> fs[i] == fs[1..][i - 1];
      }
    }
  }

  /** The documented order is the real one exactly on expressions whose nodes all mirror themselves. */
  lemma {:induction false} DocumentedOrderIff(e: Expression)
    ensures Trace(e) == DocumentedTrace(e) <==> Palindromic(e)
    decreases e
  {
    var cs := Children(e);
    var t, d := TraceLastFirst(cs), DocumentedAll(cs);
    TraceLengthsAll(cs);
    assert Trace(e)[1..|t| + 1] == t && DocumentedTrace(e)[1..|d| + 1] == d;
    MirrorTraces(cs, cs);
    forall i | 0 <= i < |cs| ensures Trace(cs[i]) == DocumentedTrace(cs[i]) <==> Palindromic(cs[i]) {
      DocumentedOrderIff(cs[i]);
    }
  }
}
