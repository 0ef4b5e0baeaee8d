/**
  Expansion of projection aliases with cycle detection: `RewriteHelper::rewrite_projection_aliases`
  (common/planners/src/plan_node_rewriter.rs).
 */
module AliasExpansion {
  import opened Wrappers
  import opened Expressions

  datatype AliasError = Cyclic(name: string) | DifferentExpressions(name: string)

  type Aliases = map<string, Expression>

  /** The expansion of `e` while the bodies of `inside` are being expanded, `current` the deepest. */
  function Expand(aliases: Aliases, inside: set<string>, current: string, e: Expression)
    : (r: Result<Expression, AliasError>)
    ensures r.Err? ==> r.error.Cyclic?
    decreases aliases.Keys - inside, Size(e), 0
  {
    match e
    case Column(name) =>
      if name == current then Ok(e)
      else if name in inside then Err(Cyclic(name))
      else if name in aliases then
        assert name in aliases.Keys - inside && name !in aliases.Keys - (inside + {name});
        Expand(aliases, inside + {name}, name, aliases[name])
      else Ok(e)
    case Alias(name, body) =>
      if name in inside then Err(Cyclic(name))
      else
        ScopeShrinks(aliases, inside, e);
        var x :- Expand(aliases, inside + {name}, name, body);
        Ok(Alias(name, x))
    case Sort(_, _, _, _) => Ok(e)
    case _ =>
      var xs :- ExpandAll(aliases, inside, current, Children(e));
      Ok(WithChildren(e, xs))
  }

  /** Entering an alias leaves no more aliases to enter, over a smaller expression. */
  lemma ScopeShrinks(aliases: Aliases, inside: set<string>, e: Expression)
    requires e.Alias? && e.alias !in inside
    ensures aliases.Keys - (inside + {e.alias}) < aliases.Keys - inside ||
            aliases.Keys - (inside + {e.alias}) == aliases.Keys - inside
    ensures Size(e.aliased) < Size(e)
  {
    if e.alias in aliases {
      assert e.alias in aliases.Keys - inside && e.alias !in aliases.Keys - (inside + {e.alias});
    } else {
      assert aliases.Keys - (inside + {e.alias}) == aliases.Keys - inside;
    }
    MemberSize(Children(e), 0);
  }

  /** Left to right, up to the first error. */
  function ExpandAll(aliases: Aliases, inside: set<string>, current: string, es: seq<Expression>)
    : (r: Result<seq<Expression>, AliasError>)
    ensures r.Err? ==> r.error.Cyclic?
    ensures r.Ok? ==> |r.value| == |es|
    decreases aliases.Keys - inside, SizeAll(es), 1
  {
    if es == [] then Ok([])
    else
      var xs :- ExpandAll(aliases, inside, current, es[..|es| - 1]);
      var x :- Expand(aliases, inside, current, es[|es| - 1]);
      Ok(xs + [x])
  }

  lemma {:induction false} ExpandAllElements(aliases: Aliases, inside: set<string>, current: string,
                                             es: seq<Expression>)
    ensures var r := ExpandAll(aliases, inside, current, es);
            && (r.Ok? <==> forall i :: 0 <= i < |es| ==> Expand(aliases, inside, current, es[i]).Ok?)
            && (r.Ok? ==> forall i :: 0 <= i < |es| ==> Expand(aliases, inside, current, es[i]) == Ok(r.value[i]))
    decreases |es|
  {
    if es != [] {
      ExpandAllElements(aliases, inside, current, es[..|es| - 1]);
    }
  }

  // ----- The code -----

  class QueryAliasData {
    const aliases: Aliases
    var insideAliases: set<string>
    var currentAlias: string

    constructor (aliases: Aliases)
      ensures this.aliases == aliases && insideAliases == {} && currentAlias == ""
    {
      this.aliases := aliases;
      insideAliases := {};
      currentAlias := "";
    }

    /** `expr_rewrite_alias`: on success the bookkeeping is as it was. */
    method ExprRewriteAlias(e: Expression) returns (r: Result<Expression, AliasError>)
      modifies this
      ensures r == Expand(aliases, old(insideAliases), old(currentAlias), e)
      ensures r.Ok? ==> insideAliases == old(insideAliases) && currentAlias == old(currentAlias)
      decreases aliases.Keys - insideAliases, Size(e), 0
    {
      if e.Column? {
        var name := e.column;
        if name == currentAlias { return Ok(e); }
        if name in insideAliases { return Err(Cyclic(name)); }
        if name in aliases {
          var previous := currentAlias;
          assert name in aliases.Keys - insideAliases;
          currentAlias := name;
          insideAliases := insideAliases + {name};
          assert name !in aliases.Keys - insideAliases;
          r := ExprRewriteAlias(aliases[name]);
          if r.Err? { return; }
          insideAliases := insideAliases - {name};
          currentAlias := previous;
          return;
        }
        r := Ok(e);
      } else if e.Alias? {
        var name := e.alias;
        if name in insideAliases { return Err(Cyclic(name)); }
        var previous := currentAlias;
        ScopeShrinks(aliases, insideAliases, e);
        currentAlias := name;
        insideAliases := insideAliases + {name};
        r := ExprRewriteAlias(e.aliased);
        if r.Err? { return; }
        insideAliases := insideAliases - {name};
        currentAlias := previous;
        r := Ok(Alias(name, r.value));
      } else if e.Sort? {
        r := Ok(e);
      } else {
        var args := RewriteArgs(Children(e));
        if args.Err? { return Err(args.error); }
        r := Ok(WithChildren(e, args.value));
      }
    }

    method RewriteArgs(es: seq<Expression>) returns (r: Result<seq<Expression>, AliasError>)
      modifies this
      ensures r == ExpandAll(aliases, old(insideAliases), old(currentAlias), es)
      ensures r.Ok? ==> insideAliases == old(insideAliases) && currentAlias == old(currentAlias)
      decreases aliases.Keys - insideAliases, SizeAll(es), 1
    {
      var done := [];
      for i := 0 to |es|
        invariant insideAliases == old(insideAliases) && currentAlias == old(currentAlias)
        invariant ExpandAll(aliases, insideAliases, currentAlias, es[..i]) == Ok(done)
      {
        MemberSize(es, i);
        assert es[..i + 1][..i] == es[..i] && es[..i + 1][i] == es[i];
        var x := ExprRewriteAlias(es[i]);
        if x.Err? {
          ExpandAllStops(aliases, old(insideAliases), old(currentAlias), es, i);
          return Err(x.error);
        }
        done := done + [x.value];
      }
      assert es[..|es|] == es;
      r := Ok(done);
    }
  }

  lemma {:induction false} ExpandAllStops(aliases: Aliases, inside: set<string>, current: string, es: seq<Expression>,
                                          i: nat)
    requires i < |es|
    requires ExpandAll(aliases, inside, current, es[..i]).Ok?
    requires Expand(aliases, inside, current, es[i]).Err?
    ensures ExpandAll(aliases, inside, current, es) == Err(Expand(aliases, inside, current, es[i]).error)
    decreases |es|
  {
    var n := |es| - 1;
    if i < n {
      assert es[..n][..i] == es[..i];
      ExpandAllStops(aliases, inside, current, es[..n], i);
    }
  }

  /** `alias_exprs_to_map`: a repeated alias passes only if the earlier body prints as the whole later alias. */
  function AliasMap(debug: Expression -> string, exprs: seq<Expression>): Result<Aliases, AliasError>
  {
    if exprs == [] then Ok(map[])
    else
      var m :- AliasMap(debug, exprs[..|exprs| - 1]);
      var e := exprs[|exprs| - 1];
      if !e.Alias? then Ok(m)
      else if e.alias in m && debug(m[e.alias]) != debug(e) then Err(DifferentExpressions(e.alias))
      else Ok(m[e.alias := e.aliased])
  }

  function RewrittenProjection(debug: Expression -> string, exprs: seq<Expression>): Result<seq<Expression>, AliasError>
  {
    var m :- AliasMap(debug, exprs);
    ExpandAll(m, {}, "", exprs)
  }

  method RewriteProjectionAliases(debug: Expression -> string, exprs: seq<Expression>)
    returns (r: Result<seq<Expression>, AliasError>)
    ensures r == RewrittenProjection(debug, exprs)
  {
    var mp: Aliases := map[];
    for i := 0 to |exprs|
      invariant AliasMap(debug, exprs[..i]) == Ok(mp)
    {
      var e := exprs[i];
      assert exprs[..i + 1][..i] == exprs[..i];
      if e.Alias? {
        if e.alias in mp && debug(mp[e.alias]) != debug(e) {
          AliasMapStops(debug, exprs, i);
          return Err(DifferentExpressions(e.alias));
        }
        mp := mp[e.alias := e.aliased];
      }
    }
    assert exprs[..|exprs|] == exprs;
    var data := new QueryAliasData(mp);
    r := data.RewriteArgs(exprs);
  }

  lemma {:induction false} AliasMapStops(debug: Expression -> string, exprs: seq<Expression>, i: nat)
    requires i < |exprs| && AliasMap(debug, exprs[..i + 1]).Err?
    ensures AliasMap(debug, exprs) == AliasMap(debug, exprs[..i + 1])
    decreases |exprs|
  {
    var n := |exprs| - 1;
    if i < n {
      assert exprs[..n][..i + 1] == exprs[..i + 1];
      AliasMapStops(debug, exprs[..n], i);
    } else {
      assert exprs[..i + 1] == exprs;
    }
  }

  // ----- Meaning -----

  /**
    Evaluation with alias lookup: an alias column has the value `env` gives it, except that inside its
    own definition it means the input column. Sort expressions are not looked into.
   */
  function ScopedEval(s: Semantics, row: Row, aliases: Aliases, env: Row, current: string, e: Expression): Value
    decreases e
  {
    match e
    case Column(name) => if name == current || name !in aliases then row(name) else env(name)
    case Alias(name, body) => ScopedEval(s, row, aliases, env, name, body)
    case Sort(_, _, _, _) => Eval(s, row, e)
    case _ =>
      var cs := Children(e);
      Apply(s, row, e, seq(|cs|, i requires 0 <= i < |cs| => ScopedEval(s, row, aliases, env, current, cs[i])))
  }

  /** `env` gives every alias the value of its definition. */
  ghost predicate Solves(s: Semantics, row: Row, aliases: Aliases, env: Row)
  {
    forall a :: a in aliases ==> env(a) == ScopedEval(s, row, aliases, env, a, aliases[a])
  }

  lemma ExpandPlain(aliases: Aliases, inside: set<string>, current: string, e: Expression)
    requires !e.Column? && !e.Alias? && !e.Sort? && Expand(aliases, inside, current, e).Ok?
    ensures ExpandAll(aliases, inside, current, Children(e)).Ok?
    ensures Expand(aliases, inside, current, e).value ==
            WithChildren(e, ExpandAll(aliases, inside, current, Children(e)).value)
    ensures forall i :: 0 <= i < |Children(e)| ==>
              Expand(aliases, inside, current, Children(e)[i]) ==
                Ok(ExpandAll(aliases, inside, current, Children(e)).value[i])
  {
    ExpandAllElements(aliases, inside, current, Children(e));
  }

  /** A node that is neither a column, an alias nor a sort, once its children have their meaning. */
  lemma PlainMeaning(s: Semantics, row: Row, aliases: Aliases, env: Row, inside: set<string>, current: string,
                     e: Expression)
    requires !e.Column? && !e.Alias? && !e.Sort? && Expand(aliases, inside, current, e).Ok?
    requires forall i :: 0 <= i < |Children(e)| ==>
               var x := Expand(aliases, inside, current, Children(e)[i]);
               x.Ok? && Eval(s, row, x.value) == ScopedEval(s, row, aliases, env, current, Children(e)[i])
    ensures Eval(s, row, Expand(aliases, inside, current, e).value) == ScopedEval(s, row, aliases, env, current, e)
  {
    var cs := Children(e);
    ExpandPlain(aliases, inside, current, e);
    var xs := ExpandAll(aliases, inside, current, cs).value;
    var vs := seq(|cs|, i requires 0 <= i < |cs| => ScopedEval(s, row, aliases, env, current, cs[i]));
    assert EvalAll(s, row, xs) == vs;
    RebuiltValue(s, row, e, xs, vs);
    assert ScopedEval(s, row, aliases, env, current, e) == Apply(s, row, e, vs);
  }

  lemma RebuiltValue(s: Semantics, row: Row, e: Expression, xs: seq<Expression>, vs: seq<Value>)
    requires !e.Column? && |xs| == |Children(e)| && EvalAll(s, row, xs) == vs
    ensures Eval(s, row, WithChildren(e, xs)) == Apply(s, row, e, vs)
  {
    EvalUnfold(s, row, WithChildren(e, xs));
  }

  /** Expanding and then evaluating plainly is evaluating the original with alias lookup. */
  lemma {:induction false} ExpandMeaning(
      s: Semantics, row: Row, aliases: Aliases, env: Row, inside: set<string>, current: string, e: Expression)
    requires Solves(s, row, aliases, env)
    requires Expand(aliases, inside, current, e).Ok?
    ensures Eval(s, row, Expand(aliases, inside, current, e).value) == ScopedEval(s, row, aliases, env, current, e)
    decreases aliases.Keys - inside, Size(e)
  {
    var x := Expand(aliases, inside, current, e).value;
    if e.Column? {
      if e.column != current && e.column in aliases {
        assert e.column in aliases.Keys - inside && e.column !in aliases.Keys - (inside + {e.column});
        ExpandMeaning(s, row, aliases, env, inside + {e.column}, e.column, aliases[e.column]);
      } else {
        EvalUnfold(s, row, e);
      }
    } else if e.Alias? {
      ScopeShrinks(aliases, inside, e);
      ExpandMeaning(s, row, aliases, env, inside + {e.alias}, e.alias, e.aliased);
      EvalUnfold(s, row, x);
    } else if !e.Sort? {
      var cs := Children(e);
      ExpandPlain(aliases, inside, current, e);
      forall i | 0 <= i < |cs|
        ensures Eval(s, row, Expand(aliases, inside, current, cs[i]).value) ==
                ScopedEval(s, row, aliases, env, current, cs[i])
      {
        MemberSize(cs, i);
        ExpandMeaning(s, row, aliases, env, inside, current, cs[i]);
      }
      PlainMeaning(s, row, aliases, env, inside, current, e);
    }
  }

  lemma ColumnShrinks(aliases: Aliases, inside: set<string>, name: string)
    requires name in aliases && name !in inside
    ensures aliases.Keys - (inside + {name}) < aliases.Keys - inside
  {
    assert name in aliases.Keys - inside && name !in aliases.Keys - (inside + {name});
  }

  /** A successful expansion does not depend on which aliases were open around it. */
  lemma {:induction false} InsideIrrelevant(aliases: Aliases, i1: set<string>, i2: set<string>, current: string,
                                            e: Expression)
    requires Expand(aliases, i1, current, e).Ok? && Expand(aliases, i2, current, e).Ok?
    ensures Expand(aliases, i1, current, e) == Expand(aliases, i2, current, e)
    decreases aliases.Keys - i1, Size(e)
  {
    if e.Column? {
      if e.column != current && e.column in aliases {
        ColumnShrinks(aliases, i1, e.column);
        InsideIrrelevant(aliases, i1 + {e.column}, i2 + {e.column}, e.column, aliases[e.column]);
      }
    } else if e.Alias? {
      ScopeShrinks(aliases, i1, e);
      InsideIrrelevant(aliases, i1 + {e.alias}, i2 + {e.alias}, e.alias, e.aliased);
    } else if !e.Sort? {
      var cs := Children(e);
      ExpandPlain(aliases, i1, current, e);
      ExpandPlain(aliases, i2, current, e);
      forall i | 0 <= i < |cs| ensures Expand(aliases, i1, current, cs[i]) == Expand(aliases, i2, current, cs[i]) {
        MemberSize(cs, i);
        InsideIrrelevant(aliases, i1, i2, current, cs[i]);
      }
      assert ExpandAll(aliases, i1, current, cs).value == ExpandAll(aliases, i2, current, cs).value;
    }
  }

  ghost predicate AllExpand(aliases: Aliases)
  {
    forall a :: a in aliases ==> Expand(aliases, {a}, a, aliases[a]).Ok?
  }

  /** The values of the expanded definitions. */
  ghost function AliasValues(s: Semantics, row: Row, aliases: Aliases): Row
    requires AllExpand(aliases)
  {
    (a: string) => if a in aliases && Expand(aliases, {a}, a, aliases[a]).Ok?
                   then Eval(s, row, Expand(aliases, {a}, a, aliases[a]).value) else row(a)
  }

  lemma {:induction false} AliasValuesMeaning(
      s: Semantics, row: Row, aliases: Aliases, inside: set<string>, current: string, e: Expression)
    requires AllExpand(aliases)
    requires Expand(aliases, inside, current, e).Ok?
    ensures Eval(s, row, Expand(aliases, inside, current, e).value) ==
            ScopedEval(s, row, aliases, AliasValues(s, row, aliases), current, e)
    decreases e
  {
    var x, env := Expand(aliases, inside, current, e).value, AliasValues(s, row, aliases);
    if e.Column? {
      if e.column != current && e.column in aliases {
        InsideIrrelevant(aliases, inside + {e.column}, {e.column}, e.column, aliases[e.column]);
      } else {
        EvalUnfold(s, row, e);
      }
    } else if e.Alias? {
      AliasValuesMeaning(s, row, aliases, inside + {e.alias}, e.alias, e.aliased);
      EvalUnfold(s, row, x);
    } else if !e.Sort? {
      var cs := Children(e);
      ExpandPlain(aliases, inside, current, e);
      forall i | 0 <= i < |cs|
        ensures Eval(s, row, Expand(aliases, inside, current, cs[i]).value) ==
                ScopedEval(s, row, aliases, env, current, cs[i])
      {
        AliasValuesMeaning(s, row, aliases, inside, current, cs[i]);
      }
      PlainMeaning(s, row, aliases, env, inside, current, e);
    }
  }

  /** The alias equations then have one solution: the values of the expanded definitions. */
  lemma AliasEquationsSolved(s: Semantics, row: Row, aliases: Aliases, env: Row)
    requires AllExpand(aliases)
    ensures Solves(s, row, aliases, AliasValues(s, row, aliases))
    ensures Solves(s, row, aliases, env) ==> forall a :: a in aliases ==> env(a) == AliasValues(s, row, aliases)(a)
  {
    forall a | a in aliases
      ensures AliasValues(s, row, aliases)(a) ==
              ScopedEval(s, row, aliases, AliasValues(s, row, aliases), a, aliases[a])
    {
      AliasValuesMeaning(s, row, aliases, {a}, a, aliases[a]);
    }
    if Solves(s, row, aliases, env) {
      forall a | a in aliases ensures env(a) == AliasValues(s, row, aliases)(a) {
        ExpandMeaning(s, row, aliases, env, {a}, a, aliases[a]);
      }
    }
  }

  // ----- The alias map -----

  /** No two aliases of the projection share a name. */
  ghost predicate DistinctAliases(exprs: seq<Expression>)
  {
    forall i, j :: 0 <= i < j < |exprs| && exprs[i].Alias? && exprs[j].Alias? ==> exprs[i].alias != exprs[j].alias
  }

  /** The map holds exactly the top-level aliases with their bodies. */
  ghost predicate IsAliasMap(exprs: seq<Expression>, m: Aliases)
  {
    && (forall i :: 0 <= i < |exprs| && exprs[i].Alias? ==>
         exprs[i].alias in m && m[exprs[i].alias] == exprs[i].aliased)
    && (forall a :: a in m ==> exists i :: 0 <= i < |exprs| && exprs[i] == Alias(a, m[a]))
  }

  lemma IsAliasMapMore(rest: seq<Expression>, e: Expression, m: Aliases)
    requires IsAliasMap(rest, m) && DistinctAliases(rest + [e])
    ensures e.Alias? ==> e.alias !in m
    ensures IsAliasMap(rest + [e], if e.Alias? then m[e.alias := e.aliased] else m)
  {
    var all, r := rest + [e], if e.Alias? then m[e.alias := e.aliased] else m;
    assert forall i :: 0 <= i < |rest| ==> all[i] == rest[i];
    assert all[|rest|] == e;
    forall a | a in m
      ensures a in r && exists i :: 0 <= i < |all| && all[i] == Alias(a, r[a])
    {
      var i :| 0 <= i < |rest| && rest[i] == Alias(a, m[a]);
      assert all[i] == Alias(a, r[a]);
    }
  }

  lemma {:induction false} AliasMapOfDistinct(debug: Expression -> string, exprs: seq<Expression>)
    requires DistinctAliases(exprs)
    ensures AliasMap(debug, exprs).Ok? && IsAliasMap(exprs, AliasMap(debug, exprs).value)
    decreases |exprs|
  {
    if exprs != [] {
      var rest, e := exprs[..|exprs| - 1], exprs[|exprs| - 1];
      AliasMapOfDistinct(debug, rest);
      assert rest + [e] == exprs;
      IsAliasMapMore(rest, e, AliasMap(debug, rest).value);
    }
  }

  /** The body of the last alias of a name. */
  function LastBody(exprs: seq<Expression>, a: string): Option<Expression>
  {
    if exprs == [] then None
    else
      var e := exprs[|exprs| - 1];
      if e.Alias? && e.alias == a then Some(e.aliased) else LastBody(exprs[..|exprs| - 1], a)
  }

  /** Every alias that repeats a name prints, as a whole, as the body of the one before it. */
  ghost predicate RepeatsPrintAlike(debug: Expression -> string, exprs: seq<Expression>)
  {
    forall j :: 0 <= j < |exprs| && exprs[j].Alias? && LastBody(exprs[..j], exprs[j].alias).Some? ==>
      debug(LastBody(exprs[..j], exprs[j].alias).value) == debug(exprs[j])
  }

  lemma RepeatsPrintAlikeMore(debug: Expression -> string, rest: seq<Expression>, e: Expression)
    ensures RepeatsPrintAlike(debug, rest + [e]) <==>
            && RepeatsPrintAlike(debug, rest)
            && (e.Alias? && LastBody(rest, e.alias).Some? ==> debug(LastBody(rest, e.alias).value) == debug(e))
  {
    var all := rest + [e];
    assert all[..|rest|] == rest && all[|rest|] == e;
    assert forall j :: 0 <= j < |rest| ==> all[..j] == rest[..j] && all[j] == rest[j];
  }

  /** The map holds the last body of the name, if the map exists. */
  ghost predicate HoldsLast(debug: Expression -> string, exprs: seq<Expression>, a: string)
  {
    AliasMap(debug, exprs).Ok? ==>
      var m := AliasMap(debug, exprs).value;
      LastBody(exprs, a) == if a in m then Some(m[a]) else None
  }

  lemma HoldsLastMore(debug: Expression -> string, rest: seq<Expression>, e: Expression, a: string)
    requires HoldsLast(debug, rest, a)
    ensures HoldsLast(debug, rest + [e], a)
  {
    assert (rest + [e])[..|rest|] == rest;
  }

  lemma {:induction false} AlwaysHoldsLast(debug: Expression -> string, exprs: seq<Expression>, a: string)
    ensures HoldsLast(debug, exprs, a)
    decreases |exprs|
  {
    if exprs != [] {
      var rest, e := exprs[..|exprs| - 1], exprs[|exprs| - 1];
      AlwaysHoldsLast(debug, rest, a);
      HoldsLastMore(debug, rest, e, a);
      assert rest + [e] == exprs;
    }
  }

  lemma AliasMapMore(debug: Expression -> string, rest: seq<Expression>, e: Expression)
    requires AliasMap(debug, rest).Ok? <==> RepeatsPrintAlike(debug, rest)
    ensures AliasMap(debug, rest + [e]).Ok? <==> RepeatsPrintAlike(debug, rest + [e])
  {
    assert (rest + [e])[..|rest|] == rest;
    RepeatsPrintAlikeMore(debug, rest, e);
    if e.Alias? {
      AlwaysHoldsLast(debug, rest, e.alias);
    }
  }

  /** The map exists exactly when repeated aliases print alike, and then holds the last body of each name. */
  lemma {:induction false} AliasMapIff(debug: Expression -> string, exprs: seq<Expression>, a: string)
    ensures AliasMap(debug, exprs).Ok? <==> RepeatsPrintAlike(debug, exprs)
    ensures AliasMap(debug, exprs).Ok? ==>
              var m := AliasMap(debug, exprs).value;
              LastBody(exprs, a) == if a in m then Some(m[a]) else None
    decreases |exprs|
  {
    AlwaysHoldsLast(debug, exprs, a);
    if exprs != [] {
      var rest, e := exprs[..|exprs| - 1], exprs[|exprs| - 1];
      AliasMapIff(debug, rest, a);
      AliasMapMore(debug, rest, e);
      assert rest + [e] == exprs;
    }
  }

  lemma {:induction false} LastBodyOf(exprs: seq<Expression>, i: nat)
    requires i < |exprs| && exprs[i].Alias?
    ensures LastBody(exprs, exprs[i].alias).Some?
    decreases |exprs|
  {
    if i < |exprs| - 1 {
      LastBodyOf(exprs[..|exprs| - 1], i);
    }
  }

  lemma {:induction false} LastBodyFrom(exprs: seq<Expression>, a: string)
    requires LastBody(exprs, a).Some?
    ensures exists i :: 0 <= i < |exprs| && exprs[i] == Alias(a, LastBody(exprs, a).value)
    decreases |exprs|
  {
    var n := |exprs| - 1;
    if !(exprs[n].Alias? && exprs[n].alias == a) {
      LastBodyFrom(exprs[..n], a);
      var i :| 0 <= i < n && exprs[..n][i] == Alias(a, LastBody(exprs, a).value);
      assert exprs[i] == Alias(a, LastBody(exprs, a).value);
    }
  }

  /** Where aliases print as nothing else does and no body is an alias, the map exists exactly for distinct aliases. */
  lemma AliasMapIffDistinct(debug: Expression -> string, exprs: seq<Expression>)
    requires forall x: Expression, y: Expression :: !x.Alias? && y.Alias? ==> debug(x) != debug(y)
    requires forall i :: 0 <= i < |exprs| && exprs[i].Alias? ==> !exprs[i].aliased.Alias?
    ensures AliasMap(debug, exprs).Ok? <==> DistinctAliases(exprs)
  {
    if DistinctAliases(exprs) {
      AliasMapOfDistinct(debug, exprs);
    }
    AliasMapIff(debug, exprs, "");
    if RepeatsPrintAlike(debug, exprs) {
      forall i, j | 0 <= i < j < |exprs| && exprs[i].Alias? && exprs[j].Alias?
        ensures exprs[i].alias != exprs[j].alias
      {
        var before, a := exprs[..j], exprs[j].alias;
        if exprs[i].alias == a {
          LastBodyOf(before, i);
          LastBodyFrom(before, a);
        }
      }
    }
  }

  lemma TwoAliases(debug: Expression -> string, x: Expression, y: Expression)
    requires x.Alias? && y.Alias? && x.alias == y.alias
    ensures AliasMap(debug, [x, y]) ==
            if debug(x.aliased) == debug(y) then Ok(map[x.alias := y.aliased]) else Err(DifferentExpressions(x.alias))
  {
    var two := [x, y];
    assert two[..1] == [x] && two[..1][..0] == [];
    assert AliasMap(debug, two[..1]) == Ok(map[x.alias := x.aliased]);
    assert map[x.alias := x.aliased][y.alias := y.aliased] == map[x.alias := y.aliased];
  }

  /** A repeated alias is an error even with one body, where an alias does not print as its body. */
  lemma RepeatedAliasRejected(debug: Expression -> string, a: string, body: Expression)
    ensures AliasMap(debug, [Alias(a, body), Alias(a, body)]).Err? <==> debug(body) != debug(Alias(a, body))
  {
    TwoAliases(debug, Alias(a, body), Alias(a, body));
  }

  /** Two different bodies pass, where the first is the second alias itself; the second body is kept. */
  lemma DifferentBodiesAccepted(debug: Expression -> string, a: string, body: Expression)
    ensures AliasMap(debug, [Alias(a, Alias(a, body)), Alias(a, body)]) == Ok(map[a := body])
  {
    TwoAliases(debug, Alias(a, Alias(a, body)), Alias(a, body));
  }

  // ----- Cycles -----

  /** The columns an expansion looks up. */
  ghost function Refs(e: Expression): set<string>
    decreases e
  {
    match e
    case Column(c) => {c}
    case Sort(_, _, _, _) => {}
    case _ => set c, i | 0 <= i < |Children(e)| && c in Refs(Children(e)[i]) :: c
  }

  /** No alias below this expression, as far as the expansion looks. */
  ghost predicate Flat(e: Expression)
    decreases e
  {
    !e.Alias? && (e.Sort? || forall i :: 0 <= i < |Children(e)| ==> Flat(Children(e)[i]))
  }

  /** Aliases only at the top of the projection. */
  ghost predicate TopLevelAliases(exprs: seq<Expression>)
  {
    forall i :: 0 <= i < |exprs| ==> Flat(if exprs[i].Alias? then exprs[i].aliased else exprs[i])
  }

  ghost predicate FlatBodies(aliases: Aliases)
  {
    forall a :: a in aliases ==> Flat(aliases[a])
  }

  /** Alias `a` is defined through another alias `b`. */
  ghost predicate Edge(aliases: Aliases, a: string, b: string)
  {
    a in aliases && b in aliases && a != b && b in Refs(aliases[a])
  }

  ghost predicate Path(aliases: Aliases, p: seq<string>)
  {
    forall i :: 0 <= i < |p| - 1 ==> Edge(aliases, p[i], p[i + 1])
  }

  ghost function Elements(p: seq<string>): set<string>
  {
    set a | a in p
  }

  /** A closed path; it runs through at least two aliases, since an edge joins different ones. */
  ghost predicate Cycle(aliases: Aliases, p: seq<string>)
  {
    |p| >= 2 && p[0] == p[|p| - 1] && Path(aliases, p)
  }

  /** An expansion that fails while the path `p` of aliases is open has found a cycle. */
  lemma {:induction false} FailureGivesCycle(aliases: Aliases, p: seq<string>, current: string, e: Expression)
    requires FlatBodies(aliases) && Flat(e) && Path(aliases, p)
    requires p != [] ==>
               && p[|p| - 1] == current
               && forall b :: b in Refs(e) && b in aliases && b != current ==> Edge(aliases, current, b)
    requires forall a :: a in p ==> a in aliases
    requires Expand(aliases, Elements(p), current, e).Err?
    ensures exists c :: Cycle(aliases, c)
    decreases aliases.Keys - Elements(p), Size(e)
  {
    var inside := Elements(p);
    if e.Column? {
      if e.column in inside {
        var k :| 0 <= k < |p| && p[k] == e.column;
        var c := p[k..] + [e.column];
        assert c[|p| - k - 1] == current && c[0] == e.column;
        assert Cycle(aliases, c);
      } else {
        var q := p + [e.column];
        assert Elements(q) == inside + {e.column};
        ColumnShrinks(aliases, inside, e.column);
        FailureGivesCycle(aliases, q, e.column, aliases[e.column]);
      }
    } else {
      var cs := Children(e);
      ExpandAllElements(aliases, inside, current, cs);
      var i :| 0 <= i < |cs| && Expand(aliases, inside, current, cs[i]).Err?;
      MemberSize(cs, i);
      assert forall b :: b in Refs(cs[i]) ==> b in Refs(e);
      FailureGivesCycle(aliases, p, current, cs[i]);
    }
  }

  /** Where an expansion succeeds, so does that of every alias it looks up, and none of those was open. */
  lemma {:induction false} SuccessAtRef(aliases: Aliases, inside: set<string>, current: string, e: Expression,
                                        b: string)
    requires Flat(e) && Expand(aliases, inside, current, e).Ok?
    requires b in Refs(e) && b in aliases && b != current
    ensures b !in inside && Expand(aliases, inside + {b}, b, aliases[b]).Ok?
    decreases e
  {
    if !e.Column? {
      ExpandPlain(aliases, inside, current, e);
      var i :| 0 <= i < |Children(e)| && b in Refs(Children(e)[i]);
      SuccessAtRef(aliases, inside, current, Children(e)[i], b);
    }
  }

  lemma {:induction false} PathLeavesInside(aliases: Aliases, inside: set<string>, p: seq<string>)
    requires FlatBodies(aliases) && Path(aliases, p) && |p| >= 2
    requires p[0] in aliases && Expand(aliases, inside, p[0], aliases[p[0]]).Ok?
    ensures forall k :: 1 <= k < |p| ==> p[k] !in inside
    decreases |p|
  {
    assert Edge(aliases, p[0], p[1]);
    SuccessAtRef(aliases, inside, p[0], aliases[p[0]], p[1]);
    if |p| > 2 {
      assert Path(aliases, p[1..]) by {
        forall i | 0 <= i < |p| - 2 ensures Edge(aliases, p[1..][i], p[1..][i + 1]) {
          assert Edge(aliases, p[i + 1], p[i + 2]);
        }
      }
      PathLeavesInside(aliases, inside + {p[1]}, p[1..]);
      forall k | 1 <= k < |p| ensures p[k] !in inside {
        if k > 1 { assert p[1..][k - 1] == p[k]; }
      }
    }
  }

  /** The rewrite reports a cyclic alias exactly when the aliases' definitions form a cycle. */
  lemma CyclicIff(debug: Expression -> string, exprs: seq<Expression>)
    requires DistinctAliases(exprs) && TopLevelAliases(exprs)
    ensures AliasMap(debug, exprs).Ok?
    ensures RewrittenProjection(debug, exprs).Err? <==> exists c :: Cycle(AliasMap(debug, exprs).value, c)
  {
    AliasMapOfDistinct(debug, exprs);
    var m := AliasMap(debug, exprs).value;
    ExpandAllElements(m, {}, "", exprs);
    assert FlatBodies(m) by {
      forall a | a in m ensures Flat(m[a]) {
        var i :| 0 <= i < |exprs| && exprs[i] == Alias(a, m[a]);
      }
    }
    if RewrittenProjection(debug, exprs).Err? {
      var i :| 0 <= i < |exprs| && Expand(m, {}, "", exprs[i]).Err?;
      TopLevelFailure(m, exprs[i]);
    }
    if c :| Cycle(m, c) {
      assert Edge(m, c[0], c[1]);
      var i :| 0 <= i < |exprs| && exprs[i] == Alias(c[0], m[c[0]]);
      if Expand(m, {}, "", exprs[i]).Ok? {
        assert {} + {c[0]} == {c[0]};
        PathLeavesInside(m, {c[0]}, c);
      }
    }
  }

  lemma TopLevelFailure(m: Aliases, e: Expression)
    requires FlatBodies(m) && Flat(if e.Alias? then e.aliased else e)
    requires e.Alias? ==> e.alias in m && m[e.alias] == e.aliased
    requires Expand(m, {}, "", e).Err?
    ensures exists c :: Cycle(m, c)
  {
    if e.Alias? {
      assert Elements([e.alias]) == {} + {e.alias};
      FailureGivesCycle(m, [e.alias], e.alias, e.aliased);
    } else {
      assert Elements([]) == {};
      FailureGivesCycle(m, [], "", e);
    }
  }

  // ----- The whole projection -----

  lemma SuccessExpandsAll(debug: Expression -> string, exprs: seq<Expression>)
    requires DistinctAliases(exprs) && RewrittenProjection(debug, exprs).Ok?
    ensures AliasMap(debug, exprs).Ok? && AllExpand(AliasMap(debug, exprs).value)
  {
    AliasMapOfDistinct(debug, exprs);
    var m := AliasMap(debug, exprs).value;
    ExpandAllElements(m, {}, "", exprs);
    forall a | a in m ensures Expand(m, {a}, a, m[a]).Ok? {
      var i :| 0 <= i < |exprs| && exprs[i] == Alias(a, m[a]);
      assert Expand(m, {}, "", exprs[i]).Ok? && {} + {a} == {a};
    }
  }

  /**
    When the rewrite succeeds, the alias equations have exactly one solution on every row, and each
    rewritten expression evaluates plainly to what the original means under it.
   */
  lemma ProjectionMeaning(s: Semantics, row: Row, env: Row, debug: Expression -> string, exprs: seq<Expression>, i: nat)
    requires DistinctAliases(exprs) && RewrittenProjection(debug, exprs).Ok? && i < |exprs|
    ensures AliasMap(debug, exprs).Ok?
    ensures var m := AliasMap(debug, exprs).value;
            && AllExpand(m)
            && Solves(s, row, m, AliasValues(s, row, m))
            && (Solves(s, row, m, env) ==>
                  && (forall a :: a in m ==> env(a) == AliasValues(s, row, m)(a))
                  && Eval(s, row, RewrittenProjection(debug, exprs).value[i]) ==
                     ScopedEval(s, row, m, env, "", exprs[i]))
  {
    SuccessExpandsAll(debug, exprs);
    var m := AliasMap(debug, exprs).value;
    AliasEquationsSolved(s, row, m, env);
    ExpandAllElements(m, {}, "", exprs);
    if Solves(s, row, m, env) {
      ExpandMeaning(s, row, m, env, {}, "", exprs[i]);
    }
  }

  ghost predicate NoSelfReference(aliases: Aliases)
  {
    forall a :: a in aliases ==> a !in Refs(aliases[a])
  }

  /** What an expansion leaves behind looks up no alias but the one it stands in. */
  lemma {:induction false} ExpandedRefs(aliases: Aliases, inside: set<string>, current: string, e: Expression)
    requires FlatBodies(aliases) && NoSelfReference(aliases) && Flat(e)
    requires Expand(aliases, inside, current, e).Ok?
    ensures var x := Expand(aliases, inside, current, e).value;
            Flat(x) && forall b :: b in Refs(x) && b in aliases ==> b == current && b in Refs(e)
    decreases aliases.Keys - inside, Size(e)
  {
    if e.Column? {
      if e.column != current && e.column in aliases {
        ColumnShrinks(aliases, inside, e.column);
        ExpandedRefs(aliases, inside + {e.column}, e.column, aliases[e.column]);
      }
    } else if !e.Sort? {
      var cs, x := Children(e), Expand(aliases, inside, current, e).value;
      ExpandPlain(aliases, inside, current, e);
      var xs := ExpandAll(aliases, inside, current, cs).value;
      forall i | 0 <= i < |cs|
        ensures Flat(xs[i]) && forall b :: b in Refs(xs[i]) && b in aliases ==> b == current && b in Refs(cs[i])
      {
        MemberSize(cs, i);
        ExpandedRefs(aliases, inside, current, cs[i]);
      }
      RebuiltRefs(e, xs);
      forall b | b in Refs(x) && b in aliases ensures b == current && b in Refs(e) {
        var i :| 0 <= i < |xs| && b in Refs(xs[i]);
        assert b in Refs(cs[i]);
      }
    }
  }

  lemma RebuiltRefs(e: Expression, xs: seq<Expression>)
    requires !e.Column? && !e.Sort? && !e.Alias? && |xs| == |Children(e)|
    requires forall i :: 0 <= i < |xs| ==> Flat(xs[i])
    ensures Flat(WithChildren(e, xs))
    ensures forall c :: c in Refs(WithChildren(e, xs)) <==> exists i :: 0 <= i < |xs| && c in Refs(xs[i])
  {
    var x := WithChildren(e, xs);
    assert Children(x) == xs && !x.Column? && !x.Sort? && !x.Alias?;
  }

  /** An expression that looks up no alias but the current one is left as it is. */
  lemma {:induction false} ExpandedIsStable(aliases: Aliases, inside: set<string>, current: string, e: Expression)
    requires Flat(e) && inside <= {current}
    requires forall b :: b in Refs(e) && b in aliases ==> b == current
    ensures Expand(aliases, inside, current, e) == Ok(e)
    decreases e
  {
    if !e.Column? && !e.Sort? {
      var cs := Children(e);
      forall i | 0 <= i < |cs| ensures Expand(aliases, inside, current, cs[i]) == Ok(cs[i]) {
        assert forall b :: b in Refs(cs[i]) ==> b in Refs(e);
        ExpandedIsStable(aliases, inside, current, cs[i]);
      }
      ExpandAllElements(aliases, inside, current, cs);
      assert ExpandAll(aliases, inside, current, cs).value == cs;
    }
  }

  lemma ElementIsStable(m: Aliases, m': Aliases, e: Expression)
    requires FlatBodies(m) && NoSelfReference(m) && m.Keys == m'.Keys
    requires Flat(if e.Alias? then e.aliased else e)
    requires e.Alias? ==> e.alias !in Refs(e.aliased)
    requires Expand(m, {}, "", e).Ok?
    ensures var x := Expand(m, {}, "", e).value;
            && (if e.Alias? then x.Alias? && x.alias == e.alias else !x.Alias?)
            && Expand(m', {}, "", x) == Ok(x)
  {
    var x := Expand(m, {}, "", e).value;
    if e.Alias? {
      ExpandedRefs(m, {} + {e.alias}, e.alias, e.aliased);
      ExpandedIsStable(m', {} + {e.alias}, e.alias, x.aliased);
    } else {
      ExpandedRefs(m, {}, "", e);
      ExpandedIsStable(m', {}, "", x);
    }
  }

  /** Expanding a projection without self-references twice is expanding it once. */
  lemma ExpandTwiceIsOnce(debug: Expression -> string, exprs: seq<Expression>)
    requires DistinctAliases(exprs) && TopLevelAliases(exprs)
    requires AliasMap(debug, exprs).Ok? && NoSelfReference(AliasMap(debug, exprs).value)
    requires RewrittenProjection(debug, exprs).Ok?
    ensures var once := RewrittenProjection(debug, exprs).value;
            RewrittenProjection(debug, once) == Ok(once)
  {
    var m := AliasMap(debug, exprs).value;
    var once := RewrittenProjection(debug, exprs).value;
    AliasMapOfDistinct(debug, exprs);
    ExpandAllElements(m, {}, "", exprs);
    assert FlatBodies(m) by {
      forall a | a in m ensures Flat(m[a]) {
        var i :| 0 <= i < |exprs| && exprs[i] == Alias(a, m[a]);
      }
    }
    assert SameAliases(exprs, once) by {
      forall i | 0 <= i < |exprs| ensures exprs[i].Alias? <==> once[i].Alias?
                                  ensures exprs[i].Alias? ==> exprs[i].alias == once[i].alias {
        ElementIsStable(m, m, exprs[i]);
      }
    }
    AliasNames(debug, exprs, once);
    var m' := AliasMap(debug, once).value;
    forall i | 0 <= i < |once| ensures Expand(m', {}, "", once[i]) == Ok(once[i]) {
      ElementIsStable(m, m', exprs[i]);
    }
    ExpandAllElements(m', {}, "", once);
    assert ExpandAll(m', {}, "", once).value == once;
  }

  ghost predicate SameAliases(es: seq<Expression>, fs: seq<Expression>)
  {
    && |es| == |fs|
    && (forall i :: 0 <= i < |es| ==> (es[i].Alias? <==> fs[i].Alias?))
    && (forall i :: 0 <= i < |es| && es[i].Alias? ==> es[i].alias == fs[i].alias)
  }

  lemma AliasNames(debug: Expression -> string, es: seq<Expression>, fs: seq<Expression>)
    requires DistinctAliases(es) && SameAliases(es, fs)
    ensures AliasMap(debug, es).Ok? && AliasMap(debug, fs).Ok?
    ensures AliasMap(debug, es).value.Keys == AliasMap(debug, fs).value.Keys
  {
    AliasMapOfDistinct(debug, es);
    AliasMapOfDistinct(debug, fs);
    var m, n := AliasMap(debug, es).value, AliasMap(debug, fs).value;
    forall a ensures a in m <==> a in n {
      if a in m { var i :| 0 <= i < |es| && es[i] == Alias(a, m[a]); }
      if a in n { var i :| 0 <= i < |fs| && fs[i] == Alias(a, n[a]); }
    }
  }
}
