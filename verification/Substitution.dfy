/**
  Replacement inside expressions: `clone_with_replacement`, `rebase_expr`,
  `resolve_aliases_to_exprs` and the column finder
  (common/planners/src/plan_expression_common.rs), and `rewrite_alias_expr`
  (common/planners/src/plan_node_rewriter.rs).
 */
module Substitution {
  import opened Wrappers
  import opened Expressions
  import opened Visitor
  import opened StackVisitors
  import opened Occurrences

  /** Replace the outermost nodes for which `f` gives something. */
  function CloneWithReplacement(f: Expression -> Option<Expression>, e: Expression): Expression
    decreases e
  {
    match f(e)
    case Some(r) => r
    case None =>
      var cs := Children(e);
      WithChildren(e, seq(|cs|, i requires 0 <= i < |cs| => CloneWithReplacement(f, cs[i])))
  }

  /** The columns of `e` outside the outermost subexpressions that `p` takes. */
  ghost function ColumnsOutside(p: Expression -> bool, e: Expression): set<string>
    decreases e
  {
    if p(e) then {}
    else if e.Column? then {e.column}
    else set c, i | 0 <= i < |Children(e)| && c in ColumnsOutside(p, Children(e)[i]) :: c
  }

  ghost function Replaced(f: Expression -> Option<Expression>): Expression -> bool
  {
    (e: Expression) => f(e).Some?
  }

  /** If replacements evaluate in `row'` as what they replace does in `row`, so does the whole. */
  lemma {:induction false} ReplacementPreservesMeaning(
      s: Semantics, row: Row, row': Row, f: Expression -> Option<Expression>, e: Expression)
    requires forall x :: f(x).Some? ==> Eval(s, row', f(x).value) == Eval(s, row, x)
    requires forall c :: c in ColumnsOutside(Replaced(f), e) ==> row'(c) == row(c)
    ensures Eval(s, row', CloneWithReplacement(f, e)) == Eval(s, row, e)
    decreases e
  {
    if f(e).None? {
      var cs := Children(e);
      var ds := seq(|cs|, i requires 0 <= i < |cs| => CloneWithReplacement(f, cs[i]));
      forall i | 0 <= i < |cs| ensures Eval(s, row', ds[i]) == Eval(s, row, cs[i]) {
        assert forall c :: c in ColumnsOutside(Replaced(f), cs[i]) ==> c in ColumnsOutside(Replaced(f), e);
        ReplacementPreservesMeaning(s, row, row', f, cs[i]);
      }
      EvalWithChildren(s, row, row', e, ds);
    }
  }

  // ----- Rebasing on GROUP BY expressions -----

  function AsColumn(fmt: Format, e: Expression): Expression
  {
    if e.Column? then e else Column(ColumnName(fmt, e))
  }

  function RebaseWith(fmt: Format, base: seq<Expression>): Expression -> Option<Expression>
  {
    (e: Expression) => if e in base then Some(AsColumn(fmt, e)) else None
  }

  function RebaseExpr(fmt: Format, base: seq<Expression>, e: Expression): Expression
  {
    CloneWithReplacement(RebaseWith(fmt, base), e)
  }

  /** `row'` holds each base expression's value under its column name ... */
  ghost predicate HoldsBase(s: Semantics, fmt: Format, base: seq<Expression>, row: Row, row': Row)
  {
    forall b :: b in base ==> row'(ColumnName(fmt, b)) == Eval(s, row, b)
  }

  ghost function InBase(base: seq<Expression>): Expression -> bool
  {
    (e: Expression) => e in base
  }

  /** ... and agrees with `row` on the columns outside the base expressions; inside them it may differ. */
  ghost predicate AgreesElsewhere(base: seq<Expression>, row: Row, row': Row, e: Expression)
  {
    forall c :: c in ColumnsOutside(InBase(base), e) ==> row'(c) == row(c)
  }

  lemma {:induction false} OutsideExtensional(p: Expression -> bool, q: Expression -> bool, e: Expression)
    requires forall x :: p(x) <==> q(x)
    ensures ColumnsOutside(p, e) == ColumnsOutside(q, e)
    decreases e
  {
    forall i | 0 <= i < |Children(e)|
      ensures ColumnsOutside(p, Children(e)[i]) == ColumnsOutside(q, Children(e)[i])
    {
      OutsideExtensional(p, q, Children(e)[i]);
    }
  }

  lemma RebasePreservesMeaning(
      s: Semantics, fmt: Format, base: seq<Expression>, row: Row, row': Row, e: Expression)
    requires HoldsBase(s, fmt, base, row, row')
    requires AgreesElsewhere(base, row, row', e)
    ensures Eval(s, row', RebaseExpr(fmt, base, e)) == Eval(s, row, e)
  {
    var f := RebaseWith(fmt, base);
    forall x | f(x).Some? ensures Eval(s, row', f(x).value) == Eval(s, row, x) {
      assert f(x) == Some(AsColumn(fmt, x));
      EvalUnfold(s, row', AsColumn(fmt, x));
    }
    OutsideExtensional(Replaced(f), InBase(base), e);
    ReplacementPreservesMeaning(s, row, row', f, e);
  }

  /** The column names of the outermost base expressions in `e`. */
  ghost function BaseNames(fmt: Format, base: seq<Expression>, e: Expression): set<string>
    decreases e
  {
    if e in base then {ColumnName(fmt, e)}
    else set c, i | 0 <= i < |Children(e)| && c in BaseNames(fmt, base, Children(e)[i]) :: c
  }

  /** A node rebuilt over other children has just their columns. */
  lemma RebuiltColumns(e: Expression, ds: seq<Expression>, c: string)
    requires |ds| == |Children(e)| && !e.Column?
    ensures c in Columns(WithChildren(e, ds)) <==> exists i :: 0 <= i < |ds| && c in Columns(ds[i])
  {
    var w := WithChildren(e, ds);
    assert Children(w) == ds && !w.Column?;
  }

  lemma RebasedStep(fmt: Format, base: seq<Expression>, e: Expression, ds: seq<Expression>)
    requires e !in base && !e.Column? && |ds| == |Children(e)|
    requires forall i :: 0 <= i < |ds| ==>
               Columns(ds[i]) == ColumnsOutside(InBase(base), Children(e)[i]) + BaseNames(fmt, base, Children(e)[i])
    ensures Columns(WithChildren(e, ds)) == ColumnsOutside(InBase(base), e) + BaseNames(fmt, base, e)
  {
    forall c
      ensures c in Columns(WithChildren(e, ds)) <==> c in ColumnsOutside(InBase(base), e) + BaseNames(fmt, base, e)
    {
      RebuiltColumns(e, ds, c);
      assert InBase(base)(e) == false;
    }
  }

  function RebasedChildren(fmt: Format, base: seq<Expression>, e: Expression): (ds: seq<Expression>)
    ensures |ds| == |Children(e)| && forall i :: 0 <= i < |ds| ==> ds[i] == RebaseExpr(fmt, base, Children(e)[i])
  {
    seq(|Children(e)|, i requires 0 <= i < |Children(e)| => RebaseExpr(fmt, base, Children(e)[i]))
  }

  lemma RebaseUnfold(fmt: Format, base: seq<Expression>, e: Expression)
    requires e !in base
    ensures RebaseExpr(fmt, base, e) == WithChildren(e, RebasedChildren(fmt, base, e))
  {
    var cs := Children(e);
    assert RebasedChildren(fmt, base, e)
        == seq(|cs|, i requires 0 <= i < |cs| => CloneWithReplacement(RebaseWith(fmt, base), cs[i]));
  }

  /** Rebasing leaves the columns outside the base expressions, and puts in the names of the outermost ones. */
  lemma {:induction false} RebasedColumns(fmt: Format, base: seq<Expression>, e: Expression)
    ensures Columns(RebaseExpr(fmt, base, e)) == ColumnsOutside(InBase(base), e) + BaseNames(fmt, base, e)
    decreases e
  {
    if e !in base && !e.Column? {
      var ds := RebasedChildren(fmt, base, e);
      forall i | 0 <= i < |ds|
        ensures Columns(ds[i])
             == ColumnsOutside(InBase(base), Children(e)[i]) + BaseNames(fmt, base, Children(e)[i])
      {
        RebasedColumns(fmt, base, Children(e)[i]);
      }
      RebaseUnfold(fmt, base, e);
      RebasedStep(fmt, base, e, ds);
    }
  }

  // ----- The finder -----

  /** The outermost matching nodes, children last to first. */
  function Matches(test: Expression -> bool, e: Expression): seq<Expression>
    decreases Size(e), 0
  {
    if test(e) then [e] else MatchesAll(test, Children(e))
  }

  function MatchesAll(test: Expression -> bool, es: seq<Expression>): seq<Expression>
    decreases SizeAll(es), 1
  {
    if es == [] then [] else Matches(test, es[|es| - 1]) + MatchesAll(test, es[..|es| - 1])
  }

  /** Append what is not there yet. */
  function Extend(acc: seq<Expression>, es: seq<Expression>): (r: seq<Expression>)
    ensures forall x :: x in r <==> x in acc || x in es
    ensures NoDuplicates(acc) ==> NoDuplicates(r)
    decreases |es|
  {
    if es == [] then acc
    else Extend(if es[0] in acc then acc else acc + [es[0]], es[1..])
  }

  ghost predicate NoDuplicates(es: seq<Expression>)
  {
    forall i, j :: 0 <= i < j < |es| ==> es[i] != es[j]
  }

  lemma {:induction false} ExtendConcat(acc: seq<Expression>, es: seq<Expression>, fs: seq<Expression>)
    ensures Extend(acc, es + fs) == Extend(Extend(acc, es), fs)
    decreases |es|
  {
    if es == [] {
      assert es + fs == fs;
    } else {
      assert (es + fs)[1..] == es[1..] + fs;
      ExtendConcat(if es[0] in acc then acc else acc + [es[0]], es[1..], fs);
    }
  }

  lemma {:induction false} ExtendKnown(acc: seq<Expression>, es: seq<Expression>)
    requires forall x :: x in es ==> x in acc
    ensures Extend(acc, es) == acc
    decreases |es|
  {
    if es != [] {
      ExtendKnown(acc, es[1..]);
    }
  }

  /** `Finder`: collects matching nodes once each and does not descend into them. */
  function Finder(test: Expression -> bool): Visitor<seq<Expression>, PlanError>
  {
    Visitor((found: seq<Expression>, e: Expression) =>
              if test(e) then Ok(Stop(if e in found then found else found + [e])) else Ok(Continue(found)),
            (found: seq<Expression>, e: Expression) => Ok(found))
  }

  lemma {:induction false} FinderWalk(test: Expression -> bool, found: seq<Expression>, e: Expression)
    ensures Walk(Finder(test), found, e) == Ok(Extend(found, Matches(test, e)))
    decreases Size(e), 0
  {
    if test(e) {
      assert [e][1..] == [];
    } else {
      FinderWalkAll(test, found, Children(e));
    }
  }

  lemma {:induction false} FinderWalkAll(test: Expression -> bool, found: seq<Expression>, es: seq<Expression>)
    ensures WalkLastFirst(Finder(test), found, es) == Ok(Extend(found, MatchesAll(test, es)))
    decreases SizeAll(es), 1
  {
    if es != [] {
      var last, rest := es[|es| - 1], es[..|es| - 1];
      FinderWalk(test, found, last);
      FinderWalkAll(test, Extend(found, Matches(test, last)), rest);
      ExtendConcat(found, Matches(test, last), MatchesAll(test, rest));
    }
  }

  /** `find_exprs_in_expr`: `accept` visits the root twice, which adds nothing. */
  method FindExprsInExpr(test: Expression -> bool, e: Expression) returns (found: seq<Expression>)
    ensures found == Extend([], Matches(test, e))
    ensures NoDuplicates(found)
  {
    var r := Accept(Finder(test), [], e);
    FinderWalk(test, [], e);
    assert test(e) ==> [e][1..] == [];
    found := r.value;
  }

  /** `find_exprs_in_exprs`: first to last over the list, duplicates dropped again. */
  method FindExprsInExprs(test: Expression -> bool, es: seq<Expression>) returns (found: seq<Expression>)
    ensures found == Extend([], MatchesInTurn(test, es))
    ensures NoDuplicates(found)
    ensures forall x :: x in found <==> MatchesIn(test, es, x)
  {
    found := [];
    for i := 0 to |es|
      invariant found == Extend([], MatchesInTurn(test, es[..i]))
    {
      assert es[..i + 1][..i] == es[..i];
      var more := FindExprsInExpr(test, es[i]);
      found := AppendNew(found, more);
      ExtendOnce(Extend([], MatchesInTurn(test, es[..i])), Matches(test, es[i]));
      ExtendConcat([], MatchesInTurn(test, es[..i]), Matches(test, es[i]));
    }
    assert es[..|es|] == es;
    forall x: Expression
      ensures x in found <==> MatchesIn(test, es, x)
    {
      MatchesInTurnMembers(test, es, x);
    }
  }

  /** The matches of each expression, first to last. */
  function MatchesInTurn(test: Expression -> bool, es: seq<Expression>): seq<Expression>
  {
    if es == [] then [] else MatchesInTurn(test, es[..|es| - 1]) + Matches(test, es[|es| - 1])
  }

  lemma ReverseConcat(a: seq<Expression>, b: seq<Expression>)
    ensures Reverse(a + b) == Reverse(b) + Reverse(a)
  {
  }

  lemma {:induction false} MatchesReversed(test: Test, e: Expression)
    ensures Reverse(Matches(test, e)) == NodesTo(test, e)
    decreases Size(e), 0
  {
    if !test(e) {
      MatchesAllReversed(test, Children(e));
    }
  }

  lemma {:induction false} MatchesAllReversed(test: Test, es: seq<Expression>)
    ensures Reverse(MatchesAll(test, es)) == NodesIn(test, es)
    decreases SizeAll(es), 1
  {
    if es != [] {
      var rest, last := es[..|es| - 1], es[|es| - 1];
      MatchesAllReversed(test, rest);
      MatchesReversed(test, last);
      ReverseConcat(Matches(test, last), MatchesAll(test, rest));
    }
  }

  /** The finder's matches are all outermost ones, from right to left, although its comment says depth first. */
  lemma MatchesFromTheRight(test: Test, e: Expression)
    ensures ListsOccurrences(test, [e], Reverse(Matches(test, e)))
  {
    MatchesReversed(test, e);
    NodesUnfold(test, [], e);
    assert [] + [e] == [e] && NodesIn(test, []) == [];
    NodesInOrder(test, [e]);
  }

  /** The expression matches in one of the list. */
  ghost predicate MatchesIn(test: Expression -> bool, es: seq<Expression>, x: Expression)
  {
    exists i :: 0 <= i < |es| && x in Matches(test, es[i])
  }

  lemma MatchesInMore(test: Expression -> bool, rest: seq<Expression>, last: Expression, x: Expression)
    ensures MatchesIn(test, rest + [last], x) <==> MatchesIn(test, rest, x) || x in Matches(test, last)
  {
    var es := rest + [last];
    assert es[|rest|] == last;
    if i :| 0 <= i < |rest| && x in Matches(test, rest[i]) {
      assert es[i] == rest[i];
    }
  }

  lemma {:induction false} MatchesInTurnMembers(test: Expression -> bool, es: seq<Expression>, x: Expression)
    ensures x in MatchesInTurn(test, es) <==> MatchesIn(test, es, x)
    decreases |es|
  {
    if es != [] {
      var rest, last := es[..|es| - 1], es[|es| - 1];
      MatchesInTurnMembers(test, rest, x);
      MatchesInMore(test, rest, last, x);
      assert es == rest + [last];
    }
  }

  lemma ExtendByOne(acc: seq<Expression>, x: Expression)
    ensures Extend(acc, [x]) == if x in acc then acc else acc + [x]
  {
    assert [x][1..] == [];
  }

  /** Dropping duplicates beforehand changes nothing. */
  lemma {:induction false} ExtendOnce(acc: seq<Expression>, es: seq<Expression>)
    ensures Extend(acc, Extend([], es)) == Extend(acc, es)
    decreases |es|
  {
    if es != [] {
      var rest, x := es[..|es| - 1], es[|es| - 1];
      assert es == rest + [x];
      ExtendOnce(acc, rest);
      ExtendConcat([], rest, [x]);
      ExtendConcat(acc, rest, [x]);
      ExtendByOne(Extend([], rest), x);
      ExtendByOne(Extend(acc, rest), x);
      if x !in Extend([], rest) {
        ExtendConcat(acc, Extend([], rest), [x]);
      }
    }
  }

  method AppendNew(start: seq<Expression>, more: seq<Expression>) returns (found: seq<Expression>)
    ensures found == Extend(start, more)
  {
    found := start;
    for k := 0 to |more|
      invariant Extend(found, more[k..]) == Extend(start, more)
    {
      assert more[k..][0] == more[k] && more[k..][1..] == more[k + 1..];
      if more[k] !in found { found := found + [more[k]]; }
    }
  }

  predicate IsColumn(e: Expression)
  {
    e.Column?
  }

  lemma {:induction false} MatchesAreColumns(e: Expression)
    ensures forall x :: x in Matches(IsColumn, e) <==> x.Column? && x.column in Columns(e)
    decreases Size(e), 0
  {
    if !e.Column? {
      var cs := Children(e);
      MatchesAllAreColumns(cs);
      forall x: Expression
        ensures (exists i :: 0 <= i < |cs| && x.Column? && x.column in Columns(cs[i])) <==>
                x.Column? && x.column in Columns(e)
      {
      }
    }
  }

  lemma {:induction false} MatchesAllAreColumns(es: seq<Expression>)
    ensures forall x :: x in MatchesAll(IsColumn, es) <==>
            exists i :: 0 <= i < |es| && x.Column? && x.column in Columns(es[i])
    decreases SizeAll(es), 1
  {
    if es != [] {
      var n := |es| - 1;
      MatchesAreColumns(es[n]);
      MatchesAllAreColumns(es[..n]);
      forall x: Expression
        ensures (exists i :: 0 <= i < |es| && x.Column? && x.column in Columns(es[i])) <==>
                || (x.Column? && x.column in Columns(es[n]))
                || exists i :: 0 <= i < n && x.Column? && x.column in Columns(es[..n][i])
      {
        if i :| 0 <= i < |es| && x.Column? && x.column in Columns(es[i]) {
          assert i == n || es[..n][i] == es[i];
        }
        if i :| 0 <= i < n && x.Column? && x.column in Columns(es[..n][i]) {
          assert es[..n][i] == es[i];
        }
      }
    }
  }

  /** The first of them that is not listed. */
  ghost predicate IsFirstMissing(columns: seq<Expression>, found: seq<Expression>, x: Expression)
  {
    exists k :: 0 <= k < |found| && found[k] == x && x !in columns && forall j :: 0 <= j < k ==> found[j] in columns
  }

  datatype Missing = NotColumns | AllSatisfied | Unsatisfied(column: Expression)

  /** `find_columns_not_satisfy_exprs`. */
  method FindColumnsNotSatisfyExprs(columns: seq<Expression>, es: seq<Expression>) returns (r: Missing)
    ensures r.NotColumns? <==> exists x :: x in columns && !x.Column?
    ensures r.AllSatisfied? <==> (forall x :: x in columns ==> x.Column?) && Covered(columns, es)
    ensures r.Unsatisfied? ==>
              r.column.Column? && r.column !in columns && exists i :: 0 <= i < |es| && r.column.column in Columns(es[i])
    ensures r.Unsatisfied? ==> IsFirstMissing(columns, Extend([], MatchesInTurn(IsColumn, es)), r.column)
  {
    for i := 0 to |columns|
      invariant forall j :: 0 <= j < i ==> columns[j].Column?
    {
      if !columns[i].Column? { return NotColumns; }
    }
    var found := FindExprsInExprs(IsColumn, es);
    var missing := FirstMissing(columns, found);
    if missing.None? {
      FoundCovers(columns, es, found);
      return AllSatisfied;
    }
    ghost var k :| 0 <= k < |found| && found[k] == missing.value;
    FoundIsUncovered(columns, es, found, k);
    r := Unsatisfied(missing.value);
  }

  method FirstMissing(columns: seq<Expression>, found: seq<Expression>) returns (r: Option<Expression>)
    ensures r.None? ==> forall j :: 0 <= j < |found| ==> found[j] in columns
    ensures r.Some? ==> r.value !in columns && IsFirstMissing(columns, found, r.value)
  {
    for i := 0 to |found|
      invariant forall j :: 0 <= j < i ==> found[j] in columns
    {
      if found[i] !in columns { return Some(found[i]); }
    }
    r := None;
  }

  lemma FoundIsUncovered(columns: seq<Expression>, es: seq<Expression>, found: seq<Expression>, i: nat)
    requires forall x :: x in found <==> MatchesIn(IsColumn, es, x)
    requires i < |found| && found[i] !in columns
    ensures found[i].Column? && exists j :: 0 <= j < |es| && found[i].column in Columns(es[j])
    ensures !Covered(columns, es)
  {
    assert found[i] in found && MatchesIn(IsColumn, es, found[i]);
    var j :| 0 <= j < |es| && found[i] in Matches(IsColumn, es[j]);
    MatchesAreColumns(es[j]);
    assert found[i] == Column(found[i].column);
  }

  lemma FoundCovers(columns: seq<Expression>, es: seq<Expression>, found: seq<Expression>)
    requires forall x :: x in found <==> MatchesIn(IsColumn, es, x)
    requires forall j :: 0 <= j < |found| ==> found[j] in columns
    ensures Covered(columns, es)
  {
    forall i, c | 0 <= i < |es| && c in Columns(es[i]) ensures Column(c) in columns {
      MatchesAreColumns(es[i]);
      assert Column(c) in Matches(IsColumn, es[i]);
      assert MatchesIn(IsColumn, es, Column(c)) && Column(c) in found;
    }
  }

  /** Every column under the expressions is listed. */
  ghost predicate Covered(columns: seq<Expression>, es: seq<Expression>)
  {
    forall i, c :: 0 <= i < |es| && c in Columns(es[i]) ==> Column(c) in columns
  }

  /** Covered expressions are functions of the listed columns alone. */
  lemma CoveredDependsOnlyOnColumns(s: Semantics, columns: seq<Expression>, es: seq<Expression>, r1: Row, r2: Row,
                                    i: nat)
    requires Covered(columns, es) && i < |es|
    requires forall c :: Column(c) in columns ==> r1(c) == r2(c)
    ensures Eval(s, r1, es[i]) == Eval(s, r2, es[i])
  {
    EvalDependsOnColumns(s, r1, r2, es[i]);
  }

  /**
    What the GROUP BY check is for: once the rebased expression is covered by the listed columns, rows
    whose post-aggregation rows agree on those columns give the original expression one value.
   */
  lemma GroupedValueIsWellDefined(
      s: Semantics, fmt: Format, base: seq<Expression>, columns: seq<Expression>, e: Expression,
      r1: Row, r1': Row, r2: Row, r2': Row)
    requires HoldsBase(s, fmt, base, r1, r1') && AgreesElsewhere(base, r1, r1', e)
    requires HoldsBase(s, fmt, base, r2, r2') && AgreesElsewhere(base, r2, r2', e)
    requires Covered(columns, [RebaseExpr(fmt, base, e)])
    requires forall c :: Column(c) in columns ==> r1'(c) == r2'(c)
    ensures Eval(s, r1, e) == Eval(s, r2, e)
  {
    RebasePreservesMeaning(s, fmt, base, r1, r1', e);
    RebasePreservesMeaning(s, fmt, base, r2, r2', e);
    CoveredDependsOnlyOnColumns(s, columns, [RebaseExpr(fmt, base, e)], r1', r2', 0);
  }

  /** The check passes exactly where each outermost base expression, and each column outside them, is listed. */
  lemma RebasedIsCoveredIff(fmt: Format, base: seq<Expression>, columns: seq<Expression>, e: Expression)
    ensures Covered(columns, [RebaseExpr(fmt, base, e)])
            <==> forall c :: c in ColumnsOutside(InBase(base), e) + BaseNames(fmt, base, e) ==> Column(c) in columns
  {
    RebasedColumns(fmt, base, e);
    var es := [RebaseExpr(fmt, base, e)];
    if Covered(columns, es) {
      forall c | c in Columns(es[0]) ensures Column(c) in columns {
      }
    }
  }

  // ----- Resolving aliases -----

  function AliasLookup(aliases: map<string, Expression>): Expression -> Option<Expression>
  {
    (e: Expression) => if e.Column? && e.column in aliases then Some(aliases[e.column]) else None
  }

  function ResolveAliases(aliases: map<string, Expression>, e: Expression): Expression
  {
    CloneWithReplacement(AliasLookup(aliases), e)
  }

  ghost function WithAliases(s: Semantics, row: Row, aliases: map<string, Expression>): Row
  {
    (c: string) => if c in aliases then Eval(s, row, aliases[c]) else row(c)
  }

  /** Evaluating the result is evaluating the original where each alias has its expression's value. */
  lemma {:induction false} SubstitutionLaw(s: Semantics, row: Row, aliases: map<string, Expression>, e: Expression)
    ensures Eval(s, row, ResolveAliases(aliases, e)) == Eval(s, WithAliases(s, row, aliases), e)
    decreases e
  {
    var f, row' := AliasLookup(aliases), WithAliases(s, row, aliases);
    if f(e).Some? {
      EvalUnfold(s, row', e);
    } else {
      var cs := Children(e);
      var ds := seq(|cs|, i requires 0 <= i < |cs| => CloneWithReplacement(f, cs[i]));
      forall i | 0 <= i < |cs| ensures Eval(s, row, ds[i]) == Eval(s, row', cs[i]) {
        SubstitutionLaw(s, row, aliases, cs[i]);
        assert ds[i] == ResolveAliases(aliases, cs[i]);
      }
      EvalWithChildren(s, row', row, e, ds);
    }
  }

  /** `rebuild_from_exprs`: casts, sorts and the remaining leaves keep their own children. */
  function RebuildFromExprs(e: Expression, cs: seq<Expression>): Expression
    requires |cs| == |Children(e)|
  {
    if e.Cast? || e.Sort? then e else WithChildren(e, cs)
  }

  function RewriteAliasExpr(aliases: map<string, Expression>, e: Expression): Expression
    decreases e
  {
    var cs := Children(e);
    var ds := seq(|cs|, i requires 0 <= i < |cs| => RewriteAliasExpr(aliases, cs[i]));
    if e.Column? && e.column in aliases then aliases[e.column] else RebuildFromExprs(e, ds)
  }

  /** No column below a reachable cast or sort is renamed by the map. */
  ghost predicate CastsUntouched(aliases: map<string, Expression>, e: Expression)
    decreases e
  {
    if e.Cast? || e.Sort? then Fixed(aliases, Children(e)[0])
    else forall i :: 0 <= i < |Children(e)| ==> CastsUntouched(aliases, Children(e)[i])
  }

  /** The map sends each column of `e` that it holds to itself. */
  ghost predicate Fixed(aliases: map<string, Expression>, e: Expression)
  {
    forall c :: c in Columns(e) && c in aliases ==> aliases[c] == Column(c)
  }

  lemma {:induction false} FixedIff(aliases: map<string, Expression>, e: Expression)
    ensures ResolveAliases(aliases, e) == e <==> Fixed(aliases, e)
    decreases e
  {
    var f, cs := AliasLookup(aliases), Children(e);
    if e.Column? {
      assert cs == [];
    } else {
      assert f(e).None?;
      var ds := seq(|cs|, i requires 0 <= i < |cs| => CloneWithReplacement(f, cs[i]));
      assert ResolveAliases(aliases, e) == WithChildren(e, ds);
      forall i | 0 <= i < |cs| ensures ds[i] == cs[i] <==> Fixed(aliases, cs[i]) {
        FixedIff(aliases, cs[i]);
        assert ds[i] == ResolveAliases(aliases, cs[i]);
      }
      assert WithChildren(e, ds) == e <==> ds == cs;
      assert ds == cs <==> forall i :: 0 <= i < |cs| ==> ds[i] == cs[i];
      assert Fixed(aliases, e) <==> forall i :: 0 <= i < |cs| ==> Fixed(aliases, cs[i]);
    }
  }

  /** The two engines agree exactly when no cast or sort hides a renamed column. */
  lemma {:induction false} EnginesAgreeIff(aliases: map<string, Expression>, e: Expression)
    ensures RewriteAliasExpr(aliases, e) == ResolveAliases(aliases, e) <==> CastsUntouched(aliases, e)
    decreases e
  {
    var f, cs := AliasLookup(aliases), Children(e);
    if e.Column? {
      assert cs == [];
    } else {
      var ds := seq(|cs|, i requires 0 <= i < |cs| => CloneWithReplacement(f, cs[i]));
      var rs := seq(|cs|, i requires 0 <= i < |cs| => RewriteAliasExpr(aliases, cs[i]));
      assert ResolveAliases(aliases, e) == WithChildren(e, ds);
      forall i | 0 <= i < |cs| ensures rs[i] == ds[i] <==> CastsUntouched(aliases, cs[i]) {
        EnginesAgreeIff(aliases, cs[i]);
        assert ds[i] == ResolveAliases(aliases, cs[i]);
      }
      if e.Cast? || e.Sort? {
        FixedIff(aliases, cs[0]);
        assert ds[0] == ResolveAliases(aliases, cs[0]);
      } else {
        assert Children(WithChildren(e, rs)) == rs && Children(WithChildren(e, ds)) == ds;
        assert rs == ds <==> forall i :: 0 <= i < |cs| ==> rs[i] == ds[i];
      }
    }
  }
}
