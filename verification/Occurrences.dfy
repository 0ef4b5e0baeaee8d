/**
  Where subexpressions occur: an occurrence is the way down to it along `Children`.
 */
module Occurrences {
  import opened Expressions

  /** Positions to take, from the root down. */
  type Path = seq<nat>

  /** A test of expressions, as a finder is given one. */
  type Test = Expression -> bool

  /** The path leads to `x`, which passes the test, past nodes that do not. */
  predicate OccursAt(p: Test, e: Expression, path: Path, x: Expression)
    decreases |path|
  {
    if path == [] then x == e && p(e)
    else !p(e) && path[0] < |Children(e)| && OccursAt(p, Children(e)[path[0]], path[1..], x)
  }

  /** The same in a list, whose positions come first. */
  predicate OccursAtIn(p: Test, es: seq<Expression>, path: Path, x: Expression)
  {
    path != [] && path[0] < |es| && OccursAt(p, es[path[0]], path[1..], x)
  }

  /** `x` is an outermost subexpression that passes the test. */
  ghost predicate Occurs(p: Test, es: seq<Expression>, x: Expression)
  {
    exists path :: OccursAtIn(p, es, path, x)
  }

  /** `p` leaves `q` to the left. */
  ghost predicate LeftOf(p: Path, q: Path)
  {
    exists k: nat :: PartAt(p, q, k)
  }

  predicate PartAt(p: Path, q: Path, k: nat)
  {
    k < |p| && k < |q| && p[..k] == q[..k] && p[k] < q[k]
  }

  ghost predicate LeftToRight(paths: seq<Path>)
  {
    forall i, j :: 0 <= i < j < |paths| ==> LeftOf(paths[i], paths[j])
  }

  /** The paths lead to the listed expressions, and to all that occur. */
  ghost predicate LeadTo(p: Test, es: seq<Expression>, paths: seq<Path>, xs: seq<Expression>)
  {
    && |paths| == |xs|
    && (forall i :: 0 <= i < |xs| ==> OccursAtIn(p, es, paths[i], xs[i]))
    && (forall path, x :: OccursAtIn(p, es, path, x) ==> path in paths)
  }

  /** The list has every occurrence once, from left to right. */
  ghost predicate ListsOccurrences(p: Test, es: seq<Expression>, xs: seq<Expression>)
  {
    exists paths :: LeadTo(p, es, paths, xs) && LeftToRight(paths)
  }

  // ----- Listing them -----

  function NodesTo(p: Test, e: Expression): seq<Expression>
    decreases Size(e), 0
  {
    if p(e) then [e] else NodesIn(p, Children(e))
  }

  function NodesIn(p: Test, es: seq<Expression>): seq<Expression>
    decreases SizeAll(es), 1
  {
    if es == [] then [] else NodesIn(p, es[..|es| - 1]) + NodesTo(p, es[|es| - 1])
  }

  function PathsTo(p: Test, e: Expression): seq<Path>
    decreases Size(e), 0
  {
    if p(e) then [[]] else PathsIn(p, Children(e))
  }

  function PathsIn(p: Test, es: seq<Expression>): seq<Path>
    decreases SizeAll(es), 1
  {
    if es == [] then [] else PathsIn(p, es[..|es| - 1]) + Under(|es| - 1, PathsTo(p, es[|es| - 1]))
  }

  function Under(n: nat, paths: seq<Path>): (r: seq<Path>)
    ensures |r| == |paths| && forall i :: 0 <= i < |r| ==> r[i] == [n] + paths[i]
  {
    seq(|paths|, i requires 0 <= i < |paths| => [n] + paths[i])
  }

  ghost predicate LeadToIn(p: Test, e: Expression, paths: seq<Path>, xs: seq<Expression>)
  {
    && |paths| == |xs|
    && (forall i :: 0 <= i < |xs| ==> OccursAt(p, e, paths[i], xs[i]))
    && (forall path, x :: OccursAt(p, e, path, x) ==> path in paths)
  }

  lemma OccursBelow(p: Test, e: Expression, path: Path, x: Expression)
    requires !p(e)
    ensures OccursAt(p, e, path, x) <==> OccursAtIn(p, Children(e), path, x)
  {
  }

  lemma LeadToRest(p: Test, rest: seq<Expression>, last: Expression, paths: seq<Path>, xs: seq<Expression>,
                   lastPaths: seq<Path>, lastXs: seq<Expression>)
    requires LeadTo(p, rest, paths, xs) && LeadToIn(p, last, lastPaths, lastXs)
    ensures LeadTo(p, rest + [last], paths + Under(|rest|, lastPaths), xs + lastXs)
  {
    var es, ps, ys, n := rest + [last], paths + Under(|rest|, lastPaths), xs + lastXs, |rest|;
    forall i | 0 <= i < |ys|
      ensures OccursAtIn(p, es, ps[i], ys[i])
    {
      if i < |xs| {
        assert es[paths[i][0]] == rest[paths[i][0]];
      } else {
        var q := lastPaths[i - |xs|];
        assert ps[i] == [n] + q && ps[i][1..] == q;
      }
    }
    forall path, x | OccursAtIn(p, es, path, x)
      ensures path in ps
    {
      if path[0] < n {
        assert OccursAtIn(p, rest, path, x);
      } else {
        assert OccursAt(p, last, path[1..], x);
        var i :| 0 <= i < |lastPaths| && lastPaths[i] == path[1..];
        assert ps[|paths| + i] == [n] + path[1..] == path;
      }
    }
  }

  lemma NodesMore(p: Test, rest: seq<Expression>, last: Expression)
    requires LeadTo(p, rest, PathsIn(p, rest), NodesIn(p, rest))
    requires LeadToIn(p, last, PathsTo(p, last), NodesTo(p, last))
    ensures LeadTo(p, rest + [last], PathsIn(p, rest + [last]), NodesIn(p, rest + [last]))
  {
    LeadToRest(p, rest, last, PathsIn(p, rest), NodesIn(p, rest), PathsTo(p, last), NodesTo(p, last));
    NodesUnfold(p, rest, last);
  }

  lemma NodesUnfold(p: Test, rest: seq<Expression>, last: Expression)
    ensures PathsIn(p, rest + [last]) == PathsIn(p, rest) + Under(|rest|, PathsTo(p, last))
    ensures NodesIn(p, rest + [last]) == NodesIn(p, rest) + NodesTo(p, last)
  {
    var es := rest + [last];
    assert es[..|es| - 1] == rest && es[|es| - 1] == last;
  }

  lemma NothingOccurs(p: Test)
    ensures LeadTo(p, [], PathsIn(p, []), NodesIn(p, []))
  {
  }

  lemma {:induction false} NodesLeadTo(p: Test, e: Expression)
    ensures LeadToIn(p, e, PathsTo(p, e), NodesTo(p, e))
    decreases Size(e), 0
  {
    if !p(e) {
      NodesLeadToAll(p, Children(e));
      forall path, x
        ensures OccursAt(p, e, path, x) <==> OccursAtIn(p, Children(e), path, x)
      {
        OccursBelow(p, e, path, x);
      }
    }
  }

  lemma {:induction false} NodesLeadToAll(p: Test, es: seq<Expression>)
    ensures LeadTo(p, es, PathsIn(p, es), NodesIn(p, es))
    decreases SizeAll(es), 1
  {
    if es == [] {
      NothingOccurs(p);
    } else {
      var rest, last := es[..|es| - 1], es[|es| - 1];
      assert es == rest + [last];
      NodesLeadToAll(p, rest);
      NodesLeadTo(p, last);
      NodesMore(p, rest, last);
    }
  }

  lemma LeftUnder(n: nat, p: Path, q: Path)
    requires LeftOf(p, q)
    ensures LeftOf([n] + p, [n] + q)
  {
    var k: nat :| PartAt(p, q, k);
    assert ([n] + p)[..k + 1] == [n] + p[..k] && ([n] + q)[..k + 1] == [n] + q[..k];
    assert PartAt([n] + p, [n] + q, k + 1);
  }

  /** Paths into the first `n` positions, then paths through position `n`. */
  lemma LeftToRightMore(n: nat, paths: seq<Path>, lastPaths: seq<Path>)
    requires LeftToRight(paths) && LeftToRight(lastPaths)
    requires forall i :: 0 <= i < |paths| ==> paths[i] != [] && paths[i][0] < n
    ensures LeftToRight(paths + Under(n, lastPaths))
  {
    var ps := paths + Under(n, lastPaths);
    forall i, j | 0 <= i < j < |ps|
      ensures LeftOf(ps[i], ps[j])
    {
      if j >= |paths| {
        if i < |paths| {
          assert PartAt(ps[i], ps[j], 0);
        } else {
          LeftUnder(n, lastPaths[i - |paths|], lastPaths[j - |paths|]);
        }
      }
    }
  }

  lemma {:induction false} PathsGoRight(p: Test, e: Expression)
    ensures LeftToRight(PathsTo(p, e))
    decreases Size(e), 0
  {
    if !p(e) {
      PathsInGoRight(p, Children(e));
    }
  }

  lemma {:induction false} PathsInGoRight(p: Test, es: seq<Expression>)
    ensures LeftToRight(PathsIn(p, es))
    ensures forall i :: 0 <= i < |PathsIn(p, es)| ==> PathsIn(p, es)[i] != [] && PathsIn(p, es)[i][0] < |es|
    decreases SizeAll(es), 1
  {
    if es != [] {
      var n := |es| - 1;
      PathsInGoRight(p, es[..n]);
      PathsGoRight(p, es[n]);
      LeftToRightMore(n, PathsIn(p, es[..n]), PathsTo(p, es[n]));
    }
  }

  lemma NodesInOrder(p: Test, es: seq<Expression>)
    ensures ListsOccurrences(p, es, NodesIn(p, es))
  {
    NodesLeadToAll(p, es);
    PathsInGoRight(p, es);
  }

  /** A list of the occurrences has as members just the expressions that occur. */
  lemma ListedIffOccurs(p: Test, es: seq<Expression>, xs: seq<Expression>, x: Expression)
    requires ListsOccurrences(p, es, xs)
    ensures x in xs <==> Occurs(p, es, x)
  {
    var paths :| LeadTo(p, es, paths, xs) && LeftToRight(paths);
    if x in xs {
      var i :| 0 <= i < |xs| && xs[i] == x;
      assert OccursAtIn(p, es, paths[i], x);
    }
    if Occurs(p, es, x) {
      var path :| OccursAtIn(p, es, path, x);
      var i :| 0 <= i < |paths| && paths[i] == path;
      OneAt(p, es, path, x, xs[i]);
    }
  }

  lemma OneAt(p: Test, es: seq<Expression>, path: Path, x: Expression, y: Expression)
    requires OccursAtIn(p, es, path, x) && OccursAtIn(p, es, path, y)
    ensures x == y
  {
    OneAtIn(p, es[path[0]], path[1..], x, y);
  }

  lemma {:induction false} OneAtIn(p: Test, e: Expression, path: Path, x: Expression, y: Expression)
    requires OccursAt(p, e, path, x) && OccursAt(p, e, path, y)
    ensures x == y
    decreases |path|
  {
    if path != [] {
      OneAtIn(p, Children(e)[path[0]], path[1..], x, y);
    }
  }
}
