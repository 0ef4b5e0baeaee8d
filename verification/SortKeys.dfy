/**
  Several sort keys whose columns are extracted (query/src/optimizers/optimizer_top_n_push_down.rs): each key
  decides where those before it tie, and a key may tie rows that its column does not.
 */
module SortKeys {
  import opened Wrappers
  import opened Expressions
  import opened Monotonicity
  import opened ArithmeticMonotonicity

  type Order = (Value, Value) -> bool

  ghost predicate Tied(leq: Order, s: Semantics, sort: Expression, p: Row, q: Row)
    requires sort.Sort?
  {
    InOrder(leq, s, sort, p, q) && InOrder(leq, s, sort, q, p)
  }

  ghost predicate AllSorts(sorts: seq<Expression>)
  {
    forall i :: 0 <= i < |sorts| ==> sorts[i].Sort?
  }

  /** Two rows in the order of a list of sort expressions: each decides where those before it tie. */
  ghost predicate LexInOrder(leq: Order, s: Semantics, sorts: seq<Expression>, p: Row, q: Row)
    requires AllSorts(sorts)
    decreases |sorts|
  {
    sorts != [] ==>
      && InOrder(leq, s, sorts[0], p, q)
      && (Tied(leq, s, sorts[0], p, q) ==> LexInOrder(leq, s, sorts[1..], p, q))
  }

  // ----- One key in front of others -----

  /** The original key ties the rows only if its column does. */
  ghost predicate KeepsTies(leq: Order, k: SortKey, p: Row, q: Row)
    requires k.sort.Sort?
  {
    Tied(leq, k.analysis.semantics, k.sort, p, q) ==> Tied(leq, k.analysis.semantics, Extracted(k), p, q)
  }

  /** Whatever keys follow, rows in the order of the extracted key and those are in the original order. */
  ghost predicate OrderKept(leq: Order, k: SortKey, p: Row, q: Row)
    requires k.sort.Sort?
  {
    forall others | AllSorts(others) ::
      LexInOrder(leq, k.analysis.semantics, [Extracted(k)] + others, p, q) ==>
      LexInOrder(leq, k.analysis.semantics, [k.sort] + others, p, q)
  }

  function Reversed(sort: Expression): (x: Expression)
    requires sort.Sort?
    ensures x.Sort?
  {
    sort.(asc := !sort.asc)
  }

  lemma FirstDecides(leq: Order, s: Semantics, sort: Expression, others: seq<Expression>, p: Row, q: Row)
    requires sort.Sort? && AllSorts(others)
    ensures LexInOrder(leq, s, [sort] + others, p, q) <==>
            InOrder(leq, s, sort, p, q) && (Tied(leq, s, sort, p, q) ==> LexInOrder(leq, s, others, p, q))
  {
    assert ([sort] + others)[1..] == others;
  }

  /** Extracting a key keeps the order of two rows, whatever keys follow, exactly when it does not break a tie. */
  lemma ExtractedFirstKeyIff(leq: Order, k: SortKey, p: Row, q: Row)
    requires Preorder(leq) && Suits(leq, k, p) && Suits(leq, k, q)
    requires InOrder(leq, k.analysis.semantics, Extracted(k), p, q)
    ensures OrderKept(leq, k, p, q) <==> KeepsTies(leq, k, p, q)
  {
    var s, x := k.analysis.semantics, Extracted(k);
    ExtractedOrderIsRight(leq, k, p, q);
    if KeepsTies(leq, k, p, q) {
      forall others | AllSorts(others) && LexInOrder(leq, s, [x] + others, p, q)
        ensures LexInOrder(leq, s, [k.sort] + others, p, q)
      {
        FirstDecides(leq, s, x, others, p, q);
        FirstDecides(leq, s, k.sort, others, p, q);
      }
    } else {
      var others := [Reversed(x)];
      FirstDecides(leq, s, x, others, p, q);
      FirstDecides(leq, s, k.sort, others, p, q);
      assert !LexInOrder(leq, s, others, p, q);
    }
  }

  // ----- Every key extracted -----

  ghost function Sorts(keys: seq<SortKey>): (sorts: seq<Expression>)
    ensures |sorts| == |keys| && forall i :: 0 <= i < |sorts| ==> sorts[i] == keys[i].sort
  {
    seq(|keys|, i requires 0 <= i < |keys| => keys[i].sort)
  }

  ghost function ExtractedSorts(keys: seq<SortKey>): (xs: seq<Expression>)
    requires forall i :: 0 <= i < |keys| ==> keys[i].sort.Sort?
    ensures |xs| == |keys| && AllSorts(xs)
  {
    seq(|keys|, i requires 0 <= i < |keys| => Extracted(keys[i]))
  }

  /** Keys of one semantics that suit both rows. */
  ghost predicate AllSuit(leq: Order, s: Semantics, keys: seq<SortKey>, p: Row, q: Row)
  {
    forall i :: 0 <= i < |keys| ==>
      keys[i].sort.Sort? && keys[i].analysis.semantics == s && Suits(leq, keys[i], p) && Suits(leq, keys[i], q)
  }

  ghost predicate AllTied(leq: Order, s: Semantics, sorts: seq<Expression>, p: Row, q: Row)
    requires AllSorts(sorts)
  {
    forall i :: 0 <= i < |sorts| ==> Tied(leq, s, sorts[i], p, q)
  }

  /** Further keys decide where all of these tie. */
  lemma {:induction false} LexConcat(
      leq: Order, s: Semantics, a: seq<Expression>, b: seq<Expression>, p: Row, q: Row)
    requires AllSorts(a) && AllSorts(b)
    ensures LexInOrder(leq, s, a + b, p, q) <==>
            LexInOrder(leq, s, a, p, q) && (AllTied(leq, s, a, p, q) ==> LexInOrder(leq, s, b, p, q))
    decreases |a|
  {
    if a == [] {
      assert a + b == b;
    } else {
      LexConcat(leq, s, a[1..], b, p, q);
      assert a == [a[0]] + a[1..] && a + b == [a[0]] + (a[1..] + b);
      FirstDecides(leq, s, a[0], a[1..], p, q);
      FirstDecides(leq, s, a[0], a[1..] + b, p, q);
      AllTiedMore(leq, s, a, p, q);
    }
  }

  lemma AllTiedMore(leq: Order, s: Semantics, sorts: seq<Expression>, p: Row, q: Row)
    requires AllSorts(sorts) && sorts != []
    ensures AllTied(leq, s, sorts, p, q) <==>
            Tied(leq, s, sorts[0], p, q) && AllTied(leq, s, sorts[1..], p, q)
  {
    assert forall i :: 0 < i < |sorts| ==> sorts[i] == sorts[1..][i - 1];
  }

  /** Whatever keys follow, rows in the order of the extracted keys and those are in the original order. */
  ghost predicate AllOrdersKept(leq: Order, s: Semantics, keys: seq<SortKey>, p: Row, q: Row)
    requires AllSuit(leq, s, keys, p, q)
  {
    forall others | AllSorts(others) ::
      LexInOrder(leq, s, ExtractedSorts(keys) + others, p, q) ==> LexInOrder(leq, s, Sorts(keys) + others, p, q)
  }

  /**
    The first key whose column separates the rows separates them itself, or else the keys after it do so in
    the right order.
   */
  ghost predicate SeparatesRight(leq: Order, s: Semantics, keys: seq<SortKey>, p: Row, q: Row)
    requires AllSuit(leq, s, keys, p, q)
    decreases |keys|
  {
    keys != [] ==>
      if Tied(leq, s, Extracted(keys[0]), p, q) then SeparatesRight(leq, s, keys[1..], p, q)
      else
        || !Tied(leq, s, keys[0].sort, p, q)
        || (LexInOrder(leq, s, Sorts(keys[1..]), p, q) && !AllTied(leq, s, Sorts(keys[1..]), p, q))
  }

  /** A tie of the column is a tie of the key. */
  lemma TieOfColumn(leq: Order, k: SortKey, p: Row, q: Row)
    requires Preorder(leq) && Suits(leq, k, p) && Suits(leq, k, q)
    requires Tied(leq, k.analysis.semantics, Extracted(k), p, q)
    ensures Tied(leq, k.analysis.semantics, k.sort, p, q)
  {
    ExtractedOrderIsRight(leq, k, p, q);
    ExtractedOrderIsRight(leq, k, q, p);
  }

  lemma FirstOfMany(
      leq: Order, s: Semantics, sorts: seq<Expression>, others: seq<Expression>, p: Row, q: Row)
    requires AllSorts(sorts) && AllSorts(others) && sorts != []
    ensures LexInOrder(leq, s, sorts + others, p, q) <==>
            && InOrder(leq, s, sorts[0], p, q)
            && (Tied(leq, s, sorts[0], p, q) ==> LexInOrder(leq, s, sorts[1..] + others, p, q))
  {
    assert sorts + others == [sorts[0]] + (sorts[1..] + others);
    FirstDecides(leq, s, sorts[0], sorts[1..] + others, p, q);
  }

  lemma KeysInTurn(keys: seq<SortKey>)
    requires keys != [] && forall i :: 0 <= i < |keys| ==> keys[i].sort.Sort?
    ensures ExtractedSorts(keys)[0] == Extracted(keys[0])
    ensures ExtractedSorts(keys)[1..] == ExtractedSorts(keys[1..]) && Sorts(keys)[1..] == Sorts(keys[1..])
  {
  }

  /** What follows the keys, where the first column separates the rows. */
  lemma SeparatedStep(leq: Order, s: Semantics, keys: seq<SortKey>, others: seq<Expression>, p: Row, q: Row)
    requires Preorder(leq) && AllSuit(leq, s, keys, p, q) && keys != [] && AllSorts(others)
    requires InOrder(leq, s, Extracted(keys[0]), p, q) && !Tied(leq, s, Extracted(keys[0]), p, q)
    ensures LexInOrder(leq, s, ExtractedSorts(keys) + others, p, q)
    ensures LexInOrder(leq, s, Sorts(keys) + others, p, q) <==>
            || !Tied(leq, s, keys[0].sort, p, q)
            || (&& LexInOrder(leq, s, Sorts(keys[1..]), p, q)
                && (AllTied(leq, s, Sorts(keys[1..]), p, q) ==> LexInOrder(leq, s, others, p, q)))
  {
    ExtractedOrderIsRight(leq, keys[0], p, q);
    KeysInTurn(keys);
    FirstOfMany(leq, s, ExtractedSorts(keys), others, p, q);
    FirstOfMany(leq, s, Sorts(keys), others, p, q);
    LexConcat(leq, s, Sorts(keys[1..]), others, p, q);
  }

  /** Where the first column separates the rows. */
  lemma SeparatedIff(leq: Order, s: Semantics, keys: seq<SortKey>, p: Row, q: Row)
    requires Preorder(leq) && AllSuit(leq, s, keys, p, q) && keys != []
    requires InOrder(leq, s, Extracted(keys[0]), p, q) && !Tied(leq, s, Extracted(keys[0]), p, q)
    ensures AllOrdersKept(leq, s, keys, p, q) <==> SeparatesRight(leq, s, keys, p, q)
  {
    if SeparatesRight(leq, s, keys, p, q) {
      forall others | AllSorts(others)
        ensures LexInOrder(leq, s, Sorts(keys) + others, p, q)
      {
        SeparatedStep(leq, s, keys, others, p, q);
      }
    } else {
      var back := [Reversed(Extracted(keys[0]))];
      SeparatedStep(leq, s, keys, back, p, q);
      assert !LexInOrder(leq, s, back, p, q);
    }
  }

  lemma TiedStep(leq: Order, s: Semantics, keys: seq<SortKey>, others: seq<Expression>, p: Row, q: Row)
    requires Preorder(leq) && AllSuit(leq, s, keys, p, q) && keys != [] && AllSorts(others)
    requires Tied(leq, s, Extracted(keys[0]), p, q)
    ensures LexInOrder(leq, s, ExtractedSorts(keys) + others, p, q) <==>
            LexInOrder(leq, s, ExtractedSorts(keys[1..]) + others, p, q)
    ensures LexInOrder(leq, s, Sorts(keys) + others, p, q) <==>
            LexInOrder(leq, s, Sorts(keys[1..]) + others, p, q)
  {
    TieOfColumn(leq, keys[0], p, q);
    KeysInTurn(keys);
    FirstOfMany(leq, s, ExtractedSorts(keys), others, p, q);
    FirstOfMany(leq, s, Sorts(keys), others, p, q);
  }

  /** Where it does not, only the other keys matter. */
  lemma TiedIff(leq: Order, s: Semantics, keys: seq<SortKey>, p: Row, q: Row)
    requires Preorder(leq) && AllSuit(leq, s, keys, p, q) && keys != []
    requires Tied(leq, s, Extracted(keys[0]), p, q)
    ensures AllOrdersKept(leq, s, keys, p, q) <==> AllOrdersKept(leq, s, keys[1..], p, q)
  {
    if AllOrdersKept(leq, s, keys, p, q) {
      forall others | AllSorts(others) && LexInOrder(leq, s, ExtractedSorts(keys[1..]) + others, p, q)
        ensures LexInOrder(leq, s, Sorts(keys[1..]) + others, p, q)
      {
        TiedStep(leq, s, keys, others, p, q);
      }
    }
    if AllOrdersKept(leq, s, keys[1..], p, q) {
      forall others | AllSorts(others) && LexInOrder(leq, s, ExtractedSorts(keys) + others, p, q)
        ensures LexInOrder(leq, s, Sorts(keys) + others, p, q)
      {
        TiedStep(leq, s, keys, others, p, q);
      }
    }
  }

  /**
    Extracting every key keeps the order of two rows, whatever keys follow, exactly when the first key whose
    column separates them does so too, or leaves it to keys that do.
   */
  lemma {:induction false} ExtractedSortsIff(leq: Order, s: Semantics, keys: seq<SortKey>, p: Row, q: Row)
    requires Preorder(leq) && AllSuit(leq, s, keys, p, q)
    requires LexInOrder(leq, s, ExtractedSorts(keys), p, q)
    ensures AllOrdersKept(leq, s, keys, p, q) <==> SeparatesRight(leq, s, keys, p, q)
    decreases |keys|
  {
    if keys == [] {
      assert ExtractedSorts(keys) == Sorts(keys);
    } else if Tied(leq, s, Extracted(keys[0]), p, q) {
      KeysInTurn(keys);
      TiedIff(leq, s, keys, p, q);
      ExtractedSortsIff(leq, s, keys[1..], p, q);
    } else {
      SeparatedIff(leq, s, keys, p, q);
    }
  }

  /** In particular if no key ties rows that its column does not. */
  lemma {:induction false} ExtractedSortsAreRight(leq: Order, s: Semantics, keys: seq<SortKey>, p: Row, q: Row)
    requires Preorder(leq) && AllSuit(leq, s, keys, p, q)
    requires forall i :: 0 <= i < |keys| ==> KeepsTies(leq, keys[i], p, q)
    ensures SeparatesRight(leq, s, keys, p, q)
    decreases |keys|
  {
    if keys != [] {
      ExtractedSortsAreRight(leq, s, keys[1..], p, q);
      assert KeepsTies(leq, keys[0], p, q);
    }
  }

  // ----- A key that ties everything -----

  /** Multiplication and nothing else, with every literal read as zero. */
  function Multiplication(n: Numbers, number: DataType): Analysis
  {
    var zero := n.of(0.0);
    Analysis(
      Semantics((c: DataValue, t: DataType) => zero,
                (op: string, vs: seq<Value>) =>
                  if op == "*" && |vs| == 2 then OperatorValue(n, Times, vs) else zero,
                (t: DataType, v: Value) => v,
                (op: string, distinct: bool, params: seq<DataValue>, vs: seq<Value>) => zero,
                (name: string, plan: Plan) => zero,
                (names: seq<string>) => zero,
                zero),
      Functions((op: string, types: seq<DataType>) => Ok(number),
                (op: string, types: seq<DataType>, ms: seq<Mono>) =>
                  if op == "*" && |ms| == 2 then OperatorMono(n, Times, ms) else Err("refused"),
                (op: string) => Ok(true),
                (op: string, vs: seq<Value>) => true,
                (c: DataValue, t: DataType) => true),
      (c: string) => Some(number), map["x" := (None, None)], false)
  }

  /** Sorting by `0 * x`, ascending. */
  function ZeroKey(n: Numbers, zero: DataValue, number: DataType): (k: SortKey)
    ensures k.sort.Sort?
  {
    var e := Binary("*", Literal(zero, None, number), Column("x"));
    SortKey(Multiplication(n, number), Sort(e, true, false, e), "x")
  }

  lemma MultiplicationIsSound(n: Numbers, number: DataType)
    requires Valid(n)
    ensures Preorder(Leq(n)) && forall op :: FunctionSound(Leq(n), Multiplication(n, number), op)
  {
    var names := (op: string) => if op == "*" then Some(Times) else None;
    assert IsArithmetic(n, names, Multiplication(n, number));
    forall op
      ensures FunctionSound(Leq(n), Multiplication(n, number), op)
    {
      ArithmeticFunctionSound(n, names, Multiplication(n, number), op);
    }
  }

  /** The check takes `0 * x` for rising. */
  lemma ZeroKeyIsExtracted(n: Numbers, zero: DataValue, number: DataType)
    requires Valid(n)
    ensures var k := ZeroKey(n, zero, number);
            Extracted(k) == Sort(Column("x"), true, false, k.sort.origin)
  {
    ZeroKeyItems(n, zero, number);
    assert CompareWithZero(n, ZeroItem(n, number).1) == Ok(1);
    assert Lefts([ZeroItem(n, number), XItem(number)])[1].None?;
    assert Rights([ZeroItem(n, number), XItem(number)])[1].None?;
  }

  function ZeroItem(n: Numbers, number: DataType): Item
  {
    (number, Mono(true, true, true, Some(n.of(0.0)), Some(n.of(0.0))))
  }

  function XItem(number: DataType): Item
  {
    (number, Mono(true, true, false, None, None))
  }

  lemma ZeroKeyItems(n: Numbers, zero: DataValue, number: DataType)
    ensures MonosOf(Multiplication(n, number), Children(ZeroKey(n, zero, number).sort.origin)) ==
            Ok([ZeroItem(n, number), XItem(number)])
  {
    var a, l, x := Multiplication(n, number), Literal(zero, None, number), Column("x");
    var item, column := ZeroItem(n, number), XItem(number);
    assert MonosOf(a, []) == Ok([]) && MonoOf(a, l) == Ok(item) && MonoOf(a, x) == Ok(column);
    assert [] + [item] == [item] && [item] + [column] == [item, column];
    assert [l][..0] == [] && [l][0] == l && MonosOf(a, [l]) == Ok([item]);
    assert [l, x][..1] == [l] && [l, x][1] == x && MonosOf(a, [l, x]) == Ok([item, column]);
  }

  lemma ZeroKeyTies(n: Numbers, zero: DataValue, number: DataType, row: Row)
    requires Valid(n)
    ensures n.num(Eval(Multiplication(n, number).semantics, row, ZeroKey(n, zero, number).sort.key)) == 0.0
  {
    var s, l, x := Multiplication(n, number).semantics, Literal(zero, None, number), Column("x");
    EvalUnfold(s, row, Binary("*", l, x));
    EvalUnfold(s, row, l);
    assert EvalAll(s, row, [l, x])[0] == n.of(0.0);
  }

  /** The failing input: `0 * x` in front of `y`, on any two rows that `x` and `y` order differently. */
  lemma ZeroKeyReorders(n: Numbers, zero: DataValue, number: DataType, p: Row, q: Row)
    requires Valid(n) && n.num(p("x")) < n.num(q("x")) && n.num(q("y")) < n.num(p("y"))
    ensures var k, y := ZeroKey(n, zero, number), Sort(Column("y"), true, false, Column("y"));
            var s := k.analysis.semantics;
            && Suits(Leq(n), k, p) && Suits(Leq(n), k, q)
            && LexInOrder(Leq(n), s, [Extracted(k)] + [y], p, q)
            && !LexInOrder(Leq(n), s, [k.sort] + [y], p, q)
  {
    var leq, k, y := Leq(n), ZeroKey(n, zero, number), Sort(Column("y"), true, false, Column("y"));
    var s := k.analysis.semantics;
    MultiplicationIsSound(n, number);
    ZeroKeyIsExtracted(n, zero, number);
    ZeroKeyTies(n, zero, number, p);
    ZeroKeyTies(n, zero, number, q);
    EvalUnfold(s, p, Column("x"));
    EvalUnfold(s, q, Column("x"));
    EvalUnfold(s, p, Column("y"));
    EvalUnfold(s, q, Column("y"));
    FirstDecides(leq, s, Extracted(k), [y], p, q);
    FirstDecides(leq, s, k.sort, [y], p, q);
    FirstDecides(leq, s, y, [], p, q);
    assert [y] + [] == [y];
  }
}
