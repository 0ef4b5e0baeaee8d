# Verified models of databend

This project models the parts of databend (a cloud data warehouse written in Rust) whose correctness is hardest to see from the code, and proves what those parts are for. It has four groups.

**The query planner.** Expressions are walked by an explicit Call/Ret stack machine, and type inference, rewriting, monotonicity analysis and compilation to action lists are visitors on that machine. The project shows the machine equal to a recursive walk for every visitor, derives the stack discipline of each visitor from that, and then proves what each visitor computes against an evaluation semantics: inferred types are the types of the values, substitutions keep meaning, alias expansion solves the alias equations, a compiled action list runs exactly when its columns are there and nothing fails on their values, and then computes what it names, monotonicity answers are right exactly as far as machine numbers let them, the builder's steps succeed exactly where types exist and put every subquery below the node that reads it, and the plan rewriter is the identity exactly on the plans that those steps can build and whose groupings are in order.

**The metadata service.** Snapshot installation is a protocol of durable steps in which a crash may come between any two, recovery included. The Raft log, the two-step join and leave, and the watcher loop are state machines beside it. The theorems are about every run.

**Caches, streams and codecs.** The disk cache's index against its files, LIMIT BY / OFFSET / LIMIT over every split of rows into blocks, and the variable-length integer codec.

**The order on JSON variants.** What the recursive comparison puts first, and when it is a total order.

`dafny verify dfyconfig.toml` checks the whole project.

## How the model is set up

- Operations that the source performs by updating things in place are methods with loops, and classes where the source has objects. Each is proved equal to a function of its input or of the old state. The theorems are about that function.
- What comes from outside is a parameter: evaluation of functions (`Semantics`), which evaluations fail (`Evaluator`), the function factory (`Factory`), the text of column names (`Format`), the numbers behind values (`Numbers`), integer-to-float rounding (`Rounding`), UTF-8 validity, and scalar marshalling. Theorems hold for all of them, under the hypotheses they state.
- Durable writes are single steps. In the snapshot protocol a crash may follow any step, and anything may be left in a tree that was not flushed.
- Channel failures of the watcher loop and failing writes of the disk cache are part of the input of a run.
- The iteration order of hash maps and range maps is arbitrary in the model, so results hold for every order.
- `LinkedHashMap::insert` of a present key moves it to the back; this is taken from the library, which is not part of this model.

## Where the code and its comments or the obvious claim disagree

The model follows the code, and each difference is a theorem.

- `accept` calls the root's hooks twice and visits children last to first, although its comment gives the opposite order: `Visitor.AcceptVisitsRootTwice`, `Visitor.DocumentedOrderIff`.
- A rewriter whose `pre_visit` stops at a node with children always fails: `ExpressionRewriter.RewriteFailsIffStopped`.
- The finder of subexpressions reports them from right to left, although its callers' comments promise the order of occurrence: `Substitution.MatchesFromTheRight`.
- `rewrite_alias_expr` and `resolve_aliases_to_exprs` are two engines for one job. They differ exactly where a cast or sort hides a renamed column: `Substitution.EnginesAgreeIff`.
- A repeated alias is refused even when both bodies are the same, and two different bodies can pass: `AliasExpansion.RepeatedAliasRejected`, `AliasExpansion.DifferentBodiesAccepted`, with the exact condition in `AliasExpansion.AliasMapIff`.
- An alias below the top level is compiled but never computed: the executor reads the column of the alias's name instead, or fails: `ExpressionTransform.NestedAliasRunsIff`. What runs is exactly in `ExpressionExecutor.RunIff`; where these columns are the right ones the executor reads every value right: `ExpressionExecutor.ReadingIsEval`.
- Without projected aliases, as in filters, an expression aliased at the top fails or gives a column that has its name by chance: `ExpressionTransform.TopAliasIff`, with the exact condition for all outputs in `ExpressionTransform.FoundIff`.
- The monotonicity answer for a constant divided by a variable is wrong exactly for ranges that end at zero from below: `ArithmeticMonotonicity.DivUnsoundAtZero`, `ArithmeticMonotonicity.FloatDivRightIff`, and for two variables `ArithmeticMonotonicity.FloatDivBothIff`.
- Integer results wrap around, which the monotonicity answers ignore: `MachineArithmetic.PlusWraps`. They are right exactly where the results at both ends lie in one window of the width: `MachineArithmetic.WrappedAnswerIff`.
- A scalar subquery is inferred and compiled with a type of arrays, while the column that holds its result has the type of a row; the two agree exactly when it has no columns: `PlanSteps.ScalarTypesAgreeIff`.
- Extracting the column of a sort key in front of other keys can change the order, exactly where the key ties rows that its column does not: `SortKeys.ZeroKeyReorders`, `SortKeys.ExtractedFirstKeyIff`.
- A plan that the builder builds can be refused or changed where aggregations are rebuilt, exactly where a schema before grouping does not arrive: `PlanRewriter.PartialOverPartialRefused`, `PlanRewriter.GroupingIsFixedIff`, `PlanRewriter.RewriteIsIdentityIff`.
- After an I/O error past the switch-over write, later applies disappear on reopening: `SnapshotStore.LateErrorLosesApplies`, with the exact condition over runs in `SnapshotStore.LateErrorDivergesIff`.
- A leave that is cut off strands a node record, and a later join keeps its old endpoint; joins and leaves that overlap can leave a voter without a record: `Membership.RejoinKeepsOldEndpoint`, `Membership.OverlapLosesRecord`, with the exact condition over all schedules in `MembershipOverlap.OverlapIsSafeIff` for two requests and `MembershipCrowd.CrowdIsSafeIff` for any number.
- An initialisation that is cut off leaves the only voter without a record, and joining it again repairs nothing: `Membership.JoinDoesNotRepair`, with the exact condition over runs in `Membership.RunKeepsVotersRecorded`.
- Storing a file again under its key can delete the file just written, and the next insertion then panics: `DiskCache.ReinsertLosesFile`, with the exact conditions in `DiskCache.AgreementKeptIff` and `DiskCache.PanicIff`.
- Variant comparison is not an order once a float equals a rounded integer, or once one set of keys comes in two orders: `Variant.TotalOrderIff`.

## Model

| member | source | states |
|---|---|---|
| `Expressions.WithChildren` | common/planners/src/plan_expression_rewriter.rs:30-199 | rebuilding a node puts exactly the given children under it, and its own children give the node back |
| `Expressions.EvalWithChildren` | common/planners/src/plan_expression.rs:55-138 | a node rebuilt over children of equal values has the same value |
| `Expressions.EvalDependsOnColumns` | common/planners/src/plan_expression_common.rs:506-535 | a value depends only on the columns found below the expression |
| `Visitor.Visit` | common/planners/src/plan_expression_visitor.rs:36-91 | the Call/Ret stack machine equals the recursive walk, for every visitor, state and error |
| `Visitor.Accept` | common/planners/src/plan_expression_visitor.rs:129-138 | accept is the walk framed by a second call of the root's two hooks, with their stops and errors |
| `Visitor.RecorderWalk` | common/planners/src/plan_expression_visitor.rs:36-91 | the order of hook calls is depth first with children last to first |
| `Visitor.AcceptVisitsRootTwice` | common/planners/src/plan_expression_visitor.rs:129-138 | accept's hook calls are the full trace with the root's events once more around it |
| `Visitor.DocumentedOrderIff` | common/planners/src/plan_expression_visitor.rs:100-125 | the documented order is the real one if and only if the children of every node read the same both ways |
| `StackVisitors.PopArguments` | common/planners/src/plan_expression_common.rs:415-424 | popping as many arguments as were pushed gives them left to right, or an underflow if and only if there are fewer |
| `StackVisitors.PopPushed` | common/planners/src/plan_expression_common.rs:415-424 | arguments pushed last first come back first to last over the untouched rest |
| `StackVisitors.WalkIsFold` | common/planners/src/plan_expression_visitor.rs:36-91 | every visitor that pops its node's arguments and pushes one result leaves exactly one result of a recursive fold, over any stack |
| `DataTypes.ToDataType` | common/planners/src/plan_expression.rs:305-308 | the inferred type is the recursively defined one, which `TypeSoundness.TypeIff` gives by rules, and the stack errors are unreachable |
| `DataTypes.TypeWalk` | common/planners/src/plan_expression_common.rs:384-503 | type inference ends with exactly the type on the stack that the recursion gives the expression, or with its error; what that type is says `TypeSoundness.TypeIff` |
| `DataTypes.VisitFunctionLoop` | common/planners/src/plan_expression_common.rs:405-432 | typing a function by popping its arguments one by one equals the specified step, underflow and errors included |
| `DataTypes.TypeErrors` | common/planners/src/plan_expression_common.rs:397-433 | no expression's type is a stack underflow or a left-over element |
| `DataTypes.PostVisitPops` | common/planners/src/plan_expression_common.rs:440-503 | every node kind consumes exactly its arguments and pushes the type they determine, which `TypeSoundness.NodeTypeIff` gives by rules |
| `DataTypes.FieldsOfTypes` | common/planners/src/plan_expression.rs:310-333 | the fields an aggregate recomputes are its arguments' names with the types already inferred |
| `TypeSoundness.TypeIff` | common/planners/src/plan_expression_common.rs:384-503 | an expression is given a type if and only if the typing rules give it, through every subexpression: first field of the name, declared type of a literal or cast, return type for arguments of an accepted number and types |
| `TypeSoundness.NodeTypeIff` | common/planners/src/plan_expression_common.rs:440-503 | each kind of node is typed from its arguments' types exactly by its rule |
| `TypeSoundness.TypeExistsIff` | common/planners/src/plan_expression_common.rs:384-503 | there is a type if and only if no subexpression is a wildcard or qualified column, every column is in the schema and every function and aggregate accepts its arguments' types |
| `TypeSoundness.TypeSound` | common/planners/src/plan_expression_common.rs:384-503 | the value of every expression has the inferred type, if columns, literals, casts, subqueries and functions give values of theirs |
| `TypeSoundness.SubqueryTypeIff` | common/planners/src/plan_expression.rs:259-281 | a subquery's type is one array per column, as a struct unless there is exactly one |
| `TypeSoundness.ScalarSubqueryTypeIff` | common/planners/src/plan_expression.rs:283-303 | a scalar subquery's column has the type of its one column, or else a struct of them |
| `ExpressionRewriter.Mutate` | common/planners/src/plan_expression_rewriter.rs:201-229 | the rewrite machine returns the recursive rewrite, with hooks seeing rewritten children left to right, and without stack errors when hooks always descend |
| `ExpressionRewriter.RewriteWalk` | common/planners/src/plan_expression_rewriter.rs:231-401 | the rewrite visitor leaves exactly the rewritten expression on its stack |
| `ExpressionRewriter.DefaultIsIdentity` | common/planners/src/plan_expression_rewriter.rs:30-199 | with the default hooks every expression is returned unchanged |
| `ExpressionRewriter.RewriteFailsIffStopped` | common/planners/src/plan_expression_rewriter.rs:231-237 | with hooks that never fail, rewriting fails if and only if it stops at a node that has children |
| `Substitution.ReplacementPreservesMeaning` | common/planners/src/plan_expression_common.rs:253-343 | replacing subexpressions by ones of equal value keeps the value at every depth, whatever the columns inside what is replaced |
| `Substitution.RebasePreservesMeaning` | common/planners/src/plan_expression_common.rs:153-182 | an expression rebased on base expressions has its original value on rows that hold those under their names and agree on the columns outside them; columns inside may have any values |
| `Substitution.RebasedColumns` | common/planners/src/plan_expression_common.rs:153-182 | the columns of a rebased expression are exactly those outside the base expressions and the names of the outermost base expressions |
| `Substitution.FindExprsInExpr` | common/planners/src/plan_expression_common.rs:111-150 | the finder yields each matching subexpression outside a match exactly once, in the order of the walk |
| `Substitution.MatchesFromTheRight` | common/planners/src/plan_expression_common.rs:111-150 | the matches are all occurrences, along the children, of an expression that passes the test below none that does, each once and from right to left |
| `Substitution.FindExprsInExprs` | common/planners/src/plan_expression_common.rs:90-100 | over a list, first to last, each match exactly once in order of first appearance, and no others |
| `Substitution.FindColumnsNotSatisfyExprs` | common/planners/src/plan_expression_common.rs:215-234 | no offending column is reported if and only if the expressions are covered by the given columns, and the one reported is the first in order of appearance that is not |
| `Substitution.GroupedValueIsWellDefined` | common/planners/src/plan_expression_common.rs:174-234 | once rebased and covered, rows that agree on the listed columns give the original expression one value, whatever the columns inside the base expressions |
| `Substitution.RebasedIsCoveredIff` | common/planners/src/plan_expression_common.rs:174-234 | the check passes if and only if each outermost base expression and each column outside them is listed |
| `Substitution.CoveredDependsOnlyOnColumns` | common/planners/src/plan_expression_common.rs:215-234 | covered expressions are functions of the listed columns |
| `Substitution.SubstitutionLaw` | common/planners/src/plan_expression_common.rs:359-373 | evaluating the resolved expression is evaluating the original where each alias has its expression's value |
| `Substitution.FixedIff` | common/planners/src/plan_expression_common.rs:359-373 | resolving changes nothing if and only if every column found that is an alias stands for itself |
| `Substitution.EnginesAgreeIff` | common/planners/src/plan_node_rewriter.rs:703-720 | the two alias engines give the same expression if and only if no cast or sort hides a renamed column |
| `AliasExpansion.QueryAliasData.ExprRewriteAlias` | common/planners/src/plan_node_rewriter.rs:559-697 | the recursive expansion terminates for all aliases, equals its specification with its cycle error, and restores the open aliases and the current alias on success |
| `AliasExpansion.QueryAliasData.RewriteArgs` | common/planners/src/plan_node_rewriter.rs:559-697 | a list of arguments is expanded in order up to the first error, with the same restoration |
| `AliasExpansion.RewriteProjectionAliases` | common/planners/src/plan_node_rewriter.rs:520-557 | a projection is expanded against the map of its own aliases, or fails as the map or an expansion does |
| `AliasExpansion.ExpandMeaning` | common/planners/src/plan_node_rewriter.rs:559-697 | for every solution of the alias equations, plain evaluation after expansion is evaluation with alias lookup, own references meaning input columns |
| `AliasExpansion.AliasEquationsSolved` | common/planners/src/plan_node_rewriter.rs:559-697 | when all aliases expand, the alias equations have exactly one solution on every row |
| `AliasExpansion.ProjectionMeaning` | common/planners/src/plan_node_rewriter.rs:520-534 | each expression of an expanded projection means what the original means under that one solution |
| `AliasExpansion.CyclicIff` | common/planners/src/plan_node_rewriter.rs:559-697 | for distinct top-level aliases, the error comes if and only if the definitions form a cycle through at least two aliases |
| `AliasExpansion.InsideIrrelevant` | common/planners/src/plan_node_rewriter.rs:559-697 | a successful expansion does not depend on which aliases were open around it |
| `AliasExpansion.ExpandTwiceIsOnce` | common/planners/src/plan_node_rewriter.rs:520-697 | without self-references, expanding an expanded projection changes nothing |
| `AliasExpansion.AliasMapOfDistinct` | common/planners/src/plan_node_rewriter.rs:536-557 | for distinct aliases the map is exactly the aliases with their bodies |
| `AliasExpansion.RepeatedAliasRejected` | common/planners/src/plan_node_rewriter.rs:542-551 | two aliases of one name and one body are refused if and only if the body does not print as the alias does |
| `AliasExpansion.AliasMapIff` | common/planners/src/plan_node_rewriter.rs:536-557 | the alias map exists if and only if every alias that repeats a name prints as the body before it, and then holds exactly the last body of each name |
| `AliasExpansion.AliasMapIffDistinct` | common/planners/src/plan_node_rewriter.rs:536-557 | where aliases print as nothing else does and no body is an alias, the map exists if and only if the names are distinct |
| `AliasExpansion.DifferentBodiesAccepted` | common/planners/src/plan_node_rewriter.rs:542-551 | two different bodies of one name pass where the first is the second alias, and the second body is kept |
| `ExpressionChain.TryCreate` | common/planners/src/plan_expression_chain.rs:40-248 | compiling gives the specified action list or its error, and succeeds if and only if every subexpression compiles |
| `ExpressionChain.CompilesIff` | common/planners/src/plan_expression_chain.rs:73-248 | compilation succeeds if and only if no subexpression is an aggregate or a qualified column, every column is in the schema, every function accepts its arguments' types, every alias has a type and every cast has a source type that can be cast |
| `ExpressionChain.ActionsHaveTypes` | common/planners/src/plan_expression_chain.rs:73-248 | a node adds at most one action, none only for a sort, and the action declares the type the rules give the node |
| `ExpressionChain.Chain.RecursionAddExpr` | common/planners/src/plan_expression_chain.rs:53-71 | compiling one expression appends exactly its actions, arguments last first and before their use |
| `ExpressionChain.ChainWalk` | common/planners/src/plan_expression_chain.rs:53-71 | the compiling visitor appends the recursively defined actions to whatever was there |
| `ExpressionChain.CompilerIsWired` | common/planners/src/plan_expression_chain.rs:73-248 | every node's action names its own column and takes its arguments from the columns of its children |
| `ExpressionChain.ProgramIsStraightLine` | common/planners/src/plan_expression_chain.rs:40-248 | in every compiled list each argument is produced by an earlier action |
| `ExpressionExecutor.Execute` | query/src/pipelines/transforms/transform_expression_executor.rs:76-178 | execution succeeds if and only if every action finds its columns, no evaluation fails on the values it is given, projected aliases are distinct and have their columns, and every output name is found; a missing output is reported if and only if only that fails; and the output holds each alias's column or else the column of the name, whatever the order of aliases |
| `ExpressionExecutor.Pick` | query/src/pipelines/transforms/transform_expression_executor.rs:159-172 | the last phase finds every output name or reports a missing one |
| `ExpressionExecutor.RunIff` | query/src/pipelines/transforms/transform_expression_executor.rs:99-139 | an action list runs if and only if every action finds its columns in the block or among earlier actions and no constant or call fails on the values it has where nothing fails, and then leaves exactly the block and its own columns |
| `ExpressionExecutor.ProjectAliases` | query/src/pipelines/transforms/transform_expression_executor.rs:76-178 | the alias phase succeeds if and only if alias names are distinct and their columns there, and then leaves exactly the aliases, each with its argument's column |
| `ExpressionExecutor.RunEmit` | query/src/pipelines/transforms/transform_expression_executor.rs:76-200 | for every expression, aliases below it included: if equal names mean equal values, whatever runs keeps all columns right and leaves the expression's value, a nested alias read as the column of its name |
| `ExpressionExecutor.RunProgram` | query/src/pipelines/transforms/transform_expression_executor.rs:76-200 | the same for a whole compiled list |
| `ExpressionTransform.ProjectionIsRight` | query/src/pipelines/transforms/transform_expression_executor.rs:76-200 | where no alias lies below the top, a projected alias comes out with its body's value, and any other expression with its own unless a projected alias of its name stands in front |
| `ExpressionExecutor.ProgramSucceedsIff` | query/src/pipelines/transforms/transform_expression_executor.rs:76-178 | on a block that suffices every action of the compiled list finds its columns, whatever fails, and aliases fit if and only if no alias name comes twice at any depth |
| `ExpressionExecutor.ProgramRuns` | query/src/pipelines/transforms/transform_expression_executor.rs:99-139 | on a block that suffices the compiled list runs if no call or constant can fail, or if equal names mean equal values and none fails on the values read for its arguments |
| `ExpressionExecutor.AliasIsProjected` | query/src/pipelines/transforms/transform_expression_executor.rs:141-178 | an alias at the top is found with the value the executor reads for its body, aliases below included |
| `ExpressionExecutor.ExpressionIsProjectedIff` | query/src/pipelines/transforms/transform_expression_executor.rs:141-178 | any other expression is found with its value if and only if every alias of its name has a column of that value |
| `ExpressionExecutor.AliasReadIff` | query/src/pipelines/transforms/transform_expression_executor.rs:99-139 | every subexpression is read as its value if and only if, for every alias below, the column of its name holds the value of its body |
| `ExpressionExecutor.ReadingIsEval` | query/src/pipelines/transforms/transform_expression_executor.rs:99-139 | where that is so, what the executor reads is the value of the expression |
| `ExpressionTransform.NestedAliasRunsIff` | query/src/pipelines/transforms/transform_expression_executor.rs:99-139 | a function of an aliased column runs if and only if that column is there and so is one named as the alias on which the call succeeds, or one named as the whole; and it computes on the column named as the alias, whatever the aliased one holds |
| `ExpressionExecutor.NoClashGivesValues` | common/planners/src/plan_expression.rs:158-237 | where no two subexpressions of one name differ in value, there is one value under each name |
| `ExpressionTransform.Transform` | query/src/pipelines/transforms/transform_expression_executor.rs:47-200 | compiling and executing end to end, with and without projected aliases: it succeeds if and only if the compiled list finds its columns, no evaluation fails, projected aliases fit and all outputs are found, and each output named as an expression holds what the executor reads for it |
| `ExpressionTransform.FoundIff` | query/src/pipelines/transforms/transform_expression_executor.rs:159-172 | an output of a compiled list is found if and only if it is a column of the block, the name of a subexpression that has a column, or a projected alias at any depth |
| `ExpressionTransform.OwnOutputFound` | query/src/pipelines/transforms/transform_expression_executor.rs:159-172 | the name of an expression that is no wildcard is always found with aliases projected; without, always if it leaves a column, and an alias if and only if it is in the block or the name of a subexpression |
| `ExpressionTransform.OwnOutputsFound` | query/src/pipelines/transforms/transform_expression_executor.rs:159-172 | so with the names of its expressions as outputs a projection never misses an output, nor does a list without aliases at the top |
| `ExpressionTransform.TopAliasIff` | query/src/pipelines/transforms/transform_filter.rs:57-74 | the failing input: without projected aliases an aliased column comes out under its alias if and only if the block has columns of both names, and with them if and only if it has the aliased one |
| `ExpressionTransform.ComputableSucceeds` | query/src/pipelines/transforms/transform_expression_executor.rs:47-200 | a list with all inputs, no failing evaluation, no projected alias name twice and no clash of names succeeds with the names of its expressions as outputs, with one value under each name |
| `Monotonicity.CheckExpression` | common/planners/src/plan_expression_monotonicity.rs:168-272 | the stack-based check returns the recursively defined answer, the default one on any error, and knows something if and only if every subexpression is answered |
| `Monotonicity.MonoWalk` | common/planners/src/plan_expression_monotonicity.rs:220-272 | the visitor ends with exactly one answer on its stack, or the error |
| `Monotonicity.AnsweredIff` | common/planners/src/plan_expression_monotonicity.rs:110-272 | an expression is answered if and only if every subexpression is a known column, a literal that evaluates, or a function that says monotonic or constant of its answered arguments and evaluates at their known ends |
| `Monotonicity.FunctionAnswerIs` | common/planners/src/plan_expression_monotonicity.rs:110-166 | the answer for a function node has the direction and constancy that the function itself gives for the answers of its arguments |
| `Monotonicity.CheckIsSound` | common/planners/src/plan_expression_monotonicity.rs:110-178 | if each function answers soundly, the answer for every expression is: constant, rising and falling mean so on all rows in range |
| `Monotonicity.EndsAreValues` | common/planners/src/plan_expression_monotonicity.rs:90-166 | the reported ends are known if and only if every variable's is, and are the expression's values there |
| `Monotonicity.ExtractedSortIsRight` | common/planners/src/plan_expression_monotonicity.rs:183-217 | rows sorted by the extracted column are sorted by the original expression in the original direction |
| `Monotonicity.ExtractedIff` | common/planners/src/plan_expression_monotonicity.rs:183-217 | the column is extracted if and only if every subexpression of the key's origin is answered and the answer is monotonic; otherwise the key stays as it is |
| `Monotonicity.ExtractedOrderIsRight` | common/planners/src/plan_expression_monotonicity.rs:183-217 | two rows in the order of the extracted column are in the order of the original key |
| `Monotonicity.ExtractedPlacesNulls` | common/planners/src/plan_expression_monotonicity.rs:183-217 | where the key is null just when the column is, rows in the order of the extracted key are in the original order, nulls included |
| `SortKeys.ExtractedFirstKeyIff` | query/src/optimizers/optimizer_top_n_push_down.rs:165-190 | two rows in the order of the extracted column keep the original order whatever keys follow, if and only if the key does not tie rows that its column separates |
| `SortKeys.ZeroKeyReorders` | query/src/optimizers/optimizer_top_n_push_down.rs:165-190 | the failing input: `0 * x` in front of `y`, on any two rows that `x` and `y` order differently |
| `SortKeys.ExtractedSortsIff` | query/src/optimizers/optimizer_top_n_push_down.rs:165-190 | with every key extracted, two rows in the new order keep the original one whatever keys follow, if and only if the first key whose column separates them separates them itself or leaves it to later keys that do so in the right order |
| `SortKeys.ExtractedSortsAreRight` | query/src/optimizers/optimizer_top_n_push_down.rs:165-190 | in particular if no key ties rows that its column separates |
| `ArithmeticMonotonicity.SignIsRight` | common/functions/src/scalars/function_monotonic.rs:94-126 | a reported sign is the sign of every value in the range |
| `ArithmeticMonotonicity.PlusSound` | common/functions/src/scalars/arithmetics/arithmetic_plus.rs:137-173 | over real numbers the answer for a sum is right on all moves of its operands |
| `ArithmeticMonotonicity.MinusSound` | common/functions/src/scalars/arithmetics/arithmetic_minus.rs:130-165 | over real numbers the answer for a difference is right on all moves of its operands |
| `ArithmeticMonotonicity.NegateSound` | common/functions/src/scalars/arithmetics/arithmetic_negate.rs:91-99 | over real numbers the answer for a negation is right |
| `ArithmeticMonotonicity.AbsSound` | common/functions/src/scalars/maths/abs.rs:116-141 | over real numbers the answer for an absolute value is right |
| `ArithmeticMonotonicity.MulSound` | common/functions/src/scalars/arithmetics/arithmetic_mul.rs:91-255 | over real numbers the answer for a product is right for all signs, directions and constant operands |
| `ArithmeticMonotonicity.DivSound` | common/functions/src/scalars/arithmetics/arithmetic_mul.rs:91-255 | over real numbers the answer for a quotient is right on all moves away from a zero divisor |
| `ArithmeticMonotonicity.DivSoundInRange` | common/functions/src/scalars/arithmetics/arithmetic_mul.rs:91-255 | the same by the divisor's range: its ends are known, not zero and on one side of it |
| `ArithmeticMonotonicity.FloatDivRightIff` | common/functions/src/scalars/arithmetics/arithmetic_div.rs:30-54 | under floating-point division a constant over a variable is answered right on all moves if and only if the range does not end at zero from below |
| `ArithmeticMonotonicity.FloatDivBothIff` | common/functions/src/scalars/arithmetics/arithmetic_mul.rs:91-255 | for a numerator of one strict sign and a divisor that both vary, in any directions, the answer is right on all moves under floating-point division if and only if it says nothing or the divisor's range does not end at zero from below |
| `ArithmeticMonotonicity.RealDivRightIff` | common/functions/src/scalars/arithmetics/arithmetic_div.rs:30-54 | with any one number read for division by zero, it is answered right if and only if neither end is zero |
| `ArithmeticMonotonicity.DivUnsoundAtZero` | common/functions/src/scalars/arithmetics/arithmetic_div.rs:52-54 | the failing input: 12 over a variable between -1 and 0 is answered as falling and rises to infinity |
| `ArithmeticMonotonicity.ArithmeticCheckIsSound` | common/planners/src/plan_expression_monotonicity.rs:110-178 | for every expression over sums, differences, products, negation and absolute value, evaluated over the real numbers, the check is right |
| `BestAnswers.PlusAnsweredIff` | common/functions/src/scalars/arithmetics/arithmetic_plus.rs:137-173 | a sum is answered if and only if all moves its operands may make take it one way |
| `BestAnswers.MinusAnsweredIff` | common/functions/src/scalars/arithmetics/arithmetic_minus.rs:130-165 | the same of a difference |
| `BestAnswers.NegateAnsweredIff` | common/functions/src/scalars/arithmetics/arithmetic_negate.rs:91-99 | the same of a negation |
| `BestAnswers.AbsAnsweredIff` | common/functions/src/scalars/maths/abs.rs:116-141 | the same of an absolute value |
| `BestAnswers.MulAnsweredIff` | common/functions/src/scalars/arithmetics/arithmetic_mul.rs:91-255 | the same of a product, for all signs, directions and constant operands |
| `BestAnswers.DivAnsweredIff` | common/functions/src/scalars/arithmetics/arithmetic_mul.rs:91-255 | the same of a quotient, for moves away from a zero divisor |
| `BestAnswers.SignIsBest` | common/functions/src/scalars/function_monotonic.rs:94-126 | a sign is withheld only where an end is unknown or the ends lie strictly on both sides of zero |
| `BestAnswers.ConstantEndsKnown` | common/planners/src/plan_expression_monotonicity.rs:90-166 | whatever is answered as constant has both ends known, in every expression over functions that are constant only on constants |
| `BestAnswers.UnreachableIsNotReached` | common/functions/src/scalars/arithmetics/arithmetic_mul.rs:91-255 | in products and quotients of answered expressions no arm marked unreachable is reached |
| `MachineArithmetic.MachineCheckIsSound` | common/planners/src/plan_expression_monotonicity.rs:110-178 | on any machine, whatever wraps or rounds elsewhere, the check is right about every two rows on which, and at whose range ends, all results in the expression are exact |
| `MachineArithmetic.MonoSame` | common/planners/src/plan_expression_monotonicity.rs:90-166 | exact results at the range ends make the machine's answer the one over the real numbers, for every expression |
| `MachineArithmetic.WrappedAnswerIff` | common/functions/src/scalars/arithmetics/arithmetic_plus.rs:38-51 | for a sum, difference, product, negation or absolute value of machine integers, with operands that rise, fall or stay, the answer is right on all moves if and only if the results at the two ends lie in one window of the width |
| `MachineArithmetic.StillRisesIff` | common/functions/src/scalars/arithmetics/arithmetic_mul.rs:38-47 | a result that rises by less than the width a step still rises after wrapping if and only if its ends lie in one window |
| `MachineArithmetic.PlusWraps` | common/functions/src/scalars/arithmetics/arithmetic_plus.rs:105-116 | the failing input: adding one to an unsigned 64-bit column that reaches its greatest number is answered as rising and comes to zero |
| `MachineArithmetic.AbsColumn` | common/functions/src/scalars/maths/abs.rs:68-87 | the absolute values of a signed 64-bit column fail if and only if the least number is among them, and otherwise are exact |
| `Plans.CollectExprSubqueries` | common/planners/src/plan_node_rewriter.rs:946-959 | subqueries of an expression are appended in order, without those inside subqueries |
| `Plans.CollectExprsSubqueries` | common/planners/src/plan_node_rewriter.rs:937-943 | the subqueries of a list, in order |
| `Plans.BuilderExpression` | common/planners/src/plan_node_builder.rs:68-103 | wildcard expansion, validation and the merging of fields by loops give the specified plan or error; `PlanSteps` says what plan that is and when |
| `PlanSteps.CollectedInOrder` | common/planners/src/plan_node_rewriter.rs:937-959 | what is collected is every occurrence of a subquery along the children, each once and from left to right |
| `PlanSteps.OccursIffBelow` | common/planners/src/plan_node_rewriter.rs:946-959 | the subqueries that occur are all that are subexpressions, since a subquery has no children here |
| `PlanSteps.StepStandsOver` | common/planners/src/plan_node_builder.rs:68-224 | a project, expression, filter, having or sort node stands over the given plan itself if and only if no subquery occurs in its expressions, and otherwise over a set of exactly the occurring subqueries in order; the input's columns are the given plan's followed by one for each result |
| `PlanSteps.WrapStandsOver` | common/planners/src/plan_node_builder.rs:269-280 | the plan is left as it is if and only if no subquery occurs, and is otherwise put under exactly those that do, in order |
| `PlanSteps.ScalarTypesAgreeIff` | common/planners/src/plan_expression_common.rs:457-466 | the type inferred for a scalar subquery is that of the column the subquery set adds for it if and only if the subquery has no columns |
| `PlanSteps.StepSchema` | common/planners/src/plan_node_builder.rs:68-263 | every step gives its node the right schema: names and types of the projected expressions, the merge for an expression step, states and key for a partial aggregation, types over the schema before grouping for a final one, and otherwise the input's |
| `PlanSteps.MergedIsMerge` | common/planners/src/plan_node_builder.rs:86-94 | the merged schema is the input's followed by exactly the fields whose name is new and not a star, each name once, in order, with the first type given for it |
| `PlanSteps.ExpandedInPlace` | common/planners/src/plan_node_builder.rs:71-80 | in its place a wildcard gives the schema's columns in order and any other expression itself |
| `PlanSteps.ValidateIff` | common/planners/src/plan_expression_validator.rs:89-112 | validation accepts an expression if and only if it has a type: counting arguments again refuses nothing |
| `PlanSteps.StepOkIff` | common/planners/src/plan_node_builder.rs:68-263 | a step succeeds if and only if every subexpression it evaluates can be typed and, with groups, the key has a type; sorting always does |
| `PlanRewriter.RewriteBuilt` | common/planners/src/plan_node_rewriter.rs:202-351 | every built plan, subqueries at any depth and aggregations included, comes back identical where the schemas before grouping arrive, and leaves waiting what flows through it, whether aggregations are kept or rebuilt |
| `Plans.StepBuilds` | common/planners/src/plan_node_builder.rs:68-263 | every step of the builder that succeeds on a built plan gives a built plan, both aggregations included |
| `Plans.BuiltIffBuildable` | common/planners/src/plan_node_builder.rs:52-267 | the built plans are exactly those that come from a source plan by the builder's steps |
| `PlanRewriter.BuilderPlansAreFixed` | common/planners/tests/it/plan_rewriter.rs:182-228 | with aggregations kept, whatever the builder builds by any number of steps, aggregations and subqueries included, comes back identical |
| `PlanRewriter.RewriteBuilds` | common/planners/src/plan_node_rewriter.rs:202-351 | with aggregations rebuilt, whatever the rewriter returns is a built plan in which those schemas arrive |
| `PlanRewriter.RewriteIsIdentityIff` | query/src/optimizers/optimizer_top_n_push_down.rs:41-132 | for every plan, with aggregations rebuilt and subqueries rewritten afresh as the top-n optimizer does: it comes back as it is if and only if the builder's steps can build it and every schema before grouping arrives at the final aggregation that has it; and rewriting twice is rewriting once |
| `PlanRewriter.DefaultIsIdentityIff` | common/planners/src/plan_node_rewriter.rs:202-351 | without aggregations, whatever an implementer does with them, if and only if the builder's steps can build it |
| `PlanRewriter.OtherIsDefault` | common/planners/src/plan_node_rewriter.rs:103-110 | a rewriter that hands aggregations to a function of its own rewrites every plan as the default does, if the function does so of aggregations |
| `PlanRewriter.GroupingIsFixedIff` | query/src/optimizers/optimizer_top_n_push_down.rs:41-78 | a built final aggregation over a partial one, with subqueries that are in order, comes back if and only if its schema before grouping is that of the partial one's input |
| `PlanRewriter.NestedGroupingArrivesIff` | query/src/optimizers/optimizer_top_n_push_down.rs:129-132 | a grouping in a subquery is in order if and only if it is by itself, wherever the subquery stands |
| `PlanRewriter.PartialOverPartialRefused` | query/src/optimizers/optimizer_top_n_push_down.rs:41-56 | the failing input: a built partial aggregation over a partial one is refused |
| `PlanRewriter.RewriteExprOnMachine` | common/planners/src/plan_node_rewriter.rs:207-244 | rewriting an expression on the stack machine equals the recursive rewrite, errors included |
| `Plans.WildcardsGone` | common/planners/src/plan_expression_common.rs:29-41 | expanding wildcards again changes nothing |
| `SnapshotStore.StepKeepsInv` | metasrv/src/store/meta_raft_store.rs:118-230 | every step of recovery, applying, installing, failing and crashing keeps the invariant that ties the two trees to the logical contents |
| `SnapshotStore.RunningStoreIsExact` | metasrv/src/store/meta_raft_store.rs:118-230 | over every run with crashes anywhere, the disk holds exactly what the applies and switch-over writes amount to, the process sees it if and only if no installation failed late since the opening, and after opening other trees are empty |
| `SnapshotStore.CurrentTreeKeyByKey` | metasrv/src/store/meta_raft_store.rs:118-230 | over every run, under each key the current tree has what was written to it last: by an entry that reached it, by the last pair of an installed snapshot, or on opening |
| `SnapshotStore.RefusedIff` | metasrv/src/store/meta_raft_store.rs:164-180 | over every run, the next installation is refused if and only if one has failed since the last opening |
| `SnapshotStore.AttachedIff` | metasrv/src/store/meta_raft_store.rs:210-230 | applies reach the durable contents if and only if no installation failed after its switch-over write since the opening |
| `SnapshotStore.RecoveryCompletes` | metasrv/src/store/meta_raft_store.rs:118-155 | recovery runs through from any such disk and keeps exactly the current tree |
| `SnapshotStore.CrashThenReopen` | metasrv/src/store/meta_raft_store.rs:118-155 | a crash at any point of any run loses and adds nothing |
| `SnapshotStore.InstallIsAtomic` | metasrv/src/store/meta_raft_store.rs:164-230 | an installation cut off anywhere leaves exactly the old contents or exactly the snapshot's, the latter if and only if the switch-over write happened |
| `SnapshotStore.RefusedUntilReopened` | metasrv/src/store/meta_raft_store.rs:164-180 | after an installation that stopped before the switch, every later one is refused until the process restarts |
| `SnapshotStore.FailedInstallLeavesIdsApart` | metasrv/src/store/meta_raft_store.rs:164-230 | a failure before the switch keeps the contents and leaves the two ids different |
| `SnapshotStore.LateErrorDivergesIff` | metasrv/src/store/meta_raft_store.rs:210-230 | over every run: whatever is applied next, reopening shows what the process shows, if and only if no installation failed after its switch-over write since the opening |
| `SnapshotStore.LateErrorLosesApplies` | metasrv/src/store/meta_raft_store.rs:210-230 | over every run with such a failure, an entry applied next is seen by the process and gone on reopening |
| `SnapshotStore.MetaRaftStore.constructor` | metasrv/src/store/meta_raft_store.rs:118-155 | opening performs the recovery steps on the disk a run has left, and comes up running |
| `SnapshotStore.MetaRaftStore.ApplyEntry` | metasrv/src/store/meta_raft_store.rs:340-355 | applying is one step of the run: key by key the tree in memory has what the entry puts, lacks what it deletes, and is otherwise as before, and no other tree and no id changes |
| `SnapshotStore.MetaRaftStore.InstallSnapshot` | metasrv/src/store/meta_raft_store.rs:164-230 | installing appends exactly the protocol's steps to the run, in order, and ends with the snapshot's contents and no other tree, or is refused and changes nothing |
| `SnapshotStore.MetaRaftStore.FillTree` | metasrv/src/store/meta_raft_store.rs:192-198 | the insertion loop is one step a pair and ends with the snapshot's contents |
| `RaftLog.StepKeepsShape` | metasrv/src/store/meta_raft_store.rs:305-337 | appends, deletes, both purge writes and crashes keep the log contiguous from the purge point |
| `RaftLog.RunIsGood` | metasrv/src/store/meta_raft_store.rs:305-337 | after every legal run no live index is lost, there is no gap, and the reported state is right and never below the purge point |
| `RaftLog.PurgeFitsIff` | metasrv/src/store/meta_raft_store.rs:315-327 | moving the purge point loses nothing live and stays at or below the last log if and only if it leaves no hole below the first entry and does not pass the last |
| `RaftLog.DeleteFitsIff` | metasrv/src/store/meta_raft_store.rs:305-313 | a delete keeps the reported last log from falling below the purge point if and only if it starts above that point or takes all |
| `RaftLog.MetaRaftLog.AppendToLog` | metasrv/src/store/meta_raft_store.rs:329-337 | any batch is stored as it is, and one that follows the last log keeps the log contiguous |
| `RaftLog.MetaRaftLog.DeleteConflictLogsSince` | metasrv/src/store/meta_raft_store.rs:305-313 | exactly the entries from the index on are gone, and above the purge point the log stays contiguous |
| `RaftLog.MetaRaftLog.PurgeLogsUpto` | metasrv/src/store/meta_raft_store.rs:315-327 | the purge point is set before exactly the entries up to it are gone, and where it fits the log stays contiguous from it |
| `RaftLog.MetaRaftLog.GetLogState` | metasrv/src/store/meta_raft_store.rs:479-499 | the last entry's id, or the purge point where there is none |
| `Membership.MetaLeader.HandleJoin` | metasrv/src/meta_service/meta_leader.rs:98-136 | a join performs its two writes in order wherever it is cut off, does nothing for a member, and panics if and only if a change is under way for a stranger |
| `Membership.MetaLeader.HandleLeave` | metasrv/src/meta_service/meta_leader.rs:139-163 | a leave performs its two writes in order wherever it is cut off, does nothing for a stranger, and panics if and only if a change is under way for a member |
| `Membership.RunKeepsVotersRecorded` | metasrv/src/meta_service/meta_leader.rs:98-163 | from an initialisation that may be cut off, over every run of joins and leaves cut off anywhere, every voter has a node record if and only if the initialisation recorded the first node or that node has left since |
| `Membership.JoinDoesNotRepair` | metasrv/src/meta_service/raftmeta.rs:528-545 | the failing input: after an initialisation without its record, joining the node changes nothing |
| `Membership.StrandedRecord` | metasrv/src/meta_service/meta_leader.rs:139-163 | a record left without its voter stays until that node joins again |
| `Membership.RejoinKeepsOldEndpoint` | common/meta/raft-store/src/state_machine/sm.rs:306-340 | after a cut-off leave, whatever happens between, a join keeps the old endpoint |
| `Membership.JoinRecordsEndpointIff` | common/meta/raft-store/src/state_machine/sm.rs:306-324 | a completed join records its endpoint if and only if there was no record with another |
| `Membership.OverlapLosesRecord` | metasrv/src/meta_service/meta_leader.rs:98-163 | the failing input, in every cluster: a join and a leave that overlap leave a voter without a record |
| `MembershipOverlap.RunKeepsInv` | metasrv/src/meta_service/meta_leader.rs:98-163 | over every schedule of two requests, cut off anywhere, voters and records are those that the steps taken so far amount to |
| `MembershipOverlap.OverlapIsSafeIff` | metasrv/src/meta_service/meta_leader.rs:98-163 | for every cluster, every two joins or leaves and every schedule, cut off anywhere, every voter has its record if and only if neither request lost one: a completed leave's membership write was not undone by one read before it, and its record removal did not come after the record write of a join of the same node |
| `MembershipOverlap.JoinAndLeaveSafeIff` | metasrv/src/meta_service/meta_leader.rs:98-163 | for a completed join and leave of two nodes, if and only if the join did not read before the leave's membership write and write after it |
| `MembershipCrowd.CrowdKeepsInv` | metasrv/src/meta_service/meta_leader.rs:98-163 | over every schedule of any number of requests, voters are those that the chain of readings says and records those that the last record writes say |
| `MembershipCrowd.CrowdIsSafeIff` | metasrv/src/meta_service/meta_leader.rs:98-163 | for every cluster, any number of joins and leaves and every schedule, cut off anywhere, every voter has its record if and only if no node whose record was last removed by a leave is still a member by the chain of readings |
| `Membership.ListNodes` | metasrv/src/store/meta_raft_store.rs:522-556 | the listing loop selects exactly the records inside or outside the membership, in order |
| `Membership.ListingIsExact` | metasrv/src/store/meta_raft_store.rs:522-556 | voters and non-voters split the stored records, with one record a member |
| `Watcher.SuccessorBound` | metasrv/src/watcher/watcher_manager.rs:198-208 | below the end key with a zero character appended is at or below the end key |
| `Watcher.HitIffCovers` | common/base/src/rangemap/range_map.rs:52-60 | the range map finds a watcher for a key if and only if its request covers the key, both ends included |
| `Watcher.WatcherManagerCore.CreateWatcherStream` | metasrv/src/watcher/watcher_manager.rs:174-196 | a valid request is registered under the next id, an invalid one changes nothing, and ids stay unique |
| `Watcher.WatcherManagerCore.NotifyEvent` | metasrv/src/watcher/watcher_manager.rs:122-171 | every addressed watcher whose channel accepts gets the event once, exactly the refusing ones are removed, nothing else changes |
| `Watcher.StepKeepsInv` | metasrv/src/watcher/watcher_manager.rs:118-196 | streams agree with their keys, so the id assertion cannot fail, and no id is reused |
| `Watcher.RegisteredReceives` | metasrv/src/watcher/watcher_manager.rs:99-196 | from registration on a watcher receives exactly what it is owed, whatever else the loop handles |
| `Watcher.ClosedStaysClosed` | metasrv/src/watcher/watcher_manager.rs:118-171 | a removed watcher never receives again |
| `Watcher.WatcherReceivesExactlyItsEvents` | metasrv/src/watcher/watcher_manager.rs:99-208 | over every run a watcher has been sent, in order, exactly the matching events after its creation up to the first its channel refused |
| `Watcher.OwedIff` | metasrv/src/watcher/watcher_manager.rs:122-145 | where its channel refuses nothing a watcher is owed an event if and only if it came, is about a covered key, and leaves a value or none as the filter asks |
| `DiskCache.EvictIsLongest` | common/cache/src/disk_cache.rs:197-209 | eviction leaves the longest run of most recently used files within the limit |
| `DiskCache.AgreementKeptIff` | common/cache/src/disk_cache.rs:186-240 | an operation does not panic, and keeps index and disk in agreement if and only if it is harmless: a fresh key, a refusal beforehand, or room for the file beside the old one and all used since |
| `DiskCache.CapacityKept` | common/cache/src/disk_cache.rs:186-313 | the total stays within the capacity after every operation that does not panic, agreement or not |
| `DiskCache.RunIsSound` | common/cache/src/disk_cache.rs:186-313 | over every run, up to its first panic, the capacity is kept, and a harmless run has no panic and ends in agreement |
| `DiskCache.IndexIsByLastUse` | common/cache/src/cache/lru.rs:193-399 | over every run, up to its first panic, the index is in the order of last uses, so what goes first was used longest ago |
| `DiskCache.ReinsertLosesFile` | common/cache/src/disk_cache.rs:197-229 | the failing input: a file that fits, stored again, ends as an index entry without a file, and the next insertion panics |
| `DiskCache.EvictFilesIff` | common/cache/src/disk_cache.rs:197-209 | the eviction loop panics if and only if a file to be evicted is missing, and otherwise deletes exactly those files |
| `DiskCache.PanicIff` | common/cache/src/disk_cache.rs:197-229 | an operation panics if and only if it inserts a file that fits the capacity and an entry it has to evict has no file |
| `DiskCache.DiskCache.Init` | common/cache/src/disk_cache.rs:163-182 | the cache adopts exactly the longest run of most recently modified storable files that fits, and deletes all others |
| `DiskCache.DiskCache.AddToIndex` | common/cache/src/disk_cache.rs:189-212 | from any index and disk, the eviction loop gives the specified index and disk or panics where the specification does; the cache is never empty there |
| `DiskCache.DiskCache.PutEntry` | common/cache/src/cache/lru.rs:332-346 | a put replaces the key's entry at the back, keeps the size a sum, and trims to the capacity |
| `DiskCache.DiskCache.InsertBy` | common/cache/src/disk_cache.rs:214-240 | from any index and disk, inserting refuses exactly what is over the capacity, passes a failed write on, panics where the specification does, and from agreement keeps it if and only if it is harmless |
| `DiskCache.DiskCache.GetFile` | common/cache/src/disk_cache.rs:280-296 | a get finds exactly the indexed files, refreshes the one it finds, and fails where the file is gone |
| `DiskCache.DiskCache.RemoveFile` | common/cache/src/disk_cache.rs:302-313 | a remove deletes exactly the key's file and entry, and fails where the file is gone |
| `Streams.SkipStream.PollNext` | common/streams/src/stream_skip.rs:43-61 | a poll gives the head of what is to come and leaves the rest to come |
| `Streams.TakeStream.PollNext` | common/streams/src/stream_take.rs:43-61 | a poll gives the head of what is to come, or ends |
| `Streams.SkipDropsRows` | common/streams/src/stream_skip.rs:43-61 | for every split into blocks all rows but the first n come out, and every error and pending poll |
| `Streams.TakeKeepsRows` | common/streams/src/stream_take.rs:43-61 | for every split into blocks exactly the first n rows come out |
| `Streams.TakeItemByItem` | common/streams/src/stream_take.rs:43-61 | up to its end every error, pending poll and block comes out in its place, blocks cut to the rows left, and the end is the first block after the n rows |
| `Streams.SkipThenTake` | common/streams/src/stream_take.rs:43-61 | offset then limit gives exactly the rows from offset to offset plus n, as far as there are any |
| `Streams.GroupIndices` | common/datablocks/src/kernels/data_block_group_by_hash.rs:60-96 | the groups are exactly the keys that occur, each with its row positions ascending |
| `Streams.LimitByStream.LimitBy` | common/streams/src/stream_limit_by.rs:54-78 | a block's rows come out if and only if fewer than the limit came before them with their key, in any order of groups, and the counters stop at the limit |
| `Streams.SplitIsIrrelevant` | common/streams/src/stream_limit_by.rs:54-78 | for every split into blocks the output is that of one block |
| `Streams.LimitIsTight` | common/streams/src/stream_limit_by.rs:54-78 | each key comes out as often as the limit allows and never more |
| `Variant.TotalOrderIff` | common/datavalues/src/variant_value.rs:74-193 | on all values over given numbers and key orders the comparison is a total order if and only if no float is what an integer rounds to and no two orders of one key set occur |
| `VariantOrder.OrderIff` | common/datavalues/src/variant_value.rs:74-193 | for all values at every depth the comparison is less if and only if: the kind is lower (null, array, object, string, number, boolean from the top), the integer or the rounded real is smaller, the string is earlier at its first difference, the first unequal items or untied members are so, or one list ends; and greater likewise the other way round |
| `VariantOrder.NumbersIff` | common/datavalues/src/variant_value.rs:74-193 | integers compare by size, and two numbers of which one is a float by the reals they are rounded to |
| `VariantOrder.EarlierIff` | common/datavalues/src/variant_value.rs:74-193 | strings compare at their first difference, a prefix before its extensions |
| `Variant.SortedFloatFreeIsTotalOrder` | common/datavalues/src/variant_value.rs:74-193 | float-free values with sorted keys are totally ordered at every depth, and only identical ones are equal |
| `Variant.EqIsIdentity` | common/datavalues/src/variant_value.rs:25-26 | there equality of values is identity |
| `Variant.Transitive` | common/datavalues/src/variant_value.rs:74-193 | there less-than is transitive at every depth |
| `Variant.EqualIff` | common/datavalues/src/variant_value.rs:74-193 | there two values compare equal if and only if identical, and swapping them flips the answer |
| `Variant.FloatBreaksTransitivity` | common/datavalues/src/variant_value.rs:100-153 | for every integer, arrays with it and its float are equal to both of two arrays that differ |
| `Variant.MemberOrderMatters` | common/datavalues/src/variant_value.rs:99-126 | objects with one set of members in two orders are equal inside arrays and not by themselves |
| `Varint.EncodeDenotes` | common/io/src/binary_write.rs:134-145 | every number is written as a terminated group of bytes that denotes it in unsigned LEB128 (section 7.6 of DWARF Version 4) |
| `Varint.EncodeFits` | common/io/src/binary_write.rs:134-145 | at most ten bytes for every 64-bit number |
| `Varint.PutUvarint` | common/io/src/binary_write.rs:134-145 | the loop writes the encoding and never runs past the ten-byte buffer |
| `Varint.DecodeDenotes` | common/io/src/binary_read.rs:101-120 | a group of at most ten bytes is read as the number it denotes if and only if that fits in 64 bits, and what follows is left |
| `Varint.RoundTrip` | common/io/src/binary_read.rs:101-120 | reading back what was written gives the number and consumes exactly its bytes, whatever follows |
| `Varint.StringRoundTrip` | common/io/src/binary_read.rs:75-80 | the same for strings of any length that a string can have |
| `Varint.OptionRoundTrip` | common/io/src/binary_read.rs:64-73 | the same for optional scalars |
| `Varint.Reader.ReadUvarint` | common/io/src/binary_read.rs:101-120 | the reading loop gives the decoded number and leaves the rest, or its error |
| `Varint.Reader.ReadString` | common/io/src/binary_read.rs:75-80 | the length, then exactly that many bytes, refused if short or not UTF-8, and a panic for a length over the greatest buffer size |
| `Varint.Reader.ReadOptScalar` | common/io/src/binary_read.rs:64-73 | the flag, then the scalar if it is set |
| `Varint.Writer.WriteString` | common/io/src/binary_write.rs:54-59 | the length and the bytes are appended |
| `Varint.Writer.WriteOptScalar` | common/io/src/binary_write.rs:31-42 | the flag and the scalar are appended |

## Left out

- ArithmeticMonotonicity.ArithmeticCheckIsSound: leaves out division, whose answers are wrong at zero.
- ArithmeticMonotonicity.PlusSound: is over real numbers; wrapping integers are in MachineArithmetic.WrappedAnswerIff.
- ArithmeticMonotonicity.MinusSound: is over real numbers; wrapping integers are in MachineArithmetic.WrappedAnswerIff.
- ArithmeticMonotonicity.NegateSound: is over real numbers; wrapping integers are in MachineArithmetic.WrappedAnswerIff.
- ArithmeticMonotonicity.AbsSound: is over real numbers; the overflow error on the least 64-bit number is in MachineArithmetic.AbsColumn.
- ArithmeticMonotonicity.MulSound: is over real numbers; wrapping integers are in MachineArithmetic.WrappedAnswerIff. The f64 cast of range ends is not modelled.
- ArithmeticMonotonicity.FloatDivRightIff: has one zero, infinities but no not-a-number, and no rounding.
- MachineArithmetic.MachineCheckIsSound: goes one way for whole expressions, since a result that wraps may be undone further up; for one operation both ways are in MachineArithmetic.WrappedAnswerIff. It covers rounding only where a result is exact.
- Monotonicity.ExtractedSortIsRight: is about non-null keys; nulls are in Monotonicity.ExtractedPlacesNulls.
- SortKeys.ExtractedSortsAreRight: goes one way; both ways are in SortKeys.ExtractedSortsIff.
- ArithmeticMonotonicity.DivSound: is over real numbers and away from zero; with infinities both ways are in ArithmeticMonotonicity.FloatDivRightIff and ArithmeticMonotonicity.FloatDivBothIff.
- ArithmeticMonotonicity.DivSoundInRange: is over real numbers; the same two have the rest. A numerator whose range reaches zero is left out there, since zero over zero is not a number.
- PlanRewriter.RewriteIsIdentityIff: has the default for all nodes but aggregations; the limits and sort columns that the top-n optimizer pushes into a source are not part of a plan here. The optimizers for constants and expressions rebuild aggregations in the same way but change expressions and leave subqueries alone, and two more rewrite aggregations otherwise; these are not modelled.
- TypeSoundness.TypeSound: supposes that scalar subqueries too give values of the array type inferred for them; where the type of their column is another is in PlanSteps.ScalarTypesAgreeIff.
- Plans.StepBuilds: takes the key type of a partial aggregation, which a hash method chooses, as a parameter.
- ExpressionExecutor.RunIff: takes which calls and constants fail as a parameter, the time zone setting included.
- AliasExpansion.CyclicIff: is about projections whose aliases are distinct and at the top level; repeated aliases are refused before, by text.
- Varint.DecodeDenotes: says nothing of groups of more than ten bytes; the reading function gives them the error that stands for shifting a 64-bit number by 64 or more.
- Watcher.WatcherManagerCore.NotifyEvent: has one channel outcome for each watcher and event, so waiting on a full channel is not modelled.
- DiskCache.DiskCache.Init: takes the files in ascending order of modification time; the directory walk, the sort and deletions that fail are not modelled.
- Streams.LimitByStream.LimitBy: takes the serialised key of a row as part of the row, so the serialisation of key columns is not modelled.
- Deadlines, file times and contents: only sizes and presence of files are modelled.
- MembershipOverlap.OverlapIsSafeIff: is about two requests; MembershipCrowd.CrowdIsSafeIff is about any number. A membership change that the Raft library refuses while another is under way counts as not taken.
- MachineArithmetic.AbsColumn: is about signed 64-bit columns; narrower ones never fail, and the same error of a float column at the least finite number is not modelled.
- The Raft library itself (elections, replication, joint consensus): membership changes and log writes are single steps that happen or do not.
- The Raft storage wrapper around the snapshot installation, which reports success also when the inner installation failed.
- Widths of ids, indices and counters: they are unbounded here.
- Servers, request forwarding, configuration, metrics, tracing, TLS and DNS.
- Conversions between protocol messages and metadata types, which are field-by-field copies.
- Column kernels, hashing and file formats, which are library code.
- DDL, user, role and stage plans, which are plain data with constant schemas.
- The optimizers, the SQL parsers and analyzers, the storage engine and the pipeline scheduler.
