# Data plans and paid delivery: a verified model

The backend lets a creator describe a data product as a small graph of relational operators over
subgraph queries, and sells its rows per request over x402. This project models the two protocols
behind that and proves what they are for.

**The data plan.** A structured DAG is type-checked (`Compiler`), executed by a scheduler of its own
(`LiveRun`), and rewritten: filters move into the upstream query (`Pushdown`, `Residual`), provider
columns that nothing reads are never fetched (`LivePlan`, `Projection`), pages are fetched under a
budget (`Paging`). `Dags` gives every plan one meaning, a recursive evaluation over its nodes that is
independent of any schedule; the compiler, the executor and each rewrite are proved against it, and
`PlanRun` puts them together: planned sources, paginated fetches, pruned rows, schedule, output. What that
meaning is, value by value, stands in `ExpressionMeaning` and `OperatorMeaning`: rationals, three-valued
truth, positions of rows, least values; `InferenceExact` says how tight type inference is. Rows
are maps from column names to values, a missing column being different from a null one. Built-ins of the
host language that the code relies on without control over them (calendar parsing, lower-casing,
trimming, BigInt of a non-number) are parameters of the model.

**Paid delivery.** `Publications` holds the deploy, publish, retire and suspend transactions,
`Payments` the four payment transactions, `PaidRequests` the state machine of all requests together:
each request is a program counter, each repository or facilitator call one atomic step that may
succeed, fail, or succeed with its answer lost, in any interleaving. `PaidExecution` runs
`executeX402Request` as written, with other clients moving between any two of its calls, and proves it
a run of that machine.

**Around them** stand the exact decimals every amount goes through (`Digits`, `Decimals`), the typed
comparison and its order (`Ordering`), the bounded heap (`TopK`, `Sorting`), grouping and joining
(`Aggregation`, `Joins`), the cross-chain footprint (`Swaps`, `Footprint`) and the HBAR conversions of
client and backend (`Money`).

Where the code updates in place, so does the model: the heap, the group map, the cycle search, the Kahn
queue, the executor, the spliced graph, the tables and the request service are classes whose methods
are proved against functions, and the theorems are about those functions.

What the proofs turned up, each stated as a lemma with the exact condition or a concrete input:

- An unmatched row of a left join has no right column at all, and the run-time shape of a union is its
  left input's. Both break the compiler's promise, for a union also when a JSON column joins a typed one
  or decimals join integers; `Gaps` says exactly when they do, over all rows, and the soundness theorem
  assumes no more than that of unions, and inner joins.
- Two Source nodes that name one source are both given the paths planned for the first; `LivePlan` says
  exactly when that is enough.
- The compiler trims a unit annotation, the executor does not; shapes agree exactly on trimmed ones.
- An expression filter that compares an address field with another text literal, or an integer field
  with a decimal, is not what the provider computes, and the check accepts it all the same. `PushdownGaps`
  shows these to be the only such pairs, each with a plan and a row; the pushdown theorem assumes that
  field and literal are compared alike.
- A sum is inferred nullable over a nullable column, but is never null (`InferenceExact`).
- Dates, instants and conversions are all that can fail in a compiled plan over readable values
  (`Steadiness`): a date column may hold any text, an instant column numbers beside texts.
- A filter for greater ids is translated to the name of the pagination cursor, and a filter by a field two
  relations away to a path no query can say: neither is ever pushed. Every other translation, its literals
  being texts or flags, has a query that is accepted (`PushdownReach`).
- An unreadable where clause becomes an empty group that a predicate without conditions would match;
  validated filters never produce one.
- A replayed deploy command reports a healthy deployment even after it was suspended.
- A suspension between settlement and execution leaves a buyer charged without delivery; the payment
  stays confirmed.
- The backend's price conversion is right only behind the route's pattern; on longer fractions it counts
  every digit as a tinybar.

Check the whole project with `dafny verify dfyconfig.toml`.

## Model

| member | source | states |
|---|---|---|
| `PlanSoundness.PlanSound` | backend/src/modules/dag/compiler.ts:206-317 | Shape soundness of a whole plan: if the plan is well formed, its nodes are faithful (inner joins, unions whose right side follows the left, trimmed units) and the fetched rows have the declared types in the fields their boundary Map reads, whatever else of the source schema they lack, every node denotes a table with exactly its compiled fields, of their types and nullability, or fails only with an unreadable value or a provider error. It holds of types as JSON kinds and of types as readable values |
| `OperatorSoundness.RunSound` | backend/src/modules/deployments/runtime.ts:254-307 | The same for one operator, for each of filter, map, aggregate, sort, union, join and output: on inputs that fit, for a projecting Map only in the fields it reads, no missing field, unexpected null or wrong kind can occur |
| `OperatorMeaning.FilterKeepsInOrder` | backend/src/modules/dag/filter.ts:258-270 | A filter returns exactly the rows it keeps, at ascending positions of its input |
| `OperatorMeaning.PredicateMeans` | backend/src/modules/dag/filter.ts:266-269 | A predicate keeps a row exactly if all of its conditions hold, or one of them, as its combinator says |
| `OperatorMeaning.ConditionMeans` | backend/src/modules/dag/filter.ts:234-256 | Each condition operator, by what row value and literals stand for; null satisfies is_null only |
| `OperatorMeaning.MapMeans` | backend/src/modules/dag/map.ts:481-494 | Every output row has, under each defined name, the value of its expression on the input row, and otherwise the input columns in extend mode only |
| `OperatorMeaning.UnionMeans` | backend/src/modules/deployments/runtime.ts:282-286 | The left rows, then the right rows, each in order and marked with its side if a discriminator was asked for |
| `OperatorMeaning.JoinMeans` | backend/src/modules/deployments/runtime.ts:287-303 | One left row contributes at most one row: the last right row with equal keys, null and missing being the same, adds its prefixed columns but for repeated keys; without one the row is dropped or kept bare |
| `OperatorMeaning.OutputMeans` | backend/src/modules/deployments/runtime.ts:304-306 | Every row in order, cut to the listed columns |
| `OperatorMeaning.AggregateMeans` | backend/src/modules/deployments/runtime.ts:170-209 | One row per group in order of first occurrence: group columns from its first row, every other column the value of its measure over the rows of the group |
| `OperatorMeaning.GroupKeepsInOrder` | backend/src/modules/deployments/runtime.ts:175-181 | The rows of a group are exactly the rows with its key, in their order |
| `OperatorMeaning.GroupsByFirstRow` | backend/src/modules/deployments/runtime.ts:175-181 | Groups come in the order of their first rows |
| `OperatorMeaning.ExtremeMeans` | backend/src/modules/deployments/runtime.ts:200-205 | min is a present value of the column that none precedes at the type of the column, max one that precedes none; null exactly when all are missing |
| `OperatorMeaning.CountsMean` | backend/src/modules/deployments/runtime.ts:195-196 | count_rows is the number of rows, count_distinct the number of different present values |
| `OperatorMeaning.AverageMeans` | backend/src/modules/deployments/runtime.ts:198-198 | average is the sum of the column over the number of its present values, to half a unit of its last digit; null exactly when there are none |
| `ExpressionSoundness.EvaluateSound` | backend/src/modules/dag/map.ts:381-479 | An expression that type-checks, evaluated on a row that fits in the fields the expression reads, gives a value of the inferred type, null only where inference said nullable, and fails only on an unreadable value |
| `ExpressionMeaning.ArithmeticMeans` | backend/src/modules/dag/map.ts:460-477 | What evaluation computes, for inputs that stand for the rationals x and y: add, subtract and multiply give exactly x + y, x - y and x * y; safe_divide the quotient to the nearest millionth, exact halves to the even digit, and null exactly for y = 0 |
| `ExpressionMeaning.RoundingMeans` | backend/src/modules/dag/map.ts:432-447 | abs, to_decimal, floor, ceil and round give the absolute value, the same number, the greatest integer below, the least above and the nearest, halves to the even one; to_integer succeeds exactly on whole numbers |
| `ExpressionMeaning.ComparisonMeans` | backend/src/modules/dag/map.ts:449-459 | Each of the six comparisons is decided by what both sides stand for at their merged type |
| `ExpressionMeaning.LogicMeans` | backend/src/modules/dag/map.ts:409-424 | Three-valued and/or: the first false (true) input decides whatever follows; without one, null if an input was null, else true (false) |
| `ExpressionMeaning.IfMeans` | backend/src/modules/dag/map.ts:403-408 | if takes the branch its condition names and is null without a condition |
| `ExpressionMeaning.CoalesceMeans` | backend/src/modules/dag/map.ts:391-402 | coalesce is its first input that is not missing, as the same number or text at the merged type, whatever the later inputs are; null if all are missing |
| `ExpressionMeaning.ConcatMeans` | backend/src/modules/dag/map.ts:448-448 | concat of texts is the texts in order |
| `ExpressionMeaning.InstantMeans` | backend/src/modules/dag/map.ts:435-442 | Seconds and milliseconds become the instant they count, and fail exactly outside the calendar; the date of seconds is the first ten characters of their instant |
| `ExpressionMeaning.MissingMeansNull` | backend/src/modules/dag/map.ts:425-426 | One missing input makes every other operator null |
| `InferenceExact.NullableExactly` | backend/src/modules/dag/map.ts:128-201 | Inference is tight: an operator over columns is inferred nullable if and only if some row of the shape makes it null |
| `InferenceExact.NumberTypeExactly` | backend/src/modules/dag/map.ts:128-182 | A number operator over different columns is inferred decimal if and only if some row of the shape gives it a fraction |
| `InferenceExact.UnitExactly` | backend/src/modules/dag/map.ts:128-201 | Over columns of one unit exactly addition, subtraction, abs, the roundings, conversion to a number, coalesce and if keep it; every other operator has no unit |
| `InferenceExact.MeasureNullableExactly` | backend/src/modules/deployments/runtime.ts:184-206 | Some group of rows makes a measure null if and only if the measure is inferred nullable and is no sum: sums of nothing are zero although they are inferred nullable |
| `Expressions.InferWithBudget` | backend/src/modules/dag/map.ts:203-235 | The in-place node counter: inference succeeds exactly when pure inference does and depth and node limits allow, and then counted every node once |
| `Compiler.Compile` | backend/src/modules/dag/compiler.ts:336-478 | Passes exactly the plans that compile (unique valid ids, versions, every input port fed by exactly one edge, acyclic, every node reaching Output, all shapes derivable, declared schema kept), with the recursively derived Output shape |
| `Compiler.CheckGraph` | backend/src/modules/dag/compiler.ts:342-420 | The issue list is empty exactly on well-formed graphs |
| `Compiler.Connect` | backend/src/modules/dag/compiler.ts:356-375 | The connection loop reports no issue exactly when every edge is allowed, and builds the exact incoming and outgoing maps |
| `Compiler.CheckPorts` | backend/src/modules/dag/compiler.ts:376-380 | No issue is added exactly when every input port is fed |
| `Compiler.CheckSources` | backend/src/modules/dag/compiler.ts:381-393 | No issue is added exactly when every source is identified, has a valid limit and feeds one projecting boundary Map only |
| `Compiler.CheckCycles` | backend/src/modules/dag/compiler.ts:394-405 | No issue is added exactly when a stratification of the nodes exists, that is, when the graph is acyclic |
| `Compiler.CheckReach` | backend/src/modules/dag/compiler.ts:406-419 | No issue is added exactly when every node leads to the Output node |
| `Compiler.CheckNodes` | backend/src/modules/dag/compiler.ts:345-355 | The node loop reports no issue exactly on valid, distinct ids and known versions; the id map finds the first node of each id |
| `Compiler.DeriveShapes` | backend/src/modules/dag/compiler.ts:422-445 | The queue-driven derivation yields the recursive Output shape, and fails only if that shape does not exist |
| `Compiler.CheckDeclared` | backend/src/modules/dag/compiler.ts:446-453 | Accepts exactly the declared schemas that promise every compiled field at its type and unit and allow null wherever it may occur |
| `Graphs.CycleSearch.Visit` | backend/src/modules/dag/compiler.ts:394-404 | Three-set depth-first visit: true only on a cycle; otherwise the node is finished, the stack is unchanged and finished nodes stay closed |
| `Graphs.FindCycle` | backend/src/modules/dag/compiler.ts:394-405 | The search reports a cycle if and only if one exists, and otherwise yields a rank that falls along every arrow |
| `Graphs.Reach` | backend/src/modules/dag/compiler.ts:406-418 | The backward search computes exactly the nodes from which a path leads to the start |
| `Graphs.KahnQueue.Advance` | backend/src/modules/dag/compiler.ts:428-443 | One turn keeps every counter equal to the number of unprocessed input edges, processes a new node, and only after all its predecessors |
| `Graphs.KahnQueue.Drained` | backend/src/modules/dag/compiler.ts:430-443 | On an acyclic graph the queue runs dry only when every node was processed |
| `DagOrder.OrderIndependent` | backend/src/modules/dag/compiler.ts:422-470 | Permuting nodes and edges changes neither pass or fail nor, when passed, the normalised document that is hashed |
| `DagOrder.DocumentDecides` | backend/src/modules/dag/compiler.ts:454-461 | Two compiling plans have equal documents if and only if they are one plan up to the order of nodes and edges, and then one output schema |
| `DagOrder.DocumentLists` | backend/src/modules/dag/compiler.ts:454-461 | The document lists exactly the nodes and edges of the plan, each in one strict order, and the compiled schema that the declared one promises |
| `Dags.ComputedIsFold` | backend/src/modules/deployments/runtime.ts:233-313 | Confluence: whatever the schedule, a value computed from the values of its feeders equals the recursive meaning of the node |
| `Dags.StepIsMeaning` | backend/src/modules/deployments/runtime.ts:235-308 | What a scheduler computes next from computed inputs is the meaning of that node |
| `Dags.OutputNeedsAll` | backend/src/modules/dag/compiler.ts:406-419 | In a well-formed graph the Output has a meaning only if every node has one |
| `Dags.DenoteLenient` | backend/src/modules/deployments/runtime.ts:280-281 | Where the strict meaning is defined, the meaning that skips avoided sort comparisons agrees with it |
| `LiveRun.ExecuteLivePlan` | backend/src/modules/deployments/runtime.ts:217-319 | The pending-set loop terminates; it returns only on acyclic graphs, with the rows the Output denotes, every source fetched exactly once and successfully, the requests and rows reported being the sums over these fetches and the limit flag set exactly when one of them reached its limit; a failing run on an acyclic graph stopped at a node whose inputs were all computed |
| `LiveRun.TalliesAreSums` | backend/src/modules/deployments/runtime.ts:251-253 | The running totals over any list of fetches are the sums of their requests and rows, and the disjunction of their flags |
| `LiveRun.LiveExecutor.Pass` | backend/src/modules/deployments/runtime.ts:233-313 | One pass over a snapshot: progress strictly shrinks the pending set, no progress means no pending node was ready |
| `LiveRun.LiveExecutor.Compute` | backend/src/modules/deployments/runtime.ts:235-311 | Computing a ready node adds its table and removes exactly it from the pending nodes |
| `LiveRun.SomeReady` | backend/src/modules/deployments/runtime.ts:238-312 | On an acyclic graph the pending set always holds a ready node, so a stuck pass is impossible |
| `LiveRun.RunOperator` | backend/src/modules/deployments/runtime.ts:255-307 | The operator branches, loops included, compute the denoted table or fail where it may fail |
| `LivePlan.SourceProjections` | backend/src/modules/deployments/live-plan.ts:292-322 | Planning a source succeeds exactly when it feeds one projecting Map that consumes something and only declared provider paths, and then yields exactly the paths that Map refers to, the network column aside |
| `LivePlan.PlanIsSufficientExactly` | backend/src/modules/deployments/live-plan.ts:292-298 | Sources are planned and looked up by name: every boundary Map gets what it reads if and only if, where several Source nodes name one source, the Map of the first reads whatever the others read |
| `LivePlan.DistinctSourcesRead` | backend/src/modules/deployments/live-plan.ts:292-298 | In particular when every Source node names a source of its own |
| `LivePlan.FetchProjects` | backend/src/modules/deployments/runtime.ts:94-121 | A successful fetch, over however many pages, consists of exactly the projections of the entities the provider returned |
| `LivePlan.FetchedReads` | backend/src/modules/deployments/runtime.ts:109-116 | Row by row, what a fetch rebuilt from the planned paths reads like the whole entity at every field the Map refers to |
| `LivePlan.FetchedRowsFit` | backend/src/modules/deployments/runtime.ts:239-254 | Providers whose entities have the declared types in the fields that are read, and nothing more, give every boundary Map rows that fit |
| `LivePlan.PrunedPlanMeansTheSame` | backend/src/modules/deployments/live-plan.ts:286-322 | Projection pruning for the whole plan: every node beyond the sources denotes the same table, or the same failure, on the fetched rows as on the whole provider rows |
| `PlanRun.RunCompiled` | backend/src/modules/deployments/runtime.ts:217-319 | End to end: a compiled, faithful plan run by the executor over sources that fetch their planned paths, page by page (several Source nodes of one name reading alike), from providers whose entities fit in those fields, returns rows with exactly the declared columns, types and nullability, the very rows the Output denotes on whole provider rows, each source fetched once; or it fails with an unreadable value or a provider error, and only if the strict meaning does. A steady plan over answers that can be read fails only where a provider does |
| `PlanRun.RunFailsOnlyIfMeaningFails` | backend/src/modules/deployments/runtime.ts:217-319 | A failed run of a well-formed plan had no strict meaning to return |
| `PlanRun.FailureIsBadValue` | backend/src/modules/deployments/runtime.ts:217-319 | In a compiled, faithful plan the only run-time errors are unreadable values and provider failures |
| `PlanRun.PromisedRows` | backend/src/modules/dag/compiler.ts:445-453 | Rows that have the compiled columns have the declared ones |
| `Steadiness.SteadyPlanSucceeds` | backend/src/modules/deployments/runtime.ts:217-319 | Progress: where every comparison is on Boolean, numeric or text columns and no conversion can fail, every node of a compiled, faithful plan has a strict meaning whenever all providers answer with readable values |
| `Steadiness.SteadySucceeds` | backend/src/modules/dag/map.ts:381-479 | A type-checked expression without dates, instants and partial conversions has a value on every row whose values can be read |
| `Steadiness.RunSucceeds` | backend/src/modules/deployments/runtime.ts:254-307 | The same for one operator: sorts, filters, minima, sums and averages over such columns never throw |
| `Steadiness.SteadyExactly` | backend/src/modules/dag/filter.ts:118-149 | Those are exactly the column types whose readable values always compare: a date may be any text, an instant a number or a text, and JSON compares with nothing |
| `Gaps.JoinFollowsCompilerExactly` | backend/src/modules/deployments/runtime.ts:287-303 | A join yields the compiled columns if and only if it is inner, adds no column, or every left row matches: an unmatched left row carries no right column at all |
| `Gaps.JoinColumnsRead` | backend/src/modules/deployments/runtime.ts:287-303 | Read by name, every join keeps the promise of the compiler, left joins included: a column of a joined row has its compiled type, and is null or missing only where the compiler said nullable |
| `Gaps.UnionFollowsCompilerExactly` | backend/src/modules/deployments/runtime.ts:282-286 | Over all rows: the run-time union shape, the left shape alone, is the compiled one and every right row has it, if and only if for every column the right side is nullable only where the left is, keeps the unit the left declares, and has a type all of whose values are of the left type |
| `Gaps.TypeFollowsExactly` | backend/src/modules/dag/compiler.ts:258-259 | For types the compiler takes as compatible: all right values are left values unless the right type is JSON and the left is not, or, of values that can be read, the right is decimal and the left integer |
| `Gaps.UnionShapeExactly` | backend/src/modules/dag/compiler.ts:262-266 | The compiled union shape is the left shape if and only if merging each left column with its right one changes neither its nullability nor its unit |
| `Gaps.UnionHidesNulls` | backend/src/modules/dag/compiler.ts:248-270 | A concrete compiled union whose right null breaks the run-time shape: sorting by the column compiles and then aborts |
| `Gaps.UnionTakesJson` | backend/src/modules/dag/compiler.ts:248-270 | A concrete compiled union that carries a Boolean in an integer column, because the right column is JSON |
| `Gaps.UnionTakesFractions` | backend/src/modules/dag/compiler.ts:248-270 | A concrete compiled union that carries 1.5 in an integer column, on which every integer comparison then fails |
| `Gaps.MapShapeExactly` | backend/src/modules/dag/compiler.ts:232-238 | Compiler and executor derive the same Map shape if and only if every unit annotation is free of surrounding white space, since only the compiler trims it |
| `OperatorSoundness.AggregateShapeAgrees` | backend/src/modules/deployments/runtime.ts:182-189 | Executor and compiler derive the same aggregate shape |
| `Maps.ValidateMapConfig` | backend/src/modules/dag/map.ts:257-298 | The issue list is empty exactly on valid configurations, although a definition with a bad name is never type-checked |
| `Maps.MapRowsLoop` | backend/src/modules/dag/map.ts:481-494 | The row loop computes the map of the rows, failing exactly when it does |
| `Filtering.ValidateFilterPredicate` | backend/src/modules/dag/filter.ts:165-225 | The issue list is empty exactly on valid predicates |
| `Ordering.ComparisonIsKeyOrder` | backend/src/modules/dag/filter.ts:118-149 | The typed comparator answers exactly on values of one readable kind, and then as one total order of keys: rationals (integers, also when written as text, and decimals by their value), instants, flags, or texts |
| `TopK.Heap.SiftDown` | backend/src/modules/dag/sort.ts:137-153 | Sinking the start item of an otherwise ordered heap restores the heap and permutes its items |
| `TopK.Heap.Push` | backend/src/modules/dag/sort.ts:155-168 | Pushing keeps the heap and adds exactly the new item |
| `TopK.BoundedHeap.Offer` | backend/src/modules/dag/sort.ts:170-195 | After each step the heap holds the K least rows seen, the worst at the root |
| `TopK.SelectFirst` | backend/src/modules/dag/sort.ts:170-195 | The heap path returns exactly the first K of the full sort |
| `TopK.PrefixOfSort` | backend/src/modules/dag/sort.ts:188-195 | If some K items all precede the rest, sorting them alone gives the first K of the whole sort |
| `Sorting.SortRows` | backend/src/modules/dag/sort.ts:170-196 | Whichever path runs, a sort that returns gives a prefix of the full stable sort, of the length of the limit or of the whole input; it throws only for an invalid configuration or two rows that cannot be compared |
| `Sorting.RowLessIsLexicographic` | backend/src/modules/dag/sort.ts:115-135 | The order of rows, key by key: the first key that does not tie decides, by direction and place of nulls; the input position if all tie |
| `Sorting.StableSortIsStable` | backend/src/modules/dag/sort.ts:115-135 | The specified sort permutes the rows, orders them by all keys with nulls and directions honoured, and keeps rows with equal keys in input order |
| `Sorting.CompareRowsDecides` | backend/src/modules/dag/sort.ts:115-135 | The comparator decides exactly the multi-key order, ties going to the input position |
| `Joins.HashJoin` | backend/src/modules/deployments/runtime.ts:287-300 | The indexed join computes, per left row, the combination with the last right row of its key |
| `Joins.HashJoinIsNestedLoop` | backend/src/modules/deployments/runtime.ts:290-300 | With unique right keys the indexed inner join is the nested-loop join |
| `Joins.JoinUsesLastMatch` | backend/src/modules/deployments/runtime.ts:290-300 | With repeated right keys it is the nested loop against the last row of each key, at most one output row per left row |
| `Aggregation.GroupRows` | backend/src/modules/deployments/runtime.ts:175-181 | The grouping loop computes for every key, in order of first occurrence, exactly the rows with that key |
| `Aggregation.AggregateLoop` | backend/src/modules/deployments/runtime.ts:170-211 | The whole loop computes the specified aggregate |
| `Aggregation.GroupsPartition` | backend/src/modules/deployments/runtime.ts:175-181 | The groups partition the rows: any weight summed over the groups is the weight of all rows |
| `Aggregation.AggregateConserves` | backend/src/modules/deployments/runtime.ts:190-210 | The printed counts add up to the row count, and the printed per-group sums to the sum of the whole column |
| `Aggregation.DecimalSum` | backend/src/modules/deployments/runtime.ts:148-157 | The loop that rescales its accumulator computes the fold of exact additions over the present values, failing on the first unreadable one |
| `Decimals.PrintIsNormalForm` | backend/src/modules/dag/map.ts:319-327 | Two decimals print the same text if and only if they are the same rational |
| `Decimals.ParsePrint` | backend/src/modules/dag/map.ts:310-327 | Printing and parsing returns the same rational in its shortest form |
| `Decimals.CompareIsRationalOrder` | backend/src/modules/dag/filter.ts:99-116 | Decimal comparison is the order of the rationals |
| `Decimals.AddIsExact` | backend/src/modules/dag/map.ts:460-469 | Addition and subtraction are exact |
| `Decimals.MultiplyIsExact` | backend/src/modules/dag/map.ts:470-470 | Multiplication is exact |
| `Decimals.RoundedQuotientIsNearest` | backend/src/modules/dag/map.ts:333-343 | The rounded quotient is nearest, an exact half going to the even neighbour, for all signs |
| `Decimals.FloorAndCeil` | backend/src/modules/dag/map.ts:345-357 | floor and ceil are the mathematical ones, negative values included |
| `Decimals.ExactIsWhole` | backend/src/modules/dag/map.ts:345-357 | The exact conversion succeeds exactly on whole values and keeps them |
| `Decimals.RoundIsNearestEven` | backend/src/modules/dag/map.ts:345-357 | round is nearest, ties to even |
| `Decimals.SafeDivideIsNearestEven` | backend/src/modules/dag/map.ts:471-477 | safe_divide is within half a millionth of the true quotient, ties to even |
| `Decimals.AverageIsNearest` | backend/src/modules/deployments/runtime.ts:159-168 | average is within half a unit of its last digit, ties away from zero |
| `Pushdown.MatchesCompleteFilterPushdown` | backend/src/modules/agent/pushdown-equivalence.ts:282-305 | The check as written accepts exactly the specified pairs of query and filter chain |
| `Pushdown.CollectGraphFields` | backend/src/modules/agent/pushdown-equivalence.ts:35-55 | The field loop computes the atoms of a nested where object, or gives up exactly when some field is unsupported |
| `Pushdown.CollectExpressionGroups` | backend/src/modules/agent/pushdown-equivalence.ts:223-247 | The mutually recursive loops compute the groups of an expression filter, or give up with it |
| `PushdownSoundness.PushdownSound` | backend/src/modules/agent/pushdown-equivalence.ts:161-305 | If the check accepts, letting the provider filter by the where clause and then mapping gives the same table as mapping all rows and filtering locally, nulls included |
| `PushdownSoundness.KeptExactly` | backend/src/modules/agent/pushdown-equivalence.ts:161-305 | On one row: the local filters keep the mapped row if and only if the where clause is true of the provider row |
| `PushdownSoundness.ExpressionTrue` | backend/src/modules/agent/pushdown-equivalence.ts:180-247 | An expression filter evaluates to true, under three-valued and/or with short circuits, if and only if one of its groups is true of the provider row |
| `PushdownSoundness.PredicateTrue` | backend/src/modules/agent/pushdown-equivalence.ts:138-173 | A predicate filter keeps a row if and only if one of its groups is true of the provider row |
| `PushdownSoundness.ConditionTrue` | backend/src/modules/agent/pushdown-equivalence.ts:138-159 | One pushed condition is true of the mapped row if and only if its atoms are true of the provider row |
| `PushdownSoundness.QueryTrue` | backend/src/modules/agent/pushdown-equivalence.ts:64-97 | The groups of a query without an empty group are true exactly when its where clause is, the cursor aside |
| `PushdownSoundness.ProductTrue` | backend/src/modules/agent/pushdown-equivalence.ts:214-221 | The product of two disjunctions of groups is true exactly when both are |
| `PushdownSoundness.CanonicalTruth` | backend/src/modules/agent/pushdown-equivalence.ts:269-274 | Equal canonical forms agree on every row and on having no empty group |
| `PushdownSoundness.ChainFull` | backend/src/modules/agent/pushdown-equivalence.ts:294-303 | Validated filters always yield groups that are not empty, so an unsupported where clause cannot match them |
| `PushdownSoundness.UnvalidatedIsAccepted` | backend/src/modules/agent/pushdown-equivalence.ts:93-93 | Why validation matters: a predicate without conditions matches a where clause that could not be read |
| `PushdownSoundness.AcceptsExactly` | backend/src/modules/agent/pushdown-equivalence.ts:269-305 | With sorts that leave no ties, the check accepts if and only if both sides have the same groups of the same atoms up to order |
| `PushdownReach.PredicateTranslatesExactly` | backend/src/modules/agent/pushdown-equivalence.ts:99-173 | A predicate filter is translated if and only if each condition compares a field that the Map copies from a name, or from a path inspection proved free of lists and nulls, with plain literals |
| `PushdownReach.ExpressionTranslatesExactly` | backend/src/modules/agent/pushdown-equivalence.ts:180-247 | An expression filter is translated if and only if it is built by and/or of two to eight inputs from comparisons of such fields with literals, on either side, and its disjunctive form has at most 64 groups of at most 64 comparisons |
| `PushdownReach.ChainTranslatesExactly` | backend/src/modules/agent/pushdown-equivalence.ts:282-303 | A chain of filters is translated if and only if each of them is and the disjunctive form of their conjunction stays within the same bounds |
| `PushdownReach.MatchedExactly` | backend/src/modules/agent/pushdown-equivalence.ts:28-97 | Completeness: a translated chain is accepted with some query, in GraphQL names, if and only if every comparison of it is on a field of the entity or of a directly related one, is not written like the pagination cursor, and has a literal a query can hold |
| `PushdownReach.NeverMatched` | backend/src/modules/agent/pushdown-equivalence.ts:35-63 | So no query is ever accepted for a filter that translates to the name of the cursor, as one for greater ids does, or to a field two relations away, although inspection may have proved its path |
| `PushdownSoundness.MapCopies` | backend/src/modules/dag/map.ts:481-494 | What a projecting Map copies from a provider path is the value and type at that path |
| `PushdownGaps.AlikeExactly` | backend/src/modules/dag/map.ts:449-459 | For compatible types: an expression filter and the provider agree on every value and literal if and only if the field is compared alike with the literal, which leaves out exactly address fields against other texts and integer fields against decimals |
| `PushdownGaps.UnlikeIsAccepted` | backend/src/modules/agent/pushdown-equivalence.ts:180-212 | For each such pair of types there is a Map, a filter, a where clause and a row on which the check accepts the pushdown, while exactly one of provider and filter keeps the row |
| `PushdownGaps.AddressDisagrees` | backend/src/modules/dag/map.ts:449-459 | They disagree for an address field against any other text literal: letter case counts only locally |
| `PushdownGaps.IntegerDisagrees` | backend/src/modules/dag/map.ts:449-459 | They disagree for an integer field against a decimal literal with a fraction |
| `Residual.MutableDag.RemoveUnaryNode` | backend/src/modules/agent/pushdown.ts:13-25 | The in-place splice leaves exactly the graph without the node, its outgoing edges moved to its predecessor, and reports whether it had one input |
| `Residual.FeedersRemoved` | backend/src/modules/agent/pushdown.ts:13-25 | After the splice every other port is fed by one node: the same as before, or the heir of the removed one |
| `Residual.RemovedKeeps` | backend/src/modules/agent/pushdown.ts:13-25 | The rewritten graph stays wired and keeps its stratification, so it stays acyclic |
| `Residual.RouteAround` | backend/src/modules/agent/pushdown.ts:13-25 | Every route that passed the node leads on around it |
| `Residual.RemovedMeaning` | backend/src/modules/agent/pushdown.ts:13-25 | If the removed node meant the same as its input, every other node keeps its meaning |
| `Residual.RemovedWellFormed` | backend/src/modules/agent/pushdown.ts:33-52 | Removing a filter or sort keeps a plan well formed |
| `Residual.RemovedCompiles` | backend/src/modules/agent/pushdown.ts:33-52 | It still compiles, to the same output schema |
| `Residual.Residualize` | backend/src/modules/agent/pushdown.ts:33-52 | The loops over sources and pushed operations compute the specified residual plan, node removal by node removal |
| `Residual.ResidualNodes` | backend/src/modules/agent/pushdown.ts:33-52 | Of a well-formed plan exactly those nodes are gone that a pushed filter or sort operation names, by id and kind, in a source that has a node; every other node is kept as it was |
| `Residual.ResidualMeansTheSame` | backend/src/modules/agent/pushdown.ts:33-52 | The residual plan is well formed and its Output denotes the same whenever each removable node is the identity on its input |
| `Residual.ResidualCompiles` | backend/src/modules/agent/pushdown.ts:33-52 | The residual of a compiled plan compiles against the same declared schema |
| `PushedPlan.PushedPlanMeansTheSame` | backend/src/modules/agent/pushdown.ts:33-52 | End to end, for any number of sources at once: with their accepted where clauses moved to the providers, the residual plan denotes at its Output exactly what the full plan denoted |
| `PushedPlan.BeyondLanes` | backend/src/modules/agent/pushdown.ts:33-52 | Nodes outside the pushed lanes do not notice that the providers filter |
| `PushedPlan.ChainIsIdempotent` | backend/src/modules/agent/pushdown-equivalence.ts:282-305 | What a chain of filters leaves, every prefix of the chain leaves unchanged |
| `Projection.PruningIsInvisible` | backend/src/modules/deployments/live-plan.ts:286-322 | The boundary Map gives the same row on the row rebuilt from the collected paths as on the full provider row |
| `Projection.CollectExpressionFields` | backend/src/modules/deployments/live-plan.ts:286-290 | The recursive collector adds exactly the field paths of the expression |
| `Projection.RebuildIs` | backend/src/modules/deployments/runtime.ts:109-116 | A row is rebuilt if and only if every path can be read and none runs through the network column; each path then reads as in the full row, whatever the order and nesting of the paths |
| `Projection.ProjectRow` | backend/src/modules/deployments/runtime.ts:111-114 | The projection loop computes the rebuilt row or fails with it |
| `Projection.SetPart` | backend/src/modules/deployments/runtime.ts:32-42 | Writing a path of the full value into a part of it succeeds, stays a part and reads back |
| `Projection.SetKeeps` | backend/src/modules/deployments/runtime.ts:32-42 | A path already read correctly keeps doing so, beside, above or below the written one |
| `Paging.FetchLiveSource` | backend/src/modules/deployments/runtime.ts:84-126 | The fetch loop computes the specified fetch |
| `Paging.WithinBudget` | backend/src/modules/deployments/runtime.ts:94-125 | For any provider: requests and rows stay within the plan, and the limit flag is set only at the ceiling |
| `Paging.Ceiling` | backend/src/modules/deployments/runtime.ts:94-94 | The ceiling is the greatest number within both the plan and the configured limit |
| `Paging.PaginationIsExact` | backend/src/modules/deployments/runtime.ts:84-126 | Over an id-ordered provider a fetch that returns has exactly the first rows past the cursor up to the ceiling, without gaps or duplicates, after exactly the number of pages that takes; an unset flag means all of them. It fails exactly when the requests cannot reach that far or one of those entities cannot be read; entities beyond them do not matter |
| `Paging.NothingAsked` | backend/src/modules/deployments/runtime.ts:95-125 | Without requests or with ceiling zero nothing is returned and no limit is reported |
| `Publications.EveryRunKeepsLifecycle` | backend/src/modules/deployments/postgres-repository.ts:91-506 | The lifecycle invariant holds after every run of deploy, publish, retire and suspend |
| `Publications.LifecycleSays` | backend/src/modules/deployments/postgres-repository.ts:91-506 | What it says: at most one active publication; the active pointer is set exactly when there is one and names it; it is then healthy with exactly one internal credential, which is active; a suspended deployment has neither active publication nor active credential |
| `Publications.DeployKeeps` | backend/src/modules/deployments/postgres-repository.ts:91-220 | deploy keeps the invariant |
| `Publications.PublishKeeps` | backend/src/modules/deployments/postgres-repository.ts:372-457 | publish keeps the invariant, whichever branch the transaction takes |
| `Publications.RetireKeeps` | backend/src/modules/deployments/postgres-repository.ts:459-506 | retire keeps the invariant |
| `Publications.SuspendKeeps` | backend/src/modules/deployments/postgres-repository.ts:282-329 | suspend keeps the invariant |
| `Publications.DeployIsIdempotent` | backend/src/modules/deployments/postgres-repository.ts:112-165 | Repeating a deploy command changes nothing and replays its reply |
| `Publications.ReplayReportsHealthy` | backend/src/modules/deployments/postgres-repository.ts:127-165 | The replayed reply says healthy even of a deployment suspended in between |
| `Publications.PricesStay` | backend/src/modules/deployments/postgres-repository.ts:372-506 | Publications are never deleted and keep price, recipient and deployment |
| `Publications.DeployBringsUp` | backend/src/modules/deployments/postgres-repository.ts:91-220 | A deploy succeeds exactly for a new command with a ready version, a slug free in the workspace and a new key; the deployment of the product then has that version and slug, is healthy, keeps what was on sale and has a live key, and every other row stays |
| `Publications.PublishSucceedsExactly` | backend/src/modules/deployments/postgres-repository.ts:372-457 | A publish succeeds exactly for a healthy deployment of that workspace, product and version that is on sale already or gets new ids and a new key |
| `Publications.PublishPutsOn` | backend/src/modules/deployments/postgres-repository.ts:372-457 | It then has exactly the new publication at its price and recipient on sale with a live internal key, or still the one that was active; a failed publish changes nothing |
| `Publications.PublishOnlyAdds` | backend/src/modules/deployments/postgres-repository.ts:372-457 | It touches no row that was there, the pointer of its deployment aside |
| `Publications.RetireTakesOff` | backend/src/modules/deployments/postgres-repository.ts:459-506 | Retiring answers true exactly for a publication of that deployment of that workspace; it is then not active, no pointer names it, no live internal key opens it, and every other row is as before; otherwise nothing changes |
| `Publications.SuspendTakesDown` | backend/src/modules/deployments/postgres-repository.ts:282-329 | Suspending answers true exactly for a deployment of that workspace; it is then suspended, without a pointer, an active publication or a live key, and no other deployment changes |
| `Publications.ControlPlane.DeployProduct` | backend/src/modules/deployments/postgres-repository.ts:91-220 | The row-by-row transaction leaves exactly the specified store, or the old one when it rolls back, and answers accordingly |
| `Publications.ControlPlane.PublishX402` | backend/src/modules/deployments/postgres-repository.ts:372-457 | The same for publish, including the reply for a publication that is already active |
| `Publications.ControlPlane.RetireX402` | backend/src/modules/deployments/postgres-repository.ts:459-506 | The same for retire |
| `Publications.ControlPlane.SuspendDeployment` | backend/src/modules/deployments/postgres-repository.ts:282-329 | The same for suspend |
| `PaidRequests.PaidDeliverySafety` | backend/src/modules/deployments/service.ts:339-428 | Over every interleaving and failure: a successful response belongs to a payment confirmed by exactly one settlement of its price, and each PAYMENT-SIGNATURE value led to at most one successful response and at most one settle call |
| `PaidRequests.LedgerConservation` | backend/src/modules/deployments/postgres-repository.ts:608-682 | In every reachable state gross sales, creator proceeds and the prices of confirmed payments have the same total; a confirmed payment has exactly one settlement, two allocations and two ledger entries, any other none |
| `PaidRequests.PaymentsOnlyMoveForward` | backend/src/modules/deployments/service.ts:370-427 | Confirmed is absorbing, and a payment whose settle call reported success is never marked failed |
| `PaidRequests.StepKeeps` | backend/src/modules/deployments/service.ts:339-428 | Every step of every request and of the creator keeps the invariant behind these results |
| `PaidRequests.ExecutesOnlyWhilePublished` | backend/src/modules/deployments/service.ts:390-399 | Data is produced only while the paid publication is the active one of a healthy deployment |
| `PaidRequests.AuthorizedIsActive` | backend/src/modules/deployments/postgres-repository.ts:222-246 | The internal key authorizes exactly while its publication is the active one |
| `PaidRequests.GateIsOnSale` | backend/src/modules/deployments/postgres-repository.ts:508-547 | loadX402Gate finds a gate exactly when the deployment has a publication on sale: that one, with its price and its recipient |
| `PaidRequests.PublishedIsSold` | backend/src/modules/deployments/postgres-repository.ts:372-546 | What was published is the gate found next, at its price and for its recipient, and its key authorizes |
| `PaidRequests.RetiredIsRefused` | backend/src/modules/deployments/postgres-repository.ts:459-546 | After retiring what was on sale no gate is found and no key of it authorizes |
| `PaidRequests.OthersKeepAccount` | backend/src/modules/deployments/service.ts:339-428 | A step of one request leaves the record of every other as it is |
| `PaidRequests.SuspensionAfterPayment` | backend/src/modules/deployments/service.ts:383-427 | A suspension between confirmation and execution always ends in failure: paid, not delivered |
| `PaidRequests.FailurePreservesPayment` | backend/src/modules/deployments/service.ts:417-426 | That failure leaves the confirmed payment untouched |
| `PaidExecution.Service.ExecuteX402Request` | backend/src/modules/deployments/service.ts:339-428 | The imperative request, with arbitrary moves of other clients between any two of its calls, makes only steps of the state machine. It delivers if and only if a gate is found, the signature matches and is new, verification and settlement succeed under an unused transaction, the publication is still on sale when data is produced and every call is answered; then the payment is confirmed under one settlement at the price and the request served. It asks for payment exactly when the signature is missing, does not match or fails verification; anything else is an error, and how the record ends is stated in each case |
| `PaidExecution.Service.Deliver` | backend/src/modules/deployments/service.ts:370-416 | The try block: it replies or throws, the reply exactly under these conditions, and the local flag says whether the payment is to be preserved |
| `PaidExecution.Service.Guarded` | backend/src/modules/deployments/service.ts:369-427 | The try statement with its catch block: what a failed attempt leaves behind |
| `Payments.PaymentStore.BeginPaidRequest` | backend/src/modules/deployments/postgres-repository.ts:549-606 | Four inserts in one transaction; a used authorization hash undoes them and yields no record |
| `Payments.PaymentStore.FailPaidRequest` | backend/src/modules/deployments/postgres-repository.ts:608-621 | The three-table update, which spares a preserved or confirmed payment |
| `Payments.PaymentStore.ConfirmPaidSettlement` | backend/src/modules/deployments/postgres-repository.ts:623-682 | Settlement, allocations, ledger entries and both statuses, or nothing on a unique violation |
| `Payments.PaymentStore.CompletePaidRequest` | backend/src/modules/deployments/postgres-repository.ts:684-711 | Completion of a confirmed request, or nothing |
| `Payments.BeginKeeps` | backend/src/modules/deployments/postgres-repository.ts:549-606 | Opening a payment keeps the books in order |
| `Payments.ConfirmKeeps` | backend/src/modules/deployments/postgres-repository.ts:623-682 | Confirming an unconfirmed payment keeps the books in order |
| `Payments.FailKeeps` | backend/src/modules/deployments/postgres-repository.ts:608-621 | Failing keeps the books in order |
| `Payments.BeginOpens` | backend/src/modules/deployments/postgres-repository.ts:549-606 | An authorization opens a fresh submitted record exactly when no record has it; no other record changes |
| `Payments.FailFails` | backend/src/modules/deployments/postgres-repository.ts:608-621 | Failing marks the request, and the payment unless it is preserved or confirmed; no other record changes |
| `Payments.ConfirmSettles` | backend/src/modules/deployments/postgres-repository.ts:623-682 | An unconfirmed payment is confirmed exactly when no settlement has the transaction, with one settlement at the price of the gate; no other record changes |
| `Payments.CompleteServes` | backend/src/modules/deployments/postgres-repository.ts:684-711 | A request is served exactly when its payment is confirmed and has no response yet; no other record changes |
| `Payments.OnlyOwnTransactionClashes` | backend/migrations/0011_constraints_indexes.sql:38-57 | An unconfirmed payment is refused a settlement exactly when its transaction was already used |
| `Footprint.ExecuteFootprint` | backend/src/modules/dag/runtime.ts:404-420 | Succeeds exactly on at least two validly mapped, readable sources with distinct trade ids, a usable window and rows on two different chains; then returns the windowed union, one faithful summary per wallet and chain, and a joined row for exactly the wallets seen on both chains, each once, with combined count, volume and first and last moments those of its raw rows |
| `Footprint.AggregateByWalletAndChain` | backend/src/modules/dag/runtime.ts:310-336 | Canonical rows never throw, and every wallet on every chain gets exactly one summary with the true count, sums, source keys and extreme moments of its rows |
| `Footprint.GroupSwaps` | backend/src/modules/dag/runtime.ts:311-318 | The grouping loop partitions the rows by chain and wallet, although its keys are concatenated text |
| `Footprint.KeyIsPair` | backend/src/modules/dag/runtime.ts:313-313 | Concatenated keys are unambiguous for wallets of one length |
| `Footprint.JoinCrossChainSummaries` | backend/src/modules/dag/runtime.ts:368-402 | Empty sides join to nothing; otherwise success means one chain per side, different chains and distinct wallets, and the rows are the common wallets once each, in order, each combining its two summaries |
| `Footprint.CombineIsExact` | backend/src/modules/dag/runtime.ts:389-401 | Combining two summaries adds counts and volumes exactly and keeps the outer moments |
| `Footprint.JoinIsFootprint` | backend/src/modules/dag/runtime.ts:404-420 | Joining faithful summaries of two chains describes the raw rows of exactly the wallets seen on both |
| `Swaps.ValidateSourceMapping` | backend/src/modules/dag/runtime.ts:184-201 | Accepts exactly the named sources whose mapping is their own and gives all eight canonical fields provider paths, each well formed, used once and of a type allowed for the field |
| `Swaps.NormalizeSourceRows` | backend/src/modules/dag/runtime.ts:203-235 | Succeeds exactly when the source and its mapping are valid, every row reads as a swap and no trade id repeats; then it returns the rows in order |
| `Swaps.NormalRowIsCanonical` | backend/src/modules/dag/runtime.ts:203-235 | A normalised row passes the check of Union and carries its moment without leading zeros |
| `Swaps.NormalRowReads` | backend/src/modules/dag/runtime.ts:203-235 | Every field of a normalised row stands for the value its own mapping points at: the address in lower case, the same moment, the same amount, the same token or its absence |
| `Swaps.UnionRows` | backend/src/modules/dag/runtime.ts:351-366 | Succeeds exactly when there is an input, all rows are canonical and no trade id repeats across inputs; then returns all rows in order and the sorted source keys |
| `Swaps.WindowIsExact` | backend/src/modules/dag/runtime.ts:297-308 | The generic filter keeps exactly the rows of the half-open window; the window is refused exactly when it is not two increasing digit strings that fit a filter literal of 512 characters |
| `Swaps.VolumeIsDerived` | backend/src/modules/dag/runtime.ts:283-295 | A row counts its first positive side, input before output, or nothing |
| `Swaps.SumIsExact` | backend/src/modules/dag/runtime.ts:242-281 | sumDecimals throws exactly on text that is no decimal, and otherwise writes the exact sum of what is present |
| `Swaps.NormalizeIsNormalForm` | backend/src/modules/dag/runtime.ts:143-158 | Normalising rejects exactly what is no decimal, keeps the value, and gives equal texts exactly to equal values |
| `Swaps.FormatReadsBack` | backend/src/modules/dag/runtime.ts:253-260 | formatDecimal reads back as the same coefficient at the same scale |
| `Money.TinybarsRoundTrip` | x402-cli/src/money.ts:3-18 | Writing a non-negative amount and reading it back is the identity |
| `Money.HbarRoundTrip` | x402-cli/src/money.ts:3-18 | Reading a text and writing the amount gives the shortest text of the same number |
| `Money.TinybarsArePrinted` | x402-cli/src/money.ts:11-18 | Amounts are written exactly as decimals of eight digits are |
| `Money.ConversionsAgree` | backend/src/http/control/deployment.controller.ts:20-25 | On every text the client accepts, the backend builds the digits of the client's number, or refuses it when that is zero |
| `Money.PriceIsClientAmount` | backend/src/http/control/deployment.controller.ts:16-25 | The backend accepts a price exactly when the client reads it as a positive amount of at most seventy whole digits, and stores that amount |
| `Money.LongFractionMisread` | backend/src/http/control/deployment.controller.ts:20-25 | Without the route's pattern the conversion alone misreads every fraction of more than eight digits, whatever the whole part: it counts each digit as a tinybar, where the client refuses the text |

## Left out

- Numbers with a fraction or an exponent in their JavaScript text: a number in a row is an integer here; decimals travel as text.
- The order of object keys in the JSON text of group and join keys: keys are compared as structures.
- Reading raw configurations (exact keys, unknown operators): configurations are typed values here, every later check is modelled.
- Issue texts and their node and path: issues are codes, at most 32 of them; which one comes first is not stated.
- Relative-window filters and `sourceVariables`: they have no local evaluator to compare with.
- GraphQL parsing, schema building and query authoring: a where clause starts as a tree, a field path as segments.
- The hash of a compiled plan: the normalised document itself is compared.
- Join cardinality: the executor ignores it, and so does the model.
- The executor on graphs that the compiler rejects: a run starts from a graph whose ports are each fed once.
- Credentials, the cache of graph clients and the lookup in `plan.sources`: each Source node has a feed of its own, with the paths planned under its name.
- Projections from field bindings of older plans; the texts of the admission errors and the order of planned paths, which no result depends on; `configuredSourceLimit` is the ceiling parameter.
- `setPath` works on values, not on aliased objects, and inherited names such as `constructor` are ordinary columns.
- Provider semantics are taken as: an atom on null is not true, one comparison order per field shared with the local filter, and no provider field name ending in an operator suffix.
- Sorts pushed into the query: the residual theorem covers a removed sort that is the identity on its input; the provider's ordering itself is not modelled.
- Readable dates and timestamps as types: a date or timestamp column holds texts of any content, since `utc_date` itself cuts texts that are no dates from years beyond four digits.
- Which of several unreadable values a sort reports: a heap need not compare all pairs, and may even return where a full sort would throw; then its result is still the first K rows of the specified order.
- Validation of raw sort configurations is a predicate, without its loop.
- Revision counters, product deletion, wallets and capabilities, alias resolution, credential expiry and recovery columns.
- SQL text, isolation and deferred constraints: each transaction is one atomic step, unique columns are facts of the tables.
- A settle call that throws may hide a real settlement: nothing here says that a failed request was not charged.
- A refund of a paid, undelivered request: the code has none.
- Hashes, ciphers and the facilitator's evidence: an authorization is its header value, an internal key a pair of deployment and publication.
- `localeCompare` in the order of summaries is any consistent comparison; that order matters to no later step.
- A normal form for the sums of the footprint: a sum keeps the scale of its longest addend, so its text can end in zeros.
- The agent and its model calls, control-plane plumbing, HTTP handlers, user interface and logging.
