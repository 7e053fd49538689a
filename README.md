# Basket splitter, modelled in Dafny

The basket splitter gets an eligibility table (item → the delivery types the item may go by) and a
basket (a list of items). It sends every item by exactly one delivery type the item may go by. It
first uses as few delivery types as possible, then makes the largest delivery group as large as
possible. Both optimisations go to a 0/1 integer-programming solver:

- Phase 1 minimises the number of delivery types switched on.
- Phase 2 runs once per delivery type the basket can use (the "anchor"). It pins the number of
  delivery types to the phase-1 optimum and maximises the anchor's group.
- The selection loop keeps the first anchor, in catalog order, with the largest score.

The model covers the class `BasketSplitter` as a Dafny `class` with the same state:

- the table is a `const`, because it is read once and never changed;
- the delivery catalog `_deliveries` is a `seq` field, which `FillHelperField` extends.

Each routine is a method with the source's loops. It is proved against specification functions:

- `Catalog` and `Flatten` for the catalog scan;
- `BaseConstraints`, `Phase1` and `Phase2` for the programs handed to the solver;
- `Decode` for reading the answer back;
- `Leads` for the selection rule.

Properties of those functions are proved as lemmas.

The solver is a parameter `solver: Program -> Response`. Constraints are data: a lower bound (or
minus infinity), an upper bound and a list of integer-coefficient terms. A 0/1 answer is a matrix
`x` (item × delivery type) and a vector `y` (delivery types switched on). Only some lemmas assume
anything about the solver. They assume `ExactSolver`: an OPTIMAL answer is feasible, reports its
objective value and is optimal, and every program that has a feasible answer is solved to OPTIMAL.
The methods themselves hold for any solver. `findSolution` never looks at the solve status, and
the model keeps that.

Modules: `LinearProgram` (programs and the solver assumption), `Routing` (0/1 assignments),
`BaseModel` (the constraint system and both phases), `DeliveryCatalog` (the first-seen catalog),
`EligibilityTable` (the table and `get`), `Decoding` (answer → map), `BasketSplitting` (the class).

Four source methods are split into smaller methods here, each with its own contract:

- the three constraint blocks of `baseSolverWithVariables` (`AddExactlyOneRows`,
  `AddActivationLinks`, `AddForbidden`);
- the read-back loop of `findSolution` (`ReadAnswer`);
- the selection loop of `split` (`SelectSolution`);
- the inner loop of `fillHelperField` (`AddUnseen`).

The order of execution and the constraints produced are unchanged.

How the source fails:

- An item that is not a key of the table has no failure of its own. `get` returns null, and the
  next dereference throws a `NullPointerException` (lines 103 and 141). The model writes this as
  `Failure.NullPointer(item)`. In `baseSolverWithVariables` the dereference happens at the item's
  first cell (line 141), so with an empty catalog nothing is dereferenced there: phase 1 then finds
  no feasible answer, and the split ends in "Solution was not found". `getSubsetOfDeliveryTypes`
  dereferences unconditionally (line 103).
- The other failures are `SolutionNotFoundException` with the messages "Solution was not found"
  (phase 1 not OPTIMAL) and "No solution was found" (no anchor evaluated). An empty basket ends in
  the second one.

## Model

All source paths are under `src/main/java/com/ocado/basket/` except the test file.

| member | source | states |
|---|---|---|
| BasketSplitting.BasketSplitter.constructor | src/main/java/com/ocado/basket/BasketSplitter.java:33-37 | after construction the table is the given one, its keys are distinct, and the catalog is the first-seen deduplication of the table's delivery types and so has no duplicates (`Valid`) |
| BasketSplitting.BasketSplitter.FillHelperField | src/main/java/com/ocado/basket/BasketSplitter.java:88-93 | the catalog becomes `Catalog(old catalog + every delivery type of every entry, in scan order)`: each type not yet present is appended once |
| BasketSplitting.BasketSplitter.AddUnseen | src/main/java/com/ocado/basket/BasketSplitter.java:90-92 | the inner loop over one entry's set: the catalog goes from `Catalog(before)` to `Catalog(before + that set)` |
| DeliveryCatalog.CatalogMembers | src/main/java/com/ocado/basket/BasketSplitter.java:88-93 | the catalog holds exactly the delivery types met by the scan |
| DeliveryCatalog.CatalogDistinct | src/main/java/com/ocado/basket/BasketSplitter.java:88-93 | the catalog has no duplicates |
| DeliveryCatalog.CatalogFirstSeen | src/main/java/com/ocado/basket/BasketSplitter.java:88-93 | catalog entries come in the order of their first occurrence in the scan |
| DeliveryCatalog.CatalogOfDistinct | src/main/java/com/ocado/basket/BasketSplitter.java:91-92 | scanning a list without duplicates keeps it unchanged (the `contains` check never skips) |
| EligibilityTable.FlattenMembers | src/main/java/com/ocado/basket/BasketSplitter.java:89-90 | the scan of the table's values meets exactly the delivery types of its entries |
| EligibilityTable.Lookup | src/main/java/com/ocado/basket/BasketSplitter.java:103 | `get` gives nothing (null) exactly for an item that is not a key, and otherwise the set of that item's entry |
| EligibilityTable.FirstUnknown | src/main/java/com/ocado/basket/BasketSplitter.java:102-103 | the position of the first basket item that is not a key, with every earlier item a key; nothing when all are keys |
| EligibilityTable.EligibilityAt | src/main/java/com/ocado/basket/BasketSplitter.java:141 | a cell of the eligibility matrix for a known item is whether the catalog entry is in the item's set |
| EligibilityTable.RoutableRows | src/main/java/com/ocado/basket/BasketSplitter.java:139-146 | every item may go by some catalog entry iff every row of the eligibility matrix has a `true` |
| BasketSplitting.BasketSplitter.GetSubsetOfDeliveryTypes | src/main/java/com/ocado/basket/BasketSplitter.java:100-106 | a null dereference naming the first unknown item iff there is one; otherwise a set holding exactly the delivery types some basket item may go by (the union of their sets), all of them in the catalog |
| BasketSplitting.ServesEligible | src/main/java/com/ocado/basket/BasketSplitter.java:52 | a catalog entry is in that union iff its column of the eligibility matrix has a `true` |
| BasketSplitting.AddExactlyOneRows | src/main/java/com/ocado/basket/BasketSplitter.java:125-130 | builds one constraint `1 <= x[i][0] + ... + x[i][m-1] <= 1` per item, in item order |
| BasketSplitting.AddActivationLinks | src/main/java/com/ocado/basket/BasketSplitter.java:132-137 | appends one constraint `-(n+1) y[j] + x[0][j] + ... + x[n-1][j] <= 0` per delivery type |
| BasketSplitting.BasketSplitter.AddForbidden | src/main/java/com/ocado/basket/BasketSplitter.java:139-146 | appends `0 <= x[i][j] <= 0` for every ineligible cell, row by row; with a non-empty catalog the first unknown item throws instead |
| BasketSplitting.BasketSplitter.BaseSolverWithVariables | src/main/java/com/ocado/basket/BasketSplitter.java:112-149 | the base constraints of the eligibility matrix, or the null dereference of `BaseFailure` |
| BasketSplitting.BaseFailure | src/main/java/com/ocado/basket/BasketSplitter.java:139-141 | the base constraints fail iff the catalog is non-empty and some basket item is not a key |
| BaseModel.ExactlyOneRowsMeaning | src/main/java/com/ocado/basket/BasketSplitter.java:125-130 | the first block holds iff every row of `x` has exactly one 1 |
| Routing.CountOne | src/main/java/com/ocado/basket/BasketSplitter.java:126-129 | a row sums to 1 iff exactly one of its entries is set |
| BaseModel.ActivationMeaning | src/main/java/com/ocado/basket/BasketSplitter.java:132-137 | with coefficient n+1, the link of delivery type j holds iff "some item uses j implies y[j]" |
| BaseModel.ActivationLinksMeaning | src/main/java/com/ocado/basket/BasketSplitter.java:132-137 | all links hold iff every used delivery type is switched on |
| BaseModel.ForbidAllMeaning | src/main/java/com/ocado/basket/BasketSplitter.java:139-146 | the third block holds iff no item is routed through a delivery type it is not eligible for |
| BaseModel.BaseMeaning | src/main/java/com/ocado/basket/BasketSplitter.java:112-149 | the base constraints hold of a 0/1 answer iff it routes every item through exactly one delivery type the item is eligible for and switches on every delivery type it uses |
| Routing.GroupCountBound | src/main/java/com/ocado/basket/BasketSplitter.java:132-137 | the number of delivery groups used is at most the number switched on |
| Routing.UsedActivated | src/main/java/com/ocado/basket/BasketSplitter.java:132-137 | switching on exactly the used delivery types satisfies every link |
| Routing.RoutingExists | src/main/java/com/ocado/basket/BasketSplitter.java:125-146 | an assignment satisfying the constraints exists iff every item is eligible for some catalog entry |
| Routing.RoutedOnceHolds | src/main/java/com/ocado/basket/BasketSplitter.java:125-146 | an assignment puts each item in the group of exactly one delivery type, one it is eligible for |
| BaseModel.Phase1Answers | src/main/java/com/ocado/basket/BasketSplitter.java:159-168 | every assignment with its used types switched on is a phase-1 answer whose objective is its group count; every phase-1 answer is an assignment using at most as many groups as its objective |
| BaseModel.Phase1Optimum | src/main/java/com/ocado/basket/BasketSplitter.java:165-174 | on an exact solver, phase 1 is OPTIMAL iff some assignment exists, and then its value is the least number of groups (`MinGroups`) |
| BasketSplitting.BasketSplitter.FirstSolution | src/main/java/com/ocado/basket/BasketSplitter.java:159-175 | the base constraints' null dereference; otherwise "Solution was not found" when the phase-1 solve is not OPTIMAL, and its objective value when it is |
| BasketSplitting.Phase1Outcome | src/main/java/com/ocado/basket/BasketSplitter.java:165-174 | on an exact solver, phase 1 is OPTIMAL iff every item may go by some catalog entry, and its value is then the least number of groups |
| BaseModel.Phase2Answers | src/main/java/com/ocado/basket/BasketSplitter.java:191-198 | every assignment with K groups is feasible for phase 2; every phase-2 answer is an assignment with at most K groups; the objective is the anchor's group size |
| BaseModel.Phase2Answer | src/main/java/com/ocado/basket/BasketSplitter.java:191-213 | on an exact solver pinned to the least K, phase 2 is OPTIMAL with an assignment of exactly K groups, and its value is the anchor's group size |
| BaseModel.Phase2Bound | src/main/java/com/ocado/basket/BasketSplitter.java:195-200 | no assignment with K groups gives the anchor more items than the phase-2 value |
| BasketSplitting.BasketSplitter.FindSolution | src/main/java/com/ocado/basket/BasketSplitter.java:184-214 | the null dereference of the base constraints, or `Solution(phase-2 value, Decode(phase-2 answer))` for the pinned program of that anchor |
| BasketSplitting.BasketSplitter.ReadAnswer | src/main/java/com/ocado/basket/BasketSplitter.java:202-211 | the map built by the nested loops is `Decode` of the answer over the whole catalog |
| Decoding.GroupItems | src/main/java/com/ocado/basket/BasketSplitter.java:204-208 | a delivery type's list is the items at the positions routed there, in basket order (positions strictly increasing), as long as the column |
| Decoding.DecodeAt | src/main/java/com/ocado/basket/BasketSplitter.java:202-211 | a catalog entry is a key iff its group is non-empty, and then it maps to that group |
| Decoding.DecodeKey | src/main/java/com/ocado/basket/BasketSplitter.java:209-210 | only catalog entries are keys |
| Decoding.DecodeSize | src/main/java/com/ocado/basket/BasketSplitter.java:202-211 | the map has one key per delivery group in use |
| Decoding.DecodedGroups | src/main/java/com/ocado/basket/BasketSplitter.java:202-211 | every key is a catalog entry with a non-empty list no longer than the largest group |
| Decoding.DecodedLists | src/main/java/com/ocado/basket/BasketSplitter.java:202-211 | every delivery type whose group is not empty is a key, and its list is the items at the positions routed there, in basket order |
| Decoding.DecodedCovers | src/main/java/com/ocado/basket/BasketSplitter.java:202-211 | under an assignment, every basket item is in the decoded list of a delivery type it may go by |
| Decoding.DecodedAssignment | src/main/java/com/ocado/basket/BasketSplitter.java:202-211 | decoding an assignment gives only non-empty lists keyed by catalog entries, one key per group; the list of each used delivery type is exactly the items routed there, in basket order (`ListsAreGroups`); every item is in the list of a type it may go by (`EveryItemListed`), and each basket position is routed through exactly one type (`RoutedOnce`); a longest list is as long as the largest group |
| BasketSplitting.AnchorOptimum | src/main/java/com/ocado/basket/BasketSplitter.java:184-214 | on an exact solver pinned to the least K, a candidate decodes an assignment with K groups into K lists; `maxItems` is the length of the anchor's list (absent when 0), and no K-group assignment gives the anchor more |
| BaseModel.LargestGroupEligible | src/main/java/com/ocado/basket/BasketSplitter.java:52 | the largest group of an assignment of a non-empty basket belongs to a delivery type some item may go by, so skipping the others loses nothing |
| BaseModel.SelectionOptimal | src/main/java/com/ocado/basket/BasketSplitter.java:50-56 | pinned to the least K, the phase-2 answer of an anchor scoring at least every eligible anchor is a best split (`LexOptimal`) |
| BasketSplitting.LeadsFirst | src/main/java/com/ocado/basket/BasketSplitter.java:54 | the first evaluated candidate is kept |
| BasketSplitting.LeadsOvertaken | src/main/java/com/ocado/basket/BasketSplitter.java:54 | a candidate scoring strictly more replaces the kept one and scores more than every earlier one |
| BasketSplitting.LeadsUnique | src/main/java/com/ocado/basket/BasketSplitter.java:50-56 | the selection rule keeps a single delivery type: two leaders over the whole catalog are the same entry |
| BasketSplitting.LeadsExtend | src/main/java/com/ocado/basket/BasketSplitter.java:52-54 | a skipped delivery type, or a candidate scoring no more (a tie included), leaves the kept one in place |
| BasketSplitting.BasketSplitter.SelectSolution | src/main/java/com/ocado/basket/BasketSplitter.java:50-56 | nothing iff no catalog entry serves the basket; otherwise the candidate of an anchor that serves it, scores at least every serving anchor, and scores strictly more than every serving anchor before it |
| BasketSplitting.BasketSplitter.Split | src/main/java/com/ocado/basket/BasketSplitter.java:46-62 | `SplitOutcome`: the base null dereference; "Solution was not found" if phase 1 is not OPTIMAL; the lookup's null dereference; "No solution was found" iff no catalog entry serves the basket; otherwise the map of the selected anchor's candidate |
| BasketSplitting.ServedWhenRoutable | src/main/java/com/ocado/basket/BasketSplitter.java:58-59 | when every item may go by some catalog entry, a non-empty basket is served by some entry |
| BasketSplitting.SplitOptimal | src/main/java/com/ocado/basket/BasketSplitter.java:50-61 | on an exact solver, the selected anchor's map is the decoding of a best split |
| BasketSplitting.SplitOnExactSolver | src/main/java/com/ocado/basket/BasketSplitter.java:46-62 | on an exact solver: a null dereference iff the base constraints meet an unknown item; "Solution was not found" iff some item may go by no catalog entry; "No solution was found" iff the basket is empty; a split iff every item is known, may go by some catalog entry and the basket is non-empty, and then the decoding of a best split |
| BasketSplitting.BestSplitShape | src/test/java/com/ocado/basket/BasketSplitterTest.java:79-85 | the decoding of a best split has as many keys as the least number of groups; its lists are the routed groups, every item is in the list of a type it may go by, each position in exactly one; and its longest list is as long as the largest group any split with that many groups can have (`LongestUnbeaten`) |

## Left out

- Reading the configuration and the basket from JSON files (`readConfig`, `readItems`) is not
  modelled. Loading the native library is not modelled either. The table is a constructor
  parameter and the basket a method parameter.
- The solver itself (OR-Tools `MPSolver`, a native library) is a function parameter. The
  optimality and decoding properties hold under the stated `ExactSolver` assumption. Solver time
  limits and the BOP problem-type choice are not modelled.
- Solver variables and constraint objects (`MPVariable`, `SolverWithVariables`, the constraint
  names) are not modelled. A variable is the value `X(i, j)` or `Y(j)`, and a program is the list
  of its constraints.
- Floating point is not modelled:
  - a solution value of 1.0 is read as `true`;
  - `(int) objective.value()` is the exact integer objective;
  - the lower bound `Double.NEGATIVE_INFINITY` is `NegInf`.
- Hash iteration order is an input. The table is given as its entries in `HashMap` iteration order,
  and each set as its elements in `HashSet` iteration order. The result map's own iteration order
  is not modelled; it is a Dafny `map`.
- BasketSplitting.BasketSplitter.FindSolution: requires `anchor < |deliveries|`. The only caller
  passes catalog indices (line 53). A larger index would be an array-bounds exception at line 197
  when the basket is non-empty.
- BasketSplitting.BasketSplitter.FirstSolution: its own contract only ties the result to the
  phase-1 solve. What that value means on an exact solver is `Phase1Outcome`.
- `Solution` is the datatype `BasketSplitting.Solution` with the same two fields. It has no
  behaviour of its own.
- The `SolutionNotFoundException` class is the `Failure.SolutionNotFound(message)` value.
