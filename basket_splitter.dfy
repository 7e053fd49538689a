/** The basket splitter: it sends every item of a basket by one delivery type the item may go by,
    using as few delivery types as possible and, among those splits, making the largest group as
    large as possible. Both optimisations are handed to an integer-programming solver, given here
    as a function from programs to responses. */
module BasketSplitting {
  import opened LinearProgram
  import opened Routing
  import opened BaseModel
  import opened DeliveryCatalog
  import opened Decoding
  import opened EligibilityTable

  /** The exceptions a split can end in: a null dereference for an item that is not a key of the
      table, or a `SolutionNotFoundException` with its message. */
  datatype Failure = NullPointer(item: Item) | SolutionNotFound(message: string)

  datatype Result<T> = Ok(value: T) | Err(error: Failure)

  /** The size of the anchor's group and the split found with it. */
  datatype Solution = Solution(maxItems: int, deliveryToListOfItems: map<Delivery, seq<Item>>)

  /** The base constraints fail on the first item that is not a key, at its first cell; with an
      empty catalog there is no cell and no failure. */
  function BaseFailure(table: seq<Entry>, catalog: seq<Delivery>, items: seq<Item>): (r: Option<Item>)
    ensures r.Some? <==> |catalog| > 0 && exists i :: 0 <= i < |items| && !Known(table, items[i])
  {
    match FirstUnknown(table, items)
    case Some(i) => if |catalog| > 0 then Some(items[i]) else None
    case None => None
  }

  /** What the phase-2 solve for an anchor yields. */
  function Candidate(solver: Program -> Response, table: seq<Entry>, catalog: seq<Delivery>,
                     items: seq<Item>, k: int, anchor: nat): Solution
  {
    var r := solver(Phase2(Eligibility(table, catalog, items), |catalog|, k, anchor));
    Solution(r.value, Decode(r.x, items, catalog, |catalog|))
  }

  /** The selection rule over the first `upto` catalog entries: `best` serves the basket, no
      entry that serves it scores more, and every one before `best` scores less. */
  predicate Leads(solver: Program -> Response, table: seq<Entry>, catalog: seq<Delivery>,
                  items: seq<Item>, k: int, best: nat, upto: nat)
    requires upto <= |catalog|
  {
    && best < upto
    && Serves(table, items, catalog[best])
    && forall j :: 0 <= j < upto && Serves(table, items, catalog[j]) ==>
         && Candidate(solver, table, catalog, items, k, j).maxItems <= Candidate(solver, table, catalog, items, k, best).maxItems
         && (j < best ==> Candidate(solver, table, catalog, items, k, j).maxItems < Candidate(solver, table, catalog, items, k, best).maxItems)
  }

  /** The selection rule picks at most one delivery type: two leaders over the whole catalog
      are the same entry. */
  lemma LeadsUnique(solver: Program -> Response, table: seq<Entry>, catalog: seq<Delivery>,
                    items: seq<Item>, k: int, b1: nat, b2: nat)
    requires Leads(solver, table, catalog, items, k, b1, |catalog|)
    requires Leads(solver, table, catalog, items, k, b2, |catalog|)
    ensures b1 == b2
  {
  }

  /** Phase 1 on an exact solver: it is solved to OPTIMAL exactly when every item may go by some
      catalog entry, and then it reports the least number of delivery groups. */
  lemma Phase1Outcome(solver: Program -> Response, table: seq<Entry>, catalog: seq<Delivery>, items: seq<Item>)
    requires ExactSolver(solver)
    ensures var elig := Eligibility(table, catalog, items);
            var answer := solver(Phase1(elig, |catalog|));
            && (answer.status == Optimal <==> Routable(table, catalog, items))
            && (answer.status == Optimal ==> MinGroups(elig, |catalog|, answer.value))
  {
    var elig := Eligibility(table, catalog, items);
    Phase1Optimum(solver, elig, |catalog|);
    RoutingExists(elig, |catalog|);
    RoutableRows(table, catalog, items);
  }

  /** When every item may go by some catalog entry, some entry serves a non-empty basket. */
  lemma ServedWhenRoutable(table: seq<Entry>, catalog: seq<Delivery>, items: seq<Item>)
    requires Routable(table, catalog, items) && |items| > 0
    ensures exists j :: 0 <= j < |catalog| && Serves(table, items, catalog[j])
  {
    assert HasRoute(table, catalog, items[0]);
  }

  /** A catalog entry serves the basket exactly when some item is eligible for it. */
  lemma ServesEligible(table: seq<Entry>, catalog: seq<Delivery>, items: seq<Item>, j: nat)
    requires j < |catalog|
    ensures Serves(table, items, catalog[j]) <==> Eligible(Eligibility(table, catalog, items), j)
  {
    ServesColumn(table, catalog, items, j);
  }

  /** Phase 2 for one anchor on an exact solver, pinned to the least number of groups `k`: the
      split has `k` lists, it is the decoding of a routing with `k` groups, `maxItems` is the
      length of the anchor's list (absent when empty), and no routing with `k` groups gives the
      anchor more items. */
  lemma AnchorOptimum(solver: Program -> Response, table: seq<Entry>, catalog: seq<Delivery>,
                      items: seq<Item>, k: int, anchor: nat)
    requires ExactSolver(solver) && NoDuplicates(catalog) && anchor < |catalog|
    requires MinGroups(Eligibility(table, catalog, items), |catalog|, k)
    ensures var elig, m := Eligibility(table, catalog, items), |catalog|;
            var c := Candidate(solver, table, catalog, items, k, anchor);
            var groups := c.deliveryToListOfItems;
            && (exists x :: Routes(elig, x, m) && GroupCount(x, |items|, m) == k && groups == Decode(x, items, catalog, m))
            && |groups| == k
            && (catalog[anchor] in groups <==> c.maxItems > 0)
            && (catalog[anchor] in groups ==> |groups[catalog[anchor]]| == c.maxItems)
            && forall x :: Routes(elig, x, m) && GroupCount(x, |items|, m) == k ==>
                 |Column(x, anchor, |items|)| <= c.maxItems
  {
    var elig, m := Eligibility(table, catalog, items), |catalog|;
    var x := solver(Phase2(elig, m, k, anchor)).x;
    Phase2Answer(solver, elig, m, k, anchor);
    DecodeAt(x, items, catalog, m, anchor);
    GroupItems(x, items, anchor);
    DecodeSize(x, items, catalog, m);
    forall x' | Routes(elig, x', m) && GroupCount(x', |items|, m) == k
      ensures |Column(x', anchor, |items|)| <= Candidate(solver, table, catalog, items, k, anchor).maxItems
    {
      Phase2Bound(solver, elig, m, k, anchor, x');
    }
  }

  /** The selection rule on an exact solver, pinned to the least number of groups, picks the
      decoding of a best split. */
  lemma SplitOptimal(solver: Program -> Response, table: seq<Entry>, catalog: seq<Delivery>,
                     items: seq<Item>, k: int, best: nat)
    requires ExactSolver(solver) && MinGroups(Eligibility(table, catalog, items), |catalog|, k)
    requires Leads(solver, table, catalog, items, k, best, |catalog|)
    ensures exists x :: LexOptimal(Eligibility(table, catalog, items), |catalog|, x) &&
                        Candidate(solver, table, catalog, items, k, best).deliveryToListOfItems ==
                        Decode(x, items, catalog, |catalog|)
  {
    var elig, m := Eligibility(table, catalog, items), |catalog|;
    forall j | 0 <= j < m && Eligible(elig, j)
      ensures solver(Phase2(elig, m, k, j)).value <= solver(Phase2(elig, m, k, best)).value
    {
      ServesEligible(table, catalog, items, j);
    }
    ServesEligible(table, catalog, items, best);
    SelectionOptimal(solver, elig, m, k, best);
  }

  /** `groups[d]` is a longest list of the map, and no routing with as many delivery groups as
      the map has keys has a larger group. */
  ghost predicate LongestUnbeaten(elig: seq<seq<bool>>, m: nat, n: nat, groups: map<Delivery, seq<Item>>, d: Delivery)
  {
    && d in groups
    && (forall e :: e in groups ==> |groups[e]| <= |groups[d]|)
    && forall x' :: Routes(elig, x', m) && GroupCount(x', n, m) == |groups| ==> MaxGroup(x', n, m) <= |groups[d]|
  }

  /** What a best split looks like as a map: as many lists as the least number of delivery
      groups, every item in exactly one list of a delivery type it may go by, and a longest list
      that no split with that many groups can beat. */
  lemma BestSplitShape(table: seq<Entry>, catalog: seq<Delivery>, items: seq<Item>, x: seq<seq<bool>>)
    requires NoDuplicates(catalog) && |items| > 0
    requires LexOptimal(Eligibility(table, catalog, items), |catalog|, x)
    ensures var elig, m := Eligibility(table, catalog, items), |catalog|;
            var groups := Decode(x, items, catalog, m);
            && MinGroups(elig, m, |groups|)
            && (forall d :: d in groups ==> d in catalog && groups[d] != [])
            && (forall i :: 0 <= i < |items| ==> RoutedOnce(elig, x, m, i))
            && ListsAreGroups(x, items, catalog, groups)
            && EveryItemListed(elig, items, catalog, groups)
            && exists d :: LongestUnbeaten(elig, m, |items|, groups, d)
  {
    var elig, m, n := Eligibility(table, catalog, items), |catalog|, |items|;
    var groups := Decode(x, items, catalog, m);
    DecodedAssignment(elig, x, items, catalog);
    var d :| d in groups && |groups[d]| == MaxGroup(x, n, m);
    assert |elig| == n;
    assert |groups| == GroupCount(x, n, m);
    forall x' | Routes(elig, x', m) && GroupCount(x', n, m) == |groups|
      ensures MaxGroup(x', n, m) <= |groups[d]|
    {
      assert GroupCount(x', |elig|, m) == GroupCount(x, |elig|, m);
    }
    assert LongestUnbeaten(elig, m, n, groups, d);
  }

  /** A catalog entry that does not serve the basket, or scores no more than the leader, leaves
      the leader in place. */
  lemma LeadsExtend(solver: Program -> Response, table: seq<Entry>, catalog: seq<Delivery>,
                    items: seq<Item>, k: int, best: nat, j: nat)
    requires j < |catalog| && Leads(solver, table, catalog, items, k, best, j)
    requires Serves(table, items, catalog[j]) ==>
               Candidate(solver, table, catalog, items, k, j).maxItems <= Candidate(solver, table, catalog, items, k, best).maxItems
    ensures Leads(solver, table, catalog, items, k, best, j + 1)
  {
  }

  /** The first catalog entry that serves the basket leads. */
  lemma LeadsFirst(solver: Program -> Response, table: seq<Entry>, catalog: seq<Delivery>,
                   items: seq<Item>, k: int, j: nat)
    requires j < |catalog| && Serves(table, items, catalog[j])
    requires forall j' :: 0 <= j' < j ==> !Serves(table, items, catalog[j'])
    ensures Leads(solver, table, catalog, items, k, j, j + 1)
  {
  }

  /** An entry that scores strictly more than the leader takes over. */
  lemma LeadsOvertaken(solver: Program -> Response, table: seq<Entry>, catalog: seq<Delivery>,
                       items: seq<Item>, k: int, best: nat, j: nat)
    requires j < |catalog| && Serves(table, items, catalog[j])
    requires Leads(solver, table, catalog, items, k, best, j)
    requires Candidate(solver, table, catalog, items, k, j).maxItems > Candidate(solver, table, catalog, items, k, best).maxItems
    ensures Leads(solver, table, catalog, items, k, j, j + 1)
  {
  }

  /** How a split ends, case by case: the null dereference of the base constraints, a phase 1
      that is not OPTIMAL, the null dereference of the delivery-type lookup (reached only with an
      empty catalog), no delivery type serving the basket, or the split of the selected anchor. */
  ghost predicate SplitOutcome(solver: Program -> Response, table: seq<Entry>, catalog: seq<Delivery>,
                               items: seq<Item>, r: Result<map<Delivery, seq<Item>>>)
  {
    var answer := solver(Phase1(Eligibility(table, catalog, items), |catalog|));
    match BaseFailure(table, catalog, items)
    case Some(item) => r == Err(NullPointer(item))
    case None =>
      if answer.status != Optimal then r == Err(SolutionNotFound("Solution was not found"))
      else match FirstUnknown(table, items)
        case Some(i) => r == Err(NullPointer(items[i]))
        case None =>
          if forall j :: 0 <= j < |catalog| ==> !Serves(table, items, catalog[j]) then
            r == Err(SolutionNotFound("No solution was found"))
          else
            && r.Ok?
            && exists best :: Leads(solver, table, catalog, items, answer.value, best, |catalog|) &&
                              r.value == Candidate(solver, table, catalog, items, answer.value, best).deliveryToListOfItems
  }

  /** A split on an exact solver: a null dereference exactly when the base constraints meet an
      unknown item, "Solution was not found" exactly when some item may go by no delivery type,
      "No solution was found" exactly for the empty basket, and a split exactly when none of these
      applies, which is then the decoding of a best split. */
  lemma SplitOnExactSolver(solver: Program -> Response, table: seq<Entry>, catalog: seq<Delivery>,
                           items: seq<Item>, r: Result<map<Delivery, seq<Item>>>)
    requires ExactSolver(solver) && SplitOutcome(solver, table, catalog, items, r)
    ensures r.Err? && r.error.NullPointer? <==> BaseFailure(table, catalog, items).Some?
    ensures r == Err(SolutionNotFound("Solution was not found")) <==>
            BaseFailure(table, catalog, items).None? && !Routable(table, catalog, items)
    ensures r == Err(SolutionNotFound("No solution was found")) <==> |items| == 0
    ensures r.Ok? <==> BaseFailure(table, catalog, items).None? && Routable(table, catalog, items) && |items| > 0
    ensures r.Ok? ==>
              exists x :: LexOptimal(Eligibility(table, catalog, items), |catalog|, x) &&
                          r.value == Decode(x, items, catalog, |catalog|)
  {
    var elig := Eligibility(table, catalog, items);
    var answer := solver(Phase1(elig, |catalog|));
    Phase1Outcome(solver, table, catalog, items);
    if Routable(table, catalog, items) {
      forall i | 0 <= i < |items| ensures Known(table, items[i]) {
        assert HasRoute(table, catalog, items[i]);
      }
      if |items| > 0 {
        ServedWhenRoutable(table, catalog, items);
      }
    }
    if r.Ok? {
      var best :| Leads(solver, table, catalog, items, answer.value, best, |catalog|) &&
                  r.value == Candidate(solver, table, catalog, items, answer.value, best).deliveryToListOfItems;
      SplitOptimal(solver, table, catalog, items, answer.value, best);
    }
  }

  // Steps of the catalog scan

  lemma ScanStart(start: seq<Delivery>, table: seq<Entry>)
    requires NoDuplicates(start)
    ensures start == Catalog(start + Flatten(table[..0]))
  {
    CatalogOfDistinct(start);
    assert start + Flatten(table[..0]) == start;
  }

  lemma ScanDelivery(before: seq<Delivery>, ds: seq<Delivery>, u: nat)
    requires u < |ds|
    ensures var c := Catalog(before + ds[..u]);
            Catalog(before + ds[..u + 1]) == if ds[u] in c then c else c + [ds[u]]
  {
    CatalogSnoc(before + ds[..u], ds[u]);
    assert before + ds[..u + 1] == before + ds[..u] + [ds[u]];
  }

  lemma ScanEntry(start: seq<Delivery>, table: seq<Entry>, t: nat)
    requires t < |table|
    ensures start + Flatten(table[..t]) + table[t].deliveries == start + Flatten(table[..t + 1])
  {
    FlattenSnoc(table, t);
  }

  /** The first block of the base constraints: every item goes by exactly one delivery type. */
  method AddExactlyOneRows(n: nat, m: nat) returns (cs: seq<Constraint>)
    ensures cs == ExactlyOneRows(n, m)
  {
    cs := [];
    for i := 0 to n
      invariant cs == ExactlyOneRows(i, m)
    {
      var terms: seq<Term> := [];
      for j := 0 to m
        invariant terms == RowTerms(i, j)
      {
        terms := terms + [Term(X(i, j), 1)];
      }
      cs := cs + [Constraint(AtLeast(1), 1, terms)];
    }
  }

  /** The second block: every delivery type that carries an item is switched on. */
  method AddActivationLinks(rows: seq<Constraint>, n: nat, m: nat) returns (cs: seq<Constraint>)
    ensures cs == rows + ActivationLinks(n, m)
  {
    cs := rows;
    for j := 0 to m
      invariant cs == rows + ActivationLinks(n, j)
    {
      var terms: seq<Term> := [Term(Y(j), -1 * (n + 1))];
      for i := 0 to n
        invariant terms == [Term(Y(j), -(n + 1))] + ColTerms(j, i)
      {
        terms := terms + [Term(X(i, j), 1)];
      }
      cs := cs + [Constraint(NegInf, 0, terms)];
    }
  }

  class BasketSplitter {
    /** The eligibility table read from the configuration. */
    const table: seq<Entry>
    /** The delivery catalog. */
    var deliveries: seq<Delivery>

    /** The table has distinct keys, as a hash map does, and the catalog is the first-seen
        deduplication of its delivery types, so it has no duplicates either. */
    ghost predicate Valid()
      reads this
    {
      && DistinctKeys(table)
      && deliveries == Catalog(Flatten(table))
      && NoDuplicates(deliveries)
    }

    constructor (table: seq<Entry>)
      requires DistinctKeys(table)
      ensures this.table == table && Valid()
    {
      this.table := table;
      deliveries := [];
      new;
      FillHelperField();
      assert [] + Flatten(table) == Flatten(table);
      CatalogDistinct(Flatten(table));
    }

    /** Appends every delivery type of the table that is not in the catalog yet. */
    method FillHelperField()
      modifies this
      requires NoDuplicates(deliveries)
      ensures deliveries == Catalog(old(deliveries) + Flatten(table))
    {
      ghost var start := deliveries;
      ScanStart(start, table);
      var t := 0;
      while t < |table|
        invariant 0 <= t <= |table|
        invariant deliveries == Catalog(start + Flatten(table[..t]))
      {
        AddUnseen(start + Flatten(table[..t]), table[t].deliveries);
        ScanEntry(start, table, t);
        t := t + 1;
      }
      assert table[..t] == table;
    }

    /** The inner loop of the scan: appends each delivery type of one entry's set that is not in
        the catalog yet. */
    method AddUnseen(ghost before: seq<Delivery>, ds: seq<Delivery>)
      modifies this
      requires deliveries == Catalog(before)
      ensures deliveries == Catalog(before + ds)
    {
      var u := 0;
      assert before + ds[..0] == before;
      while u < |ds|
        invariant 0 <= u <= |ds|
        invariant deliveries == Catalog(before + ds[..u])
      {
        ScanDelivery(before, ds, u);
        if ds[u] !in deliveries {
          deliveries := deliveries + [ds[u]];
        }
        u := u + 1;
      }
      assert ds[..u] == ds;
    }

    /** The delivery types some basket item may go by; a null dereference on the first item
        that is not a key. */
    method GetSubsetOfDeliveryTypes(items: seq<Item>) returns (r: Result<set<Delivery>>)
      requires Valid()
      ensures r.Err? <==> FirstUnknown(table, items).Some?
      ensures r.Err? ==> r.error == NullPointer(items[FirstUnknown(table, items).value])
      ensures r.Ok? ==> forall d :: d in r.value <==> Serves(table, items, d)
      ensures r.Ok? ==> forall d :: d in r.value ==> d in deliveries
    {
      CatalogMembers(Flatten(table));
      var result: set<Delivery> := {};
      for i := 0 to |items|
        invariant forall k :: 0 <= k < i ==> Known(table, items[k])
        invariant forall d :: d in result <==> exists k :: 0 <= k < i && MayGo(table, items[k], d)
        invariant forall d :: d in result ==> d in deliveries
      {
        var ds := Lookup(table, items[i]);
        if ds.None? {
          return Err(NullPointer(items[i]));
        }
        forall d | d in ds.value ensures d in deliveries {
          MayGoFlatten(table, items[i], d);
        }
        result := result + (set d | d in ds.value);
      }
      return Ok(result);
    }

    /** The base constraints of both phases, added in the program's order: one "exactly one
        delivery type" row per item, one activation link per delivery type, and one "not this
        one" per ineligible cell, looked up item by item. */
    method BaseSolverWithVariables(items: seq<Item>) returns (r: Result<seq<Constraint>>)
      ensures r == match BaseFailure(table, deliveries, items)
                   case Some(item) => Err(NullPointer(item))
                   case None => Ok(BaseConstraints(Eligibility(table, deliveries, items), |deliveries|))
    {
      var n, m := |items|, |deliveries|;
      var cs := AddExactlyOneRows(n, m);
      cs := AddActivationLinks(cs, n, m);
      r := AddForbidden(cs, items);
    }

    /** The third block of the base constraints: a "not this one" for every catalog entry an
        item may not go by, item by item; the lookup of an unknown item fails at its first
        cell. */
    method AddForbidden(links: seq<Constraint>, items: seq<Item>) returns (r: Result<seq<Constraint>>)
      ensures r == match BaseFailure(table, deliveries, items)
                   case Some(item) => Err(NullPointer(item))
                   case None => Ok(links + ForbidAll(Eligibility(table, deliveries, items)))
    {
      var n, m := |items|, |deliveries|;
      ghost var elig := Eligibility(table, deliveries, items);
      var cs := links;
      assert elig[..0] == [];
      for i := 0 to n
        invariant cs == links + ForbidAll(elig[..i])
        invariant m > 0 ==> FirstUnknown(table, items).None? || FirstUnknown(table, items).value >= i
      {
        ghost var pre := cs;
        assert pre + ForbidRow(i, elig[i][..0]) == pre;
        for j := 0 to m
          invariant cs == pre + ForbidRow(i, elig[i][..j])
          invariant j > 0 ==> Known(table, items[i])
        {
          var ds := Lookup(table, items[i]);
          if ds.None? {
            FirstUnknownAt(table, items, i);
            return Err(NullPointer(items[i]));
          }
          EligibilityAt(table, deliveries, items, i, j);
          ForbidRowStep(pre, i, elig[i], j);
          if deliveries[j] !in ds.value {
            cs := cs + [Constraint(AtLeast(0), 0, [Term(X(i, j), 1)])];
          }
        }
        if m > 0 {
          FirstUnknownPast(table, items, i);
        }
        ForbidAllStep(links, elig, i);
      }
      assert elig[..n] == elig;
      return Ok(cs);
    }

    /** Phase 1: the least number of delivery types, as the solver reports it. The base
        constraints fail first on an unknown item; a solve that is not OPTIMAL ends the split. */
    method FirstSolution(items: seq<Item>, solver: Program -> Response) returns (r: Result<int>)
      ensures var answer := solver(Phase1(Eligibility(table, deliveries, items), |deliveries|));
              r == match BaseFailure(table, deliveries, items)
                   case Some(item) => Err(NullPointer(item))
                   case None => if answer.status == Optimal then Ok(answer.value)
                                else Err(SolutionNotFound("Solution was not found"))
    {
      var m := |deliveries|;
      var base := BaseSolverWithVariables(items);
      if base.Err? {
        return Err(base.error);
      }
      var objective: seq<Term> := [];
      for j := 0 to m
        invariant objective == YTerms(j)
      {
        objective := objective + [Term(Y(j), 1)];
      }
      var answer := solver(Program(|items|, m, base.value, objective, Minimize));
      if answer.status != Optimal {
        return Err(SolutionNotFound("Solution was not found"));
      }
      return Ok(answer.value);
    }

    /** Phase 2 for one anchor: pin the number of delivery types to `k`, maximise the anchor's
        group, and read the answer back, delivery type by delivery type, as the non-empty lists
        of the items routed there in basket order. The status of the solve is not looked at. */
    method FindSolution(k: int, anchor: nat, items: seq<Item>, solver: Program -> Response)
      returns (r: Result<Solution>)
      requires anchor < |deliveries|
      ensures r == match BaseFailure(table, deliveries, items)
                   case Some(item) => Err(NullPointer(item))
                   case None => Ok(Candidate(solver, table, deliveries, items, k, anchor))
    {
      var n, m := |items|, |deliveries|;
      var base := BaseSolverWithVariables(items);
      if base.Err? {
        return Err(base.error);
      }
      var pin: seq<Term> := [];
      for j := 0 to m
        invariant pin == YTerms(j)
      {
        pin := pin + [Term(Y(j), 1)];
      }
      var objective: seq<Term> := [];
      for i := 0 to n
        invariant objective == ColTerms(anchor, i)
      {
        objective := objective + [Term(X(i, anchor), 1)];
      }
      ghost var elig := Eligibility(table, deliveries, items);
      assert Program(n, m, base.value + [Constraint(AtLeast(k), k, pin)], objective, Maximize) == Phase2(elig, m, k, anchor);
      var answer := solver(Program(n, m, base.value + [Constraint(AtLeast(k), k, pin)], objective, Maximize));
      var groups := ReadAnswer(answer.x, items);
      return Ok(Solution(answer.value, groups));
    }

    /** The answer read back delivery type by delivery type: the items whose cell is 1, in
        basket order, under the delivery type's name when there is at least one. */
    method ReadAnswer(x: seq<seq<bool>>, items: seq<Item>) returns (groups: map<Delivery, seq<Item>>)
      ensures groups == Decode(x, items, deliveries, |deliveries|)
    {
      var n, m := |items|, |deliveries|;
      groups := map[];
      for j := 0 to m
        invariant groups == Decode(x, items, deliveries, j)
      {
        var list: seq<Item> := [];
        for i := 0 to n
          invariant list == Gather(x, items, j, i)
        {
          if Cell(x, i, j) {
            list := list + [items[i]];
          }
        }
        DecodeStep(x, items, deliveries, j, list);
        if list != [] {
          groups := groups[deliveries[j] := list];
        }
      }
    }

    /** The selection loop: one phase-2 solve per delivery type the basket can use, in catalog
        order, keeping a candidate only when its anchor's group is strictly larger than the
        one kept so far; nothing when no delivery type serves the basket. */
    method SelectSolution(k: int, relevant: set<Delivery>, items: seq<Item>, solver: Program -> Response)
      returns (solution: Option<Solution>, ghost best: nat)
      requires FirstUnknown(table, items).None?
      requires forall d :: d in relevant <==> Serves(table, items, d)
      ensures solution.None? <==> forall j :: 0 <= j < |deliveries| ==> !Serves(table, items, deliveries[j])
      ensures solution.Some? ==> Leads(solver, table, deliveries, items, k, best, |deliveries|) &&
                                 solution.value == Candidate(solver, table, deliveries, items, k, best)
    {
      solution := None;
      best := 0;
      for j := 0 to |deliveries|
        invariant solution.None? ==> forall j' :: 0 <= j' < j ==> deliveries[j'] !in relevant
        invariant solution.Some? ==> Leads(solver, table, deliveries, items, k, best, j) &&
                                     solution.value == Candidate(solver, table, deliveries, items, k, best)
      {
        if deliveries[j] in relevant {
          var s := FindSolution(k, j, items, solver);
          assert s.Ok?;
          if solution.None? || s.value.maxItems > solution.value.maxItems {
            if solution.None? {
              LeadsFirst(solver, table, deliveries, items, k, j);
            } else {
              LeadsOvertaken(solver, table, deliveries, items, k, best, j);
            }
            solution := Some(s.value);
            best := j;
          } else {
            LeadsExtend(solver, table, deliveries, items, k, best, j);
          }
        } else if solution.Some? {
          LeadsExtend(solver, table, deliveries, items, k, best, j);
        }
      }
    }

    /** The split: phase 1, the delivery types the basket can use, the selection loop, and
        "No solution was found" when it selected nothing. */
    method Split(items: seq<Item>, solver: Program -> Response) returns (r: Result<map<Delivery, seq<Item>>>)
      requires Valid()
      ensures SplitOutcome(solver, table, deliveries, items, r)
    {
      var first := FirstSolution(items, solver);
      if first.Err? {
        return Err(first.error);
      }
      var subset := GetSubsetOfDeliveryTypes(items);
      if subset.Err? {
        return Err(subset.error);
      }
      var solution, best := SelectSolution(first.value, subset.value, items, solver);
      if solution.None? {
        return Err(SolutionNotFound("No solution was found"));
      }
      return Ok(solution.value.deliveryToListOfItems);
    }
  }
}
