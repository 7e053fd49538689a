/** The integer programs the basket splitter builds: the base constraints shared by both
    phases, the phase-1 program that minimises the number of delivery groups, and the
    phase-2 program that pins that number and maximises one anchor's group. */
module BaseModel {
  import opened LinearProgram
  import opened Routing

  /** x[i][0] + ... + x[i][m-1], coefficients 1. */
  function RowTerms(i: nat, m: nat): seq<Term>
  {
    if m == 0 then [] else RowTerms(i, m - 1) + [Term(X(i, m - 1), 1)]
  }

  /** x[0][j] + ... + x[n-1][j], coefficients 1. */
  function ColTerms(j: nat, n: nat): seq<Term>
  {
    if n == 0 then [] else ColTerms(j, n - 1) + [Term(X(n - 1, j), 1)]
  }

  /** y[0] + ... + y[m-1], coefficients 1. */
  function YTerms(m: nat): seq<Term>
  {
    if m == 0 then [] else YTerms(m - 1) + [Term(Y(m - 1), 1)]
  }

  /** Item `i` goes by exactly one delivery type: 1 <= sum_j x[i][j] <= 1. */
  function ExactlyOne(i: nat, m: nat): Constraint
  {
    Constraint(AtLeast(1), 1, RowTerms(i, m))
  }

  /** Big-M link: -(n+1) y[j] + sum_i x[i][j] <= 0. */
  function Activation(j: nat, n: nat): Constraint
  {
    Constraint(NegInf, 0, [Term(Y(j), -(n + 1))] + ColTerms(j, n))
  }

  /** Item `i` may not go by delivery type `j`: 0 <= x[i][j] <= 0. */
  function Forbid(i: nat, j: nat): Constraint
  {
    Constraint(AtLeast(0), 0, [Term(X(i, j), 1)])
  }

  /** The number of delivery groups is pinned to `k`: k <= sum_j y[j] <= k. */
  function Pin(k: int, m: nat): Constraint
  {
    Constraint(AtLeast(k), k, YTerms(m))
  }

  function ExactlyOneRows(n: nat, m: nat): seq<Constraint>
  {
    if n == 0 then [] else ExactlyOneRows(n - 1, m) + [ExactlyOne(n - 1, m)]
  }

  function ActivationLinks(n: nat, m: nat): seq<Constraint>
  {
    if m == 0 then [] else ActivationLinks(n, m - 1) + [Activation(m - 1, n)]
  }

  /** A `Forbid` for every ineligible cell of row `i`, in column order. */
  function ForbidRow(i: nat, row: seq<bool>): seq<Constraint>
  {
    if row == [] then []
    else ForbidRow(i, row[..|row| - 1]) + (if row[|row| - 1] then [] else [Forbid(i, |row| - 1)])
  }

  /** A `Forbid` for every ineligible cell, row by row. */
  function ForbidAll(elig: seq<seq<bool>>): seq<Constraint>
  {
    if elig == [] then []
    else ForbidAll(elig[..|elig| - 1]) + ForbidRow(|elig| - 1, elig[|elig| - 1])
  }

  /** One more cell of a row adds its `Forbid` when the cell is ineligible. */
  lemma ForbidRowStep(pre: seq<Constraint>, i: nat, row: seq<bool>, j: nat)
    requires j < |row|
    ensures pre + ForbidRow(i, row[..j + 1]) ==
            pre + ForbidRow(i, row[..j]) + if row[j] then [] else [Forbid(i, j)]
  {
    assert row[..j + 1][..j] == row[..j];
  }

  /** One more row adds the `Forbid`s of that row. */
  lemma ForbidAllStep(pre: seq<Constraint>, elig: seq<seq<bool>>, i: nat)
    requires i < |elig|
    ensures pre + ForbidAll(elig[..i]) + ForbidRow(i, elig[i][..|elig[i]|]) == pre + ForbidAll(elig[..i + 1])
  {
    assert elig[..i + 1][..i] == elig[..i];
    assert elig[i][..|elig[i]|] == elig[i];
  }

  /** The base constraints, in the order the splitter adds them. */
  function BaseConstraints(elig: seq<seq<bool>>, m: nat): seq<Constraint>
  {
    ExactlyOneRows(|elig|, m) + ActivationLinks(|elig|, m) + ForbidAll(elig)
  }

  /** Phase 1: minimise the number of delivery types switched on. */
  function Phase1(elig: seq<seq<bool>>, m: nat): Program
  {
    Program(|elig|, m, BaseConstraints(elig, m), YTerms(m), Minimize)
  }

  /** Phase 2: with the number of delivery types pinned to `k`, maximise the anchor's group. */
  function Phase2(elig: seq<seq<bool>>, m: nat, k: int, anchor: nat): Program
  {
    Program(|elig|, m, BaseConstraints(elig, m) + [Pin(k, m)], ColTerms(anchor, |elig|), Maximize)
  }

  // Sums of the term lists

  lemma {:induction false} RowTermsSum(i: nat, m: nat, x: seq<seq<bool>>, y: seq<bool>)
    requires i < |x| && m <= |x[i]|
    ensures LinSum(RowTerms(i, m), x, y) == Count(x[i][..m])
  {
    if m > 0 {
      RowTermsSum(i, m - 1, x, y);
      assert x[i][..m][..m - 1] == x[i][..m - 1];
    }
  }

  /** The phase-2 objective counts the anchor's group. */
  lemma {:induction false} ColTermsSum(j: nat, n: nat, x: seq<seq<bool>>, y: seq<bool>)
    ensures LinSum(ColTerms(j, n), x, y) == |Column(x, j, n)|
  {
    if n > 0 {
      ColTermsSum(j, n - 1, x, y);
    }
  }

  /** The phase-1 objective and the pin count the delivery types switched on. */
  lemma {:induction false} YTermsSum(m: nat, x: seq<seq<bool>>, y: seq<bool>)
    requires m <= |y|
    ensures LinSum(YTerms(m), x, y) == Count(y[..m])
  {
    if m > 0 {
      YTermsSum(m - 1, x, y);
      assert y[..m][..m - 1] == y[..m - 1];
    }
  }

  // What each group of constraints means

  lemma {:induction false} ExactlyOneRowsMeaning(n: nat, m: nat, x: seq<seq<bool>>, y: seq<bool>)
    requires n <= |x| && forall i :: 0 <= i < |x| ==> |x[i]| == m
    ensures AllHold(ExactlyOneRows(n, m), x, y) <==> forall i :: 0 <= i < n ==> Count(x[i]) == 1
  {
    if n > 0 {
      ExactlyOneRowsMeaning(n - 1, m, x, y);
      var c := ExactlyOne(n - 1, m);
      AllHoldAppend(ExactlyOneRows(n - 1, m), [c], x, y);
      assert AllHold([c], x, y) <==> Holds(c, x, y) by { assert [c][0] == c; }
      RowTermsSum(n - 1, m, x, y);
      assert x[n - 1][..m] == x[n - 1];
      assert Holds(c, x, y) <==> Count(x[n - 1]) == 1;
    }
  }

  /** With coefficient n+1 the link holds exactly when a used delivery type is switched on. */
  lemma ActivationMeaning(j: nat, x: seq<seq<bool>>, y: seq<bool>)
    ensures Holds(Activation(j, |x|), x, y) <==> (Column(x, j, |x|) != [] ==> j < |y| && y[j])
  {
    var n := |x|;
    ActivationSum(j, x, y);
    assert |Column(x, j, n)| <= n;
    assert |Column(x, j, n)| == 0 <==> Column(x, j, n) == [];
  }

  /** The link's sum: -(n+1) if the delivery type is switched on, plus the size of its group. */
  lemma ActivationSum(j: nat, x: seq<seq<bool>>, y: seq<bool>)
    ensures LinSum(Activation(j, |x|).terms, x, y) == (if j < |y| && y[j] then -(|x| + 1) else 0) + |Column(x, j, |x|)|
  {
    var t := [Term(Y(j), -(|x| + 1))];
    LinSumAppend(t, ColTerms(j, |x|), x, y);
    ColTermsSum(j, |x|, x, y);
    assert t[..0] == [];
  }

  lemma {:induction false} ActivationLinksAt(n: nat, m: nat)
    ensures |ActivationLinks(n, m)| == m
    ensures forall j :: 0 <= j < m ==> ActivationLinks(n, m)[j] == Activation(j, n)
  {
    if m > 0 {
      ActivationLinksAt(n, m - 1);
    }
  }

  lemma ActivationLinksMeaning(m: nat, x: seq<seq<bool>>, y: seq<bool>)
    requires m <= |y|
    ensures AllHold(ActivationLinks(|x|, m), x, y) <==>
            forall j :: 0 <= j < m && Column(x, j, |x|) != [] ==> y[j]
  {
    var links := ActivationLinks(|x|, m);
    ActivationLinksAt(|x|, m);
    forall j | 0 <= j < m
      ensures Holds(links[j], x, y) <==> (Column(x, j, |x|) != [] ==> y[j])
    {
      ActivationMeaning(j, x, y);
    }
  }

  lemma ForbidMeaning(i: nat, j: nat, x: seq<seq<bool>>, y: seq<bool>)
    ensures Holds(Forbid(i, j), x, y) <==> !Cell(x, i, j)
  {
    var t := [Term(X(i, j), 1)];
    assert t[..0] == [];
    assert LinSum(t, x, y) == if Cell(x, i, j) then 1 else 0;
  }

  lemma {:induction false} ForbidRowMeaning(i: nat, row: seq<bool>, x: seq<seq<bool>>, y: seq<bool>)
    ensures AllHold(ForbidRow(i, row), x, y) <==>
            forall j :: 0 <= j < |row| && !row[j] ==> !Cell(x, i, j)
  {
    if row != [] {
      var p := row[..|row| - 1];
      var last := if row[|row| - 1] then [] else [Forbid(i, |row| - 1)];
      ForbidRowMeaning(i, p, x, y);
      AllHoldAppend(ForbidRow(i, p), last, x, y);
      ForbidMeaning(i, |row| - 1, x, y);
      assert forall j :: 0 <= j < |p| ==> p[j] == row[j];
    }
  }

  lemma {:induction false} ForbidAllMeaning(elig: seq<seq<bool>>, x: seq<seq<bool>>, y: seq<bool>)
    ensures AllHold(ForbidAll(elig), x, y) <==>
            forall i, j :: 0 <= i < |elig| && 0 <= j < |elig[i]| && !elig[i][j] ==> !Cell(x, i, j)
  {
    if elig != [] {
      var p := elig[..|elig| - 1];
      var last := |elig| - 1;
      ForbidAllMeaning(p, x, y);
      AllHoldAppend(ForbidAll(p), ForbidRow(last, elig[last]), x, y);
      ForbidRowMeaning(last, elig[last], x, y);
      if forall j :: 0 <= j < |elig[last]| && !elig[last][j] ==> !Cell(x, last, j) {
        if forall i, j :: 0 <= i < |p| && 0 <= j < |p[i]| && !p[i][j] ==> !Cell(x, i, j) {
          forall i, j | 0 <= i < |elig| && 0 <= j < |elig[i]| && !elig[i][j] ensures !Cell(x, i, j) {
            if i < |p| {
              assert p[i] == elig[i];
            }
          }
        }
      }
      if forall i, j :: 0 <= i < |elig| && 0 <= j < |elig[i]| && !elig[i][j] ==> !Cell(x, i, j) {
        forall i, j | 0 <= i < |p| && 0 <= j < |p[i]| && !p[i][j] ensures !Cell(x, i, j) {
          assert p[i] == elig[i];
        }
      }
    }
  }

  /** The base constraints hold of a 0/1 answer exactly when it routes every item through one
      delivery type it is eligible for and switches on every delivery type it uses. */
  lemma BaseMeaning(elig: seq<seq<bool>>, m: nat, x: seq<seq<bool>>, y: seq<bool>)
    requires Rect(elig, m) && Shaped(x, y, |elig|, m)
    ensures AllHold(BaseConstraints(elig, m), x, y) <==> Routes(elig, x, m) && Activated(x, y)
  {
    var n := |elig|;
    AllHoldAppend(ExactlyOneRows(n, m) + ActivationLinks(n, m), ForbidAll(elig), x, y);
    AllHoldAppend(ExactlyOneRows(n, m), ActivationLinks(n, m), x, y);
    ExactlyOneRowsMeaning(n, m, x, y);
    ActivationLinksMeaning(m, x, y);
    ForbidAllMeaning(elig, x, y);
    if forall j :: 0 <= j < m && Column(x, j, n) != [] ==> y[j] {
      forall i, j | 0 <= i < |x| && 0 <= j < |x[i]| && x[i][j] ensures j < |y| && y[j] {
        assert Cell(x, i, j);
        assert i in Column(x, j, n);
      }
    }
    if Activated(x, y) {
      forall j | 0 <= j < m && Column(x, j, n) != [] ensures y[j] {
        assert Cell(x, Column(x, j, n)[0], j);
      }
    }
    if forall i, j :: 0 <= i < n && 0 <= j < |elig[i]| && !elig[i][j] ==> !Cell(x, i, j) {
      forall i, j | 0 <= i < |x| && 0 <= j < |x[i]| && x[i][j] ensures j < |elig[i]| && elig[i][j] {
        assert Cell(x, i, j);
      }
    }
  }

  // The two phases

  /** Every routing, with the delivery types it uses switched on, is a phase-1 answer whose
      objective is its number of groups; every phase-1 answer is a routing that uses at most
      as many groups as its objective counts. */
  lemma Phase1Answers(elig: seq<seq<bool>>, m: nat, x: seq<seq<bool>>, y: seq<bool>)
    requires Rect(elig, m)
    ensures Routes(elig, x, m) ==>
              Feasible(Phase1(elig, m), x, Used(x, |elig|, m)) &&
              LinSum(YTerms(m), x, Used(x, |elig|, m)) == GroupCount(x, |elig|, m)
    ensures Feasible(Phase1(elig, m), x, y) ==>
              Routes(elig, x, m) && GroupCount(x, |elig|, m) <= LinSum(YTerms(m), x, y)
  {
    var u := Used(x, |elig|, m);
    if Routes(elig, x, m) {
      UsedActivated(x, m);
      BaseMeaning(elig, m, x, u);
      YTermsSum(m, x, u);
      assert u[..m] == u;
    }
    if Feasible(Phase1(elig, m), x, y) {
      BaseMeaning(elig, m, x, y);
      GroupCountBound(x, y, m);
      YTermsSum(m, x, y);
      assert y[..m] == y;
    }
  }

  /** The same for phase 2: the pin adds "the number of delivery types switched on is `k`". */
  lemma Phase2Answers(elig: seq<seq<bool>>, m: nat, k: int, anchor: nat, x: seq<seq<bool>>, y: seq<bool>)
    requires Rect(elig, m)
    ensures Routes(elig, x, m) && GroupCount(x, |elig|, m) == k ==>
              Feasible(Phase2(elig, m, k, anchor), x, Used(x, |elig|, m))
    ensures Feasible(Phase2(elig, m, k, anchor), x, y) ==>
              Routes(elig, x, m) && GroupCount(x, |elig|, m) <= k
    ensures LinSum(Phase2(elig, m, k, anchor).objective, x, y) == |Column(x, anchor, |elig|)|
  {
    var base := BaseConstraints(elig, m);
    ColTermsSum(anchor, |elig|, x, y);
    var u := Used(x, |elig|, m);
    if Routes(elig, x, m) && GroupCount(x, |elig|, m) == k {
      UsedActivated(x, m);
      BaseMeaning(elig, m, x, u);
      AllHoldAppend(base, [Pin(k, m)], x, u);
      YTermsSum(m, x, u);
      assert u[..m] == u;
    }
    if Feasible(Phase2(elig, m, k, anchor), x, y) {
      AllHoldAppend(base, [Pin(k, m)], x, y);
      assert Holds(Pin(k, m), x, y) by { assert [Pin(k, m)][0] == Pin(k, m); }
      BaseMeaning(elig, m, x, y);
      GroupCountBound(x, y, m);
      YTermsSum(m, x, y);
      assert y[..m] == y;
    }
  }

  /** `k` is the least number of delivery groups any routing needs, and some routing needs no more. */
  ghost predicate MinGroups(elig: seq<seq<bool>>, m: nat, k: int)
  {
    && (exists x :: Routes(elig, x, m) && GroupCount(x, |elig|, m) == k)
    && (forall x :: Routes(elig, x, m) ==> k <= GroupCount(x, |elig|, m))
  }

  /** Phase 1 on an exact solver: it is solved to OPTIMAL exactly when some routing exists, and
      then its objective value is the least number of delivery groups. */
  lemma Phase1Optimum(solver: Program -> Response, elig: seq<seq<bool>>, m: nat)
    requires ExactSolver(solver) && Rect(elig, m)
    ensures solver(Phase1(elig, m)).status == Optimal <==> exists x :: Routes(elig, x, m)
    ensures solver(Phase1(elig, m)).status == Optimal ==> MinGroups(elig, m, solver(Phase1(elig, m)).value)
  {
    var p := Phase1(elig, m);
    var r := solver(p);
    assert Exact(p, r);
    if x :| Routes(elig, x, m) {
      Phase1Answers(elig, m, x, []);
      assert Feasible(p, x, Used(x, |elig|, m));
    }
    if r.status == Optimal {
      Phase1Answers(elig, m, r.x, r.y);
      var g := GroupCount(r.x, |elig|, m);
      forall x | Routes(elig, x, m) ensures r.value <= GroupCount(x, |elig|, m) {
        Phase1Answers(elig, m, x, []);
        assert Feasible(p, x, Used(x, |elig|, m));
      }
      assert g <= r.value <= g;
    }
  }

  /** Phase 2 on an exact solver, pinned to the least number of groups `k`: the answer is a
      routing with `k` groups and its value is the size of the anchor's group. */
  lemma Phase2Answer(solver: Program -> Response, elig: seq<seq<bool>>, m: nat, k: int, anchor: nat)
    requires ExactSolver(solver) && Rect(elig, m) && MinGroups(elig, m, k)
    ensures var r := solver(Phase2(elig, m, k, anchor));
            && r.status == Optimal
            && Routes(elig, r.x, m)
            && GroupCount(r.x, |elig|, m) == k
            && r.value == |Column(r.x, anchor, |elig|)|
  {
    var p := Phase2(elig, m, k, anchor);
    var r := solver(p);
    assert Exact(p, r);
    var x0 :| Routes(elig, x0, m) && GroupCount(x0, |elig|, m) == k;
    Phase2Answers(elig, m, k, anchor, x0, []);
    assert Feasible(p, x0, Used(x0, |elig|, m));
    Phase2Answers(elig, m, k, anchor, r.x, r.y);
  }

  /** ... and no routing with `k` groups gives the anchor a larger group. */
  lemma Phase2Bound(solver: Program -> Response, elig: seq<seq<bool>>, m: nat, k: int, anchor: nat, x: seq<seq<bool>>)
    requires ExactSolver(solver) && Rect(elig, m)
    requires Routes(elig, x, m) && GroupCount(x, |elig|, m) == k
    ensures |Column(x, anchor, |elig|)| <= solver(Phase2(elig, m, k, anchor)).value
  {
    var p := Phase2(elig, m, k, anchor);
    var r := solver(p);
    assert Exact(p, r);
    Phase2Answers(elig, m, k, anchor, x, Used(x, |elig|, m));
  }

  /** `x` is a best split: a routing with the least number of delivery groups whose largest
      group is as large as that of any routing with that many groups. */
  ghost predicate LexOptimal(elig: seq<seq<bool>>, m: nat, x: seq<seq<bool>>)
  {
    && Routes(elig, x, m)
    && MinGroups(elig, m, GroupCount(x, |elig|, m))
    && forall x' :: Routes(elig, x', m) && GroupCount(x', |elig|, m) == GroupCount(x, |elig|, m) ==>
         MaxGroup(x', |elig|, m) <= MaxGroup(x, |elig|, m)
  }

  /** A delivery type some item may go by. */
  predicate Eligible(elig: seq<seq<bool>>, j: nat)
  {
    exists i :: 0 <= i < |elig| && j < |elig[i]| && elig[i][j]
  }

  /** The largest group of a routing of a non-empty basket belongs to a delivery type some item
      may go by. */
  lemma LargestGroupEligible(elig: seq<seq<bool>>, x: seq<seq<bool>>, m: nat) returns (j: nat)
    requires Routes(elig, x, m) && |x| > 0
    ensures j < m && |Column(x, j, |x|)| == MaxGroup(x, |x|, m) && Eligible(elig, j)
  {
    var n := |x|;
    RoutedOnceHolds(elig, x, m, 0);
    var j0 :| 0 <= j0 < m && 0 in Column(x, j0, n);
    j :| 0 <= j < m && |Column(x, j, n)| == MaxGroup(x, n, m);
    assert |Column(x, j0, n)| <= MaxGroup(x, n, m);
    var i := Column(x, j, n)[0];
    assert Cell(x, i, j);
  }

  /** Selection: pinned to the least number of groups, the phase-2 answer for an anchor whose
      optimum is at least every eligible anchor's optimum is a best split. */
  lemma SelectionOptimal(solver: Program -> Response, elig: seq<seq<bool>>, m: nat, k: int, best: nat)
    requires ExactSolver(solver) && Rect(elig, m) && MinGroups(elig, m, k) && |elig| > 0 && best < m
    requires forall j :: 0 <= j < m && Eligible(elig, j) ==>
               solver(Phase2(elig, m, k, j)).value <= solver(Phase2(elig, m, k, best)).value
    ensures LexOptimal(elig, m, solver(Phase2(elig, m, k, best)).x)
  {
    var n := |elig|;
    var x := solver(Phase2(elig, m, k, best)).x;
    Phase2Answer(solver, elig, m, k, best);
    forall x' | Routes(elig, x', m) && GroupCount(x', n, m) == k
      ensures MaxGroup(x', n, m) <= MaxGroup(x, n, m)
    {
      var j := LargestGroupEligible(elig, x', m);
      Phase2Bound(solver, elig, m, k, j, x');
      assert |Column(x, best, n)| <= MaxGroup(x, n, m);
    }
  }
}
