/** The part of a 0/1 integer-programming backend that the basket splitter relies on:
    boolean decision variables, linear constraints with integer coefficients, a linear
    objective to minimise or maximise, and a solve that reports a status, a 0/1 answer
    and the objective value. The backend itself is not modelled; `ExactSolver` states
    what the splitter assumes of it. */
module LinearProgram {

  /** `X(i, j)`: item `i` is routed through delivery type `j`; `Y(j)`: delivery type `j` is used. */
  datatype Var = X(i: nat, j: nat) | Y(j: nat)

  datatype Term = Term(v: Var, coeff: int)

  /** Lower bound of a constraint; `NegInf` is the bound minus infinity. */
  datatype Lower = NegInf | AtLeast(bound: int)

  /** `lower <= sum of coeff * v over terms <= upper`. */
  datatype Constraint = Constraint(lower: Lower, upper: int, terms: seq<Term>)

  datatype Sense = Minimize | Maximize

  /** A program over the variables X(i, j) for i < n, j < m and Y(j) for j < m. */
  datatype Program = Program(n: nat, m: nat, constraints: seq<Constraint>, objective: seq<Term>, sense: Sense)

  /** Every status other than OPTIMAL (infeasible, feasible-but-unproven, abnormal, ...) is `NotOptimal`. */
  datatype Status = Optimal | NotOptimal

  /** The solution values of the X and Y variables (a value of 1.0 read as `true`) and the objective value. */
  datatype Response = Response(status: Status, x: seq<seq<bool>>, y: seq<bool>, value: int)

  /** The solution value of X(i, j); cells outside the answer read as 0. */
  function Cell(x: seq<seq<bool>>, i: nat, j: nat): bool
  {
    i < |x| && j < |x[i]| && x[i][j]
  }

  function Value(v: Var, x: seq<seq<bool>>, y: seq<bool>): bool
  {
    match v
    case X(i, j) => Cell(x, i, j)
    case Y(j) => j < |y| && y[j]
  }

  function LinSum(ts: seq<Term>, x: seq<seq<bool>>, y: seq<bool>): int
  {
    if ts == [] then 0
    else LinSum(ts[..|ts| - 1], x, y) + (if Value(ts[|ts| - 1].v, x, y) then ts[|ts| - 1].coeff else 0)
  }

  lemma {:induction false} LinSumAppend(a: seq<Term>, b: seq<Term>, x: seq<seq<bool>>, y: seq<bool>)
    ensures LinSum(a + b, x, y) == LinSum(a, x, y) + LinSum(b, x, y)
    decreases |b|
  {
    if b == [] {
      assert a + b == a;
    } else {
      assert (a + b)[..|a + b| - 1] == a + b[..|b| - 1];
      LinSumAppend(a, b[..|b| - 1], x, y);
    }
  }

  predicate Holds(c: Constraint, x: seq<seq<bool>>, y: seq<bool>)
  {
    var s := LinSum(c.terms, x, y);
    (c.lower.NegInf? || c.lower.bound <= s) && s <= c.upper
  }

  predicate AllHold(cs: seq<Constraint>, x: seq<seq<bool>>, y: seq<bool>)
  {
    forall k :: 0 <= k < |cs| ==> Holds(cs[k], x, y)
  }

  lemma AllHoldAppend(a: seq<Constraint>, b: seq<Constraint>, x: seq<seq<bool>>, y: seq<bool>)
    ensures AllHold(a + b, x, y) <==> AllHold(a, x, y) && AllHold(b, x, y)
  {
    if AllHold(a, x, y) && AllHold(b, x, y) {
      forall k | 0 <= k < |a + b| ensures Holds((a + b)[k], x, y) {
        if k >= |a| {
          assert (a + b)[k] == b[k - |a|];
        }
      }
    }
    if AllHold(a + b, x, y) {
      forall k | 0 <= k < |a| ensures Holds(a[k], x, y) {
        assert (a + b)[k] == a[k];
      }
      forall k | 0 <= k < |b| ensures Holds(b[k], x, y) {
        assert (a + b)[|a| + k] == b[k];
      }
    }
  }

  /** x is an n-by-m 0/1 matrix and y a 0/1 vector of length m. */
  predicate Shaped(x: seq<seq<bool>>, y: seq<bool>, n: nat, m: nat)
  {
    |x| == n && |y| == m && forall i :: 0 <= i < n ==> |x[i]| == m
  }

  predicate Feasible(p: Program, x: seq<seq<bool>>, y: seq<bool>)
  {
    Shaped(x, y, p.n, p.m) && AllHold(p.constraints, x, y)
  }

  /** `a` is at least as good an objective value as `b`. */
  predicate AtLeastAsGood(sense: Sense, a: int, b: int)
  {
    if sense == Minimize then a <= b else b <= a
  }

  /** What the splitter assumes of one solve of `p`: an OPTIMAL answer is feasible, reports its
      objective value and is at least as good as every feasible answer; and every program that
      has a feasible answer is solved to OPTIMAL. */
  ghost predicate Exact(p: Program, r: Response)
  {
    && (r.status == Optimal ==>
          && Feasible(p, r.x, r.y)
          && r.value == LinSum(p.objective, r.x, r.y)
          && forall x, y :: Feasible(p, x, y) ==> AtLeastAsGood(p.sense, r.value, LinSum(p.objective, x, y)))
    && ((exists x, y :: Feasible(p, x, y)) ==> r.status == Optimal)
  }

  /** A solver is a pure function of the program it is given: each solve builds a fresh instance. */
  ghost predicate ExactSolver(solver: Program -> Response)
  {
    forall p :: Exact(p, solver(p))
  }
}
