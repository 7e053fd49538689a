/** Assignments of basket items to delivery types, seen as 0/1 matrices: `x[i][j]` says that
    item `i` goes by delivery type `j`, and `elig[i][j]` that it may. */
module Routing {
  import opened LinearProgram

  /** The number of `true` entries. */
  function Count(bs: seq<bool>): (c: nat)
    ensures c <= |bs|
  {
    if bs == [] then 0 else Count(bs[..|bs| - 1]) + (if bs[|bs| - 1] then 1 else 0)
  }

  /** The items `i < n` routed through delivery type `j`, in basket order. */
  function Column(x: seq<seq<bool>>, j: nat, n: nat): (col: seq<nat>)
    ensures |col| <= n
    ensures forall k :: 0 <= k < |col| ==> col[k] < n && Cell(x, col[k], j)
    ensures forall i {:trigger i in col} :: 0 <= i < n && Cell(x, i, j) ==> i in col
    ensures forall k1, k2 :: 0 <= k1 < k2 < |col| ==> col[k1] < col[k2]
  {
    if n == 0 then [] else Column(x, j, n - 1) + (if Cell(x, n - 1, j) then [n - 1] else [])
  }

  /** Every row of `elig` has `m` entries. */
  predicate Rect(elig: seq<seq<bool>>, m: nat)
  {
    forall i :: 0 <= i < |elig| ==> |elig[i]| == m
  }

  /** `x` sends every item through exactly one delivery type among the `m`, and only through
      a delivery type the item is eligible for. */
  predicate Routes(elig: seq<seq<bool>>, x: seq<seq<bool>>, m: nat)
  {
    && |x| == |elig|
    && (forall i :: 0 <= i < |x| ==> |x[i]| == m && Count(x[i]) == 1)
    && (forall i, j :: 0 <= i < |x| && 0 <= j < |x[i]| && x[i][j] ==> j < |elig[i]| && elig[i][j])
  }

  /** Every delivery type that carries an item is switched on in `y`. */
  predicate Activated(x: seq<seq<bool>>, y: seq<bool>)
  {
    forall i, j :: 0 <= i < |x| && 0 <= j < |x[i]| && x[i][j] ==> j < |y| && y[j]
  }

  /** The delivery types among the first `m` that carry at least one of the `n` items. */
  function Used(x: seq<seq<bool>>, n: nat, m: nat): (u: seq<bool>)
    ensures |u| == m && forall j :: 0 <= j < m ==> (u[j] <==> Column(x, j, n) != [])
  {
    seq(m, j requires 0 <= j => Column(x, j, n) != [])
  }

  /** The number of delivery groups `x` uses. */
  function GroupCount(x: seq<seq<bool>>, n: nat, m: nat): nat
  {
    Count(Used(x, n, m))
  }

  lemma GroupCountStep(x: seq<seq<bool>>, n: nat, m: nat)
    requires m > 0
    ensures GroupCount(x, n, m) == GroupCount(x, n, m - 1) + (if Column(x, m - 1, n) != [] then 1 else 0)
  {
    assert Used(x, n, m)[..m - 1] == Used(x, n, m - 1);
  }

  /** The largest element, or 0 for the empty sequence. */
  function MaxOf(s: seq<nat>): (r: nat)
    ensures forall k :: 0 <= k < |s| ==> s[k] <= r
    ensures |s| > 0 ==> exists k :: 0 <= k < |s| && s[k] == r
    ensures |s| == 0 ==> r == 0
  {
    if s == [] then 0
    else
      var p := s[..|s| - 1];
      var r := MaxOf(p);
      assert forall k :: 0 <= k < |p| ==> p[k] == s[k];
      if r < s[|s| - 1] then s[|s| - 1] else r
  }

  /** The size of the largest of the first `m` delivery groups. */
  function MaxGroup(x: seq<seq<bool>>, n: nat, m: nat): (r: nat)
    ensures forall j :: 0 <= j < m ==> |Column(x, j, n)| <= r
    ensures m > 0 ==> exists j :: 0 <= j < m && |Column(x, j, n)| == r
    ensures m == 0 ==> r == 0
  {
    var sizes := seq(m, j requires 0 <= j => |Column(x, j, n)|);
    assert forall j :: 0 <= j < m ==> sizes[j] == |Column(x, j, n)|;
    MaxOf(sizes)
  }

  lemma {:induction false} CountPositive(bs: seq<bool>)
    ensures Count(bs) > 0 <==> exists j :: 0 <= j < |bs| && bs[j]
  {
    if bs != [] {
      var p := bs[..|bs| - 1];
      CountPositive(p);
      assert forall j :: 0 <= j < |p| ==> p[j] == bs[j];
    }
  }

  /** Exactly one entry is set: the reading of "sum of the row equals 1". */
  lemma {:induction false} CountOne(bs: seq<bool>)
    ensures Count(bs) == 1 <==>
            exists j :: 0 <= j < |bs| && bs[j] && forall k :: 0 <= k < |bs| && bs[k] ==> k == j
  {
    if bs != [] {
      var p := bs[..|bs| - 1];
      var last := |bs| - 1;
      CountOne(p);
      CountPositive(p);
      assert forall j :: 0 <= j < |p| ==> p[j] == bs[j];
    }
  }

  /** Switching more delivery types on never lowers the count. */
  lemma {:induction false} CountMonotone(a: seq<bool>, b: seq<bool>)
    requires |a| == |b| && forall j :: 0 <= j < |a| && a[j] ==> b[j]
    ensures Count(a) <= Count(b)
  {
    if a != [] {
      CountMonotone(a[..|a| - 1], b[..|b| - 1]);
    }
  }

  /** An activation vector switches on at least as many delivery types as the routing uses. */
  lemma GroupCountBound(x: seq<seq<bool>>, y: seq<bool>, m: nat)
    requires |y| == m && Activated(x, y)
    ensures GroupCount(x, |x|, m) <= Count(y)
  {
    var u := Used(x, |x|, m);
    forall j | 0 <= j < m && u[j] ensures y[j] {
      var i := Column(x, j, |x|)[0];
    }
    CountMonotone(u, y);
  }

  /** The used delivery types are an activation vector for the routing. */
  lemma UsedActivated(x: seq<seq<bool>>, m: nat)
    requires forall i :: 0 <= i < |x| ==> |x[i]| <= m
    ensures Activated(x, Used(x, |x|, m))
  {
    forall i, j | 0 <= i < |x| && 0 <= j < |x[i]| && x[i][j]
      ensures j < m && Used(x, |x|, m)[j]
    {
      assert Cell(x, i, j);
      assert i in Column(x, j, |x|);
    }
  }

  /** Item `i` is in the group of exactly one delivery type, and it is eligible for that one. */
  predicate RoutedOnce(elig: seq<seq<bool>>, x: seq<seq<bool>>, m: nat, i: nat)
    requires i < |elig|
  {
    exists j :: 0 <= j < m && i in Column(x, j, |x|) && j < |elig[i]| && elig[i][j] &&
      forall j' :: 0 <= j' < m && i in Column(x, j', |x|) ==> j' == j
  }

  lemma RoutedOnceHolds(elig: seq<seq<bool>>, x: seq<seq<bool>>, m: nat, i: nat)
    requires Routes(elig, x, m) && i < |x|
    ensures RoutedOnce(elig, x, m, i)
  {
    CountOne(x[i]);
    var j :| 0 <= j < |x[i]| && x[i][j] && forall k :: 0 <= k < |x[i]| && x[i][k] ==> k == j;
    assert Cell(x, i, j);
    forall j' | 0 <= j' < m && i in Column(x, j', |x|) ensures j' == j {
      assert Cell(x, i, j');
    }
  }

  /** A row with a single `true` at `k`. */
  function OneHot(m: nat, k: nat): seq<bool>
  {
    seq(m, j => j == k)
  }

  lemma {:induction false} CountOneHot(m: nat, k: nat)
    ensures Count(OneHot(m, k)) == if k < m then 1 else 0
  {
    if m > 0 {
      assert OneHot(m, k)[..m - 1] == OneHot(m - 1, k);
      CountOneHot(m - 1, k);
    }
  }

  /** Some routing exists exactly when every item is eligible for some delivery type. */
  lemma RoutingExists(elig: seq<seq<bool>>, m: nat)
    requires Rect(elig, m)
    ensures (exists x :: Routes(elig, x, m)) <==> forall i :: 0 <= i < |elig| ==> true in elig[i]
  {
    if forall i :: 0 <= i < |elig| ==> true in elig[i] {
      var x := seq(|elig|, i requires 0 <= i < |elig| => OneHot(m, FirstTrue(elig[i])));
      forall i | 0 <= i < |x| ensures |x[i]| == m && Count(x[i]) == 1 {
        CountOneHot(m, FirstTrue(elig[i]));
      }
      assert Routes(elig, x, m);
    }
    if x :| Routes(elig, x, m) {
      forall i | 0 <= i < |elig| ensures true in elig[i] {
        CountPositive(x[i]);
        var j :| 0 <= j < |x[i]| && x[i][j];
        assert elig[i][j];
      }
    }
  }

  function FirstTrue(row: seq<bool>): (k: nat)
    requires true in row
    ensures k < |row| && row[k]
  {
    if row[0] then 0 else FirstTrue(row[1..]) + 1
  }
}
