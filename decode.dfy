/** Reading a 0/1 answer back as a map from delivery type to the list of its items. */
module Decoding {
  import opened LinearProgram
  import opened Routing
  import opened DeliveryCatalog

  /** The items at the given basket positions, in that order. */
  function Pick<T>(items: seq<T>, idx: seq<nat>): (r: seq<T>)
    requires forall k :: 0 <= k < |idx| ==> idx[k] < |items|
    ensures |r| == |idx| && forall k :: 0 <= k < |idx| ==> r[k] == items[idx[k]]
  {
    if idx == [] then [] else Pick(items, idx[..|idx| - 1]) + [items[idx[|idx| - 1]]]
  }

  /** The items among the first `i` routed through delivery type `j`, in basket order. */
  function Gather<T>(x: seq<seq<bool>>, items: seq<T>, j: nat, i: nat): seq<T>
    requires i <= |items|
  {
    if i == 0 then [] else Gather(x, items, j, i - 1) + if Cell(x, i - 1, j) then [items[i - 1]] else []
  }

  /** The items routed through delivery type `j`. */
  function Group<T>(x: seq<seq<bool>>, items: seq<T>, j: nat): seq<T>
  {
    Gather(x, items, j, |items|)
  }

  /** Gathering lists the items at the positions routed there, in basket order. */
  lemma {:induction false} GatherPick<T>(x: seq<seq<bool>>, items: seq<T>, j: nat, i: nat)
    requires i <= |items|
    ensures Gather(x, items, j, i) == Pick(items, Column(x, j, i))
  {
    if i > 0 {
      GatherPick(x, items, j, i - 1);
      var c := Column(x, j, i - 1);
      var g := Gather(x, items, j, i - 1);
      if Cell(x, i - 1, j) {
        var d := c + [i - 1];
        assert Column(x, j, i) == d;
        assert d[..|d| - 1] == c;
        assert Pick(items, d) == Pick(items, c) + [items[i - 1]];
        assert Gather(x, items, j, i) == g + [items[i - 1]];
      } else {
        assert Column(x, j, i) == c;
        assert Gather(x, items, j, i) == g;
      }
    }
  }

  /** A group is the items at the positions of its column, in basket order, so it is as long as
      the column. */
  lemma GroupItems<T>(x: seq<seq<bool>>, items: seq<T>, j: nat)
    ensures Group(x, items, j) == Pick(items, Column(x, j, |items|))
    ensures |Group(x, items, j)| == |Column(x, j, |items|)|
  {
    GatherPick(x, items, j, |items|);
  }

  /** The group of each of the first `m` catalog entries whose group is not empty. */
  function Decode<T, D>(x: seq<seq<bool>>, items: seq<T>, catalog: seq<D>, m: nat): map<D, seq<T>>
    requires m <= |catalog|
  {
    if m == 0 then map[]
    else
      var groups := Decode(x, items, catalog, m - 1);
      var g := Group(x, items, m - 1);
      if g == [] then groups else groups[catalog[m - 1] := g]
  }

  lemma DecodeStep<T, D>(x: seq<seq<bool>>, items: seq<T>, catalog: seq<D>, j: nat, list: seq<T>)
    requires j < |catalog| && list == Group(x, items, j)
    ensures Decode(x, items, catalog, j + 1) ==
            if list == [] then Decode(x, items, catalog, j) else Decode(x, items, catalog, j)[catalog[j] := list]
  {
  }

  /** A catalog entry is a key of the decoded map exactly when its group is not empty, and then
      it maps to the items of its group in basket order. */
  lemma {:induction false} DecodeAt<T, D>(x: seq<seq<bool>>, items: seq<T>, catalog: seq<D>, m: nat, j: nat)
    requires NoDuplicates(catalog) && j < m <= |catalog|
    ensures catalog[j] in Decode(x, items, catalog, m) <==> Group(x, items, j) != []
    ensures Group(x, items, j) != [] ==> Decode(x, items, catalog, m)[catalog[j]] == Group(x, items, j)
  {
    if j < m - 1 {
      DecodeAt(x, items, catalog, m - 1, j);
      DecodeKeep(x, items, catalog, m, j);
    } else {
      DecodeFresh(x, items, catalog, m - 1);
    }
  }

  /** A later catalog entry leaves an earlier entry's key and list as they were. */
  lemma DecodeKeep<T, D>(x: seq<seq<bool>>, items: seq<T>, catalog: seq<D>, m: nat, j: nat)
    requires NoDuplicates(catalog) && j < m - 1 && m <= |catalog|
    ensures var prev, groups := Decode(x, items, catalog, m - 1), Decode(x, items, catalog, m);
            && (catalog[j] in groups <==> catalog[j] in prev)
            && (catalog[j] in prev ==> groups[catalog[j]] == prev[catalog[j]])
  {
    assert catalog[j] != catalog[m - 1];
  }

  /** The next catalog entry is not yet a key. */
  lemma DecodeFresh<T, D>(x: seq<seq<bool>>, items: seq<T>, catalog: seq<D>, m: nat)
    requires NoDuplicates(catalog) && m < |catalog|
    ensures catalog[m] !in Decode(x, items, catalog, m)
  {
    NotInPrefix(catalog, m);
    DecodeKey(x, items, catalog, m, catalog[m]);
  }

  /** Only catalog entries are keys. */
  lemma {:induction false} DecodeKey<T, D>(x: seq<seq<bool>>, items: seq<T>, catalog: seq<D>, m: nat, d: D)
    requires m <= |catalog|
    ensures d in Decode(x, items, catalog, m) ==> d in catalog[..m]
  {
    if m > 0 {
      DecodeKey(x, items, catalog, m - 1, d);
      assert catalog[..m] == catalog[..m - 1] + [catalog[m - 1]];
    }
  }

  /** The decoded map has one key per delivery group in use. */
  lemma {:induction false} DecodeSize<T, D>(x: seq<seq<bool>>, items: seq<T>, catalog: seq<D>, m: nat)
    requires NoDuplicates(catalog) && m <= |catalog|
    ensures |Decode(x, items, catalog, m)| == GroupCount(x, |items|, m)
  {
    if m == 0 {
      assert Used(x, |items|, 0) == [];
    } else {
      DecodeSize(x, items, catalog, m - 1);
      DecodeSizeStep(x, items, catalog, m);
    }
  }

  lemma DecodeSizeStep<T, D>(x: seq<seq<bool>>, items: seq<T>, catalog: seq<D>, m: nat)
    requires NoDuplicates(catalog) && 0 < m <= |catalog|
    requires |Decode(x, items, catalog, m - 1)| == GroupCount(x, |items|, m - 1)
    ensures |Decode(x, items, catalog, m)| == GroupCount(x, |items|, m)
  {
    var n := |items|;
    GroupCountStep(x, n, m);
    GroupItems(x, items, m - 1);
    NotInPrefix(catalog, m - 1);
    DecodeKey(x, items, catalog, m - 1, catalog[m - 1]);
    var prev := Decode(x, items, catalog, m - 1);
    assert catalog[m - 1] !in prev;
  }

  /** Only non-empty lists, keyed by catalog entries, and no list longer than the largest group. */
  lemma DecodedGroups<T, D>(x: seq<seq<bool>>, items: seq<T>, catalog: seq<D>)
    requires NoDuplicates(catalog)
    ensures var groups := Decode(x, items, catalog, |catalog|);
            forall d :: d in groups ==>
              d in catalog && groups[d] != [] && |groups[d]| <= MaxGroup(x, |items|, |catalog|)
  {
    var m := |catalog|;
    var groups := Decode(x, items, catalog, m);
    forall d | d in groups
      ensures d in catalog && groups[d] != [] && |groups[d]| <= MaxGroup(x, |items|, m)
    {
      DecodeKey(x, items, catalog, m, d);
      assert catalog[..m] == catalog;
      var j :| 0 <= j < m && catalog[j] == d;
      DecodeAt(x, items, catalog, m, j);
      GroupItems(x, items, j);
    }
  }

  /** A non-empty basket decodes to a list as long as the largest group. */
  lemma DecodedLargest<T, D>(x: seq<seq<bool>>, items: seq<T>, catalog: seq<D>, j0: nat)
    requires NoDuplicates(catalog) && j0 < |catalog| && Column(x, j0, |items|) != []
    ensures var groups := Decode(x, items, catalog, |catalog|);
            exists d :: d in groups && |groups[d]| == MaxGroup(x, |items|, |catalog|)
  {
    var m, n := |catalog|, |items|;
    var j :| 0 <= j < m && |Column(x, j, n)| == MaxGroup(x, n, m);
    assert |Column(x, j0, n)| <= MaxGroup(x, n, m);
    DecodeAt(x, items, catalog, m, j);
    GroupItems(x, items, j);
  }

  /** Every delivery type whose group is not empty is a key of `groups`, and its list is the
      items at the positions routed there, in basket order. */
  ghost predicate ListsAreGroups<T, D>(x: seq<seq<bool>>, items: seq<T>, catalog: seq<D>, groups: map<D, seq<T>>)
  {
    forall j :: 0 <= j < |catalog| && Column(x, j, |items|) != [] ==>
      catalog[j] in groups && groups[catalog[j]] == Pick(items, Column(x, j, |items|))
  }

  /** Every basket item is in the list of some delivery type it is eligible for. */
  ghost predicate EveryItemListed<T, D>(elig: seq<seq<bool>>, items: seq<T>, catalog: seq<D>, groups: map<D, seq<T>>)
  {
    && |elig| == |items|
    && forall i :: 0 <= i < |items| ==>
         exists j :: 0 <= j < |catalog| && j < |elig[i]| && elig[i][j] &&
           catalog[j] in groups && items[i] in groups[catalog[j]]
  }

  /** The decoded list of every delivery type whose group is not empty is that group. */
  lemma DecodedLists<T, D>(x: seq<seq<bool>>, items: seq<T>, catalog: seq<D>)
    requires NoDuplicates(catalog)
    ensures ListsAreGroups(x, items, catalog, Decode(x, items, catalog, |catalog|))
  {
    var groups := Decode(x, items, catalog, |catalog|);
    forall j | 0 <= j < |catalog| && Column(x, j, |items|) != []
      ensures catalog[j] in groups && groups[catalog[j]] == Pick(items, Column(x, j, |items|))
    {
      DecodeAt(x, items, catalog, |catalog|, j);
      GroupItems(x, items, j);
    }
  }

  /** Under a routing, every basket item is in the decoded list of a delivery type it is
      eligible for. */
  lemma DecodedCovers<T, D>(elig: seq<seq<bool>>, x: seq<seq<bool>>, items: seq<T>, catalog: seq<D>)
    requires Routes(elig, x, |catalog|) && |items| == |elig| && NoDuplicates(catalog)
    ensures EveryItemListed(elig, items, catalog, Decode(x, items, catalog, |catalog|))
  {
    var groups := Decode(x, items, catalog, |catalog|);
    DecodedLists(x, items, catalog);
    forall i | 0 <= i < |items|
      ensures exists j :: 0 <= j < |catalog| && j < |elig[i]| && elig[i][j] &&
                catalog[j] in groups && items[i] in groups[catalog[j]]
    {
      DecodedCoversAt(elig, x, items, catalog, groups, i);
    }
  }

  lemma DecodedCoversAt<T, D>(elig: seq<seq<bool>>, x: seq<seq<bool>>, items: seq<T>, catalog: seq<D>,
                              groups: map<D, seq<T>>, i: nat)
    requires Routes(elig, x, |catalog|) && |items| == |elig| && i < |items|
    requires ListsAreGroups(x, items, catalog, groups)
    ensures exists j :: 0 <= j < |catalog| && j < |elig[i]| && elig[i][j] &&
              catalog[j] in groups && items[i] in groups[catalog[j]]
  {
    var m, n := |catalog|, |items|;
    RoutedOnceHolds(elig, x, m, i);
    var j :| 0 <= j < m && i in Column(x, j, n) && j < |elig[i]| && elig[i][j];
    var col := Column(x, j, n);
    var k :| 0 <= k < |col| && col[k] == i;
    assert groups[catalog[j]] == Pick(items, col);
    assert groups[catalog[j]][k] == items[i];
  }

  /** Decoding a routing gives an assignment: only non-empty lists, keyed by catalog entries,
      one key per delivery group in use, every basket position in the list of exactly one
      delivery type, one it is eligible for, and a largest list as large as the largest group. */
  lemma DecodedAssignment<T, D>(elig: seq<seq<bool>>, x: seq<seq<bool>>, items: seq<T>, catalog: seq<D>)
    requires Routes(elig, x, |catalog|) && |items| == |elig| && NoDuplicates(catalog)
    ensures var groups := Decode(x, items, catalog, |catalog|);
            && (forall d :: d in groups ==> d in catalog && groups[d] != [])
            && |groups| == GroupCount(x, |items|, |catalog|)
            && (forall i :: 0 <= i < |items| ==> RoutedOnce(elig, x, |catalog|, i))
            && ListsAreGroups(x, items, catalog, groups)
            && EveryItemListed(elig, items, catalog, groups)
            && (forall d :: d in groups ==> |groups[d]| <= MaxGroup(x, |items|, |catalog|))
            && (|items| > 0 ==> exists d :: d in groups && |groups[d]| == MaxGroup(x, |items|, |catalog|))
  {
    var m, n := |catalog|, |items|;
    var groups := Decode(x, items, catalog, m);
    assert forall d :: d in groups ==> d in catalog && groups[d] != [] && |groups[d]| <= MaxGroup(x, n, m) by {
      DecodedGroups(x, items, catalog);
    }
    assert |groups| == GroupCount(x, n, m) by {
      DecodeSize(x, items, catalog, m);
    }
    assert ListsAreGroups(x, items, catalog, groups) by {
      DecodedLists(x, items, catalog);
    }
    assert EveryItemListed(elig, items, catalog, groups) by {
      DecodedCovers(elig, x, items, catalog);
    }
    forall i | 0 <= i < n ensures RoutedOnce(elig, x, m, i) {
      RoutedOnceHolds(elig, x, m, i);
    }
    if n > 0 {
      assert exists d :: d in groups && |groups[d]| == MaxGroup(x, n, m) by {
        RoutedOnceHolds(elig, x, m, 0);
        var j0 :| 0 <= j0 < m && 0 in Column(x, j0, n);
        DecodedLargest(x, items, catalog, j0);
      }
    }
  }
}
