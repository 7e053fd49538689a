/** The eligibility table the splitter is configured with: every known item with the set of
    delivery types it may go by. A hash map in the program; here its entries in iteration order. */
module EligibilityTable {
  import opened Routing

  type Item = string
  type Delivery = string

  /** One key of the table with the delivery types of its set, in the set's iteration order. */
  datatype Entry = Entry(item: Item, deliveries: seq<Delivery>)

  datatype Option<T> = None | Some(value: T)

  /** No item is a key twice, as in a hash map. */
  predicate DistinctKeys(table: seq<Entry>)
  {
    forall t, u :: 0 <= t < u < |table| ==> table[t].item != table[u].item
  }

  /** The delivery types of every entry in turn: the order in which a scan of the table's values
      meets them. */
  function Flatten(table: seq<Entry>): seq<Delivery>
  {
    if table == [] then [] else Flatten(table[..|table| - 1]) + table[|table| - 1].deliveries
  }

  /** The scan meets exactly the delivery types of the table's entries. */
  lemma {:induction false} FlattenMembers(table: seq<Entry>)
    ensures forall d :: d in Flatten(table) <==> exists t :: 0 <= t < |table| && d in table[t].deliveries
  {
    if table != [] {
      var p := table[..|table| - 1];
      FlattenMembers(p);
      assert forall t :: 0 <= t < |p| ==> p[t] == table[t];
    }
  }

  lemma FlattenSnoc(table: seq<Entry>, t: nat)
    requires t < |table|
    ensures Flatten(table[..t + 1]) == Flatten(table[..t]) + table[t].deliveries
  {
    assert table[..t + 1][..t] == table[..t];
  }

  predicate Known(table: seq<Entry>, item: Item)
  {
    exists t :: 0 <= t < |table| && table[t].item == item
  }

  /** What `get` on the table returns: the delivery types of the item's entry, or nothing (a
      null reference) for an item that is not a key. */
  function Lookup(table: seq<Entry>, item: Item): (r: Option<seq<Delivery>>)
    ensures r.None? <==> !Known(table, item)
    ensures r.Some? ==> exists t :: 0 <= t < |table| && table[t].item == item && r.value == table[t].deliveries
  {
    if table == [] then None
    else if table[0].item == item then Some(table[0].deliveries)
    else
      var r := Lookup(table[1..], item);
      assert forall t :: 0 <= t < |table| - 1 ==> table[1..][t] == table[t + 1];
      assert Known(table, item) ==> Known(table[1..], item) by {
        if Known(table, item) {
          var t :| 0 <= t < |table| && table[t].item == item;
          assert table[1..][t - 1].item == item;
        }
      }
      r
  }

  /** Whether `item` may go by delivery type `d`; an unknown item may go by none. */
  predicate MayGo(table: seq<Entry>, item: Item, d: Delivery)
  {
    var r := Lookup(table, item);
    r.Some? && d in r.value
  }

  /** Some item of the basket may go by `d`. */
  predicate Serves(table: seq<Entry>, items: seq<Item>, d: Delivery)
  {
    exists i :: 0 <= i < |items| && MayGo(table, items[i], d)
  }

  /** Every delivery type an item may go by is met by the scan of the table's values. */
  lemma MayGoFlatten(table: seq<Entry>, item: Item, d: Delivery)
    requires MayGo(table, item, d)
    ensures d in Flatten(table)
  {
    var t :| 0 <= t < |table| && table[t].item == item && Lookup(table, item).value == table[t].deliveries;
    FlattenMembers(table);
  }

  /** The position of the first basket item that is not a key of the table. */
  function FirstUnknown(table: seq<Entry>, items: seq<Item>): (r: Option<nat>)
    ensures r.None? ==> forall i :: 0 <= i < |items| ==> Known(table, items[i])
    ensures r.Some? ==> r.value < |items| && !Known(table, items[r.value]) &&
                        forall i :: 0 <= i < r.value ==> Known(table, items[i])
  {
    if items == [] then None
    else
      var p := items[..|items| - 1];
      assert forall i :: 0 <= i < |p| ==> p[i] == items[i];
      match FirstUnknown(table, p)
      case Some(i) => Some(i)
      case None => if Known(table, items[|items| - 1]) then None else Some(|items| - 1)
  }

  /** An item that is not a key, after only known ones, is the first unknown item. */
  lemma FirstUnknownAt(table: seq<Entry>, items: seq<Item>, i: nat)
    requires i < |items| && !Known(table, items[i])
    requires FirstUnknown(table, items).None? || FirstUnknown(table, items).value >= i
    ensures FirstUnknown(table, items) == Some(i)
  {
  }

  /** The first unknown item lies past every known one that follows only known ones. */
  lemma FirstUnknownPast(table: seq<Entry>, items: seq<Item>, i: nat)
    requires i < |items| && Known(table, items[i])
    requires FirstUnknown(table, items).None? || FirstUnknown(table, items).value >= i
    ensures FirstUnknown(table, items).None? || FirstUnknown(table, items).value > i
  {
  }

  /** The eligibility matrix: row `i` tells for each catalog entry whether basket item `i` may
      go by it. */
  function Eligibility(table: seq<Entry>, catalog: seq<Delivery>, items: seq<Item>): (elig: seq<seq<bool>>)
    ensures |elig| == |items| && Rect(elig, |catalog|)
  {
    seq(|items|, i requires 0 <= i < |items| =>
      seq(|catalog|, j requires 0 <= j < |catalog| => MayGo(table, items[i], catalog[j])))
  }

  /** A cell of the eligibility matrix of a known item: whether its set holds the entry. */
  lemma EligibilityAt(table: seq<Entry>, catalog: seq<Delivery>, items: seq<Item>, i: nat, j: nat)
    requires i < |items| && j < |catalog| && Lookup(table, items[i]).Some?
    ensures Eligibility(table, catalog, items)[i][j] == (catalog[j] in Lookup(table, items[i]).value)
  {
  }

  /** The item may go by some catalog entry. */
  predicate HasRoute(table: seq<Entry>, catalog: seq<Delivery>, item: Item)
  {
    exists j :: 0 <= j < |catalog| && MayGo(table, item, catalog[j])
  }

  /** Every basket item may go by some catalog entry. */
  predicate Routable(table: seq<Entry>, catalog: seq<Delivery>, items: seq<Item>)
  {
    forall i :: 0 <= i < |items| ==> HasRoute(table, catalog, items[i])
  }

  lemma RoutableRows(table: seq<Entry>, catalog: seq<Delivery>, items: seq<Item>)
    ensures Routable(table, catalog, items) <==>
            forall i :: 0 <= i < |items| ==> true in Eligibility(table, catalog, items)[i]
  {
    var elig := Eligibility(table, catalog, items);
    if Routable(table, catalog, items) {
      forall i | 0 <= i < |items| ensures true in elig[i] {
        var j :| 0 <= j < |catalog| && MayGo(table, items[i], catalog[j]);
        assert elig[i][j];
      }
    }
    if forall i :: 0 <= i < |items| ==> true in elig[i] {
      forall i | 0 <= i < |items| ensures HasRoute(table, catalog, items[i]) {
        var j :| 0 <= j < |elig[i]| && elig[i][j];
        assert MayGo(table, items[i], catalog[j]);
      }
    }
  }

  /** A catalog entry serves the basket exactly when its column of the matrix has a `true`. */
  lemma ServesColumn(table: seq<Entry>, catalog: seq<Delivery>, items: seq<Item>, j: nat)
    requires j < |catalog|
    ensures Serves(table, items, catalog[j]) <==>
            exists i :: 0 <= i < |items| && Eligibility(table, catalog, items)[i][j]
  {
    var elig := Eligibility(table, catalog, items);
    if i :| 0 <= i < |items| && MayGo(table, items[i], catalog[j]) {
      assert elig[i][j];
    }
    if i :| 0 <= i < |items| && elig[i][j] {
      assert MayGo(table, items[i], catalog[j]);
    }
  }
}
