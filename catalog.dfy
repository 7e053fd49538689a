/** The delivery catalog: the distinct delivery types of the eligibility table, each at the
    position where a scan of the table first meets it. */
module DeliveryCatalog {

  predicate NoDuplicates<T(==)>(s: seq<T>)
  {
    forall i, j :: 0 <= i < j < |s| ==> s[i] != s[j]
  }

  lemma NotInPrefix<T>(s: seq<T>, k: nat)
    requires NoDuplicates(s) && k < |s|
    ensures s[k] !in s[..k]
  {
    assert forall i :: 0 <= i < k ==> s[..k][i] == s[i] != s[k];
  }

  /** The distinct elements of `s`, in the order of their first occurrence: what appending each
      element of `s` in turn behind a `contains` check builds. */
  function Catalog<T(==)>(s: seq<T>): seq<T>
  {
    if s == [] then []
    else
      var c := Catalog(s[..|s| - 1]);
      if s[|s| - 1] in c then c else c + [s[|s| - 1]]
  }

  /** The catalog holds exactly the elements of the scanned list. */
  lemma {:induction false} CatalogMembers<T>(s: seq<T>)
    ensures forall d :: d in Catalog(s) <==> d in s
  {
    if s != [] {
      var p := s[..|s| - 1];
      CatalogMembers(p);
      assert s == p + [s[|s| - 1]];
    }
  }

  /** The catalog has no duplicates. */
  lemma {:induction false} CatalogDistinct<T>(s: seq<T>)
    ensures NoDuplicates(Catalog(s))
  {
    if s != [] {
      var p := s[..|s| - 1];
      var c := Catalog(p);
      CatalogDistinct(p);
      if s[|s| - 1] !in c {
        assert forall i :: 0 <= i < |c| ==> (c + [s[|s| - 1]])[i] == c[i] != s[|s| - 1];
      }
    }
  }

  /** Appending one element to the scanned list appends it to the catalog unless it is there. */
  lemma CatalogSnoc<T>(s: seq<T>, d: T)
    ensures Catalog(s + [d]) == if d in Catalog(s) then Catalog(s) else Catalog(s) + [d]
  {
    assert (s + [d])[..|s|] == s;
  }

  /** The position of the first occurrence of `d` in `s`. */
  function FirstIndex<T(==)>(s: seq<T>, d: T): (k: nat)
    requires d in s
    ensures k < |s| && s[k] == d
    ensures forall j :: 0 <= j < k ==> s[j] != d
  {
    if s[0] == d then 0 else FirstIndex(s[1..], d) + 1
  }

  lemma FirstIndexExtend<T>(p: seq<T>, x: T, d: T)
    requires d in p
    ensures FirstIndex(p + [x], d) == FirstIndex(p, d)
  {
    var a, b := FirstIndex(p + [x], d), FirstIndex(p, d);
    assert (p + [x])[b] == d;
    assert p[a] == d;
  }

  /** A list without duplicates is its own catalog. */
  lemma {:induction false} CatalogOfDistinct<T>(s: seq<T>)
    requires NoDuplicates(s)
    ensures Catalog(s) == s
  {
    if s != [] {
      var p := s[..|s| - 1];
      assert NoDuplicates(p);
      CatalogOfDistinct(p);
      assert forall i :: 0 <= i < |p| ==> p[i] == s[i] != s[|s| - 1];
      assert s == p + [s[|s| - 1]];
    }
  }

  /** Catalog entries appear in the order in which `s` first shows them. */
  lemma {:induction false} CatalogFirstSeen<T>(s: seq<T>)
    ensures forall k :: 0 <= k < |Catalog(s)| ==> Catalog(s)[k] in s
    ensures forall k1, k2 :: 0 <= k1 < k2 < |Catalog(s)| ==>
              FirstIndex(s, Catalog(s)[k1]) < FirstIndex(s, Catalog(s)[k2])
  {
    if s != [] {
      var p, x := s[..|s| - 1], s[|s| - 1];
      CatalogFirstSeen(p);
      CatalogFirstSeenStep(p, x);
      assert s == p + [x];
    }
  }

  lemma CatalogFirstSeenStep<T>(p: seq<T>, x: T)
    requires forall k :: 0 <= k < |Catalog(p)| ==> Catalog(p)[k] in p
    requires forall k1, k2 :: 0 <= k1 < k2 < |Catalog(p)| ==>
               FirstIndex(p, Catalog(p)[k1]) < FirstIndex(p, Catalog(p)[k2])
    ensures forall k :: 0 <= k < |Catalog(p + [x])| ==> Catalog(p + [x])[k] in p + [x]
    ensures forall k1, k2 :: 0 <= k1 < k2 < |Catalog(p + [x])| ==>
              FirstIndex(p + [x], Catalog(p + [x])[k1]) < FirstIndex(p + [x], Catalog(p + [x])[k2])
  {
    var s := p + [x];
    CatalogSnoc(p, x);
    var c := Catalog(p);
    forall k | 0 <= k < |c|
      ensures c[k] in s && FirstIndex(s, c[k]) == FirstIndex(p, c[k]) < |p|
    {
      FirstIndexExtend(p, x, c[k]);
    }
    var cs := Catalog(s);
    if x in c {
      assert cs == c;
    } else {
      CatalogMembers(p);
      FirstIndexLast(p, x);
      assert cs == c + [x];
      forall k | 0 <= k < |cs| ensures cs[k] in s {
        if k < |c| {
          assert cs[k] == c[k];
        }
      }
      forall k1, k2 | 0 <= k1 < k2 < |cs| ensures FirstIndex(s, cs[k1]) < FirstIndex(s, cs[k2]) {
        assert cs[k1] == c[k1];
        if k2 < |c| {
          assert cs[k2] == c[k2];
        }
      }
    }
  }

  /** An element new to `p` first occurs at the end of `p + [x]`. */
  lemma FirstIndexLast<T>(p: seq<T>, x: T)
    requires x !in p
    ensures FirstIndex(p + [x], x) == |p|
  {
    assert forall k :: 0 <= k < |p| ==> (p + [x])[k] == p[k] != x;
  }
}
