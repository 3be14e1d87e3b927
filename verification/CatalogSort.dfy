/** The order of the upload catalog: by system, then by title, equal ones as they came. */
module CatalogSort {

  import opened Basics
  import opened CatalogEntry
  import opened CatalogFile
  import Sorting

  predicate Less(a: Entry, b: Entry) {
    if a.system == b.system then TextLess(a.title, b.title) else TextLess(a.system, b.system)
  }

  lemma Order(a: Entry, b: Entry)
    ensures !(Less(a, b) && Less(b, a))
  {
    TextOrder(a.system, b.system);
    TextOrder(a.title, b.title);
  }

  lemma Transitive(a: Entry, b: Entry, c: Entry)
    requires !Less(b, a) && !Less(c, b)
    ensures !Less(c, a)
  {
    TextOrder(a.system, b.system);
    TextOrder(b.system, c.system);
    TextOrder(a.system, c.system);
    TextTransitive(a.system, b.system, c.system);
    if a.system == b.system == c.system {
      TextTransitive(a.title, b.title, c.title);
    }
  }

  const ORDER := (a: Entry, b: Entry) => Less(a, b)

  lemma OrderIsOrder()
    ensures Sorting.IsOrder(ORDER)
  {
    forall a, b ensures !(ORDER(a, b) && ORDER(b, a)) {
      Order(a, b);
    }
    forall a, b, c | !ORDER(b, a) && !ORDER(c, b) ensures !ORDER(c, a) {
      Transitive(a, b, c);
    }
  }

  predicate Sorted(s: seq<Entry>) { Sorting.InOrder(s, ORDER) }

  /** The catalog in its order. */
  function Arranged(s: seq<Entry>): (r: seq<Entry>)
    ensures |r| == |s|
  {
    Sorting.StableSort(s, ORDER)
  }

  /** The systems are in dictionary order, and the titles of one system too. */
  lemma SortSorts(s: seq<Entry>)
    ensures Sorted(Arranged(s))
    ensures var r := Arranged(s); forall i, j :: 0 <= i < j < |r| ==>
      && !TextLess(r[j].system, r[i].system)
      && (r[j].system == r[i].system ==> !TextLess(r[j].title, r[i].title))
  {
    OrderIsOrder();
    Sorting.SortOrders(s, ORDER);
    var r := Arranged(s);
    forall i, j | 0 <= i < j < |r|
      ensures !TextLess(r[j].system, r[i].system)
      ensures r[j].system == r[i].system ==> !TextLess(r[j].title, r[i].title)
    {
      assert !ORDER(r[j], r[i]);
      TextOrder(r[i].system, r[j].system);
    }
    hide TextLess;
  }

  /** Entries of which none is less than another keep their order, and none is lost. */
  lemma SortIsStable(s: seq<Entry>, kind: Entry -> bool)
    requires forall x, y :: kind(x) && kind(y) ==> !Less(x, y)
    ensures Sorting.Among(Arranged(s), kind) == Sorting.Among(s, kind)
  {
    Sorting.SortIsStable(s, ORDER, kind);
  }

  lemma ArrangedHolds(s: seq<Entry>, x: Entry)
    ensures x in Arranged(s) <==> x in s
  {
    Sorting.SortHolds(s, ORDER, x);
  }

  lemma SortedStays(s: seq<Entry>)
    requires Sorted(s)
    ensures Arranged(s) == s
  {
    Sorting.SortedStays(s, ORDER);
  }

  lemma ArrangedAgain(s: seq<Entry>, e: Entry)
    ensures Arranged(Arranged(s) + [e]) == Arranged(s + [e])
  {
    OrderIsOrder();
    Sorting.SortAgain(s, e, ORDER);
  }

  // ---------------------------------------------------------------- all different

  /** No identifier and no path twice. */
  predicate Apart(games: seq<Entry>) {
    forall i, j :: 0 <= i < j < |games| ==> games[i].id != games[j].id && games[i].rom != games[j].rom
  }

  const DIFFER := (a: Entry, b: Entry) => a.id != b.id && a.rom != b.rom

  lemma ArrangedApart(s: seq<Entry>)
    requires Apart(s)
    ensures Apart(Arranged(s))
  {
    assert Sorting.Pairwise(s, DIFFER);
    Sorting.SortPairwise(s, ORDER, DIFFER);
    var r := Arranged(s);
    forall i, j | 0 <= i < j < |r| ensures r[i].id != r[j].id && r[i].rom != r[j].rom {
      assert DIFFER(r[i], r[j]);
    }
  }
}
