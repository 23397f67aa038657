/** Edges grouped by owner state into contiguous ranges, and the checks a compiled bundle must pass. */
module EdgeLayout {
  import opened Common
  import opened ConditionLanguage
  import opened Templates
  import Sorting

  datatype StateRecord = StateRecord(key: string, zemberekId: string, morpheme: string, terminal: bool, derivative: bool, posRoot: bool,
                                     declaredFields: seq<string>)

  datatype EdgeRecord = EdgeRecord(sourceOrder: nat, owner: string, declaredFrom: string, ownerMatches: bool, target: string,
                                   morpheme: string, template: string, tokens: seq<TemplateToken>,
                                   conditionCount: nat, condition: Option<Condition>)

  // ----- the intended layout

  /** The edges of one owner, in bundle order. */
  function OwnedBy(edges: seq<EdgeRecord>, key: string): seq<EdgeRecord> {
    if edges == [] then []
    else
      var n := |edges| - 1;
      OwnedBy(edges[..n], key) + if edges[n].owner == key then [edges[n]] else []
  }

  predicate Ordered(edges: seq<EdgeRecord>) {
    forall i, j :: 0 <= i < j < |edges| ==> edges[i].sourceOrder <= edges[j].sourceOrder
  }

  function OrderOf(e: EdgeRecord): nat {
    e.sourceOrder
  }

  function HasOrder(order: nat): EdgeRecord -> bool {
    (e: EdgeRecord) => e.sourceOrder == order
  }

  /** The edges of one source order, in bundle order. */
  function WithOrder(edges: seq<EdgeRecord>, order: nat): seq<EdgeRecord> {
    Sorting.Filter(HasOrder(order), edges)
  }

  /** The stable sort by source order. */
  function SortBySourceOrder(edges: seq<EdgeRecord>): seq<EdgeRecord> {
    Sorting.Sort(Sorting.ByKey(OrderOf), edges)
  }

  lemma SortIsOrdered(edges: seq<EdgeRecord>)
    ensures Ordered(SortBySourceOrder(edges)) && multiset(SortBySourceOrder(edges)) == multiset(edges)
  {
    hide Sorting.Sort, Sorting.Ordered;
    var sorted := SortBySourceOrder(edges);
    Sorting.SortOrders(Sorting.ByKey(OrderOf), edges);
    forall i, j | 0 <= i < j < |sorted|
      ensures sorted[i].sourceOrder <= sorted[j].sourceOrder
    {
      Sorting.KeysAscend(OrderOf, sorted, i, j);
    }
  }

  lemma EqualOrdersAreLevel(edges: seq<EdgeRecord>, order: nat)
    ensures Sorting.Level(Sorting.ByKey(OrderOf), HasOrder(order), edges)
  {
    forall i, j | 0 <= i < |edges| && 0 <= j < |edges| && HasOrder(order)(edges[i]) && HasOrder(order)(edges[j])
      ensures Sorting.ByKey(OrderOf)(edges[i], edges[j])
    {
      assert edges[i].sourceOrder == edges[j].sourceOrder;
      assert OrderOf(edges[i]) == OrderOf(edges[j]);
    }
  }

  /** The sort is a permutation, sorted, and stable: edges of equal order keep their places. */
  lemma SortIsStable(edges: seq<EdgeRecord>, order: nat)
    ensures Ordered(SortBySourceOrder(edges)) && multiset(SortBySourceOrder(edges)) == multiset(edges)
    ensures WithOrder(SortBySourceOrder(edges), order) == WithOrder(edges, order)
  {
    hide Sorting.Sort, Sorting.Filter, Sorting.Level;
    SortIsOrdered(edges);
    EqualOrdersAreLevel(edges, order);
    Sorting.SortIsStable(Sorting.ByKey(OrderOf), HasOrder(order), edges);
  }

  /** All edges, grouped by owner in state order. */
  function Layout(keys: seq<string>, edges: seq<EdgeRecord>): seq<EdgeRecord> {
    if keys == [] then []
    else Layout(keys[..|keys| - 1], edges) + SortBySourceOrder(OwnedBy(edges, keys[|keys| - 1]))
  }

  lemma {:induction false} OwnedByCounts(edges: seq<EdgeRecord>, key: string, e: EdgeRecord)
    ensures multiset(OwnedBy(edges, key))[e] == if e.owner == key then multiset(edges)[e] else 0
  {
    if edges != [] {
      var n := |edges| - 1;
      OwnedByCounts(edges[..n], key, e);
      assert edges == edges[..n] + [edges[n]];
    }
  }

  lemma {:induction false} LayoutCounts(keys: seq<string>, edges: seq<EdgeRecord>, e: EdgeRecord)
    requires Distinct(keys)
    ensures multiset(Layout(keys, edges))[e] == if e.owner in keys then multiset(edges)[e] else 0
  {
    hide SortBySourceOrder, WithOrder, Ordered;
    if keys != [] {
      var n := |keys| - 1;
      LayoutCounts(keys[..n], edges, e);
      OwnedByCounts(edges, keys[n], e);
      SortIsStable(OwnedBy(edges, keys[n]), 0);
      assert keys == keys[..n] + [keys[n]];
    }
  }

  ghost predicate OwnersKnown(keys: seq<string>, edges: seq<EdgeRecord>) {
    forall e :: e in edges ==> e.owner in keys
  }

  /** Nothing is lost or duplicated: the layout is a permutation of the edges, when every owner is a state. */
  lemma LayoutIsPermutation(keys: seq<string>, edges: seq<EdgeRecord>)
    requires Distinct(keys)
    ensures multiset(Layout(keys, edges)) == multiset(edges) <==> OwnersKnown(keys, edges)
  {
    forall e
      ensures multiset(Layout(keys, edges))[e] == if e.owner in keys then multiset(edges)[e] else 0
    {
      LayoutCounts(keys, edges, e);
    }
    if !OwnersKnown(keys, edges) {
      var e :| e in edges && e.owner !in keys;
      assert multiset(edges)[e] > 0 && multiset(Layout(keys, edges))[e] == 0;
    } else {
      assert forall e :: e in edges <==> multiset(edges)[e] > 0;
    }
  }

  function RangeOf(keys: seq<string>, edges: seq<EdgeRecord>, i: nat): (nat, nat)
    requires i < |keys|
  {
    (|Layout(keys[..i], edges)|, |OwnedBy(edges, keys[i])|)
  }

  lemma LayoutNext(keys: seq<string>, edges: seq<EdgeRecord>, i: nat)
    requires i < |keys|
    ensures Layout(keys[..i + 1], edges) == Layout(keys[..i], edges) + SortBySourceOrder(OwnedBy(edges, keys[i]))
    ensures |SortBySourceOrder(OwnedBy(edges, keys[i]))| == |OwnedBy(edges, keys[i])|
  {
    hide OwnedBy, SortBySourceOrder;
    assert keys[..i + 1][..i] == keys[..i];
    SortIsStable(OwnedBy(edges, keys[i]), 0);
    SameSize(SortBySourceOrder(OwnedBy(edges, keys[i])), OwnedBy(edges, keys[i]));
  }

  lemma {:induction false} LayoutGrows(keys: seq<string>, edges: seq<EdgeRecord>, i: nat)
    requires i <= |keys|
    ensures Layout(keys[..i], edges) <= Layout(keys, edges)
    decreases |keys|
  {
    hide OwnedBy, SortBySourceOrder;
    var n := |keys| - 1;
    if i <= n {
      assert keys[..n][..i] == keys[..i];
      LayoutGrows(keys[..n], edges, i);
    } else {
      assert keys[..i] == keys;
    }
  }

  /** Each range cuts out of the table exactly its state's edges, stably sorted; ranges follow each other. */
  lemma RangeContents(keys: seq<string>, edges: seq<EdgeRecord>, i: nat)
    requires i < |keys|
    ensures var (start, count) := RangeOf(keys, edges, i);
            && start + count == |Layout(keys[..i + 1], edges)| <= |Layout(keys, edges)|
            && Layout(keys, edges)[start..start + count] == SortBySourceOrder(OwnedBy(edges, keys[i]))
  {
    hide Layout, OwnedBy, SortBySourceOrder;
    LayoutNext(keys, edges, i);
    LayoutGrows(keys, edges, i + 1);
  }

  lemma SameSize(a: seq<EdgeRecord>, b: seq<EdgeRecord>)
    requires multiset(a) == multiset(b)
    ensures |a| == |b|
  {
    assert |multiset(a)| == |a| && |multiset(b)| == |b|;
  }
}
