/** Linked lists that are split and merged in place. */
module SList {
  import opened Bytes

  /** SList: the link; a comparison is a function of the items. */
  class Item {
    var next: Item?

    constructor ()
    {
      next := null;
    }
  }

  type Comparison = (Item, Item) -> int

  function At(list: seq<Item>, i: nat): Item? {
    if i < |list| then list[i] else null
  }

  predicate Distinct(list: seq<Item>) {
    forall i, j :: 0 <= i < j < |list| ==> list[i] != list[j]
  }

  /** Starting from p, the links run through the list and end. */
  predicate Linked(p: Item?, list: seq<Item>)
    reads list
  {
    && p == At(list, 0)
    && forall i :: 0 <= i < |list| ==> list[i].next == At(list, i + 1)
  }

  predicate Apart(a: seq<Item>, b: seq<Item>) {
    forall i, j :: 0 <= i < |a| && 0 <= j < |b| ==> a[i] != b[j]
  }

  // ---------- merging ----------

  /** The head of one list or the other, the first list's for equal ones. */
  function Merged(a: seq<Item>, b: seq<Item>, compare: Comparison): (m: seq<Item>)
    ensures |m| == |a| + |b|
  {
    if a == [] then b
    else if b == [] then a
    else if compare(a[0], b[0]) <= 0 then [a[0]] + Merged(a[1..], b, compare)
    else [b[0]] + Merged(a, b[1..], compare)
  }

  /** Each item is linked to the one after it. */
  predicate Chained(chain: seq<Item>)
    reads chain
  {
    forall k :: 0 < k < |chain| ==> chain[k - 1].next == chain[k]
  }

  /** The chain that ends at `insert`, and two lists x and y from which it is continued. */
  ghost predicate Ready(chain: seq<Item>, insert: Item, p: Item?, x: seq<Item>, q: Item?, y: seq<Item>)
    reads chain, x, y
  {
    && chain != [] && insert == chain[|chain| - 1] && Chained(chain) && Distinct(chain)
    && Linked(p, x) && Linked(q, y) && Distinct(x) && Distinct(y)
    && Apart(chain, x) && Apart(chain, y) && Apart(x, y)
  }

  lemma FirstReady(item: Item, p: Item?, x: seq<Item>, q: Item?, y: seq<Item>)
    requires Linked(p, x) && Linked(q, y) && Distinct(x) && Distinct(y) && Apart(x, y) && item !in x && item !in y
    ensures Ready([item], item, p, x, q, y)
  {
  }

  lemma Exchange(chain: seq<Item>, insert: Item, p: Item?, x: seq<Item>, q: Item?, y: seq<Item>)
    requires Ready(chain, insert, p, x, q, y)
    ensures Ready(chain, insert, q, y, p, x)
    ensures p == At(x, 0) && q == At(y, 0)
  {
  }

  /** insert = insert->next = item, and on in the list x */
  method Hang(insert: Item, item: Item, ghost chain: seq<Item>, ghost x: seq<Item>, ghost q: Item?, ghost y: seq<Item>)
    returns (next: Item?)
    requires Ready(chain, insert, item, x, q, y) && x != []
    modifies insert
    ensures Ready(chain + [item], item, next, x[1..], q, y)
  {
    insert.next := item;
    next := item.next;
  }

  /** The rest of the one list that is left. */
  method HangRest(insert: Item, p: Item?, ghost chain: seq<Item>, ghost x: seq<Item>, ghost q: Item?,
                  ghost y: seq<Item>)
    requires Ready(chain, insert, p, x, q, y)
    modifies insert
    ensures Linked(chain[0].next, chain[1..] + x)
  {
    insert.next := p;
    assert Linked(p, x);
    LinkedChain(chain, x);
  }

  /** slist_sort_merge */
  method Merge(left0: Item?, right0: Item?, compare: Comparison, ghost a: seq<Item>, ghost b: seq<Item>)
    returns (r: Item?)
    requires Linked(left0, a) && Linked(right0, b) && Distinct(a) && Distinct(b) && Apart(a, b)
    modifies a, b
    ensures Linked(r, Merged(a, b, compare))
  {
    hide Ready, Merged, Linked, Distinct, Apart;
    var left, right := left0, right0;
    var merged := new Item();
    assert merged !in a && merged !in b;
    var insert: Item := merged;
    ghost var x, y, i, j := a, b, 0, 0;
    ghost var chain, done: seq<Item> := [merged], [];
    FirstReady(merged, left, x, right, y);
    assert [] + Merged(a, b, compare) == Merged(a, b, compare);
    Exchange(chain, insert, left, x, right, y);
    while left != null && right != null
      invariant chain == [merged] + done
      invariant insert == merged || insert in a || insert in b
      invariant Ready(chain, insert, left, x, right, y)
      invariant i <= |a| && x == a[i..] && j <= |b| && y == b[j..]
      invariant left == At(x, 0) && right == At(y, 0)
      invariant done + Merged(x, y, compare) == Merged(a, b, compare)
      decreases |x| + |y|
    {
      ghost var item, x', y' := left, x, y;
      MergedHead(x, y, compare);
      if compare(left, right) <= 0 {
        Tail(a, i);
        x', i := x[1..], i + 1;
        var next := Hang(insert, left, chain, x, right, y);
        insert, left := left, next;
      } else {
        Exchange(chain, insert, left, x, right, y);
        Tail(b, j);
        item, y', j := right, y[1..], j + 1;
        var next := Hang(insert, right, chain, y, left, x);
        insert, right := right, next;
        Exchange(chain + [item], insert, right, y', left, x);
      }
      ConcatAssociative(done, [item], Merged(x', y', compare));
      ConcatAssociative([merged], done, [item]);
      chain, done, x, y := chain + [item], done + [item], x', y';
      Exchange(chain, insert, left, x, right, y);
    }
    MergedEnd(x, y, compare);
    assert chain[1..] == done && chain[0] == merged;
    if left != null {
      HangRest(insert, left, chain, x, right, y);
    } else {
      Exchange(chain, insert, left, x, right, y);
      HangRest(insert, right, chain, y, left, x);
    }
    r := merged.next;
  }

  lemma MergedHead(x: seq<Item>, y: seq<Item>, compare: Comparison)
    requires x != [] && y != []
    ensures Merged(x, y, compare) ==
      if compare(x[0], y[0]) <= 0 then [x[0]] + Merged(x[1..], y, compare) else [y[0]] + Merged(x, y[1..], compare)
  {
  }

  lemma MergedEnd(x: seq<Item>, y: seq<Item>, compare: Comparison)
    ensures x == [] ==> Merged(x, y, compare) == y
    ensures y == [] ==> Merged(x, y, compare) == x
  {
  }

  lemma Tail(a: seq<Item>, i: nat)
    requires i < |a|
    ensures a[i..] != [] && a[i..][0] == a[i] && a[i] in a && a[i..][1..] == a[i + 1..]
  {
  }

  /** A chain whose last item is linked to a list. */
  lemma LinkedChain(chain: seq<Item>, rest: seq<Item>)
    requires chain != [] && Chained(chain) && Linked(chain[|chain| - 1].next, rest)
    ensures Linked(chain[0].next, chain[1..] + rest)
  {
    var all := chain[1..] + rest;
    forall i | 0 <= i < |all|
      ensures all[i].next == At(all, i + 1)
    {
      if i < |chain| - 1 {
        assert all[i] == chain[i + 1];
      }
    }
  }

  /** A total preorder on the items. */
  predicate Orders(compare: Comparison, items: seq<Item>) {
    && (forall x, y :: x in items && y in items ==> compare(x, y) <= 0 || compare(y, x) <= 0)
    && (forall x, y, z :: x in items && y in items && z in items && compare(x, y) <= 0 && compare(y, z) <= 0
          ==> compare(x, z) <= 0)
  }

  predicate Sorted(list: seq<Item>, compare: Comparison) {
    forall i, j :: 0 <= i < j < |list| ==> compare(list[i], list[j]) <= 0
  }

  lemma {:induction false} MergedItems(a: seq<Item>, b: seq<Item>, compare: Comparison)
    ensures multiset(Merged(a, b, compare)) == multiset(a) + multiset(b)
  {
    if a != [] && b != [] {
      assert a == [a[0]] + a[1..] && b == [b[0]] + b[1..];
      if compare(a[0], b[0]) <= 0 {
        MergedItems(a[1..], b, compare);
      } else {
        MergedItems(a, b[1..], compare);
      }
    }
  }

  lemma MergedMember(a: seq<Item>, b: seq<Item>, compare: Comparison, k: nat)
    requires k < |a| + |b|
    ensures Merged(a, b, compare)[k] in a || Merged(a, b, compare)[k] in b
  {
    MergedItems(a, b, compare);
    assert Merged(a, b, compare)[k] in multiset(Merged(a, b, compare));
  }

  lemma OrdersLess(compare: Comparison, items: seq<Item>, fewer: seq<Item>)
    requires Orders(compare, items) && forall i :: 0 <= i < |fewer| ==> fewer[i] in items
    ensures Orders(compare, fewer)
  {
  }

  /** Two sorted lists are merged into a sorted one. */
  lemma {:induction false} MergedSorted(a: seq<Item>, b: seq<Item>, compare: Comparison)
    requires Orders(compare, a + b) && Sorted(a, compare) && Sorted(b, compare)
    ensures Sorted(Merged(a, b, compare), compare)
  {
    hide Orders, Sorted, Merged;
    MergedEnd(a, b, compare);
    if a != [] && b != [] {
      MergedHead(a, b, compare);
      TailsSorted(a, b, compare);
      var first := compare(a[0], b[0]) <= 0;
      var x, y := if first then a[1..] else a, if first then b else b[1..];
      var head := if first then a[0] else b[0];
      MergedSorted(x, y, compare);
      var m := Merged(x, y, compare);
      forall k | 0 <= k < |m|
        ensures compare(head, m[k]) <= 0
      {
        MergedMember(x, y, compare, k);
        HeadFirst(a, b, compare, m[k]);
      }
      SortedCons(head, m, compare);
    }
  }

  lemma SortedCons(head: Item, list: seq<Item>, compare: Comparison)
    requires Sorted(list, compare) && forall k :: 0 <= k < |list| ==> compare(head, list[k]) <= 0
    ensures Sorted([head] + list, compare)
  {
  }

  lemma TailsSorted(a: seq<Item>, b: seq<Item>, compare: Comparison)
    requires Orders(compare, a + b) && Sorted(a, compare) && Sorted(b, compare) && a != [] && b != []
    ensures Orders(compare, a[1..] + b) && Sorted(a[1..], compare)
    ensures Orders(compare, a + b[1..]) && Sorted(b[1..], compare)
  {
    OrdersLess(compare, a + b, a[1..] + b);
    OrdersLess(compare, a + b, a + b[1..]);
  }

  /** The head that is taken comes before all items. */
  lemma HeadFirst(a: seq<Item>, b: seq<Item>, compare: Comparison, item: Item)
    requires Orders(compare, a + b) && Sorted(a, compare) && Sorted(b, compare) && a != [] && b != []
    requires item in a || item in b
    ensures compare(if compare(a[0], b[0]) <= 0 then a[0] else b[0], item) <= 0
  {
    assert item in a + b && a[0] in a + b && b[0] in a + b;
  }

  /** The items of the list that are among the given ones, in the order of the list. */
  function Among(list: seq<Item>, items: seq<Item>): seq<Item> {
    if list == [] then [] else (if list[0] in items then [list[0]] else []) + Among(list[1..], items)
  }

  lemma {:induction false} AmongAll(list: seq<Item>, items: seq<Item>)
    requires forall i :: 0 <= i < |list| ==> list[i] in items
    ensures Among(list, items) == list
  {
    if list != [] {
      AmongAll(list[1..], items);
      assert list == [list[0]] + list[1..];
    }
  }

  lemma {:induction false} AmongNone(list: seq<Item>, items: seq<Item>)
    requires Apart(list, items)
    ensures Among(list, items) == []
  {
    if list != [] {
      AmongNone(list[1..], items);
    }
  }

  /** The items of each list keep their order: for a, with the items that are still to be merged in x and y. */
  lemma {:induction false} MergedKeepsOrder(x: seq<Item>, y: seq<Item>, compare: Comparison, a: seq<Item>, b: seq<Item>)
    requires (forall i :: 0 <= i < |x| ==> x[i] in a) && (forall i :: 0 <= i < |y| ==> y[i] in b) && Apart(a, b)
    ensures Among(Merged(x, y, compare), a) == x && Among(Merged(x, y, compare), b) == y
  {
    if x == [] {
      AmongNone(y, a);
      AmongAll(y, b);
    } else if y == [] {
      AmongAll(x, a);
      AmongNone(x, b);
    } else if compare(x[0], y[0]) <= 0 {
      MergedKeepsOrder(x[1..], y, compare, a, b);
      assert x == [x[0]] + x[1..] && [] + y == y;
    } else {
      MergedKeepsOrder(x, y[1..], compare, a, b);
      assert y == [y[0]] + y[1..] && [] + x == x;
    }
  }

  /** Of two items that are equal, the one of the first list comes first: what stands in front of an
      item of the first list and comes from the second is less. */
  lemma {:induction false} MergedStable(a: seq<Item>, b: seq<Item>, compare: Comparison, i: nat, j: nat)
    requires Orders(compare, a + b) && Sorted(a, compare) && Sorted(b, compare) && Apart(a, b)
    requires i < j < |a| + |b|
    ensures var m := Merged(a, b, compare); m[i] in b && m[j] in a ==> compare(m[j], m[i]) > 0
  {
    hide Sorted, Orders, Merged, Apart;
    NotBoth(a, b);
    MergedEnd(a, b, compare);
    if a != [] && b != [] {
      MergedHead(a, b, compare);
      TailsSorted(a, b, compare);
      TailsApart(a, b);
      var m := Merged(a, b, compare);
      if compare(a[0], b[0]) <= 0 {
        if i > 0 {
          assert m[i] == Merged(a[1..], b, compare)[i - 1] && m[j] == Merged(a[1..], b, compare)[j - 1];
          Sources(a[1..], b, a, b, compare, j - 1);
          MergedStable(a[1..], b, compare, i - 1, j - 1);
        }
      } else if i > 0 {
        assert m[i] == Merged(a, b[1..], compare)[i - 1] && m[j] == Merged(a, b[1..], compare)[j - 1];
        Sources(a, b[1..], a, b, compare, i - 1);
        MergedStable(a, b[1..], compare, i - 1, j - 1);
      } else if m[j] in a {
        GreaterThanHead(a, b, compare, m[j]);
      }
    }
  }

  lemma NotBoth(a: seq<Item>, b: seq<Item>)
    requires Apart(a, b)
    ensures a != [] ==> a[0] !in b
  {
  }

  lemma TailsApart(a: seq<Item>, b: seq<Item>)
    requires Apart(a, b) && a != [] && b != []
    ensures Apart(a[1..], b) && Apart(a, b[1..])
  {
  }

  /** A merged item that is in one list as a whole comes from what was merged of this list. */
  lemma Sources(x: seq<Item>, y: seq<Item>, a: seq<Item>, b: seq<Item>, compare: Comparison, k: nat)
    requires Apart(a, b) && k < |x| + |y|
    requires (forall i :: 0 <= i < |x| ==> x[i] in a) && (forall i :: 0 <= i < |y| ==> y[i] in b)
    ensures var item := Merged(x, y, compare)[k]; (item in a ==> item in x) && (item in b ==> item in y)
  {
    MergedMember(x, y, compare, k);
  }

  lemma GreaterThanHead(a: seq<Item>, b: seq<Item>, compare: Comparison, item: Item)
    requires Orders(compare, a + b) && Sorted(a, compare) && a != [] && b != []
    requires compare(a[0], b[0]) > 0 && item in a
    ensures compare(item, b[0]) > 0
  {
    var k :| 0 <= k < |a| && a[k] == item;
    assert a[0] in a + b && b[0] in a + b && item in a + b;
    assert k > 0 ==> compare(a[0], a[k]) <= 0;
  }

  // ---------- splitting ----------

  /** The first half of slist_sort: the list is cut in the middle; a single item stays in the first half. */
  method Split(list0: Item, ghost list: seq<Item>) returns (left: Item?, right: Item?)
    requires Linked(list0, list) && Distinct(list) && list != []
    modifies list
    ensures var half := if |list| == 1 then 1 else |list| / 2;
      Linked(left, list[..half]) && Linked(right, list[half..])
  {
    hide Linked, Distinct;
    NextOf(list0, list);
    var slist := list0;
    ghost var k := 0;
    left := slist;
    right := slist.next;
    while right != null
      invariant 2 * k + 1 <= |list| && slist == list[k] && right == At(list, 2 * k + 1)
      invariant right == null ==> |list| == 1
      decreases |list| - k
    {
      right := right.next;
      if right == null {
        break;
      }
      right := right.next;
      if right == null {
        break;
      }
      slist := slist.next;
      k := k + 1;
    }
    right := slist.next;
    CutAfter(slist, list0, list, k);
    assert k + 1 == if |list| == 1 then 1 else |list| / 2;
  }

  lemma NextOf(p: Item?, list: seq<Item>)
    requires Linked(p, list)
    ensures p == At(list, 0) && forall i :: 0 <= i < |list| ==> list[i].next == At(list, i + 1)
  {
  }

  /** slist->next = 0 */
  method CutAfter(slist: Item, ghost p: Item?, ghost list: seq<Item>, ghost k: nat)
    requires Linked(p, list) && Distinct(list) && k < |list| && slist == list[k]
    modifies slist
    ensures Linked(p, list[..k + 1]) && Linked(old(slist.next), list[k + 1..])
  {
    slist.next := null;
  }
}
