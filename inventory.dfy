/** The item counts `updateUI` builds for the inventory list: one entry per distinct item,
    in the order items first appear, each with its number of copies. */
module Inventory {
  import opened JsArray

  type Item = string

  /** The sum of the counts of the items listed in `order` (an item without a count adds 0). */
  function SumOver(order: seq<Item>, counts: map<Item, nat>): nat {
    if order == [] then 0
    else (if order[0] in counts then counts[order[0]] else 0) + SumOver(order[1..], counts)
  }

  predicate Distinct(order: seq<Item>) {
    forall i, j :: 0 <= i < j < |order| ==> order[i] != order[j]
  }

  lemma {:induction false} SumOverAppend(a: seq<Item>, b: seq<Item>, counts: map<Item, nat>)
    ensures SumOver(a + b, counts) == SumOver(a, counts) + SumOver(b, counts)
  {
    if a == [] {
      assert a + b == b;
    } else {
      assert (a + b)[1..] == a[1..] + b;
      SumOverAppend(a[1..], b, counts);
    }
  }

  /** Changing the count of an item that is not listed leaves the sum alone. */
  lemma {:induction false} SumOverUnlisted(order: seq<Item>, counts: map<Item, nat>, x: Item, v: nat)
    requires x !in order
    ensures SumOver(order, counts[x := v]) == SumOver(order, counts)
  {
    if order != [] {
      SumOverUnlisted(order[1..], counts, x, v);
    }
  }

  /** One more copy of an item listed once raises the sum by one. */
  lemma {:induction false} SumOverBump(order: seq<Item>, counts: map<Item, nat>, x: Item)
    requires Distinct(order) && x in order && x in counts
    ensures SumOver(order, counts[x := counts[x] + 1]) == SumOver(order, counts) + 1
  {
    if order[0] == x {
      assert x !in order[1..];
      SumOverUnlisted(order[1..], counts, x, counts[x] + 1);
    } else {
      SumOverBump(order[1..], counts, x);
    }
  }

  lemma PrefixStep(s: seq<Item>, k: nat)
    requires k < |s|
    ensures s[..k + 1] == s[..k] + [s[k]]
    ensures forall x :: x in s[..k + 1] <==> x in s[..k] || x == s[k]
    ensures multiset(s[..k + 1]) == multiset(s[..k]) + multiset{s[k]}
  {
  }

  /** `counts` holds, for exactly the items of `prefix`, their number of copies there. */
  ghost predicate Tally(prefix: seq<Item>, counts: map<Item, nat>) {
    && (forall x :: x in counts <==> x in prefix)
    && (forall x :: x in counts ==> counts[x] == multiset(prefix)[x])
  }

  /** `order` lists each item among the first k of `inventory` once, by first appearance. */
  ghost predicate Listed(inventory: seq<Item>, k: nat, order: seq<Item>)
    requires k <= |inventory|
  {
    && (forall x :: x in order <==> x in inventory[..k])
    && Distinct(order)
    && (forall i :: 0 <= i < |order| ==> 0 <= IndexOf(inventory, order[i]) < k)
    && (forall i, j :: 0 <= i < j < |order| ==> IndexOf(inventory, order[i]) < IndexOf(inventory, order[j]))
  }

  /** Counting item k bumps its count, or gives it a first count of 1. */
  lemma TallyStep(inventory: seq<Item>, k: nat, counts: map<Item, nat>)
    requires k < |inventory| && Tally(inventory[..k], counts)
    ensures var item := inventory[k];
      Tally(inventory[..k + 1], counts[item := if item in counts then counts[item] + 1 else 1])
  {
    PrefixStep(inventory, k);
  }

  /** A later copy of an item already listed leaves the listing as it is. */
  lemma ListedSeen(inventory: seq<Item>, k: nat, order: seq<Item>)
    requires k < |inventory| && Listed(inventory, k, order) && inventory[k] in inventory[..k]
    ensures Listed(inventory, k + 1, order)
  {
  }

  /** The first copy of an item is listed last. */
  lemma ListedNew(inventory: seq<Item>, k: nat, order: seq<Item>)
    requires k < |inventory| && Listed(inventory, k, order) && inventory[k] !in inventory[..k]
    ensures Listed(inventory, k + 1, order + [inventory[k]])
  {
  }

  /** Counting one more copy, listing the item if it is new, raises the sum by one. */
  lemma SumStep(order: seq<Item>, counts: map<Item, nat>, item: Item)
    requires Distinct(order) && (item in order <==> item in counts)
    ensures item in counts ==>
      SumOver(order, counts[item := counts[item] + 1]) == SumOver(order, counts) + 1
    ensures item !in counts ==>
      SumOver(order + [item], counts[item := 1]) == SumOver(order, counts) + 1
  {
    if item in counts {
      SumOverBump(order, counts, item);
    } else {
      var counts' := counts[item := 1];
      SumOverUnlisted(order, counts, item, 1);
      SumOverAppend(order, [item], counts');
      assert SumOver([item], counts') == 1;
    }
  }

  /** `inventory.forEach(i => counts[i] = (counts[i] || 0) + 1)`, with the key order the
      list is then drawn in. Every item held has its exact number of copies, nothing else
      has a count, each item is listed once in order of first appearance, and the counts
      add up to the length of the inventory. */
  method CountItems(inventory: seq<Item>) returns (order: seq<Item>, counts: map<Item, nat>)
    ensures forall x :: x in counts <==> x in inventory
    ensures forall x :: x in counts ==> counts[x] == multiset(inventory)[x]
    ensures forall x :: x in order <==> x in inventory
    ensures forall i, j :: 0 <= i < j < |order| ==> IndexOf(inventory, order[i]) < IndexOf(inventory, order[j])
    ensures SumOver(order, counts) == |inventory|
  {
    order, counts := [], map[];
    var k := 0;
    while k < |inventory|
      invariant 0 <= k <= |inventory|
      invariant Tally(inventory[..k], counts)
      invariant Listed(inventory, k, order)
      invariant SumOver(order, counts) == k
    {
      var item := inventory[k];
      TallyStep(inventory, k, counts);
      SumStep(order, counts, item);
      if item in counts {
        ListedSeen(inventory, k, order);
        counts := counts[item := counts[item] + 1];
      } else {
        ListedNew(inventory, k, order);
        order := order + [item];
        counts := counts[item := 1];
      }
      k := k + 1;
    }
    assert inventory[..k] == inventory;
  }
}
