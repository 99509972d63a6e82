/** Grouping by slot, as the batch executor and the multi-key commands do it with a Map. */
module SlotGroups {

  /** The items of one slot, in order. */
  function Bucket<T>(slotOf: T -> nat, items: seq<T>, slot: nat): seq<T> {
    if items == [] then []
    else
      var last := items[|items| - 1];
      Bucket(slotOf, items[..|items| - 1], slot) + (if slotOf(last) == slot then [last] else [])
  }

  lemma BucketLast<T>(slotOf: T -> nat, items: seq<T>, item: T, slot: nat)
    ensures Bucket(slotOf, items + [item], slot) ==
            Bucket(slotOf, items, slot) + (if slotOf(item) == slot then [item] else [])
  {
    assert (items + [item])[..|items|] == items;
  }

  lemma {:induction false} BucketElements<T>(slotOf: T -> nat, items: seq<T>, slot: nat, item: T)
    ensures item in Bucket(slotOf, items, slot) <==> item in items && slotOf(item) == slot
  {
    if items != [] {
      BucketElements(slotOf, items[..|items| - 1], slot, item);
      assert items == items[..|items| - 1] + [items[|items| - 1]];
    }
  }

  /** The slots of the items, each at its first appearance. */
  function Order<T>(slotOf: T -> nat, items: seq<T>): seq<nat> {
    if items == [] then []
    else
      var before, slot := Order(slotOf, items[..|items| - 1]), slotOf(items[|items| - 1]);
      if slot in before then before else before + [slot]
  }

  lemma OrderLast<T>(slotOf: T -> nat, items: seq<T>, item: T)
    ensures var before := Order(slotOf, items);
      Order(slotOf, items + [item]) == if slotOf(item) in before then before else before + [slotOf(item)]
  {
    assert (items + [item])[..|items|] == items;
  }

  predicate Distinct(order: seq<nat>) {
    forall i, j | 0 <= i < j < |order| :: order[i] != order[j]
  }

  lemma DistinctPush(order: seq<nat>, slot: nat)
    requires Distinct(order) && slot !in order
    ensures Distinct(order + [slot])
  {
  }

  lemma {:induction false} OrderDistinct<T>(slotOf: T -> nat, items: seq<T>)
    ensures Distinct(Order(slotOf, items))
  {
    if items != [] {
      var before, slot := Order(slotOf, items[..|items| - 1]), slotOf(items[|items| - 1]);
      OrderDistinct(slotOf, items[..|items| - 1]);
      if slot !in before {
        DistinctPush(before, slot);
      }
    }
  }

  lemma {:induction false} OrderComplete<T>(slotOf: T -> nat, items: seq<T>)
    ensures forall i | 0 <= i < |items| :: slotOf(items[i]) in Order(slotOf, items)
    ensures forall s | s in Order(slotOf, items) :: exists i :: 0 <= i < |items| && slotOf(items[i]) == s
  {
    if items != [] {
      var init, last := items[..|items| - 1], items[|items| - 1];
      OrderComplete(slotOf, init);
      OrderLast(slotOf, init, last);
      assert items == init + [last];
      forall s | s in Order(slotOf, items) ensures exists i :: 0 <= i < |items| && slotOf(items[i]) == s {
        if s in Order(slotOf, init) {
          var i :| 0 <= i < |init| && slotOf(init[i]) == s;
          assert slotOf(items[i]) == s;
        } else {
          assert slotOf(items[|init|]) == s;
        }
      }
    }
  }

  /** The Map that groups by slot: its slots in insertion order, and the items of each. */
  ghost predicate Grouped<T>(slotOf: T -> nat, items: seq<T>, order: seq<nat>, groups: map<nat, seq<T>>) {
    && order == Order(slotOf, items)
    && (forall s :: s in order <==> s in groups)
    && (forall s | s in groups :: groups[s] == Bucket(slotOf, items, s))
  }

  lemma {:induction false} EmptyBucket<T>(slotOf: T -> nat, items: seq<T>, slot: nat)
    requires slot !in Order(slotOf, items)
    ensures Bucket(slotOf, items, slot) == []
  {
    if items != [] {
      EmptyBucket(slotOf, items[..|items| - 1], slot);
    }
  }

  lemma GroupGrows<T>(slotOf: T -> nat, items: seq<T>, item: T, order: seq<nat>, groups: map<nat, seq<T>>)
    requires Grouped(slotOf, items, order, groups) && slotOf(item) in groups
    ensures Grouped(slotOf, items + [item], order, groups[slotOf(item) := groups[slotOf(item)] + [item]])
  {
    OrderLast(slotOf, items, item);
    forall s | s in groups
      ensures Bucket(slotOf, items + [item], s) == if s == slotOf(item) then groups[s] + [item] else groups[s]
    {
      BucketLast(slotOf, items, item, s);
    }
  }

  lemma GroupOpens<T>(slotOf: T -> nat, items: seq<T>, item: T, order: seq<nat>, groups: map<nat, seq<T>>)
    requires Grouped(slotOf, items, order, groups) && slotOf(item) !in groups
    ensures Grouped(slotOf, items + [item], order + [slotOf(item)], groups[slotOf(item) := [item]])
  {
    OrderLast(slotOf, items, item);
    forall s | s in groups ensures Bucket(slotOf, items + [item], s) == groups[s] {
      BucketLast(slotOf, items, item, s);
    }
    BucketLast(slotOf, items, item, slotOf(item));
    EmptyBucket(slotOf, items, slotOf(item));
  }

  /** The body of the loop: push onto the group of the item's slot, or set a new one at the end of the Map. */
  method Push<T>(slotOf: T -> nat, ghost items: seq<T>, item: T, order: seq<nat>, groups: map<nat, seq<T>>)
    returns (order': seq<nat>, groups': map<nat, seq<T>>)
    requires Grouped(slotOf, items, order, groups)
    ensures Grouped(slotOf, items + [item], order', groups')
  {
    var slot := slotOf(item);
    if slot !in groups {
      GroupOpens(slotOf, items, item, order, groups);
      order' := order + [slot];
      groups' := groups[slot := [item]];
    } else {
      GroupGrows(slotOf, items, item, order, groups);
      order' := order;
      groups' := groups[slot := groups[slot] + [item]];
    }
  }

  method Group<T>(slotOf: T -> nat, items: seq<T>) returns (order: seq<nat>, groups: map<nat, seq<T>>)
    ensures Grouped(slotOf, items, order, groups)
  {
    order, groups := [], map[];
    for i := 0 to |items|
      invariant Grouped(slotOf, items[..i], order, groups)
    {
      assert items[..i + 1] == items[..i] + [items[i]];
      order, groups := Push(slotOf, items[..i], items[i], order, groups);
    }
    assert items[..|items|] == items;
  }
}
