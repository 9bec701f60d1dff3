/**
  The bounded priority queue over a binomial heap: an insertion beyond the bound drops
  items from the far end, a pull takes an item of best priority.
 */
module PriorityQueue {
  import opened Basics
  import opened BinomialTrees
  import opened GreedyDescent
  import opened BinomialHeap

  /** One item of lowest priority is gone. */
  ghost predicate LowestDropped(mode: Mode, before: multiset<Item>, after: multiset<Item>) {
    exists x :: IsBest(Other(mode), before, x) && after == before - multiset{x}
  }

  /** A forest on which the far end of the queue is exact: a flat one, or any of at most two items. */
  ghost predicate FarEndExact(ts: seq<Tree>) {
    Flat(ts) || |AllItems(ts)| <= 2
  }

  class Queue {
    const heap: Heap
    const maxSize: nat

    ghost predicate Valid()
      reads this, heap
    {
      heap.Valid() && |heap.Model()| <= maxSize
    }

    ghost function Model(): multiset<Item>
      reads this, heap
    {
      heap.Model()
    }

    /** pqueue_create: a max heap when the highest priority goes first. */
    constructor (highest: bool, size: nat)
      ensures Valid() && fresh(heap) && Model() == multiset{}
      ensures maxSize == size && heap.mode == if highest then Max else Min
    {
      heap := new Heap(if highest then Max else Min);
      maxSize := size;
    }

    /** pqueue_drop_items. */
    method DropItems(n: nat)
      requires heap.Valid()
      modifies heap
      ensures heap.Valid() && Model() <= old(Model())
      ensures |Model()| == if |old(Model())| >= n then |old(Model())| - n else 0
      ensures n <= 1 && n < |old(Model())| ==> n == 0 || BestKeyKept(heap.mode, old(Model()), Model())
      ensures n == 0 ==> Model() == old(Model())
      ensures n == 1 && |old(Model())| > 0 && FarEndExact(old(heap.trees)) ==> LowestDropped(heap.mode, old(Model()), Model())
    {
      hide BestKeyKept;
      hide IsBest;
      hide Flat;
      hide AllItems;
      hide Near;
      hide AllHeaped;
      hide BestRootAt;
      var deleted := 0;
      while heap.count != 0 && deleted < n
        invariant heap.Valid() && deleted <= n && Model() <= old(Model())
        invariant |Model()| == |old(Model())| - deleted
        invariant deleted == 0 ==> heap.trees == old(heap.trees)
        invariant deleted == 1 && FarEndExact(old(heap.trees)) ==> LowestDropped(heap.mode, old(Model()), Model())
        invariant deleted == 1 && |old(Model())| > 1 ==> BestKeyKept(heap.mode, old(Model()), Model())
        decreases n - deleted
      {
        var dropped := heap.DeleteOther();
        deleted := deleted + 1;
      }
    }

    /** pqueue_insert: the count stays within the bound, nothing but items of the queue goes, with
        room for one item at all the best priority stays, and the item that goes is one of lowest
        priority when the bound is at most one or the forest is flat. */
    method Insert(priority: Item)
      requires Valid() && Near(Model() + multiset{priority})
      modifies heap
      ensures Valid() && Model() <= old(Model()) + multiset{priority}
      ensures |Model()| == if |old(Model())| < maxSize then |old(Model())| + 1 else maxSize
      ensures |old(Model())| < maxSize ==> Model() == old(Model()) + multiset{priority}
      ensures maxSize > 0 && |old(Model())| == maxSize ==> BestKeyKept(heap.mode, old(Model()) + multiset{priority}, Model())
      ensures |old(Model())| == maxSize && (maxSize <= 1 || Flat(Carry(heap.mode, Tree(priority, []), 0, old(heap.trees)))) ==>
        LowestDropped(heap.mode, old(Model()) + multiset{priority}, Model())
    {
      hide BestKeyKept;
      hide LowestDropped;
      hide Flat;
      hide Carry;
      hide AllItems;
      hide Near;
      hide AllHeaped;
      hide BestRootAt;
      heap.Insert(priority);
      if heap.count > maxSize { DropItems(heap.count - maxSize); }
    }

    /** pqueue_pull_highest: an item of best priority for the mode. */
    method PullHighest() returns (r: Option<Item>)
      requires Valid()
      modifies heap
      ensures Valid()
      ensures if r.Some? then IsBest(heap.mode, old(Model()), r.value) && Model() == old(Model()) - multiset{r.value}
              else Model() == old(Model()) == multiset{}
    {
      r := heap.DeleteBest();
    }

    /** pqueue_pull_lowest: takes the item at the end of the greedy descent, one of lowest priority when
        the forest is flat or holds at most two items; the best priority stays unless it was alone. */
    method PullLowest() returns (r: Option<Item>)
      requires Valid()
      modifies heap
      ensures Valid()
      ensures if r.Some? then r.value in old(Model()) && Model() == old(Model()) - multiset{r.value}
              else Model() == old(Model()) == multiset{}
      ensures r.Some? ==> EndsAt(old(heap.trees), Other(heap.mode), r.value, true)
      ensures r.Some? && FarEndExact(old(heap.trees)) ==> IsBest(Other(heap.mode), old(Model()), r.value)
      ensures |old(Model())| > 1 ==> BestKeyKept(heap.mode, old(Model()), Model())
    {
      r := heap.DeleteOther();
    }
  }
}
