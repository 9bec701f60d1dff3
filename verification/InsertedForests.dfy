/**
  Forests that insertions alone have built: for every number of items above two there are
  some whose far end the greedy descent misses.
 */
module InsertedForests {
  import opened Basics
  import opened BinomialTrees
  import opened GreedyDescent

  function Marked(mode: Mode, k: nat): Item
    requires k <= 4
  {
    Item(Rank(mode, k), NULL)
  }

  ghost predicate AllMiddle(mode: Mode, m: multiset<Item>) {
    forall y :: y in m ==> y.key == Rank(mode, 2)
  }

  /** A root with the extremum two levels below, beside children that look better. */
  ghost predicate Trap(mode: Mode, t: Tree) {
    && t.item == Marked(mode, 3) && |t.kids| >= 2
    && t.kids[1] == Tree(Marked(mode, 3), [Tree(Marked(mode, 1), [])])
    && forall i :: 0 <= i < |t.kids| && i != 1 ==> AllMiddle(mode, Items(t.kids[i]))
  }

  ghost predicate TrapForest(mode: Mode, ts: seq<Tree>) {
    && ts != [] && Trap(mode, ts[|ts| - 1])
    && forall i :: 0 <= i < |ts| - 1 ==> AllMiddle(mode, Items(ts[i]))
  }

  lemma {:induction false} RootMiddle(mode: Mode, t: Tree)
    requires AllMiddle(mode, Items(t))
    ensures t.item.key == Rank(mode, 2) && AllMiddle(mode, AllItems(t.kids))
  {
    assert t.item in Items(t);
  }

  /** A tree of middle keys ends up below a trap. */
  lemma {:induction false} LinkTrap(mode: Mode, node: Tree, t: Tree)
    requires AllMiddle(mode, Items(node)) && Trap(mode, t)
    ensures Trap(mode, Link(mode, node, t))
  {
    hide Items;
    RootMiddle(mode, node);
    assert Link(mode, node, t) == Merge(t, node);
  }

  /** Inserting middle keys keeps the trap. */
  lemma {:induction false} CarryTrap(mode: Mode, node: Tree, order: nat, rest: seq<Tree>)
    requires AllMiddle(mode, Items(node)) && TrapForest(mode, rest)
    ensures TrapForest(mode, Carry(mode, node, order, rest))
    decreases |rest|
  {
    hide Items;
    hide Trap;
    hide Link;
    if |rest[0].kids| == order {
      var linked := Link(mode, node, rest[0]);
      if |rest| == 1 {
        LinkTrap(mode, node, rest[0]);
        assert Carry(mode, linked, order + 1, rest[1..]) == [linked];
      } else {
        LinkItems(mode, node, rest[0]);
        CarryTrap(mode, linked, order + 1, rest[1..]);
      }
    }
  }

  lemma {:induction false} MiddleEnd(mode: Mode, ts: seq<Tree>, h: nat, x: Item)
    requires GreedyVia(ts, Other(mode), x, h) && AllMiddle(mode, Items(ts[h]))
    ensures x.key == Rank(mode, 2)
  {
    RootMiddle(mode, ts[h]);
    hide Items;
    hide AllItems;
    if ts[h].kids != [] { OneKey(ts[h].kids, Other(mode), x, Rank(mode, 2)); }
  }

  /** One more than a middle key wins against it: the descent for the other extremum avoids it. */
  lemma {:induction false} AvoidsHigh(mode: Mode, ts: seq<Tree>, h: nat, x: Item, high: nat)
    requires GreedyVia(ts, Other(mode), x, h) && high < |ts| && ts[high].item.key == Rank(mode, 3)
    requires ts[0].item.key == Rank(mode, 2)
    ensures h != high
  {
  }

  lemma {:induction false} TrapEnd(mode: Mode, ts: seq<Tree>, x: Item)
    requires TrapForest(mode, ts) && Greedy(ts, Other(mode), x)
    ensures x.key == Rank(mode, 2)
  {
    var n := |ts| - 1;
    var h: nat :| GreedyVia(ts, Other(mode), x, h);
    hide Items;
    hide Greedy;
    if n > 0 {
      RootMiddle(mode, ts[0]);
      AvoidsHigh(mode, ts, h, x, n);
      MiddleEnd(mode, ts, h, x);
    } else {
      TrapKidsEnd(mode, ts[0], x);
    }
  }

  lemma {:induction false} TrapKidsEnd(mode: Mode, t: Tree, x: Item)
    requires Trap(mode, t) && Greedy(t.kids, Other(mode), x)
    ensures x.key == Rank(mode, 2)
  {
    var h: nat :| GreedyVia(t.kids, Other(mode), x, h);
    hide Items;
    hide Greedy;
    RootMiddle(mode, t.kids[0]);
    AvoidsHigh(mode, t.kids, h, x, 1);
    MiddleEnd(mode, t.kids, h, x);
  }

  /** The items: for three, the trap is only half built. */
  function Bait(mode: Mode, n: nat): seq<Item>
    requires n >= 3
  {
    if n == 3 then [Marked(mode, 3), Marked(mode, 1), Marked(mode, 2)]
    else if n == 4 then [Marked(mode, 3), Marked(mode, 1), Marked(mode, 3), Marked(mode, 2)]
    else Bait(mode, n - 1) + [Marked(mode, 2)]
  }

  lemma {:induction false} InsertMore(mode: Mode, items: seq<Item>, x: Item)
    ensures InsertAll(mode, items + [x]) == Carry(mode, Tree(x, []), 0, InsertAll(mode, items))
  {
    assert (items + [x])[..|items|] == items;
  }

  lemma {:induction false} BaitKeys(mode: Mode, n: nat)
    requires n >= 3
    ensures |Bait(mode, n)| == n && Marked(mode, 1) in Bait(mode, n)
    ensures forall y :: y in Bait(mode, n) ==> y.key <= 4
    decreases n
  {
    if n == 3 || n == 4 {
      assert Bait(mode, n)[1] == Marked(mode, 1);
    } else {
      BaitKeys(mode, n - 1);
    }
  }

  lemma {:induction false} FirstTwo(mode: Mode)
    ensures InsertAll(mode, [Marked(mode, 3), Marked(mode, 1)]) == [Tree(Marked(mode, 3), [Tree(Marked(mode, 1), [])])]
  {
    var a, b := Marked(mode, 3), Marked(mode, 1);
    InsertMore(mode, [], a);
    InsertMore(mode, [a], b);
    assert [] + [a] == [a] && [a] + [b] == [a, b];
    assert InsertAll(mode, [a]) == [Tree(a, [])];
    var two := Tree(a, [Tree(b, [])]);
    assert Link(mode, Tree(b, []), Tree(a, [])) == two;
    assert Carry(mode, two, 1, []) == [two];
  }

  lemma {:induction false} ThirdItem(mode: Mode, c: Item)
    ensures InsertAll(mode, [Marked(mode, 3), Marked(mode, 1), c]) ==
            [Tree(c, []), Tree(Marked(mode, 3), [Tree(Marked(mode, 1), [])])]
  {
    var a, b := Marked(mode, 3), Marked(mode, 1);
    FirstTwo(mode);
    InsertMore(mode, [a, b], c);
    assert [a, b] + [c] == [a, b, c];
  }

  lemma {:induction false} FourthLink(mode: Mode)
    ensures var a, b, c := Marked(mode, 3), Marked(mode, 1), Marked(mode, 2);
            var three := Tree(a, [Tree(b, [])]);
            Carry(mode, Tree(c, []), 0, [Tree(a, []), three]) == [Tree(a, [Tree(c, []), three])]
  {
    var a, b, c := Marked(mode, 3), Marked(mode, 1), Marked(mode, 2);
    var two, three := Tree(a, [Tree(c, [])]), Tree(a, [Tree(b, [])]);
    assert [] + [Tree(c, [])] == [Tree(c, [])] && [Tree(c, [])] + [three] == [Tree(c, []), three];
    assert Link(mode, Tree(c, []), Tree(a, [])) == two;
    var top := Tree(a, [Tree(c, []), three]);
    assert Link(mode, two, three) == top;
    hide Link;
    assert [Tree(a, []), three][1..] == [three] && [three][1..] == [];
    assert Carry(mode, top, 2, []) == [top];
    assert Carry(mode, two, 1, [three]) == [top];
  }

  lemma {:induction false} FourTrap(mode: Mode)
    ensures TrapForest(mode, InsertAll(mode, Bait(mode, 4)))
  {
    var a, b, c := Marked(mode, 3), Marked(mode, 1), Marked(mode, 2);
    ThirdItem(mode, a);
    InsertMore(mode, [a, b, a], c);
    assert [a, b, a] + [c] == Bait(mode, 4);
    FourthLink(mode);
    hide Carry;
    hide InsertAll;
    LoneNode(mode, c);
  }

  lemma {:induction false} BaitTrap(mode: Mode, n: nat)
    requires n >= 4
    ensures TrapForest(mode, InsertAll(mode, Bait(mode, n)))
    decreases n
  {
    if n == 4 {
      FourTrap(mode);
    } else {
      BaitTrap(mode, n - 1);
      InsertMore(mode, Bait(mode, n - 1), Marked(mode, 2));
      LoneNode(mode, Marked(mode, 2));
      CarryTrap(mode, Tree(Marked(mode, 2), []), 0, InsertAll(mode, Bait(mode, n - 1)));
    }
  }

  lemma {:induction false} ThreeEnd(mode: Mode, x: Item)
    requires Greedy(InsertAll(mode, Bait(mode, 3)), Other(mode), x)
    ensures x.key == Rank(mode, 2)
  {
    var c := Marked(mode, 2);
    ThirdItem(mode, c);
    var ts := InsertAll(mode, Bait(mode, 3));
    var h: nat :| GreedyVia(ts, Other(mode), x, h);
    hide Greedy;
    AvoidsHigh(mode, ts, h, x, 1);
    assert ts[0] == Tree(c, []);
  }

  /** Wherever the descent ends in the forest of these insertions, it is not the far end. */
  ghost predicate InsertsMislead(mode: Mode, items: seq<Item>) {
    && (exists x :: Greedy(InsertAll(mode, items), Other(mode), x))
    && forall x :: Greedy(InsertAll(mode, items), Other(mode), x) ==> !IsBest(Other(mode), multiset(items), x)
  }

  lemma {:induction false} BaitEnd(mode: Mode, n: nat, x: Item)
    requires n >= 3 && Greedy(InsertAll(mode, Bait(mode, n)), Other(mode), x)
    ensures x.key == Rank(mode, 2)
  {
    hide Greedy;
    hide InsertAll;
    if n == 3 { ThreeEnd(mode, x); }
    else {
      BaitTrap(mode, n);
      TrapEnd(mode, InsertAll(mode, Bait(mode, n)), x);
    }
  }

  lemma {:induction false} BaitMisleads(mode: Mode, n: nat)
    requires n >= 3
    ensures InsertsMislead(mode, Bait(mode, n)) && Near(multiset(Bait(mode, n)))
  {
    var items := Bait(mode, n);
    BaitKeys(mode, n);
    SomeInserted(mode, items);
    hide Bait;
    hide Greedy;
    hide InsertAll;
    assert Marked(mode, 1) in multiset(items);
    forall x | Greedy(InsertAll(mode, items), Other(mode), x) ensures !IsBest(Other(mode), multiset(items), x) {
      BaitEnd(mode, n, x);
    }
  }

  lemma {:induction false} SomeInserted(mode: Mode, items: seq<Item>)
    requires items != []
    ensures exists x :: Greedy(InsertAll(mode, items), Other(mode), x)
  {
    InsertAllCounts(mode, items);
    hide Greedy;
    assert items[0] in multiset(items);
    SomeEnd(InsertAll(mode, items), Other(mode));
  }

  /** The descent is exact on the forest of these insertions. */
  ghost predicate InsertsExact(mode: Mode, items: seq<Item>) {
    forall x :: Greedy(InsertAll(mode, items), Other(mode), x) ==> IsBest(Other(mode), multiset(items), x)
  }

  /** After n insertions the descent for the other extremum is exact, whatever the items, exactly when n
      is at most two; beyond that there are items for which wherever it ends is wrong. */
  lemma {:induction false} ExactUpToTwo(mode: Mode, n: nat)
    ensures (forall items :: |items| == n && Near(multiset(items)) ==> InsertsExact(mode, items)) <==> n <= 2
    ensures n > 2 ==> exists items :: |items| == n && Near(multiset(items)) && InsertsMislead(mode, items)
  {
    hide Greedy;
    hide Near;
    if n <= 2 {
      forall items, x | |items| == n && Near(multiset(items)) && Greedy(InsertAll(mode, items), Other(mode), x)
        ensures IsBest(Other(mode), multiset(items), x)
      {
        InsertAllCounts(mode, items);
        FlatAfterInserts(mode, items);
        FlatIsExact(mode, InsertAll(mode, items), x);
      }
    } else {
      BaitMisleads(mode, n);
      BaitKeys(mode, n);
      var items := Bait(mode, n);
      assert !InsertsExact(mode, items);
    }
  }
}
