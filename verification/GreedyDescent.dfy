/**
  The far end of a heap: a heap of one mode looks for its other extremum by a greedy
  descent from the last root in order to a leaf. When that leaf is the extremum.
 */
module GreedyDescent {
  import opened Basics
  import opened BinFile
  import opened BinomialTrees

  /** No item of the collection comes before `x`. */
  ghost predicate IsBest(mode: Mode, m: multiset<Item>, x: Item) {
    x in m && forall y :: y in m ==> Beats(mode, x.key, y.key)
  }

  ghost predicate BestRootAt(mode: Mode, ts: seq<Tree>, h: nat) {
    h < |ts| && forall i :: 0 <= i < |ts| ==> Beats(mode, ts[h].item.key, ts[i].item.key)
  }

  function Other(mode: Mode): Mode {
    if mode.Max? then Min else Max
  }

  /** The descent can end at `x`: at each level it takes a root that is best for `want`. */
  ghost predicate Greedy(ts: seq<Tree>, want: Mode, x: Item)
    decreases ts, 1
  {
    exists h: nat :: GreedyVia(ts, want, x, h)
  }

  ghost predicate GreedyVia(ts: seq<Tree>, want: Mode, x: Item, h: nat)
    decreases ts, 0
  {
    BestRootAt(want, ts, h) && if ts[h].kids == [] then x == ts[h].item else Greedy(ts[h].kids, want, x)
  }

  /** The root the program takes: the last of the greatest or the first of the least; among children,
      the last of the best. */
  ghost predicate PickedAt(want: Mode, ts: seq<Tree>, h: nat, top: bool) {
    && BestRootAt(want, ts, h)
    && forall i :: 0 <= i < |ts| && ts[i].item.key == ts[h].item.key ==> if top && want.Min? then h <= i else i <= h
  }

  /** The descent of the program, from the roots of a heap or from the children of a node, ends at
      `x`. */
  ghost predicate EndsAt(ts: seq<Tree>, want: Mode, x: Item, top: bool)
    decreases ts, 1
  {
    exists h: nat :: EndsVia(ts, want, x, top, h)
  }

  ghost predicate EndsVia(ts: seq<Tree>, want: Mode, x: Item, top: bool, h: nat)
    decreases ts, 0
  {
    PickedAt(want, ts, h, top) && if ts[h].kids == [] then x == ts[h].item else EndsAt(ts[h].kids, want, x, false)
  }

  /** It ends at one item. */
  lemma {:induction false} OneEnd(ts: seq<Tree>, want: Mode, x: Item, y: Item, top: bool)
    requires EndsAt(ts, want, x, top) && EndsAt(ts, want, y, top)
    ensures x == y
    decreases ts
  {
    var h: nat :| EndsVia(ts, want, x, top, h);
    var k: nat :| EndsVia(ts, want, y, top, k);
    assert ts[h].item.key == ts[k].item.key && h == k;
    if ts[h].kids != [] { OneEnd(ts[h].kids, want, x, y, false); }
  }

  lemma {:induction false} EndIsGreedy(ts: seq<Tree>, want: Mode, x: Item, top: bool)
    requires EndsAt(ts, want, x, top)
    ensures Greedy(ts, want, x)
    decreases ts
  {
    var h: nat :| EndsVia(ts, want, x, top, h);
    if ts[h].kids != [] { EndIsGreedy(ts[h].kids, want, x, false); }
    assert GreedyVia(ts, want, x, h);
  }

  /** A chain of lone trees that ends in childless ones. */
  predicate Flat(ts: seq<Tree>)
    decreases ts
  {
    (forall i :: 0 <= i < |ts| ==> ts[i].kids == []) || (|ts| == 1 && Flat(ts[0].kids))
  }

  ghost predicate SameShape(ts: seq<Tree>, us: seq<Tree>)
    decreases ts
  {
    |ts| == |us| && forall i :: 0 <= i < |ts| ==> SameShape(ts[i].kids, us[i].kids)
  }

  lemma {:induction false} SomeBestRoot(want: Mode, ts: seq<Tree>)
    requires ts != []
    ensures exists h: nat :: BestRootAt(want, ts, h)
  {
    if |ts| == 1 {
      assert BestRootAt(want, ts, 0);
    } else {
      SomeBestRoot(want, ts[1..]);
      var h: nat :| BestRootAt(want, ts[1..], h);
      assert forall i :: 1 <= i < |ts| ==> ts[i] == ts[1..][i - 1];
      assert BestRootAt(want, ts, 0) || BestRootAt(want, ts, h + 1);
    }
  }

  /** The descent ends somewhere. */
  lemma {:induction false} SomeEnd(ts: seq<Tree>, want: Mode)
    requires ts != []
    ensures exists x :: Greedy(ts, want, x)
    decreases ts
  {
    SomeBestRoot(want, ts);
    var h: nat :| BestRootAt(want, ts, h);
    if ts[h].kids == [] {
      assert GreedyVia(ts, want, ts[h].item, h);
      assert Greedy(ts, want, ts[h].item);
    } else {
      SomeEnd(ts[h].kids, want);
      var x :| Greedy(ts[h].kids, want, x);
      assert GreedyVia(ts, want, x, h);
      assert Greedy(ts, want, x);
    }
  }

  // ---------------------------------------------------------------------
  // Flat forests

  lemma {:induction false} GreedyIn(ts: seq<Tree>, want: Mode, x: Item)
    requires Greedy(ts, want, x)
    ensures x in AllItems(ts)
    decreases ts
  {
    var h: nat :| GreedyVia(ts, want, x, h);
    if ts[h].kids != [] { GreedyIn(ts[h].kids, want, x); }
    hide Greedy;
    AllItemsSplit(ts, h);
  }

  lemma {:induction false} ChildlessExact(want: Mode, ts: seq<Tree>, h: nat)
    requires BestRootAt(want, ts, h) && forall i :: 0 <= i < |ts| ==> ts[i].kids == []
    ensures IsBest(want, AllItems(ts), ts[h].item)
  {
    RootIn(ts, h);
    forall y | y in AllItems(ts) ensures Beats(want, ts[h].item.key, y.key) {
      ForestBeats(want, ts[h].item.key, ts, y);
    }
  }

  lemma {:induction false} LoneExact(mode: Mode, t: Tree, x: Item)
    requires Heaped(mode, t) && IsBest(Other(mode), AllItems(t.kids), x)
    ensures IsBest(Other(mode), AllItems([t]), x)
  {
    AllItemsOne(t);
    assert x in Items(t);
    RootBeats(mode, t, x);
  }

  /** In a flat forest the descent ends at the extremum, whatever the keys. */
  lemma {:induction false} FlatIsExact(mode: Mode, ts: seq<Tree>, x: Item)
    requires Flat(ts) && AllHeaped(mode, ts) && Greedy(ts, Other(mode), x)
    ensures IsBest(Other(mode), AllItems(ts), x)
    decreases ts
  {
    hide AllItems;
    hide IsBest;
    var h: nat :| GreedyVia(ts, Other(mode), x, h);
    if forall i :: 0 <= i < |ts| ==> ts[i].kids == [] {
      ChildlessExact(Other(mode), ts, h);
    } else {
      var t := ts[0];
      assert ts == [t] && Heaped(mode, t) && h == 0;
      FlatIsExact(mode, t.kids, x);
      LoneExact(mode, t, x);
    }
  }

  // ---------------------------------------------------------------------
  // Any other forest

  /** Keys that read the same from either end. */
  function Rank(mode: Mode, k: nat): Word64
    requires k <= 4
  {
    if mode.Max? then k else 4 - k
  }

  /** The same shape with one key everywhere. */
  function Paint(ts: seq<Tree>, key: Word64): (us: seq<Tree>)
    ensures |us| == |ts|
    decreases ts
  {
    if ts == [] then [] else [Tree(Item(key, NULL), Paint(ts[0].kids, key))] + Paint(ts[1..], key)
  }

  lemma {:induction false} PaintFacts(mode: Mode, ts: seq<Tree>, key: Word64)
    ensures SameShape(ts, Paint(ts, key)) && AllHeaped(mode, Paint(ts, key))
    ensures forall y :: y in AllItems(Paint(ts, key)) ==> y.key == key
    ensures forall i :: 0 <= i < |ts| ==> Paint(ts, key)[i] == Tree(Item(key, NULL), Paint(ts[i].kids, key))
    decreases ts
  {
    if ts != [] {
      PaintFacts(mode, ts[0].kids, key);
      PaintFacts(mode, ts[1..], key);
      var us := Paint(ts, key);
      assert us[1..] == Paint(ts[1..], key);
      forall i | 0 <= i < |ts| ensures SameShape(ts[i].kids, us[i].kids) && Heaped(mode, us[i]) {
        if i > 0 { assert us[i] == us[1..][i - 1] && ts[i] == ts[1..][i - 1]; }
      }
    }
  }

  /** A painted tree below a root of its own key. */
  function Bush(t: Tree, top: Word64, key: Word64): Tree {
    Tree(Item(top, NULL), Paint(t.kids, key))
  }

  /** Other keys on the same shape, for which the descent goes astray: a tree with children hides
      the extremum behind a root that loses against every other. */
  function Mislead(mode: Mode, ts: seq<Tree>): (us: seq<Tree>)
    requires !Flat(ts)
    ensures |us| == |ts|
    decreases ts
  {
    if |ts| == 1 then [Tree(Item(Rank(mode, 3), NULL), Mislead(mode, ts[0].kids))] else
    var i := WithKids(ts);
    seq(|ts|, j requires 0 <= j < |ts| =>
      if j == i then Bush(ts[j], Rank(mode, 3), Rank(mode, 1)) else Bush(ts[j], Rank(mode, 2), Rank(mode, 2)))
  }

  /** The first tree that has children. */
  function WithKids(ts: seq<Tree>): (i: nat)
    requires exists j :: 0 <= j < |ts| && ts[j].kids != []
    ensures i < |ts| && ts[i].kids != []
  {
    if ts[0].kids != [] then 0 else
    assert exists j :: 0 <= j < |ts[1..]| && ts[1..][j].kids != [] by {
      var j :| 0 <= j < |ts| && ts[j].kids != [];
      assert ts[1..][j - 1].kids != [];
    }
    1 + WithKids(ts[1..])
  }

  /** All keys of the forest are ranks from one to three. */
  ghost predicate Ranked(mode: Mode, m: multiset<Item>) {
    forall y :: y in m ==> y.key == Rank(mode, 1) || y.key == Rank(mode, 2) || y.key == Rank(mode, 3)
  }

  lemma {:induction false} BushFacts(mode: Mode, t: Tree, top: nat, k: nat)
    requires 1 <= k <= top <= 3
    ensures var u := Bush(t, Rank(mode, top), Rank(mode, k));
            && Heaped(mode, u) && SameShape(t.kids, u.kids) && Ranked(mode, Items(u))
            && (forall y :: y in AllItems(u.kids) ==> y.key == Rank(mode, k))
  {
    PaintFacts(mode, t.kids, Rank(mode, k));
  }

  lemma {:induction false} ForestRanked(mode: Mode, us: seq<Tree>)
    requires forall i :: 0 <= i < |us| ==> Ranked(mode, Items(us[i]))
    ensures Ranked(mode, AllItems(us))
  {
    hide Items;
    if us != [] { ForestRanked(mode, us[1..]); }
  }

  /** The descent through a forest of one key ends at that key. */
  lemma {:induction false} OneKey(us: seq<Tree>, want: Mode, x: Item, key: Word64)
    requires Greedy(us, want, x) && forall y :: y in AllItems(us) ==> y.key == key
    ensures x.key == key
  {
    GreedyIn(us, want, x);
  }

  /** What `Mislead` is for. */
  ghost predicate Misleads(mode: Mode, ts: seq<Tree>, us: seq<Tree>) {
    && SameShape(ts, us) && AllHeaped(mode, us) && Ranked(mode, AllItems(us))
    && (exists x :: Greedy(us, Other(mode), x))
    && forall x :: Greedy(us, Other(mode), x) ==> !IsBest(Other(mode), AllItems(us), x)
  }

  lemma {:induction false} MisleadMany(mode: Mode, ts: seq<Tree>)
    requires !Flat(ts) && |ts| != 1
    ensures Misleads(mode, ts, Mislead(mode, ts))
  {
    assert ts != [];
    hide Greedy;
    hide Flat;
    hide AllItems;
    hide Mislead;
    hide SameShape;
    hide IsBest;
    hide AllHeaped;
    hide Ranked;
    MisleadShape(mode, ts);
    SomeEnd(Mislead(mode, ts), Other(mode));
    forall x | Greedy(Mislead(mode, ts), Other(mode), x) ensures !IsBest(Other(mode), AllItems(Mislead(mode, ts)), x) {
      MisleadAstray(mode, ts, x);
    }
  }

  lemma {:induction false} MisleadShape(mode: Mode, ts: seq<Tree>)
    requires !Flat(ts) && |ts| != 1
    ensures var us := Mislead(mode, ts); SameShape(ts, us) && AllHeaped(mode, us) && Ranked(mode, AllItems(us))
  {
    hide Flat;
    hide Mislead;
    hide AllItems;
    hide Items;
    hide Heaped;
    hide Ranked;
    var us := Mislead(mode, ts);
    forall j | 0 <= j < |ts| ensures Heaped(mode, us[j]) && SameShape(ts[j].kids, us[j].kids) && Ranked(mode, Items(us[j])) {
      MisleadAt(mode, ts, j);
    }
    ForestRanked(mode, us);
  }

  lemma {:induction false} MisleadAstray(mode: Mode, ts: seq<Tree>, x: Item)
    requires !Flat(ts) && |ts| != 1 && Greedy(Mislead(mode, ts), Other(mode), x)
    ensures !IsBest(Other(mode), AllItems(Mislead(mode, ts)), x)
  {
    hide Greedy;
    hide AllItems;
    hide Mislead;
    var i := WithKids(ts);
    hide WithKids;
    hide Flat;
    AstrayKey(mode, ts, i, x);
    HiddenKey(mode, ts, i);
  }

  lemma {:induction false} MisleadAt(mode: Mode, ts: seq<Tree>, j: nat)
    requires !Flat(ts) && |ts| != 1 && j < |ts|
    ensures var u := Mislead(mode, ts)[j]; Heaped(mode, u) && SameShape(ts[j].kids, u.kids) && Ranked(mode, Items(u))
  {
    BushFacts(mode, ts[j], 3, 1);
    BushFacts(mode, ts[j], 2, 2);
  }

  /** The descent passes the tree that hides the extremum by. */
  lemma {:induction false} AstrayKey(mode: Mode, ts: seq<Tree>, i: nat, x: Item)
    requires !Flat(ts) && |ts| != 1 && i == WithKids(ts) && Greedy(Mislead(mode, ts), Other(mode), x)
    ensures x.key == Rank(mode, 2)
  {
    var us := Mislead(mode, ts);
    var h: nat :| GreedyVia(us, Other(mode), x, h);
    var j := if i == 0 then 1 else 0;
    assert |ts| >= 2 && us[j].item.key == Rank(mode, 2) && us[i].item.key == Rank(mode, 3);
    assert h != i;
    BushFacts(mode, ts[h], 2, 2);
    if us[h].kids != [] { OneKey(us[h].kids, Other(mode), x, Rank(mode, 2)); }
  }

  /** The extremum is there all the same. */
  lemma {:induction false} HiddenKey(mode: Mode, ts: seq<Tree>, i: nat)
    requires !Flat(ts) && |ts| != 1 && i == WithKids(ts)
    ensures exists y :: y in AllItems(Mislead(mode, ts)) && y.key == Rank(mode, 1)
  {
    hide AllItems;
    var us := Mislead(mode, ts);
    var kids := us[i].kids;
    assert kids == Paint(ts[i].kids, Rank(mode, 1)) && kids[0].item.key == Rank(mode, 1);
    RootIn(kids, 0);
    AllItemsSplit(us, i);
    assert kids[0].item in AllItems(us);
  }

  lemma {:induction false} MisleadFacts(mode: Mode, ts: seq<Tree>)
    requires !Flat(ts)
    ensures Misleads(mode, ts, Mislead(mode, ts))
    decreases ts
  {
    if |ts| == 1 {
      MisleadFacts(mode, ts[0].kids);
      MisleadOne(mode, ts);
    } else {
      MisleadMany(mode, ts);
    }
  }

  lemma {:induction false} GreedyBelow(u: Tree, want: Mode, x: Item)
    requires u.kids != [] && Greedy([u], want, x)
    ensures Greedy(u.kids, want, x)
  {
    var us := [u];
    var h: nat :| GreedyVia(us, want, x, h);
  }

  /** A lone root on top changes nothing about where the descent ends. */
  lemma {:induction false} StillAstray(mode: Mode, u: Tree, x: Item)
    requires u.kids != [] && Greedy([u], Other(mode), x)
    requires forall y :: Greedy(u.kids, Other(mode), y) ==> !IsBest(Other(mode), AllItems(u.kids), y)
    ensures !IsBest(Other(mode), AllItems([u]), x)
  {
    hide Greedy;
    GreedyBelow(u, Other(mode), x);
    GreedyIn(u.kids, Other(mode), x);
    AllItemsOne(u);
  }

  lemma {:induction false} LoneTop(mode: Mode, u: Tree)
    requires u.item.key == Rank(mode, 3) && AllHeaped(mode, u.kids) && Ranked(mode, AllItems(u.kids))
    ensures AllHeaped(mode, [u]) && Ranked(mode, AllItems([u]))
  {
    AllItemsOne(u);
    forall i | 0 <= i < |u.kids| ensures Beats(mode, u.item.key, u.kids[i].item.key) { RootIn(u.kids, i); }
  }

  lemma {:induction false} MisleadOne(mode: Mode, ts: seq<Tree>)
    requires !Flat(ts) && |ts| == 1 && Misleads(mode, ts[0].kids, Mislead(mode, ts[0].kids))
    ensures Misleads(mode, ts, Mislead(mode, ts))
  {
    hide Greedy;
    hide AllItems;
    hide AllHeaped;
    hide Ranked;
    hide IsBest;
    var vs := Mislead(mode, ts[0].kids);
    var u := Tree(Item(Rank(mode, 3), NULL), vs);
    assert Mislead(mode, ts) == [u] && vs != [];
    hide Mislead;
    hide Flat;
    LoneTop(mode, u);
    SomeEnd([u], Other(mode));
    forall x | Greedy([u], Other(mode), x) ensures !IsBest(Other(mode), AllItems([u]), x) {
      StillAstray(mode, u, x);
    }
  }

  lemma {:induction false} FlatShape(ts: seq<Tree>, us: seq<Tree>)
    requires Flat(ts) && SameShape(ts, us)
    ensures Flat(us)
    decreases ts
  {
    if forall i :: 0 <= i < |ts| ==> ts[i].kids == [] {
      forall i | 0 <= i < |us| ensures us[i].kids == [] { assert SameShape(ts[i].kids, us[i].kids); }
    } else {
      FlatShape(ts[0].kids, us[0].kids);
    }
  }

  /** The descent for the other extremum finds it for every choice of keys exactly when the forest is
      flat; on any other shape there are keys for which wherever it ends is wrong. */
  lemma {:induction false} ExactIffFlat(mode: Mode, ts: seq<Tree>)
    ensures Flat(ts) ==> forall us, x :: SameShape(ts, us) && AllHeaped(mode, us) && Greedy(us, Other(mode), x) ==>
              IsBest(Other(mode), AllItems(us), x)
    ensures !Flat(ts) ==> exists us :: Misleads(mode, ts, us)
  {
    if Flat(ts) {
      forall us, x | SameShape(ts, us) && AllHeaped(mode, us) && Greedy(us, Other(mode), x)
        ensures IsBest(Other(mode), AllItems(us), x)
      {
        FlatShape(ts, us);
        FlatIsExact(mode, us, x);
      }
    } else {
      MisleadFacts(mode, ts);
    }
  }

  // ---------------------------------------------------------------------
  // How many items

  lemma {:induction false} AtLeastRoots(ts: seq<Tree>)
    ensures |AllItems(ts)| >= |ts|
  {
    if ts != [] { AtLeastRoots(ts[1..]); }
  }

  /** A forest of at most two items is flat. */
  lemma {:induction false} FewAreFlat(ts: seq<Tree>)
    requires |AllItems(ts)| <= 2
    ensures Flat(ts)
  {
    AtLeastRoots(ts);
    if |ts| == 1 {
      var kids := ts[0].kids;
      assert [ts[0]] == ts;
      AllItemsOne(ts[0]);
      AtLeastRoots(kids);
      forall i | 0 <= i < |kids| ensures kids[i].kids == [] { LoneItem(kids, i); }
    } else {
      forall i | 0 <= i < |ts| ensures ts[i].kids == [] { LoneItem(ts, i); }
    }
  }

  lemma {:induction false} LoneItem(ts: seq<Tree>, i: nat)
    requires i < |ts| && |AllItems(ts)| <= |ts|
    ensures ts[i].kids == []
  {
    hide AllItems;
    AllItemsSplit(ts, i);
    AtLeastRoots(ts[..i]);
    AtLeastRoots(ts[i + 1..]);
    AtLeastRoots(ts[i].kids);
  }

  lemma {:induction false} NoBits(n: nat, k: nat)
    ensures Bits(n, k) == [] <==> n == 0
    decreases n
  {
    if n > 0 { NoBits(n / 2, k + 1); }
  }

  /** A single bit of a number above two is at least the third. */
  lemma {:induction false} SingleBit(n: nat)
    requires n > 2 && |Bits(n, 0)| == 1
    ensures Bits(n, 0)[0] >= 2
  {
    NoBits(n / 2, 1);
    NoBits(n / 2 / 2, 2);
    BitsAbove(n / 2 / 2, 2);
    NextBit(n, 0);
    NextBit(n / 2, 1);
  }

  lemma {:induction false} NextBit(n: nat, k: nat)
    ensures Bits(n, k) == if n % 2 == 1 then [k] + Bits(n / 2, k + 1) else Bits(n / 2, k + 1)
  {
  }

  /** A counter is flat exactly up to two: from the third insertion on the descent can be misled. */
  lemma {:induction false} CounterFlat(ts: seq<Tree>, n: nat)
    requires Counter(ts, n, 0)
    ensures Flat(ts) <==> n <= 2
  {
    SmallBits();
    if n == 2 {
      assert Binomial(ts[0], 1);
      assert Binomial(ts[0].kids[0], 0);
    } else if n == 1 {
      assert Binomial(ts[0], 0);
    } else if n > 2 {
      NoBits(n, 0);
      BitsIncrease(n, 0);
      if |ts| == 1 {
        SingleBit(n);
        assert Binomial(ts[0], |ts[0].kids|) && |ts[0].kids| >= 2;
        assert Binomial(ts[0].kids[1], 1);
      } else {
        assert Binomial(ts[1], Bits(n, 0)[1]) && Bits(n, 0)[1] > Bits(n, 0)[0];
        assert ts[1].kids != [];
      }
    }
  }

  lemma {:induction false} SmallBits()
    ensures Bits(0, 0) == [] && Bits(1, 0) == [0] && Bits(2, 0) == [1]
  {
    assert Bits(0, 1) == [] && Bits(0, 2) == [];
    assert Bits(1, 1) == [1] + Bits(0, 2);
  }

  /** After insertions only, the forest is flat exactly up to two of them. */
  lemma {:induction false} FlatAfterInserts(mode: Mode, items: seq<Item>)
    ensures Flat(InsertAll(mode, items)) <==> |items| <= 2
  {
    hide Flat;
    InsertAllCounts(mode, items);
    CounterFlat(InsertAll(mode, items), |items|);
  }

  /** Three insertions already make a forest that is not flat. */
  lemma {:induction false} ThreeAreTooMany()
    ensures InsertAll(Max, [Item(10, 1), Item(1, 2), Item(5, 3)]) ==
            [Tree(Item(5, 3), []), Tree(Item(10, 1), [Tree(Item(1, 2), [])])]
    ensures Greedy(InsertAll(Max, [Item(10, 1), Item(1, 2), Item(5, 3)]), Min, Item(5, 3))
  {
    var a, b, c := Item(10, 1), Item(1, 2), Item(5, 3);
    assert [a, b, c][..2] == [a, b] && [a, b][..1] == [a] && [a][..0] == [];
    assert InsertAll(Max, [a]) == [Tree(a, [])];
    assert Cmp(1, 10) == -9;
    var two := Tree(a, [Tree(b, [])]);
    assert Link(Max, Tree(b, []), Tree(a, [])) == two && Carry(Max, two, 1, []) == [two];
    assert InsertAll(Max, [a, b]) == [Tree(a, [Tree(b, [])])];
    var ts := [Tree(c, []), Tree(a, [Tree(b, [])])];
    assert InsertAll(Max, [a, b, c]) == ts;
    assert GreedyVia(ts, Min, c, 0);
  }
}
