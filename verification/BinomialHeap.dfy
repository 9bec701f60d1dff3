/**
  The binomial heap over uint64_t keys: a list of trees, a pointer to the root of best
  precedence, and a count. Trees are values here; the head is the position of its root.
 */
module BinomialHeap {
  import opened Basics
  import opened BinomialTrees
  import opened GreedyDescent

  lemma {:induction false} BestRootIsBest(mode: Mode, ts: seq<Tree>, h: nat)
    requires AllHeaped(mode, ts) && BestRootAt(mode, ts, h)
    ensures IsBest(mode, AllItems(ts), ts[h].item)
  {
    RootIn(ts, h);
    forall y | y in AllItems(ts) ensures Beats(mode, ts[h].item.key, y.key) {
      ForestBeats(mode, ts[h].item.key, ts, y);
    }
  }

  lemma {:induction false} RootsClose(ts: seq<Tree>, i: nat, j: nat)
    requires Near(AllItems(ts)) && i < |ts| && j < |ts|
    ensures Cmp(ts[i].item.key, ts[j].item.key) == ts[i].item.key - ts[j].item.key
  {
    RootIn(ts, i);
    RootIn(ts, j);
    CmpExact(ts[i].item.key, ts[j].item.key);
  }

  /** One more root: it takes over when it is better, or as good and ties go to the later one. */
  lemma {:induction false} PickedNext(want: Mode, ts: seq<Tree>, i: nat, h: nat, top: bool)
    requires 0 < i < |ts| && PickedAt(want, ts[..i], h, top)
    ensures var k, d := ts[i].item.key, ts[h].item.key;
            PickedAt(want, ts[..i + 1], if k == d then (if top && want.Min? then h else i) else if Beats(want, k, d) then i else h, top)
  {
    var us := ts[..i + 1];
    assert forall j :: 0 <= j < i ==> us[j] == ts[..i][j] == ts[j];
  }

  /** binheap_maxmin: the last of the greatest roots, or the first of the least. */
  method FindRoot(ts: seq<Tree>, want: Mode) returns (h: nat)
    requires ts != [] && Near(AllItems(ts))
    ensures PickedAt(want, ts, h, true)
  {
    h := 0;
    assert PickedAt(want, ts[..1], 0, true);
    hide PickedAt;
    hide Cmp;
    hide Near;
    hide AllItems;
    for i := 1 to |ts|
      invariant h < i && PickedAt(want, ts[..i], h, true)
    {
      RootsClose(ts, i, h);
      PickedNext(want, ts, i, h, true);
      var bigger := Cmp(ts[i].item.key, ts[h].item.key) >= 0;
      if bigger == want.Max? { h := i; }
    }
    assert ts[..|ts|] == ts;
  }

  /** binomial_tree_node_find_max_child and its twin: the last of the best children. */
  method FindChild(kids: seq<Tree>, want: Mode) returns (c: nat)
    requires kids != [] && Near(AllItems(kids))
    ensures PickedAt(want, kids, c, false)
  {
    c := 0;
    assert PickedAt(want, kids[..1], 0, false);
    hide PickedAt;
    hide Cmp;
    hide Near;
    hide AllItems;
    for i := 0 to |kids|
      invariant if i == 0 then c == 0 else c < i && PickedAt(want, kids[..i], c, false)
    {
      RootsClose(kids, i, c);
      if i > 0 { PickedNext(want, kids, i, c, false); }
      var d := Cmp(kids[i].item.key, kids[c].item.key);
      if if want.Max? then d >= 0 else d <= 0 { c := i; }
    }
    assert kids[..|kids|] == kids;
  }

  /** The leaf that the greedy descent for the other extremum ends at, taken out of its tree. */
  method TakeLeaf(mode: Mode, t: Tree, want: Mode) returns (x: Item, made: Tree)
    requires t.kids != [] && Heaped(mode, t) && Near(Items(t))
    ensures Heaped(mode, made) && made.item == t.item && Items(t) == Items(made) + multiset{x}
    ensures EndsAt(t.kids, want, x, false) && LeafCut(t, made, want, x)
    decreases t
  {
    hide Items;
    hide AllItems;
    hide Near;
    KidsNear(t);
    var c := FindChild(t.kids, want);
    var kid := t.kids[c];
    assert Heaped(mode, kid);
    hide Heaped;
    hide EndsAt;
    hide LeafCut;
    if kid.kids == [] {
      x := kid.item;
      made := t.(kids := t.kids[..c] + t.kids[c + 1..]);
      LoneNode(mode, x);
      assert kid == Tree(x, []);
      WithoutKidItems(t, c);
      WithoutKidHeaped(mode, t, c);
    } else {
      KidNear(t, c);
      var less;
      x, less := TakeLeaf(mode, kid, want);
      made := t.(kids := t.kids[c := less]);
      NewKidItems(t, c, less, x);
      NewKidHeaped(mode, t, c, less);
    }
    EndsThere(t.kids, want, x, false, c);
    CutThere(t, made, want, x, c);
  }

  lemma {:induction false} CutThere(t: Tree, made: Tree, want: Mode, x: Item, c: nat)
    requires CutVia(t, made, want, x, c)
    ensures LeafCut(t, made, want, x)
  {
  }

  lemma {:induction false} EndsThere(ts: seq<Tree>, want: Mode, x: Item, top: bool, h: nat)
    requires EndsVia(ts, want, x, top, h)
    ensures EndsAt(ts, want, x, top)
  {
  }

  lemma {:induction false} KidsNear(t: Tree)
    requires Near(Items(t))
    ensures Near(AllItems(t.kids))
  {
    NearPart(Items(t), AllItems(t.kids));
  }

  lemma {:induction false} KidNear(t: Tree, c: nat)
    requires Near(Items(t)) && c < |t.kids|
    ensures Near(Items(t.kids[c]))
  {
    AllItemsSplit(t.kids, c);
    NearPart(Items(t), Items(t.kids[c]));
  }

  lemma {:induction false} WithoutKidItems(t: Tree, c: nat)
    requires c < |t.kids|
    ensures Items(t) == Items(t.(kids := t.kids[..c] + t.kids[c + 1..])) + Items(t.kids[c])
  {
    hide AllItems;
    AllItemsSplit(t.kids, c);
  }

  lemma {:induction false} NewKidItems(t: Tree, c: nat, kid: Tree, x: Item)
    requires c < |t.kids| && Items(t.kids[c]) == Items(kid) + multiset{x}
    ensures Items(t) == Items(t.(kids := t.kids[c := kid])) + multiset{x}
  {
    hide AllItems;
    AllItemsSplit(t.kids, c);
    AllItemsSwap(t.kids, c, kid);
  }

  /** A root without children leaves the list. */
  lemma {:induction false} DropRoot(mode: Mode, ts: seq<Tree>, h: nat)
    requires h < |ts| && ts[h].kids == [] && AllHeaped(mode, ts)
    ensures var us := ts[..h] + ts[h + 1..];
            AllItems(us) == AllItems(ts) - multiset{ts[h].item} && AllHeaped(mode, us)
  {
    hide AllItems;
    hide Items;
    hide Heaped;
    LoneNode(mode, ts[h].item);
    assert ts[h] == Tree(ts[h].item, []);
    AllItemsSplit(ts, h);
    var us := ts[..h] + ts[h + 1..];
    assert forall i :: 0 <= i < |us| ==> us[i] == if i < h then ts[i] else ts[i + 1];
  }

  /** A tree that holds what the children of a root held takes its place. */
  lemma {:induction false} ReplaceRoot(mode: Mode, ts: seq<Tree>, h: nat, made: Tree)
    requires h < |ts| && AllHeaped(mode, ts) && Heaped(mode, made) && Items(made) == AllItems(ts[h].kids)
    ensures AllItems(ts[h := made]) == AllItems(ts) - multiset{ts[h].item} && AllHeaped(mode, ts[h := made])
  {
    hide AllItems;
    hide Heaped;
    AllItemsSplit(ts, h);
    AllItemsSwap(ts, h, made);
  }

  lemma {:induction false} RootKids(mode: Mode, ts: seq<Tree>, h: nat)
    requires h < |ts| && AllHeaped(mode, ts) && Near(AllItems(ts))
    ensures AllHeaped(mode, ts[h].kids) && Near(AllItems(ts[h].kids)) && ts[h].item in AllItems(ts)
    ensures Near(AllItems(ts) - multiset{ts[h].item})
  {
    AllItemsSplit(ts, h);
    assert Heaped(mode, ts[h]);
    NearPart(AllItems(ts), AllItems(ts[h].kids));
    NearPart(AllItems(ts), AllItems(ts) - multiset{ts[h].item});
  }

  lemma {:induction false} WithoutKidHeaped(mode: Mode, t: Tree, c: nat)
    requires Heaped(mode, t) && c < |t.kids|
    ensures Heaped(mode, t.(kids := t.kids[..c] + t.kids[c + 1..]))
  {
    var kids := t.kids[..c] + t.kids[c + 1..];
    assert forall i :: 0 <= i < |kids| ==> kids[i] == if i < c then t.kids[i] else t.kids[i + 1];
  }

  lemma {:induction false} NewKidHeaped(mode: Mode, t: Tree, c: nat, kid: Tree)
    requires Heaped(mode, t) && c < |t.kids| && Heaped(mode, kid) && kid.item == t.kids[c].item
    ensures Heaped(mode, t.(kids := t.kids[c := kid]))
  {
  }

  /** The best key is still there. */
  ghost predicate BestKeyKept(mode: Mode, before: multiset<Item>, after: multiset<Item>) {
    exists x, y :: IsBest(mode, before, x) && IsBest(mode, after, y) && x.key == y.key
  }

  lemma {:induction false} NoTrees()
    ensures AllItems([]) == multiset{}
  {
  }

  /** A lone root that is the worst of the roots leaves: whatever root is then best has the old
      best key. */
  lemma {:induction false} SameTop(mode: Mode, ts: seq<Tree>, top: nat, h: nat, us: seq<Tree>, k: nat)
    requires BestRootAt(mode, ts, top) && BestRootAt(Other(mode), ts, h)
    requires us == ts[..h] + ts[h + 1..] && k < |us|
    requires if top == h then true else k == if top > h then top - 1 else top
    ensures us[k].item.key == ts[top].item.key
    ensures top != h ==> BestRootAt(mode, us, k)
  {
    assert forall i :: 0 <= i < |us| ==> us[i] == if i < h then ts[i] else ts[i + 1];
  }

  lemma {:induction false} SwapRoot(mode: Mode, ts: seq<Tree>, h: nat, made: Tree, x: Item)
    requires h < |ts| && AllHeaped(mode, ts) && Heaped(mode, made) && Items(ts[h]) == Items(made) + multiset{x}
    requires Near(AllItems(ts))
    ensures x in AllItems(ts) && AllItems(ts[h := made]) == AllItems(ts) - multiset{x} && AllHeaped(mode, ts[h := made])
    ensures Near(AllItems(ts[h := made]))
  {
    hide AllItems;
    hide Items;
    hide Heaped;
    AllItemsSplit(ts, h);
    AllItemsSwap(ts, h, made);
    NearPart(AllItems(ts), AllItems(ts[h := made]));
  }

  lemma {:induction false} RootTreeNear(ts: seq<Tree>, h: nat)
    requires h < |ts| && Near(AllItems(ts))
    ensures Near(Items(ts[h]))
  {
    AllItemsSplit(ts, h);
    NearPart(AllItems(ts), Items(ts[h]));
  }

  /** A child in the place of its parent: its siblings, in order, come behind its own children. */
  function Raised(kids: seq<Tree>, c: nat): Tree
    requires c < |kids|
  {
    Tree(kids[c].item, kids[c].kids + kids[..c] + kids[c + 1..])
  }

  lemma {:induction false} RaisedIs(kids: seq<Tree>, c: nat)
    requires c < |kids|
    ensures Promote(kids, c) == Raised(kids, c)
  {
    assert kids[c].kids + (kids[..c] + kids[c + 1..]) == kids[c].kids + kids[..c] + kids[c + 1..];
  }

  /** A tree from which the leaf at the end of the descent has been cut, everything else in place. */
  ghost predicate LeafCut(t: Tree, made: Tree, want: Mode, x: Item)
    decreases t, 1
  {
    exists c: nat :: CutVia(t, made, want, x, c)
  }

  ghost predicate CutVia(t: Tree, made: Tree, want: Mode, x: Item, c: nat)
    decreases t, 0
  {
    && PickedAt(want, t.kids, c, false) && made.item == t.item
    && if t.kids[c].kids == [] then x == t.kids[c].item && made.kids == t.kids[..c] + t.kids[c + 1..]
       else |made.kids| == |t.kids| && made.kids == t.kids[c := made.kids[c]] && LeafCut(t.kids[c], made.kids[c], want, x)
  }

  ghost predicate RootCut(ts: seq<Tree>, us: seq<Tree>, want: Mode, x: Item, h: nat)
    requires h < |ts|
  {
    if ts[h].kids == [] then x == ts[h].item && us == ts[..h] + ts[h + 1..]
    else |us| == |ts| && us == ts[h := us[h]] && LeafCut(ts[h], us[h], want, x)
  }

  class Heap {
    const mode: Mode
    var trees: seq<Tree>
    var head: Option<nat>
    var count: int

    ghost function Model(): multiset<Item>
      reads this
    {
      AllItems(trees)
    }

    /** Heap order, and a count that is right; every key close to every other. */
    ghost predicate Sound()
      reads this
    {
      AllHeaped(mode, trees) && Near(Model()) && count == |Model()|
    }

    ghost predicate Valid()
      reads this
    {
      Sound() && (trees == [] <==> head.None?) && (head.Some? ==> BestRootAt(mode, trees, head.value))
    }

    constructor (mode: Mode)
      ensures Valid() && this.mode == mode && trees == [] && Model() == multiset{}
    {
      this.mode, trees, head, count := mode, [], None, 0;
    }

    /** UPDATE_HEAD. */
    method UpdateHead()
      requires Sound()
      modifies this`head
      ensures Valid() && (head.Some? ==> PickedAt(mode, trees, head.value, true))
    {
      head := None;
      if trees != [] {
        var h := FindRoot(trees, mode);
        head := Some(h);
      }
    }

    /** binheap_insert: the carry loop over the list of trees. */
    method Insert(x: Item)
      requires Valid() && Near(Model() + multiset{x})
      modifies this
      ensures Valid() && Model() == old(Model()) + multiset{x}
      ensures trees == Carry(mode, Tree(x, []), 0, old(trees))
    {
      hide Heaped;
      hide Near;
      hide Cmp;
      var node, order, rest := Tree(x, []), 0, trees;
      LoneNode(mode, x);
      CarryItems(mode, node, 0, trees);
      assert Items(node) + Model() == Model() + multiset{x};
      CarryHeaped(mode, node, 0, trees);
      while rest != [] && |rest[0].kids| == order
        invariant Carry(mode, node, order, rest) == Carry(mode, Tree(x, []), 0, trees)
        decreases |rest|
      {
        var tree := rest[0];
        rest := rest[1..];
        if HasPrecedence(mode, node.item.key, tree.item.key) { node := Merge(node, tree); }
        else { node := Merge(tree, node); }
        order := order + 1;
      }
      hide AllItems;
      trees := [node] + rest;
      count := count + 1;
      UpdateHead();
    }

    /** The mode's own extremum. */
    method Best() returns (r: Option<Item>)
      requires Valid()
      ensures if r.Some? then IsBest(mode, Model(), r.value) else Model() == multiset{}
    {
      if head.None? { return None; }
      BestRootIsBest(mode, trees, head.value);
      return Some(trees[head.value].item);
    }

    /** binomial_tree_node_destroy of a root: its best child takes its place. */
    method RemoveRoot(h: nat)
      requires Sound() && h < |trees|
      modifies this`trees, this`count
      ensures Sound() && Model() == old(Model()) - multiset{old(trees)[h].item}
      ensures old(trees)[h].kids == [] ==> trees == old(trees)[..h] + old(trees)[h + 1..]
      ensures old(trees)[h].kids != [] ==> exists c: nat ::
        PickedAt(mode, old(trees)[h].kids, c, false) && trees == old(trees)[h := Raised(old(trees)[h].kids, c)]
    {
      hide AllItems;
      hide Items;
      hide Near;
      hide Heaped;
      var node := trees[h];
      RootKids(mode, trees, h);
      count := count - 1;
      if node.kids == [] {
        DropRoot(mode, trees, h);
        trees := trees[..h] + trees[h + 1..];
      } else {
        var c := FindChild(node.kids, mode);
        PromoteItems(node.kids, c);
        PromoteHeaped(mode, node.kids, c);
        RaisedIs(node.kids, c);
        ReplaceRoot(mode, trees, h, Promote(node.kids, c));
        trees := trees[h := Promote(node.kids, c)];
      }
    }

    /** Deleting the mode's own extremum. */
    method DeleteBest() returns (r: Option<Item>)
      requires Valid()
      modifies this
      ensures Valid()
      ensures if r.Some? then IsBest(mode, old(Model()), r.value) && Model() == old(Model()) - multiset{r.value}
              else Model() == old(Model()) == multiset{}
      ensures r.Some? ==> old(head).Some? && old(head).value < |old(trees)| && r.value == old(trees)[old(head).value].item
    {
      hide AllHeaped;
      hide Near;
      hide IsBest;
      if head.None? { return None; }
      BestRootIsBest(mode, trees, head.value);
      r := Some(trees[head.value].item);
      RemoveRoot(head.value);
      UpdateHead();
    }

    /** Deleting the other extremum: the item at the end of the greedy descent goes. It need not be the
        worst item unless the forest is flat, as it is with at most two items, but its removal never
        costs the heap its best key unless it was the only item. */
    method DeleteOther() returns (r: Option<Item>)
      requires Valid()
      modifies this
      ensures Valid()
      ensures if r.Some? then r.value in old(Model()) && Model() == old(Model()) - multiset{r.value}
              else Model() == old(Model()) == multiset{}
      ensures |old(Model())| > 1 ==> BestKeyKept(mode, old(Model()), Model())
      ensures r.Some? ==> EndsAt(old(trees), Other(mode), r.value, true)
      // Only the place of that item changes.
      ensures r.Some? ==> exists h: nat :: PickedAt(Other(mode), old(trees), h, true) && RootCut(old(trees), trees, Other(mode), r.value, h)
      ensures r.Some? && (Flat(old(trees)) || |old(Model())| <= 2) ==> IsBest(Other(mode), old(Model()), r.value)
    {
      hide AllItems;
      hide Items;
      hide Near;
      hide AllHeaped;
      hide BestKeyKept;
      if trees == [] {
        NoTrees();
        return None;
      }
      var h := FindRoot(trees, Other(mode));
      if trees[h].kids == [] { r := DropLoneRoot(h); } else { r := DropLeaf(h); }
      if |old(Model())| <= 2 { FewAreFlat(old(trees)); }
      if Flat(old(trees)) {
        EndIsGreedy(old(trees), Other(mode), r.value, true);
        FlatIsExact(mode, old(trees), r.value);
      }
    }

    method DropLoneRoot(h: nat) returns (r: Option<Item>)
      requires Valid() && PickedAt(Other(mode), trees, h, true) && trees[h].kids == []
      modifies this
      ensures Valid() && r.Some? && r.value in old(Model()) && Model() == old(Model()) - multiset{r.value}
      ensures |old(Model())| > 1 ==> BestKeyKept(mode, old(Model()), Model())
      ensures EndsAt(old(trees), Other(mode), r.value, true)
      ensures r.value == old(trees)[h].item && trees == old(trees)[..h] + old(trees)[h + 1..]
    {
      hide AllItems;
      hide Near;
      hide AllHeaped;
      hide IsBest;
      hide Beats;
      hide EndsAt;
      EndsThere(trees, Other(mode), trees[h].item, true, h);
      ghost var was := trees;
      ghost var top := head.value;
      BestRootIsBest(mode, was, top);
      RootIn(was, h);
      r := Some(trees[h].item);
      RemoveRoot(h);
      if head == Some(h) { UpdateHead(); }
      else {
        ghost var k := if top > h then top - 1 else top;
        SameTop(mode, was, top, h, trees, k);
        if head.value > h { head := Some(head.value - 1); }
      }
      if trees == [] { NoTrees(); }
      else {
        SameTop(mode, was, top, h, trees, head.value);
        BestRootIsBest(mode, trees, head.value);
      }
    }

    method DropLeaf(h: nat) returns (r: Option<Item>)
      requires Valid() && PickedAt(Other(mode), trees, h, true) && trees[h].kids != []
      modifies this
      ensures Valid() && r.Some? && EndsAt(old(trees), Other(mode), r.value, true) && r.value in old(Model()) && Model() == old(Model()) - multiset{r.value}
      ensures BestKeyKept(mode, old(Model()), Model())
      ensures |trees| == |old(trees)| && trees == old(trees)[h := trees[h]]
      ensures LeafCut(old(trees)[h], trees[h], Other(mode), r.value)
    {
      hide AllItems;
      hide Items;
      hide Near;
      hide Heaped;
      hide IsBest;
      hide LeafCut;
      BestRootIsBest(mode, trees, head.value);
      RootTreeNear(trees, h);
      var x, made := TakeLeaf(mode, trees[h], Other(mode));
      r := Some(x);
      hide EndsAt;
      EndsThere(trees, Other(mode), x, true, h);
      SwapRoot(mode, trees, h, made, x);
      trees := trees[h := made];
      count := count - 1;
      BestRootIsBest(mode, trees, head.value);
    }
  }
}
