/**
  Heap-ordered trees and forests: what they hold, what heap order gives, the carry of an
  insertion and the promotion of a child when a root goes.
 */
module BinomialTrees {
  import opened Basics
  import opened BinFile

  datatype Item = Item(key: Word64, value: Address)

  datatype Tree = Tree(item: Item, kids: seq<Tree>)

  datatype Mode = Max | Min

  /** The difference of two uint64_t, cut down to an int. */
  function Cmp(a: Word64, b: Word64): int {
    CutToInt(a - b)
  }

  predicate HasPrecedence(mode: Mode, a: Word64, b: Word64) {
    if mode.Max? then Cmp(a, b) >= 0 else Cmp(a, b) <= 0
  }

  /** The order that is meant. */
  predicate Beats(mode: Mode, a: Word64, b: Word64) {
    if mode.Max? then a >= b else a <= b
  }

  /** Keys whose differences survive the cut. */
  predicate Close(a: Word64, b: Word64) {
    -INT_LIMIT < a - b < INT_LIMIT
  }

  lemma {:induction false} CmpExact(a: Word64, b: Word64)
    requires Close(a, b)
    ensures Cmp(a, b) == a - b
  {
  }

  /** They are the keys on which the comparison is right both ways. */
  lemma {:induction false} CloseIff(a: Word64, b: Word64)
    ensures Close(a, b) <==> Cmp(a, b) == a - b && Cmp(b, a) == b - a
  {
  }

  // ---------------------------------------------------------------------
  // Contents

  function Items(t: Tree): multiset<Item>
    decreases t
  {
    multiset{t.item} + AllItems(t.kids)
  }

  function AllItems(ts: seq<Tree>): multiset<Item>
    decreases ts
  {
    if ts == [] then multiset{} else Items(ts[0]) + AllItems(ts[1..])
  }

  ghost predicate Near(m: multiset<Item>) {
    forall x, y :: x in m && y in m ==> Close(x.key, y.key)
  }

  lemma {:induction false} AllItemsConcat(a: seq<Tree>, b: seq<Tree>)
    ensures AllItems(a + b) == AllItems(a) + AllItems(b)
  {
    hide Items;
    if a == [] {
      assert a + b == b;
    } else {
      AllItemsConcat(a[1..], b);
      assert (a + b)[1..] == a[1..] + b;
    }
  }

  lemma {:induction false} AllItemsOne(t: Tree)
    ensures AllItems([t]) == Items(t)
  {
    assert [t][1..] == [];
  }

  lemma {:induction false} AllItemsSplit(ts: seq<Tree>, i: nat)
    requires i < |ts|
    ensures AllItems(ts) == AllItems(ts[..i]) + Items(ts[i]) + AllItems(ts[i + 1..])
    ensures AllItems(ts[..i] + ts[i + 1..]) == AllItems(ts[..i]) + AllItems(ts[i + 1..])
  {
    AllItemsConcat(ts[..i], ts[i..]);
    assert ts[..i] + ts[i..] == ts && ts[i..][1..] == ts[i + 1..];
    AllItemsConcat(ts[..i], ts[i + 1..]);
  }

  lemma {:induction false} AllItemsSwap(ts: seq<Tree>, i: nat, t: Tree)
    requires i < |ts|
    ensures AllItems(ts[i := t]) == AllItems(ts[..i]) + Items(t) + AllItems(ts[i + 1..])
  {
    var us := ts[i := t];
    AllItemsSplit(us, i);
    assert us[..i] == ts[..i] && us[i + 1..] == ts[i + 1..];
  }

  lemma {:induction false} RootIn(ts: seq<Tree>, i: nat)
    requires i < |ts|
    ensures ts[i].item in AllItems(ts)
  {
    AllItemsSplit(ts, i);
  }

  // ---------------------------------------------------------------------
  // Heap order

  ghost predicate Heaped(mode: Mode, t: Tree)
    decreases t
  {
    forall i :: 0 <= i < |t.kids| ==> Beats(mode, t.item.key, t.kids[i].item.key) && Heaped(mode, t.kids[i])
  }

  ghost predicate AllHeaped(mode: Mode, ts: seq<Tree>) {
    forall i :: 0 <= i < |ts| ==> Heaped(mode, ts[i])
  }

  /** Nothing in a tree comes before its root. */
  lemma {:induction false} RootBeats(mode: Mode, t: Tree, x: Item)
    requires Heaped(mode, t) && x in Items(t)
    ensures Beats(mode, t.item.key, x.key)
    decreases t
  {
    if x != t.item {
      ForestBeats(mode, t.item.key, t.kids, x);
    }
  }

  lemma {:induction false} ForestBeats(mode: Mode, k: Word64, ts: seq<Tree>, x: Item)
    requires AllHeaped(mode, ts) && x in AllItems(ts)
    requires forall i :: 0 <= i < |ts| ==> Beats(mode, k, ts[i].item.key)
    ensures Beats(mode, k, x.key)
    decreases ts
  {
    if x in Items(ts[0]) {
      RootBeats(mode, ts[0], x);
    } else {
      ForestBeats(mode, k, ts[1..], x);
    }
  }

  // ---------------------------------------------------------------------
  // Insertion

  /** binomial_tree_merge. */
  function Merge(a: Tree, b: Tree): Tree {
    a.(kids := a.kids + [b])
  }

  function Link(mode: Mode, node: Tree, tree: Tree): Tree {
    if HasPrecedence(mode, node.item.key, tree.item.key) then Merge(node, tree) else Merge(tree, node)
  }

  /** The carry loop of an insertion, from a node of the given order on. */
  function Carry(mode: Mode, node: Tree, order: nat, rest: seq<Tree>): seq<Tree>
    decreases |rest|
  {
    if rest != [] && |rest[0].kids| == order then Carry(mode, Link(mode, node, rest[0]), order + 1, rest[1..])
    else [node] + rest
  }

  lemma {:induction false} LinkItems(mode: Mode, a: Tree, b: Tree)
    ensures Items(Link(mode, a, b)) == Items(a) + Items(b)
  {
    AllItemsConcat(a.kids, [b]);
    AllItemsConcat(b.kids, [a]);
    AllItemsOne(a);
    AllItemsOne(b);
  }

  lemma {:induction false} LinkHeaped(mode: Mode, a: Tree, b: Tree)
    requires Heaped(mode, a) && Heaped(mode, b) && Close(a.item.key, b.item.key)
    ensures Heaped(mode, Link(mode, a, b))
  {
    CmpExact(a.item.key, b.item.key);
  }

  /** An insertion adds its item. */
  lemma {:induction false} CarryItems(mode: Mode, node: Tree, order: nat, rest: seq<Tree>)
    ensures AllItems(Carry(mode, node, order, rest)) == Items(node) + AllItems(rest)
    decreases |rest|
  {
    hide Items;
    hide Link;
    if rest != [] && |rest[0].kids| == order {
      LinkItems(mode, node, rest[0]);
      CarryItems(mode, Link(mode, node, rest[0]), order + 1, rest[1..]);
    } else {
      AllItemsConcat([node], rest);
      AllItemsOne(node);
    }
  }

  lemma {:induction false} LinkClose(mode: Mode, node: Tree, rest: seq<Tree>)
    requires rest != [] && Near(Items(node) + AllItems(rest))
    ensures Close(node.item.key, rest[0].item.key)
    ensures Near(Items(Link(mode, node, rest[0])) + AllItems(rest[1..]))
  {
    var m := Items(node) + AllItems(rest);
    RootIn(rest, 0);
    assert node.item in m && rest[0].item in m;
    LinkItems(mode, node, rest[0]);
    assert Items(Link(mode, node, rest[0])) + AllItems(rest[1..]) == m;
  }

  /** An insertion keeps heap order. */
  lemma {:induction false} CarryHeaped(mode: Mode, node: Tree, order: nat, rest: seq<Tree>)
    requires Near(Items(node) + AllItems(rest)) && Heaped(mode, node) && AllHeaped(mode, rest)
    ensures AllHeaped(mode, Carry(mode, node, order, rest))
    decreases |rest|
  {
    hide Items;
    hide AllItems;
    hide Near;
    hide Link;
    hide Heaped;
    if rest != [] && |rest[0].kids| == order {
      LinkClose(mode, node, rest);
      LinkHeaped(mode, node, rest[0]);
      CarryHeaped(mode, Link(mode, node, rest[0]), order + 1, rest[1..]);
    }
  }

  // ---------------------------------------------------------------------
  // The binary counter

  /** A binomial tree of order `k`. */
  ghost predicate Binomial(t: Tree, k: nat)
    decreases t
  {
    |t.kids| == k && forall i :: 0 <= i < k ==> Binomial(t.kids[i], i)
  }

  /** The set bits of `n`, from the lowest, counted from `k`. */
  function Bits(n: nat, k: nat): seq<nat> {
    if n == 0 then [] else if n % 2 == 1 then [k] + Bits(n / 2, k + 1) else Bits(n / 2, k + 1)
  }

  /** Trees that stand for the binary digits of a number, shifted by `k`. */
  ghost predicate Counter(ts: seq<Tree>, n: nat, k: nat) {
    |ts| == |Bits(n, k)| && forall i :: 0 <= i < |ts| ==> Binomial(ts[i], Bits(n, k)[i])
  }

  lemma {:induction false} LinkBinomial(mode: Mode, a: Tree, b: Tree, k: nat)
    requires Binomial(a, k) && Binomial(b, k)
    ensures Binomial(Link(mode, a, b), k + 1)
  {
  }

  lemma {:induction false} BitsAbove(n: nat, k: nat)
    ensures forall i :: 0 <= i < |Bits(n, k)| ==> Bits(n, k)[i] >= k
  {
    if n > 0 { BitsAbove(n / 2, k + 1); }
  }

  /** An insertion adds one to the counter. */
  lemma {:induction false} CarryCounts(mode: Mode, node: Tree, k: nat, rest: seq<Tree>, n: nat)
    requires Binomial(node, k) && Counter(rest, n, k)
    ensures Counter(Carry(mode, node, k, rest), n + 1, k)
    decreases n
  {
    hide Binomial;
    if n % 2 == 1 {
      assert Bits(n, k)[1..] == Bits(n / 2, k + 1);
      FirstOrder(rest[0], k);
      LinkBinomial(mode, node, rest[0], k);
      CarryCounts(mode, Link(mode, node, rest[0]), k + 1, rest[1..], n / 2);
      assert (n + 1) / 2 == n / 2 + 1;
    } else {
      BitsAbove(n / 2, k + 1);
      assert Bits(n, k) == Bits(n / 2, k + 1);
      if rest != [] { FirstOrder(rest[0], Bits(n, k)[0]); }
      assert (n + 1) / 2 == n / 2;
      assert Bits(n + 1, k) == [k] + Bits(n, k);
    }
  }

  lemma {:induction false} FirstOrder(t: Tree, k: nat)
    requires Binomial(t, k)
    ensures |t.kids| == k
  {
  }

  /** A binomial tree of order `k` has two to the `k` nodes. */
  lemma {:induction false} BinomialSize(t: Tree, k: nat)
    requires Binomial(t, k)
    ensures |Items(t)| == Twice(k)
    decreases t
  {
    KidsSize(t.kids, k);
    assert t.kids[..k] == t.kids;
  }

  lemma {:induction false} KidsSize(kids: seq<Tree>, n: nat)
    requires n <= |kids| && forall i :: 0 <= i < n ==> Binomial(kids[i], i)
    ensures |AllItems(kids[..n])| == Twice(n) - 1
    decreases kids, n
  {
    hide Items;
    hide Binomial;
    if n > 0 {
      KidsSize(kids, n - 1);
      BinomialSize(kids[n - 1], n - 1);
      AllItemsConcat(kids[..n - 1], [kids[n - 1]]);
      AllItemsOne(kids[n - 1]);
      assert kids[..n] == kids[..n - 1] + [kids[n - 1]];
    }
  }

  /** The forest after inserting items into an empty heap. */
  function InsertAll(mode: Mode, items: seq<Item>): seq<Tree> {
    if items == [] then [] else
    Carry(mode, Tree(items[|items| - 1], []), 0, InsertAll(mode, items[..|items| - 1]))
  }

  lemma {:induction false} HalfThenDivide(n: nat, m: nat)
    requires m > 0
    ensures (n / 2) / m == n / (2 * m)
  {
    var h, odd := n / 2, n % 2;
    var q, r := h / m, h % m;
    assert h == m * q + r;
    DoubleProduct(m, q);
    assert n == (2 * m) * q + (2 * r + odd);
    DivideExact(2 * m, q, 2 * r + odd);
  }

  lemma {:induction false} DoubleProduct(m: nat, q: nat)
    ensures (2 * m) * q == 2 * (m * q)
  {
  }

  /** `Bits` lists the binary digits that are one, and nothing else. */
  lemma {:induction false} BitsAreDigits(n: nat, k: nat, b: nat)
    ensures b in Bits(n, k) <==> b >= k && (n / Twice(b - k)) % 2 == 1
    decreases n
  {
    if n > 0 && b > k {
      BitsAreDigits(n / 2, k + 1, b);
      HalfThenDivide(n, Twice(b - k - 1));
    } else if n > 0 {
      BitsAbove(n / 2, k + 1);
    } else if b >= k {
      ZeroDigits(Twice(b - k));
    }
  }

  lemma {:induction false} ZeroDigits(m: nat)
    requires m > 0
    ensures 0 / m == 0
  {
    DivideExact(m, 0, 0);
  }

  lemma {:induction false} BitsIncrease(n: nat, k: nat)
    ensures forall i, j :: 0 <= i < j < |Bits(n, k)| ==> Bits(n, k)[i] < Bits(n, k)[j]
    decreases n
  {
    if n > 0 {
      BitsIncrease(n / 2, k + 1);
      BitsAbove(n / 2, k + 1);
    }
  }

  /** The orders of the roots of a counter: strictly increasing, and exactly the set bits. */
  lemma {:induction false} CounterOrders(ts: seq<Tree>, n: nat)
    requires Counter(ts, n, 0)
    ensures forall i, j :: 0 <= i < j < |ts| ==> |ts[i].kids| < |ts[j].kids|
    ensures forall b: nat :: (exists i :: 0 <= i < |ts| && |ts[i].kids| == b) <==> (n / Twice(b)) % 2 == 1
  {
    hide Twice;
    BitsIncrease(n, 0);
    forall i | 0 <= i < |ts| ensures |ts[i].kids| == Bits(n, 0)[i] { FirstOrder(ts[i], Bits(n, 0)[i]); }
    hide Counter;
    forall b: nat ensures (exists i :: 0 <= i < |ts| && |ts[i].kids| == b) <==> (n / Twice(b)) % 2 == 1 {
      BitsAreDigits(n, 0, b);
      if b in Bits(n, 0) {
        var i :| 0 <= i < |Bits(n, 0)| && Bits(n, 0)[i] == b;
        assert |ts[i].kids| == b;
      }
    }
  }

  /** After `n` insertions the root orders are the set bits of `n`, from the lowest, each root heads a
      binomial tree, and the trees are heap-ordered. */
  lemma {:induction false} InsertAllCounts(mode: Mode, items: seq<Item>)
    ensures Counter(InsertAll(mode, items), |items|, 0)
    ensures AllItems(InsertAll(mode, items)) == multiset(items)
    ensures Near(multiset(items)) ==> AllHeaped(mode, InsertAll(mode, items))
  {
    hide Counter;
    hide AllHeaped;
    hide Near;
    if items == [] {
      NothingInserted(mode);
    } else {
      var n := |items| - 1;
      var front, node := items[..n], Tree(items[n], []);
      InsertAllCounts(mode, front);
      assert items == front + [items[n]];
      LoneNode(mode, items[n]);
      CarryCounts(mode, node, 0, InsertAll(mode, front), n);
      CarryItems(mode, node, 0, InsertAll(mode, front));
      if Near(multiset(items)) {
        NearPart(multiset(items), multiset(front));
        assert Items(node) + multiset(front) == multiset(items);
        CarryHeaped(mode, node, 0, InsertAll(mode, front));
      }
    }
  }

  /** The forest after `n` insertions into an empty heap: the orders of its roots increase strictly and
      are exactly the set bits of `n`, a root of order `k` heads a binomial tree of two to the `k` items,
      the items are those inserted, and keys less than 2^31 apart make it heap-ordered. */
  lemma {:induction false} InsertAllShape(mode: Mode, items: seq<Item>)
    ensures var ts := InsertAll(mode, items);
            && (forall i, j :: 0 <= i < j < |ts| ==> |ts[i].kids| < |ts[j].kids|)
            && (forall b: nat :: (exists i :: 0 <= i < |ts| && |ts[i].kids| == b) <==> (|items| / Twice(b)) % 2 == 1)
            && (forall i :: 0 <= i < |ts| ==> Binomial(ts[i], |ts[i].kids|) && |Items(ts[i])| == Twice(|ts[i].kids|))
            && AllItems(ts) == multiset(items) && (Near(multiset(items)) ==> AllHeaped(mode, ts))
  {
    var ts := InsertAll(mode, items);
    InsertAllCounts(mode, items);
    CounterOrders(ts, |items|);
    forall i | 0 <= i < |ts| ensures Binomial(ts[i], |ts[i].kids|) && |Items(ts[i])| == Twice(|ts[i].kids|) {
      FirstOrder(ts[i], Bits(|items|, 0)[i]);
      BinomialSize(ts[i], |ts[i].kids|);
    }
  }

  lemma {:induction false} NothingInserted(mode: Mode)
    ensures Counter([], 0, 0) && AllHeaped(mode, []) && AllItems([]) == multiset{}
  {
  }

  lemma {:induction false} LoneNode(mode: Mode, x: Item)
    ensures Heaped(mode, Tree(x, [])) && Items(Tree(x, [])) == multiset{x} && Binomial(Tree(x, []), 0)
  {
  }

  lemma {:induction false} NearPart(m: multiset<Item>, part: multiset<Item>)
    requires Near(m) && part <= m
    ensures Near(part)
  {
    forall x, y | x in part && y in part ensures Close(x.key, y.key) {
      assert x in m && y in m;
    }
  }

  // ---------------------------------------------------------------------
  // Removal

  /** Child `c` takes over its siblings. */
  function Promote(kids: seq<Tree>, c: nat): Tree
    requires c < |kids|
  {
    kids[c].(kids := kids[c].kids + (kids[..c] + kids[c + 1..]))
  }

  lemma {:induction false} PromoteItems(kids: seq<Tree>, c: nat)
    requires c < |kids|
    ensures Items(Promote(kids, c)) == AllItems(kids)
  {
    hide AllItems;
    AllItemsConcat(kids[c].kids, kids[..c] + kids[c + 1..]);
    AllItemsSplit(kids, c);
  }

  lemma {:induction false} PromoteHeaped(mode: Mode, kids: seq<Tree>, c: nat)
    requires c < |kids| && AllHeaped(mode, kids)
    requires forall i :: 0 <= i < |kids| ==> Beats(mode, kids[c].item.key, kids[i].item.key)
    ensures Heaped(mode, Promote(kids, c))
  {
    var own, others := kids[c].kids, kids[..c] + kids[c + 1..];
    assert Heaped(mode, kids[c]);
    forall i | 0 <= i < |others| ensures Heaped(mode, others[i]) && Beats(mode, kids[c].item.key, others[i].item.key) {
      var j := if i < c then i else i + 1;
      assert others[i] == kids[j];
    }
    hide Beats;
    var made := Promote(kids, c);
    assert forall i :: 0 <= i < |made.kids| ==> made.kids[i] == if i < |own| then own[i] else others[i - |own|];
  }
}
