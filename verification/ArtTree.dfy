/**
  The art_tree object: a map from keys to values.
 */
module ArtTree {
  import opened Basics
  import opened RadixTree
  import opened RadixOrder
  import opened RadixPrefix
  import opened ArtNodes
  import opened ArtHeap
  import opened ArtInsert
  import opened ArtDelete
  import opened ArtIter

  // ---------------------------------------------------------------------
  // Entries and the plain map

  lemma {:induction false} ContentsInserted(t: Tree, k: Key, v: Address)
    requires WellFormed(t, [])
    ensures WellFormed(Insert(t, [], k, v), [])
    ensures Contents(Insert(t, [], k, v)) == Contents(t)[k := v]
  {
    InsertWellFormed(t, [], k, v);
    InsertEntries(t, [], k, v);
    EntriesUpdated(Contents(t), k, v);
    SameEntries(Contents(Insert(t, [], k, v)), Contents(t)[k := v]);
  }

  lemma {:induction false} ContentsDeleted(t: Tree, k: Key)
    requires WellFormed(t, [])
    ensures WellFormed(Delete(t, [], k), [])
    ensures Contents(Delete(t, [], k)) == Contents(t) - {k}
  {
    DeleteWellFormed(t, [], k);
    DeleteEntries(t, [], k);
    EntriesRemoved(Contents(t), k);
    SameEntries(Contents(Delete(t, [], k)), Contents(t) - {k});
  }

  lemma {:induction false} EntriesUpdated(m: map<Key, Address>, k: Key, v: Address)
    ensures EntriesOf(m[k := v]) == Updated(EntriesOf(m), k, v)
  {
  }

  lemma {:induction false} EntriesRemoved(m: map<Key, Address>, k: Key)
    ensures EntriesOf(m - {k}) == Without(EntriesOf(m), k)
  {
  }

  lemma {:induction false} SameEntries(m: map<Key, Address>, m': map<Key, Address>)
    requires EntriesOf(m) == EntriesOf(m')
    ensures m == m'
  {
    forall k | k in m ensures k in m' && m'[k] == m[k] { assert (k, m[k]) in EntriesOf(m'); }
    forall k | k in m' ensures k in m { assert (k, m'[k]) in EntriesOf(m); }
  }

  lemma {:induction false} CountEntries(m: map<Key, Address>)
    ensures |EntriesOf(m)| == |m|
    decreases |m|
  {
    if m == map[] {
      assert EntriesOf(m) == {};
    } else {
      var k :| k in m;
      var rest := m - {k};
      assert rest.Keys == m.Keys - {k};
      CountEntries(rest);
      assert EntriesOf(m) == EntriesOf(rest) + {(k, m[k])};
    }
  }

  /** The entries of a map in increasing key order, each once. */
  ghost predicate IsListing(s: seq<Entry>, m: map<Key, Address>) {
    SortedItems(s) && |s| == |m| && forall e :: e in s <==> e in EntriesOf(m)
  }

  /** Each entry of a map once, in any order. */
  ghost predicate IsComplete(s: seq<Entry>, m: map<Key, Address>) {
    |s| == |m| && forall e :: e in s <==> e in EntriesOf(m)
  }

  lemma {:induction false} ItemsAreListing(t: Tree)
    requires WellFormed(t, [])
    ensures IsListing(Items(t), Contents(t))
  {
    ItemsSorted(t, []);
    ItemsCount(t, []);
    CountEntries(Contents(t));
    forall e: Entry ensures e in Items(t) <==> e in Entries(t) { ItemsAreEntries(t, e); }
  }

  // ---------------------------------------------------------------------
  // Runs

  datatype Op = Put(key: Key, value: Address) | Drop(key: Key)

  /** The tree after a run of operations from the empty tree. */
  ghost function RunTree(ops: seq<Op>): (t: Tree)
    ensures WellFormed(t, [])
  {
    if ops == [] then Empty else
    var t := RunTree(ops[..|ops| - 1]);
    match ops[|ops| - 1]
    case Put(k, v) => InsertWellFormed(t, [], k, v); Insert(t, [], k, v)
    case Drop(k) => DeleteWellFormed(t, [], k); Delete(t, [], k)
  }

  function RunMap(ops: seq<Op>): (m: map<Key, Address>) {
    if ops == [] then map[] else
    var m := RunMap(ops[..|ops| - 1]);
    match ops[|ops| - 1]
    case Put(k, v) => m[k := v]
    case Drop(k) => m - {k}
  }

  /** After every run the tree holds what a plain map would hold. */
  lemma {:induction false} RunsRefineMap(ops: seq<Op>)
    ensures Contents(RunTree(ops)) == RunMap(ops)
  {
    if ops == [] {
      SameEntries(Contents(Empty), map[]);
    } else {
      var t := RunTree(ops[..|ops| - 1]);
      RunsRefineMap(ops[..|ops| - 1]);
      match ops[|ops| - 1]
      case Put(k, v) => ContentsInserted(t, k, v);
      case Drop(k) => ContentsDeleted(t, k);
    }
  }

  lemma {:induction false} RunPut(ops: seq<Op>, k: Key, v: Address)
    ensures RunTree(ops + [Put(k, v)]) == Insert(RunTree(ops), [], k, v)
  {
    hide Insert;
    assert (ops + [Put(k, v)])[..|ops|] == ops;
  }

  lemma {:induction false} InsertSecond()
    ensures Insert(Leaf(First, 1), [], Second, 2) == Node(First[..6], map[49 := Leaf(First, 1), 50 := Leaf(Second, 2)])
  {
    hide Agreement;
    AgreementUnique(Terminated(First), Terminated(Second), 6);
    assert Terminated(First)[0..] == Terminated(First) && Terminated(Second)[0..] == Terminated(Second);
    assert Second[0..6] == First[..6];
  }

  lemma {:induction false} InsertThird(t: Tree)
    requires t == Node(First[..6], map[49 := Leaf(First, 1), 50 := Leaf(Second, 2)]) && WellFormed(t, [])
    ensures Insert(t, [], Third, 3) == AstrayTree
  {
    hide Agreement;
    hide WellFormed;
    AgreementUnique(First[..6], Terminated(Third), 2);
    assert Terminated(Third)[0..] == Terminated(Third);
    assert First[..6][..2] == [97, 98] && First[..6][3..] == [100, 101, 102];
  }

  /** Three insertions build the tree on which a prefix scan goes astray. */
  lemma {:induction false} AstrayRun(past: nat -> byte)
    ensures RunTree([Put(First, 1)] + [Put(Second, 2)] + [Put(Third, 3)]) == AstrayTree
    ensures Astray(AstrayTree, [97, 90, 99, 100, 101], past, 0, false)
  {
    hide Insert;
    hide Astray;
    RunPut([], First, 1);
    assert [] + [Put(First, 1)] == [Put(First, 1)];
    assert RunTree([]) == Empty;
    InsertFirst(First, 1);
    RunPut([Put(First, 1)], Second, 2);
    InsertSecond();
    RunPut([Put(First, 1)] + [Put(Second, 2)], Third, 3);
    InsertThird(RunTree([Put(First, 1)] + [Put(Second, 2)]));
    AstrayExample(past);
  }

  lemma {:induction false} InsertFirst(k: Key, v: Address)
    ensures Insert(Empty, [], k, v) == Leaf(k, v)
  {
  }

  /** art_tree. `sse` tells which branch of add_child16 the build has; `ord` whether the
      tree is kept in unsigned byte order, which the SSE branch does for bytes below 128. */
  class Art {
    var root: Ptr
    var size: nat
    const sse: bool
    ghost const ord: bool
    ghost var tree: Tree
    ghost var repr: set<object>

    ghost predicate Valid()
      reads this, repr
    {
      && this !in repr && WellFormed(tree, []) && Rep(root, tree, repr, ord)
      && size == |Contents(tree)| && (ord && sse ==> AsciiTree(tree))
    }

    /** The plain map the tree stands for. */
    ghost function Model(): map<Key, Address>
      requires Valid()
      reads this, repr
    {
      Contents(tree)
    }

    constructor (sse: bool, ghost ord: bool)
      ensures Valid() && fresh(repr) && Model() == map[] && this.sse == sse && this.ord == ord
    {
      root, size, tree, repr := Null, 0, Empty, {};
      this.sse, this.ord := sse, ord;
      new;
      SameEntries(Contents(Empty), map[]);
    }

    method Search(k: Key, past: nat -> byte) returns (value: Address)
      requires Valid()
      ensures value == if k in Model() then Model()[k] else NULL
    {
      value := ArtSearch.Search(root, k, past, tree, repr, ord);
      assert k in Model() ==> (k, Model()[k]) in Entries(tree);
      assert Stored(tree, k) ==> k in Model() by {
        if v :| (k, v) in Entries(tree) { assert (k, v) in EntriesOf(Model()); }
      }
    }

    method Insert(k: Key, v: Address) returns (was: Address)
      requires Valid() && (ord && sse ==> Ascii(k))
      modifies this, repr
      ensures Valid() && fresh(repr - old(repr))
      ensures Model() == old(Model())[k := v]
      ensures was == if k in old(Model()) then old(Model())[k] else NULL
      ensures size == |Model()|
    {
      hide Rep;
      hide WellFormed;
      hide Entries;
      hide Contents;
      hide Replaced;
      hide Ascii;
      hide AsciiTree;
      hide RadixTree.Insert;
      var p, found;
      ghost var R;
      p, found, was, R := InsertRec(root, k, v, 0, sse, tree, [], repr, ord);
      InsertedModel(tree, k, v, found, was);
      Adopt(p, if found then size else size + 1, RadixTree.Insert(tree, [], k, v), R);
    }

    /** The new root and size. */
    method Adopt(p: Ptr, n: nat, ghost t: Tree, ghost R: set<object>)
      requires this !in R && WellFormed(t, []) && Rep(p, t, R, ord) && n == |Contents(t)| && (ord && sse ==> AsciiTree(t))
      modifies this
      ensures Valid() && tree == t && repr == R && size == n
    {
      hide Rep;
      hide WellFormed;
      hide Contents;
      hide AsciiTree;
      root, size, tree, repr := p, n, t, R;
    }

    method Delete(k: Key, past: nat -> byte) returns (was: Address)
      requires Valid()
      modifies this, repr
      ensures Valid() && fresh(repr - old(repr))
      ensures Model() == old(Model()) - {k}
      ensures was == if k in old(Model()) then old(Model())[k] else NULL
      ensures size == |Model()|
    {
      hide Rep;
      hide WellFormed;
      hide Entries;
      hide Contents;
      hide Replaced;
      hide AsciiTree;
      hide RadixTree.Delete;
      var p, found;
      ghost var R;
      p, found, was, R := DeleteRec(root, k, past, 0, tree, [], repr, ord);
      DeletedModel(tree, k, found, was);
      Adopt(p, if found then size - 1 else size, RadixTree.Delete(tree, [], k), R);
    }

    /** art_minimum: some entry of the map, the least one if the layouts are ordered. */
    method Minimum() returns (r: Option<Entry>)
      requires Valid()
      ensures r.None? <==> Model() == map[]
      ensures r.Some? ==> r.value in EntriesOf(Model())
      ensures ord ==> exists s :: IsListing(s, Model()) && r == if s == [] then None else Some(s[0])
    {
      hide WellFormed;
      hide Entries;
      hide Items;
      hide IsListing;
      hide Contents;
      hide EntriesOf;
      NullIsEmpty(root, tree, repr, ord);
      hide Rep;
      ItemsAreListing(tree);
      SomeOrNone(tree);
      r := None;
      if root != Null {
        var l := ArtSearch.Minimum(root, tree, [], repr, ord);
        r := Some((l.key, l.value));
      }
    }

    /** art_maximum: some entry of the map, the greatest one if the layouts are ordered. */
    method Maximum() returns (r: Option<Entry>)
      requires Valid()
      ensures r.None? <==> Model() == map[]
      ensures r.Some? ==> r.value in EntriesOf(Model())
      ensures ord ==> exists s :: IsListing(s, Model()) && r == if s == [] then None else Some(s[|s| - 1])
    {
      hide WellFormed;
      hide Entries;
      hide Items;
      hide IsListing;
      hide Contents;
      hide EntriesOf;
      NullIsEmpty(root, tree, repr, ord);
      hide Rep;
      ItemsAreListing(tree);
      SomeOrNone(tree);
      r := None;
      if root != Null {
        var l := ArtSearch.Maximum(root, tree, [], repr, ord);
        r := Some((l.key, l.value));
      }
    }

    /** art_iter: every key once, and in order if the layouts are ordered. */
    method Iter(cb: Callback) returns (r: Visits)
      requires Valid()
      ensures exists s :: IsComplete(s, Model()) && (ord ==> IsListing(s, Model())) && r == Visit([], s, cb)
    {
      r := IterRec(root, [], cb, tree, [], repr, ord);
      ghost var s :| WalkOf(tree, s, ord) && r == Visit([], s, cb);
      WalkIsComplete(tree, s, ord);
    }

    /** art_iter_size */
    method IterSize() returns (n: nat)
      requires Valid()
      ensures n == size == |Model()|
    {
      var cb := (g: seq<Entry>) => 0;
      var r := IterRec(root, [], cb, tree, [], repr, ord);
      ghost var s :| WalkOf(tree, s, ord) && r == Visit([], s, cb);
      WalkIsComplete(tree, s, ord);
      VisitEverything([], s, cb);
      n := |r.seen|;
    }

    /** art_iter_prefix: shows the leaves of the scan once each, and these are the matching ones
        exactly when the descent does not go astray. */
    method IterPrefix(k: Key, past: nat -> byte, cb: Callback) returns (r: Visits)
      requires Valid()
      ensures exists q :: ScanOrder(q, PrefixScan(tree, k, past, 0), ord) && r == Visit([], q, cb)
      ensures exists s :: IsListing(s, Model()) &&
                (PrefixScan(tree, k, past, 0) == StartingWith(s, k) <==> !Astray(tree, k, past, 0, false))
      // With a match to show, the matches are what is shown.
      ensures (exists key :: key in Model() && k <= key) ==> ShowsMatches(r, Model(), k, cb, ord)
    {
      ItemsAreListing(tree);
      PrefixScanExact(tree, [], k, past);
      SomeMatch(tree, k, past);
      r := ArtIter.IterPrefix(root, k, past, cb, tree, repr, ord);
    }
  }

  lemma {:induction false} NullIsEmpty(p: Ptr, t: Tree, R: set<object>, ord: bool)
    requires Rep(p, t, R, ord)
    ensures p == Null <==> t.Empty?
  {
  }

  lemma {:induction false} SomeOrNone(t: Tree)
    requires WellFormed(t, [])
    ensures Items(t) == [] <==> Contents(t) == map[]
    ensures t.Empty? <==> Items(t) == []
    ensures forall e :: e in Entries(t) <==> e in EntriesOf(Contents(t))
  {
    ItemsAreListing(t);
    if !t.Empty? {
      var e := SomeEntry(t, []);
      ItemsAreEntries(t, e);
    }
  }

  /** `r` is what showing the keys that start with `k` comes to; in order if `ord`. */
  ghost predicate ShowsMatches(r: Visits, m: map<Key, Address>, k: Key, cb: Callback, ord: bool) {
    exists s, q :: IsListing(s, m) && ScanOrder(q, StartingWith(s, k), ord) && r == Visit([], q, cb)
  }

  lemma {:induction false} SomeMatch(t: Tree, k: Key, past: nat -> byte)
    requires WellFormed(t, [])
    ensures (exists key :: key in Contents(t) && k <= key) ==> !Astray(t, k, past, 0, false)
  {
    if exists key :: key in Contents(t) && k <= key {
      var key :| key in Contents(t) && k <= key;
      assert (key, Contents(t)[key]) in EntriesOf(Contents(t));
      NotAstrayIfSomeMatch(t, [], k, past, (key, Contents(t)[key]));
    }
  }

  lemma {:induction false} WalkIsComplete(t: Tree, s: seq<Entry>, ord: bool)
    requires WellFormed(t, []) && WalkOf(t, s, ord)
    ensures IsComplete(s, Contents(t)) && (ord ==> IsListing(s, Contents(t)))
  {
    ItemsAreListing(t);
    assert |s| == |multiset(s)| == |multiset(Items(t))| == |Items(t)|;
    forall e ensures e in s <==> e in Items(t) { assert e in multiset(s) <==> e in multiset(Items(t)); }
  }

  /** What an insertion means for the map, its size and the value handed back. */
  lemma {:induction false} InsertedModel(t: Tree, k: Key, v: Address, found: bool, was: Address)
    requires WellFormed(t, []) && Replaced(Entries(t), k, found, was)
    ensures WellFormed(Insert(t, [], k, v), []) && Contents(Insert(t, [], k, v)) == Contents(t)[k := v]
    ensures |Contents(t)[k := v]| == |Contents(t)| + if found then 0 else 1
    ensures was == if k in Contents(t) then Contents(t)[k] else NULL
    ensures AsciiTree(t) && Ascii(k) ==> AsciiTree(Insert(t, [], k, v))
  {
    hide Contents;
    ContentsInserted(t, k, v);
    CountUpdated(Contents(t), k, v);
    ReplacedModel(t, k, found, was);
    if AsciiTree(t) && Ascii(k) { AsciiInserted(t, k, v); }
  }

  lemma {:induction false} DeletedModel(t: Tree, k: Key, found: bool, was: Address)
    requires WellFormed(t, []) && Replaced(Entries(t), k, found, was)
    ensures WellFormed(Delete(t, [], k), []) && Contents(Delete(t, [], k)) == Contents(t) - {k}
    ensures |Contents(t) - {k}| == |Contents(t)| - if found then 1 else 0
    ensures was == if k in Contents(t) then Contents(t)[k] else NULL
    ensures AsciiTree(t) ==> AsciiTree(Delete(t, [], k))
  {
    hide Contents;
    ContentsDeleted(t, k);
    CountRemoved(Contents(t), k);
    ReplacedModel(t, k, found, was);
    AsciiDeleted(t, k);
  }

  lemma {:induction false} CountUpdated(m: map<Key, Address>, k: Key, v: Address)
    ensures |m[k := v]| == |m| + if k in m then 0 else 1
  {
    assert m[k := v].Keys == m.Keys + {k};
  }

  lemma {:induction false} CountRemoved(m: map<Key, Address>, k: Key)
    ensures |m - {k}| == |m| - if k in m then 1 else 0
  {
    assert (m - {k}).Keys == m.Keys - {k};
  }

  lemma {:induction false} AsciiInserted(t: Tree, k: Key, v: Address)
    requires WellFormed(t, []) && AsciiTree(t) && Ascii(k)
    ensures AsciiTree(Insert(t, [], k, v))
  {
    InsertEntries(t, [], k, v);
  }

  lemma {:induction false} AsciiDeleted(t: Tree, k: Key)
    requires WellFormed(t, [])
    ensures AsciiTree(t) ==> AsciiTree(Delete(t, [], k))
  {
    DeleteEntries(t, [], k);
  }

  lemma {:induction false} ReplacedModel(t: Tree, k: Key, found: bool, was: Address)
    requires WellFormed(t, []) && Replaced(Entries(t), k, found, was)
    ensures found <==> k in Contents(t)
    ensures was == if k in Contents(t) then Contents(t)[k] else NULL
  {
    if k in Contents(t) { assert (k, Contents(t)[k]) in EntriesOf(Contents(t)); }
    if found { assert (k, was) in EntriesOf(Contents(t)); }
  }
}
