/**
  What art_iter_prefix visits, as a function of the tree, and how that compares
  with the keys that start with the prefix.
 */
module RadixPrefix {
  import opened Basics
  import opened RadixTree
  import opened RadixOrder

  /** The entries whose key starts with `k`, in order. */
  function StartingWith(s: seq<Entry>, k: Key): (r: seq<Entry>) {
    if s == [] then [] else
    var r := StartingWith(s[..|s| - 1], k);
    if k <= s[|s| - 1].0 then r + [s[|s| - 1]] else r
  }

  /** The leaves that the descent of art_iter_prefix hands to the callback. A compressed
      path that agrees with the prefix only in part is crossed like a full match. */
  function PrefixScan(t: Tree, k: Key, past: nat -> byte, d: nat): (s: seq<Entry>)
    decreases t
  {
    match t
    case Empty => []
    case Leaf(key, value) => if k <= key then [(key, value)] else []
    case Node(path, kids) =>
      if d == |k| then (if Items(t) != [] && k <= Items(t)[0].0 then Items(t) else [])
      else
        var m := Agreement(path, Tail(k, d));
        var b := ReadKey(k, past, d + |path|);
        if path != [] && m == 0 then []
        else if path != [] && d + m == |k| then Items(t)
        else if b in kids then PrefixScan(kids[b], k, past, d + |path| + 1)
        else []
  }

  /** The descent crosses a path that disagrees with the prefix after its first byte, and
      later ends inside a compressed path, where no leaf is checked. */
  predicate Astray(t: Tree, k: Key, past: nat -> byte, d: nat, crossed: bool)
    decreases t
  {
    match t
    case Empty => false
    case Leaf(_, _) => false
    case Node(path, kids) =>
      if d == |k| then false
      else
        var m := Agreement(path, Tail(k, d));
        var b := ReadKey(k, past, d + |path|);
        if path != [] && m == 0 then false
        else if path != [] && d + m == |k| then crossed
        else b in kids && Astray(kids[b], k, past, d + |path| + 1, crossed || m < |path|)
  }

  // The four cases of the descent at an inner node.

  lemma {:induction false} ScanAtEnd(t: Tree, k: Key, past: nat -> byte, crossed: bool)
    requires t.Node?
    ensures PrefixScan(t, k, past, |k|) == if Items(t) != [] && k <= Items(t)[0].0 then Items(t) else []
    ensures !Astray(t, k, past, |k|, crossed)
  {
    hide Items;
  }

  lemma {:induction false} ScanRefused(t: Tree, k: Key, past: nat -> byte, d: nat, crossed: bool)
    requires t.Node? && d != |k| && t.path != [] && Agreement(t.path, Tail(k, d)) == 0
    ensures PrefixScan(t, k, past, d) == [] && !Astray(t, k, past, d, crossed)
  {
    hide Agreement;
  }

  lemma {:induction false} ScanInside(t: Tree, k: Key, past: nat -> byte, d: nat, crossed: bool, m: nat)
    requires t.Node? && d != |k| && t.path != [] && m == Agreement(t.path, Tail(k, d)) && m > 0 && d + m == |k|
    ensures PrefixScan(t, k, past, d) == Items(t) && Astray(t, k, past, d, crossed) == crossed
  {
    hide Agreement;
    hide Items;
  }

  lemma {:induction false} ScanStep(t: Tree, k: Key, past: nat -> byte, d: nat, crossed: bool, m: nat, b: byte)
    requires t.Node? && d != |k| && m == Agreement(t.path, Tail(k, d)) && b == ReadKey(k, past, d + |t.path|)
    requires t.path != [] ==> m > 0 && d + m != |k|
    ensures PrefixScan(t, k, past, d) == if b in t.kids then PrefixScan(t.kids[b], k, past, d + |t.path| + 1) else []
    ensures Astray(t, k, past, d, crossed)
       <==> b in t.kids && Astray(t.kids[b], k, past, d + |t.path| + 1, crossed || m < |t.path|)
  {
    hide Agreement;
    hide Items;
    hide ReadKey;
    hide Tail;
  }

  ghost predicate NoneStart(t: Tree, k: Key) {
    forall e :: e in Entries(t) ==> !(k <= e.0)
  }

  lemma {:induction false} NoneStartBelow(t: Tree, k: Key, b: byte)
    requires t.Node? && NoneStart(t, k) && b in t.kids
    ensures NoneStart(t.kids[b], k)
  {
    assert forall e :: e in Entries(t.kids[b]) ==> e in Entries(t);
  }

  lemma {:induction false} NoneStartingWith(s: seq<Entry>, k: Key)
    requires forall e :: e in s ==> !(k <= e.0)
    ensures StartingWith(s, k) == []
  {
    if s != [] {
      assert s[|s| - 1] in s;
      NoneStartingWith(s[..|s| - 1], k);
    }
  }

  lemma {:induction false} AllStartingWith(s: seq<Entry>, k: Key)
    requires forall e :: e in s ==> k <= e.0
    ensures StartingWith(s, k) == s
  {
    if s != [] {
      assert s[|s| - 1] in s;
      AllStartingWith(s[..|s| - 1], k);
      assert s == s[..|s| - 1] + [s[|s| - 1]];
    }
  }

  lemma {:induction false} StartingWithConcat(s: seq<Entry>, u: seq<Entry>, k: Key)
    ensures StartingWith(s + u, k) == StartingWith(s, k) + StartingWith(u, k)
    decreases |u|
  {
    if u == [] {
      assert s + u == s;
    } else {
      assert (s + u)[..|s + u| - 1] == s + u[..|u| - 1];
      StartingWithConcat(s, u[..|u| - 1], k);
    }
  }

  lemma {:induction false} NoneMatch(t: Tree, k: Key)
    requires NoneStart(t, k)
    ensures StartingWith(Items(t), k) == []
  {
    forall e: Entry ensures e in Items(t) <==> e in Entries(t) { ItemsAreEntries(t, e); }
    NoneStartingWith(Items(t), k);
  }

  /** Past a disagreement nothing below can match; the scan shows something all the same
      exactly if it goes astray. */
  lemma {:induction false} ScanCrossed(t: Tree, pre: seq<byte>, k: Key, past: nat -> byte)
    requires WellFormed(t, pre) && NoneStart(t, k)
    ensures PrefixScan(t, k, past, |pre|) != [] <==> Astray(t, k, past, |pre|, true)
    decreases t
  {
    match t
    case Empty =>
    case Leaf(key, value) => assert (key, value) in Entries(t);
    case Node(_, _) => ScanCrossedNode(t, pre, k, past);
  }

  lemma {:induction false} ScanCrossedNode(t: Tree, pre: seq<byte>, k: Key, past: nat -> byte)
    requires t.Node? && WellFormed(t, pre) && NoneStart(t, k)
    ensures PrefixScan(t, k, past, |pre|) != [] <==> Astray(t, k, past, |pre|, true)
    decreases t, 0
  {
    hide WellFormed;
    hide Items;
    hide Agreement;
    hide PrefixScan;
    hide Astray;
    var d, m, b := |pre|, Agreement(t.path, Tail(k, |pre|)), ReadKey(k, past, |pre| + |t.path|);
    var e := SomeEntry(t, pre);
    ItemsAreEntries(t, e);
    ItemsAreEntries(t, Items(t)[0]);
    if d == |k| {
      ScanAtEnd(t, k, past, true);
    } else if t.path != [] && m == 0 {
      ScanRefused(t, k, past, d, true);
    } else if t.path != [] && d + m == |k| {
      ScanInside(t, k, past, d, true, m);
    } else {
      ScanStep(t, k, past, d, true, m, b);
      if b in t.kids {
        NoneStartBelow(t, k, b);
        ChildWellFormed(t, pre, b);
        ScanCrossed(t.kids[b], pre + t.path + [b], k, past);
      }
    }
  }

  /** If the prefix has been followed to a node, matching keys lie below one child only. */
  lemma {:induction false} StartingWithChild(t: Tree, k: Key, b: byte, bs: seq<byte>)
    requires t.Node? && (forall c :: c in bs ==> c in t.kids) && Increasing(bs)
    requires forall c :: c in t.kids && c != b ==> NoneStart(t.kids[c], k)
    ensures StartingWith(ItemsOf(t, bs), k) == if b in bs then StartingWith(Items(t.kids[b]), k) else []
    decreases |bs|
  {
    if bs != [] {
      var front, last := bs[..|bs| - 1], bs[|bs| - 1];
      assert bs == front + [last];
      StartingWithChild(t, k, b, front);
      StartingWithConcat(ItemsOf(t, front), Items(t.kids[last]), k);
      if last != b { NoneMatch(t.kids[last], k); }
      assert last !in front;
    }
  }

  /** Every key below a node starts with the bytes that lead to it and its path. */
  lemma {:induction false} EntryStart(t: Tree, pre: seq<byte>, e: Entry)
    requires t.Node? && WellFormed(t, pre) && e in Entries(t)
    ensures pre + t.path <= e.0
  {
    var b :| b in t.kids && e in Entries(t.kids[b]);
    EntryBelowChild(t, pre, e, b);
    assert pre + t.path == Terminated(e.0)[..|pre| + |t.path|];
  }

  /** The prefix ends at or inside the node's path: all leaves below match. */
  lemma {:induction false} AllMatch(t: Tree, pre: seq<byte>, k: Key)
    requires t.Node? && WellFormed(t, pre) && k <= pre + t.path
    ensures StartingWith(Items(t), k) == Items(t) && Items(t) != [] && k <= Items(t)[0].0
  {
    forall e: Entry ensures e in Items(t) <==> e in Entries(t) { ItemsAreEntries(t, e); }
    forall e | e in Items(t) ensures k <= e.0 { EntryStart(t, pre, e); }
    AllStartingWith(Items(t), k);
    var e := SomeEntry(t, pre);
    assert Items(t)[0] in Items(t);
  }

  /** The prefix leaves the node's path: no leaf below matches. */
  lemma {:induction false} PathDisagrees(t: Tree, pre: seq<byte>, k: Key, m: nat)
    requires t.Node? && WellFormed(t, pre) && |pre| + m < |k| && m < |t.path| && t.path[m] != k[|pre| + m]
    ensures NoneStart(t, k)
  {
    forall e | e in Entries(t) ensures !(k <= e.0) {
      EntryStart(t, pre, e);
      assert (pre + t.path)[|pre| + m] == t.path[m];
    }
  }

  /** The prefix goes on below the child for `b`: other children have no match. */
  lemma {:induction false} OtherChildrenDisagree(t: Tree, pre: seq<byte>, k: Key, b: byte)
    requires t.Node? && WellFormed(t, pre) && |pre| + |t.path| < |k| && b == k[|pre| + |t.path|]
    ensures forall c :: c in t.kids && c != b ==> NoneStart(t.kids[c], k)
  {
    forall c | c in t.kids && c != b ensures NoneStart(t.kids[c], k) {
      forall e | e in Entries(t.kids[c]) ensures !(k <= e.0) {
        EntryBelowChild(t, pre, e, c);
        assert |e.0| > |pre| + |t.path| ==> e.0[|pre| + |t.path|] == c;
      }
    }
  }

  /** art_iter_prefix shows exactly the matching leaves, in order, unless it goes astray. */
  lemma {:induction false} PrefixScanExact(t: Tree, pre: seq<byte>, k: Key, past: nat -> byte)
    requires WellFormed(t, pre) && pre <= k
    ensures PrefixScan(t, k, past, |pre|) == StartingWith(Items(t), k) <==> !Astray(t, k, past, |pre|, false)
    decreases t
  {
    hide Agreement;
    match t
    case Empty =>
    case Leaf(key, value) => assert StartingWith([], k) == [];
    case Node(_, _) => PrefixScanNode(t, pre, k, past);
  }

  lemma {:induction false} PrefixScanNode(t: Tree, pre: seq<byte>, k: Key, past: nat -> byte)
    requires t.Node? && WellFormed(t, pre) && pre <= k
    ensures PrefixScan(t, k, past, |pre|) == StartingWith(Items(t), k) <==> !Astray(t, k, past, |pre|, false)
    decreases t, 1
  {
    hide WellFormed;
    hide Items;
    hide StartingWith;
    hide Agreement;
    hide PrefixScan;
    hide Astray;
    var d := |pre|;
    if d == |k| {
      AllMatch(t, pre, k);
      ScanAtEnd(t, k, past, false);
    } else {
      var m := Agreement(t.path, k[d..]);
      assert k[..d + m] == pre + t.path[..m] by { assert k[..d + m] == k[..d] + k[d..][..m]; }
      if d + m == |k| {
        AllMatch(t, pre, k);
        ScanInside(t, k, past, d, false, m);
      } else if m < |t.path| {
        PathDisagrees(t, pre, k, m);
        ScanDisagrees(t, pre, k, past, m);
      } else {
        ScanFollows(t, pre, k, past);
      }
    }
  }

  lemma {:induction false} ScanDisagrees(t: Tree, pre: seq<byte>, k: Key, past: nat -> byte, m: nat)
    requires t.Node? && WellFormed(t, pre) && pre <= k && |pre| + m < |k|
    requires m == Agreement(t.path, k[|pre|..]) < |t.path| && NoneStart(t, k)
    ensures PrefixScan(t, k, past, |pre|) == StartingWith(Items(t), k) <==> !Astray(t, k, past, |pre|, false)
  {
    hide NoneStart;
    hide Entries;
    hide PrefixScan;
    hide Astray;
    hide WellFormed;
    hide Items;
    hide StartingWith;
    hide Agreement;
    NoneMatch(t, k);
    var b := ReadKey(k, past, |pre| + |t.path|);
    if m == 0 {
      ScanRefused(t, k, past, |pre|, false);
      return;
    }
    ScanStep(t, k, past, |pre|, false, m, b);
    if b in t.kids {
      ChildWellFormed(t, pre, b);
      NoneStartBelow(t, k, b);
      ScanCrossed(t.kids[b], pre + t.path + [b], k, past);
    }
  }

  lemma {:induction false} ScanFollows(t: Tree, pre: seq<byte>, k: Key, past: nat -> byte)
    requires t.Node? && WellFormed(t, pre) && pre <= k && |pre| + |t.path| < |k|
    requires Agreement(t.path, k[|pre|..]) == |t.path|
    ensures PrefixScan(t, k, past, |pre|) == StartingWith(Items(t), k) <==> !Astray(t, k, past, |pre|, false)
    decreases t, 0
  {
    hide PrefixScan;
    hide Astray;
    hide WellFormed;
    hide StartingWith;
    hide Agreement;
    var b := k[|pre| + |t.path|];
    ScanStep(t, k, past, |pre|, false, |t.path|, b);
    OtherChildrenDisagree(t, pre, k, b);
    AscendingSorted(t.kids.Keys, 256);
    StartingWithChild(t, k, b, Ascending(t.kids.Keys, 256));
    if b in t.kids {
      ChildWellFormed(t, pre, b);
      assert pre + t.path + [b] == k[..|pre| + |t.path| + 1] by {
        assert k[..|pre| + |t.path|] == k[..|pre|] + k[|pre|..][..|t.path|];
      }
      PrefixScanExact(t.kids[b], pre + t.path + [b], k, past);
    }
  }

  /** A prefix of a stored key agrees with the path as far as both go. */
  lemma {:induction false} MatchAgreement(t: Tree, pre: seq<byte>, k: Key, e: Entry)
    requires t.Node? && WellFormed(t, pre) && pre <= k && e in Entries(t) && k <= e.0
    ensures Agreement(t.path, k[|pre|..]) == Min(|t.path|, |k| - |pre|)
    ensures |pre| + |t.path| < |k| ==>
              var b := k[|pre| + |t.path|];
              b in t.kids && e in Entries(t.kids[b]) && pre + t.path + [b] <= k
  {
    hide WellFormed;
    hide Agreement;
    var m := Min(|t.path|, |k| - |pre|);
    EntryStart(t, pre, e);
    assert t.path[..m] == (pre + t.path)[|pre|..|pre| + m] == e.0[|pre|..|pre| + m] == k[|pre|..][..m];
    AgreementUnique(t.path, k[|pre|..], m);
    if |pre| + |t.path| < |k| {
      var b :| b in t.kids && e in Entries(t.kids[b]);
      EntryBelowChild(t, pre, e, b);
      assert k[|pre| + |t.path|] == e.0[|pre| + |t.path|] == b;
      assert pre + t.path + [b] == k[..|pre| + |t.path| + 1];
    }
  }

  /** In particular it is exact whenever some stored key starts with the prefix. */
  lemma {:induction false} NotAstrayIfSomeMatch(t: Tree, pre: seq<byte>, k: Key, past: nat -> byte, e: Entry)
    requires WellFormed(t, pre) && pre <= k && e in Entries(t) && k <= e.0
    ensures !Astray(t, k, past, |pre|, false)
    decreases t, 1
  {
    if t.Node? { NodeNotAstray(t, pre, k, past, e); }
  }

  lemma {:induction false} NodeNotAstray(t: Tree, pre: seq<byte>, k: Key, past: nat -> byte, e: Entry)
    requires t.Node? && WellFormed(t, pre) && pre <= k && e in Entries(t) && k <= e.0
    ensures !Astray(t, k, past, |pre|, false)
    decreases t, 0
  {
    hide Agreement;
    hide WellFormed;
    hide Entries;
    hide Astray;
    hide PrefixScan;
    hide Items;
    if |pre| == |k| {
      ScanAtEnd(t, k, past, false);
    } else {
      MatchAgreement(t, pre, k, e);
      if |pre| + |t.path| >= |k| {
        ScanInside(t, k, past, |pre|, false, |k| - |pre|);
      } else {
        var b := k[|pre| + |t.path|];
        ScanStep(t, k, past, |pre|, false, |t.path|, b);
        ChildWellFormed(t, pre, b);
        NotAstrayIfSomeMatch(t.kids[b], pre + t.path + [b], k, past, e);
      }
    }
  }

  /** The keys "abcdef1", "abcdef2" and "abX". */
  const First: Key := [97, 98, 99, 100, 101, 102, 49]
  const Second: Key := [97, 98, 99, 100, 101, 102, 50]
  const Third: Key := [97, 98, 88]

  /** Their tree. */
  const AstrayLow: Tree := Node([100, 101, 102], map[49 := Leaf(First, 1), 50 := Leaf(Second, 2)])
  const AstrayTree: Tree := Node([97, 98], map[99 := AstrayLow, 88 := Leaf(Third, 3)])

  /** The prefix "aZcde" matches none of its keys, yet the scan shows two. */
  lemma {:induction false} AstrayExample(past: nat -> byte)
    ensures Astray(AstrayTree, [97, 90, 99, 100, 101], past, 0, false)
    ensures PrefixScan(AstrayTree, [97, 90, 99, 100, 101], past, 0) == Items(AstrayLow)
  {
    var k: Key := [97, 90, 99, 100, 101];
    AgreementUnique([97, 98], k, 1);
    AgreementUnique(AstrayLow.path, k[3..], 2);
    assert PrefixScan(AstrayLow, k, past, 3) == Items(AstrayLow);
    assert Astray(AstrayLow, k, past, 3, true);
  }
}
