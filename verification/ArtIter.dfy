/**
  recursive_iter: the heap walk that shows every leaf to a callback.
 */
module ArtIter {
  import opened Basics
  import opened RadixTree
  import opened RadixOrder
  import opened RadixPrefix
  import opened ArtNodes
  import opened ArtHeap
  import opened ArtSearch

  type Callback = seq<Entry> -> int

  /** `s` holds what lies below the children `bs`, each leaf once; in byte order if `ord`. */
  ghost predicate Walked(t: Tree, bs: seq<byte>, s: seq<Entry>, ord: bool)
    requires t.Node? && forall b :: b in bs ==> b in t.kids
  {
    multiset(s) == multiset(ItemsOf(t, bs)) && (ord ==> s == ItemsOf(t, bs))
  }

  /** The same leaves, each as often; in the same order if `ord`. */
  ghost predicate ScanOrder(s: seq<Entry>, scan: seq<Entry>, ord: bool) {
    multiset(s) == multiset(scan) && (ord ==> s == scan)
  }

  /** Walked, for a whole subtree. */
  ghost predicate WalkOf(t: Tree, s: seq<Entry>, ord: bool) {
    ScanOrder(s, Items(t), ord)
  }

  /** `r` is what showing every leaf below once, in some order, comes to. */
  ghost predicate Shows(r: Visits, h: seq<Entry>, t: Tree, cb: Callback, ord: bool) {
    exists s :: WalkOf(t, s, ord) && r == Visit(h, s, cb)
  }

  lemma {:induction false} ItemsOfConcat(t: Tree, bs: seq<byte>, cs: seq<byte>)
    requires t.Node? && (forall b :: b in bs ==> b in t.kids) && (forall c :: c in cs ==> c in t.kids)
    ensures ItemsOf(t, bs + cs) == ItemsOf(t, bs) + ItemsOf(t, cs)
    decreases |cs|
  {
    if cs == [] {
      assert bs + cs == bs;
    } else {
      ItemsOfConcat(t, bs, cs[..|cs| - 1]);
      assert (bs + cs)[..|bs + cs| - 1] == bs + cs[..|cs| - 1];
    }
  }

  lemma {:induction false} ItemsOfOne(t: Tree, b: byte)
    requires t.Node? && b in t.kids
    ensures ItemsOf(t, [b]) == Items(t.kids[b])
  {
    assert [b][..0] == [];
    assert ItemsOf(t, []) == [];
  }

  /** The order of the children does not matter for what is there. */
  lemma {:induction false} SameBag(t: Tree, bs: seq<byte>, cs: seq<byte>)
    requires t.Node? && Distinct(bs) && Distinct(cs) && (forall b :: b in bs <==> b in cs) && (forall b :: b in bs ==> b in t.kids)
    ensures multiset(ItemsOf(t, bs)) == multiset(ItemsOf(t, cs))
    decreases |bs|
  {
    if cs != [] { FirstIn(cs, bs); }
    if bs != [] {
      var n := |bs| - 1;
      var b := bs[n];
      assert b in cs;
      var j :| 0 <= j < |cs| && cs[j] == b;
      var rest := cs[..j] + cs[j + 1..];
      MiddleOut(bs, cs, j);
      SameBag(t, bs[..n], rest);
      BagMiddle(t, cs, j);
    }
  }

  lemma {:induction false} FirstIn(cs: seq<byte>, bs: seq<byte>)
    requires cs != [] && forall c :: c in cs ==> c in bs
    ensures bs != []
  {
    assert cs[0] in cs;
  }

  lemma {:induction false} BagMiddle(t: Tree, cs: seq<byte>, j: nat)
    requires t.Node? && j < |cs| && forall c :: c in cs ==> c in t.kids
    ensures multiset(ItemsOf(t, cs)) == multiset(ItemsOf(t, cs[..j] + cs[j + 1..])) + multiset(Items(t.kids[cs[j]]))
  {
    hide ItemsOf;
    hide Items;
    ItemsOfConcat(t, cs[..j], cs[j..]);
    ItemsOfConcat(t, [cs[j]], cs[j + 1..]);
    ItemsOfConcat(t, cs[..j], cs[j + 1..]);
    ItemsOfOne(t, cs[j]);
    assert cs[..j] + cs[j..] == cs && [cs[j]] + cs[j + 1..] == cs[j..];
  }

  lemma {:induction false} MiddleOut(bs: seq<byte>, cs: seq<byte>, j: nat)
    requires bs != [] && Distinct(bs) && Distinct(cs) && (forall b :: b in bs <==> b in cs)
    requires j < |cs| && cs[j] == bs[|bs| - 1]
    ensures var rest := cs[..j] + cs[j + 1..]; Distinct(rest) && forall b :: b in bs[..|bs| - 1] <==> b in rest
  {
    var front, rest := bs[..|bs| - 1], cs[..j] + cs[j + 1..];
    assert forall i :: 0 <= i < |rest| ==> rest[i] == if i < j then cs[i] else cs[i + 1];
    forall b ensures b in front <==> b in rest {
      if b in front {
        assert b in bs && b != cs[j];
        var i :| 0 <= i < |cs| && cs[i] == b;
        assert rest[if i < j then i else i - 1] == b;
      }
      if b in rest {
        var i :| 0 <= i < |rest| && rest[i] == b;
        assert b in cs && b != cs[j];
        var k :| 0 <= k < |bs| && bs[k] == b;
        assert front[k] == b;
      }
    }
  }

  /** A walk over a listing of all children is a walk of the node. */
  lemma {:induction false} WalkedAll(t: Tree, bs: seq<byte>, s: seq<Entry>, ord: bool)
    requires t.Node? && (forall b :: b in bs ==> b in t.kids) && Walked(t, bs, s, ord)
    requires Distinct(bs) && (forall b :: b in t.kids ==> b in bs) && (ord ==> Increasing(bs))
    ensures WalkOf(t, s, ord)
  {
    var all := Ascending(t.kids.Keys, 256);
    AscendingSorted(t.kids.Keys, 256);
    SameBag(t, bs, all);
    if ord { IncreasingUnique(bs, t.kids.Keys, 256); }
  }

  /** One more child: the iteration goes on where it was. */
  lemma {:induction false} WalkNext(t: Tree, bs: seq<byte>, b: byte, h: seq<Entry>, s: seq<Entry>, u: seq<Entry>, cb: Callback, ord: bool)
    requires t.Node? && (forall c :: c in bs ==> c in t.kids) && b in t.kids
    requires Walked(t, bs, s, ord) && WalkOf(t.kids[b], u, ord) && Visit(h, s, cb).code == 0
    ensures Walked(t, bs + [b], s + u, ord) && Visit(h, s + u, cb) == Visit(Visit(h, s, cb).seen, u, cb)
  {
    hide Items;
    hide Visit;
    assert (bs + [b])[..|bs|] == bs;
    VisitConcat(h, s, u, cb);
  }

  /** Stopped below an earlier child: the rest of the node is not visited. */
  lemma {:induction false} WalkCut(t: Tree, bs: seq<byte>, cs: seq<byte>, h: seq<Entry>, s: seq<Entry>, cb: Callback, ord: bool)
    requires t.Node? && (forall c :: c in bs ==> c in t.kids) && (forall c :: c in cs ==> c in t.kids)
    requires Walked(t, bs, s, ord) && Visit(h, s, cb).code != 0
    ensures Walked(t, bs + cs, s + ItemsOf(t, cs), ord) && Visit(h, s + ItemsOf(t, cs), cb) == Visit(h, s, cb)
  {
    hide ItemsOf;
    hide Visit;
    ItemsOfConcat(t, bs, cs);
    VisitStopped(h, s, s + ItemsOf(t, cs), cb);
  }

  lemma {:induction false} WalkNothing(t: Tree, h: seq<Entry>, cb: Callback, ord: bool)
    requires t.Node?
    ensures Walked(t, [], [], ord) && Visit(h, [], cb) == Visits(h, 0)
  {
  }

  lemma {:induction false} VisitOne(h: seq<Entry>, e: Entry, cb: Callback)
    ensures Visit(h, [e], cb) == Visits(h + [e], cb(h + [e]))
  {
    assert [e][1..] == [];
  }

  /** recursive_iter: shows every leaf below once, in key order if `ord`. */
  method IterRec(p: Ptr, h: seq<Entry>, cb: Callback,
                 ghost t: Tree, ghost pre: seq<byte>, ghost R: set<object>, ghost ord: bool)
    returns (r: Visits)
    requires Rep(p, t, R, ord) && WellFormed(t, pre)
    ensures Shows(r, h, t, cb, ord)
    decreases t, 2
  {
    match p
    case Null =>
      r := Visits(h, 0);
      assert WalkOf(t, [], ord);
    case ToLeaf(l) =>
      var e := (l.key, l.value);
      VisitOne(h, e, cb);
      r := Visits(h + [e], cb(h + [e]));
      assert WalkOf(t, [e], ord);
    case ToNode(n) =>
      NodeHeader(n, t, R, ord);
      if n.kind.Node4? || n.kind.Node16? {
        r := IterPairs(n, h, cb, t, pre, R, ord);
      } else {
        r := IterBytes(n, h, cb, t, pre, R, ord);
      }
  }

  /** The NODE4 and NODE16 cases: array order. */
  method IterPairs(n: ArtNode, h: seq<Entry>, cb: Callback,
                   ghost t: Tree, ghost pre: seq<byte>, ghost R: set<object>, ghost ord: bool)
    returns (r: Visits)
    requires Rep(ToNode(n), t, R, ord) && t.Node? && WellFormed(t, pre) && n in R && Small(n.kind)
    ensures Shows(r, h, t, cb, ord)
    decreases t, 1
  {
    hide Rep;
    hide NodeRep;
    hide WellFormed;
    hide Items;
    hide ItemsOf;
    hide Visit;
    hide Walked;
    hide WalkOf;
    hide Distinct;
    hide Increasing;
    PairsListed(n, t, R, ord);
    ghost var bs := n.keys[..n.num];
    r := Visits(h, 0);
    ghost var s: seq<Entry> := [];
    WalkNothing(t, h, cb, ord);
    assert bs[..0] == [];
    for i := 0 to n.num
      invariant Walked(t, bs[..i], s, ord) && r == Visit(h, s, cb) && r.code == 0
    {
      ghost var b := bs[i];
      PairAt(n, i, t, R, ord);
      ChildWellFormed(t, pre, b);
      ghost var seen := r.seen;
      r := IterRec(n.children[i], r.seen, cb, t.kids[b], pre + t.path + [b], n.foot[b], ord);
      ghost var u :| WalkOf(t.kids[b], u, ord) && r == Visit(seen, u, cb);
      WalkNext(t, bs[..i], b, h, s, u, cb, ord);
      s := s + u;
      assert bs[..i + 1] == bs[..i] + [b];
      if r.code != 0 {
        StopShows(t, bs, i + 1, h, s, cb, ord);
        return;
      }
    }
    assert bs[..n.num] == bs;
    WalkedAll(t, bs, s, ord);
  }

  /** Stopped after the first `j` children: that is what showing the whole node comes to. */
  lemma {:induction false} StopShows(t: Tree, bs: seq<byte>, j: nat, h: seq<Entry>, s: seq<Entry>, cb: Callback, ord: bool)
    requires t.Node? && Distinct(bs) && (forall b :: b in bs <==> b in t.kids) && (ord ==> Increasing(bs)) && j <= |bs|
    requires Walked(t, bs[..j], s, ord) && Visit(h, s, cb).code != 0
    ensures Shows(Visit(h, s, cb), h, t, cb, ord)
  {
    hide ItemsOf;
    hide Visit;
    hide Walked;
    hide WalkOf;
    WalkCut(t, bs[..j], bs[j..], h, s, cb, ord);
    assert bs[..j] + bs[j..] == bs;
    WalkedAll(t, bs, s + ItemsOf(t, bs[j..]), ord);
  }

  lemma {:induction false} PairsListed(n: ArtNode, t: Tree, R: set<object>, ord: bool)
    requires Rep(ToNode(n), t, R, ord) && n in R && t.Node? && Small(n.kind)
    ensures n.keys in R && n.children in R && n.num <= n.keys.Length == n.children.Length == KeySlots(n.kind)
    ensures var bs := n.keys[..n.num];
            && Distinct(bs) && (forall b :: b in bs <==> b in t.kids) && (ord ==> Increasing(bs))
  {
    UnfoldNode(n, t, R, ord);
  }

  lemma {:induction false} PairAt(n: ArtNode, i: nat, t: Tree, R: set<object>, ord: bool)
    requires Rep(ToNode(n), t, R, ord) && n in R && n.keys in R && n.children in R && n.keys.Length == KeySlots(n.kind)
    requires t.Node? && Small(n.kind) && i < n.num && n.num <= n.keys.Length == n.children.Length
    ensures var b := n.keys[i];
            b in t.kids && b in n.foot && n.foot[b] <= R && Rep(n.children[i], t.kids[b], n.foot[b], ord)
  {
    hide Rep;
    hide HeaderOf;
    hide Occupancy;
    hide Separate;
    UnfoldNode(n, t, R, ord);
    assert n.keys[..n.num][i] == n.keys[i] && n.children[..n.num][i] == n.children[i];
    ChildOfNode(n, t, R, n.keys[i], ord);
  }

  lemma {:induction false} AllKids(t: Tree, i: byte)
    requires t.Node? && i in t.kids
    ensures var all := Ascending(t.kids.Keys, 256);
            && Distinct(all) && Increasing(all) && (forall b :: b in all <==> b in t.kids)
            && Ascending(t.kids.Keys, i) + [i] <= all
  {
    AscendingSorted(t.kids.Keys, 256);
    AscendingExtends(t.kids.Keys, i + 1, 256);
  }

  /** Stopped at byte `i`: the order in which the whole node would have been shown. */
  lemma {:induction false} CutAt(t: Tree, i: byte, h: seq<Entry>, s: seq<Entry>, cb: Callback, ord: bool) returns (whole: seq<Entry>)
    requires t.Node? && i in t.kids && (forall b :: b in Ascending(t.kids.Keys, i) ==> b in t.kids)
    requires Walked(t, Ascending(t.kids.Keys, i) + [i], s, ord) && Visit(h, s, cb).code != 0
    ensures Visit(h, whole, cb) == Visit(h, s, cb) && WalkOf(t, whole, ord)
  {
    hide ItemsOf;
    hide Visit;
    hide Walked;
    hide WalkOf;
    hide Ascending;
    hide Lists;
    var bs, all := Ascending(t.kids.Keys, i), Ascending(t.kids.Keys, 256);
    AllKids(t, i);
    var rest := all[|bs| + 1..];
    assert bs + [i] + rest == all;
    WalkCut(t, bs + [i], rest, h, s, cb, ord);
    whole := s + ItemsOf(t, rest);
    WalkedAll(t, all, whole, ord);
  }

  /** The NODE48 and NODE256 cases: all 256 bytes in turn. */
  method IterBytes(n: ArtNode, h: seq<Entry>, cb: Callback,
                   ghost t: Tree, ghost pre: seq<byte>, ghost R: set<object>, ghost ord: bool)
    returns (r: Visits)
    requires Rep(ToNode(n), t, R, ord) && t.Node? && WellFormed(t, pre) && n in R && !Small(n.kind)
    ensures Shows(r, h, t, cb, ord)
    decreases t, 1
  {
    hide Rep;
    hide NodeRep;
    hide WellFormed;
    hide Items;
    hide ItemsOf;
    hide Visit;
    hide Walked;
    hide WalkOf;
    hide Ascending;
    hide Increasing;
    hide Distinct;
    hide SlotOf;
    ghost var d := t.kids.Keys;
    BytesUpTo(t, 0);
    r := Visits(h, 0);
    ghost var s: seq<Entry> := [];
    WalkNothing(t, h, cb, ord);
    for i := 0 to 256
      invariant (forall b :: b in Ascending(d, i) ==> b in t.kids) && Walked(t, Ascending(d, i), s, ord)
      invariant r == Visit(h, s, cb) && r.code == 0
    {
      BytesUpTo(t, i + 1);
      r, s := IterByte(n, i, r, h, s, cb, t, pre, R, ord);
      if r.code != 0 { return; }
    }
    BytesUpTo(t, 256);
    WalkedAll(t, Ascending(d, 256), s, ord);
  }

  /** One byte of that loop. */
  method IterByte(n: ArtNode, i: byte, r: Visits, ghost h: seq<Entry>, ghost s: seq<Entry>, cb: Callback,
                  ghost t: Tree, ghost pre: seq<byte>, ghost R: set<object>, ghost ord: bool)
    returns (r': Visits, ghost s': seq<Entry>)
    requires Rep(ToNode(n), t, R, ord) && t.Node? && WellFormed(t, pre) && n in R
    requires (forall b :: b in Ascending(t.kids.Keys, i) ==> b in t.kids) && Walked(t, Ascending(t.kids.Keys, i), s, ord)
    requires r == Visit(h, s, cb) && r.code == 0
    ensures r'.code != 0 ==> Shows(r', h, t, cb, ord)
    ensures r'.code == 0 ==>
      && (forall b :: b in Ascending(t.kids.Keys, i + 1) ==> b in t.kids)
      && Walked(t, Ascending(t.kids.Keys, i + 1), s', ord) && r' == Visit(h, s', cb)
    decreases t, 0
  {
    hide Rep;
    hide NodeRep;
    hide WellFormed;
    hide Items;
    hide ItemsOf;
    hide Visit;
    hide Walked;
    hide WalkOf;
    hide Ascending;
    hide Increasing;
    hide Distinct;
    hide SlotOf;
    BytesUpTo(t, i + 1);
    var p, slot := FindKid(n, i, t, R, ord);
    r', s' := r, s;
    if p != Null {
      ChildWellFormed(t, pre, i);
      r' := IterRec(p, r.seen, cb, t.kids[i], pre + t.path + [i], n.foot[i], ord);
      ghost var u :| WalkOf(t.kids[i], u, ord) && r' == Visit(r.seen, u, cb);
      WalkNext(t, Ascending(t.kids.Keys, i), i, h, s, u, cb, ord);
      s' := s + u;
      if r'.code != 0 { s' := CutAt(t, i, h, s', cb, ord); }
    }
  }

  lemma {:induction false} BytesUpTo(t: Tree, n: nat)
    requires t.Node? && n <= 256
    ensures var bs := Ascending(t.kids.Keys, n);
            && Distinct(bs) && Increasing(bs) && (forall b :: b in bs <==> b in t.kids && b < n)
            && (n == 0 ==> bs == [])
            && (n > 0 ==> bs == if n - 1 in t.kids then Ascending(t.kids.Keys, n - 1) + [n - 1] else Ascending(t.kids.Keys, n - 1))
  {
    AscendingSorted(t.kids.Keys, n);
  }

  lemma {:induction false} AscendingExtends(d: set<byte>, i: nat, n: nat)
    requires i <= n
    ensures Ascending(d, i) <= Ascending(d, n)
    decreases n
  {
    if i < n { AscendingExtends(d, i, n - 1); }
  }

  /** One round of the loop of art_iter_prefix below an inner node: either the iteration
      to make here, or the child to go on with. */
  method PrefixStep(n: ArtNode, k: Key, past: nat -> byte, depth: nat,
                    ghost t: Tree, ghost pre: seq<byte>, ghost R: set<object>, ghost ord: bool)
    returns (all: bool, p: Ptr, next: nat, ghost b: byte)
    requires Rep(ToNode(n), t, R, ord) && WellFormed(t, pre) && depth == |pre|
    ensures n in R && t.Node? && next == depth + |t.path| + 1
    ensures all ==> PrefixScan(t, k, past, depth) == Items(t)
    ensures !all && p == Null ==> PrefixScan(t, k, past, depth) == []
    ensures !all && p != Null ==> b in t.kids && b in n.foot && n.foot[b] <= R && Rep(p, t.kids[b], n.foot[b], ord)
    ensures !all && p != Null ==> PrefixScan(t, k, past, depth) == PrefixScan(t.kids[b], k, past, next)
  {
    hide Rep;
    hide WellFormed;
    hide Items;
    hide PrefixScan;
    hide Astray;
    hide Agreement;
    NodeHeader(n, t, R, ord);
    all, p, next, b := false, Null, depth + n.partialLen + 1, 0;
    ghost var m := Agreement(t.path, Tail(k, depth));
    if depth == |k| {
      var l := Minimum(ToNode(n), t, pre, R, ord);
      AnyLeafTells(t, pre, (l.key, l.value), k);
      ScanAtEnd(t, k, past, false);
      all := k <= l.key;
      return;
    }
    if n.partialLen > 0 {
      var matched := PrefixMismatch(n, k, depth, t, pre, R, ord);
      matched := Min(matched, n.partialLen);
      if matched == 0 {
        ScanRefused(t, k, past, depth, false);
        return;
      } else if depth + matched == |k| {
        ScanInside(t, k, past, depth, false, m);
        all := true;
        return;
      }
    }
    b := ReadKey(k, past, depth + n.partialLen);
    var c := ReadKey(k, past, depth + n.partialLen);
    ScanStep(t, k, past, depth, false, m, b);
    var slot;
    p, slot := FindKid(n, c, t, R, ord);
  }

  /** art_iter_prefix */
  method IterPrefix(root: Ptr, k: Key, past: nat -> byte, cb: Callback, ghost t: Tree, ghost R: set<object>, ghost ord: bool)
    returns (r: Visits)
    requires Rep(root, t, R, ord) && WellFormed(t, [])
    ensures exists s :: ScanOrder(s, PrefixScan(t, k, past, 0), ord) && r == Visit([], s, cb)
  {
    hide WellFormed;
    hide NodeRep;
    hide Visit;
    var p, depth := root, 0;
    ghost var u, pre, S := t, [], R;
    while p != Null
      invariant Rep(p, u, S, ord) && WellFormed(u, pre) && depth == |pre|
      invariant PrefixScan(t, k, past, 0) == PrefixScan(u, k, past, depth)
      decreases u
    {
      match p {
        case ToLeaf(l) =>
          VisitShort((l.key, l.value), cb);
          if k <= l.key {
            var e := (l.key, l.value);
            r := Visits([e], cb([e]));
            assert ScanOrder([e], PrefixScan(t, k, past, 0), ord);
          } else {
            r := Visits([], 0);
            assert ScanOrder([], PrefixScan(t, k, past, 0), ord);
          }
          return;
        case ToNode(n) =>
          ghost var b;
          var all;
          all, p, depth, b := PrefixStep(n, k, past, depth, u, pre, S, ord);
          if all {
            r := IterRec(ToNode(n), [], cb, u, pre, S, ord);
            ghost var s :| WalkOf(u, s, ord) && r == Visit([], s, cb);
            assert ScanOrder(s, PrefixScan(t, k, past, 0), ord);
            return;
          } else if p == Null {
            break;
          }
          ChildWellFormed(u, pre, b);
          u, pre, S := u.kids[b], pre + u.path + [b], n.foot[b];
      }
    }
    VisitShort(([], 0), cb);
    r := Visits([], 0);
    assert ScanOrder([], PrefixScan(t, k, past, 0), ord);
  }

  /** At the end of the prefix one leaf below tells for all. */
  lemma {:induction false} AnyLeafTells(t: Tree, pre: seq<byte>, e: Entry, k: Key)
    requires t.Node? && WellFormed(t, pre) && e in Entries(t) && |pre| == |k|
    ensures Items(t) != [] && (k <= e.0 <==> k <= Items(t)[0].0)
  {
    ItemsAreEntries(t, e);
    var f := Items(t)[0];
    ItemsAreEntries(t, f);
    EntryStart(t, pre, e);
    EntryStart(t, pre, f);
    assert e.0[..|pre|] == pre == f.0[..|pre|];
  }

  lemma {:induction false} VisitShort(e: Entry, cb: Callback)
    ensures Visit([], [], cb) == Visits([], 0) && Visit([], [e], cb) == Visits([e], cb([e]))
  {
    assert [e][1..] == [];
    assert [] + [e] == [e];
  }
}
