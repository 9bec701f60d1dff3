/**
  The order in which the leaves of a radix tree are visited, and what an
  iteration with a callback sees of it.
 */
module RadixOrder {
  import opened Basics
  import opened RadixTree

  /** Unsigned lexicographic order; a proper prefix comes first. */
  ghost predicate KeyLess(k: Key, l: Key) {
    exists n :: DivergesAt(k, l, n)
  }

  ghost predicate DivergesAt(k: Key, l: Key, n: nat) {
    n <= |k| && n < |l| && k[..n] == l[..n] && (n == |k| || k[n] < l[n])
  }

  ghost predicate Increasing(s: seq<byte>) {
    forall i, j :: 0 <= i < j < |s| ==> s[i] < s[j]
  }

  /** The bytes of `d` below `n`, in increasing order. */
  function Ascending(d: set<byte>, n: nat): (s: seq<byte>) {
    if n == 0 then []
    else if n <= 256 && n - 1 in d then Ascending(d, n - 1) + [n - 1]
    else Ascending(d, n - 1)
  }

  /** `s` holds exactly the bytes of `d` below `n`. */
  ghost predicate Lists(s: seq<byte>, d: set<byte>, n: nat) {
    && (forall i :: 0 <= i < |s| ==> s[i] in d && s[i] < n)
    && (forall b :: b in d && b < n ==> b in s)
  }

  lemma {:induction false} AscendingSorted(d: set<byte>, n: nat)
    ensures Increasing(Ascending(d, n)) && Lists(Ascending(d, n), d, n)
  {
    if n > 0 {
      AscendingSorted(d, n - 1);
    }
  }

  lemma {:induction false} LargestLast(s: seq<byte>, d: set<byte>, n: nat)
    requires Increasing(s) && Lists(s, d, n) && 0 < n <= 256 && n - 1 in d
    ensures |s| > 0 && s[|s| - 1] == n - 1 && Increasing(s[..|s| - 1]) && Lists(s[..|s| - 1], d, n - 1)
  {
    assert n - 1 in s;
    var k :| 0 <= k < |s| && s[k] == n - 1;
    assert s[|s| - 1] < n && forall i :: 0 <= i < |s| - 1 ==> s[i] < s[|s| - 1];
  }

  lemma {:induction false} ListsSmaller(s: seq<byte>, d: set<byte>, n: nat)
    requires Lists(s, d, n) && n > 0 && !(n <= 256 && n - 1 in d)
    ensures Lists(s, d, n - 1)
  {
  }

  lemma {:induction false} ListsSomething(s: seq<byte>, d: set<byte>, n: nat)
    requires Lists(s, d, n) && s != []
    ensures n > 0
  {
    assert 0 <= s[0] < n;
  }

  /** An increasing sequence is determined by the bytes in it. */
  lemma {:induction false} IncreasingUnique(s: seq<byte>, d: set<byte>, n: nat)
    requires Increasing(s) && Lists(s, d, n)
    ensures s == Ascending(d, n)
    decreases n
  {
    hide Increasing;
    hide Lists;
    if s != [] { ListsSomething(s, d, n); }
    if n > 0 {
      if n <= 256 && n - 1 in d {
        LargestLast(s, d, n);
        var front := s[..|s| - 1];
        assert s == front + [n - 1];
        IncreasingUnique(front, d, n - 1);
      } else {
        ListsSmaller(s, d, n);
        IncreasingUnique(s, d, n - 1);
      }
    }
  }

  lemma {:induction false} AscendingCount(d: set<byte>, n: nat)
    requires forall b :: b in d ==> b < n
    ensures |Ascending(d, n)| == |d|
    decreases n
  {
    if n == 0 {
      assert d == {};
    } else if n <= 256 && n - 1 in d {
      AscendingCount(d - {n - 1}, n - 1);
      AscendingSorted(d, n - 1);
      IncreasingUnique(Ascending(d, n - 1), d - {n - 1}, n - 1);
    } else {
      AscendingCount(d, n - 1);
    }
  }

  lemma {:induction false} AtMost256(d: set<byte>)
    ensures |d| <= 256
  {
    AscendingCount(d, 256);
    AscendingSorted(d, 256);
    IncreasingBounded(Ascending(d, 256), 256);
  }

  lemma {:induction false} IncreasingBounded(s: seq<byte>, n: nat)
    requires Increasing(s) && forall i :: 0 <= i < |s| ==> s[i] < n
    ensures |s| <= n
  {
    if s != [] {
      IncreasingBounded(s[..|s| - 1], s[|s| - 1]);
    }
  }

  /** The leaves below `t` from left to right. */
  function Items(t: Tree): (s: seq<Entry>)
    decreases t, 1, 0
  {
    match t
    case Empty => []
    case Leaf(key, value) => [(key, value)]
    case Node(_, kids) => AscendingSorted(kids.Keys, 256); ItemsOf(t, Ascending(kids.Keys, 256))
  }

  /** The leaves below the children named by `bs`, in that order. */
  function ItemsOf(t: Tree, bs: seq<byte>): (s: seq<Entry>)
    requires t.Node? && forall b :: b in bs ==> b in t.kids
    decreases t, 0, |bs|
  {
    if bs == [] then [] else ItemsOf(t, bs[..|bs| - 1]) + Items(t.kids[bs[|bs| - 1]])
  }

  lemma {:induction false} ItemsAreEntries(t: Tree, e: Entry)
    ensures e in Items(t) <==> e in Entries(t)
    decreases t, 1, 0
  {
    if t.Node? {
      AscendingSorted(t.kids.Keys, 256);
      ItemsOfAreEntries(t, Ascending(t.kids.Keys, 256), e);
    }
  }

  lemma {:induction false} ItemsOfAreEntries(t: Tree, bs: seq<byte>, e: Entry)
    requires t.Node? && forall b :: b in bs ==> b in t.kids
    ensures e in ItemsOf(t, bs) <==> exists b :: b in bs && e in Entries(t.kids[b])
    decreases t, 0, |bs|
  {
    if bs != [] {
      var last := bs[|bs| - 1];
      ItemsOfAreEntries(t, bs[..|bs| - 1], e);
      ItemsAreEntries(t.kids[last], e);
      assert bs == bs[..|bs| - 1] + [last];
    }
  }

  ghost predicate SortedItems(s: seq<Entry>) {
    forall i, j :: 0 <= i < j < |s| ==> KeyLess(s[i].0, s[j].0)
  }

  /** Keys below different children of one node are ordered by the children's bytes. */
  lemma {:induction false} ChildrenOrdered(t: Tree, pre: seq<byte>, b: byte, e: Entry, c: byte, f: Entry)
    requires t.Node? && WellFormed(t, pre) && b in t.kids && c in t.kids && b < c
    requires e in Entries(t.kids[b]) && f in Entries(t.kids[c])
    ensures KeyLess(e.0, f.0)
  {
    var x, y, n := Terminated(e.0), Terminated(f.0), |pre| + |t.path|;
    EntryBelowChild(t, pre, e, b);
    EntryBelowChild(t, pre, f, c);
    assert x[..n] == x[..|pre|] + x[|pre|..n] == y[..|pre|] + y[|pre|..n] == y[..n];
    assert e.0[..n] == x[..n] && f.0[..n] == y[..n];
    assert DivergesAt(e.0, f.0, n);
  }

  /** Left to right is the lexicographic order. */
  lemma {:induction false} ItemsSorted(t: Tree, pre: seq<byte>)
    requires WellFormed(t, pre)
    ensures SortedItems(Items(t))
    decreases t, 1, 0
  {
    if t.Node? {
      AscendingSorted(t.kids.Keys, 256);
      ItemsOfSorted(t, pre, Ascending(t.kids.Keys, 256));
    }
  }

  lemma {:induction false} ItemsOfSorted(t: Tree, pre: seq<byte>, bs: seq<byte>)
    requires t.Node? && WellFormed(t, pre) && Increasing(bs) && forall b :: b in bs ==> b in t.kids
    ensures SortedItems(ItemsOf(t, bs))
    decreases t, 0, |bs|
  {
    if bs != [] {
      var front, last := bs[..|bs| - 1], bs[|bs| - 1];
      var xs, ys := ItemsOf(t, front), Items(t.kids[last]);
      ItemsOfSorted(t, pre, front);
      ItemsSorted(t.kids[last], pre + t.path + [last]);
      forall i, j | 0 <= i < |xs| && 0 <= j < |ys| ensures KeyLess(xs[i].0, ys[j].0) {
        ItemsOfAreEntries(t, front, xs[i]);
        ItemsAreEntries(t.kids[last], ys[j]);
        var b :| b in front && xs[i] in Entries(t.kids[b]);
        ChildrenOrdered(t, pre, b, xs[i], last, ys[j]);
      }
    }
  }

  lemma {:induction false} KeyLessIrreflexive(k: Key)
    ensures !KeyLess(k, k)
  {
  }

  /** Every entry is visited exactly once. */
  lemma {:induction false} ItemsCount(t: Tree, pre: seq<byte>)
    requires WellFormed(t, pre)
    ensures |Items(t)| == |Entries(t)|
  {
    ItemsSorted(t, pre);
    forall e: Entry ensures e in Items(t) <==> e in Entries(t) { ItemsAreEntries(t, e); }
    SortedCount(Items(t), Entries(t));
  }

  lemma {:induction false} SortedCount(s: seq<Entry>, d: set<Entry>)
    requires SortedItems(s) && forall e :: e in s <==> e in d
    ensures |s| == |d|
  {
    if s == [] {
      assert d == {};
    } else {
      var last := s[|s| - 1];
      forall e ensures e in s[..|s| - 1] <==> e in d - {last} {
        if e in s[..|s| - 1] { KeyLessIrreflexive(e.0); }
      }
      SortedCount(s[..|s| - 1], d - {last});
    }
  }

  lemma {:induction false} ItemsOfFirst(t: Tree, bs: seq<byte>)
    requires t.Node? && (forall b :: b in bs ==> b in t.kids) && bs != [] && Items(t.kids[bs[0]]) != []
    ensures ItemsOf(t, bs) != [] && ItemsOf(t, bs)[0] == Items(t.kids[bs[0]])[0]
    decreases |bs|
  {
    if |bs| > 1 {
      ItemsOfFirst(t, bs[..|bs| - 1]);
    } else {
      assert ItemsOf(t, bs[..0]) == [];
    }
  }

  ghost predicate IsFirst(t: Tree, e: Entry) {
    var s := Items(t);
    s != [] && s[0] == e
  }

  ghost predicate IsLast(t: Tree, e: Entry) {
    var s := Items(t);
    s != [] && s[|s| - 1] == e
  }

  /** The smallest leaf lies below the smallest byte. */
  lemma {:induction false} FirstItem(t: Tree, b: byte, e: Entry)
    requires t.Node? && b in t.kids && (forall c :: c in t.kids ==> b <= c) && IsFirst(t.kids[b], e)
    ensures IsFirst(t, e)
  {
    var bs := Ascending(t.kids.Keys, 256);
    AscendingSorted(t.kids.Keys, 256);
    assert b in bs;
    assert bs[0] == b;
    ItemsOfFirst(t, bs);
  }

  /** The largest leaf lies below the largest byte. */
  lemma {:induction false} LastItem(t: Tree, b: byte, e: Entry)
    requires t.Node? && b in t.kids && (forall c :: c in t.kids ==> c <= b) && IsLast(t.kids[b], e)
    ensures IsLast(t, e)
  {
    var bs := Ascending(t.kids.Keys, 256);
    AscendingSorted(t.kids.Keys, 256);
    assert b in bs;
    assert bs[|bs| - 1] == b;
  }

  /** What an iteration has shown to its callback, and the code it returns. */
  datatype Visits = Visits(seen: seq<Entry>, code: int)

  /** Show `s` to a callback after it has seen `h`. A callback keeps state between
      calls, so its return code is a function of all it has seen; the first
      non-zero code stops the iteration. */
  function Visit(h: seq<Entry>, s: seq<Entry>, cb: seq<Entry> -> int): (r: Visits)
    decreases |s|
  {
    if s == [] then Visits(h, 0) else
    var h' := h + [s[0]];
    if cb(h') != 0 then Visits(h', cb(h')) else Visit(h', s[1..], cb)
  }

  lemma {:induction false} VisitConcat(h: seq<Entry>, s: seq<Entry>, u: seq<Entry>, cb: seq<Entry> -> int)
    ensures var r := Visit(h, s, cb);
            Visit(h, s + u, cb) == if r.code != 0 then r else Visit(r.seen, u, cb)
    decreases |s|
  {
    if s == [] {
      assert s + u == u;
    } else {
      assert (s + u)[1..] == s[1..] + u;
      VisitConcat(h + [s[0]], s[1..], u, cb);
    }
  }

  /** A callback that always returns 0 sees everything. */
  lemma {:induction false} VisitEverything(h: seq<Entry>, s: seq<Entry>, cb: seq<Entry> -> int)
    requires forall g :: cb(g) == 0
    ensures Visit(h, s, cb) == Visits(h + s, 0)
    decreases |s|
  {
    if s == [] {
      assert h + s == h;
    } else {
      VisitEverything(h + [s[0]], s[1..], cb);
      assert h + [s[0]] + s[1..] == h + s;
    }
  }

  /** Once the callback has stopped the iteration, more items make no difference. */
  lemma {:induction false} VisitStopped(h: seq<Entry>, s: seq<Entry>, u: seq<Entry>, cb: seq<Entry> -> int)
    requires s <= u && Visit(h, s, cb).code != 0
    ensures Visit(h, u, cb) == Visit(h, s, cb)
  {
    VisitConcat(h, s, u[|s|..], cb);
    assert u == s + u[|s|..];
  }
}
