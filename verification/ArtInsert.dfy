/**
  recursive_insert and art_insert on the heap: each step is proved to turn a
  representation of a tree into a representation of the tree with the key stored.
 */
module ArtInsert {
  import opened Basics
  import opened RadixTree
  import opened ArtNodes
  import opened ArtGrowth
  import opened ArtHeap
  import opened ArtSearch

  // ---------------------------------------------------------------------
  // Putting a child back

  lemma {:induction false} SeparateReplaced(foot: map<byte, set<object>>, own: set<object>, R: set<object>, c: byte, S: set<object>)
    requires Separate(foot, own, R) && S !! own && forall b :: b in foot && b != c ==> S !! foot[b]
    ensures Separate(foot[c := S], own, R + S)
  {
  }

  /** The store through `ref` after a child was rewritten. */
  method ShapeReplaced(n: ArtNode, slot: nat, c: byte, child: Ptr,
                       ghost t: Tree, ghost R: set<object>, ghost below: Tree, ghost S: set<object>, ghost ord: bool)
    requires Shape(n, t, R, ord) && c in t.kids && child != Null
    requires SlotOf(n.kind, n.num, n.keys[..], c, slot) && slot < n.children.Length
    requires S !! n.Own() && forall b :: b in n.foot && b != c ==> S !! n.foot[b]
    modifies n`view, n`foot, n.children
    ensures Shape(n, Node(t.path, t.kids[c := below]), R + S, ord)
    ensures n.view == old(n.view)[c := child] && n.foot == old(n.foot)[c := S]
  {
    hide SlotOf;
    hide Separate;
    hide HeaderOf;
    hide Occupancy;
    hide Shape;
    hide ArtNode.Valid;
    ShapeParts(n, t, R, ord);
    SeparateReplaced(n.foot, n.Own(), R, c, S);
    SameKids(t.kids, c, below);
    SetAndNote(n, slot, c, child, t.path, S, ord);
    ShapeOf(n, t.path, t.kids[c := below], R + S, ord);
  }

  lemma {:induction false} SameKids(kids: map<byte, Tree>, c: byte, below: Tree)
    requires c in kids
    ensures kids[c := below].Keys == kids.Keys && |kids[c := below]| == |kids|
  {
    assert kids[c := below].Keys == kids.Keys;
    assert |kids[c := below].Keys| == |kids.Keys|;
  }

  method SetAndNote(n: ArtNode, slot: nat, c: byte, child: Ptr, ghost path: seq<byte>, ghost S: set<object>, ghost ord: bool)
    requires n.Valid(ord) && HeaderOf(n, path) && c in n.view && child != Null
    requires SlotOf(n.kind, n.num, n.keys[..], c, slot) && slot < n.children.Length
    modifies n`view, n`foot, n.children
    ensures n.Valid(ord) && HeaderOf(n, path) && n.view == old(n.view)[c := child] && n.foot == old(n.foot)[c := S]
  {
    hide SlotOf;
    ghost var stored := n.Stored();
    hide ArtNode.Valid;
    n.SetChild(slot, c, child, ord);
    NoteFoot(n, n.foot[c := S], path, stored, ord);
  }

  method ReplaceKid(n: ArtNode, slot: nat, c: byte, child: Ptr,
                    ghost t: Tree, ghost R: set<object>, ghost below: Tree, ghost S: set<object>, ghost ord: bool)
    requires Shape(n, t, R, ord) && c in t.kids && child != Null
    requires SlotOf(n.kind, n.num, n.keys[..], c, slot) && slot < n.children.Length
    requires Reps(n.view, t.kids - {c}, n.foot - {c}, ord) && Rep(child, below, S, ord)
    requires S !! n.Own() && forall b :: b in n.foot && b != c ==> S !! n.foot[b]
    modifies n`view, n`foot, n.children
    ensures Rep(ToNode(n), Node(t.path, t.kids[c := below]), R + S, ord)
  {
    hide ArtNode.Valid;
    hide HeaderOf;
    hide Reps;
    hide Rep;
    RepsUpdate(n.view, t.kids, n.foot, c, child, below, S, ord);
    ghost var ps, foot := n.view[c := child], n.foot[c := S];
    assert forall b :: b in foot ==> foot[b] !! n.Own();
    ShapeReplaced(n, slot, c, child, t, R, below, S, ord);
    FoldNode(n, Node(t.path, t.kids[c := below]), R + S, ord);
  }

  // ---------------------------------------------------------------------
  // Splitting a leaf

  /** Comparing the keys themselves finds where the terminated keys part. */
  lemma {:induction false} LeafAgreement(a: Key, k: Key, d: nat, n: nat)
    requires a != k && d <= |a| && d <= |k| && Terminated(a)[..d] == Terminated(k)[..d]
    requires n <= |a| - d && n <= |k| - d && forall i :: 0 <= i < n ==> a[d..][i] == k[d..][i]
    requires n < |a| - d && n < |k| - d ==> a[d..][n] != k[d..][n]
    ensures Agreement(Terminated(a)[d..], Terminated(k)[d..]) == n
  {
    var x, y := Terminated(a)[d..], Terminated(k)[d..];
    DistinctKeysDiverge(a, k, d);
    var m := Agreement(x, y);
    assert forall i :: 0 <= i < m ==> x[i] == x[..m][i] == y[..m][i] == y[i];
    assert forall i :: 0 <= i < |a| - d ==> x[i] == a[d..][i] != 0;
    assert forall i :: 0 <= i < |k| - d ==> y[i] == k[d..][i] != 0;
  }

  lemma {:induction false} RepLeaf(l: ArtLeaf, ord: bool)
    ensures Rep(ToLeaf(l), Leaf(l.key, l.value), {l}, ord)
  {
  }

  method SplitLeaf(l: ArtLeaf, k: Key, v: Address, depth: nat, ghost pre: seq<byte>, ghost R: set<object>, ghost ord: bool)
    returns (n: ArtNode, ghost R': set<object>)
    requires l in R && l.key != k && depth == |pre| && pre <= Terminated(l.key) && pre <= Terminated(k)
    ensures Rep(ToNode(n), Insert(Leaf(l.key, l.value), pre, k, v), R', ord) && fresh(R' - R)
  {
    hide Rep;
    hide Insert;
    hide Agreement;
    DistinctKeysDiverge(l.key, k, depth);
    var l2 := new ArtLeaf(k, v);
    var common := Compare(l.key[depth..], k[depth..], 0, Min(|l.key|, |k|) - depth);
    LeafAgreement(l.key, k, depth, common);
    InsertedIntoLeaf(Leaf(l.key, l.value), pre, k, v, common);
    n := ForkLeaves(l, l2, depth, common, ord);
    R' := n.Own() + {l} + {l2};
  }

  /** A new Node4 over two leaves that agree up to some byte. */
  method ForkLeaves(l: ArtLeaf, l2: ArtLeaf, depth: nat, common: nat, ghost ord: bool) returns (n: ArtNode)
    requires l != l2 && depth + common <= |l.key| && depth + common <= |l2.key|
    requires Terminated(l.key)[depth + common] != Terminated(l2.key)[depth + common]
    ensures fresh(n.Own())
    ensures Rep(ToNode(n), Node(Terminated(l2.key)[depth..depth + common],
                                map[Terminated(l.key)[depth + common] := Leaf(l.key, l.value),
                                    Terminated(l2.key)[depth + common] := Leaf(l2.key, l2.value)]),
                n.Own() + {l} + {l2}, ord)
  {
    hide Rep;
    RepLeaf(l, ord);
    RepLeaf(l2, ord);
    n := Fork(l2.key[depth..], common, ReadLeaf(l.key, depth + common), ToLeaf(l), ReadLeaf(l2.key, depth + common), ToLeaf(l2),
              Terminated(l2.key)[depth..depth + common], Leaf(l.key, l.value), {l}, Leaf(l2.key, l2.value), {l2}, ord);
  }

  /** `l->key[i]`: a leaf is allocated zeroed, so a terminator follows its key. */
  function ReadLeaf(k: Key, i: nat): (b: byte)
    requires i <= |k|
    ensures b == Terminated(k)[i]
  {
    if i < |k| then k[i] else 0
  }

  // ---------------------------------------------------------------------
  // Splitting a compressed path

  /** Cut the first `diff + 1` bytes off the header's path. Bytes that the header does
      not hold come from a leaf below the node. */
  method TrimHeader(n: ArtNode, diff: nat, leafKey: Key, depth: nat, ghost path: seq<byte>) returns (b: byte)
    requires HeaderOf(n, path) && diff < |path|
    requires |path| > MAX_PREFIX_LEN ==> depth <= |leafKey| && path <= leafKey[depth..]
    modifies n`partialLen, n.partial
    ensures b == path[diff] && HeaderOf(n, path[diff + 1..])
  {
    StoredBytes(n, path);
    ghost var was := n.partial[..];
    if n.partialLen <= MAX_PREFIX_LEN {
      b := n.partial[diff];
      assert b == was[diff];
      n.partialLen := n.partialLen - (diff + 1);
      forall i | 0 <= i < n.partialLen { n.partial[i] := n.partial[i + diff + 1]; }
      assert forall i :: 0 <= i < n.partialLen ==> n.partial[i] == was[i + diff + 1] == path[diff + 1..][i];
    } else {
      n.partialLen := n.partialLen - (diff + 1);
      b := leafKey[depth + diff];
      assert b == leafKey[depth..][diff];
      var stored := Min(MAX_PREFIX_LEN, n.partialLen);
      forall i | 0 <= i < stored { n.partial[i] := leafKey[depth + diff + 1 + i]; }
      assert forall i :: 0 <= i < stored ==> n.partial[i] == leafKey[depth..][diff + 1 + i] == path[diff + 1..][i];
    }
  }

  /** The lower half of a split: the old node with a shorter path. */
  method LowerNode(n: ArtNode, diff: nat, depth: nat,
                   ghost t: Tree, ghost pre: seq<byte>, ghost R: set<object>, ghost ord: bool) returns (b: byte)
    requires Rep(ToNode(n), t, R, ord) && t.Node? && WellFormed(t, pre) && depth == |pre| && diff < |t.path|
    requires n in R && n.partial in R
    modifies n`partialLen, n.partial
    ensures b == t.path[diff] && Rep(ToNode(n), Node(t.path[diff + 1..], t.kids), R, ord)
  {
    hide Occupancy;
    hide Layout;
    hide Rep;
    hide Reps;
    hide WellFormed;
    hide Entries;
    var leafKey: Key := [];
    NodeHeader(n, t, R, ord);
    if n.partialLen > MAX_PREFIX_LEN {
      var l := Minimum(ToNode(n), t, pre, R, ord);
      EntryFollowsPath(t, pre, (l.key, l.value));
      leafKey := l.key;
    }
    UnfoldNode(n, t, R, ord);
    b := TrimHeader(n, diff, leafKey, depth, t.path);
    FoldNode(n, Node(t.path[diff + 1..], t.kids), R, ord);
  }

  /** What insertion makes of a node whose path the key leaves after `n` bytes. */
  lemma {:induction false} InsertSplits(t: Tree, pre: seq<byte>, k: Key, v: Address, n: nat)
    requires t.Node? && WellFormed(t, pre) && pre <= Terminated(k)
    requires n == Agreement(t.path, Terminated(k)[|pre|..]) < |t.path|
    ensures |pre| + n <= |k| && Terminated(k)[|pre| + n] != t.path[n]
    ensures Insert(t, pre, k, v) == Node(t.path[..n], map[t.path[n] := Node(t.path[n + 1..], t.kids),
                                                          Terminated(k)[|pre| + n] := Leaf(k, v)])
  {
    hide WellFormed;
    PathDivergence(t, pre, k);
  }

  /** What insertion makes of a node whose path the key follows to its end. */
  lemma {:induction false} InsertPasses(t: Tree, pre: seq<byte>, k: Key)
    requires t.Node? && WellFormed(t, pre) && pre <= Terminated(k)
    requires Agreement(t.path, Terminated(k)[|pre|..]) == |t.path|
    ensures |pre| + |t.path| <= |k|
    ensures pre + t.path + [Terminated(k)[|pre| + |t.path|]] <= Terminated(k)
  {
    hide WellFormed;
    PathDivergence(t, pre, k);
    assert pre + t.path + [Terminated(k)[|pre| + |t.path|]] == Terminated(k)[..|pre| + |t.path| + 1];
  }

  lemma {:induction false} InsertAdds(t: Tree, pre: seq<byte>, k: Key, v: Address, b: byte)
    requires t.Node? && WellFormed(t, pre) && pre <= Terminated(k) && |pre| + |t.path| <= |k|
    requires Agreement(t.path, Terminated(k)[|pre|..]) == |t.path| && b == Terminated(k)[|pre| + |t.path|]
    requires b !in t.kids
    ensures Insert(t, pre, k, v) == Node(t.path, t.kids[b := Leaf(k, v)])
  {
    hide WellFormed;
    PathDivergence(t, pre, k);
  }

  lemma {:induction false} InsertDescends(t: Tree, pre: seq<byte>, k: Key, v: Address, b: byte)
    requires t.Node? && WellFormed(t, pre) && |pre| + |t.path| <= |k|
    requires Agreement(t.path, Terminated(k)[|pre|..]) == |t.path| && b == Terminated(k)[|pre| + |t.path|]
    requires b in t.kids && pre <= Terminated(k) && pre + t.path + [b] <= Terminated(k)
    ensures WellFormed(t.kids[b], pre + t.path + [b])
    ensures Insert(t, pre, k, v) == Node(t.path, t.kids[b := Insert(t.kids[b], pre + t.path + [b], k, v)])
  {
    PathDivergence(t, pre, k);
  }

  method SplitPath(n: ArtNode, k: Key, v: Address, depth: nat, diff: nat,
                   ghost t: Tree, ghost pre: seq<byte>, ghost R: set<object>, ghost ord: bool)
    returns (m: ArtNode, ghost R': set<object>)
    requires Rep(ToNode(n), t, R, ord) && t.Node? && WellFormed(t, pre) && depth == |pre| && pre <= Terminated(k)
    requires diff == Agreement(t.path, Terminated(k)[depth..]) < |t.path|
    modifies R
    ensures Rep(ToNode(m), Insert(t, pre, k, v), R', ord) && fresh(R' - R)
  {
    hide Rep;
    hide Insert;
    hide WellFormed;
    NodeHeader(n, t, R, ord);
    StoredBytes(n, t.path);
    InsertSplits(t, pre, k, v, diff);
    var src := n.partial[..];
    var b := LowerNode(n, diff, depth, t, pre, R, ord);
    var l := new ArtLeaf(k, v);
    RepLeaf(l, ord);
    m := Fork(src, diff, b, ToNode(n), ReadLeaf(k, depth + diff), ToLeaf(l),
              t.path[..diff], Node(t.path[diff + 1..], t.kids), R, Leaf(k, v), {l}, ord);
    R' := m.Own() + R + {l};
  }

  // ---------------------------------------------------------------------
  // Adding a child

  lemma {:induction false} OccupancyGrown(kind: Kind, count: nat)
    requires Occupancy(kind, count) && count < 256
    ensures Occupancy(GrownKind(kind, count), count + 1)
  {
  }

  lemma {:induction false} SeparateGrown(foot: map<byte, set<object>>, own: set<object>, R: set<object>,
                      own': set<object>, c: byte, S: set<object>)
    requires Separate(foot, own, R) && (own' == own || own' !! R) && S !! R && S !! own' && c !in foot
    ensures Separate(foot[c := S], own', R + own' + S)
  {
  }

  lemma {:induction false} SameCount(m: Children, kids: map<byte, Tree>)
    requires m.Keys == kids.Keys
    ensures |m| == |kids|
  {
    assert |m.Keys| == |kids.Keys|;
  }

  method ShapeGrown(n: ArtNode, c: byte, child: Ptr, sse: bool,
                    ghost t: Tree, ghost R: set<object>, ghost below: Tree, ghost S: set<object>, ghost ord: bool)
    returns (r: ArtNode)
    requires Shape(n, t, R, ord) && c !in t.kids && child != Null && S !! R && OrderSafe(ord, sse, c, n.view)
    modifies n, n.keys, n.children
    ensures (r == n || fresh(r.Own()))
    ensures r.view == old(n.view)[c := child] && r.foot == old(n.foot)[c := S]
    ensures Shape(r, Node(t.path, t.kids[c := below]), R + r.Own() + S, ord)
  {
    hide Occupancy;
    hide GrownKind;
    hide Layout;
    hide Separate;
    hide OrderSafe;
    hide Shape;
    hide HeaderOf;
    hide ArtNode.Valid;
    ShapeParts(n, t, R, ord);
    ghost var foot, own := n.foot, n.Own();
    GrownFacts(n.kind, n.view, t.kids, c, child, below);
    r := AddAndNote(n, c, child, sse, t.path, S, ord);
    SeparateGrown(foot, own, R, r.Own(), c, S);
    ShapeOf(r, t.path, t.kids[c := below], R + r.Own() + S, ord);
  }

  method AddAndNote(n: ArtNode, c: byte, child: Ptr, sse: bool, ghost path: seq<byte>, ghost S: set<object>, ghost ord: bool)
    returns (r: ArtNode)
    requires n.Valid(ord) && HeaderOf(n, path) && c !in n.view && child != Null && OrderSafe(ord, sse, c, n.view)
    modifies n, n.keys, n.children
    ensures r.Valid(ord) && HeaderOf(r, path) && (r == n || fresh(r.Own()))
    ensures r.view == old(n.view)[c := child] && r.foot == old(n.foot)[c := S]
    ensures r.kind == GrownKind(n.kind, |old(n.view)|)
  {
    hide GrownKind;
    hide OrderSafe;
    ghost var foot, stored := n.foot, n.Stored();
    hide ArtNode.Valid;
    r := AddChild(n, c, child, sse, ord);
    NoteFoot(r, foot[c := S], path, stored, ord);
  }

  /** Kinds and counts after an addition. */
  lemma {:induction false} GrownFacts(kind: Kind, m: Children, kids: map<byte, Tree>, c: byte, child: Ptr, below: Tree)
    requires Occupancy(kind, |kids|) && m.Keys == kids.Keys && c !in kids
    ensures m[c := child].Keys == kids[c := below].Keys && |m| == |kids|
    ensures Occupancy(GrownKind(kind, |m|), |kids[c := below]|)
  {
    RoomForOne(m, c, child);
    SameCount(m, kids);
    SameCount(m[c := child], kids[c := below]);
    OccupancyGrown(kind, |kids|);
  }

  /** Node16 keeps unsigned order in the SSE branch only while all bytes are below 128. */
  ghost predicate Ascii(k: Key) {
    forall i :: 0 <= i < |k| ==> k[i] < 128
  }

  ghost predicate AsciiTree(t: Tree) {
    forall e :: e in Entries(t) ==> Ascii(e.0)
  }

  ghost predicate InsertSafe(ord: bool, sse: bool, t: Tree, k: Key) {
    ord && sse ==> Ascii(k) && AsciiTree(t)
  }

  lemma {:induction false} AsciiBytes(t: Tree, pre: seq<byte>, b: byte)
    requires t.Node? && WellFormed(t, pre) && AsciiTree(t) && b in t.kids
    ensures b < 128 && AsciiTree(t.kids[b])
  {
    var e := SomeEntry(t.kids[b], pre + t.path + [b]);
    EntryBelowChild(t, pre, e, b);
    assert e in Entries(t);
  }

  lemma {:induction false} SafeBelow(ord: bool, sse: bool, t: Tree, pre: seq<byte>, k: Key, c: byte, m: Children)
    requires t.Node? && WellFormed(t, pre) && InsertSafe(ord, sse, t, k) && m.Keys == t.kids.Keys
    requires |pre| + |t.path| <= |k| && c == Terminated(k)[|pre| + |t.path|]
    ensures OrderSafe(ord, sse, c, m)
    ensures c in t.kids ==> InsertSafe(ord, sse, t.kids[c], k)
  {
    if ord && sse {
      forall b | b in t.kids ensures b < 128 && AsciiTree(t.kids[b]) { AsciiBytes(t, pre, b); }
    }
  }

  /** add_child, seen from the other children: they stay represented. */
  method GrowNode(n: ArtNode, c: byte, child: Ptr, sse: bool,
                  ghost t: Tree, ghost R: set<object>, ghost below: Tree, ghost S: set<object>, ghost ord: bool)
    returns (r: ArtNode)
    requires Shape(n, t, R, ord) && c !in t.kids && child != Null && S !! R && OrderSafe(ord, sse, c, n.view)
    requires Reps(n.view, t.kids, n.foot, ord)
    modifies n, n.keys, n.children
    ensures Shape(r, Node(t.path, t.kids[c := below]), R + r.Own() + S, ord) && (r == n || fresh(r.Own()))
    ensures r.view == old(n.view)[c := child] && r.foot == old(n.foot)[c := S]
    ensures Reps(old(n.view), t.kids, old(n.foot), ord)
  {
    hide Layout;
    hide OrderSafe;
    hide HeaderOf;
    hide Reps;
    hide Rep;
    assert forall b :: b in n.foot ==> n.foot[b] <= R && n.foot[b] !! n.Own();
    hide Shape;
    r := ShapeGrown(n, c, child, sse, t, R, below, S, ord);
  }

  lemma {:induction false} FoldGrown(r: ArtNode, t: Tree, R: set<object>, ps: Children, foot: map<byte, set<object>>,
                  c: byte, l: ArtLeaf, ord: bool)
    requires t.Node? && c !in t.kids && Shape(r, Node(t.path, t.kids[c := Leaf(l.key, l.value)]), R, ord)
    requires Reps(ps, t.kids, foot, ord) && r.view == ps[c := ToLeaf(l)] && r.foot == foot[c := {l}]
    ensures Rep(ToNode(r), Node(t.path, t.kids[c := Leaf(l.key, l.value)]), R, ord)
  {
    hide Layout;
    hide HeaderOf;
    hide Separate;
    hide Reps;
    RepsWithout(ps, t.kids, foot, c, ord);
    RepsUpdate(ps, t.kids, foot, c, ToLeaf(l), Leaf(l.key, l.value), {l}, ord);
    FoldNode(r, Node(t.path, t.kids[c := Leaf(l.key, l.value)]), R, ord);
  }

  /** The last case of recursive_insert: no child for the byte. */
  method AddLeaf(n: ArtNode, c: byte, k: Key, v: Address, sse: bool, ghost t: Tree, ghost R: set<object>, ghost ord: bool)
    returns (r: ArtNode, ghost R': set<object>)
    requires Rep(ToNode(n), t, R, ord) && t.Node? && c !in t.kids
    requires n in R && OrderSafe(ord, sse, c, n.view)
    modifies R
    ensures Rep(ToNode(r), Node(t.path, t.kids[c := Leaf(k, v)]), R', ord) && fresh(R' - R)
  {
    hide Rep;
    hide Layout;
    hide OrderSafe;
    hide HeaderOf;
    hide Reps;
    UnfoldNode(n, t, R, ord);
    assert n.Own() <= R;
    hide Shape;
    ghost var ps, foot := n.view, n.foot;
    var l := new ArtLeaf(k, v);
    r := GrowNode(n, c, ToLeaf(l), sse, t, R, Leaf(k, v), {l}, ord);
    R' := R + r.Own() + {l};
    FoldGrown(r, t, R', ps, foot, c, l, ord);
  }

  // ---------------------------------------------------------------------
  // recursive_insert

  lemma {:induction false} AgreementTerminated(t: Tree, pre: seq<byte>, k: Key)
    requires t.Node? && WellFormed(t, pre) && pre <= Terminated(k)
    ensures |pre| <= |k| && Agreement(t.path, Tail(k, |pre|)) == Agreement(t.path, Terminated(k)[|pre|..])
  {
    hide WellFormed;
    var z := Terminated(k)[|pre|..];
    var n := Agreement(t.path, z);
    PathDivergence(t, pre, k);
    assert z[..n] == Tail(k, |pre|)[..n];
    AgreementUnique(t.path, Tail(k, |pre|), n);
  }

  /** What is known of the old value after an insertion. */
  ghost predicate Replaced(s: set<Entry>, k: Key, found: bool, was: Address) {
    if found then (k, was) in s else was == NULL && forall v :: (k, v) !in s
  }

  lemma {:induction false} ReplacedBelow(t: Tree, pre: seq<byte>, k: Key, b: byte, found: bool, was: Address)
    requires t.Node? && WellFormed(t, pre) && |pre| + |t.path| <= |k| && b == Terminated(k)[|pre| + |t.path|]
    requires Replaced(if b in t.kids then Entries(t.kids[b]) else {}, k, found, was)
    ensures Replaced(Entries(t), k, found, was)
  {
    forall v: Address ensures (k, v) in Entries(t) <==> b in t.kids && (k, v) in Entries(t.kids[b]) {
      SearchStep(t, pre, k, b, v);
    }
  }

  lemma {:induction false} NotReplaced(t: Tree, pre: seq<byte>, k: Key)
    requires t.Node? && WellFormed(t, pre) && pre <= Terminated(k)
    requires Agreement(t.path, Terminated(k)[|pre|..]) < |t.path|
    ensures Replaced(Entries(t), k, false, NULL)
  {
    NotBelowSplit(t, pre, k);
  }

  /** recursive_insert: what `*ref` points to afterwards, and the value that was replaced. */
  method InsertRec(p: Ptr, k: Key, v: Address, depth: nat, sse: bool,
                   ghost t: Tree, ghost pre: seq<byte>, ghost R: set<object>, ghost ord: bool)
    returns (p': Ptr, found: bool, was: Address, ghost R': set<object>)
    requires Rep(p, t, R, ord) && WellFormed(t, pre) && depth == |pre| && pre <= Terminated(k)
    requires InsertSafe(ord, sse, t, k)
    modifies R
    ensures Rep(p', Insert(t, pre, k, v), R', ord) && p' != Null && fresh(R' - R)
    ensures Replaced(Entries(t), k, found, was)
    decreases t, 1, 0
  {
    found, was, R' := false, NULL, {};
    match p {
      case Null =>
        var l := new ArtLeaf(k, v);
        p', R' := ToLeaf(l), {l};
      case ToLeaf(l) =>
        if l.key == k {
          found, was := true, l.value;
          l.value := v;
          p', R' := p, R;
        } else {
          var n;
          n, R' := SplitLeaf(l, k, v, depth, pre, R, ord);
          p' := ToNode(n);
        }
      case ToNode(n) =>
        p', found, was, R' := InsertNode(n, k, v, depth, sse, t, pre, R, ord);
    }
  }

  method InsertNode(n: ArtNode, k: Key, v: Address, depth: nat, sse: bool,
                    ghost t: Tree, ghost pre: seq<byte>, ghost R: set<object>, ghost ord: bool)
    returns (p': Ptr, found: bool, was: Address, ghost R': set<object>)
    requires Rep(ToNode(n), t, R, ord) && WellFormed(t, pre) && depth == |pre| && pre <= Terminated(k)
    requires InsertSafe(ord, sse, t, k)
    modifies R
    ensures Rep(p', Insert(t, pre, k, v), R', ord) && p' != Null && fresh(R' - R)
    ensures Replaced(Entries(t), k, found, was)
    decreases t, 0, 2
  {
    hide Rep;
    hide NodeRep;
    hide WellFormed;
    hide Entries;
    hide Insert;
    hide InsertSafe;
    hide Replaced;
    NodeHeader(n, t, R, ord);
    AgreementTerminated(t, pre, k);
    if n.partialLen > 0 {
      var diff := PrefixMismatch(n, k, depth, t, pre, R, ord);
      if diff < n.partialLen {
        var m;
        NotReplaced(t, pre, k);
        m, R' := SplitPath(n, k, v, depth, diff, t, pre, R, ord);
        p', found, was := ToNode(m), false, NULL;
        return;
      }
    } else {
      assert Agreement(t.path, Tail(k, depth)) == |t.path|;
    }
    InsertPasses(t, pre, k);
    p', found, was, R' := InsertBelow(n, k, v, depth + n.partialLen, sse, t, pre, R, ord);
  }

  /** The end of recursive_insert: the key has passed the node's whole path. */
  method InsertBelow(n: ArtNode, k: Key, v: Address, next: nat, sse: bool,
                     ghost t: Tree, ghost pre: seq<byte>, ghost R: set<object>, ghost ord: bool)
    returns (p': Ptr, found: bool, was: Address, ghost R': set<object>)
    requires Rep(ToNode(n), t, R, ord) && t.Node? && WellFormed(t, pre) && pre <= Terminated(k)
    requires InsertSafe(ord, sse, t, k) && next == |pre| + |t.path| <= |k|
    requires Agreement(t.path, Terminated(k)[|pre|..]) == |t.path|
    requires pre + t.path + [Terminated(k)[next]] <= Terminated(k)
    modifies R
    ensures Rep(p', Insert(t, pre, k, v), R', ord) && p' != Null && fresh(R' - R)
    ensures Replaced(Entries(t), k, found, was)
    decreases t, 0, 1
  {
    hide Rep;
    hide NodeRep;
    hide WellFormed;
    hide Entries;
    hide Insert;
    hide InsertSafe;
    hide Layout;
    hide HeaderOf;
    hide Reps;
    hide OrderSafe;
    hide SlotOf;
    hide Agreement;
    var c := ReadLeaf(k, next);
    UnfoldNode(n, t, R, ord);
    SafeBelow(ord, sse, t, pre, k, c, n.view);
    var p, slot := FindKid(n, c, t, R, ord);
    if slot >= 0 {
      InsertDescends(t, pre, k, v, c);
      found, was, R' := InsertThrough(n, p, k, v, next, c, slot, sse, t, pre, R, ord);
      p' := ToNode(n);
    } else {
      InsertAdds(t, pre, k, v, c);
      var r;
      r, R' := AddLeaf(n, c, k, v, sse, t, R, ord);
      p', found, was := ToNode(r), false, NULL;
    }
    ReplacedBelow(t, pre, k, c, found, was);
  }

  /** The recursion through the child for `c`, whose slot takes what comes back. */
  method InsertThrough(n: ArtNode, p: Ptr, k: Key, v: Address, next: nat, c: byte, slot: int, sse: bool,
                       ghost t: Tree, ghost pre: seq<byte>, ghost R: set<object>, ghost ord: bool)
    returns (found: bool, was: Address, ghost R': set<object>)
    requires Shape(n, t, R, ord) && Reps(n.view, t.kids, n.foot, ord) && c in t.kids
    requires slot >= 0 && SlotOf(n.kind, n.num, n.keys[..], c, slot) && slot < n.children.Length
    requires p == n.view[c] == n.children[slot] && p != Null
    requires WellFormed(t.kids[c], pre + t.path + [c]) && next + 1 == |pre + t.path + [c]|
    requires pre + t.path + [c] <= Terminated(k) && InsertSafe(ord, sse, t.kids[c], k)
    modifies R
    ensures Rep(ToNode(n), Node(t.path, t.kids[c := Insert(t.kids[c], pre + t.path + [c], k, v)]), R', ord) && fresh(R' - R)
    ensures Replaced(Entries(t.kids[c]), k, found, was)
    decreases t, 0, 0
  {
    hide Rep;
    hide WellFormed;
    hide Entries;
    hide Insert;
    hide InsertSafe;
    hide Layout;
    hide HeaderOf;
    hide SlotOf;
    RepsWithout(n.view, t.kids, n.foot, c, ord);
    assert n.foot[c] <= R && Rep(p, t.kids[c], n.foot[c], ord);
    hide Reps;
    var q;
    ghost var S;
    q, found, was, S := InsertRec(p, k, v, next + 1, sse, t.kids[c], pre + t.path + [c], n.foot[c], ord);
    ReplaceKid(n, slot, c, q, t, R, Insert(t.kids[c], pre + t.path + [c], k, v), S, ord);
    R' := R + S;
  }
}
