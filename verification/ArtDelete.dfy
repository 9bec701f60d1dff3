/**
  recursive_delete and the collapse of a node that is left with one child.
 */
module ArtDelete {
  import opened Basics
  import opened RadixTree
  import opened ArtNodes
  import opened ArtShrink
  import opened ArtHeap
  import opened ArtSearch
  import opened ArtInsert

  // ---------------------------------------------------------------------
  // Collapsing

  /** The end of remove_child4: the header of the only child takes in the node's path
      and the child's byte, as far as ten bytes go. */
  method MergeHeader(n: ArtNode, child: ArtNode, c: byte, ghost path: seq<byte>, ghost below: seq<byte>)
    requires HeaderOf(n, path) && HeaderOf(child, below) && n != child && n.partial != child.partial
    modifies n.partial, child`partialLen, child.partial
    ensures HeaderOf(child, path + [c] + below)
  {
    ghost var whole := path + [c] + below;
    StoredBytes(n, path);
    StoredBytes(child, below);
    var prefix := FillPrefix(n.partial, n.partialLen, c, child.partial, child.partialLen, path, below);
    var kept := Min(prefix, MAX_PREFIX_LEN);
    forall i | 0 <= i < kept { child.partial[i] := n.partial[i]; }
    assert forall i :: 0 <= i < kept ==> child.partial[i] == whole[i];
    child.partialLen := child.partialLen + n.partialLen + 1;
  }

  /** The bytes of both paths, and the one between them, as far as the buffer of the upper node goes. */
  method FillPrefix(upper: array<byte>, len: nat, c: byte, lower: array<byte>, lowerLen: nat,
                    ghost path: seq<byte>, ghost below: seq<byte>)
    returns (prefix: nat)
    requires upper.Length == MAX_PREFIX_LEN == lower.Length && upper != lower && len == |path| && lowerLen == |below|
    requires forall i :: 0 <= i < len && i < MAX_PREFIX_LEN ==> upper[..][i] == path[i]
    requires forall i :: 0 <= i < lowerLen && i < MAX_PREFIX_LEN ==> lower[..][i] == below[i]
    modifies upper
    ensures if len + 1 + lowerLen < MAX_PREFIX_LEN then prefix == len + 1 + lowerLen else prefix >= MAX_PREFIX_LEN
    ensures prefix <= len + 1 + lowerLen
    ensures forall i :: 0 <= i < prefix && i < MAX_PREFIX_LEN ==> upper[i] == (path + [c] + below)[i]
  {
    ghost var whole := path + [c] + below;
    assert forall i :: 0 <= i < lowerLen && i < MAX_PREFIX_LEN ==> lower[i] == lower[..][i];
    assert forall i :: 0 <= i < len && i < MAX_PREFIX_LEN ==> upper[i] == upper[..][i];
    prefix := len;
    if prefix < MAX_PREFIX_LEN {
      upper[prefix] := c;
      prefix := prefix + 1;
    }
    assert forall i :: 0 <= i < prefix && i < MAX_PREFIX_LEN ==> upper[i] == whole[i];
    if prefix < MAX_PREFIX_LEN {
      var sub := Min(lowerLen, MAX_PREFIX_LEN - prefix);
      forall i | 0 <= i < sub { upper[prefix + i] := lower[i]; }
      assert forall i :: prefix <= i < prefix + sub ==> upper[i] == below[i - prefix] == whole[i];
      prefix := prefix + sub;
    }
  }

  /** The only child left, moved up with a longer path. */
  method LiftNode(n: ArtNode, child: ArtNode, c: byte, ghost path: seq<byte>,
                  ghost below: Tree, ghost S: set<object>, ghost ord: bool)
    requires HeaderOf(n, path) && Rep(ToNode(child), below, S, ord) && S !! n.Own()
    modifies n.partial, S
    ensures below.Node? && Rep(ToNode(child), Node(path + [c] + below.path, below.kids), S, ord)
  {
    hide Layout;
    hide Rep;
    hide Reps;
    NodeHeader(child, below, S, ord);
    UnfoldNode(child, below, S, ord);
    MergeHeader(n, child, c, path, below.path);
    FoldNode(child, Node(path + [c] + below.path, below.kids), S, ord);
  }

  // ---------------------------------------------------------------------
  // Removing a child

  lemma {:induction false} OccupancyShrunk(kind: Kind, count: nat)
    requires Occupancy(kind, count) && count > 2
    ensures Occupancy(ShrunkKind(kind, count - 1), count - 1)
  {
  }

  lemma {:induction false} SeparateShrunk(foot: map<byte, set<object>>, own: set<object>, R: set<object>, own': set<object>, c: byte)
    requires Separate(foot, own, R) && (own' == own || own' !! R)
    ensures Separate(foot - {c}, own', R + own')
  {
    forall b | b in foot - {c} ensures (foot - {c})[b] == foot[b] {}
  }

  lemma {:induction false} KidsWithout(kids: map<byte, Tree>, c: byte)
    requires c in kids
    ensures (kids - {c}).Keys == kids.Keys - {c} && |kids - {c}| == |kids| - 1
  {
    assert (kids - {c}).Keys == kids.Keys - {c};
  }

  /** remove_child in a node that keeps at least two children. */
  method ShapeShrunk(n: ArtNode, c: byte, slot: nat, ghost t: Tree, ghost R: set<object>, ghost ord: bool)
    returns (r: ArtNode)
    requires Shape(n, t, R, ord) && c in t.kids && SlotOf(n.kind, n.num, n.keys[..], c, slot) && |t.kids| > 2
    modifies n, n.keys, n.children
    ensures Shape(r, Node(t.path, t.kids - {c}), R + r.Own(), ord) && (r == n || fresh(r.Own()))
    ensures r.view == old(n.view) - {c} && r.foot == old(n.foot) - {c}
  {
    hide Occupancy;
    hide ShrunkKind;
    hide Separate;
    hide SlotOf;
    hide Shape;
    hide HeaderOf;
    hide ArtNode.Valid;
    ShapeParts(n, t, R, ord);
    ghost var foot, own := n.foot, n.Own();
    ShrunkFacts(n.kind, n.view, t.kids, c);
    r := RemoveAndNote(n, c, slot, t.path, ord);
    SeparateShrunk(foot, own, R, r.Own(), c);
    ShapeOf(r, t.path, t.kids - {c}, R + r.Own(), ord);
  }

  method RemoveAndNote(n: ArtNode, c: byte, slot: nat, ghost path: seq<byte>, ghost ord: bool) returns (r: ArtNode)
    requires n.Valid(ord) && HeaderOf(n, path) && c in n.view && SlotOf(n.kind, n.num, n.keys[..], c, slot)
    modifies n, n.keys, n.children
    ensures r.Valid(ord) && HeaderOf(r, path) && (r == n || fresh(r.Own()))
    ensures r.view == old(n.view) - {c} && r.foot == old(n.foot) - {c} && r.kind == ShrunkKind(n.kind, |r.view|)
  {
    hide ShrunkKind;
    hide SlotOf;
    ghost var foot, stored := n.foot, n.Stored();
    hide ArtNode.Valid;
    r := RemoveChild(n, c, slot, ord);
    NoteFoot(r, foot - {c}, path, stored, ord);
  }

  /** Kinds and counts after a removal. */
  lemma {:induction false} ShrunkFacts(kind: Kind, m: Children, kids: map<byte, Tree>, c: byte)
    requires Occupancy(kind, |kids|) && m.Keys == kids.Keys && c in kids && |kids| > 2
    ensures (m - {c}).Keys == (kids - {c}).Keys && |kids - {c}| == |m - {c}|
    ensures Occupancy(ShrunkKind(kind, |m - {c}|), |kids - {c}|)
  {
    KidsWithout(kids, c);
    OccupancyShrunk(kind, |kids|);
    SameCount(m - {c}, kids - {c});
  }

  /** remove_child, seen from the other children: they stay represented. */
  method ShrinkNode(n: ArtNode, c: byte, slot: nat, ghost t: Tree, ghost R: set<object>, ghost ord: bool)
    returns (r: ArtNode)
    requires Shape(n, t, R, ord) && c in t.kids && SlotOf(n.kind, n.num, n.keys[..], c, slot) && |t.kids| > 2
    requires Reps(n.view, t.kids, n.foot, ord)
    modifies n, n.keys, n.children
    ensures Shape(r, Node(t.path, t.kids - {c}), R + r.Own(), ord) && (r == n || fresh(r.Own()))
    ensures r.view == old(n.view) - {c} && r.foot == old(n.foot) - {c}
    ensures Reps(old(n.view), t.kids, old(n.foot), ord)
  {
    hide Shape;
    hide Reps;
    hide SlotOf;
    FootApart(n, t, R, ord);
    r := ShapeShrunk(n, c, slot, t, R, ord);
  }

  lemma {:induction false} FootApart(n: ArtNode, t: Tree, R: set<object>, ord: bool)
    requires Shape(n, t, R, ord)
    ensures forall b :: b in n.foot ==> n.foot[b] <= R && n.foot[b] !! n.Own()
  {
  }

  lemma {:induction false} FoldShrunk(r: ArtNode, t: Tree, R: set<object>, ps: Children, foot: map<byte, set<object>>, c: byte, ord: bool)
    requires t.Node? && Shape(r, Node(t.path, t.kids - {c}), R, ord)
    requires Reps(ps, t.kids, foot, ord) && r.view == ps - {c} && r.foot == foot - {c}
    ensures Rep(ToNode(r), Node(t.path, t.kids - {c}), R, ord)
  {
    hide Layout;
    hide HeaderOf;
    hide Separate;
    hide Reps;
    RepsShrunk(ps, t.kids, foot, c, ord);
    FoldNode(r, Node(t.path, t.kids - {c}), R, ord);
  }

  lemma {:induction false} RepsShrunk(ps: Children, kids: map<byte, Tree>, foot: map<byte, set<object>>, b: byte, ord: bool)
    requires Reps(ps, kids, foot, ord)
    ensures Reps(ps - {b}, kids - {b}, foot - {b}, ord)
  {
    forall c | c in kids - {b}
      ensures c in ps - {b} && c in foot - {b} && Rep((ps - {b})[c], (kids - {b})[c], (foot - {b})[c], ord) {
      assert (foot - {b})[c] == foot[c] && (ps - {b})[c] == ps[c] && (kids - {b})[c] == kids[c];
    }
  }

  lemma {:induction false} CollapsedSingle(path: seq<byte>, kids: map<byte, Tree>, c: byte, b: byte)
    requires kids.Keys == {b, c} && b != c
    ensures |kids - {c}| == 1
    ensures kids[b].Node? ==> Collapsed(path, kids - {c}) == Node(path + [b] + kids[b].path, kids[b].kids)
    ensures !kids[b].Node? ==> Collapsed(path, kids - {c}) == kids[b]
  {
    var rest := kids - {c};
    assert rest.Keys == {b};
    assert |rest| == |rest.Keys| == 1;
    assert rest[b] == kids[b];
  }

  lemma {:induction false} RepAt(ps: Children, kids: map<byte, Tree>, foot: map<byte, set<object>>, b: byte, ord: bool)
    requires Reps(ps, kids, foot, ord) && b in kids
    ensures b in ps && b in foot && Rep(ps[b], kids[b], foot[b], ord)
  {
  }

  /** Take one of two pairs out; what is left in place 0 is the other. */
  method KeepOther(n: ArtNode, c: byte, slot: nat, ghost b: byte, ghost ord: bool) returns (other: byte, child: Ptr)
    requires n.Valid(ord) && n.kind == Node4 && n.view.Keys == {b, c} && b != c
    requires SlotOf(n.kind, n.num, n.keys[..], c, slot)
    modifies n`num, n`view, n.keys, n.children
    ensures other == b && child == old(n.view)[b] && child != Null
  {
    assert |n.view| == 2 by { assert |n.view.Keys| == |{b, c}| == 2; }
    RemovePair(n, c, slot, ord);
    assert n.view.Keys == {b};
    assert |n.view| == 1 by { assert |n.view.Keys| == |{b}| == 1; }
    other, child := n.keys[0], n.children[0];
    assert n.keys[..n.num][0] in n.view;
  }

  /** remove_child4 on a node with two children: the other one takes its place. */
  method CollapseNode(n: ArtNode, c: byte, slot: nat, ghost t: Tree, ghost R: set<object>, ghost ord: bool)
    returns (p': Ptr, ghost R': set<object>)
    requires Shape(n, t, R, ord) && n.Own() <= R && Reps(n.view, t.kids, n.foot, ord)
    requires c in t.kids && |t.kids| == 2 && SlotOf(n.kind, n.num, n.keys[..], c, slot)
    modifies R
    ensures |t.kids - {c}| == 1 && Rep(p', Collapsed(t.path, t.kids - {c}), R', ord) && p' != Null && R' <= R
  {
    hide Rep;
    hide Reps;
    hide Layout;
    hide SlotOf;
    hide Collapsed;
    ghost var b := OtherKey(t.kids, c);
    CollapsedSingle(t.path, t.kids, c, b);
    RepAt(n.view, t.kids, n.foot, b, ord);
    R' := n.foot[b];
    assert R' <= R && R' !! n.Own();
    hide Separate;
    var other;
    other, p' := KeepOther(n, c, slot, b, ord);
    match p' {
      case ToNode(child) => LiftNode(n, child, other, t.path, t.kids[b], R', ord);
      case ToLeaf(l) => LeafRep(l, t.kids[b], R', ord);
    }
  }

  lemma {:induction false} LeafRep(l: ArtLeaf, t: Tree, R: set<object>, ord: bool)
    requires Rep(ToLeaf(l), t, R, ord)
    ensures l in R && t == Leaf(l.key, l.value)
  {
  }

  ghost function OtherKey(kids: map<byte, Tree>, c: byte): (b: byte)
    requires |kids| == 2 && c in kids
    ensures b != c && kids.Keys == {b, c}
  {
    KidsWithout(kids, c);
    assert (kids - {c}).Keys != {};
    var b :| b in kids - {c};
    SingletonKeys(kids - {c}, b, b);
    assert kids.Keys == (kids - {c}).Keys + {c};
    b
  }

  lemma {:induction false} TwoChildren(n: ArtNode, t: Tree, R: set<object>, ord: bool)
    requires Rep(ToNode(n), t, R, ord) && n in R
    ensures t.Node? && |t.kids| >= 2 && (n.kind == Node4 && n.num == 2 <==> |t.kids| == 2)
  {
    UnfoldNode(n, t, R, ord);
    SameCount(n.view, t.kids);
  }

  /** remove_child: what `*ref` points to afterwards. */
  method RemoveKid(n: ArtNode, c: byte, slot: nat, ghost t: Tree, ghost R: set<object>, ghost ord: bool)
    returns (p': Ptr, ghost R': set<object>)
    requires Rep(ToNode(n), t, R, ord) && t.Node? && c in t.kids
    requires n in R && n.keys in R && n.keys.Length == KeySlots(n.kind) && SlotOf(n.kind, n.num, n.keys[..], c, slot)
    modifies R
    ensures |t.kids - {c}| >= 1 && Rep(p', Collapsed(t.path, t.kids - {c}), R', ord) && p' != Null && fresh(R' - R)
  {
    hide Occupancy;
    hide Rep;
    hide Reps;
    hide SlotOf;
    hide HeaderOf;
    hide Layout;
    TwoChildren(n, t, R, ord);
    UnfoldNode(n, t, R, ord);
    KidsWithout(t.kids, c);
    assert n.Own() <= R;
    if n.kind == Node4 && n.num == 2 {
      p', R' := CollapseNode(n, c, slot, t, R, ord);
    } else {
      hide Shape;
      ghost var ps, foot := n.view, n.foot;
      var r := ShrinkNode(n, c, slot, t, R, ord);
      p', R' := ToNode(r), R + r.Own();
      FoldShrunk(r, t, R', ps, foot, c, ord);
    }
  }

  // ---------------------------------------------------------------------
  // recursive_delete

  lemma {:induction false} DeleteAbsent(t: Tree, pre: seq<byte>, k: Key)
    requires WellFormed(t, pre) && forall v :: (k, v) !in Entries(t)
    ensures Delete(t, pre, k) == t
    decreases t
  {
    match t
    case Empty =>
    case Leaf(key, value) => assert (key, value) in Entries(t);
    case Node(path, kids) =>
      if pre + path <= k && Terminated(k)[|pre + path|] in kids {
        var b := Terminated(k)[|pre + path|];
        forall v: Address ensures (k, v) !in Entries(kids[b]) {
          assert (k, v) in Entries(kids[b]) ==> (k, v) in Entries(t);
        }
        DeleteAbsent(kids[b], pre + path + [b], k);
        assert kids[b := kids[b]] == kids;
      }
  }

  /** Where the deletion goes when the key is stored below the child for `b`. */
  lemma {:induction false} DeleteBelow(t: Tree, pre: seq<byte>, k: Key, b: byte, v: Address)
    requires t.Node? && WellFormed(t, pre) && b in t.kids && (k, v) in Entries(t.kids[b])
    ensures WellFormed(t.kids[b], pre + t.path + [b])
    ensures var below := Delete(t.kids[b], pre + t.path + [b], k);
            && (below.Empty? ==> |t.kids - {b}| >= 1 && Delete(t, pre, k) == Collapsed(t.path, t.kids - {b}))
            && (!below.Empty? ==> Delete(t, pre, k) == Node(t.path, t.kids[b := below]))
  {
    hide Entries;
    hide Collapsed;
    assert |t.kids| >= 2;
    ChildWellFormed(t, pre, b);
    EntryBelowChild(t, pre, (k, v), b);
    hide WellFormed;
    assert pre + t.path == Terminated(k)[..|pre| + |t.path|] == k[..|pre| + |t.path|];
    KidsWithout(t.kids, b);
  }

  lemma {:induction false} LeafEntries(t: Tree, k: Key)
    requires t.Leaf?
    ensures forall v :: (k, v) in Entries(t) <==> t.key == k && t.value == v
  {
  }

  method DeleteRec(p: Ptr, k: Key, past: nat -> byte, depth: nat,
                   ghost t: Tree, ghost pre: seq<byte>, ghost R: set<object>, ghost ord: bool)
    returns (p': Ptr, found: bool, was: Address, ghost R': set<object>)
    requires Rep(p, t, R, ord) && WellFormed(t, pre) && depth == |pre|
    modifies R
    ensures Rep(p', Delete(t, pre, k), R', ord) && fresh(R' - R)
    ensures Replaced(Entries(t), k, found, was)
    decreases t, 1
  {
    p', found, was, R' := p, false, NULL, R;
    match p {
      case Null =>
      case ToLeaf(l) =>
        if l.key == k {
          p', found, was := Null, true, l.value;
        }
      case ToNode(n) =>
        p', found, was, R' := DeleteNode(n, k, past, depth, t, pre, R, ord);
    }
  }

  method DeleteNode(n: ArtNode, k: Key, past: nat -> byte, depth: nat,
                    ghost t: Tree, ghost pre: seq<byte>, ghost R: set<object>, ghost ord: bool)
    returns (p': Ptr, found: bool, was: Address, ghost R': set<object>)
    requires Rep(ToNode(n), t, R, ord) && WellFormed(t, pre) && depth == |pre|
    modifies R
    ensures Rep(p', Delete(t, pre, k), R', ord) && fresh(R' - R) && p' != Null
    ensures Replaced(Entries(t), k, found, was)
    decreases t, 0
  {
    hide Rep;
    hide NodeRep;
    hide WellFormed;
    hide Entries;
    hide Delete;
    hide SlotOf;
    hide Collapsed;
    var child, next, b, slot := Descend(n, k, past, depth, t, pre, R, ord);
    p', found, was, R' := ToNode(n), false, NULL, R;
    match child {
      case Null =>
        DeleteAbsent(t, pre, k);
      case ToLeaf(l) =>
        LeafRep(l, t.kids[b], n.foot[b], ord);
        LeafEntries(t.kids[b], k);
        if l.key == k {
          found, was := true, l.value;
          DeleteBelow(t, pre, k, b, was);
          DeleteLeaf(t.kids[b], pre + t.path + [b], k);
          p', R' := RemoveKid(n, b, slot, t, R, ord);
        } else {
          DeleteAbsent(t, pre, k);
        }
      case ToNode(c) =>
        p', found, was, R' := DeleteDeeper(n, c, k, past, next, b, slot, t, pre, R, ord);
    }
  }

  lemma {:induction false} DeleteLeaf(t: Tree, pre: seq<byte>, k: Key)
    requires t.Leaf? && t.key == k && WellFormed(t, pre)
    ensures Delete(t, pre, k) == Empty
  {
  }

  /** What deleting below one child makes of the node, whether or not the key is there. */
  lemma {:induction false} DeleteThroughChild(t: Tree, pre: seq<byte>, k: Key, b: byte)
    requires t.Node? && WellFormed(t, pre) && b in t.kids && t.kids[b].Node?
    requires WellFormed(t.kids[b], pre + t.path + [b])
    requires forall v :: (k, v) in Entries(t) <==> (k, v) in Entries(t.kids[b])
    ensures Delete(t, pre, k) == Node(t.path, t.kids[b := Delete(t.kids[b], pre + t.path + [b], k)])
  {
    hide WellFormed;
    hide Entries;
    hide Delete;
    if v :| (k, v) in Entries(t.kids[b]) {
      DeleteBelow(t, pre, k, b, v);
      DeleteWellFormed(t.kids[b], pre + t.path + [b], k);
    } else {
      DeleteAbsent(t, pre, k);
      DeleteAbsent(t.kids[b], pre + t.path + [b], k);
      assert t.kids[b := t.kids[b]] == t.kids;
    }
  }

  method DeleteDeeper(n: ArtNode, c: ArtNode, k: Key, past: nat -> byte, next: nat, b: byte, slot: nat,
                      ghost t: Tree, ghost pre: seq<byte>, ghost R: set<object>, ghost ord: bool)
    returns (p': Ptr, found: bool, was: Address, ghost R': set<object>)
    requires Rep(ToNode(n), t, R, ord) && t.Node? && WellFormed(t, pre) && b in t.kids && next == |pre| + |t.path| + 1
    requires n in R && n.keys in R && n.keys.Length == KeySlots(n.kind) && SlotOf(n.kind, n.num, n.keys[..], b, slot)
    requires n.children in R && slot < n.children.Length
    requires b in n.foot && n.foot[b] <= R && Rep(ToNode(c), t.kids[b], n.foot[b], ord)
    requires forall v :: (k, v) in Entries(t) <==> (k, v) in Entries(t.kids[b])
    modifies R
    ensures Rep(p', Delete(t, pre, k), R', ord) && fresh(R' - R) && p' != Null
    ensures Replaced(Entries(t), k, found, was)
    decreases t, 0, 0
  {
    hide Rep;
    hide NodeRep;
    hide WellFormed;
    hide Entries;
    hide Delete;
    hide Layout;
    hide HeaderOf;
    hide Reps;
    hide SlotOf;
    UnfoldNode(n, t, R, ord);
    NodeHeader(c, t.kids[b], n.foot[b], ord);
    ChildWellFormed(t, pre, b);
    RepsWithout(n.view, t.kids, n.foot, b, ord);
    DeleteThroughChild(t, pre, k, b);
    ghost var S;
    p', found, was, S := DeleteNode(c, k, past, next, t.kids[b], pre + t.path + [b], n.foot[b], ord);
    ReplaceKid(n, slot, b, p', t, R, Delete(t.kids[b], pre + t.path + [b], k), S, ord);
    p', R' := ToNode(n), R + S;
  }
}
