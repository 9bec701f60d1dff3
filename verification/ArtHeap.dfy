/**
  How a heap of art_node and art_leaf objects represents a radix tree.
 */
module ArtHeap {
  import opened Basics
  import opened RadixTree
  import opened ArtNodes
  import opened ArtGrowth

  /** How many children a node of each kind has between operations. */
  predicate Occupancy(kind: Kind, count: nat) {
    match kind
    case Node4 => 2 <= count <= 4
    case Node16 => 4 <= count <= 16
    case Node48 => 13 <= count <= 48
    case Node256 => 38 <= count <= 256
  }

  /** The header holds the true length of the compressed path and its first bytes. */
  ghost predicate HeaderOf(n: ArtNode, path: seq<byte>)
    reads n, n.partial
  {
    && n.partial.Length == MAX_PREFIX_LEN && n.partialLen == |path| && n.Stored() <= path
  }

  /** The objects below the children are apart from each other and from the node's own. */
  ghost predicate Separate(foot: map<byte, set<object>>, own: set<object>, R: set<object>) {
    && (forall b :: b in foot ==> foot[b] <= R && foot[b] !! own)
    && (forall b, c :: b in foot && c in foot && b != c ==> foot[b] !! foot[c])
  }

  /** Everything `Rep` says about a node except that its children are represented. */
  ghost predicate Shape(n: ArtNode, t: Tree, R: set<object>, ord: bool)
    reads n, n.partial, n.keys, n.children
  {
    && n.Own() <= R && t.Node? && n.Valid(ord) && HeaderOf(n, t.path)
    && Occupancy(n.kind, |t.kids|)
    && n.view.Keys == t.kids.Keys == n.foot.Keys
    && Separate(n.foot, n.Own(), R)
  }

  /** The pointer `p`, with the objects in `R`, represents the tree `t`. */
  ghost predicate Rep(p: Ptr, t: Tree, R: set<object>, ord: bool)
    reads R
    decreases t, 1
  {
    match p
    case Null => t == Empty
    case ToLeaf(l) => l in R && t == Leaf(l.key, l.value)
    case ToNode(n) => NodeRep(n, t, R, ord)
  }

  ghost predicate NodeRep(n: ArtNode, t: Tree, R: set<object>, ord: bool)
    reads R
    decreases t, 0
  {
    && n.Own() <= R && Shape(n, t, R, ord)
    && forall b :: b in t.kids ==> Rep(n.view[b], t.kids[b], n.foot[b], ord)
  }

  lemma {:induction false} SeparateTwo(b: byte, Rb: set<object>, c: byte, Rc: set<object>, own: set<object>, R: set<object>)
    requires Rb <= R && Rc <= R && Rb !! own && Rc !! own && Rb !! Rc
    ensures Separate(map[b := Rb, c := Rc], own, R)
  {
  }

  /** Each child is represented, within its own objects. */
  ghost predicate Reps(ps: Children, kids: map<byte, Tree>, foot: map<byte, set<object>>, ord: bool)
    reads set b, o | b in foot && o in foot[b] :: o
  {
    forall b :: b in kids ==> b in ps && b in foot && Rep(ps[b], kids[b], foot[b], ord)
  }

  lemma {:induction false} FoldNode(n: ArtNode, t: Tree, R: set<object>, ord: bool)
    requires Shape(n, t, R, ord) && Reps(n.view, t.kids, n.foot, ord)
    ensures Rep(ToNode(n), t, R, ord)
  {
  }

  lemma {:induction false} UnfoldNode(n: ArtNode, t: Tree, R: set<object>, ord: bool)
    requires Rep(ToNode(n), t, R, ord)
    ensures Shape(n, t, R, ord) && Reps(n.view, t.kids, n.foot, ord)
  {
    assert NodeRep(n, t, R, ord);
  }

  lemma {:induction false} RepsTwo(b: byte, pb: Ptr, tb: Tree, Rb: set<object>, c: byte, pc: Ptr, tc: Tree, Rc: set<object>, ord: bool)
    requires Rep(pb, tb, Rb, ord) && Rep(pc, tc, Rc, ord)
    ensures Reps(map[b := pb, c := pc], map[b := tb, c := tc], map[b := Rb, c := Rc], ord)
  {
  }

  lemma {:induction false} RepsUpdate(ps: Children, kids: map<byte, Tree>, foot: map<byte, set<object>>, b: byte, p: Ptr, t: Tree,
                   S: set<object>, ord: bool)
    requires Reps(ps, kids - {b}, foot - {b}, ord) && Rep(p, t, S, ord)
    ensures Reps(ps[b := p], kids[b := t], foot[b := S], ord)
  {
    hide Rep;
    forall c | c in kids[b := t] && c != b
      ensures c in ps && c in foot && Rep(ps[c], kids[c], foot[c], ord) {
      assert (kids - {b})[c] == kids[c] && (foot - {b})[c] == foot[c];
    }
  }

  lemma {:induction false} RepsWithout(ps: Children, kids: map<byte, Tree>, foot: map<byte, set<object>>, b: byte, ord: bool)
    requires Reps(ps, kids, foot, ord)
    ensures Reps(ps, kids - {b}, foot - {b}, ord)
  {
    forall c | c in kids - {b} ensures c in ps && c in foot - {b} && Rep(ps[c], kids[c], (foot - {b})[c], ord) {
      assert (foot - {b})[c] == foot[c];
    }
  }

  lemma {:induction false} ShapeParts(n: ArtNode, t: Tree, R: set<object>, ord: bool)
    requires Shape(n, t, R, ord)
    ensures t.Node? && n.Own() <= R && n.Valid(ord) && HeaderOf(n, t.path) && Occupancy(n.kind, |t.kids|)
    ensures n.view.Keys == t.kids.Keys == n.foot.Keys && Separate(n.foot, n.Own(), R)
  {
  }

  lemma {:induction false} ShapeOf(n: ArtNode, path: seq<byte>, kids: map<byte, Tree>, R: set<object>, ord: bool)
    requires n.Own() <= R && n.Valid(ord) && HeaderOf(n, path) && Occupancy(n.kind, |kids|)
    requires n.view.Keys == kids.Keys == n.foot.Keys && Separate(n.foot, n.Own(), R)
    ensures Shape(n, Node(path, kids), R, ord)
  {
  }

  /** Notes the objects below each child of a node that has taken over a header. */
  method NoteFoot(n: ArtNode, ghost foot: map<byte, set<object>>, ghost path: seq<byte>, ghost stored: seq<byte>, ghost ord: bool)
    requires n.Valid(ord) && n.partialLen == |path| && n.Stored() == stored <= path
    modifies n`foot
    ensures n.Valid(ord) && HeaderOf(n, path) && n.foot == foot
  {
    n.foot := foot;
  }

  lemma {:induction false} ForkShape(n: ArtNode, path: seq<byte>, b: byte, tb: Tree, c: byte, tc: Tree, R: set<object>, ord: bool)
    requires n.Own() <= R && n.Valid(ord) && HeaderOf(n, path) && n.kind == Node4 && b != c
    requires n.view.Keys == {b, c} == n.foot.Keys
    requires Separate(n.foot, n.Own(), R)
    ensures Shape(n, Node(path, map[b := tb, c := tc]), R, ord)
  {
    hide Layout;
    hide HeaderOf;
    hide Separate;
    var kids := map[b := tb, c := tc];
    assert kids.Keys == {b, c};
    assert |kids| == |kids.Keys| == 2;
  }

  /** memcpy(partial, src, min(MAX_PREFIX_LEN, len)) into a new Node4's header, then two add_child4. */
  method NewFork(src: seq<byte>, len: nat, b: byte, pb: Ptr, c: byte, pc: Ptr, ghost path: seq<byte>, ghost ord: bool)
    returns (n: ArtNode)
    requires len == |path| && (if len <= MAX_PREFIX_LEN then len else MAX_PREFIX_LEN) <= |src|
    requires forall i :: 0 <= i < len && i < MAX_PREFIX_LEN ==> src[i] == path[i]
    requires b != c && pb != Null && pc != Null
    ensures fresh(n.Own()) && n.Valid(ord) && HeaderOf(n, path) && n.kind == Node4
    ensures n.view == map[b := pb, c := pc]
  {
    n := new ArtNode(Node4);
    n.partialLen := len;
    var stored := if len <= MAX_PREFIX_LEN then len else MAX_PREFIX_LEN;
    forall i | 0 <= i < stored { n.partial[i] := src[i]; }
    assert HeaderOf(n, path);
    AddPair(n, b, pb, false, ord);
    AddPair(n, c, pc, false, ord);
  }

  method ShapedFork(src: seq<byte>, len: nat, b: byte, pb: Ptr, c: byte, pc: Ptr, ghost path: seq<byte>,
                    ghost tb: Tree, ghost Rb: set<object>, ghost tc: Tree, ghost Rc: set<object>, ghost ord: bool)
    returns (n: ArtNode)
    requires len == |path| && (if len <= MAX_PREFIX_LEN then len else MAX_PREFIX_LEN) <= |src|
    requires forall i :: 0 <= i < len && i < MAX_PREFIX_LEN ==> src[i] == path[i]
    requires b != c && pb != Null && pc != Null && Rb !! Rc
    ensures fresh(n.Own()) && n.view == map[b := pb, c := pc] && n.foot == map[b := Rb, c := Rc]
    ensures Shape(n, Node(path, map[b := tb, c := tc]), n.Own() + Rb + Rc, ord)
  {
    hide Layout;
    hide Separate;
    n := NewFork(src, len, b, pb, c, pc, path, ord);
    n.foot := map[b := Rb, c := Rc];
    SeparateTwo(b, Rb, c, Rc, n.Own(), n.Own() + Rb + Rc);
    ForkShape(n, path, b, tb, c, tc, n.Own() + Rb + Rc, ord);
  }

  /** A new Node4 over two subtrees. */
  method Fork(src: seq<byte>, len: nat, b: byte, pb: Ptr, c: byte, pc: Ptr, ghost path: seq<byte>,
              ghost tb: Tree, ghost Rb: set<object>, ghost tc: Tree, ghost Rc: set<object>, ghost ord: bool)
    returns (n: ArtNode)
    requires len == |path| && (if len <= MAX_PREFIX_LEN then len else MAX_PREFIX_LEN) <= |src|
    requires forall i :: 0 <= i < len && i < MAX_PREFIX_LEN ==> src[i] == path[i]
    requires b != c && pb != Null && pc != Null && Rb !! Rc
    requires Rep(pb, tb, Rb, ord) && Rep(pc, tc, Rc, ord)
    ensures fresh(n.Own())
    ensures Rep(ToNode(n), Node(path, map[b := tb, c := tc]), n.Own() + Rb + Rc, ord)
  {
    n := ShapedFork(src, len, b, pb, c, pc, path, tb, Rb, tc, Rc, ord);
    FoldFork(n, path, b, pb, tb, Rb, c, pc, tc, Rc, n.Own() + Rb + Rc, ord);
  }

  lemma {:induction false} FoldFork(n: ArtNode, path: seq<byte>, b: byte, pb: Ptr, tb: Tree, Rb: set<object>,
                 c: byte, pc: Ptr, tc: Tree, Rc: set<object>, R: set<object>, ord: bool)
    requires Shape(n, Node(path, map[b := tb, c := tc]), R, ord)
    requires n.view == map[b := pb, c := pc] && n.foot == map[b := Rb, c := Rc]
    requires Rep(pb, tb, Rb, ord) && Rep(pc, tc, Rc, ord)
    ensures Rep(ToNode(n), Node(path, map[b := tb, c := tc]), R, ord)
  {
    hide Layout;
    hide HeaderOf;
    hide Separate;
    hide Occupancy;
    hide Reps;
    RepsTwo(b, pb, tb, Rb, c, pc, tc, Rc, ord);
    FoldNode(n, Node(path, map[b := tb, c := tc]), R, ord);
  }
}
