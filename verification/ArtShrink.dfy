/**
  remove_child: taking a child out of a node, and moving to the next smaller
  layout at 37, 12 and 3 children. (A Node4 that is left with one child is
  collapsed by the tree, which has to touch that child's header.)
 */
module ArtShrink {
  import opened Basics
  import opened RadixOrder
  import opened ArtNodes
  import opened ArtGrowth

  function RemovedAt<T>(s: seq<T>, pos: nat): (r: seq<T>)
    requires pos < |s|
  {
    s[..pos] + s[pos + 1..]
  }

  /** memmove one place down. */
  method RemoveAt<T>(a: array<T>, pos: nat, n: nat)
    requires pos < n <= a.Length
    modifies a
    ensures a[..n - 1] == RemovedAt(old(a[..n]), pos)
  {
    forall i | pos <= i < n - 1 { a[i] := a[i + 1]; }
    assert forall i :: 0 <= i < n - 1 ==> a[i] == RemovedAt(old(a[..n]), pos)[i];
  }

  lemma {:induction false} AgreeRemoved(ks: seq<byte>, cs: seq<Ptr>, pos: nat, m: Children)
    requires Agree(ks, cs, m) && Distinct(ks) && pos < |ks|
    ensures Agree(RemovedAt(ks, pos), RemovedAt(cs, pos), m - {ks[pos]})
  {
  }

  lemma {:induction false} CoverRemoved(ks: seq<byte>, pos: nat, m: Children)
    requires Cover(ks, m) && pos < |ks|
    ensures Cover(RemovedAt(ks, pos), m - {ks[pos]})
  {
    assert ks == ks[..pos] + [ks[pos]] + ks[pos + 1..];
  }

  lemma {:induction false} OrderRemoved(ks: seq<byte>, pos: nat)
    requires pos < |ks|
    ensures Distinct(ks) ==> Distinct(RemovedAt(ks, pos))
    ensures Increasing(ks) ==> Increasing(RemovedAt(ks, pos))
  {
  }

  lemma {:induction false} PairRemoved(ks: seq<byte>, cs: seq<Ptr>, pos: nat, m: Children, ord: bool)
    requires Paired(ks, cs, m, ord) && pos < |ks|
    ensures Paired(RemovedAt(ks, pos), RemovedAt(cs, pos), m - {ks[pos]}, ord)
  {
    AgreeRemoved(ks, cs, pos, m);
    CoverRemoved(ks, pos, m);
    OrderRemoved(ks, pos);
  }

  lemma {:induction false} OneLess(m: Children, c: byte)
    requires c in m
    ensures |m - {c}| == |m| - 1
  {
    assert (m - {c}).Keys == m.Keys - {c};
  }

  method RemovePairAt(keys: array<byte>, children: array<Ptr>, n: nat, pos: nat, ghost m: Children, ghost ord: bool)
    requires pos < n <= keys.Length && n <= children.Length
    requires Paired(keys[..n], children[..n], m, ord)
    modifies keys, children
    ensures Paired(keys[..n - 1], children[..n - 1], m - {old(keys[pos])}, ord)
  {
    PairRemoved(keys[..n], children[..n], pos, m, ord);
    RemoveAt(keys, pos, n);
    RemoveAt(children, pos, n);
  }

  /** The common part of remove_child4 and remove_child16. */
  method RemovePair(n: ArtNode, c: byte, slot: int, ghost ord: bool)
    requires n.Valid(ord) && Small(n.kind) && c in n.view && SlotOf(n.kind, n.num, n.keys[..], c, slot)
    modifies n`num, n`view, n.keys, n.children
    ensures n.Valid(ord) && n.view == old(n.view) - {c}
  {
    hide Paired;
    hide ArtNode.Valid;
    PairsOfValid(n, ord);
    OneLess(n.view, c);
    assert 0 <= slot < n.num && n.keys[slot] == c;
    hide SlotOf;
    RemovePairAt(n.keys, n.children, n.num, slot, n.view, ord);
    n.num := n.num - 1;
    n.view := n.view - {c};
    ValidOfPairs(n, ord);
  }

  /** Node16 to Node4. */
  method Shrink16(n: ArtNode, ghost ord: bool) returns (r: ArtNode)
    requires n.Valid(ord) && n.kind.Node16? && n.num <= 4
    ensures r.Valid(ord) && r.kind.Node4? && r.view == n.view && fresh(r.Own())
    ensures r.partialLen == n.partialLen && r.Stored() == n.Stored()
  {
    r := Replacement(n, Node4);
    CopyTo(n.keys, 4, r.keys);
    CopyTo(n.children, 4, r.children);
    r.view := n.view;
    assert r.keys[..r.num] == n.keys[..n.num] && r.children[..r.num] == n.children[..n.num];
  }

  /** The children for the given bytes, in that order. */
  ghost function ChildrenFor(m: Children, bs: seq<byte>): (cs: seq<Ptr>) {
    seq(|bs|, i requires 0 <= i < |bs| => if bs[i] in m then m[bs[i]] else Null)
  }

  lemma {:induction false} AscendingPaired(m: Children)
    requires forall b :: b in m ==> m[b] != Null
    ensures var ks := Ascending(m.Keys, 256);
            Increasing(ks) && Paired(ks, ChildrenFor(m, ks), m, true) && |ks| == |m|
  {
    AscendingCount(m.Keys, 256);
    AscendingSorted(m.Keys, 256);
    var ks := Ascending(m.Keys, 256);
    assert forall i :: 0 <= i < |ks| ==> ks[i] in ks;
  }

  lemma {:induction false} AscendingStep(m: Children, i: nat)
    requires i < 256
    ensures |Ascending(m.Keys, i)| <= |m|
    ensures i in m ==> |Ascending(m.Keys, i)| < |m|
    ensures i in m ==> ChildrenFor(m, Ascending(m.Keys, i) + [i]) == ChildrenFor(m, Ascending(m.Keys, i)) + [m[i]]
  {
    AscendingCount(m.Keys, 256);
    AscendingPrefix(m.Keys, i, 256);
    AscendingPrefix(m.Keys, i + 1, 256);
  }

  lemma {:induction false} AscendingPrefix(d: set<byte>, i: nat, n: nat)
    requires i <= n
    ensures |Ascending(d, i)| <= |Ascending(d, n)|
    decreases n
  {
    if i < n { AscendingPrefix(d, i, n - 1); }
  }

  /** Collect the children of a Node48 in byte order. */
  method CollectPairs(index: array<byte>, slots: array<Ptr>, ghost m: Children, keys: array<byte>, children: array<Ptr>)
    requires IndexAgrees(index[..], slots[..], m) && |m| <= keys.Length && |m| <= children.Length
    requires keys != index && children != slots
    modifies keys, children
    ensures keys[..|m|] == Ascending(m.Keys, 256)
    ensures children[..|m|] == ChildrenFor(m, Ascending(m.Keys, 256))
  {
    ghost var ks, cs := index[..], slots[..];
    var child := 0;
    for i := 0 to 256
      invariant index[..] == ks && slots[..] == cs && IndexAgrees(ks, cs, m)
      invariant child == |Ascending(m.Keys, i)| <= |m|
      invariant keys[..child] == Ascending(m.Keys, i)
      invariant children[..child] == ChildrenFor(m, Ascending(m.Keys, i))
    {
      AscendingStep(m, i);
      assert index[i] == ks[i];
      if index[i] != 0 {
        assert m[i] == cs[ks[i] - 1];
        keys[child] := i;
        children[child] := slots[index[i] - 1];
        child := child + 1;
      }
    }
    AscendingCount(m.Keys, 256);
  }

  /** Node48 to Node16. */
  method Shrink48(n: ArtNode, ghost ord: bool) returns (r: ArtNode)
    requires n.Valid(ord) && n.kind.Node48? && n.num <= 16
    ensures r.Valid(ord) && r.kind.Node16? && r.view == n.view && fresh(r.Own())
    ensures r.partialLen == n.partialLen && r.Stored() == n.Stored()
  {
    r := Replacement(n, Node16);
    CollectPairs(n.keys, n.children, n.view, r.keys, r.children);
    r.view := n.view;
    AscendingPaired(n.view);
  }

  /** The children for bytes below `i` are numbered in byte order, the rest is empty. */
  ghost predicate Numbered(m: Children, i: nat, index: seq<byte>, slots: seq<Ptr>) {
    var ks := Ascending(m.Keys, i);
    && |slots| == 48 && |ks| <= 48 && IndexOfKeys(ks, index)
    && slots[..|ks|] == ChildrenFor(m, ks)
    && forall j :: |ks| <= j < 48 ==> slots[j] == Null
  }

  lemma {:induction false} NumberNext(m: Children, i: nat, index: seq<byte>, slots: seq<Ptr>)
    requires i < 256 && i in m && |m| <= 48 && Numbered(m, i, index, slots)
    ensures var n := |Ascending(m.Keys, i)|;
            n < 48 && Numbered(m, i + 1, index[i := n + 1], slots[n := m[i]])
  {
    var ks := Ascending(m.Keys, i);
    AscendingStep(m, i);
    AscendingSorted(m.Keys, i);
    IndexOneMore(ks, index, i);
    assert Ascending(m.Keys, i + 1) == ks + [i];
    hide IndexOfKeys;
    hide Ascending;
    hide Increasing;
    hide Lists;
    SlotFilled(slots, ChildrenFor(m, ks), m[i]);
  }

  lemma {:induction false} SlotFilled(slots: seq<Ptr>, cs: seq<Ptr>, p: Ptr)
    requires |cs| < |slots| && slots[..|cs|] == cs
    ensures slots[|cs| := p][..|cs| + 1] == cs + [p]
  {
  }

  /** Number the children of a Node256 in byte order. */
  method CollectIndex(children: array<Ptr>, ghost m: Children, index: array<byte>, slots: array<Ptr>)
    requires Direct(children[..], m) && |m| <= 48 && index.Length == 256 && slots.Length == 48 && slots != children
    requires forall b :: 0 <= b < 256 ==> index[b] == 0
    requires forall i :: 0 <= i < 48 ==> slots[i] == Null
    modifies index, slots
    ensures Indexed(index[..], slots[..], m)
  {
    ghost var cs := children[..];
    var pos := 0;
    for i := 0 to 256
      invariant children[..] == cs
      invariant pos == |Ascending(m.Keys, i)|
      invariant Numbered(m, i, index[..], slots[..])
    {
      assert children[i] == cs[i];
      if children[i] != Null {
        NumberNext(m, i, index[..], slots[..]);
        ghost var ix, sl := index[..], slots[..];
        slots[pos] := children[i];
        index[i] := pos + 1;
        assert index[..] == ix[i := pos + 1] && slots[..] == sl[pos := m[i]];
        pos := pos + 1;
      }
    }
    NumberedIndexed(m, index[..], slots[..]);
  }

  lemma {:induction false} NumberedIndexed(m: Children, index: seq<byte>, slots: seq<Ptr>)
    requires Numbered(m, 256, index, slots) && forall b :: b in m ==> m[b] != Null
    ensures Indexed(index, slots, m)
  {
    AscendingPaired(m);
    var ks := Ascending(m.Keys, 256);
    PairsIndexed(ks, slots[..|ks|], index, slots, m);
  }

  lemma {:induction false} IndexOneMore(ks: seq<byte>, index: seq<byte>, b: byte)
    requires IndexOfKeys(ks, index) && b !in ks && |ks| < 48
    ensures IndexOfKeys(ks + [b], index[b := |ks| + 1])
  {
    assert forall j :: 0 <= j < |ks| ==> ks[j] != b;
  }

  /** Node256 to Node48. */
  method Shrink256(n: ArtNode, ghost ord: bool) returns (r: ArtNode)
    requires n.Valid(ord) && n.kind.Node256? && |n.view| <= 48
    ensures r.Valid(ord) && r.kind.Node48? && r.view == n.view && fresh(r.Own())
    ensures r.partialLen == n.partialLen && r.Stored() == n.Stored()
  {
    r := Replacement(n, Node48);
    CollectIndex(n.children, n.view, r.keys, r.children);
    r.view := n.view;
  }

  /** remove_child256, before the test for 37 children. */
  method ClearDirect(n: ArtNode, c: byte, ghost ord: bool)
    requires n.Valid(ord) && n.kind.Node256? && c in n.view
    modifies n`num, n`view, n.children
    ensures n.Valid(ord) && n.view == old(n.view) - {c}
  {
    OneLess(n.view, c);
    AtMost256(n.view.Keys);
    n.children[c] := Null;
    n.num := if n.num == 0 then 255 else n.num - 1;
    n.view := n.view - {c};
  }

  lemma {:induction false} IndexAgreesRemoved(ks: seq<byte>, cs: seq<Ptr>, m: Children, c: byte)
    requires IndexAgrees(ks, cs, m) && NoSlotShared(ks) && c in m
    ensures IndexAgrees(ks[c := 0], cs[ks[c] - 1 := Null], m - {c})
  {
    forall b: byte | b in m && b != c ensures ks[b] != ks[c] {
      assert if b < c then ks[b] != ks[c] else ks[c] != ks[b];
    }
  }

  lemma {:induction false} IndexedRemoved(ks: seq<byte>, cs: seq<Ptr>, m: Children, c: byte)
    requires Indexed(ks, cs, m) && c in m
    ensures Indexed(ks[c := 0], cs[ks[c] - 1 := Null], m - {c})
  {
    IndexAgreesRemoved(ks, cs, m, c);
    UsedUpdate(cs, ks[c] - 1, Null);
    OneLess(m, c);
  }

  /** remove_child48, before the test for 12 children. */
  method ClearSlot(n: ArtNode, c: byte, ghost ord: bool)
    requires n.Valid(ord) && n.kind.Node48? && c in n.view
    modifies n`num, n`view, n.keys, n.children
    ensures n.Valid(ord) && n.view == old(n.view) - {c}
  {
    ghost var ks, cs := n.keys[..], n.children[..];
    IndexedRemoved(ks, cs, n.view, c);
    OneLess(n.view, c);
    var pos := n.keys[c];
    n.keys[c] := 0;
    n.children[pos - 1] := Null;
    n.num := n.num - 1;
    n.view := n.view - {c};
    assert n.keys[..] == ks[c := 0] && n.children[..] == cs[ks[c] - 1 := Null];
  }

  /** The layout of a node after a removal left it with `count` children. */
  function ShrunkKind(kind: Kind, count: nat): Kind {
    match kind
    case Node4 => Node4
    case Node16 => if count == 3 then Node4 else Node16
    case Node48 => if count == 12 then Node16 else Node48
    case Node256 => if count == 37 then Node48 else Node256
  }

  /** remove_child without the collapse of a Node4; the result is what `*ref` points to. */
  method RemoveChild(n: ArtNode, c: byte, slot: int, ghost ord: bool) returns (r: ArtNode)
    requires n.Valid(ord) && c in n.view && SlotOf(n.kind, n.num, n.keys[..], c, slot)
    modifies n`num, n`view, n.keys, n.children
    ensures r.Valid(ord) && r.view == old(n.view) - {c} && r.kind == ShrunkKind(n.kind, |r.view|)
    ensures r.kind ==
      if n.kind.Node16? && |r.view| == 3 then Node4
      else if n.kind.Node48? && |r.view| == 12 then Node16
      else if n.kind.Node256? && |r.view| == 37 then Node48 else n.kind
    ensures r.partialLen == n.partialLen && r.Stored() == n.Stored() && (r == n || fresh(r.Own()))
  {
    r := n;
    match n.kind {
      case Node4 =>
        RemovePair(n, c, slot, ord);
      case Node16 =>
        RemovePair(n, c, slot, ord);
        if n.num == 3 { r := Shrink16(n, ord); }
      case Node48 =>
        ClearSlot(n, c, ord);
        if n.num == 12 { r := Shrink48(n, ord); }
      case Node256 =>
        ClearDirect(n, c, ord);
        AtMost256(n.view.Keys);
        if n.num == 37 { r := Shrink256(n, ord); }
    }
  }
}
