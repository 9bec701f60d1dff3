/**
  add_child: putting a child into a node, and moving to the next larger layout
  when the node is full.
 */
module ArtGrowth {
  import opened Basics
  import opened RadixOrder
  import opened ArtNodes

  /** A byte as `_mm_cmplt_epi8` reads it. */
  function Signed(b: byte): int {
    if b < 128 then b else b - 256
  }

  /** The comparison of add_child16: signed in the SSE branch, unsigned in the portable one. */
  predicate Less(sse: bool, a: byte, b: byte) {
    if sse then Signed(a) < Signed(b) else a < b
  }

  /** Whether a Node16 stays in unsigned order when `c` joins the bytes of `m`. */
  ghost predicate OrderSafe(ord: bool, sse: bool, c: byte, m: Children) {
    ord && sse ==> c < 128 && forall b :: b in m ==> b < 128
  }

  /** Index of the first of `n` keys that is greater than `c`, or `n`. */
  method FirstGreater(keys: array<byte>, n: nat, c: byte, sse: bool) returns (idx: nat)
    requires n <= keys.Length
    ensures idx <= n && (forall i :: 0 <= i < idx ==> !Less(sse, c, keys[i]))
    ensures idx < n ==> Less(sse, c, keys[idx])
  {
    idx := 0;
    while idx < n && !Less(sse, c, keys[idx])
      invariant idx <= n && forall i :: 0 <= i < idx ==> !Less(sse, c, keys[i])
    {
      idx := idx + 1;
    }
  }

  method AddPair(n: ArtNode, c: byte, child: Ptr, sse: bool, ghost ord: bool)
    requires n.Valid(ord) && Small(n.kind) && n.num < Capacity(n.kind)
    requires c !in n.view && child != Null && OrderSafe(ord, sse, c, n.view)
    modifies n`num, n`view, n.keys, n.children
    ensures n.Valid(ord) && n.view == old(n.view)[c := child]
    // The keys stay in the order of the comparison, signed or unsigned, if they were in it.
    ensures n.num == old(n.num) + 1 <= n.keys.Length
    ensures if sse then SignedOrder(old(n.keys[..n.num])) ==> SignedOrder(n.keys[..n.num])
            else Increasing(old(n.keys[..n.num])) ==> Increasing(n.keys[..n.num])
  {
    var idx := FirstGreater(n.keys, n.num, c, sse);
    ghost var ks := n.keys[..n.num];
    assert c !in ks && forall i :: 0 <= i < n.num ==> ks[i] == n.keys[i];
    if ord {
      OrderKept(ks, n.children[..n.num], n.view, idx, c, sse);
    }
    ComparedOrder(ks, idx, c, sse);
    hide SignedOrder;
    hide Layout;
    hide Increasing;
    hide OrderSafe;
    n.InsertPair(idx, c, child, ord);
  }

  /** Signed bytes in increasing order: 128 to 255 come before 0 to 127. */
  ghost predicate SignedOrder(ks: seq<byte>) {
    forall i, j :: 0 <= i < j < |ks| ==> Rotated(ks[i]) < Rotated(ks[j])
  }

  function Rotated(b: int): int {
    (b + 128) % 256
  }

  lemma {:induction false} ComparedOrder(ks: seq<byte>, idx: nat, c: byte, sse: bool)
    requires c !in ks && idx <= |ks|
    requires (forall i :: 0 <= i < idx ==> !Less(sse, c, ks[i])) && (idx < |ks| ==> Less(sse, c, ks[idx]))
    ensures if sse then SignedOrder(ks) ==> SignedOrder(InsertedAt(ks, idx, c))
            else Increasing(ks) ==> Increasing(InsertedAt(ks, idx, c))
  {
    if sse && SignedOrder(ks) { SignedInserted(ks, idx, c); }
    if !sse && Increasing(ks) { IncreasingInserted(ks, idx, c); }
  }

  lemma {:induction false} SignedInserted(ks: seq<byte>, idx: nat, c: byte)
    requires SignedOrder(ks) && c !in ks && idx <= |ks|
    requires (forall i :: 0 <= i < idx ==> Signed(c) >= Signed(ks[i])) && (idx < |ks| ==> Signed(c) < Signed(ks[idx]))
    ensures SignedOrder(InsertedAt(ks, idx, c))
  {
    assert forall b: byte :: Rotated(b) == Signed(b) + 128;
  }

  /** The place the comparison finds is the place in byte order. */
  lemma {:induction false} OrderKept(ks: seq<byte>, cs: seq<Ptr>, m: Children, idx: nat, c: byte, sse: bool)
    requires Paired(ks, cs, m, true) && c !in m && OrderSafe(true, sse, c, m) && idx <= |ks|
    requires (forall i :: 0 <= i < idx ==> !Less(sse, c, ks[i])) && (idx < |ks| ==> Less(sse, c, ks[idx]))
    ensures Increasing(InsertedAt(ks, idx, c))
  {
    assert forall i :: 0 <= i < |ks| ==> ks[i] in m;
    IncreasingInserted(ks, idx, c);
  }

  lemma {:induction false} IncreasingInserted(ks: seq<byte>, idx: nat, c: byte)
    requires Increasing(ks) && idx <= |ks|
    requires forall i :: 0 <= i < idx ==> ks[i] < c
    requires idx < |ks| ==> c < ks[idx]
    ensures Increasing(InsertedAt(ks, idx, c))
  {
  }

  /** A new node of the given kind that takes over the header of `n`. */
  method Replacement(n: ArtNode, kind: Kind) returns (r: ArtNode)
    requires n.partial.Length == MAX_PREFIX_LEN
    ensures fresh(r.Own()) && r.kind == kind && r.num == n.num && r.partialLen == n.partialLen
    ensures r.partial.Length == MAX_PREFIX_LEN && r.partial != r.keys && r.Stored() == n.Stored()
    ensures r.keys.Length == KeySlots(kind) && r.children.Length == Capacity(kind)
    ensures forall i :: 0 <= i < r.keys.Length ==> r.keys[i] == 0
    ensures forall i :: 0 <= i < r.children.Length ==> r.children[i] == Null
  {
    r := new ArtNode(kind);
    r.CopyHeader(n);
  }

  /** Node4 to Node16: keys and children are copied side by side. */
  method Grow4(n: ArtNode, ghost ord: bool) returns (r: ArtNode)
    requires n.Valid(ord) && n.kind.Node4?
    ensures r.Valid(ord) && r.kind.Node16? && r.view == n.view && fresh(r.Own())
    ensures r.partialLen == n.partialLen && r.Stored() == n.Stored()
  {
    r := Replacement(n, Node16);
    CopyTo(n.children, n.num, r.children);
    CopyTo(n.keys, n.num, r.keys);
    r.view := n.view;
    assert r.keys[..r.num] == n.keys[..n.num] && r.children[..r.num] == n.children[..n.num];
  }

  /** `index` names the places of the bytes of `ks`, counted from one. */
  ghost predicate IndexOfKeys(ks: seq<byte>, index: seq<byte>) {
    && |index| == 256
    && (forall j :: 0 <= j < |ks| ==> index[ks[j]] == j + 1)
    && (forall b :: 0 <= b < 256 && index[b] > 0 ==> index[b] <= |ks| && ks[index[b] - 1] == b)
  }

  /** Fill the index of a Node48 from the keys of a Node16. */
  method IndexKeys(keys: array<byte>, n: nat, index: array<byte>)
    requires n <= keys.Length && n <= 48 && index.Length == 256 && index != keys && Distinct(keys[..n])
    requires forall b :: 0 <= b < 256 ==> index[b] == 0
    modifies index
    ensures IndexOfKeys(keys[..n], index[..])
  {
    ghost var ks := keys[..n];
    for i := 0 to n
      invariant keys[..n] == ks
      invariant IndexOfKeys(ks[..i], index[..])
    {
      assert forall j :: 0 <= j < i ==> ks[j] != ks[i];
      index[keys[i]] := i + 1;
      assert ks[..i + 1] == ks[..i] + [ks[i]];
    }
    assert ks[..n] == ks;
  }

  method BuildIndex(keys: array<byte>, children: array<Ptr>, n: nat, ghost m: Children,
                    index: array<byte>, slots: array<Ptr>)
    requires n <= keys.Length && n <= children.Length && n == |m| <= 48
    requires Agree(keys[..n], children[..n], m) && Distinct(keys[..n]) && Cover(keys[..n], m)
    requires index.Length == 256 && slots.Length == 48 && index != keys && slots != children
    requires forall b :: 0 <= b < 256 ==> index[b] == 0
    requires forall i :: 0 <= i < 48 ==> slots[i] == Null
    modifies index, slots
    ensures Indexed(index[..], slots[..], m)
  {
    hide Agree;
    hide Distinct;
    hide Cover;
    hide Indexed;
    hide IndexOfKeys;
    ghost var ks, cs, rest := keys[..n], children[..n], slots[n..];
    CopyTo(children, n, slots);
    assert slots[..] == cs + rest;
    IndexKeys(keys, n, index);
    PairsIndexed(ks, cs, index[..], slots[..], m);
  }

  /** Node16 to Node48: the key array becomes an index. */
  method Grow16(n: ArtNode, ghost ord: bool) returns (r: ArtNode)
    requires n.Valid(ord) && n.kind.Node16?
    ensures r.Valid(ord) && r.kind.Node48? && r.num == n.num && r.view == n.view && fresh(r.Own())
    ensures r.partialLen == n.partialLen && r.Stored() == n.Stored()
  {
    r := Replacement(n, Node48);
    BuildIndex(n.keys, n.children, n.num, n.view, r.keys, r.children);
    r.view := n.view;
  }

  lemma {:induction false} PairsIndexed(ks: seq<byte>, cs: seq<Ptr>, ks': seq<byte>, cs': seq<Ptr>, m: Children)
    requires |ks| <= 48 && Agree(ks, cs, m) && Cover(ks, m) && |ks| == |m| && |cs'| == 48
    requires IndexOfKeys(ks, ks')
    requires cs <= cs' && forall i :: |cs| <= i < 48 ==> cs'[i] == Null
    ensures Indexed(ks', cs', m)
  {
    assert forall i {:trigger cs'[i]} :: 0 <= i < |ks| ==> cs'[i] == cs[i];
    forall b: byte | b in m ensures ks'[b] > 0 {
      var j :| 0 <= j < |ks| && ks[j] == b;
    }
    UsedPrefix(cs', |ks|);
  }

  /** `cs'` has at each byte the child that the index of a Node48 names for it. */
  ghost predicate UnfoldingOf(ks: seq<byte>, cs: seq<Ptr>, cs': seq<Ptr>) {
    && |ks| == 256 == |cs'|
    && forall b :: 0 <= b < 256 ==> if 0 < ks[b] <= |cs| then cs'[b] == cs[ks[b] - 1] else cs'[b] == Null
  }

  method Unfold(keys: array<byte>, children: array<Ptr>, dest: array<Ptr>)
    requires keys.Length == 256 == dest.Length && dest != children
    requires forall b :: 0 <= b < 256 ==> keys[b] <= children.Length
    requires forall b :: 0 <= b < 256 ==> dest[b] == Null
    modifies dest
    ensures UnfoldingOf(keys[..], children[..], dest[..])
  {
    forall i | 0 <= i < 256 && keys[i] != 0 { dest[i] := children[keys[i] - 1]; }
  }

  lemma {:induction false} IndexedDirect(ks: seq<byte>, cs: seq<Ptr>, cs': seq<Ptr>, m: Children)
    requires IndexAgrees(ks, cs, m) && UnfoldingOf(ks, cs, cs')
    ensures Direct(cs', m)
  {
  }

  /** Node48 to Node256. */
  method Grow48(n: ArtNode, ghost ord: bool) returns (r: ArtNode)
    requires n.Valid(ord) && n.kind.Node48?
    ensures r.Valid(ord) && r.kind.Node256? && r.view == n.view && fresh(r.Own())
    ensures r.partialLen == n.partialLen && r.Stored() == n.Stored()
  {
    ghost var ks, cs, m := n.keys[..], n.children[..], n.view;
    assert IndexAgrees(ks, cs, m) && |m| == n.num;
    assert forall b :: 0 <= b < 256 ==> n.keys[b] == ks[b] <= 48;
    hide IndexAgrees;
    hide UnfoldingOf;
    hide Direct;
    r := Replacement(n, Node256);
    Unfold(n.keys, n.children, r.children);
    IndexedDirect(ks, cs, r.children[..], m);
    r.view := m;
  }

  lemma {:induction false} RoomForOne(m: Children, c: byte, child: Ptr)
    requires c !in m
    ensures |m| < 256 && |m[c := child]| == |m| + 1
  {
    assert m[c := child].Keys == m.Keys + {c};
    AtMost256(m.Keys + {c});
  }

  method AddChild256(n: ArtNode, c: byte, child: Ptr, ghost ord: bool)
    requires n.Valid(ord) && n.kind.Node256? && c !in n.view && child != Null
    modifies n`num, n`view, n.children
    ensures n.Valid(ord) && n.view == old(n.view)[c := child]
  {
    RoomForOne(n.view, c, child);
    n.num := (n.num + 1) % 256;
    n.children[c] := child;
    n.view := n.view[c := child];
  }

  method FillSlot(n: ArtNode, c: byte, child: Ptr, ghost ord: bool)
    requires n.Valid(ord) && n.kind.Node48? && n.num < 48 && c !in n.view && child != Null
    modifies n`num, n`view, n.keys, n.children
    ensures n.Valid(ord) && n.view == old(n.view)[c := child]
  {
    assert n.num == |n.view| && Indexed(n.keys[..], n.children[..], n.view);
    var pos := FirstFree(n.children);
    IndexedAdded(n.keys[..], n.children[..], n.view, c, pos, child);
    OneMore(n.view, c, child);
    ghost var ks, cs := n.keys[..], n.children[..];
    hide Indexed;
    n.children[pos] := child;
    n.keys[c] := pos + 1;
    n.num := n.num + 1;
    n.view := n.view[c := child];
    assert n.children[..] == cs[pos := child] && n.keys[..] == ks[c := pos + 1];
  }

  lemma {:induction false} OneMore(m: Children, c: byte, child: Ptr)
    requires c !in m
    ensures |m[c := child]| == |m| + 1
  {
    assert m[c := child].Keys == m.Keys + {c};
  }

  /** The first free slot of a Node48. */
  method FirstFree(children: array<Ptr>) returns (pos: nat)
    requires children.Length == 48 && Used(children[..]) < 48
    ensures pos < 48 && children[pos] == Null && forall i :: 0 <= i < pos ==> children[i] != Null
  {
    hide Used;
    FreeSlot(children[..]);
    pos := 0;
    while children[pos] != Null
      invariant 0 <= pos < 48
      invariant forall i :: 0 <= i < pos ==> children[i] != Null
      decreases 48 - pos
    {
      pos := pos + 1;
    }
  }

  lemma {:induction false} IndexAgreesAdded(ks: seq<byte>, cs: seq<Ptr>, m: Children, c: byte, pos: nat, child: Ptr)
    requires IndexAgrees(ks, cs, m) && pos < 48 && cs[pos] == Null && child != Null
    ensures IndexAgrees(ks[c := pos + 1], cs[pos := child], m[c := child])
  {
  }

  lemma {:induction false} NoSlotSharedAdded(ks: seq<byte>, cs: seq<Ptr>, m: Children, c: byte, pos: nat)
    requires IndexAgrees(ks, cs, m) && NoSlotShared(ks) && pos < 48 && cs[pos] == Null
    ensures NoSlotShared(ks[c := pos + 1])
  {
    forall b: byte ensures ks[b] != pos + 1 {
      assert b in m ==> m[b] != Null;
    }
  }

  lemma {:induction false} IndexedAdded(ks: seq<byte>, cs: seq<Ptr>, m: Children, c: byte, pos: nat, child: Ptr)
    requires Indexed(ks, cs, m) && c !in m && pos < 48 && cs[pos] == Null && child != Null
    ensures Indexed(ks[c := pos + 1], cs[pos := child], m[c := child])
  {
    IndexAgreesAdded(ks, cs, m, c, pos, child);
    NoSlotSharedAdded(ks, cs, m, c, pos);
    UsedUpdate(cs, pos, child);
    assert m[c := child].Keys == m.Keys + {c};
  }

  /** The layout of a node after a child was added to `count` others. */
  function GrownKind(kind: Kind, count: nat): Kind {
    if count < Capacity(kind) then kind else
    match kind case Node4 => Node16 case Node16 => Node48 case Node48 => Node256 case Node256 => Node256
  }

  /** add_child48 */
  method AddChild48(n: ArtNode, c: byte, child: Ptr, ghost ord: bool) returns (r: ArtNode)
    requires n.Valid(ord) && n.kind.Node48? && c !in n.view && child != Null
    modifies n`num, n`view, n.keys, n.children
    ensures r.Valid(ord) && r.view == old(n.view)[c := child] && r.kind == GrownKind(n.kind, |old(n.view)|)
    ensures r.partialLen == n.partialLen && r.Stored() == n.Stored() && (r == n || fresh(r.Own()))
  {
    if n.num < 48 {
      FillSlot(n, c, child, ord);
      r := n;
    } else {
      r := Grow48(n, ord);
      AddChild256(r, c, child, ord);
    }
  }

  /** add_child16 */
  method AddChild16(n: ArtNode, c: byte, child: Ptr, sse: bool, ghost ord: bool) returns (r: ArtNode)
    requires n.Valid(ord) && n.kind.Node16? && c !in n.view && child != Null && OrderSafe(ord, sse, c, n.view)
    modifies n`num, n`view, n.keys, n.children
    ensures r.Valid(ord) && r.view == old(n.view)[c := child] && r.kind == GrownKind(n.kind, |old(n.view)|)
    ensures r.partialLen == n.partialLen && r.Stored() == n.Stored() && (r == n || fresh(r.Own()))
    ensures old(n.num) < 16 ==> r == n && n.num == old(n.num) + 1 <= n.keys.Length
    ensures old(n.num) < 16 && sse && SignedOrder(old(n.keys[..n.num])) ==> SignedOrder(n.keys[..n.num])
    ensures old(n.num) < 16 && !sse && Increasing(old(n.keys[..n.num])) ==> Increasing(n.keys[..n.num])
  {
    assert n.num == |n.view| && n.num <= 16;
    hide ArtNode.Valid;
    hide OrderSafe;
    hide SignedOrder;
    hide Increasing;
    if n.num < 16 {
      AddPair(n, c, child, sse, ord);
      r := n;
    } else {
      r := GrowAndFill(n, c, child, ord);
    }
  }

  /** A full Node16 and one more child. */
  method GrowAndFill(n: ArtNode, c: byte, child: Ptr, ghost ord: bool) returns (r: ArtNode)
    requires n.Valid(ord) && n.kind.Node16? && c !in n.view && child != Null && n.num == 16
    ensures r.Valid(ord) && r.view == n.view[c := child] && r.kind.Node48? && fresh(r.Own())
    ensures r.partialLen == n.partialLen && r.Stored() == n.Stored()
  {
    hide ArtNode.Valid;
    r := Grow16(n, ord);
    FillSlot(r, c, child, ord);
  }

  /** add_child4 */
  method AddChild4(n: ArtNode, c: byte, child: Ptr, sse: bool, ghost ord: bool) returns (r: ArtNode)
    requires n.Valid(ord) && n.kind.Node4? && c !in n.view && child != Null && OrderSafe(ord, sse, c, n.view)
    modifies n`num, n`view, n.keys, n.children
    ensures r.Valid(ord) && r.view == old(n.view)[c := child] && r.kind == GrownKind(n.kind, |old(n.view)|)
    ensures r.partialLen == n.partialLen && r.Stored() == n.Stored() && (r == n || fresh(r.Own()))
  {
    assert n.num == |n.view| && n.num <= 4;
    assert OrderSafe(ord, false, c, n.view);
    hide ArtNode.Valid;
    hide OrderSafe;
    if n.num < 4 {
      AddPair(n, c, child, false, ord);
      r := n;
    } else {
      r := Grow4(n, ord);
      AddPair(r, c, child, sse, ord);
    }
  }

  /** add_child: the result is what `*ref` points to afterwards. A full Node4, Node16 or Node48 gives
      way to the next larger layout. */
  method AddChild(n: ArtNode, c: byte, child: Ptr, sse: bool, ghost ord: bool) returns (r: ArtNode)
    requires n.Valid(ord) && c !in n.view && child != Null && OrderSafe(ord, sse, c, n.view)
    modifies n`num, n`view, n.keys, n.children
    ensures r.Valid(ord) && r.view == old(n.view)[c := child] && r.kind == GrownKind(n.kind, |old(n.view)|)
    ensures r.kind ==
      if n.kind.Node4? && |old(n.view)| >= 4 then Node16
      else if n.kind.Node16? && |old(n.view)| >= 16 then Node48
      else if n.kind.Node48? && |old(n.view)| >= 48 then Node256 else n.kind
    ensures r.partialLen == n.partialLen && r.Stored() == n.Stored() && (r == n || fresh(r.Own()))
  {
    hide ArtNode.Valid;
    hide OrderSafe;
    match n.kind {
      case Node4 => r := AddChild4(n, c, child, sse, ord);
      case Node16 => r := AddChild16(n, c, child, sse, ord);
      case Node48 => r := AddChild48(n, c, child, ord);
      case Node256 => AddChild256(n, c, child, ord); r := n;
    }
  }
}
