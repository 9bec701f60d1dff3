/**
  The four node layouts of art.c and their child operations.

  A node is an object with real key and child arrays. What matters about it is
  the map from byte to child that `find_child` sees; `add_child` and
  `remove_child` are proved to update that map across every change of layout.
 */
module ArtNodes {
  import opened Basics
  import opened RadixOrder

  const MAX_PREFIX_LEN := 10

  datatype Kind = Node4 | Node16 | Node48 | Node256

  class ArtLeaf {
    const key: Key
    var value: Address

    constructor (key: Key, value: Address)
      ensures this.key == key && this.value == value
    {
      this.key := key;
      this.value := value;
    }
  }

  /** A tagged `art_node *`: NULL, a leaf, or an inner node. */
  datatype Ptr = Null | ToLeaf(leaf: ArtLeaf) | ToNode(node: ArtNode)

  type Children = map<byte, Ptr>

  // ---------------------------------------------------------------------
  // What the arrays mean

  function Capacity(kind: Kind): nat {
    match kind case Node4 => 4 case Node16 => 16 case Node48 => 48 case Node256 => 256
  }

  function KeySlots(kind: Kind): nat {
    match kind case Node4 => 4 case Node16 => 16 case Node48 => 256 case Node256 => 0
  }

  /** Keys and children side by side agree with the map. */
  ghost predicate Agree(ks: seq<byte>, cs: seq<Ptr>, m: Children) {
    |ks| == |cs| && forall i :: 0 <= i < |ks| ==> ks[i] in m && m[ks[i]] == cs[i] && cs[i] != Null
  }

  ghost predicate Distinct(ks: seq<byte>) {
    forall i, j :: 0 <= i < j < |ks| ==> ks[i] != ks[j]
  }

  ghost predicate Cover(ks: seq<byte>, m: Children) {
    forall b :: b in m ==> b in ks
  }

  /** Node4 and Node16: live keys and children side by side, in order if `ord`. */
  ghost predicate Paired(ks: seq<byte>, cs: seq<Ptr>, m: Children, ord: bool) {
    Agree(ks, cs, m) && Distinct(ks) && Cover(ks, m) && (ord ==> Increasing(ks))
  }

  /** How many of the slots are in use. */
  ghost function Used(cs: seq<Ptr>): nat {
    if cs == [] then 0 else Used(cs[..|cs| - 1]) + if cs[|cs| - 1] == Null then 0 else 1
  }

  /** An index entry is a slot number plus one, or zero for an absent byte. */
  ghost predicate IndexAgrees(ks: seq<byte>, cs: seq<Ptr>, m: Children) {
    && |ks| == 256 && |cs| == 48
    && (forall b: byte :: b in m <==> ks[b] > 0)
    && (forall b: byte :: b in m ==> ks[b] <= 48 && m[b] == cs[ks[b] - 1] && m[b] != Null)
  }

  ghost predicate NoSlotShared(ks: seq<byte>) {
    forall b, c :: 0 <= b < c < |ks| && ks[b] == ks[c] ==> ks[b] == 0
  }

  /** Node48: the key array indexes the child array, and every used slot is named once. */
  ghost predicate Indexed(ks: seq<byte>, cs: seq<Ptr>, m: Children) {
    IndexAgrees(ks, cs, m) && NoSlotShared(ks) && Used(cs) == |m|
  }

  /** Node256: the byte is the slot. */
  ghost predicate Direct(cs: seq<Ptr>, m: Children) {
    && |cs| == 256
    && (forall b: byte :: b in m <==> cs[b] != Null)
    && (forall b: byte :: b in m ==> m[b] == cs[b])
  }

  /** A child count as `num_children` holds it: a full Node256 wraps to zero. */
  function CountByte(n: nat): nat {
    if n == 256 then 0 else n
  }

  predicate Small(kind: Kind) {
    kind.Node4? || kind.Node16?
  }

  /** The arrays of a node stand for the children `m`; `num` counts them in a byte. */
  ghost predicate Layout(kind: Kind, num: byte, ks: seq<byte>, cs: seq<Ptr>, m: Children, ord: bool) {
    && |ks| == KeySlots(kind) && |cs| == Capacity(kind)
    && (kind != Node256 ==> num == |m|)
    && (Small(kind) ==> num <= |ks| && Paired(ks[..num], cs[..num], m, ord))
    && (kind == Node48 ==> Indexed(ks, cs, m))
    && (kind == Node256 ==> num == CountByte(|m|) && Direct(cs, m))
  }

  /** The slot in which the child for byte `c` lies. */
  ghost predicate SlotOf(kind: Kind, num: byte, ks: seq<byte>, c: byte, slot: int)
    requires |ks| == KeySlots(kind)
  {
    match kind
    case Node48 => ks[c] == slot + 1
    case Node256 => slot == c
    case _ => 0 <= slot < num && slot < |ks| && ks[slot] == c
  }

  class ArtNode {
    const kind: Kind
    var num: byte
    var partialLen: nat
    const partial: array<byte>
    const keys: array<byte>
    const children: array<Ptr>
    /** The children as `find_child` sees them. */
    ghost var view: Children
    /** The objects below each child; kept by the tree. */
    ghost var foot: map<byte, set<object>>

    ghost function Own(): set<object> {
      {this, partial, keys, children}
    }

    ghost predicate Valid(ord: bool)
      reads this, partial, keys, children
    {
      && partial.Length == MAX_PREFIX_LEN && partial != keys
      && Layout(kind, num, keys[..], children[..], view, ord)
    }

    /** The bytes of the compressed path that are kept in the header. */
    ghost function Stored(): seq<byte>
      requires partial.Length == MAX_PREFIX_LEN
      reads this, partial
    {
      partial[..if partialLen <= MAX_PREFIX_LEN then partialLen else MAX_PREFIX_LEN]
    }

    /** The header has room for ten bytes. */
    lemma {:induction false} StoredTen(ord: bool)
      requires Valid(ord)
      ensures |Stored()| == if partialLen < 10 then partialLen else 10
    {
    }

    /** alloc_node: everything zero. */
    constructor (kind: Kind)
      ensures this.kind == kind && num == 0 && partialLen == 0 && view == map[] && fresh(Own())
      ensures partial.Length == MAX_PREFIX_LEN && partial != keys
      ensures keys.Length == KeySlots(kind) && children.Length == Capacity(kind)
      ensures forall i :: 0 <= i < partial.Length ==> partial[i] == 0
      ensures forall i :: 0 <= i < keys.Length ==> keys[i] == 0
      ensures forall i :: 0 <= i < children.Length ==> children[i] == Null
    {
      this.kind := kind;
      num := 0;
      partialLen := 0;
      partial := new byte[MAX_PREFIX_LEN](_ => 0);
      keys := new byte[KeySlots(kind)](_ => 0);
      children := new Ptr[Capacity(kind)](_ => Null);
      view := map[];
      foot := map[];
    }

    /** find_child, giving the child's slot instead of its address. */
    method FindChild(c: byte, ghost ord: bool) returns (slot: int)
      requires Valid(ord)
      ensures c in view <==> slot >= 0
      ensures slot >= 0 ==> SlotOf(kind, num, keys[..], c, slot)
      ensures slot >= 0 ==> slot < children.Length && children[slot] == view[c] && children[slot] != Null
    {
      if kind == Node48 {
        var index: int := keys[c];
        slot := index - 1;
      } else if kind == Node256 {
        slot := if children[c] == Null then -1 else c;
      } else {
        slot := ScanKeys(keys, num, c);
        PairedLookup(keys[..num], children[..num], view, ord, c, slot);
      }
    }

    /** A store through the `art_node **` that find_child returned. */
    method SetChild(slot: nat, c: byte, child: Ptr, ghost ord: bool)
      requires Valid(ord) && c in view && SlotOf(kind, num, keys[..], c, slot) && slot < children.Length && child != Null
      modifies this`view, children
      ensures Valid(ord) && view == old(view)[c := child]
    {
      hide SlotOf;
      ghost var cs := children[..];
      LayoutReplaced(kind, num, keys[..], cs, view, c, slot, child, ord);
      hide Layout;
      children[slot] := child;
      view := view[c := child];
      assert children[..] == cs[slot := child];
    }

    /** copy_header */
    method CopyHeader(src: ArtNode)
      requires partial.Length == MAX_PREFIX_LEN == src.partial.Length && partial != src.partial && this != src
      modifies this`num, this`partialLen, partial
      ensures num == src.num && partialLen == src.partialLen && Stored() == src.Stored()
    {
      num := src.num;
      partialLen := src.partialLen;
      var n := if partialLen <= MAX_PREFIX_LEN then partialLen else MAX_PREFIX_LEN;
      forall i | 0 <= i < n { partial[i] := src.partial[i]; }
    }

    /** Shift keys and children from `idx` on and put the new pair there. */
    method InsertPair(idx: nat, c: byte, child: Ptr, ghost ord: bool)
      requires Small(kind) && Valid(ord) && num < Capacity(kind) && idx <= num && c !in view && child != Null
      requires ord ==> Increasing(InsertedAt(keys[..num], idx, c))
      modifies this`num, this`view, keys, children
      ensures Valid(ord) && view == old(view)[c := child]
      ensures num == old(num) + 1 <= keys.Length && keys[..num] == InsertedAt(old(keys[..num]), idx, c)
    {
      hide Paired;
      hide Increasing;
      hide InsertedAt;
      hide ArtNode.Valid;
      PairsOfValid(this, ord);
      InsertPairAt(keys, children, num, idx, c, child, view, ord);
      num := num + 1;
      view := view[c := child];
      ValidOfPairs(this, ord);
    }
  }

  method InsertPairAt(keys: array<byte>, children: array<Ptr>, n: nat, idx: nat, c: byte, child: Ptr, ghost m: Children, ghost ord: bool)
    requires idx <= n < keys.Length && n < children.Length && c !in m && child != Null
    requires Paired(keys[..n], children[..n], m, ord) && (ord ==> Increasing(InsertedAt(keys[..n], idx, c)))
    modifies keys, children
    ensures Paired(keys[..n + 1], children[..n + 1], m[c := child], ord)
    ensures keys[..n + 1] == InsertedAt(old(keys[..n]), idx, c)
  {
    hide Paired;
    hide Increasing;
    hide InsertedAt;
    ghost var ks, cs := keys[..n], children[..n];
    PairInserted(ks, cs, idx, c, child, m, ord);
    InsertAt(keys, idx, n, c);
    ghost var made := keys[..n + 1];
    InsertAt(children, idx, n, child);
    assert keys[..n + 1] == made;
  }

  /** The search of a Node4 or Node16: the least of the first `n` keys that equals `c`.
      (For a Node16 that is the lowest set bit of the masked comparison.) */
  method ScanKeys(keys: array<byte>, n: nat, c: byte) returns (slot: int)
    requires n <= keys.Length
    ensures -1 <= slot < n
    ensures slot >= 0 ==> keys[slot] == c
    ensures slot < 0 <==> c !in keys[..n]
  {
    slot := 0;
    while slot < n && keys[slot] != c
      invariant 0 <= slot <= n
      invariant c !in keys[..slot]
    {
      slot := slot + 1;
    }
    if slot == n {
      slot := -1;
    }
  }

  lemma {:induction false} PairedLookup(ks: seq<byte>, cs: seq<Ptr>, m: Children, ord: bool, c: byte, slot: int)
    requires Paired(ks, cs, m, ord) && slot < |ks|
    requires if slot < 0 then c !in ks else ks[slot] == c
    ensures c in m <==> slot >= 0
    ensures slot >= 0 ==> m[c] == cs[slot] && cs[slot] != Null
  {
  }

  lemma {:induction false} PairedReplaced(ks: seq<byte>, cs: seq<Ptr>, m: Children, ord: bool, slot: nat, child: Ptr)
    requires Paired(ks, cs, m, ord) && slot < |ks| && child != Null
    ensures Paired(ks, cs[slot := child], m[ks[slot] := child], ord)
  {
  }

  lemma {:induction false} IndexedReplaced(ks: seq<byte>, cs: seq<Ptr>, m: Children, c: byte, child: Ptr)
    requires Indexed(ks, cs, m) && c in m && child != Null
    ensures Indexed(ks, cs[ks[c] - 1 := child], m[c := child])
  {
    UsedUpdate(cs, ks[c] - 1, child);
    assert m[c := child].Keys == m.Keys;
    forall b: byte | b in m && b != c ensures ks[b] != ks[c] {
      assert if b < c then ks[b] != ks[c] else ks[c] != ks[b];
    }
  }

  lemma {:induction false} ValidOfPairs(n: ArtNode, ord: bool)
    requires n.partial.Length == MAX_PREFIX_LEN && n.partial != n.keys && Small(n.kind)
    requires n.keys.Length == KeySlots(n.kind) && n.children.Length == Capacity(n.kind)
    requires n.num == |n.view| && n.num <= KeySlots(n.kind) && n.num <= Capacity(n.kind)
    requires Paired(n.keys[..n.num], n.children[..n.num], n.view, ord)
    ensures n.Valid(ord)
  {
    hide Paired;
    assert n.keys[..][..n.num] == n.keys[..n.num] && n.children[..][..n.num] == n.children[..n.num];
  }

  /** What a valid Node4 or Node16 is like. */
  lemma {:induction false} PairsOfValid(n: ArtNode, ord: bool)
    requires n.Valid(ord) && Small(n.kind)
    ensures n.partial.Length == MAX_PREFIX_LEN && n.partial != n.keys
    ensures n.keys.Length == KeySlots(n.kind) && n.children.Length == Capacity(n.kind)
    ensures n.num == |n.view| && n.num <= KeySlots(n.kind) && n.num <= Capacity(n.kind)
    ensures Paired(n.keys[..n.num], n.children[..n.num], n.view, ord)
  {
    hide Paired;
    assert n.keys[..][..n.num] == n.keys[..n.num] && n.children[..][..n.num] == n.children[..n.num];
  }

  lemma {:induction false} LayoutReplaced(kind: Kind, num: byte, ks: seq<byte>, cs: seq<Ptr>, m: Children, c: byte, slot: nat, child: Ptr, ord: bool)
    requires Layout(kind, num, ks, cs, m, ord) && c in m && SlotOf(kind, num, ks, c, slot) && slot < |cs| && child != Null
    ensures Layout(kind, num, ks, cs[slot := child], m[c := child], ord)
  {
    assert m[c := child].Keys == m.Keys;
    if kind == Node48 {
      IndexedReplaced(ks, cs, m, c, child);
    } else if Small(kind) {
      PairedReplaced(ks[..num], cs[..num], m, ord, slot, child);
      assert cs[slot := child][..num] == cs[..num][slot := child];
    }
  }

  function InsertedAt<T>(s: seq<T>, idx: nat, x: T): (r: seq<T>)
    requires idx <= |s|
  {
    s[..idx] + [x] + s[idx..]
  }

  /** memcpy of the first `n` elements. */
  method CopyTo<T>(a: array<T>, n: nat, dest: array<T>)
    requires n <= a.Length && n <= dest.Length && dest != a
    modifies dest
    ensures dest[..] == a[..n] + old(dest[n..])
  {
    forall i | 0 <= i < n { dest[i] := a[i]; }
  }

  /** memmove one place up, then store. */
  method InsertAt<T>(a: array<T>, idx: nat, n: nat, x: T)
    requires idx <= n < a.Length
    modifies a
    ensures a[..n + 1] == InsertedAt(old(a[..n]), idx, x)
  {
    ghost var was := a[..n];
    forall i | idx <= i < n { a[i + 1] := a[i]; }
    a[idx] := x;
    assert a[..idx] == was[..idx] && a[idx + 1..n + 1] == was[idx..];
    assert a[..n + 1] == a[..idx] + [x] + a[idx + 1..n + 1];
  }

  lemma {:induction false} AgreeInserted(ks: seq<byte>, cs: seq<Ptr>, idx: nat, c: byte, child: Ptr, m: Children)
    requires Agree(ks, cs, m) && idx <= |ks| && c !in m && child != Null
    ensures Agree(InsertedAt(ks, idx, c), InsertedAt(cs, idx, child), m[c := child])
  {
  }

  lemma {:induction false} DistinctInserted(ks: seq<byte>, idx: nat, c: byte)
    requires Distinct(ks) && idx <= |ks| && c !in ks
    ensures Distinct(InsertedAt(ks, idx, c))
  {
  }

  lemma {:induction false} CoverInserted(ks: seq<byte>, idx: nat, c: byte, child: Ptr, m: Children)
    requires Cover(ks, m) && idx <= |ks|
    ensures Cover(InsertedAt(ks, idx, c), m[c := child])
  {
    assert ks == ks[..idx] + ks[idx..];
  }

  lemma {:induction false} PairInserted(ks: seq<byte>, cs: seq<Ptr>, idx: nat, c: byte, child: Ptr, m: Children, ord: bool)
    requires Paired(ks, cs, m, ord) && idx <= |ks| && child != Null && c !in m
    requires ord ==> Increasing(InsertedAt(ks, idx, c))
    ensures Paired(InsertedAt(ks, idx, c), InsertedAt(cs, idx, child), m[c := child], ord)
  {
    AgreeInserted(ks, cs, idx, c, child, m);
    DistinctInserted(ks, idx, c);
    CoverInserted(ks, idx, c, child, m);
  }

  lemma {:induction false} UsedPrefix(cs: seq<Ptr>, n: nat)
    requires n <= |cs| && forall i :: 0 <= i < |cs| ==> (cs[i] != Null <==> i < n)
    ensures Used(cs) == n
    decreases |cs|
  {
    if cs != [] {
      UsedPrefix(cs[..|cs| - 1], if n == |cs| then n - 1 else n);
    }
  }

  lemma {:induction false} UsedUpdate(cs: seq<Ptr>, i: nat, x: Ptr)
    requires i < |cs|
    ensures Used(cs[i := x]) == Used(cs) + (if x == Null then 0 else 1) - (if cs[i] == Null then 0 else 1)
    decreases |cs|
  {
    var n := |cs| - 1;
    if i < n {
      assert cs[i := x][..n] == cs[..n][i := x];
      UsedUpdate(cs[..n], i, x);
    } else {
      assert cs[i := x][..n] == cs[..n];
    }
  }

  /** A slot is free unless all are used. */
  lemma {:induction false} FreeSlot(cs: seq<Ptr>)
    ensures Used(cs) <= |cs|
    ensures Used(cs) < |cs| ==> exists i :: 0 <= i < |cs| && cs[i] == Null
    decreases |cs|
  {
    if cs != [] {
      var front := cs[..|cs| - 1];
      FreeSlot(front);
      assert forall i :: 0 <= i < |front| ==> front[i] == cs[i];
    }
  }
}
