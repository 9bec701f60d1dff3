/**
  The read-only walks over the heap: minimum and maximum leaf, prefix
  comparison, lookup.
 */
module ArtSearch {
  import opened Basics
  import opened RadixTree
  import opened RadixOrder
  import opened ArtNodes
  import opened ArtHeap

  /** The child of the least byte in a Node48. */
  method FirstIndexed(keys: array<byte>, children: array<Ptr>, ghost m: Children) returns (slot: nat, ghost b: byte)
    requires Indexed(keys[..], children[..], m) && m != map[]
    ensures slot < children.Length && b in m && children[slot] == m[b] && forall c :: c in m ==> b <= c
  {
    IndexFacts(keys[..], children[..], m);
    hide Indexed;
    ghost var w :| w in m;
    var i := 0;
    while keys[i] == 0
      invariant 0 <= i <= w && forall c :: 0 <= c < i ==> keys[..][c] == 0
      decreases 256 - i
    {
      i := i + 1;
    }
    assert keys[..][i] == keys[i];
    slot, b := keys[i] - 1, i;
  }

  /** The child of the greatest byte. */
  method LastIndexed(keys: array<byte>, children: array<Ptr>, ghost m: Children) returns (slot: nat, ghost b: byte)
    requires Indexed(keys[..], children[..], m) && m != map[]
    ensures slot < children.Length && b in m && children[slot] == m[b] && forall c :: c in m ==> c <= b
  {
    IndexFacts(keys[..], children[..], m);
    hide Indexed;
    ghost var w :| w in m;
    var i := 255;
    while keys[i] == 0
      invariant w <= i <= 255 && forall c :: i < c < 256 ==> keys[..][c] == 0
      decreases i
    {
      i := i - 1;
    }
    assert keys[..][i] == keys[i];
    slot, b := keys[i] - 1, i;
  }

  /** The child of the least byte in a Node256. */
  method FirstDirect(children: array<Ptr>, ghost m: Children) returns (slot: nat, ghost b: byte)
    requires Direct(children[..], m) && m != map[]
    ensures slot < children.Length && b in m && children[slot] == m[b] && forall c :: c in m ==> b <= c
  {
    ghost var w :| w in m;
    slot := 0;
    while children[slot] == Null
      invariant 0 <= slot <= w && forall c :: 0 <= c < slot ==> children[..][c] == Null
      decreases 256 - slot
    {
      slot := slot + 1;
    }
    assert children[..][slot] == children[slot];
    b := slot;
  }

  /** The child of the greatest byte. */
  method LastDirect(children: array<Ptr>, ghost m: Children) returns (slot: nat, ghost b: byte)
    requires Direct(children[..], m) && m != map[]
    ensures slot < children.Length && b in m && children[slot] == m[b] && forall c :: c in m ==> c <= b
  {
    ghost var w :| w in m;
    slot := 255;
    while children[slot] == Null
      invariant w <= slot <= 255 && forall c :: slot < c < 256 ==> children[..][c] == Null
      decreases slot
    {
      slot := slot - 1;
    }
    assert children[..][slot] == children[slot];
    b := slot;
  }

  /** The first child in array order. */
  method FirstChild(n: ArtNode, ghost ord: bool) returns (slot: nat, ghost b: byte)
    requires n.Valid(ord) && |n.view| > 0
    ensures slot < n.children.Length && b in n.view && n.children[slot] == n.view[b]
    ensures ord ==> forall c :: c in n.view ==> b <= c
  {
    hide Indexed;
    hide Direct;
    hide Paired;
    if n.kind == Node48 {
      slot, b := FirstIndexed(n.keys, n.children, n.view);
    } else if n.kind == Node256 {
      slot, b := FirstDirect(n.children, n.view);
    } else {
      PairsOfValid(n, ord);
      slot, b := 0, n.keys[0];
      PairedEnds(n.keys[..n.num], n.children[..n.num], n.view, ord);
    }
  }

  /** The last child in array order. */
  method LastChild(n: ArtNode, ghost ord: bool) returns (slot: nat, ghost b: byte)
    requires n.Valid(ord) && |n.view| > 0
    ensures slot < n.children.Length && b in n.view && n.children[slot] == n.view[b]
    ensures ord ==> forall c :: c in n.view ==> c <= b
  {
    hide Indexed;
    hide Direct;
    hide Paired;
    if n.kind == Node48 {
      slot, b := LastIndexed(n.keys, n.children, n.view);
    } else if n.kind == Node256 {
      slot, b := LastDirect(n.children, n.view);
    } else {
      PairsOfValid(n, ord);
      slot, b := n.num - 1, n.keys[n.num - 1];
      PairedEnds(n.keys[..n.num], n.children[..n.num], n.view, ord);
    }
  }

  /** The index of a Node48, read byte by byte. */
  lemma {:induction false} IndexFacts(ks: seq<byte>, cs: seq<Ptr>, m: Children)
    requires Indexed(ks, cs, m)
    ensures |ks| == 256 && |cs| == 48 && (forall b: byte :: b in m <==> ks[b] != 0)
    ensures forall b: byte :: b in m ==> ks[b] - 1 < 48 && cs[ks[b] - 1] == m[b]
  {
  }

  lemma {:induction false} PairedEnds(ks: seq<byte>, cs: seq<Ptr>, m: Children, ord: bool)
    requires Paired(ks, cs, m, ord) && |ks| > 0
    ensures ks[0] in m && m[ks[0]] == cs[0] && ks[|ks| - 1] in m && m[ks[|ks| - 1]] == cs[|ks| - 1]
    ensures ord ==> forall b :: b in m ==> ks[0] <= b <= ks[|ks| - 1]
  {
  }

  lemma {:induction false} ChildOfNode(n: ArtNode, t: Tree, R: set<object>, b: byte, ord: bool)
    requires Rep(ToNode(n), t, R, ord) && t.Node? && n in R && b in n.view
    ensures b in t.kids && b in n.foot && n.foot[b] <= R && Rep(n.view[b], t.kids[b], n.foot[b], ord)
  {
    UnfoldNode(n, t, R, ord);
  }

  lemma {:induction false} EntryOfChild(t: Tree, b: byte, e: Entry)
    requires t.Node? && b in t.kids && e in Entries(t.kids[b])
    ensures e in Entries(t)
  {
  }

  /** minimum: a leaf below `p`; the least one if the nodes are in order. */
  method Minimum(p: Ptr, ghost t: Tree, ghost pre: seq<byte>, ghost R: set<object>, ghost ord: bool) returns (l: ArtLeaf)
    requires Rep(p, t, R, ord) && WellFormed(t, pre) && p != Null
    ensures l in R && (l.key, l.value) in Entries(t)
    ensures ord ==> IsFirst(t, (l.key, l.value))
    decreases t
  {
    match p
    case ToLeaf(leaf) => l := leaf;
    case ToNode(n) =>
      UnfoldNode(n, t, R, ord);
      var slot, b := FirstChild(n, ord);
      ChildOfNode(n, t, R, b, ord);
      l := Minimum(n.children[slot], t.kids[b], pre + t.path + [b], n.foot[b], ord);
      EntryOfChild(t, b, (l.key, l.value));
      if ord { FirstItem(t, b, (l.key, l.value)); }
  }

  /** maximum, likewise. */
  method Maximum(p: Ptr, ghost t: Tree, ghost pre: seq<byte>, ghost R: set<object>, ghost ord: bool) returns (l: ArtLeaf)
    requires Rep(p, t, R, ord) && WellFormed(t, pre) && p != Null
    ensures l in R && (l.key, l.value) in Entries(t)
    ensures ord ==> IsLast(t, (l.key, l.value))
    decreases t
  {
    match p
    case ToLeaf(leaf) => l := leaf;
    case ToNode(n) =>
      UnfoldNode(n, t, R, ord);
      var slot, b := LastChild(n, ord);
      ChildOfNode(n, t, R, b, ord);
      l := Maximum(n.children[slot], t.kids[b], pre + t.path + [b], n.foot[b], ord);
      EntryOfChild(t, b, (l.key, l.value));
      if ord { LastItem(t, b, (l.key, l.value)); }
  }

  // ---------------------------------------------------------------------
  // Comparing a key with a compressed path

  /** The comparison loop shared by check_prefix, prefix_mismatch and
      longest_common_prefix: from `start`, but not beyond `max`. */
  method Compare(s: seq<byte>, rest: seq<byte>, start: nat, max: int) returns (idx: nat)
    requires max <= |s| && max <= |rest|
    ensures start <= idx && (idx <= max || idx == start)
    ensures forall i :: start <= i < idx ==> s[i] == rest[i]
    ensures idx < max ==> s[idx] != rest[idx]
  {
    idx := start;
    while idx < max && s[idx] == rest[idx]
      invariant start <= idx && (idx <= max || idx == start)
      invariant forall i :: start <= i < idx ==> s[i] == rest[i]
    {
      idx := idx + 1;
    }
  }

  lemma {:induction false} PrefixByAgreement(s: seq<byte>, rest: seq<byte>)
    ensures Agreement(s, rest) == |s| <==> s <= rest
  {
    if s <= rest { AgreementUnique(s, rest, |s|); }
  }

  /** check_prefix: only the stored bytes are compared. */
  method CheckPrefix(n: ArtNode, k: Key, depth: nat) returns (idx: nat)
    requires n.partial.Length == MAX_PREFIX_LEN
    ensures idx <= |n.Stored()|
    ensures idx == |n.Stored()| <==> n.Stored() <= Tail(k, depth)
  {
    var rest := Tail(k, depth);
    var max := Min(Min(n.partialLen, MAX_PREFIX_LEN), |k| - depth);
    idx := Compare(n.partial[..], rest, 0, max);
    AgreementUnique(n.Stored(), rest, idx);
    PrefixByAgreement(n.Stored(), rest);
  }

  /** Comparing the stored bytes and then, from where that ended, a leaf that shares
      the whole path gives the agreement with the path. */
  lemma {:induction false} MismatchMeaning(path: seq<byte>, leaf: seq<byte>, rest: seq<byte>, mid: nat, idx: nat)
    requires path <= leaf && mid <= |path| && mid <= |rest| && path[..mid] == rest[..mid]
    requires mid <= idx && idx <= |rest| && idx <= |leaf| && leaf[mid..idx] == rest[mid..idx]
    requires idx < |path| && idx < |rest| ==> leaf[idx] != rest[idx]
    ensures Agreement(path, rest) == Min(idx, |path|)
  {
    var m := Min(idx, |path|);
    forall i | 0 <= i < m ensures path[i] == rest[i] {
      if i < mid { assert path[..mid][i] == rest[..mid][i]; }
      else { assert leaf[mid..idx][i - mid] == rest[mid..idx][i - mid]; }
    }
    AgreementUnique(path, rest, m);
  }

  /** The first loop of prefix_mismatch: the bytes kept in the header. */
  method MatchStored(n: ArtNode, k: Key, depth: nat, ghost path: seq<byte>) returns (idx: nat)
    requires HeaderOf(n, path)
    ensures idx <= |path| && idx <= |Tail(k, depth)| && path[..idx] == Tail(k, depth)[..idx]
    ensures idx < |path| && idx < |Tail(k, depth)| && path[idx] == Tail(k, depth)[idx] ==> idx == MAX_PREFIX_LEN
    ensures idx <= MAX_PREFIX_LEN
  {
    var rest := Tail(k, depth);
    StoredBytes(n, path);
    idx := Compare(n.partial[..], rest, 0, Min(Min(MAX_PREFIX_LEN, n.partialLen), |k| - depth));
  }

  /** The second loop: a leaf that shares the whole path. */
  method MatchLeaf(key: Key, k: Key, depth: nat, start: nat, ghost path: seq<byte>) returns (idx: nat)
    requires depth <= |key| && path <= key[depth..] && start <= |path| && start <= |Tail(k, depth)|
    requires path[..start] == Tail(k, depth)[..start]
    ensures Agreement(path, Tail(k, depth)) == Min(idx, |path|)
  {
    var leaf, rest := key[depth..], Tail(k, depth);
    idx := Compare(leaf, rest, start, Min(|key|, |k|) - depth);
    MismatchMeaning(path, leaf, rest, start, idx);
  }

  /** prefix_mismatch: beyond the stored bytes the comparison goes on with the minimum
      leaf. Capped at the path's length, the result is how far key and path agree. */
  method PrefixMismatch(n: ArtNode, k: Key, depth: nat,
                        ghost t: Tree, ghost pre: seq<byte>, ghost R: set<object>, ghost ord: bool) returns (idx: nat)
    requires Rep(ToNode(n), t, R, ord) && WellFormed(t, pre) && depth == |pre|
    ensures t.Node? && Agreement(t.path, Tail(k, depth)) == Min(idx, |t.path|)
  {
    NodeHeader(n, t, R, ord);
    idx := MatchStored(n, k, depth, t.path);
    if idx == Min(MAX_PREFIX_LEN, |k| - depth) && n.partialLen > MAX_PREFIX_LEN {
      var l := Minimum(ToNode(n), t, pre, R, ord);
      EntryFollowsPath(t, pre, (l.key, l.value));
      idx := MatchLeaf(l.key, k, depth, idx, t.path);
    } else {
      AgreementUnique(t.path, Tail(k, depth), idx);
    }
  }

  lemma {:induction false} NodeHeader(n: ArtNode, t: Tree, R: set<object>, ord: bool)
    requires Rep(ToNode(n), t, R, ord)
    ensures n in R && n.partial in R && t.Node? && HeaderOf(n, t.path)
  {
    UnfoldNode(n, t, R, ord);
  }

  lemma {:induction false} StoredBytes(n: ArtNode, path: seq<byte>)
    requires HeaderOf(n, path)
    ensures forall i {:trigger n.partial[..][i]} :: 0 <= i < MAX_PREFIX_LEN && i < |path| ==> n.partial[..][i] == path[i]
  {
    forall i {:trigger n.partial[..][i]} | 0 <= i < MAX_PREFIX_LEN && i < |path| ensures n.partial[..][i] == path[i] {
      assert n.Stored()[i] == path[i];
    }
  }

  lemma {:induction false} EntryFollowsPath(t: Tree, pre: seq<byte>, e: Entry)
    requires t.Node? && WellFormed(t, pre) && e in Entries(t)
    ensures |pre| + |t.path| <= |e.0| && t.path <= e.0[|pre|..] && e.0[|pre|..|pre| + |t.path|] == t.path
  {
    var b :| b in t.kids && e in Entries(t.kids[b]);
    EntryBelowChild(t, pre, e, b);
    assert e.0[|pre|..|pre| + |t.path|] == Terminated(e.0)[|pre|..|pre| + |t.path|];
  }

  // ---------------------------------------------------------------------
  // Lookup

  /** A stored key matches the stored prefix and lies below the child its next byte names. */
  lemma {:induction false} SearchStep(t: Tree, pre: seq<byte>, k: Key, b: byte, v: Address)
    requires t.Node? && WellFormed(t, pre)
    requires |pre| + |t.path| <= |k| ==> b == Terminated(k)[|pre| + |t.path|]
    ensures (k, v) in Entries(t) <==> b in t.kids && (k, v) in Entries(t.kids[b])
  {
    if (k, v) in Entries(t) {
      var c :| c in t.kids && (k, v) in Entries(t.kids[c]);
      EntryBelowChild(t, pre, (k, v), c);
    }
  }

  lemma {:induction false} PrefixNecessary(n: ArtNode, t: Tree, pre: seq<byte>, k: Key, v: Address)
    requires t.Node? && WellFormed(t, pre) && HeaderOf(n, t.path) && (k, v) in Entries(t)
    ensures n.Stored() <= Tail(k, |pre|)
  {
    EntryFollowsPath(t, pre, (k, v));
  }

  /** find_child in a represented node. */
  method FindKid(n: ArtNode, c: byte, ghost t: Tree, ghost R: set<object>, ghost ord: bool) returns (p: Ptr, slot: int)
    requires Rep(ToNode(n), t, R, ord)
    ensures n in R && t.Node? && (c in t.kids <==> p != Null) && (p == Null <==> slot < 0)
    ensures p != Null ==> c in n.foot && n.foot[c] <= R && Rep(p, t.kids[c], n.foot[c], ord)
    ensures slot >= 0 ==> n.keys in R && n.keys.Length == KeySlots(n.kind) && SlotOf(n.kind, n.num, n.keys[..], c, slot)
    ensures slot >= 0 ==> n.children in R && slot < n.children.Length && c in n.view && n.children[slot] == n.view[c] == p
  {
    UnfoldNode(n, t, R, ord);
    slot := n.FindChild(c, ord);
    p := Null;
    if slot >= 0 {
      p := n.children[slot];
    }
  }

  /** One step of art_search below an inner node: the child to go on with, or NULL. */
  method Descend(n: ArtNode, k: Key, past: nat -> byte, depth: nat,
                 ghost t: Tree, ghost pre: seq<byte>, ghost R: set<object>, ghost ord: bool)
    returns (p: Ptr, next: nat, b: byte, slot: int)
    requires Rep(ToNode(n), t, R, ord) && WellFormed(t, pre) && depth == |pre|
    ensures n in R && t.Node? && next == depth + |t.path| + 1
    ensures p != Null ==> slot >= 0 && n.keys in R && n.keys.Length == KeySlots(n.kind)
    ensures p != Null ==> SlotOf(n.kind, n.num, n.keys[..], b, slot) && n.children in R && slot < n.children.Length
    ensures p == Null ==> forall v :: (k, v) !in Entries(t)
    ensures p != Null ==> b in t.kids && b in n.foot && n.foot[b] <= R && Rep(p, t.kids[b], n.foot[b], ord)
    ensures p != Null ==> forall v :: (k, v) in Entries(t) <==> (k, v) in Entries(t.kids[b])
    // It does not go below a node whose stored bytes the key does not go on with.
    ensures p != Null ==> n.partial.Length == MAX_PREFIX_LEN && n.Stored() <= Tail(k, depth)
  {
    hide WellFormed;
    hide Rep;
    hide NodeRep;
    NodeHeader(n, t, R, ord);
    next := depth + n.partialLen + 1;
    p, b, slot := Null, 0, -1;
    if n.partialLen > 0 {
      var matched := CheckPrefix(n, k, depth);
      if matched != Min(MAX_PREFIX_LEN, n.partialLen) {
        forall v | (k, v) in Entries(t) ensures false { PrefixNecessary(n, t, pre, k, v); }
        return;
      }
    }
    b := ReadKey(k, past, depth + n.partialLen);
    forall v: Address ensures (k, v) in Entries(t) <==> b in t.kids && (k, v) in Entries(t.kids[b]) {
      SearchStep(t, pre, k, b, v);
    }
    p, slot := FindKid(n, b, t, R, ord);
  }

  /** art_search: the stored value, or NULL, whatever lies behind the key's terminator. */
  method Search(root: Ptr, k: Key, past: nat -> byte, ghost t: Tree, ghost R: set<object>, ghost ord: bool)
    returns (value: Address)
    requires Rep(root, t, R, ord) && WellFormed(t, [])
    ensures forall v :: (k, v) in Entries(t) ==> value == v
    ensures !Stored(t, k) ==> value == NULL
  {
    hide NodeRep;
    hide WellFormed;
    hide SlotOf;
    var p, depth := root, 0;
    ghost var u, pre, S := t, [], R;
    while p != Null
      invariant Rep(p, u, S, ord) && WellFormed(u, pre) && depth == |pre|
      invariant forall v :: (k, v) in Entries(t) <==> (k, v) in Entries(u)
      decreases u
    {
      match p {
        case ToLeaf(l) =>
          value := if l.key == k then l.value else NULL;
          assert (l.key, l.value) in Entries(u);
          return;
        case ToNode(n) =>
          var b, slot;
          p, depth, b, slot := Descend(n, k, past, depth, u, pre, S, ord);
          if p != Null {
            ChildWellFormed(u, pre, b);
            u, pre, S := u.kids[b], pre + u.path + [b], n.foot[b];
          } else {
            break;
          }
      }
    }
    value := NULL;
  }
}
