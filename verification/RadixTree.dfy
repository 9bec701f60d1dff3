/**
  The ideal radix tree that the adaptive radix tree of art.c stands for.

  Every inner node keeps its whole compressed path and a map from the next byte
  to a child; node layouts, child arrays and the ten-byte prefix buffer are the
  business of ArtNode and ArtTree, which are proved to refine this tree.
 */
module RadixTree {
  import opened Basics

  datatype Tree =
    | Empty
    | Leaf(key: Key, value: Address)
    | Node(path: seq<byte>, kids: map<byte, Tree>)

  /** The key as it lies in memory, with its terminator. */
  function Terminated(k: Key): (z: seq<byte>) {
    k + [0]
  }

  /** What is left of the key after `d` bytes; nothing once `d` has passed its end. */
  function Tail(k: Key, d: nat): (s: seq<byte>) {
    if d <= |k| then k[d..] else []
  }

  /** The byte `key[i]` of a C string: the terminator at its end, and whatever
      `past` holds behind that. */
  function ReadKey(k: Key, past: nat -> byte, i: nat): (b: byte)
    ensures i <= |k| ==> b == Terminated(k)[i]
  {
    if i < |k| then k[i] else if i == |k| then 0 else past(i)
  }

  /** Every stored key below `t` continues the bytes `pre` that lead to `t`. */
  ghost predicate WellFormed(t: Tree, pre: seq<byte>)
    decreases t
  {
    match t
    case Empty => true
    case Leaf(key, _) => pre <= Terminated(key)
    case Node(path, kids) =>
      && |kids| >= 2
      && forall b :: b in kids ==> !kids[b].Empty? && WellFormed(kids[b], pre + path + [b])
  }

  type Entry = (Key, Address)

  /** Everything stored below `t`. */
  ghost function Entries(t: Tree): set<Entry> {
    match t
    case Empty => {}
    case Leaf(key, value) => {(key, value)}
    case Node(_, kids) => set b, e | b in kids && e in Entries(kids[b]) :: e
  }

  ghost predicate Stored(t: Tree, k: Key) {
    exists v :: (k, v) in Entries(t)
  }

  // ---------------------------------------------------------------------
  // Keys and prefixes

  lemma {:induction false} KeysContinuePrefix(t: Tree, pre: seq<byte>, e: Entry)
    requires WellFormed(t, pre) && e in Entries(t)
    ensures pre <= Terminated(e.0)
    decreases t
  {
    match t
    case Leaf(_, _) =>
    case Node(path, kids) =>
      var b :| b in kids && e in Entries(kids[b]);
      KeysContinuePrefix(kids[b], pre + path + [b], e);
      assert pre <= pre + path + [b];
  }

  lemma {:induction false} ChildWellFormed(t: Tree, pre: seq<byte>, b: byte)
    requires t.Node? && WellFormed(t, pre) && b in t.kids
    ensures WellFormed(t.kids[b], pre + t.path + [b])
  {
  }

  /** An entry lies below exactly the child that the next byte of its key names. */
  lemma {:induction false} EntryBelowChild(t: Tree, pre: seq<byte>, e: Entry, b: byte)
    requires t.Node? && WellFormed(t, pre) && b in t.kids && e in Entries(t.kids[b])
    ensures var z, d := Terminated(e.0), |pre| + |t.path|;
            d < |z| && pre <= z && z[|pre|..d] == t.path && z[d] == b
  {
    var z := Terminated(e.0);
    KeysContinuePrefix(t.kids[b], pre + t.path + [b], e);
    var whole := pre + t.path + [b];
    assert z[..|whole|] == whole;
    assert z[|pre|..|pre| + |t.path|] == whole[|pre|..|pre| + |t.path|] == t.path;
    assert whole[|pre| + |t.path|] == b;
    assert pre <= whole;
  }

  /** No key is stored twice. */
  lemma {:induction false} OneValuePerKey(t: Tree, pre: seq<byte>, e: Entry, f: Entry)
    requires WellFormed(t, pre) && e in Entries(t) && f in Entries(t) && e.0 == f.0
    ensures e == f
    decreases t
  {
    match t
    case Leaf(_, _) =>
    case Node(path, kids) =>
      var b :| b in kids && e in Entries(kids[b]);
      var c :| c in kids && f in Entries(kids[c]);
      EntryBelowChild(t, pre, e, b);
      EntryBelowChild(t, pre, f, c);
      OneValuePerKey(kids[b], pre + path + [b], e, f);
  }

  ghost function EntriesOf(m: map<Key, Address>): (s: set<Entry>)
    ensures forall e: Entry :: e in s <==> e.0 in m && m[e.0] == e.1
  {
    set k | k in m :: (k, m[k])
  }

  /** The plain map a whole tree stands for. */
  ghost function Contents(t: Tree): (m: map<Key, Address>)
    requires WellFormed(t, [])
    ensures EntriesOf(m) == Entries(t)
  {
    forall e, f | e in Entries(t) && f in Entries(t) && e.0 == f.0 ensures e == f {
      OneValuePerKey(t, [], e, f);
    }
    map e | e in Entries(t) :: e.0 := e.1
  }

  lemma {:induction false} SomeEntry(t: Tree, pre: seq<byte>) returns (e: Entry)
    requires WellFormed(t, pre) && !t.Empty?
    ensures e in Entries(t)
    decreases t
  {
    match t
    case Leaf(key, value) => e := (key, value);
    case Node(path, kids) =>
      var b :| b in kids;
      e := SomeEntry(kids[b], pre + path + [b]);
  }

  /** The bytes that lead to an inner node, its own path included, hold no
      terminator: two different keys continue them. */
  lemma {:induction false} PathHasNoZero(t: Tree, pre: seq<byte>)
    requires t.Node? && WellFormed(t, pre)
    ensures forall i :: 0 <= i < |pre + t.path| ==> (pre + t.path)[i] != 0
  {
    var b :| b in t.kids;
    var e := SomeEntry(t.kids[b], pre + t.path + [b]);
    KeysContinuePrefix(t.kids[b], pre + t.path + [b], e);
    var whole := pre + t.path + [b];
    forall i | 0 <= i < |pre + t.path| ensures (pre + t.path)[i] != 0 {
      assert whole[i] == Terminated(e.0)[i];
    }
  }

  // ---------------------------------------------------------------------
  // Insertion

  /** Length of the longest common prefix. */
  function Agreement(a: seq<byte>, b: seq<byte>): (n: nat)
    ensures n <= |a| && n <= |b| && a[..n] == b[..n]
    ensures n < |a| && n < |b| ==> a[n] != b[n]
  {
    if a == [] || b == [] || a[0] != b[0] then 0
    else
      var n := Agreement(a[1..], b[1..]);
      assert a[..1 + n] == [a[0]] + a[1..][..n] && b[..1 + n] == [b[0]] + b[1..][..n];
      1 + n
  }

  lemma {:induction false} AgreementUnique(a: seq<byte>, b: seq<byte>, n: nat)
    requires n <= |a| && n <= |b| && a[..n] == b[..n]
    requires n == |a| || n == |b| || a[n] != b[n]
    ensures Agreement(a, b) == n
  {
    hide Agreement;
    var m := Agreement(a, b);
    assert forall i :: 0 <= i < n ==> a[i] == a[..n][i] == b[..n][i] == b[i];
    assert forall i :: 0 <= i < m ==> a[i] == a[..m][i] == b[..m][i] == b[i];
  }

  /** A terminated key is a prefix of another only if the two are the same key. */
  lemma {:induction false} TerminatedPrefixFree(k: Key, l: Key)
    requires Terminated(k) <= Terminated(l)
    ensures k == l
  {
    assert Terminated(l)[|k|] == 0;
    assert k == Terminated(k)[..|k|] == Terminated(l)[..|l|] == l;
  }

  /** Two different terminated keys differ at a byte both of them have. */
  lemma {:induction false} DistinctKeysDiverge(k: Key, l: Key, d: nat)
    requires k != l && d <= |Terminated(k)| && d <= |Terminated(l)|
    requires Terminated(k)[..d] == Terminated(l)[..d]
    ensures var n := Agreement(Terminated(k)[d..], Terminated(l)[d..]);
            && d + n < |Terminated(k)| && d + n < |Terminated(l)|
            && Terminated(k)[d + n] != Terminated(l)[d + n]
            && Terminated(k)[..d + n] == Terminated(l)[..d + n]
  {
    hide Agreement;
    var x, y := Terminated(k), Terminated(l);
    var n := Agreement(x[d..], y[d..]);
    assert x[..d + n] == x[..d] + x[d..][..n];
    assert y[..d + n] == y[..d] + y[d..][..n];
    assert !(x <= y) && !(y <= x) by {
      if x <= y { TerminatedPrefixFree(k, l); }
      if y <= x { TerminatedPrefixFree(l, k); }
    }
  }

  /** A key that reaches an inner node leaves the compressed path, or comes out at
      its end, at a byte it has. */
  lemma {:induction false} PathDivergence(t: Tree, pre: seq<byte>, k: Key)
    requires t.Node? && WellFormed(t, pre) && pre <= Terminated(k)
    ensures var n := Agreement(t.path, Terminated(k)[|pre|..]);
            && |pre| + n < |Terminated(k)|
            && pre + t.path[..n] == Terminated(k)[..|pre| + n]
            && (n < |t.path| ==> t.path[n] != Terminated(k)[|pre| + n])
  {
    hide WellFormed;
    hide Agreement;
    var z := Terminated(k);
    var n := Agreement(t.path, z[|pre|..]);
    PathHasNoZero(t, pre);
    AgreedBytes(z, pre, t.path, n);
    assert z[|k|] == 0;
  }

  lemma {:induction false} AgreedBytes(z: seq<byte>, pre: seq<byte>, path: seq<byte>, n: nat)
    requires pre <= z && n <= |path| && n <= |z| - |pre| && path[..n] == z[|pre|..][..n]
    ensures pre + path[..n] == z[..|pre| + n]
    ensures forall i :: 0 <= i < |pre| + n ==> z[i] == (pre + path)[i]
  {
    var head := z[..|pre| + n];
    assert head == z[..|pre|] + z[|pre|..][..n];
    forall i | 0 <= i < |pre| + n ensures z[i] == (pre + path)[i] {
      assert z[i] == head[i];
    }
  }

  /** Replace the value, split a leaf, split a compressed path, descend or add a child. */
  ghost function Insert(t: Tree, pre: seq<byte>, k: Key, v: Address): (r: Tree)
    requires WellFormed(t, pre) && pre <= Terminated(k)
    decreases t
  {
    var z, d := Terminated(k), |pre|;
    match t
    case Empty => Leaf(k, v)
    case Leaf(key, _) =>
      if key == k then Leaf(k, v) else
      var y := Terminated(key);
      DistinctKeysDiverge(key, k, d);
      var n := Agreement(y[d..], z[d..]);
      Node(z[d..d + n], map[y[d + n] := t, z[d + n] := Leaf(k, v)])
    case Node(path, kids) =>
      PathDivergence(t, pre, k);
      var n := Agreement(path, z[d..]);
      var b := z[d + n];
      if n < |path| then
        Node(path[..n], map[path[n] := Node(path[n + 1..], kids), b := Leaf(k, v)])
      else if b !in kids then
        Node(path, kids[b := Leaf(k, v)])
      else
        assert pre + path + [b] == z[..d + n + 1];
        Node(path, kids[b := Insert(kids[b], pre + path + [b], k, v)])
  }

  /** The entries after a store: those of other keys, and the new one. */
  ghost function Updated(s: set<Entry>, k: Key, v: Address): set<Entry> {
    (set e | e in s && e.0 != k) + {(k, v)}
  }

  lemma {:induction false} EntriesWithoutChild(path: seq<byte>, kids: map<byte, Tree>, b: byte)
    requires b in kids
    ensures Entries(Node(path, kids)) == Entries(Node(path, kids - {b})) + Entries(kids[b])
  {
    var all, rest := Node(path, kids), Node(path, kids - {b});
    forall e | e in Entries(all) ensures e in Entries(rest) + Entries(kids[b]) {
      var c :| c in kids && e in Entries(kids[c]);
      if c != b { assert rest.kids[c] == kids[c]; }
    }
    forall e | e in Entries(rest) ensures e in Entries(all) {
      var c :| c in rest.kids && e in Entries(rest.kids[c]);
      assert kids[c] == rest.kids[c];
    }
  }

  /** Entries of a node whose child for `b` is put in or replaced. */
  lemma {:induction false} EntriesWithChild(path: seq<byte>, kids: map<byte, Tree>, b: byte, t: Tree)
    ensures Entries(Node(path, kids[b := t])) == Entries(Node(path, kids - {b})) + Entries(t)
  {
    EntriesWithoutChild(path, kids[b := t], b);
    assert kids[b := t] - {b} == kids - {b};
  }

  lemma {:induction false} EntriesOfTwo(path: seq<byte>, b: byte, t: Tree, c: byte, u: Tree)
    requires b != c
    ensures Entries(Node(path, map[b := t, c := u])) == Entries(t) + Entries(u)
  {
    var kids := map[b := t, c := u];
    EntriesWithoutChild(path, kids, b);
    EntriesWithoutChild(path, kids - {b}, c);
    assert kids - {b} - {c} == map[];
  }

  lemma {:induction false} InsertWellFormed(t: Tree, pre: seq<byte>, k: Key, v: Address)
    requires WellFormed(t, pre) && pre <= Terminated(k)
    ensures WellFormed(Insert(t, pre, k, v), pre) && !Insert(t, pre, k, v).Empty?
    decreases t, 1
  {
    hide Agreement;
    match t
    case Empty =>
    case Leaf(key, _) =>
      if key != k { SplitLeafCorrect(t, pre, k, v); }
    case Node(_, _) =>
      InsertNodeWellFormed(t, pre, k, v);
  }

  lemma {:induction false} InsertNodeWellFormed(t: Tree, pre: seq<byte>, k: Key, v: Address)
    requires t.Node? && WellFormed(t, pre) && pre <= Terminated(k)
    ensures WellFormed(Insert(t, pre, k, v), pre) && !Insert(t, pre, k, v).Empty?
    decreases t, 0
  {
    hide Agreement;
    PathDivergence(t, pre, k);
    var n := Agreement(t.path, Terminated(k)[|pre|..]);
    var b := Terminated(k)[|pre| + n];
    var here := pre + t.path + [b];
    if b in t.kids { ChildWellFormed(t, pre, b); }
    hide WellFormed;
    if n < |t.path| {
      SplitPathWellFormed(t, pre, k, v, n, b);
    } else {
      assert here == Terminated(k)[..|pre| + n + 1];
      var grown := if b in t.kids then Insert(t.kids[b], here, k, v) else Leaf(k, v);
      assert Insert(t, pre, k, v) == Node(t.path, t.kids[b := grown]);
      hide Insert;
      if b in t.kids { InsertWellFormed(t.kids[b], here, k, v); } else { LeafWellFormed(here, k, v); }
      WellFormedWithChild(t, pre, b, grown);
    }
  }

  lemma {:induction false} LeafWellFormed(pre: seq<byte>, k: Key, v: Address)
    requires pre <= Terminated(k)
    ensures WellFormed(Leaf(k, v), pre)
  {
  }

  /** Insertion acts as a map update. */
  lemma {:induction false} InsertEntries(t: Tree, pre: seq<byte>, k: Key, v: Address)
    requires WellFormed(t, pre) && pre <= Terminated(k)
    ensures Entries(Insert(t, pre, k, v)) == Updated(Entries(t), k, v)
    decreases t
  {
    hide Agreement;
    match t
    case Empty =>
    case Leaf(key, _) =>
      if key != k { SplitLeafCorrect(t, pre, k, v); }
    case Node(path, kids) =>
      PathDivergence(t, pre, k);
      var n := Agreement(path, Terminated(k)[|pre|..]);
      var b := Terminated(k)[|pre| + n];
      if n < |path| {
        SplitPathEntries(t, pre, k, v, n, b);
      } else {
        var here := pre + path + [b];
        assert here == Terminated(k)[..|pre| + n + 1];
        if b in kids {
          InsertEntries(kids[b], here, k, v);
          ReplaceChildCorrect(t, pre, k, v, b, Insert(kids[b], here, k, v));
        } else {
          ReplaceChildCorrect(t, pre, k, v, b, Leaf(k, v));
        }
      }
  }

  lemma {:induction false} UpdatedElsewhere(a: set<Entry>, b: set<Entry>, k: Key, v: Address)
    requires forall e :: e in a ==> e.0 != k
    ensures Updated(a + b, k, v) == a + Updated(b, k, v)
  {
  }

  /** Keys that differ at the byte after the path are not stored below the same child. */
  lemma {:induction false} OtherChildrenOtherKeys(t: Tree, pre: seq<byte>, k: Key, b: byte)
    requires t.Node? && WellFormed(t, pre) && |pre| + |t.path| <= |k|
    requires b == Terminated(k)[|pre| + |t.path|]
    ensures forall e :: e in Entries(Node(t.path, t.kids - {b})) ==> e.0 != k
  {
    var rest := Node(t.path, t.kids - {b});
    forall e | e in Entries(rest) ensures e.0 != k {
      var c :| c in rest.kids && e in Entries(rest.kids[c]);
      assert rest.kids[c] == t.kids[c];
      EntryBelowChild(t, pre, e, c);
    }
  }

  lemma {:induction false} WellFormedWithChild(t: Tree, pre: seq<byte>, b: byte, grown: Tree)
    requires t.Node? && WellFormed(t, pre) && WellFormed(grown, pre + t.path + [b]) && !grown.Empty?
    ensures WellFormed(Node(t.path, t.kids[b := grown]), pre)
  {
    assert t.kids[b := grown].Keys == t.kids.Keys + {b};
    assert |t.kids.Keys + {b}| >= |t.kids.Keys|;
  }

  lemma {:induction false} ReplaceChildCorrect(t: Tree, pre: seq<byte>, k: Key, v: Address, b: byte, grown: Tree)
    requires t.Node? && WellFormed(t, pre) && |pre| + |t.path| <= |k|
    requires b == Terminated(k)[|pre| + |t.path|]
    requires Entries(grown) == Updated(if b in t.kids then Entries(t.kids[b]) else {}, k, v)
    ensures Entries(Node(t.path, t.kids[b := grown])) == Updated(Entries(t), k, v)
  {
    hide WellFormed;
    EntriesWithChild(t.path, t.kids, b, grown);
    OtherChildrenOtherKeys(t, pre, k, b);
    var rest := Entries(Node(t.path, t.kids - {b}));
    if b in t.kids {
      EntriesWithoutChild(t.path, t.kids, b);
      UpdatedElsewhere(rest, Entries(t.kids[b]), k, v);
    } else {
      assert t.kids - {b} == t.kids;
      UpdatedElsewhere(rest, {}, k, v);
    }
  }

  lemma {:induction false} SplitLeafCorrect(t: Tree, pre: seq<byte>, k: Key, v: Address)
    requires t.Leaf? && t.key != k && pre <= Terminated(t.key) && pre <= Terminated(k)
    ensures WellFormed(Insert(t, pre, k, v), pre)
    ensures Entries(Insert(t, pre, k, v)) == Updated(Entries(t), k, v)
  {
    hide Agreement;
    hide Entries;
    hide Updated;
    LeafWellFormed(pre, t.key, t.value);
    hide WellFormed;
    var y, z, d := Terminated(t.key), Terminated(k), |pre|;
    DistinctKeysDiverge(t.key, k, d);
    var n := Agreement(y[d..], z[d..]);
    InsertedIntoLeaf(t, pre, k, v, n);
    hide Insert;
    ForkOfLeaves(t, pre, k, v, n);
    SplitLeafEntries(z[d..d + n], t, y[d + n], k, v, z[d + n]);
  }

  /** What insertion makes of a leaf with another key. */
  lemma {:induction false} InsertedIntoLeaf(t: Tree, pre: seq<byte>, k: Key, v: Address, n: nat)
    requires t.Leaf? && t.key != k && pre <= Terminated(t.key) && pre <= Terminated(k)
    requires n == Agreement(Terminated(t.key)[|pre|..], Terminated(k)[|pre|..])
    ensures |pre| + n <= |t.key| && |pre| + n <= |k|
    ensures Terminated(t.key)[|pre| + n] != Terminated(k)[|pre| + n]
    ensures Insert(t, pre, k, v) == Node(Terminated(k)[|pre|..|pre| + n],
              map[Terminated(t.key)[|pre| + n] := t, Terminated(k)[|pre| + n] := Leaf(k, v)])
  {
    hide Agreement;
    DistinctKeysDiverge(t.key, k, |pre|);
  }

  lemma {:induction false} SplitLeafEntries(path: seq<byte>, t: Tree, b: byte, k: Key, v: Address, c: byte)
    requires t.Leaf? && t.key != k && b != c
    ensures Entries(Node(path, map[b := t, c := Leaf(k, v)])) == Updated(Entries(t), k, v)
  {
    EntriesOfTwo(path, b, t, c, Leaf(k, v));
  }

  /** Two leaves below their common path. */
  lemma {:induction false} ForkOfLeaves(t: Tree, pre: seq<byte>, k: Key, v: Address, n: nat)
    requires t.Leaf? && pre <= Terminated(t.key) && pre <= Terminated(k)
    requires var y, z, d := Terminated(t.key), Terminated(k), |pre|;
             d + n < |y| && d + n < |z| && y[d + n] != z[d + n] && y[..d + n] == z[..d + n]
    ensures var y, z, d := Terminated(t.key), Terminated(k), |pre|;
            WellFormed(Node(z[d..d + n], map[y[d + n] := t, z[d + n] := Leaf(k, v)]), pre)
  {
    var y, z, d := Terminated(t.key), Terminated(k), |pre|;
    var path := z[d..d + n];
    assert pre + path == z[..d + n];
    assert pre + path + [y[d + n]] == y[..d + n + 1];
    assert pre + path + [z[d + n]] == z[..d + n + 1];
    WellFormedFork(path, pre, y[d + n], t, z[d + n], Leaf(k, v));
  }

  /** The lower half of a split path is still a well-formed node. */
  lemma {:induction false} LowerHalf(t: Tree, pre: seq<byte>, n: nat)
    requires t.Node? && WellFormed(t, pre) && n < |t.path|
    ensures WellFormed(Node(t.path[n + 1..], t.kids), pre + t.path[..n] + [t.path[n]])
  {
    var upper := pre + t.path[..n] + [t.path[n]];
    forall b | b in t.kids ensures WellFormed(t.kids[b], upper + t.path[n + 1..] + [b]) {
      assert upper + t.path[n + 1..] + [b] == pre + t.path + [b];
    }
  }

  /** A key that leaves the compressed path is stored nowhere below it. */
  lemma {:induction false} NotBelowSplit(t: Tree, pre: seq<byte>, k: Key)
    requires t.Node? && WellFormed(t, pre) && pre <= Terminated(k)
    requires Agreement(t.path, Terminated(k)[|pre|..]) < |t.path|
    ensures forall e :: e in Entries(t) ==> e.0 != k
  {
    hide WellFormed;
    hide Agreement;
    var n := Agreement(t.path, Terminated(k)[|pre|..]);
    PathDivergence(t, pre, k);
    forall e | e in Entries(t) ensures e.0 != k {
      var b :| b in t.kids && e in Entries(t.kids[b]);
      EntryBelowChild(t, pre, e, b);
      assert Terminated(e.0)[|pre|..|pre| + |t.path|][n] == t.path[n];
    }
  }

  lemma {:induction false} WellFormedFork(path: seq<byte>, pre: seq<byte>, b: byte, t: Tree, c: byte, u: Tree)
    requires b != c && !t.Empty? && !u.Empty?
    requires WellFormed(t, pre + path + [b]) && WellFormed(u, pre + path + [c])
    ensures WellFormed(Node(path, map[b := t, c := u]), pre)
  {
    assert map[b := t, c := u].Keys == {b, c};
  }

  lemma {:induction false} SplitPathWellFormed(t: Tree, pre: seq<byte>, k: Key, v: Address, n: nat, b: byte)
    requires t.Node? && WellFormed(t, pre) && n < |t.path| && |pre| + n <= |k|
    requires pre + t.path[..n] == Terminated(k)[..|pre| + n]
    requires b == Terminated(k)[|pre| + n] && b != t.path[n]
    ensures WellFormed(Node(t.path[..n], map[t.path[n] := Node(t.path[n + 1..], t.kids), b := Leaf(k, v)]), pre)
  {
    LowerHalf(t, pre, n);
    assert pre + t.path[..n] + [b] == Terminated(k)[..|pre| + n + 1];
    WellFormedFork(t.path[..n], pre, t.path[n], Node(t.path[n + 1..], t.kids), b, Leaf(k, v));
  }

  lemma {:induction false} SplitPathEntries(t: Tree, pre: seq<byte>, k: Key, v: Address, n: nat, b: byte)
    requires t.Node? && WellFormed(t, pre) && pre <= Terminated(k)
    requires n == Agreement(t.path, Terminated(k)[|pre|..]) < |t.path| && b != t.path[n]
    ensures Entries(Node(t.path[..n], map[t.path[n] := Node(t.path[n + 1..], t.kids), b := Leaf(k, v)]))
         == Updated(Entries(t), k, v)
  {
    hide Agreement;
    var lower := Node(t.path[n + 1..], t.kids);
    EntriesOfTwo(t.path[..n], t.path[n], lower, b, Leaf(k, v));
    NotBelowSplit(t, pre, k);
    UpdatedElsewhere(Entries(t), {}, k, v);
    assert Entries(lower) == Entries(t);
  }

  // ---------------------------------------------------------------------
  // Deletion

  lemma {:induction false} SingletonKeys(kids: map<byte, Tree>, b: byte, c: byte)
    requires |kids| == 1 && b in kids && c in kids
    ensures b == c && kids == map[b := kids[b]]
  {
    assert |kids.Keys - {b}| == 0;
    assert kids.Keys == {b};
  }

  /** A node that lost a child: with one child left it gives way to that child,
      whose compressed path then takes in the node's path and the child's byte. */
  ghost function Collapsed(path: seq<byte>, kids: map<byte, Tree>): (r: Tree)
    requires |kids| >= 1
  {
    if |kids| > 1 then Node(path, kids) else
    var b :| b in kids;
    match kids[b]
    case Node(below, grandkids) => Node(path + [b] + below, grandkids)
    case _ => kids[b]
  }

  ghost function Delete(t: Tree, pre: seq<byte>, k: Key): (r: Tree)
    requires WellFormed(t, pre)
    decreases t
  {
    match t
    case Empty => Empty
    case Leaf(key, _) => if key == k then Empty else t
    case Node(path, kids) =>
      if !(pre + path <= k) then t else
      var b := Terminated(k)[|pre + path|];
      if b !in kids then t else
      var below := Delete(kids[b], pre + path + [b], k);
      if below.Empty?
      then (assert |(kids - {b}).Keys| == |kids.Keys| - 1 by { assert (kids - {b}).Keys == kids.Keys - {b}; }
            Collapsed(path, kids - {b}))
      else Node(path, kids[b := below])
  }

  ghost function Without(s: set<Entry>, k: Key): set<Entry> {
    set e | e in s && e.0 != k
  }

  lemma {:induction false} CollapsedWellFormed(path: seq<byte>, kids: map<byte, Tree>, pre: seq<byte>)
    requires |kids| >= 1
    requires forall b :: b in kids ==> !kids[b].Empty? && WellFormed(kids[b], pre + path + [b])
    ensures WellFormed(Collapsed(path, kids), pre) && !Collapsed(path, kids).Empty?
  {
    if |kids| == 1 {
      var b :| b in kids;
      forall c | c in kids ensures c == b { SingletonKeys(kids, b, c); }
      var whole := pre + path + [b];
      match kids[b]
      case Leaf(key, _) => assert pre <= whole <= Terminated(key);
      case Node(below, grandkids) =>
        forall c | c in grandkids ensures WellFormed(grandkids[c], pre + (path + [b] + below) + [c]) {
          assert pre + (path + [b] + below) + [c] == whole + below + [c];
        }
    }
  }

  lemma {:induction false} CollapsedEntries(path: seq<byte>, kids: map<byte, Tree>)
    requires |kids| >= 1
    ensures Entries(Collapsed(path, kids)) == Entries(Node(path, kids))
  {
    if |kids| == 1 {
      var b :| b in kids;
      forall c | c in kids ensures c == b { SingletonKeys(kids, b, c); }
      EntriesWithoutChild(path, kids, b);
      assert kids - {b} == map[];
    }
  }

  lemma {:induction false} DeleteWellFormed(t: Tree, pre: seq<byte>, k: Key)
    requires WellFormed(t, pre)
    ensures WellFormed(Delete(t, pre, k), pre)
    ensures t.Node? ==> !Delete(t, pre, k).Empty?
    decreases t
  {
    if t.Node? && pre + t.path <= k {
      var path, kids, b := t.path, t.kids, Terminated(k)[|pre + t.path|];
      if b in kids {
        DeleteWellFormed(kids[b], pre + path + [b], k);
        var below := Delete(kids[b], pre + path + [b], k);
        if below.Empty? {
          assert (kids - {b}).Keys == kids.Keys - {b};
          CollapsedWellFormed(path, kids - {b}, pre);
        } else {
          WellFormedWithChild(t, pre, b, below);
        }
      }
    }
  }

  /** Deletion removes the key's entry and no other. */
  lemma {:induction false} DeleteEntries(t: Tree, pre: seq<byte>, k: Key)
    requires WellFormed(t, pre)
    ensures Entries(Delete(t, pre, k)) == Without(Entries(t), k)
    decreases t
  {
    if t.Node? {
      var path, kids := t.path, t.kids;
      if pre + path <= k && Terminated(k)[|pre + path|] in kids {
        var b := Terminated(k)[|pre + path|];
        DeleteEntries(kids[b], pre + path + [b], k);
        var below := Delete(kids[b], pre + path + [b], k);
        OtherChildrenOtherKeys(t, pre, k, b);
        EntriesWithoutChild(path, kids, b);
        if below.Empty? {
          assert (kids - {b}).Keys == kids.Keys - {b};
          CollapsedEntries(path, kids - {b});
        } else {
          EntriesWithChild(path, kids, b, below);
        }
      } else {
        NotStoredHere(t, pre, k);
      }
    }
  }

  lemma {:induction false} NotStoredHere(t: Tree, pre: seq<byte>, k: Key)
    requires t.Node? && WellFormed(t, pre)
    requires pre + t.path <= k ==> Terminated(k)[|pre + t.path|] !in t.kids
    ensures forall e :: e in Entries(t) ==> e.0 != k
  {
    forall e | e in Entries(t) ensures e.0 != k {
      var b :| b in t.kids && e in Entries(t.kids[b]);
      StoredElsewhere(t, pre, k, e, b);
    }
  }

  lemma {:induction false} StoredElsewhere(t: Tree, pre: seq<byte>, k: Key, e: Entry, b: byte)
    requires t.Node? && WellFormed(t, pre) && b in t.kids && e in Entries(t.kids[b])
    requires pre + t.path <= k ==> Terminated(k)[|pre + t.path|] !in t.kids
    ensures e.0 != k
  {
    hide Entries;
    EntryBelowChild(t, pre, e, b);
    hide WellFormed;
    assert pre + t.path == Terminated(e.0)[..|pre| + |t.path|];
  }
}
