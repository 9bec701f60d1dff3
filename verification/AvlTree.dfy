/**
  Removal from an AVL tree: the search, the exchange with a neighbour, and the walk back
  to the root that recomputes stored heights and rotates.

  A node with its parent pointers is a subtree and the path of frames above it.
 */
module AvlTree {
  import opened Basics

  datatype Entry = Entry(key: int, value: Address)

  /** `hl` and `hr` are the stored heights of the two subtrees. */
  datatype Tree = Nil | Node(left: Tree, entry: Entry, right: Tree, hl: int, hr: int)

  /** A parent: the subtree below is its left or its right child. */
  datatype Frame = Frame(goesLeft: bool, entry: Entry, other: Tree, hl: int, hr: int)

  function Larger(a: int, b: int): int {
    if a > b then a else b
  }

  function Height(t: Tree): (h: int)
    ensures h >= 0 && (h == 0 <==> t.Nil?)
  {
    if t.Nil? then 0 else 1 + Larger(Height(t.left), Height(t.right))
  }

  /** Balanced everywhere, with the stored heights right. */
  ghost predicate Avl(t: Tree) {
    t.Node? ==>
      && Avl(t.left) && Avl(t.right) && t.hl == Height(t.left) && t.hr == Height(t.right)
      && -1 <= t.hl - t.hr <= 1
  }

  function InOrder(t: Tree): seq<Entry> {
    if t.Nil? then [] else InOrder(t.left) + [t.entry] + InOrder(t.right)
  }

  ghost predicate Sorted(s: seq<Entry>) {
    forall i, j :: 0 <= i < j < |s| ==> s[i].key < s[j].key
  }

  /** The entries with another key. */
  function Dropped(s: seq<Entry>, key: int): seq<Entry> {
    if s == [] then [] else (if s[0].key == key then [] else [s[0]]) + Dropped(s[1..], key)
  }

  // ---------------------------------------------------------------------
  // Paths

  function Up(f: Frame, t: Tree): Tree {
    if f.goesLeft then Node(t, f.entry, f.other, f.hl, f.hr) else Node(f.other, f.entry, t, f.hl, f.hr)
  }

  /** The whole tree around a subtree; the nearest parent is the last frame. */
  function Plug(path: seq<Frame>, t: Tree): Tree {
    if path == [] then t else Plug(path[..|path| - 1], Up(path[|path| - 1], t))
  }

  function Before(path: seq<Frame>): seq<Entry> {
    if path == [] then [] else
    var f := path[|path| - 1];
    Before(path[..|path| - 1]) + (if f.goesLeft then [] else InOrder(f.other) + [f.entry])
  }

  function After(path: seq<Frame>): seq<Entry> {
    if path == [] then [] else
    var f := path[|path| - 1];
    (if f.goesLeft then [f.entry] + InOrder(f.other) else []) + After(path[..|path| - 1])
  }

  lemma {:induction false} PlugOrder(path: seq<Frame>, t: Tree)
    ensures InOrder(Plug(path, t)) == Before(path) + InOrder(t) + After(path)
    decreases |path|
  {
    if path == [] {
      assert [] + InOrder(t) + [] == InOrder(t);
    } else {
      var n := |path| - 1;
      var f := path[n];
      PlugOrder(path[..n], Up(f, t));
      UpOrder(f, t);
      hide InOrder;
      var left, right := if f.goesLeft then [] else InOrder(f.other) + [f.entry], if f.goesLeft then [f.entry] + InOrder(f.other) else [];
      Regroup(Before(path[..n]), left, InOrder(t), right, After(path[..n]));
    }
  }

  lemma {:induction false} Regroup(a: seq<Entry>, b: seq<Entry>, c: seq<Entry>, d: seq<Entry>, e: seq<Entry>)
    ensures a + (b + c + d) + e == (a + b) + c + (d + e)
  {
  }

  lemma {:induction false} UpOrder(f: Frame, t: Tree)
    ensures InOrder(Up(f, t)) ==
            (if f.goesLeft then [] else InOrder(f.other) + [f.entry]) + InOrder(t) +
            (if f.goesLeft then [f.entry] + InOrder(f.other) else [])
  {
  }

  /** Frames of a tree that was balanced when the subtree at the bottom had height `h`. */
  ghost predicate PathOK(path: seq<Frame>, h: int)
    decreases |path|
  {
    path != [] ==>
      var f := path[|path| - 1];
      && Avl(f.other) && -1 <= h - Height(f.other) <= 1
      && PathOK(path[..|path| - 1], 1 + Larger(h, Height(f.other)))
  }

  // ---------------------------------------------------------------------
  // Rotations

  function Stored(t: Tree): int {
    if t.Nil? then 0 else Larger(t.hl, t.hr) + 1
  }

  function RotateLeft(node: Tree): Tree
    requires node.Node? && node.right.Node?
  {
    var low := node.(right := node.right.left, hr := Stored(node.right.left));
    node.right.(left := low, hl := Larger(low.hl, low.hr) + 1)
  }

  function RotateRight(node: Tree): Tree
    requires node.Node? && node.left.Node?
  {
    var low := node.(left := node.left.right, hl := Stored(node.left.right));
    node.left.(right := low, hr := Larger(low.hl, low.hr) + 1)
  }

  lemma {:induction false} RotateLeftOrder(node: Tree)
    requires node.Node? && node.right.Node?
    ensures InOrder(RotateLeft(node)) == InOrder(node)
  {
    assert InOrder(node.left) + [node.entry] + (InOrder(node.right.left) + [node.right.entry] + InOrder(node.right.right))
        == (InOrder(node.left) + [node.entry] + InOrder(node.right.left)) + [node.right.entry] + InOrder(node.right.right);
  }

  lemma {:induction false} RotateRightOrder(node: Tree)
    requires node.Node? && node.left.Node?
    ensures InOrder(RotateRight(node)) == InOrder(node)
  {
    assert (InOrder(node.left.left) + [node.left.entry] + InOrder(node.left.right)) + [node.entry] + InOrder(node.right)
        == InOrder(node.left.left) + [node.left.entry] + (InOrder(node.left.right) + [node.entry] + InOrder(node.right));
  }

  /** A node whose subtrees are fine and whose stored heights are right. */
  ghost predicate Ready(t: Tree) {
    t.Node? && Avl(t.left) && Avl(t.right) && t.hl == Height(t.left) && t.hr == Height(t.right)
  }

  lemma {:induction false} StoredIsHeight(t: Tree)
    requires Avl(t)
    ensures Stored(t) == Height(t)
  {
  }

  /** What one rotation or two make of a node whose right side is two higher. */
  ghost function MendedLeft(t: Tree): Tree
    requires Ready(t) && t.hr == t.hl + 2
  {
    var right := if t.right.hl - t.right.hr == 1 then RotateRight(t.right) else t.right;
    RotateLeft(t.(right := right, hr := Stored(right)))
  }

  ghost function MendedRight(t: Tree): Tree
    requires Ready(t) && t.hl == t.hr + 2
  {
    var left := if t.left.hl - t.left.hr == -1 then RotateLeft(t.left) else t.left;
    RotateRight(t.(left := left, hl := Stored(left)))
  }

  lemma {:induction false} LeftOrder(t: Tree)
    requires Ready(t) && t.hr == t.hl + 2
    ensures InOrder(MendedLeft(t)) == InOrder(t)
  {
    if t.right.hl - t.right.hr == 1 {
      RotateRightOrder(t.right);
      RotateLeftOrder(t.(right := RotateRight(t.right), hr := Stored(RotateRight(t.right))));
    } else {
      RotateLeftOrder(t.(hr := Stored(t.right)));
    }
  }

  lemma {:induction false} RightOrder(t: Tree)
    requires Ready(t) && t.hl == t.hr + 2
    ensures InOrder(MendedRight(t)) == InOrder(t)
  {
    if t.left.hl - t.left.hr == -1 {
      RotateLeftOrder(t.left);
      RotateRightOrder(t.(left := RotateLeft(t.left), hl := Stored(RotateLeft(t.left))));
    } else {
      RotateRightOrder(t.(hl := Stored(t.left)));
    }
  }

  /** The right side is two higher: one rotation or two mend it, and the node that goes down is balanced. */
  lemma {:induction false} LeftMends(t: Tree)
    requires Ready(t) && t.hr == t.hl + 2
    ensures var u := MendedLeft(t);
            && Avl(u) && u.Node? && u.left.Node? && t.hr <= Height(u) <= t.hr + 1 && -1 <= u.left.hl - u.left.hr <= 1
            && InOrder(u) == InOrder(t)
  {
    LeftOrder(t);
    hide InOrder;
    var r := t.right;
    StoredIsHeight(r.left);
    if r.hl - r.hr == 1 {
      StoredIsHeight(r.left.right);
      StoredIsHeight(r.left.left);
    }
  }

  lemma {:induction false} RightMends(t: Tree)
    requires Ready(t) && t.hl == t.hr + 2
    ensures var u := MendedRight(t);
            && Avl(u) && u.Node? && u.right.Node? && t.hl <= Height(u) <= t.hl + 1 && -1 <= u.right.hl - u.right.hr <= 1
            && InOrder(u) == InOrder(t)
  {
    RightOrder(t);
    hide InOrder;
    var l := t.left;
    StoredIsHeight(l.right);
    if l.hl - l.hr == -1 {
      StoredIsHeight(l.right.left);
      StoredIsHeight(l.right.right);
    }
  }

  // ---------------------------------------------------------------------
  // The walk back to the root

  /** A node on the walk, where a subtree of height `h` was balanced: its subtrees are fine, and at
      most one of them has lost one level. */
  ghost predicate Pending(t: Tree, h: int) {
    && t.Node? && Avl(t.left) && Avl(t.right)
    && var a, b := Height(t.left), Height(t.right);
    if a - b == 2 then h == a + 1 else if b - a == 2 then h == b + 1 else
    -1 <= a - b <= 1 && Larger(a, b) + 1 <= h <= Larger(a, b) + 2
  }

  function Lopsided(t: Tree): int {
    if t.Node? && !(-1 <= Height(t.left) - Height(t.right) <= 1) then 1 else 0
  }

  lemma {:induction false} PlugSame(path: seq<Frame>, a: Tree, b: Tree)
    requires InOrder(a) == InOrder(b)
    ensures InOrder(Plug(path, a)) == InOrder(Plug(path, b))
  {
    PlugOrder(path, a);
    PlugOrder(path, b);
  }

  lemma {:induction false} RecomputeReady(t: Tree, h: int)
    requires Pending(t, h)
    ensures Ready(t.(hl := Stored(t.left), hr := Stored(t.right))) && Pending(t.(hl := Stored(t.left), hr := Stored(t.right)), h)
    ensures InOrder(t.(hl := Stored(t.left), hr := Stored(t.right))) == InOrder(t)
  {
    StoredIsHeight(t.left);
    StoredIsHeight(t.right);
  }

  /** One level up: the parent of a finished subtree is next. */
  lemma {:induction false} StepUp(path: seq<Frame>, t: Tree, h: int)
    requires path != [] && PathOK(path, h) && Avl(t) && h - 1 <= Height(t) <= h
    ensures var f := path[|path| - 1];
            var up := 1 + Larger(h, Height(f.other));
            Pending(Up(f, t), up) && PathOK(path[..|path| - 1], up)
  {
  }

  /** The rotations for a right side that is two higher. The node that goes down is balanced then,
      so the walk goes on at the one that came up. */
  method MendLeft(t: Tree) returns (u: Tree)
    requires Ready(t) && t.hr == t.hl + 2
    ensures Avl(u) && u.Node? && t.hr <= Height(u) <= t.hr + 1 && InOrder(u) == InOrder(t)
    ensures u.left.Node? && -1 <= u.left.hl - u.left.hr <= 1
  {
    hide InOrder;
    LeftMends(t);
    StoredIsHeight(t.right);
    u := t;
    if u.right.hl - u.right.hr == 1 {
      var right := RotateRight(u.right);
      u := u.(right := right, hr := Stored(right));
    }
    u := RotateLeft(u);
  }

  method MendRight(t: Tree) returns (u: Tree)
    requires Ready(t) && t.hl == t.hr + 2
    ensures Avl(u) && u.Node? && t.hl <= Height(u) <= t.hl + 1 && InOrder(u) == InOrder(t)
    ensures u.right.Node? && -1 <= u.right.hl - u.right.hr <= 1
  {
    hide InOrder;
    RightMends(t);
    StoredIsHeight(t.left);
    u := t;
    if u.left.hl - u.left.hr == -1 {
      var left := RotateLeft(u.left);
      u := u.(left := left, hl := Stored(left));
    }
    u := RotateRight(u);
  }

  /** avlt_balance: ends at the root with a balanced tree of the same entries. */
  method Balance(path0: seq<Frame>, node0: Tree, ghost h0: int) returns (root: Tree)
    requires Pending(node0, h0) && PathOK(path0, h0)
    ensures Avl(root) && InOrder(root) == InOrder(Plug(path0, node0))
  {
    hide Avl;
    hide PathOK;
    hide InOrder;
    var node, path := node0, path0;
    ghost var h := h0;
    while true
      invariant Pending(node, h) && PathOK(path, h)
      invariant InOrder(Plug(path, node)) == InOrder(Plug(path0, node0))
      decreases 2 * |path| + Lopsided(node)
    {
      RecomputeReady(node, h);
      var fixed := node.(hl := Stored(node.left), hr := Stored(node.right));
      PlugSame(path, node, fixed);
      if fixed.hl - fixed.hr <= -2 {
        node := MendLeft(fixed);
        PlugSame(path, fixed, node);
        Mended(node, h);
      } else if fixed.hl - fixed.hr >= 2 {
        node := MendRight(fixed);
        PlugSame(path, fixed, node);
        Mended(node, h);
      } else {
        ReadyIsAvl(fixed, h);
        if path == [] { return fixed; }
        var f := path[|path| - 1];
        StepUp(path, fixed, h);
        h := 1 + Larger(h, Height(f.other));
        node, path := Up(f, fixed), path[..|path| - 1];
      }
    }
  }

  lemma {:induction false} Mended(t: Tree, h: int)
    requires Avl(t) && t.Node? && h - 1 <= Height(t) <= h
    ensures Pending(t, h) && Lopsided(t) == 0
  {
  }

  lemma {:induction false} ReadyIsAvl(t: Tree, h: int)
    requires Ready(t) && Pending(t, h) && -1 <= t.hl - t.hr <= 1
    ensures Avl(t) && h - 1 <= Height(t) <= h
  {
  }

  // ---------------------------------------------------------------------
  // Going down

  ghost predicate NoKey(s: seq<Entry>, key: int) {
    forall i :: 0 <= i < |s| ==> s[i].key != key
  }

  lemma {:induction false} DroppedNone(s: seq<Entry>, key: int)
    requires NoKey(s, key)
    ensures Dropped(s, key) == s
  {
    if s != [] { DroppedNone(s[1..], key); }
  }

  lemma {:induction false} DroppedOne(a: seq<Entry>, e: Entry, b: seq<Entry>)
    requires Sorted(a + [e] + b)
    ensures Dropped(a + [e] + b, e.key) == a + b
  {
    var s := a + [e] + b;
    if a == [] {
      assert s[0] == e && s[1..] == b;
      forall i | 0 <= i < |b| ensures b[i].key != e.key { assert s[i + 1] == b[i]; }
      DroppedNone(b, e.key);
    } else {
      assert s[0] == a[0] && s[|a|] == e;
      assert s[1..] == a[1..] + [e] + b;
      DroppedOne(a[1..], e, b);
    }
  }

  /** The frame that a step to a child leaves behind. */
  function LeftFrame(t: Tree, e: Entry): Frame
    requires t.Node?
  {
    Frame(true, e, t.right, t.hl, t.hr)
  }

  function RightFrame(t: Tree, e: Entry): Frame
    requires t.Node?
  {
    Frame(false, e, t.left, t.hl, t.hr)
  }

  /** A step down keeps the path in order, whatever entry the node will hold. */
  lemma {:induction false} StepDown(path: seq<Frame>, t: Tree, e: Entry)
    requires t.Node? && Avl(t) && PathOK(path, Height(t))
    ensures Avl(t.left) && PathOK(path + [LeftFrame(t, e)], Height(t.left))
    ensures Avl(t.right) && PathOK(path + [RightFrame(t, e)], Height(t.right))
    ensures Before(path + [LeftFrame(t, e)]) == Before(path)
    ensures After(path + [LeftFrame(t, e)]) == [e] + InOrder(t.right) + After(path)
    ensures Before(path + [RightFrame(t, e)]) == Before(path) + (InOrder(t.left) + [e])
    ensures After(path + [RightFrame(t, e)]) == After(path)
  {
    var l, r := path + [LeftFrame(t, e)], path + [RightFrame(t, e)];
    assert l[..|l| - 1] == path && r[..|r| - 1] == path;
    assert Before(path) + [] == Before(path) && [] + After(path) == After(path);
  }

  /** avlt_find_prev: the last node below. */
  method LastNode(t: Tree) returns (p: Tree)
    requires t.Node?
    ensures p.Node? && InOrder(t) != [] && p.entry == InOrder(t)[|InOrder(t)| - 1]
  {
    p := t;
    while p.right.Node?
      invariant p.Node? && InOrder(t)[|InOrder(t)| - 1] == InOrder(p)[|InOrder(p)| - 1]
      decreases p
    {
      p := p.right;
    }
  }

  /** avlt_find_next: the first node below. */
  method FirstNode(t: Tree) returns (p: Tree)
    requires t.Node?
    ensures p.Node? && InOrder(t) != [] && p.entry == InOrder(t)[0]
  {
    p := t;
    while p.left.Node?
      invariant p.Node? && InOrder(t)[0] == InOrder(p)[0]
      decreases p
    {
      p := p.left;
    }
  }

  /** The path of parents to the last node below. */
  method PathToLast(path0: seq<Frame>, t: Tree) returns (path: seq<Frame>, q: Tree)
    requires t.Node? && Avl(t) && PathOK(path0, Height(t))
    ensures q.Node? && q.right.Nil? && Avl(q) && PathOK(path, Height(q)) && path0 <= path
    ensures After(path) == After(path0) && Before(path) + InOrder(q) == Before(path0) + InOrder(t)
  {
    path, q := path0, t;
    while q.right.Node?
      invariant q.Node? && Avl(q) && PathOK(path, Height(q)) && path0 <= path
      invariant After(path) == After(path0) && Before(path) + InOrder(q) == Before(path0) + InOrder(t)
      decreases q
    {
      hide PathOK;
      hide Avl;
      StepDown(path, q, q.entry);
      RightSplit(path, q);
      path, q := path + [RightFrame(q, q.entry)], q.right;
    }
  }

  lemma {:induction false} RightSplit(path: seq<Frame>, q: Tree)
    requires q.Node?
    ensures Before(path) + (InOrder(q.left) + [q.entry]) + InOrder(q.right) == Before(path) + InOrder(q)
    ensures InOrder(q.left) + ([q.entry] + InOrder(q.right) + After(path)) == InOrder(q) + After(path)
  {
  }

  /** The path of parents to the first node below. */
  method PathToFirst(path0: seq<Frame>, t: Tree) returns (path: seq<Frame>, q: Tree)
    requires t.Node? && Avl(t) && PathOK(path0, Height(t))
    ensures q.Node? && q.left.Nil? && Avl(q) && PathOK(path, Height(q)) && path0 <= path
    ensures Before(path) == Before(path0) && InOrder(q) + After(path) == InOrder(t) + After(path0)
  {
    path, q := path0, t;
    while q.left.Node?
      invariant q.Node? && Avl(q) && PathOK(path, Height(q)) && path0 <= path
      invariant Before(path) == Before(path0) && InOrder(q) + After(path) == InOrder(t) + After(path0)
      decreases q
    {
      hide PathOK;
      hide Avl;
      StepDown(path, q, q.entry);
      RightSplit(path, q);
      path, q := path + [LeftFrame(q, q.entry)], q.left;
    }
  }

  /** Unlinking a node with at most one child, then balancing from its parent. */
  method Unlink(path: seq<Frame>, q: Tree) returns (root: Tree)
    requires q.Node? && (q.left.Nil? || q.right.Nil?) && Avl(q) && PathOK(path, Height(q))
    ensures Avl(root) && InOrder(root) == Before(path) + (InOrder(q.left) + InOrder(q.right)) + After(path)
  {
    var s := if q.left.Node? then q.left else q.right;
    assert InOrder(s) == InOrder(q.left) + InOrder(q.right);
    assert Avl(s) && Height(q) - 1 <= Height(s) <= Height(q);
    hide Avl;
    hide PathOK;
    PlugOrder(path, s);
    if path == [] {
      root := s;
    } else {
      var f := path[|path| - 1];
      StepUp(path, s, Height(q));
      root := Balance(path[..|path| - 1], Up(f, s), 1 + Larger(Height(q), Height(f.other)));
    }
  }

  /** Which neighbour takes the place of an entry: the one on the higher side, the next one if both are
      as high. */
  method FromLeft(cur: Tree) returns (left: bool)
    requires cur.Node? && Avl(cur)
    ensures left <==> Height(cur.left) > Height(cur.right)
  {
    left := cur.hl > cur.hr;
  }

  /** Taking out the entry of a node: at most one child, or by way of a neighbour. */
  method TakeOut(path: seq<Frame>, cur: Tree) returns (root: Tree)
    requires cur.Node? && Avl(cur) && PathOK(path, Height(cur))
    ensures Avl(root) && InOrder(root) == Before(path) + (InOrder(cur.left) + InOrder(cur.right)) + After(path)
  {
    hide Avl;
    hide PathOK;
    if cur.left.Node? && cur.right.Node? {
      var fromLeft := FromLeft(cur);
      if fromLeft {
        var p := LastNode(cur.left);
        StepDown(path, cur, p.entry);
        var below, q := PathToLast(path + [LeftFrame(cur, p.entry)], cur.left);
        root := Unlink(below, q);
        LastGone(path, cur, below, q, p.entry);
      } else {
        var p := FirstNode(cur.right);
        StepDown(path, cur, p.entry);
        var below, q := PathToFirst(path + [RightFrame(cur, p.entry)], cur.right);
        root := Unlink(below, q);
        FirstGone(path, cur, below, q, p.entry);
      }
    } else {
      root := Unlink(path, cur);
    }
  }

  /** The last node of the left side has moved into the place of the node above. */
  lemma {:induction false} LastGone(path: seq<Frame>, cur: Tree, below: seq<Frame>, q: Tree, e: Entry)
    requires cur.Node? && q.Node? && q.right.Nil? && InOrder(cur.left) != []
    requires e == InOrder(cur.left)[|InOrder(cur.left)| - 1]
    requires Before(below) + InOrder(q) == Before(path) + InOrder(cur.left)
    requires After(below) == [e] + InOrder(cur.right) + After(path)
    ensures Before(below) + (InOrder(q.left) + InOrder(q.right)) + After(below) ==
            Before(path) + (InOrder(cur.left) + InOrder(cur.right)) + After(path)
  {
    assert InOrder(q) == InOrder(q.left) + [q.entry] + [];
    LastMoved(Before(below), InOrder(q.left), q.entry, Before(path), InOrder(cur.left), InOrder(cur.right), After(path));
    assert InOrder(q.left) + [] == InOrder(q.left);
  }

  lemma {:induction false} LastMoved(x: seq<Entry>, y: seq<Entry>, e: Entry, b: seq<Entry>, c: seq<Entry>, d: seq<Entry>, a: seq<Entry>)
    requires c != [] && x + (y + [e] + []) == b + c
    ensures x + y + ([c[|c| - 1]] + d + a) == b + (c + d) + a
  {
    assert x + (y + [e] + []) == (x + y) + [e];
    CutLast(x + y, e, b, c);
    assert x + y + ([e] + d + a) == (x + y + [e]) + d + a;
    assert b + c + d + a == b + (c + d) + a;
  }

  lemma {:induction false} FirstMoved(x: seq<Entry>, y: seq<Entry>, e: Entry, b: seq<Entry>, c: seq<Entry>, d: seq<Entry>, a: seq<Entry>)
    requires c != [] && ([] + [e] + y) + x == c + a
    ensures b + (d + [c[0]]) + y + x == b + (d + c) + a
  {
    assert ([] + [e] + y) + x == [e] + (y + x);
    CutFirst(e, y + x, c, a);
    assert b + (d + [e]) + y + x == b + d + ([e] + (y + x));
    assert b + d + (c + a) == b + (d + c) + a;
  }

  lemma {:induction false} CutLast(a: seq<Entry>, x: Entry, b: seq<Entry>, c: seq<Entry>)
    requires c != [] && a + [x] == b + c
    ensures x == c[|c| - 1] && a == b + c[..|c| - 1]
  {
    var s := a + [x];
    assert s[|s| - 1] == x && s[..|s| - 1] == a;
    assert (b + c)[|s| - 1] == c[|c| - 1] && (b + c)[..|s| - 1] == b + c[..|c| - 1];
  }

  lemma {:induction false} CutFirst(x: Entry, a: seq<Entry>, b: seq<Entry>, c: seq<Entry>)
    requires b != [] && [x] + a == b + c
    ensures x == b[0] && a == b[1..] + c
  {
    var s := [x] + a;
    assert s[0] == x && s[1..] == a;
    assert (b + c)[0] == b[0] && (b + c)[1..] == b[1..] + c;
  }

  lemma {:induction false} FirstGone(path: seq<Frame>, cur: Tree, below: seq<Frame>, q: Tree, e: Entry)
    requires cur.Node? && q.Node? && q.left.Nil? && InOrder(cur.right) != []
    requires e == InOrder(cur.right)[0]
    requires InOrder(q) + After(below) == InOrder(cur.right) + After(path)
    requires Before(below) == Before(path) + (InOrder(cur.left) + [e])
    ensures Before(below) + (InOrder(q.left) + InOrder(q.right)) + After(below) ==
            Before(path) + (InOrder(cur.left) + InOrder(cur.right)) + After(path)
  {
    assert InOrder(q) == [] + [q.entry] + InOrder(q.right);
    FirstMoved(After(below), InOrder(q.right), q.entry, Before(path), InOrder(cur.right), InOrder(cur.left), After(path));
    assert [] + InOrder(q.right) == InOrder(q.right);
  }

  class Avlt {
    var root: Tree

    ghost predicate Valid()
      reads this
    {
      Avl(root) && Sorted(InOrder(root))
    }

    constructor ()
      ensures Valid() && root == Nil
    {
      root := Nil;
    }

    /** avlt_remove: the entries without the key, in a balanced tree with right heights; nothing
        happens when the key is not there. */
    method Remove(key: int) returns (value: Option<Address>)
      requires Valid()
      modifies this
      ensures Valid() && InOrder(root) == Dropped(old(InOrder(root)), key)
      ensures value.Some? ==> Entry(key, value.value) in old(InOrder(root))
      ensures value.None? ==> root == old(root) && NoKey(InOrder(root), key)
    {
      hide Avl;
      hide PathOK;
      hide InOrder;
      hide Before;
      hide After;
      hide Sorted;
      hide NoKey;
      hide Dropped;
      var cur, path := root, [];
      ghost var all := InOrder(root);
      AtRoot(root, key);
      while cur.Node?
        invariant root == old(root) && Avl(cur) && PathOK(path, Height(cur))
        invariant all == Before(path) + InOrder(cur) + After(path)
        invariant NoKey(Before(path), key) && NoKey(After(path), key)
        decreases cur
      {
        StepDown(path, cur, cur.entry);
        if cur.entry.key < key {
          GoRight(Before(path), cur, After(path), key);
          path, cur := path + [RightFrame(cur, cur.entry)], cur.right;
        } else if cur.entry.key > key {
          GoLeft(Before(path), cur, After(path), key);
          path, cur := path + [LeftFrame(cur, cur.entry)], cur.left;
        } else {
          value := Some(cur.entry.value);
          FoundAt(Before(path), cur, After(path));
          root := TakeOut(path, cur);
          return;
        }
      }
      NotThere(Before(path), cur, After(path), key);
      return None;
    }
  }

  lemma {:induction false} AtRoot(t: Tree, key: int)
    ensures PathOK([], Height(t)) && InOrder(t) == Before([]) + InOrder(t) + After([])
    ensures NoKey(Before([]), key) && NoKey(After([]), key)
  {
  }

  lemma {:induction false} NotThere(a: seq<Entry>, t: Tree, b: seq<Entry>, key: int)
    requires t.Nil? && NoKey(a, key) && NoKey(b, key)
    ensures NoKey(a + InOrder(t) + b, key) && Dropped(a + InOrder(t) + b, key) == a + InOrder(t) + b
  {
    DroppedNone(a + InOrder(t) + b, key);
  }

  /** In a sorted list with `e` in the middle, what lies before is smaller and what lies behind larger. */
  lemma {:induction false} Around(s: seq<Entry>, a: seq<Entry>, e: Entry, b: seq<Entry>)
    requires Sorted(s) && s == a + [e] + b
    ensures forall i :: 0 <= i < |a| ==> a[i].key < e.key
    ensures forall i :: 0 <= i < |b| ==> e.key < b[i].key
    ensures Sorted(a + b)
  {
    assert s[|a|] == e;
    forall i | 0 <= i < |a| ensures a[i].key < e.key { assert s[i] == a[i]; }
    forall i | 0 <= i < |b| ensures e.key < b[i].key { assert s[|a| + 1 + i] == b[i]; }
    var c := a + b;
    forall i, j | 0 <= i < j < |c| ensures c[i].key < c[j].key {
      var x, y := if i < |a| then i else i + 1, if j < |a| then j else j + 1;
      assert c[i] == s[x] && c[j] == s[y];
    }
  }

  lemma {:induction false} GoRight(a: seq<Entry>, t: Tree, b: seq<Entry>, key: int)
    requires t.Node? && Sorted(a + InOrder(t) + b) && NoKey(a, key) && t.entry.key < key
    ensures NoKey(a + (InOrder(t.left) + [t.entry]), key)
    ensures a + InOrder(t) + b == a + (InOrder(t.left) + [t.entry]) + InOrder(t.right) + b
  {
    var l, e, r := InOrder(t.left), t.entry, InOrder(t.right);
    assert a + (l + [e] + r) + b == (a + l) + [e] + (r + b) == a + (l + [e]) + r + b;
    Around(a + InOrder(t) + b, a + l, e, r + b);
    assert a + (l + [e]) == (a + l) + [e];
  }

  lemma {:induction false} GoLeft(a: seq<Entry>, t: Tree, b: seq<Entry>, key: int)
    requires t.Node? && Sorted(a + InOrder(t) + b) && NoKey(b, key) && t.entry.key > key
    ensures NoKey([t.entry] + InOrder(t.right) + b, key)
    ensures a + InOrder(t) + b == a + InOrder(t.left) + ([t.entry] + InOrder(t.right) + b)
  {
    var l, e, r := InOrder(t.left), t.entry, InOrder(t.right);
    assert a + (l + [e] + r) + b == (a + l) + [e] + (r + b) == a + l + ([e] + r + b);
    Around(a + InOrder(t) + b, a + l, e, r + b);
    assert [e] + r + b == [e] + (r + b);
  }

  lemma {:induction false} FoundAt(a: seq<Entry>, t: Tree, b: seq<Entry>)
    requires t.Node? && Sorted(a + InOrder(t) + b)
    ensures t.entry in a + InOrder(t) + b
    ensures a + (InOrder(t.left) + InOrder(t.right)) + b == Dropped(a + InOrder(t) + b, t.entry.key)
    ensures Sorted(a + (InOrder(t.left) + InOrder(t.right)) + b)
  {
    hide Dropped;
    hide Sorted;
    var l, e, r := InOrder(t.left), t.entry, InOrder(t.right);
    assert a + (l + [e] + r) + b == (a + l) + [e] + (r + b);
    assert a + (l + r) + b == (a + l) + (r + b);
    Around(a + InOrder(t) + b, a + l, e, r + b);
    DroppedOne(a + l, e, r + b);
  }
}
