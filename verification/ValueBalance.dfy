/**
  The colours of the tree of integers: an insertion, which adds the grandparent anew from
  the root after painting it, keeps the tree red-black and so logarithmically deep.
 */
module ValueBalance {
  import opened Basics
  import opened BinFile
  import opened ValueTree

  /** No red node has a red child. */
  ghost predicate Calm(t: Tree) {
    t.Node? ==> Calm(t.left) && Calm(t.right) && (t.color.Red? ==> !IsRed(t.left) && !IsRed(t.right))
  }

  /** The black nodes on the way down the left edge. */
  ghost function BlackHeight(t: Tree): nat {
    if t.Nil? then 0 else BlackHeight(t.left) + (if t.color.Black? then 1 else 0)
  }

  /** Every way down has the same number of black nodes. */
  ghost predicate Even(t: Tree) {
    t.Node? ==> Even(t.left) && Even(t.right) && BlackHeight(t.left) == BlackHeight(t.right)
  }

  ghost predicate RedBlack(t: Tree) {
    !IsRed(t) && Calm(t) && Even(t)
  }

  // ---------------------------------------------------------------------
  // Exchanging a subtree

  lemma {:induction false} PlugEven(path: seq<Frame>, a: Tree, b: Tree)
    requires Even(Plug(path, a)) && Even(b) && BlackHeight(a) == BlackHeight(b)
    ensures Even(a) && Even(Plug(path, b)) && BlackHeight(Plug(path, b)) == BlackHeight(Plug(path, a))
  {
    if path != [] { PlugEven(path[1..], a, b); }
  }

  /** A subtree that is black, or below a black node, or no redder than the one it replaces. */
  lemma {:induction false} PlugCalm(path: seq<Frame>, a: Tree, b: Tree)
    requires Calm(Plug(path, a)) && Calm(b)
    requires IsRed(b) ==> IsRed(a) || (path != [] && path[|path| - 1].color.Black?)
    ensures Calm(a) && Calm(Plug(path, b)) && (path != [] ==> IsRed(Plug(path, b)) == IsRed(Plug(path, a)))
  {
    if |path| == 1 {
      assert Plug(path, a) == Up(path[0], a) && Plug(path, b) == Up(path[0], b);
    } else if path != [] {
      assert path[1..][|path| - 2] == path[|path| - 1];
      PlugCalm(path[1..], a, b);
    }
  }

  // ---------------------------------------------------------------------
  // A red node that may have a red parent

  /** Red-black but for a red node that may hang below another. */
  ghost predicate Pending(path: seq<Frame>, node: Tree) {
    && IsRed(node) && Calm(node) && Calm(Plug(path, Painted(node))) && Even(Plug(path, node))
    && (path != [] ==> path[0].color.Black?)
  }

  /** Below a red parent: the grandparent is black and everything else is in order. */
  lemma {:induction false} PendingTop(rest: seq<Frame>, g: Frame, f: Frame, node: Tree)
    requires Pending(rest + [g, f], node) && f.color.Red?
    ensures g.color.Black? && Calm(g.other) && Calm(f.other) && !IsRed(f.other)
    ensures Plug(rest + [g, f], node) == Plug(rest, Up(g, Up(f, node)))
    ensures Even(Up(g, Up(f, node))) && Calm(Plug(rest, Up(g, Up(f, Painted(node)))))
  {
    var path := rest + [g, f];
    assert path[..|path| - 2] == rest;
    PlugTwo(path, node);
    PlugTwo(path, Painted(node));
    var was := Up(g, Up(f, Painted(node)));
    PlugWhole(rest, was);
    assert Calm(Up(f, Painted(node)));
    PlugWhole(rest, Up(g, Up(f, node)));
  }

  lemma {:induction false} PlugWhole(path: seq<Frame>, a: Tree)
    ensures Even(Plug(path, a)) ==> Even(a)
    ensures Calm(Plug(path, a)) ==> Calm(a)
  {
    if path != [] { PlugWhole(path[1..], a); }
  }

  /** After the painting the grandparent is the pending node. */
  lemma {:induction false} PendingAgain(rest: seq<Frame>, g: Frame, f: Frame, node: Tree)
    requires Pending(rest + [g, f], node) && f.color.Red? && IsRed(g.other)
    ensures Pending(rest, Swapped(g, f, node))
  {
    PendingTop(rest, g, f, node);
    var was, now := Up(g, Up(f, node)), Swapped(g, f, node);
    assert Even(Up(f, node)) && Even(Up(f.(color := Black), node));
    PlugEven(rest, was, now);
    PlugCalm(rest, Up(g, Up(f, Painted(node))), Painted(now));
    RestRoot(rest, g, f);
  }

  lemma {:induction false} RestRoot(rest: seq<Frame>, g: Frame, f: Frame)
    ensures rest != [] ==> rest[0] == (rest + [g, f])[0]
  {
  }

  lemma {:induction false} TurnedFair(g: Frame, f: Frame, node: Tree)
    requires g.color.Black? && f.color.Red? && IsRed(node) && Even(Up(g, Up(f, node)))
    requires Calm(node) && Calm(f.other) && Calm(g.other) && !IsRed(f.other) && !IsRed(g.other)
    ensures var made := Turned(g, f, node);
            Calm(made) && Even(made) && !IsRed(made) && BlackHeight(made) == BlackHeight(Up(g, Up(f, node)))
  {
    var made := Turned(g, f, node);
    assert Even(Up(f, node)) && Even(node) && Even(g.other);
    assert Calm(node.left) && Calm(node.right);
    assert Calm(made.left) && Calm(made.right) && Even(made.left) && Even(made.right);
  }

  lemma {:induction false} TurnedRedBlack(rest: seq<Frame>, g: Frame, f: Frame, node: Tree)
    requires Pending(rest + [g, f], node) && f.color.Red? && !IsRed(g.other)
    ensures RedBlack(Plug(rest, Turned(g, f, node)))
  {
    PendingTop(rest, g, f, node);
    var was, now := Up(g, Up(f, node)), Turned(g, f, node);
    TurnedFair(g, f, node);
    PlugEven(rest, was, now);
    PlugCalm(rest, Up(g, Up(f, Painted(node))), now);
    RestRoot(rest, g, f);
  }

  lemma {:induction false} DoneRedBlack(path: seq<Frame>, node: Tree)
    requires Pending(path, node) && StepAt(path, node).Done?
    ensures RedBlack(StepAt(path, node).t)
  {
    if path != [] { PlugCalm(path, Painted(node), node); }
  }

  // ---------------------------------------------------------------------
  // The whole insertion

  /** In a searchable tree the descent for a key ends at its node. */
  lemma {:induction false} SpotOf(path: seq<Frame>, node: Tree)
    requires node.Node? && Searchable(Plug(path, node))
    ensures Spot(Plug(path, node), node.key) == Site(path, node)
  {
    hide CmpInt;
    if path != [] {
      PlugKeys(path[1..], node);
      SpotOf(path[1..], node);
      assert node.key in Keys(Plug(path[1..], node));
      hide Keys;
      assert path == [path[0]] + path[1..];
    }
  }

  /** A tree that is red-black but for the node of a key. */
  ghost predicate PendingTree(t: Tree, k: Int32) {
    t.Node? && Searchable(t) && Pending(Spot(t, k).path, Spot(t, k).node)
  }

  /** The painted tree is pending at the grandparent. */
  lemma {:induction false} PendingNext(t: Tree, k: Int32)
    requires PendingTree(t, k) && StepOf(t, k).Again?
    ensures PendingTree(StepOf(t, k).t, StepOf(t, k).k)
  {
    SpotGrown(t, k);
    GrownSearchable(t, k);
    AgainFacts(t, k);
    ShapeDecides(Grown(t, k), StepOf(t, k).t);
    PendingPainted(Spot(t, k).path, Spot(t, k).node);
  }

  lemma {:induction false} PendingPainted(path: seq<Frame>, node: Tree)
    requires Pending(path, node) && StepAt(path, node).Again? && Searchable(StepAt(path, node).t)
    ensures PendingTree(StepAt(path, node).t, StepAt(path, node).k)
  {
    var n := |path|;
    var rest, g, f := path[..n - 2], path[n - 2], path[n - 1];
    assert path == rest + [g, f];
    hide Pending;
    hide Spot;
    hide Searchable;
    PendingAgain(rest, g, f, node);
    SpotOf(rest, Swapped(g, f, node));
    PlugNode(rest, Swapped(g, f, node));
  }

  lemma {:induction false} PlugNode(path: seq<Frame>, node: Tree)
    requires node.Node?
    ensures Plug(path, node).Node?
  {
  }

  lemma {:induction false} PendingTurn(t: Tree, k: Int32)
    requires PendingTree(t, k) && StepOf(t, k).Turn?
    ensures RedBlack(Add(t, k))
  {
    SpotGrown(t, k);
    var path, node := Spot(t, k).path, Spot(t, k).node;
    var n := |path|;
    var rest, g, f := path[..n - 2], path[n - 2], path[n - 1];
    assert path == rest + [g, f];
    hide Pending;
    hide RedBlack;
    hide Spot;
    TurnedRedBlack(rest, g, f, node);
  }

  lemma {:induction false} PendingAdd(t: Tree, k: Int32)
    requires PendingTree(t, k)
    ensures RedBlack(Add(t, k))
    decreases if k in Keys(t) then 0 else 1, |Missing(t)|, Reds(t)
  {
    match StepOf(t, k)
    case Done(_) => DoneRedBlack(Spot(t, k).path, Spot(t, k).node);
    case Again(made, again) =>
      PendingNext(t, k);
      AgainSmaller(t, k);
      PendingAdd(made, again);
    case Turn(_, _, _, _) => PendingTurn(t, k);
  }

  /** rbt_add keeps a searchable tree red-black, even by a turn that is not safe. */
  lemma {:induction false} AddRedBlack(t: Tree, k: Int32)
    requires Searchable(t) && RedBlack(t)
    ensures RedBlack(Add(t, k))
  {
    if t.Node? {
      SpotGrown(t, k);
      SpotWas(t, k);
      var path, node := Spot(t, k).path, Spot(t, k).node;
      if IsRed(node) {
        var was := if Find(t, k) then node else Nil;
        PlugWhole(path, was);
        PlugCalm(path, was, Painted(node));
        PlugEven(path, was, node);
        PendingAdd(t, k);
      }
    }
  }

  lemma {:induction false} SpotWas(t: Tree, k: Int32)
    ensures Plug(Spot(t, k).path, if Find(t, k) then Spot(t, k).node else Nil) == t
    ensures !Find(t, k) ==> Spot(t, k).node == Node(Red, Nil, k, Nil)
  {
    if t.Node? && CmpInt(t.key, k) != 0 {
      var below := if CmpInt(t.key, k) > 0 then t.left else t.right;
      SpotWas(below, k);
      assert Spot(t, k).path[1..] == Spot(below, k).path;
    }
  }

  // ---------------------------------------------------------------------
  // Depth

  ghost function Depth(t: Tree): nat {
    if t.Nil? then 0 else
    var l, r := Depth(t.left), Depth(t.right);
    1 + (if l > r then l else r)
  }

  /** No search makes more than twice as many comparisons as there are black nodes on a way down. */
  lemma {:induction false} Shallow(t: Tree)
    requires Calm(t) && Even(t)
    ensures Depth(t) <= 2 * BlackHeight(t) + (if IsRed(t) then 1 else 0)
  {
    if t.Node? {
      Shallow(t.left);
      Shallow(t.right);
    }
  }

  ghost function Size(t: Tree): nat {
    if t.Nil? then 0 else Size(t.left) + 1 + Size(t.right)
  }

  lemma {:induction false} ManyNodes(t: Tree)
    requires Even(t)
    ensures Twice(BlackHeight(t)) <= Size(t) + 1
  {
    if t.Node? {
      ManyNodes(t.left);
      ManyNodes(t.right);
    }
  }

  lemma {:induction false} KeysCount(t: Tree)
    requires Distinct(t)
    ensures |Keys(t)| == Size(t)
  {
    if t.Node? {
      KeysCount(t.left);
      KeysCount(t.right);
      KeysAdd(Keys(t.left), t.key, Keys(t.right));
    }
  }

  lemma {:induction false} KeysAdd(a: set<Int32>, k: Int32, b: set<Int32>)
    requires a !! b && k !in a + b
    ensures |a + {k} + b| == |a| + 1 + |b|
  {
  }

  /** A search in a red-black search tree of n keys makes at most 2 * log2(n + 1) comparisons. */
  lemma {:induction false} LogDepth(t: Tree)
    requires Searchable(t) && RedBlack(t)
    ensures exists h: nat :: Depth(t) <= 2 * h && Twice(h) <= |Keys(t)| + 1
  {
    SearchableIffFound(t);
    Shallow(t);
    ManyNodes(t);
    KeysCount(t);
  }
}
