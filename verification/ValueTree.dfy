/**
  The red-black tree of the integers of a name, whose comparator subtracts and so wraps
  around: what an insertion makes of any tree, when it keeps every key in reach of the
  search, and that it keeps the tree red-black.

  A node with its parent pointers is a subtree and the path of frames above it.
 */
module ValueTree {
  import opened Basics
  import opened BinFile

  datatype Color = Red | Black

  datatype Tree = Nil | Node(color: Color, left: Tree, key: Int32, right: Tree)

  /** A parent: the subtree below is its left or its right child. */
  datatype Frame = Frame(goesLeft: bool, color: Color, key: Int32, other: Tree)

  /** libhl_cmp_keys_int: the difference of two ints is an int again. */
  function CmpInt(a: Int32, b: Int32): (rc: Int32)
    ensures rc == 0 <==> a == b
  {
    CutToInt(a - b)
  }

  function Keys(t: Tree): set<Int32> {
    if t.Nil? then {} else Keys(t.left) + {t.key} + Keys(t.right)
  }

  /** rbt_find. */
  function Find(t: Tree, k: Int32): bool {
    if t.Nil? then false else
    var rc := CmpInt(t.key, k);
    if rc == 0 then true else if rc > 0 then Find(t.left, k) else Find(t.right, k)
  }

  // ---------------------------------------------------------------------
  // Which keys a search can reach

  ghost predicate Sides(left: set<Int32>, k: Int32, right: set<Int32>) {
    (forall x :: x in left ==> CmpInt(k, x) > 0) && (forall x :: x in right ==> CmpInt(k, x) < 0)
  }

  /** Every key is on the side of each node above it to which the comparator sends the search. */
  ghost predicate Searchable(t: Tree) {
    t.Node? ==> Searchable(t.left) && Searchable(t.right) && Sides(Keys(t.left), t.key, Keys(t.right))
  }

  /** No key is there twice. */
  ghost predicate Distinct(t: Tree) {
    t.Node? ==>
      && Distinct(t.left) && Distinct(t.right) && Keys(t.left) !! Keys(t.right)
      && t.key !in Keys(t.left) + Keys(t.right)
  }

  ghost predicate AllFound(t: Tree) {
    forall k :: k in Keys(t) ==> Find(t, k)
  }

  /** What is found is there, whatever the tree looks like. */
  lemma {:induction false} FoundIsThere(t: Tree, k: Int32)
    requires Find(t, k)
    ensures k in Keys(t)
  {
    if CmpInt(t.key, k) > 0 { FoundIsThere(t.left, k); }
    else if CmpInt(t.key, k) < 0 { FoundIsThere(t.right, k); }
  }

  lemma {:induction false} SearchableFinds(t: Tree, k: Int32)
    requires Searchable(t) && k in Keys(t)
    ensures Find(t, k)
  {
    if k in Keys(t.left) { SearchableFinds(t.left, k); }
    else if k in Keys(t.right) { SearchableFinds(t.right, k); }
  }

  /** Each key once and all of them found: that is exactly to be searchable. */
  lemma {:induction false} SearchableIffFound(t: Tree)
    ensures Searchable(t) <==> Distinct(t) && AllFound(t)
  {
    if t.Node? {
      SearchableIffFound(t.left);
      SearchableIffFound(t.right);
      if Searchable(t) {
        forall k | k in Keys(t) ensures Find(t, k) { SearchableFinds(t, k); }
      }
      if Distinct(t) && AllFound(t) { FoundOnSides(t); }
    }
  }

  lemma {:induction false} FoundOnSides(t: Tree)
    requires t.Node? && Distinct(t) && AllFound(t)
    ensures Sides(Keys(t.left), t.key, Keys(t.right)) && AllFound(t.left) && AllFound(t.right)
  {
    forall x | x in Keys(t.left) + Keys(t.right)
      ensures x in Keys(t.left) ==> CmpInt(t.key, x) > 0 && Find(t.left, x)
      ensures x in Keys(t.right) ==> CmpInt(t.key, x) < 0 && Find(t.right, x)
    {
      FoundElsewhere(t, x);
    }
  }

  /** A search that goes to one side finds what is on that side. */
  lemma {:induction false} FoundElsewhere(t: Tree, x: Int32)
    requires t.Node? && Find(t, x) && x != t.key
    ensures CmpInt(t.key, x) > 0 ==> Find(t.left, x) && x in Keys(t.left)
    ensures CmpInt(t.key, x) < 0 ==> Find(t.right, x) && x in Keys(t.right)
  {
    FoundIsThere(if CmpInt(t.key, x) > 0 then t.left else t.right, x);
  }

  // ---------------------------------------------------------------------
  // Paths

  function Up(f: Frame, t: Tree): Tree {
    if f.goesLeft then Node(f.color, t, f.key, f.other) else Node(f.color, f.other, f.key, t)
  }

  /** The whole tree around a subtree; the root is the first frame. */
  function Plug(path: seq<Frame>, t: Tree): Tree {
    if path == [] then t else Up(path[0], Plug(path[1..], t))
  }

  lemma {:induction false} PlugLast(path: seq<Frame>, t: Tree)
    requires path != []
    ensures Plug(path, t) == Plug(path[..|path| - 1], Up(path[|path| - 1], t))
  {
    var n := |path| - 1;
    if n > 0 {
      PlugLast(path[1..], t);
      assert path[1..][..n - 1] == path[..n][1..];
    }
  }

  lemma {:induction false} PlugTwo(path: seq<Frame>, t: Tree)
    requires |path| >= 2
    ensures var n := |path|; Plug(path, t) == Plug(path[..n - 2], Up(path[n - 2], Up(path[n - 1], t)))
  {
    var n := |path|;
    PlugLast(path, t);
    PlugLast(path[..n - 1], Up(path[n - 1], t));
    assert path[..n - 1][..n - 2] == path[..n - 2];
  }

  datatype Site = Site(path: seq<Frame>, node: Tree)

  /** Where rbt_add_internal leaves the new node: in the place of one with its key, or at the end of
      the descent, red. */
  function Spot(t: Tree, k: Int32): Site {
    if t.Nil? then Site([], Node(Red, Nil, k, Nil)) else
    var rc := CmpInt(t.key, k);
    if rc == 0 then Site([], t)
    else if rc > 0 then
      var s := Spot(t.left, k);
      Site([Frame(true, t.color, t.key, t.right)] + s.path, s.node)
    else
      var s := Spot(t.right, k);
      Site([Frame(false, t.color, t.key, t.left)] + s.path, s.node)
  }

  /** The tree that rbt_add_internal leaves. */
  function Grown(t: Tree, k: Int32): Tree {
    if t.Nil? then Node(Red, Nil, k, Nil) else
    var rc := CmpInt(t.key, k);
    if rc == 0 then t
    else if rc > 0 then t.(left := Grown(t.left, k))
    else t.(right := Grown(t.right, k))
  }

  lemma {:induction false} SpotGrown(t: Tree, k: Int32)
    ensures var s := Spot(t, k); s.node.Node? && s.node.key == k && Plug(s.path, s.node) == Grown(t, k)
  {
    if t.Node? && CmpInt(t.key, k) != 0 {
      var below := if CmpInt(t.key, k) > 0 then t.left else t.right;
      SpotGrown(below, k);
      assert Spot(t, k).path[1..] == Spot(below, k).path;
    }
  }

  lemma {:induction false} GrownKeys(t: Tree, k: Int32)
    ensures Keys(Grown(t, k)) == Keys(t) + {k}
  {
    if t.Node? && CmpInt(t.key, k) != 0 { GrownKeys(if CmpInt(t.key, k) > 0 then t.left else t.right, k); }
  }

  lemma {:induction false} GrownFinds(t: Tree, k: Int32, x: Int32)
    ensures Find(Grown(t, k), x) <==> Find(t, x) || x == k
  {
    if t.Node? && CmpInt(t.key, k) != 0 { GrownFinds(if CmpInt(t.key, k) > 0 then t.left else t.right, k, x); }
  }

  lemma {:induction false} GrownSearchable(t: Tree, k: Int32)
    requires Searchable(t)
    ensures Searchable(Grown(t, k))
  {
    if t.Node? && CmpInt(t.key, k) != 0 {
      var below := if CmpInt(t.key, k) > 0 then t.left else t.right;
      GrownSearchable(below, k);
      GrownKeys(below, k);
    }
  }

  lemma {:induction false} GrownSame(t: Tree, k: Int32)
    requires Find(t, k)
    ensures Grown(t, k) == t
  {
    if CmpInt(t.key, k) != 0 { GrownSame(if CmpInt(t.key, k) > 0 then t.left else t.right, k); }
  }

  // ---------------------------------------------------------------------
  // One pass of rbt_add

  /** The tree is finished; or painted, to add a key of it again; or to be turned around two red
      nodes. */
  datatype Step = Done(t: Tree) | Again(t: Tree, k: Int32) | Turn(rest: seq<Frame>, g: Frame, f: Frame, node: Tree)

  function Painted(t: Tree): Tree
    requires t.Node?
  {
    t.(color := Black)
  }

  predicate IsRed(t: Tree) {
    t.Node? && t.color.Red?
  }

  /** The grandparent in red over its children in black. */
  function Swapped(g: Frame, f: Frame, node: Tree): Tree
    requires g.other.Node?
  {
    Up(g.(color := Red, other := Painted(g.other)), Up(f.(color := Black), node))
  }

  function StepAt(path: seq<Frame>, node: Tree): Step
    requires node.Node?
  {
    var n := |path|;
    if node.color.Black? then Done(Plug(path, node))
    else if n == 0 then Done(Painted(node))
    else if path[n - 1].color.Black? then Done(Plug(path, node))
    else if n == 1 then Done(Plug(path, node))
    else
      var rest, g, f := path[..n - 2], path[n - 2], path[n - 1];
      if IsRed(g.other) then Again(Plug(rest, Swapped(g, f, node)), g.key)
      else Turn(rest, g, f, node)
  }

  function StepOf(t: Tree, k: Int32): Step {
    if t.Nil? then Done(Node(Black, Nil, k, Nil)) else
    SpotGrown(t, k);
    StepAt(Spot(t, k).path, Spot(t, k).node)
  }

  /** The one or two rotations at the grandparent, with their colours. */
  function Turned(g: Frame, f: Frame, node: Tree): Tree
    requires node.Node?
  {
    if g.goesLeft then
      if f.goesLeft then Node(Black, node, f.key, Node(Red, f.other, g.key, g.other))
      else Node(Black, Node(f.color, f.other, f.key, node.left), node.key, Node(Red, node.right, g.key, g.other))
    else
      if f.goesLeft then Node(Black, Node(Red, g.other, g.key, node.left), node.key, Node(f.color, node.right, f.key, f.other))
      else Node(Black, Node(Red, g.other, g.key, f.other), f.key, node)
  }

  // ---------------------------------------------------------------------
  // Termination on any tree

  function Reds(t: Tree): nat {
    if t.Nil? then 0 else Reds(t.left) + Reds(t.right) + (if t.color.Red? then 1 else 0)
  }

  /** The keys that a search does not reach. */
  ghost function Missing(t: Tree): set<Int32> {
    set x | x in Keys(t) && !Find(t, x)
  }

  /** The same tree up to colours. */
  ghost predicate SameShape(a: Tree, b: Tree) {
    if a.Nil? || b.Nil? then a.Nil? && b.Nil? else
    a.key == b.key && SameShape(a.left, b.left) && SameShape(a.right, b.right)
  }

  lemma {:induction false} ShapeRefl(t: Tree)
    ensures SameShape(t, t)
  {
    if t.Node? {
      ShapeRefl(t.left);
      ShapeRefl(t.right);
    }
  }

  lemma {:induction false} ShapeDecides(a: Tree, b: Tree)
    requires SameShape(a, b)
    ensures Keys(a) == Keys(b) && (Searchable(a) <==> Searchable(b)) && (Distinct(a) <==> Distinct(b)) && forall x :: Find(a, x) == Find(b, x)
  {
    if a.Node? {
      ShapeDecides(a.left, b.left);
      ShapeDecides(a.right, b.right);
    }
  }

  lemma {:induction false} PlugShape(path: seq<Frame>, a: Tree, b: Tree)
    requires SameShape(a, b)
    ensures SameShape(Plug(path, a), Plug(path, b))
  {
    if path != [] {
      PlugShape(path[1..], a, b);
      ShapeRefl(path[0].other);
    }
  }

  lemma {:induction false} PlugReds(path: seq<Frame>, t: Tree)
    ensures Reds(Plug(path, t)) == Reds(Plug(path, Nil)) + Reds(t)
  {
    if path != [] { PlugReds(path[1..], t); }
  }

  lemma {:induction false} PlugKeys(path: seq<Frame>, t: Tree)
    ensures Keys(Plug(path, t)) == Keys(Plug(path, Nil)) + Keys(t)
  {
    if path != [] { PlugKeys(path[1..], t); }
  }

  /** The painted tree has the shape of the grown one and fewer red nodes. */
  lemma {:induction false} AgainFacts(t: Tree, k: Int32)
    requires StepOf(t, k).Again?
    ensures var s := StepOf(t, k); var u := Grown(t, k);
            SameShape(u, s.t) && s.k in Keys(u) && Reds(s.t) < Reds(u)
  {
    SpotGrown(t, k);
    var path, node := Spot(t, k).path, Spot(t, k).node;
    var n := |path|;
    var rest, g, f := path[..n - 2], path[n - 2], path[n - 1];
    var was, now := Up(g, Up(f, node)), Swapped(g, f, node);
    PlugTwo(path, node);
    hide Plug;
    assert SameShape(was, now) by {
      ShapeRefl(node);
      ShapeRefl(f.other);
      ShapeRefl(g.other.left);
      ShapeRefl(g.other.right);
    }
    PlugShape(rest, was, now);
    PlugReds(rest, was);
    PlugReds(rest, now);
    PlugKeys(rest, was);
    assert g.key in Keys(was);
  }

  lemma {:induction false} AgainSmaller(t: Tree, k: Int32)
    requires StepOf(t, k).Again?
    ensures var s := StepOf(t, k);
            && s.k in Keys(s.t)
            && (k in Keys(t) ==> Missing(s.t) <= Missing(t))
            && (k in Missing(t) ==> |Missing(s.t)| < |Missing(t)|)
            && (k in Keys(t) ==> |Missing(s.t)| <= |Missing(t)|)
            && (k in Keys(t) && k !in Missing(t) ==> Reds(s.t) < Reds(t))
  {
    var s, u := StepOf(t, k), Grown(t, k);
    AgainFacts(t, k);
    ShapeDecides(u, s.t);
    GrownKeys(t, k);
    hide StepOf;
    hide Keys;
    hide Find;
    forall x ensures Find(s.t, x) <==> Find(t, x) || x == k { GrownFinds(t, k, x); }
    assert Missing(s.t) == Missing(t) - {k};
    SubsetSize(Missing(s.t), Missing(t));
    if k in Keys(t) && Find(t, k) { GrownSame(t, k); }
  }

  /** rbt_add. */
  function Add(t: Tree, k: Int32): Tree
    decreases if k in Keys(t) then 0 else 1, |Missing(t)|, Reds(t)
  {
    var s := StepOf(t, k);
    match s
    case Done(made) => made
    case Again(made, again) => AgainSmaller(t, k); Add(made, again)
    case Turn(rest, g, f, node) => SpotGrown(t, k); Plug(rest, Turned(g, f, node))
  }

  // ---------------------------------------------------------------------
  // What an insertion keeps

  /** Nothing but the key is added, and nothing goes, whatever the tree looks like. */
  lemma {:induction false} AddKeys(t: Tree, k: Int32)
    ensures Keys(Add(t, k)) == Keys(t) + {k}
    decreases if k in Keys(t) then 0 else 1, |Missing(t)|, Reds(t)
  {
    GrownKeys(t, k);
    match StepOf(t, k)
    case Done(made) =>
      SpotGrown(t, k);
      DoneShape(t, k);
      ShapeDecides(Grown(t, k), made);
    case Again(made, again) =>
      AgainFacts(t, k);
      ShapeDecides(Grown(t, k), made);
      AgainSmaller(t, k);
      AddKeys(made, again);
    case Turn(rest, g, f, node) =>
      TurnPlace(t, k);
      PlugKeys(rest, Up(g, Up(f, node)));
      PlugKeys(rest, Turned(g, f, node));
      TurnedKeys(g, f, node);
  }

  lemma {:induction false} DoneShape(t: Tree, k: Int32)
    requires StepOf(t, k).Done?
    ensures SameShape(Grown(t, k), StepOf(t, k).t)
  {
    SpotGrown(t, k);
    ShapeRefl(Grown(t, k));
  }

  /** A turn starts from the grown tree. */
  lemma {:induction false} TurnPlace(t: Tree, k: Int32)
    requires StepOf(t, k).Turn?
    ensures var s := StepOf(t, k);
            s.node.Node? && s.node.key == k && Plug(s.rest, Up(s.g, Up(s.f, s.node))) == Grown(t, k)
  {
    SpotGrown(t, k);
    PlugTwo(Spot(t, k).path, Spot(t, k).node);
  }

  lemma {:induction false} TurnedKeys(g: Frame, f: Frame, node: Tree)
    requires node.Node?
    ensures Keys(Turned(g, f, node)) == Keys(Up(g, Up(f, node)))
    ensures Keys(Up(g, Up(f, node))) == Keys(node) + {f.key} + Keys(f.other) + {g.key} + Keys(g.other)
  {
    var made := Turned(g, f, node);
    assert Keys(made.left) == if made.left.Nil? then {} else Keys(made.left.left) + {made.left.key} + Keys(made.left.right);
    assert Keys(made.right) == if made.right.Nil? then {} else Keys(made.right.left) + {made.right.key} + Keys(made.right.right);
    assert Keys(Up(f, node)) == Keys(node) + {f.key} + Keys(f.other);
  }

  /** The key that a turn lifts over its grandparent compares with what comes below it as the sides
      say. */
  ghost predicate LiftSafe(g: Frame, f: Frame, node: Tree)
    requires node.Node?
  {
    var near, far := {f.key} + Keys(f.other), {g.key} + Keys(g.other);
    if g.goesLeft == f.goesLeft then
      if g.goesLeft then Sides({}, f.key, far) else Sides(far, f.key, {})
    else
      if g.goesLeft then Sides(near, node.key, far) else Sides(far, node.key, near)
  }

  /** The turn at the end of an insertion, if there is one, is safe. */
  ghost predicate Safe(t: Tree, k: Int32)
    decreases if k in Keys(t) then 0 else 1, |Missing(t)|, Reds(t)
  {
    var s := StepOf(t, k);
    match s
    case Done(_) => true
    case Again(made, again) => AgainSmaller(t, k); Safe(made, again)
    case Turn(rest, g, f, node) => SpotGrown(t, k); LiftSafe(g, f, node)
  }

  lemma {:induction false} TurnedSearchable(g: Frame, f: Frame, node: Tree)
    requires node.Node? && Searchable(Up(g, Up(f, node)))
    ensures Searchable(Turned(g, f, node)) <==> LiftSafe(g, f, node)
  {
    if g.goesLeft == f.goesLeft { OnceSearchable(g, f, node); } else { TwiceSearchable(g, f, node); }
  }

  lemma {:induction false} OnceSearchable(g: Frame, f: Frame, node: Tree)
    requires node.Node? && g.goesLeft == f.goesLeft && Searchable(Up(g, Up(f, node)))
    ensures Searchable(Turned(g, f, node)) <==> LiftSafe(g, f, node)
  {
    hide CmpInt;
    var made := Turned(g, f, node);
    var low := if g.goesLeft then made.right else made.left;
    assert Searchable(Up(f, node));
    assert Keys(Up(f, node)) == Keys(node) + {f.key} + Keys(f.other);
    assert Keys(low) == {g.key} + Keys(f.other) + Keys(g.other);
    assert Searchable(low);
  }

  lemma {:induction false} TwiceSearchable(g: Frame, f: Frame, node: Tree)
    requires node.Node? && g.goesLeft != f.goesLeft && Searchable(Up(g, Up(f, node)))
    ensures Searchable(Turned(g, f, node)) <==> LiftSafe(g, f, node)
  {
    hide CmpInt;
    var made := Turned(g, f, node);
    assert Searchable(Up(f, node)) && Searchable(node);
    assert Keys(Up(f, node)) == Keys(node) + {f.key} + Keys(f.other);
    assert Keys(node) == Keys(node.left) + {node.key} + Keys(node.right);
    assert Keys(made.left) == Keys(made.left.left) + {made.left.key} + Keys(made.left.right);
    assert Keys(made.right) == Keys(made.right.left) + {made.right.key} + Keys(made.right.right);
    assert Searchable(made.left) && Searchable(made.right);
  }

  /** A subtree with the same keys can take the place of another. */
  lemma {:induction false} PlugSearchable(path: seq<Frame>, a: Tree, b: Tree)
    requires Searchable(Plug(path, a)) && Keys(a) == Keys(b)
    ensures Searchable(a) && (Searchable(Plug(path, b)) <==> Searchable(b))
  {
    if path != [] {
      PlugSearchable(path[1..], a, b);
      PlugKeys(path[1..], a);
      PlugKeys(path[1..], b);
    }
  }

  /** An insertion keeps every key in reach exactly when it is safe. */
  lemma {:induction false} AddSearchable(t: Tree, k: Int32)
    requires Searchable(t)
    ensures Searchable(Add(t, k)) <==> Safe(t, k)
    decreases if k in Keys(t) then 0 else 1, |Missing(t)|, Reds(t)
  {
    GrownSearchable(t, k);
    match StepOf(t, k)
    case Done(made) =>
      DoneShape(t, k);
      ShapeDecides(Grown(t, k), made);
    case Again(made, again) =>
      AgainFacts(t, k);
      ShapeDecides(Grown(t, k), made);
      AgainSmaller(t, k);
      AddSearchable(made, again);
    case Turn(rest, g, f, node) =>
      TurnPlace(t, k);
      TurnedKeys(g, f, node);
      PlugSearchable(rest, Up(g, Up(f, node)), Turned(g, f, node));
      TurnedSearchable(g, f, node);
  }

  lemma {:induction false} PlugDistinct(path: seq<Frame>, a: Tree, b: Tree)
    requires Distinct(Plug(path, a)) && Keys(a) == Keys(b)
    ensures Distinct(a) && (Distinct(b) ==> Distinct(Plug(path, b)))
  {
    if path != [] {
      PlugDistinct(path[1..], a, b);
      PlugKeys(path[1..], a);
      PlugKeys(path[1..], b);
    }
  }

  lemma {:induction false} TurnedDistinct(g: Frame, f: Frame, node: Tree)
    requires node.Node? && Distinct(Up(g, Up(f, node)))
    ensures Distinct(Turned(g, f, node))
  {
    var made := Turned(g, f, node);
    assert Distinct(Up(f, node)) && Distinct(node);
    assert Keys(Up(f, node)) == Keys(node) + {f.key} + Keys(f.other);
    assert Keys(node) == Keys(node.left) + {node.key} + Keys(node.right);
    assert Keys(made.left) == if made.left.Nil? then {} else Keys(made.left.left) + {made.left.key} + Keys(made.left.right);
    assert Keys(made.right) == if made.right.Nil? then {} else Keys(made.right.left) + {made.right.key} + Keys(made.right.right);
    assert Distinct(made.left) && Distinct(made.right);
  }

  /** An insertion into a searchable tree makes no second copy of a key. */
  lemma {:induction false} AddDistinct(t: Tree, k: Int32)
    requires Searchable(t)
    ensures Distinct(Add(t, k))
    decreases if k in Keys(t) then 0 else 1, |Missing(t)|, Reds(t)
  {
    GrownSearchable(t, k);
    SearchableIffFound(Grown(t, k));
    match StepOf(t, k)
    case Done(made) =>
      DoneShape(t, k);
      ShapeDecides(Grown(t, k), made);
    case Again(made, again) =>
      AgainFacts(t, k);
      ShapeDecides(Grown(t, k), made);
      AgainSmaller(t, k);
      AddDistinct(made, again);
    case Turn(rest, g, f, node) =>
      TurnPlace(t, k);
      TurnedKeys(g, f, node);
      PlugDistinct(rest, Up(g, Up(f, node)), Turned(g, f, node));
      TurnedDistinct(g, f, node);
  }

  // ---------------------------------------------------------------------
  // Keys the comparator can order

  predicate Before(a: Int32, b: Int32) {
    CmpInt(a, b) < 0
  }

  /** On these keys the comparator is a strict total order. */
  ghost predicate Orderly(s: set<Int32>) {
    && (forall x, y :: x in s && y in s && x != y ==> (Before(x, y) <==> !Before(y, x)))
    && (forall x, y, z :: x in s && y in s && z in s && Before(x, y) && Before(y, z) ==> Before(x, z))
  }

  lemma {:induction false} OrderlySubset(a: set<Int32>, b: set<Int32>)
    requires Orderly(b) && a <= b
    ensures Orderly(a)
  {
    hide Before;
  }

  predicate Close(a: Int32, b: Int32) {
    -INT_LIMIT < a - b < INT_LIMIT
  }

  /** Keys pairwise less than 2^31 apart are ordered as integers. */
  lemma {:induction false} CloseIsOrderly(s: set<Int32>)
    requires forall x, y :: x in s && y in s ==> Close(x, y)
    ensures Orderly(s)
  {
    assert forall x, y :: x in s && y in s ==> (Before(x, y) <==> x < y);
  }

  /** So are some that are further apart, in an order of their own: here the larger comes first. */
  lemma {:induction false} FarPairOrderly()
    ensures Orderly({-1500000000, 1600000000}) && Before(1600000000, -1500000000) && !Close(-1500000000, 1600000000)
  {
    assert CmpInt(-1500000000, 1600000000) == 1194967296 && CmpInt(1600000000, -1500000000) == -1194967296;
  }

  /** A key on one side of a node is on that side of everything on the other side of the node. */
  lemma {:induction false} Lifted(all: set<Int32>, k: Int32, others: set<Int32>, top: Int32, left: bool)
    requires Orderly(all) && k in all && top in all && others <= all
    requires if left then Sides({top}, k, others) else Sides(others, k, {top})
    ensures if left then Sides({}, top, {k} + others) else Sides({k} + others, top, {})
  {
    hide CmpInt;
    assert CmpInt(k, top) != 0 && (left ==> Before(top, k)) && (!left ==> Before(k, top));
    forall x | x in others ensures if left then Before(top, x) else Before(x, top) && x != top {
      assert if left then Before(k, x) else Before(x, k);
    }
  }

  lemma {:induction false} OrderlyLift(g: Frame, f: Frame, node: Tree)
    requires node.Node? && Searchable(Up(g, Up(f, node))) && Orderly(Keys(Up(g, Up(f, node))))
    ensures LiftSafe(g, f, node)
  {
    TurnedKeys(g, f, node);
    hide CmpInt;
    var all := Keys(Up(g, Up(f, node)));
    var top := if g.goesLeft == f.goesLeft then f.key else node.key;
    assert Keys(Up(f, node)) == Keys(node) + {f.key} + Keys(f.other);
    assert node.key in Keys(node) && top in Keys(Up(f, node));
    Lifted(all, g.key, Keys(g.other), top, g.goesLeft);
    if g.goesLeft != f.goesLeft { Lifted(all, f.key, Keys(f.other), top, f.goesLeft); }
  }

  lemma {:induction false} OrderlyTurn(t: Tree, k: Int32)
    requires Searchable(t) && Orderly(Keys(t) + {k}) && StepOf(t, k).Turn?
    ensures Safe(t, k)
  {
    GrownSearchable(t, k);
    GrownKeys(t, k);
    TurnPlace(t, k);
    var s := StepOf(t, k);
    var turned := Up(s.g, Up(s.f, s.node));
    hide Searchable;
    hide Keys;
    hide Orderly;
    PlugKeys(s.rest, turned);
    PlugSearchable(s.rest, turned, turned);
    OrderlySubset(Keys(turned), Keys(t) + {k});
    OrderlyLift(s.g, s.f, s.node);
  }

  lemma {:induction false} OrderlySafe(t: Tree, k: Int32)
    requires Searchable(t) && Orderly(Keys(t) + {k})
    ensures Safe(t, k)
    decreases if k in Keys(t) then 0 else 1, |Missing(t)|, Reds(t)
  {
    match StepOf(t, k)
    case Done(_) =>
    case Again(made, again) =>
      GrownSearchable(t, k);
      GrownKeys(t, k);
      AgainFacts(t, k);
      ShapeDecides(Grown(t, k), made);
      AgainSmaller(t, k);
      assert Keys(made) + {again} == Keys(t) + {k};
      OrderlySafe(made, again);
    case Turn(_, _, _, _) => OrderlyTurn(t, k);
  }
}
