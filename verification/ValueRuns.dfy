/**
  Whole runs of the indexer on the tree of one name: look a value up, add it when it is
  not found. Which sequences of values are always found again, and one that is not.
 */
module ValueRuns {
  import opened BinFile
  import opened ValueTree
  import opened ValueBalance

  /** A value is added when it is not found. */
  function Put(t: Tree, k: Int32): Tree {
    if Find(t, k) then t else Add(t, k)
  }

  /** The tree after a sequence of values. */
  function TreeOf(ks: seq<Int32>): Tree {
    if ks == [] then Nil else Put(TreeOf(ks[..|ks| - 1]), ks[|ks| - 1])
  }

  function Values(ks: seq<Int32>): set<Int32> {
    set k | k in ks
  }

  lemma {:induction false} TreeOfMore(ks: seq<Int32>, k: Int32)
    ensures TreeOf(ks + [k]) == Put(TreeOf(ks), k)
  {
    assert (ks + [k])[..|ks|] == ks;
  }

  lemma {:induction false} TreeOfNext(ks: seq<Int32>, n: nat)
    requires n < |ks|
    ensures TreeOf(ks[..n + 1]) == Put(TreeOf(ks[..n]), ks[n])
  {
    assert ks[..n] + [ks[n]] == ks[..n + 1];
    TreeOfMore(ks[..n], ks[n]);
  }

  /** Every turn on the way is safe. */
  ghost predicate SafeRun(ks: seq<Int32>) {
    ks != [] ==>
      var n := |ks| - 1;
      SafeRun(ks[..n]) && (Find(TreeOf(ks[..n]), ks[n]) || Safe(TreeOf(ks[..n]), ks[n]))
  }

  /** At every point of the run every value so far is found. */
  ghost predicate FoundThroughout(ks: seq<Int32>) {
    forall n, j :: 0 <= j < n <= |ks| ==> Find(TreeOf(ks[..n]), ks[j])
  }

  lemma {:induction false} TreeOfKeys(ks: seq<Int32>)
    ensures Keys(TreeOf(ks)) == Values(ks)
  {
    if ks != [] {
      var n := |ks| - 1;
      TreeOfKeys(ks[..n]);
      var t := TreeOf(ks[..n]);
      assert ks == ks[..n] + [ks[n]];
      AddKeys(t, ks[n]);
      if Find(t, ks[n]) { FoundIsThere(t, ks[n]); }
    }
  }

  /** A safe run leaves a red-black search tree over its values. */
  lemma {:induction false} SafeRunTree(ks: seq<Int32>)
    requires SafeRun(ks)
    ensures Searchable(TreeOf(ks)) && RedBlack(TreeOf(ks))
    ensures forall k :: Find(TreeOf(ks), k) <==> k in ks
  {
    if ks != [] {
      var n := |ks| - 1;
      SafeRunTree(ks[..n]);
      AddSearchable(TreeOf(ks[..n]), ks[n]);
      AddRedBlack(TreeOf(ks[..n]), ks[n]);
    }
    TreeOfKeys(ks);
    hide TreeOf;
    forall k ensures Find(TreeOf(ks), k) <==> k in ks {
      if k in ks { SearchableFinds(TreeOf(ks), k); }
      if Find(TreeOf(ks), k) { FoundIsThere(TreeOf(ks), k); }
    }
  }

  lemma {:induction false} SafeRunPrefix(ks: seq<Int32>, n: nat)
    requires SafeRun(ks) && n <= |ks|
    ensures SafeRun(ks[..n])
  {
    if n == |ks| {
      assert ks[..n] == ks;
    } else {
      var m := |ks| - 1;
      SafeRunPrefix(ks[..m], n);
      assert ks[..m][..n] == ks[..n];
    }
  }

  /** The values of a run are found throughout exactly when every turn is safe. */
  lemma {:induction false} SafeRunExact(ks: seq<Int32>)
    ensures SafeRun(ks) <==> FoundThroughout(ks)
  {
    if ks != [] {
      var n := |ks| - 1;
      SafeRunExact(ks[..n]);
      ThroughoutStep(ks);
      if SafeRun(ks) { SafeRunTree(ks); }
      if FoundThroughout(ks) {
        SafeRunTree(ks[..n]);
        LastFoundSafe(ks);
      }
    }
  }

  lemma {:induction false} ThroughoutStep(ks: seq<Int32>)
    requires ks != []
    ensures FoundThroughout(ks) <==> FoundThroughout(ks[..|ks| - 1]) && forall j :: 0 <= j < |ks| ==> Find(TreeOf(ks), ks[j])
  {
    var m := |ks| - 1;
    hide TreeOf;
    hide Find;
    assert ks[..|ks|] == ks;
    assert forall n :: 0 <= n <= m ==> ks[..m][..n] == ks[..n];
    assert forall j :: 0 <= j < m ==> ks[..m][j] == ks[j];
    if FoundThroughout(ks[..m]) && forall j :: 0 <= j < |ks| ==> Find(TreeOf(ks), ks[j]) {
      forall n, j | 0 <= j < n <= |ks| ensures Find(TreeOf(ks[..n]), ks[j]) {
        if n <= m { assert Find(TreeOf(ks[..m][..n]), ks[..m][j]); }
      }
    }
    if FoundThroughout(ks) {
      forall n, j | 0 <= j < n <= m ensures Find(TreeOf(ks[..m][..n]), ks[..m][j]) {
        assert Find(TreeOf(ks[..n]), ks[j]);
      }
      forall j | 0 <= j < |ks| ensures Find(TreeOf(ks), ks[j]) {
        assert Find(TreeOf(ks[..|ks|]), ks[j]);
      }
    }
  }

  /** A turn that leaves all values in reach was safe. */
  lemma {:induction false} LastFoundSafe(ks: seq<Int32>)
    requires ks != [] && SafeRun(ks[..|ks| - 1])
    requires forall j :: 0 <= j < |ks| ==> Find(TreeOf(ks), ks[j])
    ensures SafeRun(ks)
  {
    var n := |ks| - 1;
    var t := TreeOf(ks[..n]);
    SafeRunTree(ks[..n]);
    if !Find(t, ks[n]) {
      assert AllFound(Add(t, ks[n])) by { TreeOfKeys(ks); }
      AddDistinct(t, ks[n]);
      SearchableIffFound(Add(t, ks[n]));
      AddSearchable(t, ks[n]);
    }
  }

  /** Values on which the comparator is an order are always found again, in whatever sequence they
      come; values pairwise less than 2^31 apart are such. */
  lemma {:induction false} OrderlyRun(ks: seq<Int32>)
    requires Orderly(Values(ks))
    ensures SafeRun(ks)
  {
    if ks != [] {
      var n := |ks| - 1;
      assert ks == ks[..n] + [ks[n]];
      assert Values(ks[..n]) + {ks[n]} == Values(ks);
      hide Values;
      hide Orderly;
      OrderlySubset(Values(ks[..n]), Values(ks));
      OrderlyRun(ks[..n]);
      SafeRunTree(ks[..n]);
      TreeOfKeys(ks[..n]);
      OrderlySafe(TreeOf(ks[..n]), ks[n]);
    }
  }

  // ---------------------------------------------------------------------
  // A value that gets lost

  /** The tree after each of eight values, the lowest of which ends up on the wrong side of the root:
      the search for it turns right, where the difference to 1600000000 wraps around. */
  function Stage(n: nat): Tree {
    match n
    case 0 => Nil
    case 1 => Node(Black, Nil, 0, Nil)
    case 2 => Node(Black, Node(Red, Nil, -1500000000, Nil), 0, Nil)
    case 3 => Node(Black, Node(Red, Nil, -1500000000, Nil), 0, Node(Red, Nil, 1500000000, Nil))
    case 4 => Node(Black, Node(Black, Nil, -1500000000, Nil), 0, Node(Black, Nil, 1500000000, Node(Red, Nil, 1600000000, Nil)))
    case 5 => Node(Black, Node(Black, Nil, -1500000000, Nil), 0,
                   Node(Black, Node(Red, Nil, 1500000000, Nil), 1600000000, Node(Red, Nil, 1700000000, Nil)))
    case 6 => Node(Black, Node(Black, Nil, -1500000000, Nil), 0,
                   Node(Red, Node(Black, Nil, 1500000000, Nil), 1600000000,
                        Node(Black, Nil, 1700000000, Node(Red, Nil, 1800000000, Nil))))
    case 7 => Node(Black, Node(Black, Nil, -1500000000, Nil), 0,
                   Node(Red, Node(Black, Nil, 1500000000, Nil), 1600000000,
                        Node(Black, Node(Red, Nil, 1700000000, Nil), 1800000000, Node(Red, Nil, 1900000000, Nil))))
    case _ => Node(Black, Node(Red, Node(Black, Nil, -1500000000, Nil), 0, Node(Black, Nil, 1500000000, Nil)), 1600000000,
                   Node(Red, Node(Black, Nil, 1700000000, Nil), 1800000000,
                        Node(Black, Nil, 1900000000, Node(Red, Nil, 2000000000, Nil))))
  }

  lemma {:induction false} AddUnderBlack(t: Tree, k: Int32, rest: seq<Frame>, f: Frame, node: Tree)
    requires t.Node? && Spot(t, k) == Site(rest + [f], node) && IsRed(node) && f.color.Black?
    ensures Add(t, k) == Plug(rest, Up(f, node))
  {
    hide Spot;
    PlugLast(rest + [f], node);
  }

  lemma {:induction false} AddByPaint(t: Tree, k: Int32, rest: seq<Frame>, g: Frame, f: Frame, node: Tree)
    requires t.Node? && Spot(t, k) == Site(rest + [g, f], node) && IsRed(node) && f.color.Red? && IsRed(g.other)
    ensures Add(t, k) == Add(Plug(rest, Swapped(g, f, node)), g.key)
  {
    hide Spot;
    assert (rest + [g, f])[..|rest|] == rest;
  }

  lemma {:induction false} AddByTurn(t: Tree, k: Int32, rest: seq<Frame>, g: Frame, f: Frame, node: Tree)
    requires t.Node? && Spot(t, k) == Site(rest + [g, f], node) && IsRed(node) && f.color.Red? && !IsRed(g.other)
    ensures Add(t, k) == Plug(rest, Turned(g, f, node))
  {
    hide Spot;
    assert (rest + [g, f])[..|rest|] == rest;
  }

  lemma {:induction false} AddRedRoot(t: Tree)
    requires IsRed(t)
    ensures Add(t, t.key) == Painted(t)
  {
  }

  /** The way down the right edge. */
  function RightEdge(t: Tree): seq<Frame> {
    if t.Nil? then [] else [Frame(false, t.color, t.key, t.left)] + RightEdge(t.right)
  }

  /** A key that every node on the right edge sends to the right. */
  predicate GoesRight(t: Tree, k: Int32) {
    t.Node? ==> CmpInt(t.key, k) < 0 && GoesRight(t.right, k)
  }

  lemma {:induction false} SpotAtEnd(t: Tree, k: Int32)
    requires GoesRight(t, k)
    ensures Spot(t, k) == Site(RightEdge(t), Node(Red, Nil, k, Nil)) && !Find(t, k)
  {
    if t.Node? { SpotAtEnd(t.right, k); }
  }

  lemma {:induction false} SpotBelow(path: seq<Frame>, node: Tree)
    requires node.Node? && forall i :: 0 <= i < |path| ==> !path[i].goesLeft && CmpInt(path[i].key, node.key) < 0
    ensures Spot(Plug(path, node), node.key) == Site([] + path, node)
  {
    if path != [] {
      SpotBelow(path[1..], node);
      assert path == [path[0]] + path[1..];
    }
  }

  lemma {:induction false} FirstStages()
    ensures Put(Stage(0), 0) == Stage(1) && Put(Stage(1), -1500000000) == Stage(2) && Put(Stage(2), 1500000000) == Stage(3)
  {
  }

  lemma {:induction false} FourthStage()
    ensures Put(Stage(3), 1600000000) == Stage(4)
  {
    hide Add;
    hide Spot;
    hide Find;
    var k, t := 1600000000, Stage(3);
    SpotAtEnd(t, k);
    var g, f := Frame(false, Black, 0, t.left), Frame(false, Red, 1500000000, Nil);
    assert RightEdge(t) == [] + [g, f];
    AddByPaint(t, k, [], g, f, Node(Red, Nil, k, Nil));
    AddRedRoot(Swapped(g, f, Node(Red, Nil, k, Nil)));
  }

  lemma {:induction false} FifthStage()
    ensures Put(Stage(4), 1700000000) == Stage(5)
  {
    hide Add;
    hide Spot;
    hide Find;
    var k, t := 1700000000, Stage(4);
    SpotAtEnd(t, k);
    var r, g, f := Frame(false, Black, 0, t.left), Frame(false, Black, 1500000000, Nil), Frame(false, Red, 1600000000, Nil);
    assert RightEdge(t) == [r] + [g, f];
    AddByTurn(t, k, [r], g, f, Node(Red, Nil, k, Nil));
  }

  lemma {:induction false} SixthPaint()
    ensures !Find(Stage(5), 1800000000)
    ensures Add(Stage(5), 1800000000) == Add(Stage(6), 1600000000)
  {
    hide Add;
    hide Spot;
    hide Find;
    var k, t := 1800000000, Stage(5);
    SpotAtEnd(t, k);
    var r, g, f := Frame(false, Black, 0, t.left), Frame(false, Black, 1600000000, t.right.left), Frame(false, Red, 1700000000, Nil);
    assert RightEdge(t) == [r] + [g, f];
    AddByPaint(t, k, [r], g, f, Node(Red, Nil, k, Nil));
  }

  lemma {:induction false} SixthStage()
    ensures Put(Stage(5), 1800000000) == Stage(6)
  {
    hide Add;
    hide Spot;
    hide Find;
    SixthPaint();
    var t := Stage(6);
    var r := Frame(false, Black, 0, t.left);
    SpotBelow([r], t.right);
    AddUnderBlack(t, 1600000000, [], r, t.right);
  }

  lemma {:induction false} SeventhStage()
    ensures Put(Stage(6), 1900000000) == Stage(7)
  {
    hide Add;
    hide Spot;
    hide Find;
    var k, t := 1900000000, Stage(6);
    SpotAtEnd(t, k);
    var r, q := Frame(false, Black, 0, t.left), Frame(false, Red, 1600000000, t.right.left);
    var g, f := Frame(false, Black, 1700000000, Nil), Frame(false, Red, 1800000000, Nil);
    assert RightEdge(t) == [r, q] + [g, f];
    AddByTurn(t, k, [r, q], g, f, Node(Red, Nil, k, Nil));
    PlugPair(r, q, Turned(g, f, Node(Red, Nil, k, Nil)));
  }

  lemma {:induction false} PlugPair(r: Frame, q: Frame, t: Tree)
    ensures Plug([r, q], t) == Up(r, Up(q, t))
  {
    PlugTwo([r, q], t);
  }

  /** Painting makes 1800000000 red below 1600000000. */
  function Painting(): Tree {
    Node(Black, Node(Black, Nil, -1500000000, Nil), 0,
         Node(Red, Node(Black, Nil, 1500000000, Nil), 1600000000,
              Node(Red, Node(Black, Nil, 1700000000, Nil), 1800000000,
                   Node(Black, Nil, 1900000000, Node(Red, Nil, 2000000000, Nil)))))
  }

  lemma {:induction false} EighthPaint()
    ensures !Find(Stage(7), 2000000000) && Add(Stage(7), 2000000000) == Add(Painting(), 1800000000)
  {
    hide Add;
    hide Spot;
    hide Find;
    var k, t := 2000000000, Stage(7);
    SpotAtEnd(t, k);
    var r, q := Frame(false, Black, 0, t.left), Frame(false, Red, 1600000000, t.right.left);
    var g, f := Frame(false, Black, 1800000000, t.right.right.left), Frame(false, Red, 1900000000, Nil);
    assert RightEdge(t) == [r, q] + [g, f];
    AddByPaint(t, k, [r, q], g, f, Node(Red, Nil, k, Nil));
    PlugPair(r, q, Swapped(g, f, Node(Red, Nil, k, Nil)));
  }

  /** Adding it again turns the tree around 1600000000. */
  lemma {:induction false} EighthStage()
    ensures Put(Stage(7), 2000000000) == Stage(8)
  {
    hide Add;
    hide Spot;
    hide Find;
    EighthPaint();
    var t := Painting();
    var r, q, node := Frame(false, Black, 0, t.left), Frame(false, Red, 1600000000, t.right.left), t.right.right;
    PlugPair(r, q, node);
    SpotBelow([r, q], node);
    AddByTurn(t, node.key, [], r, q, node);
  }

  const LOST_RUN: seq<Int32> :=
    [0, -1500000000, 1500000000, 1600000000, 1700000000, 1800000000, 1900000000, 2000000000]

  lemma {:induction false} NextStage(n: nat)
    requires n < 8
    ensures Put(Stage(n), LOST_RUN[n]) == Stage(n + 1)
  {
    hide Put;
    FirstStages();
    FourthStage();
    FifthStage();
    SixthStage();
    SeventhStage();
    EighthStage();
    hide Stage;
  }

  lemma {:induction false} StageReached(n: nat)
    requires n <= 8
    ensures TreeOf(LOST_RUN[..n]) == Stage(n)
  {
    if n > 0 {
      StageReached(n - 1);
      NextStage(n - 1);
      TreeOfNext(LOST_RUN, n - 1);
      hide *;
    }
  }

  lemma {:induction false} LostInStage()
    ensures !Find(Stage(8), -1500000000)
  {
  }

  /** Eight values, added in this order, of which the second is in the tree and is not found. */
  lemma {:induction false} LostValue()
    ensures var t := TreeOf(LOST_RUN); -1500000000 in Keys(t) && !Find(t, -1500000000)
    ensures !SafeRun(LOST_RUN)
  {
    StageReached(8);
    TreeOfKeys(LOST_RUN);
    LostInStage();
    assert LOST_RUN[..8] == LOST_RUN;
    assert LOST_RUN[1] == -1500000000;
    hide Stage;
    hide TreeOf;
    hide Find;
    hide Keys;
    if SafeRun(LOST_RUN) { SafeRunTree(LOST_RUN); }
  }
}
