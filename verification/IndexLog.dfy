/**
  What a metadata index should answer: for every log of attributes, the (file, object)
  strings of each occurrence of a value under a name, in the order of indexing; and
  how a shard of interned paths and position pairs represents those answers.
 */
module IndexLog {
  import opened BinFile
  import opened ValueTree
  import opened ValueRuns
  import opened MdbFormat

  /** One attribute of one object: all its values are of one kind. */
  datatype Attribute = Attribute(name: Text, kind: Kind, values: seq<Value>, file: Text, obj: Text)

  datatype Hit = Hit(file: Text, obj: Text)

  predicate AttributeOK(a: Attribute) {
    (a.kind.Ints? || a.kind.Texts?) && forall i :: 0 <= i < |a.values| ==> KindFits(a.kind, a.values[i])
  }

  /** Without a list of fields every attribute is indexed. */
  predicate Indexed(fields: seq<Text>, name: Text) {
    fields == [] || name in fields
  }

  /** One hit for each occurrence of the value. */
  function HitsIn(values: seq<Value>, v: Value, hit: Hit): seq<Hit> {
    if values == [] then [] else
    HitsIn(values[..|values| - 1], v, hit) + (if values[|values| - 1] == v then [hit] else [])
  }

  function HitsOf(a: Attribute, fields: seq<Text>, name: Text, v: Value): seq<Hit> {
    if a.name == name && Indexed(fields, name) then HitsIn(a.values, v, Hit(a.file, a.obj)) else []
  }

  /** The answer the log asks for. */
  function Hits(log: seq<Attribute>, fields: seq<Text>, name: Text, v: Value): seq<Hit> {
    if log == [] then [] else
    Hits(log[..|log| - 1], fields, name, v) + HitsOf(log[|log| - 1], fields, name, v)
  }

  /** A list of fields takes the answers of all other names away and changes no answer of its own. */
  lemma {:induction false} FieldsFilter(log: seq<Attribute>, fields: seq<Text>, name: Text, v: Value)
    ensures Hits(log, fields, name, v) == if fields == [] || name in fields then Hits(log, [], name, v) else []
  {
    if log != [] { FieldsFilter(log[..|log| - 1], fields, name, v); }
  }

  // ---------------------------------------------------------------------
  // What the program can answer

  /** The name has a tree of its own: only an integer attribute ever opens one. */
  predicate Opened(log: seq<Attribute>, fields: seq<Text>, name: Text) {
    Indexed(fields, name) && exists k :: 0 <= k < |log| && log[k].name == name && log[k].kind.Ints?
  }

  /** The hits of an attribute that end up in a tree. */
  function KeptOf(a: Attribute, fields: seq<Text>, name: Text, v: Value, open: bool): seq<Hit> {
    if a.kind.Ints? || open then HitsOf(a, fields, name, v) else []
  }

  /** The hits of the log that a search can find: strings count from the first integer attribute of
      their name on. */
  function Findable(log: seq<Attribute>, fields: seq<Text>, name: Text, v: Value): seq<Hit> {
    if log == [] then [] else
    var before := log[..|log| - 1];
    Findable(before, fields, name, v) + KeptOf(log[|log| - 1], fields, name, v, Opened(before, fields, name))
  }

  /** No occurrence of the value comes before its name is opened. */
  ghost predicate NoneLost(log: seq<Attribute>, fields: seq<Text>, name: Text, v: Value) {
    forall k :: 0 <= k < |log| && HitsOf(log[k], fields, name, v) != [] ==>
      log[k].kind.Ints? || Opened(log[..k], fields, name)
  }

  /** Whether a listed name loses anything does not depend on the list. */
  lemma {:induction false} SameLosses(log: seq<Attribute>, fields: seq<Text>, name: Text, v: Value)
    requires fields == [] || name in fields
    ensures NoneLost(log, fields, name, v) <==> NoneLost(log, [], name, v)
  {
    forall k | 0 <= k < |log|
      ensures HitsOf(log[k], fields, name, v) == HitsOf(log[k], [], name, v)
      ensures Opened(log[..k], fields, name) <==> Opened(log[..k], [], name)
    {
    }
  }

  /** All occurrences can be found exactly when none is lost. */
  lemma {:induction false} FindableIffNoneLost(log: seq<Attribute>, fields: seq<Text>, name: Text, v: Value)
    ensures |Findable(log, fields, name, v)| <= |Hits(log, fields, name, v)|
    ensures Findable(log, fields, name, v) == Hits(log, fields, name, v) <==> NoneLost(log, fields, name, v)
  {
    if log != [] {
      var n := |log| - 1;
      var before, a := log[..n], log[n];
      FindableIffNoneLost(before, fields, name, v);
      NoneLostStep(log, fields, name, v);
      hide NoneLost;
      hide Opened;
      hide HitsOf;
      var f, h := Findable(before, fields, name, v), Hits(before, fields, name, v);
      var x, y := KeptOf(a, fields, name, v, Opened(before, fields, name)), HitsOf(a, fields, name, v);
      SameTail(f, h, x, y);
    }
  }

  lemma {:induction false} NoneLostStep(log: seq<Attribute>, fields: seq<Text>, name: Text, v: Value)
    requires log != []
    ensures var n := |log| - 1;
            NoneLost(log, fields, name, v) <==>
              && NoneLost(log[..n], fields, name, v)
              && (HitsOf(log[n], fields, name, v) != [] ==> log[n].kind.Ints? || Opened(log[..n], fields, name))
  {
    hide Opened;
    hide HitsOf;
    var n := |log| - 1;
    assert forall k :: 0 <= k < n ==> log[..n][k] == log[k] && log[..n][..k] == log[..k];
  }

  lemma {:induction false} SameTail(f: seq<Hit>, h: seq<Hit>, x: seq<Hit>, y: seq<Hit>)
    requires |f| <= |h| && (x == y || x == [])
    ensures |f + x| <= |h + y| && (f + x == h + y <==> f == h && x == y)
  {
    if f + x == h + y {
      assert |f| == |h| && |x| == |y|;
      assert (f + x)[..|f|] == f && (h + y)[..|f|] == h;
    }
  }

  /** An integer is only ever indexed as one, so none of its occurrences is lost. */
  lemma {:induction false} IntsNotLost(log: seq<Attribute>, fields: seq<Text>, name: Text, v: Value)
    requires v.IntVal? && forall k :: 0 <= k < |log| ==> AttributeOK(log[k])
    ensures NoneLost(log, fields, name, v)
  {
    forall k | 0 <= k < |log| && HitsOf(log[k], fields, name, v) != [] ensures log[k].kind.Ints? {
      SomeOccurrence(log[k].values, v, Hit(log[k].file, log[k].obj));
    }
  }

  lemma {:induction false} SomeOccurrence(values: seq<Value>, v: Value, hit: Hit)
    requires HitsIn(values, v, hit) != []
    ensures v in values
  {
    var n := |values| - 1;
    if values[n] != v { SomeOccurrence(values[..n], v, hit); }
  }

  // ---------------------------------------------------------------------
  // The integers of a name

  /** The integers among some values, in order. */
  function IntsIn(values: seq<Value>): seq<Int32> {
    if values == [] then [] else
    var v := values[|values| - 1];
    IntsIn(values[..|values| - 1]) + (if v.IntVal? then [v.i] else [])
  }

  function IntsFrom(a: Attribute, name: Text): seq<Int32> {
    if a.name == name && a.kind.Ints? then IntsIn(a.values) else []
  }

  /** The integers indexed under a name, in order. */
  function IntsOf(log: seq<Attribute>, name: Text): seq<Int32> {
    if log == [] then [] else IntsOf(log[..|log| - 1], name) + IntsFrom(log[|log| - 1], name)
  }

  /** The tree of no indexed name ever makes an unsafe turn. */
  ghost predicate SafeLog(log: seq<Attribute>, fields: seq<Text>) {
    forall name :: Indexed(fields, name) ==> SafeRun(IntsOf(log, name))
  }

  /** Integers that the comparator orders, for instance because they are pairwise less than 2^31 apart,
      make a safe log. */
  lemma {:induction false} OrderlyLog(log: seq<Attribute>, fields: seq<Text>)
    requires forall name :: Indexed(fields, name) ==> Orderly(Values(IntsOf(log, name)))
    ensures SafeLog(log, fields)
  {
    forall name | Indexed(fields, name) ensures SafeRun(IntsOf(log, name)) { OrderlyRun(IntsOf(log, name)); }
  }

  lemma {:induction false} SafePrefix(log: seq<Attribute>, fields: seq<Text>, n: nat)
    requires n <= |log| && SafeLog(log, fields)
    ensures SafeLog(log[..n], fields)
  {
    forall name | Indexed(fields, name) ensures SafeRun(IntsOf(log[..n], name)) {
      IntsPrefix(log, name, n);
      SafeRunPrefix(IntsOf(log, name), |IntsOf(log[..n], name)|);
    }
  }

  lemma {:induction false} IntsPrefix(log: seq<Attribute>, name: Text, n: nat)
    requires n <= |log|
    ensures var k := |IntsOf(log[..n], name)|; k <= |IntsOf(log, name)| && IntsOf(log, name)[..k] == IntsOf(log[..n], name)
  {
    if n == |log| {
      assert log[..n] == log;
    } else {
      IntsPrefix(log[..|log| - 1], name, n);
      assert log[..|log| - 1][..n] == log[..n];
    }
  }

  /** A name that no integer attribute has opened has no integers. */
  lemma {:induction false} NoInts(log: seq<Attribute>, fields: seq<Text>, name: Text)
    requires Indexed(fields, name) && !Opened(log, fields, name)
    ensures IntsOf(log, name) == []
  {
    if log != [] {
      var n := |log| - 1;
      assert forall k :: 0 <= k < n ==> log[..n][k] == log[k];
      NoInts(log[..n], fields, name);
    }
  }

  // ---------------------------------------------------------------------
  // Interned paths

  /** A list as interning leaves it: no padding, each path once and at its own position. */
  ghost predicate ListOK(list: seq<Entry>) {
    && |list| < INT_LIMIT
    && (forall i :: 0 <= i < |list| ==> list[i].Entry? && list[i].tag.Some? && list[i].pos == i)
    && (forall i, j :: 0 <= i < j < |list| ==> list[i].tag != list[j].tag)
  }

  function TagAt(list: seq<Entry>, pos: nat): Text {
    if pos < |list| && list[pos].Entry? && list[pos].tag.Some? then list[pos].tag.value else []
  }

  function Shown(shard: Shard, p: Pair): Hit {
    Hit(TagAt(shard.files, p.file), TagAt(shard.objects, p.obj))
  }

  function ShownAll(shard: Shard, ps: seq<Pair>): seq<Hit> {
    seq(|ps|, i requires 0 <= i < |ps| => Shown(shard, ps[i]))
  }

  /** The pairs stored under a name and a value. */
  function PairsAt(shard: Shard, name: Text, v: Value): seq<Pair> {
    if name in shard.names && v in shard.names[name].values then shard.names[name].values[v] else []
  }

  /** A pair of shard `at` whose positions are in range. */
  predicate PairOK(shard: Shard, at: nat, p: Pair) {
    p.shard == at && p.file < |shard.files| && p.obj < |shard.objects|
  }

  /** A value in a tree has an occurrence; strings are there only beside integers. */
  ghost predicate LeafOK(shard: Shard, at: nat, name: Text)
    requires name in shard.names
  {
    var leaf := shard.names[name];
    && (leaf.kind.Ints? || leaf.kind.Texts?)
    && forall v :: v in leaf.values ==>
         && !v.FloatVal? && (v.TextVal? ==> leaf.kind.Texts?) && leaf.values[v] != []
         && forall i :: 0 <= i < |leaf.values[v]| ==> PairOK(shard, at, leaf.values[v][i])
  }

  ghost predicate ShardOK(shard: Shard, at: nat) {
    && ListOK(shard.files) && ListOK(shard.objects)
    && forall name :: name in shard.names ==> LeafOK(shard, at, name)
  }

  /** The answer a shard gives. */
  function Answer(shard: Shard, name: Text, v: Value): seq<Hit> {
    ShownAll(shard, PairsAt(shard, name, v))
  }

  // ---------------------------------------------------------------------
  // Positions do not go stale

  /** The same trees over longer path lists. */
  ghost predicate Longer(shard: Shard, made: Shard) {
    shard.files <= made.files && shard.objects <= made.objects && made.names == shard.names
  }

  lemma {:induction false} LongerKeepsShown(shard: Shard, made: Shard, at: nat, p: Pair)
    requires Longer(shard, made) && PairOK(shard, at, p)
    ensures PairOK(made, at, p) && Shown(made, p) == Shown(shard, p)
  {
  }

  lemma {:induction false} LongerKeeps(shard: Shard, made: Shard, at: nat)
    requires ShardOK(shard, at) && Longer(shard, made) && ListOK(made.files) && ListOK(made.objects)
    ensures ShardOK(made, at)
    ensures forall name, v :: Answer(made, name, v) == Answer(shard, name, v)
  {
    hide Shown;
    hide PairOK;
    forall name | name in made.names ensures LeafOK(made, at, name) {
      LeafKept(shard, made, at, name);
    }
    forall name, v ensures Answer(made, name, v) == Answer(shard, name, v) {
      AnswerKept(shard, made, at, name, v);
    }
  }

  lemma {:induction false} LeafKept(shard: Shard, made: Shard, at: nat, name: Text)
    requires Longer(shard, made) && name in shard.names && LeafOK(shard, at, name)
    ensures LeafOK(made, at, name)
  {
    var leaf := shard.names[name];
    forall v, i | v in leaf.values && 0 <= i < |leaf.values[v]| ensures PairOK(made, at, leaf.values[v][i]) {
      LongerKeepsShown(shard, made, at, leaf.values[v][i]);
    }
  }

  lemma {:induction false} AnswerKept(shard: Shard, made: Shard, at: nat, name: Text, v: Value)
    requires ShardOK(shard, at) && Longer(shard, made)
    ensures Answer(made, name, v) == Answer(shard, name, v)
  {
    var ps := PairsAt(shard, name, v);
    assert PairsAt(made, name, v) == ps;
    forall i | 0 <= i < |ps| ensures Shown(made, ps[i]) == Shown(shard, ps[i]) {
      assert LeafOK(shard, at, name);
      LongerKeepsShown(shard, made, at, ps[i]);
    }
  }

  // ---------------------------------------------------------------------
  // One more pair

  /** Integers go into the tree of a name, strings once it has been marked for them. */
  predicate Storable(leaf: Leaf, v: Value) {
    v.IntVal? || (v.TextVal? && leaf.kind.Texts?)
  }

  /** The leaf of a name with one more pair under a value. */
  function Pushed(leaf: Leaf, v: Value, p: Pair): Leaf {
    leaf.(values := leaf.values[v := (if v in leaf.values then leaf.values[v] else []) + [p]])
  }

  function PushPair(shard: Shard, name: Text, v: Value, p: Pair): Shard
    requires name in shard.names
  {
    shard.(names := shard.names[name := Pushed(shard.names[name], v, p)])
  }

  lemma {:induction false} PushAnswers(shard: Shard, at: nat, name: Text, v: Value, p: Pair)
    requires ShardOK(shard, at) && name in shard.names && Storable(shard.names[name], v) && PairOK(shard, at, p)
    ensures ShardOK(PushPair(shard, name, v, p), at)
    ensures forall n, u :: Answer(PushPair(shard, name, v, p), n, u) ==
              Answer(shard, n, u) + (if n == name && u == v then [Shown(shard, p)] else [])
  {
    PushKeepsShard(shard, at, name, v, p);
    hide ShardOK;
    hide Answer;
    forall n, u ensures Answer(PushPair(shard, name, v, p), n, u) ==
                        Answer(shard, n, u) + (if n == name && u == v then [Shown(shard, p)] else [])
    {
      PushAnswer(shard, name, v, p, n, u);
    }
  }

  lemma {:induction false} PushAnswer(shard: Shard, name: Text, v: Value, p: Pair, n: Text, u: Value)
    requires name in shard.names
    ensures Answer(PushPair(shard, name, v, p), n, u) ==
            Answer(shard, n, u) + (if n == name && u == v then [Shown(shard, p)] else [])
  {
    hide Shown;
    var made := PushPair(shard, name, v, p);
    assert PairsAt(made, n, u) == PairsAt(shard, n, u) + (if n == name && u == v then [p] else []);
    SameLists(shard, made);
  }

  lemma {:induction false} SameLists(shard: Shard, made: Shard)
    requires made.files == shard.files && made.objects == shard.objects
    ensures forall q :: Shown(made, q) == Shown(shard, q)
  {
  }

  lemma {:induction false} PushKeepsShard(shard: Shard, at: nat, name: Text, v: Value, p: Pair)
    requires ShardOK(shard, at) && name in shard.names && Storable(shard.names[name], v) && PairOK(shard, at, p)
    ensures ShardOK(PushPair(shard, name, v, p), at)
  {
    var made := PushPair(shard, name, v, p);
    PushKeepsLeaf(shard, at, name, v, p);
    forall n | n in made.names ensures LeafOK(made, at, n) {
      if n != name { assert LeafOK(shard, at, n); }
    }
  }

  lemma {:induction false} PushKeepsLeaf(shard: Shard, at: nat, name: Text, v: Value, p: Pair)
    requires ShardOK(shard, at) && name in shard.names && Storable(shard.names[name], v) && PairOK(shard, at, p)
    ensures LeafOK(PushPair(shard, name, v, p), at, name)
  {
    assert LeafOK(shard, at, name);
  }
}
