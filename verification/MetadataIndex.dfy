/**
  The in-memory metadata index: attribute names are hashed to shards, each shard interns
  file and object paths, and a value leads to a list of positions. Indexing is the only
  writer; an exact search turns positions back into paths.
 */
module MetadataIndex {
  import opened Basics
  import opened BinFile
  import opened ValueTree
  import opened ValueRuns
  import opened MdbFormat
  import opened IndexLog

  // ---------------------------------------------------------------------
  // Interning

  predicate Known(list: seq<Entry>, tag: Text) {
    exists i :: 0 <= i < |list| && list[i].Entry? && list[i].tag == Some(tag)
  }

  /** The list after interning a path. */
  ghost function WithPath(list: seq<Entry>, tag: Text): seq<Entry>
    requires |list| < WORD_LIMIT
  {
    if Known(list, tag) then list else list + [Entry(Some(tag), |list|)]
  }

  lemma {:induction false} WithPathOnce(list: seq<Entry>, tag: Text)
    requires |list| < INT_LIMIT - 1
    ensures WithPath(WithPath(list, tag), tag) == WithPath(list, tag)
  {
    if !Known(list, tag) {
      var made := WithPath(list, tag);
      assert made[|list|].tag == Some(tag);
    }
  }

  /** insert_tagged_value. */
  method InternPath(list: seq<Entry>, tag: Text) returns (made: seq<Entry>, pos: Word64)
    requires ListOK(list)
    requires Known(list, tag) || |list| < INT_LIMIT - 1
    ensures made == WithPath(list, tag) && list <= made && ListOK(made)
    ensures pos < |made| && TagAt(made, pos) == tag
  {
    for i := 0 to |list|
      invariant forall j :: 0 <= j < i ==> list[j].tag != Some(tag)
    {
      if list[i].tag == Some(tag) { return list, list[i].pos; }
    }
    pos := |list|;
    made := InsertEntry(list, Entry(Some(tag), pos), pos);
    assert made == list + [Entry(Some(tag), pos)];
  }

  // ---------------------------------------------------------------------
  // Indexing the values of one attribute

  ghost predicate Room(shard: Shard) {
    |shard.files| < INT_LIMIT - 1 && |shard.objects| < INT_LIMIT - 1
  }

  /** The path lists after `n` values of an attribute of that file and object. */
  ghost predicate PathsAfter(shard: Shard, made: Shard, hit: Hit, n: nat)
    requires Room(shard)
  {
    if n == 0 then made.files == shard.files && made.objects == shard.objects
    else made.files == WithPath(shard.files, hit.file) && made.objects == WithPath(shard.objects, hit.obj)
  }

  method InternBoth(shard: Shard, made: Shard, at: nat, hit: Hit, ghost n: nat) returns (next: Shard, p: Pair)
    requires Room(shard) && PathsAfter(shard, made, hit, n) && ShardOK(made, at)
    ensures PathsAfter(shard, next, hit, n + 1) && ShardOK(next, at) && next.names == made.names
    ensures PairOK(next, at, p) && Shown(next, p) == hit
    ensures forall name, v :: Answer(next, name, v) == Answer(made, name, v)
  {
    hide LeafOK;
    hide Answer;
    WithPathOnce(shard.files, hit.file);
    WithPathOnce(shard.objects, hit.obj);
    RoomLeft(shard, made, hit, n);
    var files, f := InternPath(made.files, hit.file);
    var objects, o := InternPath(made.objects, hit.obj);
    next := made.(files := files, objects := objects);
    p := Pair(at, f, o);
    LongerKeeps(made, next, at);
  }

  lemma {:induction false} RoomLeft(shard: Shard, made: Shard, hit: Hit, n: nat)
    requires Room(shard) && PathsAfter(shard, made, hit, n)
    ensures Known(made.files, hit.file) || |made.files| < INT_LIMIT - 1
    ensures Known(made.objects, hit.obj) || |made.objects| < INT_LIMIT - 1
  {
    KnownAfter(shard.files, hit.file);
    KnownAfter(shard.objects, hit.obj);
  }

  lemma {:induction false} KnownAfter(list: seq<Entry>, tag: Text)
    requires |list| < INT_LIMIT - 1
    ensures Known(WithPath(list, tag), tag)
  {
    if !Known(list, tag) {
      assert WithPath(list, tag)[|list|].tag == Some(tag);
    }
  }

  // ---------------------------------------------------------------------
  // The tree of integers of a name

  function IntKeys(values: map<Value, seq<Pair>>): set<Int32> {
    set v | v in values && v.IntVal? :: v.i
  }

  /** The tree that a run of integers builds, beside the lists of their pairs. */
  ghost predicate TreeFits(leaf: Leaf, tree: Tree, ints: seq<Int32>) {
    tree == TreeOf(ints) && IntKeys(leaf.values) == Values(ints)
  }

  /** rbt_find answers as the map does after a safe run. */
  lemma {:induction false} LookupExact(leaf: Leaf, tree: Tree, ints: seq<Int32>, i: Int32)
    requires TreeFits(leaf, tree, ints) && SafeRun(ints)
    ensures Find(tree, i) <==> IntVal(i) in leaf.values
  {
    SafeRunTree(ints);
    hide TreeOf;
    hide SafeRun;
    assert i in IntKeys(leaf.values) <==> IntVal(i) in leaf.values;
    assert i in Values(ints) <==> i in ints;
  }

  /** One more integer, in the tree and in the lists. */
  lemma {:induction false} FitsMore(leaf: Leaf, tree: Tree, ints: seq<Int32>, i: Int32, p: Pair)
    requires TreeFits(leaf, tree, ints)
    ensures TreeFits(Pushed(leaf, IntVal(i), p), Put(tree, i), ints + [i])
  {
    TreeOfMore(ints, i);
    hide TreeOf;
    hide Put;
    assert IntKeys(Pushed(leaf, IntVal(i), p).values) == IntKeys(leaf.values) + {i};
    assert Values(ints + [i]) == Values(ints) + {i};
  }

  /** The answers under one name are longer by the hits of some values. */
  ghost predicate Added(shard: Shard, made: Shard, name: Text, values: seq<Value>, hit: Hit) {
    forall n, u :: Answer(made, n, u) == Answer(shard, n, u) + (if n == name then HitsIn(values, u, hit) else [])
  }

  lemma {:induction false} NoneAdded(shard: Shard, made: Shard, name: Text, hit: Hit)
    requires forall n, u :: Answer(made, n, u) == Answer(shard, n, u)
    ensures Added(shard, made, name, [], hit)
  {
    hide Answer;
  }

  /** The next value, with its pair. */
  lemma {:induction false} AddedMore(shard: Shard, made: Shard, next: Shard, at: nat, name: Text, values: seq<Value>, i: nat, hit: Hit, p: Pair)
    requires i < |values| && Added(shard, made, name, values[..i], hit)
    requires ShardOK(next, at) && name in next.names && Storable(next.names[name], values[i])
    requires PairOK(next, at, p) && Shown(next, p) == hit
    requires forall n, u :: Answer(next, n, u) == Answer(made, n, u)
    ensures ShardOK(PushPair(next, name, values[i], p), at)
    ensures Added(shard, PushPair(next, name, values[i], p), name, values[..i + 1], hit)
  {
    hide Answer;
    hide ShardOK;
    hide Shown;
    hide PushPair;
    PushAnswers(next, at, name, values[i], p);
    assert values[..i + 1][..i] == values[..i];
  }

  /** indexing_numeric: one pair for each value, in order; a value that the tree does not find gets a
      node. */
  method IndexNumeric(shard: Shard, at: nat, name: Text, values: seq<Value>, hit: Hit, tree: Tree, ghost ints: seq<Int32>)
    returns (made: Shard, grown: Tree)
    requires ShardOK(shard, at) && Room(shard) && name in shard.names
    requires TreeFits(shard.names[name], tree, ints) && SafeRun(ints + IntsIn(values))
    requires forall i :: 0 <= i < |values| ==> values[i].IntVal?
    ensures ShardOK(made, at) && name in made.names && made.names == shard.names[name := made.names[name]]
    ensures PathsAfter(shard, made, hit, |values|)
    ensures TreeFits(made.names[name], grown, ints + IntsIn(values))
    ensures Added(shard, made, name, values, hit)
  {
    hide ShardOK;
    hide Answer;
    hide WithPath;
    hide TreeFits;
    hide SafeRun;
    hide Find;
    made, grown := shard, tree;
    assert ints + [] == ints;
    NoneAdded(shard, shard, name, hit);
    hide Added;
    hide Shown;
    for i := 0 to |values|
      invariant ShardOK(made, at) && name in made.names && made.names == shard.names[name := made.names[name]]
      invariant PathsAfter(shard, made, hit, i)
      invariant TreeFits(made.names[name], grown, ints + IntsIn(values[..i]))
      invariant Added(shard, made, name, values[..i], hit)
    {
      var v, leaf := values[i], made.names[name];
      ghost var sofar := ints + IntsIn(values[..i]);
      SafeSoFar(ints, values, i);
      LookupExact(leaf, grown, sofar, v.i);
      var found := Find(grown, v.i);
      var next, p := InternBoth(shard, made, at, hit, i);
      AddedMore(shard, made, next, at, name, values, i, hit, p);
      FitsMore(leaf, grown, sofar, v.i, p);
      var pairs := if found then leaf.values[v] else [];
      made := next.(names := next.names[name := leaf.(values := leaf.values[v := pairs + [p]])]);
      if !found { grown := Add(grown, v.i); }
      assert made == PushPair(next, name, v, p);
      assert values[..i + 1][..i] == values[..i];
      assert ints + IntsIn(values[..i + 1]) == sofar + [v.i];
    }
    assert values[..|values|] == values;
  }

  lemma {:induction false} SafeSoFar(ints: seq<Int32>, values: seq<Value>, n: nat)
    requires n <= |values| && SafeRun(ints + IntsIn(values))
    ensures SafeRun(ints + IntsIn(values[..n]))
  {
    hide SafeRun;
    if n == |values| {
      assert values[..n] == values;
    } else {
      var m := |values| - 1;
      var all, less := ints + IntsIn(values), ints + IntsIn(values[..m]);
      SafeRunPrefix(all, |less|);
      assert all[..|less|] == less;
      SafeSoFar(ints, values[..m], n);
      assert values[..m][..n] == values[..n];
    }
  }

  /** A tree that is to hold strings beside its integers. */
  function Marked(shard: Shard, name: Text): Shard
    requires name in shard.names
  {
    shard.(names := shard.names[name := shard.names[name].(kind := Texts)])
  }

  lemma {:induction false} MarkedSame(shard: Shard, at: nat, name: Text)
    requires ShardOK(shard, at) && name in shard.names
    ensures ShardOK(Marked(shard, name), at) && forall n, u :: Answer(Marked(shard, name), n, u) == Answer(shard, n, u)
  {
    var made := Marked(shard, name);
    forall n | n in made.names ensures LeafOK(made, at, n) { assert LeafOK(shard, at, n); }
    hide ShardOK;
    hide LeafOK;
    hide Shown;
    SameLists(shard, made);
    forall n, u ensures Answer(made, n, u) == Answer(shard, n, u) {
      assert PairsAt(made, n, u) == PairsAt(shard, n, u);
    }
  }

  /** The same names with the same integers. */
  ghost predicate SameInts(shard: Shard, made: Shard) {
    made.names.Keys == shard.names.Keys &&
    forall n :: n in shard.names ==> IntKeys(made.names[n].values) == IntKeys(shard.names[n].values)
  }

  lemma {:induction false} TextKeepsInts(shard: Shard, made: Shard, next: Shard, name: Text, v: Value, p: Pair)
    requires SameInts(shard, made) && next.names == made.names && name in next.names && v.TextVal?
    ensures SameInts(shard, PushPair(next, name, v, p))
  {
    assert IntKeys(Pushed(made.names[name], v, p).values) == IntKeys(made.names[name].values);
    hide IntKeys;
  }

  /** indexing_string on a leaf that is in the tree of names. */
  method IndexString(shard: Shard, at: nat, name: Text, values: seq<Value>, hit: Hit) returns (made: Shard)
    requires ShardOK(shard, at) && Room(shard) && name in shard.names
    requires forall i :: 0 <= i < |values| ==> values[i].TextVal?
    ensures ShardOK(made, at) && SameInts(shard, made)
    ensures PathsAfter(shard, made, hit, |values|)
    ensures Added(shard, made, name, values, hit)
  {
    hide ShardOK;
    hide Answer;
    hide WithPath;
    assert SameInts(shard, Marked(shard, name));
    hide SameInts;
    MarkedSame(shard, at, name);
    NoneAdded(shard, Marked(shard, name), name, hit);
    hide Added;
    hide Shown;
    made := Marked(shard, name);
    for i := 0 to |values|
      invariant ShardOK(made, at) && SameInts(shard, made) && name in made.names && made.names[name].kind == Texts
      invariant PathsAfter(shard, made, hit, i)
      invariant Added(shard, made, name, values[..i], hit)
    {
      var next, p := InternBoth(shard, made, at, hit, i);
      AddedMore(shard, made, next, at, name, values, i, hit, p);
      TextKeepsInts(shard, made, next, name, values[i], p);
      made := PushPair(next, name, values[i], p);
    }
    assert values[..|values|] == values;
  }

  /** indexing_string on a leaf that never got into the tree of names: only the paths stay behind. */
  method IndexLost(shard: Shard, at: nat, values: seq<Value>, hit: Hit) returns (made: Shard)
    requires ShardOK(shard, at) && Room(shard)
    ensures ShardOK(made, at) && made.names == shard.names
    ensures PathsAfter(shard, made, hit, |values|)
    ensures forall n, u :: Answer(made, n, u) == Answer(shard, n, u)
  {
    hide ShardOK;
    hide Answer;
    hide WithPath;
    made := shard;
    for i := 0 to |values|
      invariant ShardOK(made, at) && made.names == shard.names
      invariant PathsAfter(shard, made, hit, i)
      invariant forall n, u :: Answer(made, n, u) == Answer(shard, n, u)
    {
      var p;
      made, p := InternBoth(shard, made, at, hit, i);
    }
  }

  // ---------------------------------------------------------------------
  // The whole index

  /** Every name is answered by its own shard as far as the log can be found. */
  ghost predicate Reflects(shards: seq<Shard>, log: seq<Attribute>, fields: seq<Text>)
    requires |shards| > 0
  {
    forall name, v :: Answer(shards[ShardOf(name, |shards|)], name, v) == Findable(log, fields, name, v)
  }

  ghost predicate ShardsOK(shards: seq<Shard>, paths: nat) {
    forall i :: 0 <= i < |shards| ==> ShardOK(shards[i], i) && |shards[i].files| <= paths && |shards[i].objects| <= paths
  }

  /** The names with a tree are those that integers have opened. */
  ghost predicate NamesOpened(shards: seq<Shard>, log: seq<Attribute>, fields: seq<Text>)
    requires |shards| > 0
  {
    forall name :: name in shards[ShardOf(name, |shards|)].names <==> Opened(log, fields, name)
  }

  lemma {:induction false} ReflectsNext(shards: seq<Shard>, made: seq<Shard>, log: seq<Attribute>, fields: seq<Text>, a: Attribute)
    requires |shards| == |made| > 0 && Reflects(shards, log, fields)
    requires forall name, v ::
               Answer(made[ShardOf(name, |shards|)], name, v) ==
               Answer(shards[ShardOf(name, |shards|)], name, v) + KeptOf(a, fields, name, v, Opened(log, fields, name))
    ensures Reflects(made, log + [a], fields)
  {
    hide Answer;
    hide ShardOf;
    hide KeptOf;
    hide Opened;
    assert (log + [a])[..|log|] == log;
  }

  /** Changing the shard of a name leaves the answers of all others alone. */
  lemma {:induction false} OtherShards(shards: seq<Shard>, at: nat, made: Shard, a: Attribute, log: seq<Attribute>, fields: seq<Text>)
    requires at < |shards| && at == ShardOf(a.name, |shards|) && Indexed(fields, a.name)
    requires forall n, u ::
               Answer(made, n, u) == Answer(shards[at], n, u) +
               (if n == a.name then KeptOf(a, fields, n, u, Opened(log, fields, n)) else [])
    ensures forall name, v ::
               Answer(shards[at := made][ShardOf(name, |shards|)], name, v) ==
               Answer(shards[ShardOf(name, |shards|)], name, v) + KeptOf(a, fields, name, v, Opened(log, fields, name))
  {
    hide Answer;
    hide HitsIn;
    hide Djb2;
    hide Opened;
  }

  lemma {:induction false} OpenedNext(log: seq<Attribute>, fields: seq<Text>, a: Attribute)
    ensures forall name :: Opened(log + [a], fields, name) <==>
              Opened(log, fields, name) || (Indexed(fields, name) && name == a.name && a.kind.Ints?)
  {
    var more := log + [a];
    assert more[|log|] == a;
    forall name ensures Opened(more, fields, name) <==>
                          Opened(log, fields, name) || (Indexed(fields, name) && name == a.name && a.kind.Ints?)
    {
      if Opened(log, fields, name) {
        var k :| 0 <= k < |log| && log[k].name == name && log[k].kind.Ints?;
        assert more[k] == log[k];
      }
      if Opened(more, fields, name) {
        var k :| 0 <= k < |more| && more[k].name == name && more[k].kind.Ints?;
        assert k < |log| ==> log[k] == more[k];
      }
    }
  }

  /** A leaf for a new name answers nothing yet. */
  lemma {:induction false} NewLeaf(shard: Shard, at: nat, name: Text)
    requires ShardOK(shard, at) && name !in shard.names
    ensures var made := shard.(names := shard.names[name := Leaf(Ints, map[])]);
            ShardOK(made, at) && forall n, u :: Answer(made, n, u) == Answer(shard, n, u)
  {
    var made := shard.(names := shard.names[name := Leaf(Ints, map[])]);
    forall n | n in made.names ensures LeafOK(made, at, n) {
      if n != name { assert LeafOK(shard, at, n); }
    }
    hide ShardOK;
    hide LeafOK;
    hide Shown;
    SameLists(shard, made);
    forall n, u ensures Answer(made, n, u) == Answer(shard, n, u) {
      assert PairsAt(made, n, u) == PairsAt(shard, n, u);
    }
  }

  // ---------------------------------------------------------------------
  // The trees of all names

  /** A name with a leaf has the tree of its integers. */
  ghost predicate FitsAt(names: map<Text, Leaf>, trees: map<Text, Tree>, ints: seq<Int32>, n: Text) {
    (n in names <==> n in trees) && (n in trees ==> TreeFits(names[n], trees[n], ints))
  }

  ghost predicate TreesFit(shards: seq<Shard>, trees: map<Text, Tree>, log: seq<Attribute>)
    requires |shards| > 0
  {
    forall n :: FitsAt(shards[ShardOf(n, |shards|)].names, trees, IntsOf(log, n), n)
  }

  /** Exchanging the leaf and the tree of one name. */
  lemma {:induction false} FitsElsewhere(names: map<Text, Leaf>, trees: map<Text, Tree>, ints: seq<Int32>, n: Text, name: Text, leaf: Leaf, tree: Tree)
    requires FitsAt(names, trees, ints, n) && n != name
    ensures FitsAt(names[name := leaf], trees[name := tree], ints, n) && FitsAt(names, trees[name := tree], ints, n)
  {
    hide TreeFits;
  }

  lemma {:induction false} TreesChanged(shards: seq<Shard>, made: Shard, trees: map<Text, Tree>, name: Text, leaf: Leaf, tree: Tree, log: seq<Attribute>, more: seq<Attribute>)
    requires |shards| > 0 && TreesFit(shards, trees, log)
    requires made.names == shards[ShardOf(name, |shards|)].names[name := leaf] && TreeFits(leaf, tree, IntsOf(more, name))
    requires forall n :: n != name ==> IntsOf(more, n) == IntsOf(log, n)
    ensures TreesFit(shards[ShardOf(name, |shards|) := made], trees[name := tree], more)
  {
    var at, next := ShardOf(name, |shards|), shards[ShardOf(name, |shards|) := made];
    hide TreeFits;
    hide ShardOf;
    hide IntsOf;
    forall n ensures FitsAt(next[ShardOf(n, |next|)].names, trees[name := tree], IntsOf(more, n), n) {
      if n != name {
        var from := shards[ShardOf(n, |shards|)].names;
        FitsElsewhere(from, trees, IntsOf(log, n), n, name, leaf, tree);
        assert ShardOf(n, |shards|) != at ==> next[ShardOf(n, |next|)].names == from;
      }
    }
  }

  lemma {:induction false} IntsOfMore(log: seq<Attribute>, a: Attribute, name: Text)
    ensures IntsOf(log + [a], name) == IntsOf(log, name) + IntsFrom(a, name)
  {
    assert (log + [a])[..|log|] == log;
  }

  /** An integer attribute changes the leaf and the tree of its name. */
  lemma {:induction false} TreesGrown(shards: seq<Shard>, made: Shard, trees: map<Text, Tree>, grown: Tree, log: seq<Attribute>, a: Attribute)
    requires |shards| > 0 && TreesFit(shards, trees, log) && a.kind.Ints? && a.name in made.names
    requires made.names == shards[ShardOf(a.name, |shards|)].names[a.name := made.names[a.name]]
    requires TreeFits(made.names[a.name], grown, IntsOf(log, a.name) + IntsIn(a.values))
    ensures TreesFit(shards[ShardOf(a.name, |shards|) := made], trees[a.name := grown], log + [a])
  {
    hide TreeFits;
    hide ShardOf;
    hide TreesFit;
    forall n ensures n != a.name ==> IntsOf(log + [a], n) == IntsOf(log, n) { IntsOfMore(log, a, n); }
    IntsOfMore(log, a, a.name);
    hide IntsOf;
    TreesChanged(shards, made, trees, a.name, made.names[a.name], grown, log, log + [a]);
  }

  /** A string attribute changes no integers. */
  lemma {:induction false} TreesKept(shards: seq<Shard>, made: Shard, at: nat, trees: map<Text, Tree>, log: seq<Attribute>, a: Attribute)
    requires at < |shards| && TreesFit(shards, trees, log) && SameInts(shards[at], made)
    requires a.kind.Ints? ==> a.name !in trees
    ensures TreesFit(shards[at := made], trees, log + [a])
  {
    hide Djb2;
    hide TreeOf;
    hide IntKeys;
    hide Values;
    forall n | n in trees ensures IntsOf(log + [a], n) == IntsOf(log, n) { IntsOfMore(log, a, n); }
  }

  class Index {
    const fields: seq<Text>
    var shards: seq<Shard>
    /** The red-black trees of the names. */
    var trees: map<Text, Tree>
    /** Everything indexed so far, in order. */
    ghost var log: seq<Attribute>

    /** The index answers for its log, whose integers stay in reach. */
    ghost predicate Valid()
      reads this
    {
      && |shards| > 0 && ShardsOK(shards, |log|) && SafeLog(log, fields) && TreesFit(shards, trees, log)
      && NamesOpened(shards, log, fields) && Reflects(shards, log, fields)
    }

    /** init_in_mem_index. */
    constructor (parallelism: nat, fields: seq<Text>)
      requires parallelism > 0
      ensures Valid() && log == [] && |shards| == parallelism && this.fields == fields
    {
      this.fields, trees := fields, map[];
      shards := seq(parallelism, _ => FreshShard);
      log := [];
    }

    /** The leaf and the tree of a name, made when there are none. */
    method LeafFor(at: nat, name: Text)
      requires Valid() && Indexed(fields, name) && at < |shards| && at == ShardOf(name, |shards|)
      modifies this`shards, this`trees
      ensures |shards| == |old(shards)| && shards == old(shards)[at := shards[at]]
      ensures ShardsOK(shards, |log|) && shards[at].names.Keys == old(shards)[at].names.Keys + {name}
      ensures TreesFit(shards, trees, log)
      ensures forall n, u :: Answer(shards[at], n, u) == Answer(old(shards)[at], n, u)
    {
      hide ShardOK;
      hide Answer;
      hide SafeLog;
      hide Djb2;
      hide Opened;
      hide TreeFits;
      hide Reflects;
      if name !in shards[at].names {
        var made := shards[at].(names := shards[at].names[name := Leaf(Ints, map[])]);
        NewLeaf(shards[at], at, name);
        NoInts(log, fields, name);
        NewTree();
        TreesChanged(shards, made, trees, name, Leaf(Ints, map[]), Nil, log, log);
        hide TreesFit;
        hide NamesOpened;
        shards := shards[at := made];
        trees := trees[name := Nil];
      }
    }

    /** An integer attribute, in the shard of its name. */
    method IndexInts(at: nat, a: Attribute)
      requires Valid() && AttributeOK(a) && a.kind.Ints? && |log| < INT_LIMIT - 1 && Indexed(fields, a.name)
      requires at < |shards| && at == ShardOf(a.name, |shards|) && SafeRun(IntsOf(log + [a], a.name))
      modifies this`shards, this`trees
      ensures |shards| == |old(shards)| && shards == old(shards)[at := shards[at]]
      ensures ShardsOK(shards, |log| + 1) && shards[at].names.Keys == old(shards)[at].names.Keys + {a.name}
      ensures TreesFit(shards, trees, log + [a])
      ensures forall n, u ::
        Answer(shards[at], n, u) ==
        Answer(old(shards)[at], n, u) + (if n == a.name then HitsIn(a.values, u, Hit(a.file, a.obj)) else [])
    {
      hide ShardOK;
      hide Answer;
      hide HitsIn;
      hide Djb2;
      hide WithPath;
      hide IntsOf;
      hide SafeLog;
      hide SafeRun;
      hide TreeFits;
      hide NamesOpened;
      hide Reflects;
      LeafFor(at, a.name);
      IntsOfMore(log, a, a.name);
      GrowsByOne(shards[at], Hit(a.file, a.obj), |a.values|);
      var made, grown := IndexNumeric(shards[at], at, a.name, a.values, Hit(a.file, a.obj), trees[a.name], IntsOf(log, a.name));
      TreesGrown(shards, made, trees, grown, log, a);
      hide TreesFit;
      hide ShardOf;
      shards := shards[at := made];
      trees := trees[a.name := grown];
    }

    /** A string attribute, in the shard of its name. */
    method IndexTexts(at: nat, a: Attribute)
      requires Valid() && AttributeOK(a) && a.kind.Texts? && |log| < INT_LIMIT - 1
      requires at < |shards|
      modifies this`shards
      ensures |shards| == |old(shards)| && shards == old(shards)[at := shards[at]]
      ensures ShardsOK(shards, |log| + 1) && shards[at].names.Keys == old(shards)[at].names.Keys
      ensures TreesFit(shards, trees, log + [a])
      ensures forall n, u ::
        Answer(shards[at], n, u) ==
        Answer(old(shards)[at], n, u) +
        (if n == a.name && n in old(shards)[at].names then HitsIn(a.values, u, Hit(a.file, a.obj)) else [])
    {
      hide ShardOK;
      hide Answer;
      hide HitsIn;
      hide WithPath;
      hide Reflects;
      hide SafeLog;
      hide NamesOpened;
      hide TreesFit;
      hide IntKeys;
      GrowsByOne(shards[at], Hit(a.file, a.obj), |a.values|);
      var made;
      if a.name in shards[at].names {
        made := IndexString(shards[at], at, a.name, a.values, Hit(a.file, a.obj));
      } else {
        made := IndexLost(shards[at], at, a.values, Hit(a.file, a.obj));
      }
      TreesKept(shards, made, at, trees, log, a);
      shards := shards[at := made];
    }

    /** create_in_mem_index_for_attr: what one attribute does to the shard of its name. */
    method IndexInto(at: nat, a: Attribute)
      requires Valid() && AttributeOK(a) && |log| < INT_LIMIT - 1 && Indexed(fields, a.name)
      requires at < |shards| && at == ShardOf(a.name, |shards|) && SafeLog(log + [a], fields)
      modifies this`shards, this`trees
      ensures |shards| == |old(shards)| && shards == old(shards)[at := shards[at]]
      ensures ShardsOK(shards, |log| + 1) && TreesFit(shards, trees, log + [a])
      ensures shards[at].names.Keys == old(shards)[at].names.Keys + (if a.kind.Ints? then {a.name} else {})
      ensures forall n, u ::
        Answer(shards[at], n, u) ==
        Answer(old(shards)[at], n, u) + (if n == a.name then KeptOf(a, fields, n, u, Opened(log, fields, n)) else [])
    {
      hide ShardsOK;
      hide Answer;
      hide HitsIn;
      hide Reflects;
      hide Djb2;
      hide SafeRun;
      hide TreesFit;
      hide Opened;
      assert a.name in shards[at].names <==> Opened(log, fields, a.name);
      if a.kind.Ints? { IndexInts(at, a); } else { IndexTexts(at, a); }
    }

    /** is_specified_field. */
    method IsSpecified(name: Text) returns (found: bool)
      ensures found <==> name in fields
    {
      found := false;
      for f := 0 to |fields|
        invariant !found && name !in fields[..f]
      {
        if name == fields[f] { return true; }
      }
    }

    /** indexing_attr: the fields that are not to be indexed are passed over. */
    method IndexAttr(a: Attribute)
      requires Valid() && AttributeOK(a) && |log| < INT_LIMIT - 1 && SafeLog(log + [a], fields)
      modifies this
      ensures Valid() && log == old(log) + [a] && |shards| == |old(shards)|
    {
      hide ShardOK;
      hide Answer;
      hide HitsIn;
      hide Djb2;
      hide Findable;
      hide SafeLog;
      hide Opened;
      hide TreesFit;
      OpenedNext(log, fields, a);
      var build := true;
      if |fields| > 0 { build := IsSpecified(a.name); }
      if build {
        var at := ShardOf(a.name, |shards|);
        IndexInto(at, a);
        OtherShards(old(shards), at, shards[at], a, log, fields);
      } else {
        SkippedTrees(shards, trees, log, fields, a);
      }
      hide ShardOf;
      ReflectsNext(old(shards), shards, log, fields, a);
      log := log + [a];
    }

    /** exact_metadata_search: the paths of every occurrence that can be found, in the order of
        indexing. It does not survive (None) a value of which none can be found. */
    method ExactSearch(name: Text, v: Value) returns (r: Option<seq<Hit>>)
      requires Valid()
      ensures r == if Findable(log, fields, name, v) != [] then Some(Findable(log, fields, name, v)) else None
    {
      hide Djb2;
      hide Answer;
      hide Findable;
      hide ShardOK;
      hide NamesOpened;
      var at := ShardOf(name, |shards|);
      var shard := shards[at];
      SearchFacts(shard, at, name, v);
      if name !in shard.names { return None; }
      var found := FindValue(shard, at, name, v);
      if !found { return None; }
      var hits := Collect(shards, at, shard.names[name].values[v]);
      return Some(hits);
    }

    /** attribute_value_search in the tree of a name. */
    method FindValue(shard: Shard, at: nat, name: Text, v: Value) returns (found: bool)
      requires Valid() && at == ShardOf(name, |shards|) && shard == shards[at] && name in shard.names
      ensures found <==> v in shard.names[name].values
    {
      hide Djb2;
      hide Answer;
      hide Findable;
      hide IntsOf;
      hide SafeRun;
      hide TreeFits;
      hide Reflects;
      var values := shard.names[name].values;
      match v {
        case IntVal(i) =>
          assert Indexed(fields, name) by { OpenedIndexed(log, fields, name); }
          LookupExact(shard.names[name], trees[name], IntsOf(log, name), i);
          found := Find(trees[name], i);
        case TextVal(_) => found := v in values;
        case FloatVal(_) =>
          assert LeafOK(shard, at, name);
          found := false;
      }
    }
  }

  lemma {:induction false} NewTree()
    ensures TreeFits(Leaf(Ints, map[]), Nil, [])
  {
  }

  lemma {:induction false} SkippedTrees(shards: seq<Shard>, trees: map<Text, Tree>, log: seq<Attribute>, fields: seq<Text>, a: Attribute)
    requires |shards| > 0 && TreesFit(shards, trees, log) && NamesOpened(shards, log, fields) && !Indexed(fields, a.name)
    ensures TreesFit(shards, trees, log + [a])
  {
    hide TreeFits;
    hide Djb2;
    assert a.name !in trees by { assert !Opened(log, fields, a.name); }
    TreesKept(shards, shards[0], 0, trees, log, a);
    assert shards[0 := shards[0]] == shards;
  }

  lemma {:induction false} OpenedIndexed(log: seq<Attribute>, fields: seq<Text>, name: Text)
    requires Opened(log, fields, name)
    ensures Indexed(fields, name)
  {
  }

  /** What a lookup in a shard means for the answer. */
  lemma {:induction false} SearchFacts(shard: Shard, at: nat, name: Text, v: Value)
    requires ShardOK(shard, at)
    ensures if name in shard.names && v in shard.names[name].values
            then var ps := shard.names[name].values[v];
                 && Answer(shard, name, v) == ShownAll(shard, ps) && ps != []
                 && forall i :: 0 <= i < |ps| ==> ps[i].shard == at
            else Answer(shard, name, v) == []
  {
    if name in shard.names && v in shard.names[name].values {
      assert LeafOK(shard, at, name);
    }
  }

  /** collect_result_from_list over a list of pairs; each pair names its own shard. */
  method Collect(shards: seq<Shard>, ghost at: nat, pairs: seq<Pair>) returns (hits: seq<Hit>)
    requires at < |shards| && forall i :: 0 <= i < |pairs| ==> pairs[i].shard == at
    ensures hits == ShownAll(shards[at], pairs)
  {
    hide TagAt;
    hits := [];
    for i := 0 to |pairs|
      invariant |hits| == i && forall j :: 0 <= j < i ==> hits[j] == Shown(shards[at], pairs[j])
    {
      var from := shards[pairs[i].shard];
      hits := hits + [Hit(TagAt(from.files, pairs[i].file), TagAt(from.objects, pairs[i].obj))];
    }
  }

  /** The index of a whole log. */
  method IndexAll(parallelism: nat, fields: seq<Text>, log: seq<Attribute>) returns (index: Index)
    requires parallelism > 0 && |log| < INT_LIMIT
    requires (forall k :: 0 <= k < |log| ==> AttributeOK(log[k])) && SafeLog(log, fields)
    ensures fresh(index) && index.Valid() && index.log == log && index.fields == fields && |index.shards| == parallelism
  {
    hide SafeLog;
    hide AttributeOK;
    index := new Index(parallelism, fields);
    for k := 0 to |log|
      invariant fresh(index) && index.fields == fields && |index.shards| == parallelism
      invariant index.Valid() && index.log == log[..k]
    {
      assert log[..k] + [log[k]] == log[..k + 1];
      SafePrefix(log, fields, k + 1);
      index.IndexAttr(log[k]);
    }
    assert log[..|log|] == log;
  }

  /** Any log of integers and strings, any parallelism, any list of fields, as long as the trees of the
      names keep their integers in reach: searching the index that the log builds gives all occurrences
      of a value exactly when there are some and none came before its name was opened by an integer.
      A list of fields answers for the names on it as no list would, and for no other name. */
  method IndexThenSearch(parallelism: nat, fields: seq<Text>, log: seq<Attribute>, name: Text, v: Value)
    returns (r: Option<seq<Hit>>)
    requires parallelism > 0 && |log| < INT_LIMIT
    requires (forall k :: 0 <= k < |log| ==> AttributeOK(log[k])) && SafeLog(log, fields)
    ensures r == Some(Hits(log, fields, name, v)) <==> Hits(log, fields, name, v) != [] && NoneLost(log, fields, name, v)
    ensures v.IntVal? && Hits(log, fields, name, v) != [] ==> r == Some(Hits(log, fields, name, v))
    ensures fields == [] || name in fields ==>
      (r == Some(Hits(log, [], name, v)) <==> Hits(log, [], name, v) != [] && NoneLost(log, [], name, v))
    ensures (fields == [] || name in fields) && v.IntVal? && Hits(log, [], name, v) != [] ==> r == Some(Hits(log, [], name, v))
    ensures fields != [] && name !in fields ==> r == None
  {
    hide Hits;
    hide Findable;
    hide SafeLog;
    hide AttributeOK;
    hide NoneLost;
    var index := IndexAll(parallelism, fields, log);
    r := index.ExactSearch(name, v);
    FindableIffNoneLost(log, fields, name, v);
    FieldsFilter(log, fields, name, v);
    if fields == [] || name in fields { SameLosses(log, fields, name, v); }
    if v.IntVal? { IntsNotLost(log, fields, name, v); }
  }

  /** A single string attribute. */
  function OneString(name: Text, text: Text, hit: Hit): Attribute {
    Attribute(name, Texts, [TextVal(text)], hit.file, hit.obj)
  }

  /** Whatever its name and value: it should be found once, and nothing of it can be. */
  lemma {:induction false} OneStringLost(name: Text, text: Text, hit: Hit)
    ensures var log := [OneString(name, text, hit)];
            && Hits(log, [], name, TextVal(text)) == [hit] && Findable(log, [], name, TextVal(text)) == []
            && SafeLog(log, [])
  {
    var a, v := OneString(name, text, hit), TextVal(text);
    assert [a][..0] == [] && [v][..0] == [];
    assert HitsIn([v], v, hit) == [hit];
    assert [] + [hit] == [hit];
    assert !Opened([], [], name);
    forall n ensures IntsOf([a], n) == [] { assert IntsOf([a], n) == IntsOf([], n) + IntsFrom(a, n); }
  }

  /** Indexing one string and searching for it gives no answer. */
  method LostString(parallelism: nat, name: Text, text: Text, hit: Hit) returns (r: Option<seq<Hit>>)
    requires parallelism > 0
    ensures Hits([OneString(name, text, hit)], [], name, TextVal(text)) == [hit] && r == None
  {
    OneStringLost(name, text, hit);
    hide Hits;
    hide NoneLost;
    hide Findable;
    hide SafeLog;
    var index := IndexAll(parallelism, [], [OneString(name, text, hit)]);
    r := index.ExactSearch(name, TextVal(text));
  }

  /** An index of one shard, dumped in any order and loaded again, answers for each name as before on
      values of the kind that the name is marked with, and not at all on others. It is the same index
      exactly when no name holds integers and strings. */
  lemma {:induction false} DumpKeepsIndex(shard: Shard, w: Walk)
    requires ShardOK(shard, 0) && Dumpable([w]) && Walks(w, shard)
    ensures var r := Load(Dump([w]));
            && r.Loaded? && |r.shards| == 1
            && (forall n, v :: Answer(r.shards[0], n, v) ==
                 if n in shard.names && KindFits(shard.names[n].kind, v) then Answer(shard, n, v) else [])
            && (r == Loaded([shard]) <==> Unmixed(shard))
  {
    hide Dump;
    hide Load;
    hide Walks;
    hide WalkOK;
    forall name | name in shard.names ensures PairsIn(shard.names[name], 1) {
      assert LeafOK(shard, 0, name);
    }
    MdbRoundTrip([shard], [w]);
    hide Unmixed;
    forall n, v ensures Answer(DumpedShard(shard), n, v) ==
                        if n in shard.names && KindFits(shard.names[n].kind, v) then Answer(shard, n, v) else []
    {
      DumpedAnswer(shard, n, v);
    }
  }

  /** A name under which an integer and a string are found is mixed. */
  lemma {:induction false} FoundMixed(shard: Shard, name: Text, i: Int32, text: Text)
    requires ShardOK(shard, 0) && Answer(shard, name, IntVal(i)) != [] && Answer(shard, name, TextVal(text)) != []
    ensures !Unmixed(shard)
  {
    assert LeafOK(shard, 0, name);
    assert IntVal(i) in shard.names[name].values && TextVal(text) in shard.names[name].values;
  }

  function OneInt(name: Text, i: Int32, hit: Hit): Attribute {
    Attribute(name, Ints, [IntVal(i)], hit.file, hit.obj)
  }

  lemma {:induction false} SingleHit(x: Value, v: Value, hit: Hit)
    ensures HitsIn([x], v, hit) == if v == x then [hit] else []
  {
    assert [x][..0] == [];
  }

  lemma {:induction false} OneOfEachFound(name: Text, i: Int32, text: Text, hit: Hit, v: Value)
    requires v == IntVal(i) || v == TextVal(text)
    ensures Findable([OneInt(name, i, hit), OneString(name, text, hit)], [], name, v) == [hit]
  {
    var a, b := OneInt(name, i, hit), OneString(name, text, hit);
    assert [a][..0] == [] && [a, b][..1] == [a];
    assert Opened([a], [], name) by { assert [a][0].kind.Ints?; }
    SingleHit(IntVal(i), v, hit);
    SingleHit(TextVal(text), v, hit);
    hide HitsIn;
    assert Findable([a], [], name, v) == [] + KeptOf(a, [], name, v, Opened([], [], name));
  }

  lemma {:induction false} OneOfEachSafe(name: Text, i: Int32, text: Text, hit: Hit)
    ensures SafeLog([OneInt(name, i, hit), OneString(name, text, hit)], [])
  {
    var a, b := OneInt(name, i, hit), OneString(name, text, hit);
    assert [a, b] == [a] + [b] && [a] == [] + [a] && [a, b][..1] == [a] && [IntVal(i)][..0] == [];
    forall n ensures SafeRun(IntsOf([a, b], n)) {
      IntsOfMore([a], b, n);
      IntsOfMore([], a, n);
      assert [i][..0] == [];
      assert IntsIn([IntVal(i)]) == IntsIn([]) + [i];
      assert IntsOf([a, b], n) == [] || IntsOf([a, b], n) == [i];
    }
  }

  lemma {:induction false} OnlyShard(shards: seq<Shard>, log: seq<Attribute>, name: Text, i: Int32, text: Text)
    requires |shards| == 1 && ShardsOK(shards, |log|) && Reflects(shards, log, [])
    requires Findable(log, [], name, IntVal(i)) != [] && Findable(log, [], name, TextVal(text)) != []
    ensures forall v :: Answer(shards[0], name, v) == Findable(log, [], name, v)
    ensures ShardOK(shards[0], 0) && !Unmixed(shards[0])
  {
    assert ShardOf(name, |shards|) == 0;
    hide Findable;
    hide Answer;
    hide ShardOK;
    hide Unmixed;
    FoundMixed(shards[0], name, i, text);
  }

  /** An integer and a string under one name, in an index of one shard: both are found, and a dump will
      keep only the string. */
  method MixedName(name: Text, i: Int32, text: Text, hit: Hit) returns (shard: Shard)
    ensures Answer(shard, name, IntVal(i)) == [hit] && Answer(shard, name, TextVal(text)) == [hit]
    ensures ShardOK(shard, 0) && !Unmixed(shard)
  {
    var a, b := OneInt(name, i, hit), OneString(name, text, hit);
    OneOfEachFound(name, i, text, hit, IntVal(i));
    OneOfEachFound(name, i, text, hit, TextVal(text));
    OneOfEachSafe(name, i, text, hit);
    hide Findable;
    hide SafeLog;
    hide Answer;
    hide Unmixed;
    hide ShardOK;
    hide ShardsOK;
    hide TreesFit;
    hide NamesOpened;
    hide Reflects;
    var index := IndexAll(1, [], [a, b]);
    shard := index.shards[0];
    OnlyShard(index.shards, [a, b], name, i, text);
  }

  lemma {:induction false} DumpedAnswer(shard: Shard, n: Text, v: Value)
    ensures Answer(DumpedShard(shard), n, v) ==
            if n in shard.names && KindFits(shard.names[n].kind, v) then Answer(shard, n, v) else []
  {
    hide KindFits;
    hide Shown;
    var made := DumpedShard(shard);
    SameLists(shard, made);
    assert PairsAt(made, n, v) == if n in shard.names && KindFits(shard.names[n].kind, v) then PairsAt(shard, n, v) else [];
  }

  lemma {:induction false} GrowsByOne(shard: Shard, hit: Hit, n: nat)
    requires Room(shard)
    ensures forall made: Shard :: PathsAfter(shard, made, hit, n) ==>
      |made.files| <= |shard.files| + 1 && |made.objects| <= |shard.objects| + 1
  {
  }
}
