/**
  Dumping and loading MDB files as the program does it: loops that append to a stream,
  and count-driven loops that read from one and fill lists and trees.
 */
module MdbFile {
  import opened Basics
  import opened BinFile
  import opened MdbFormat

  /** The bytes written so far, or the bytes not read yet. */
  class Stream {
    var data: File

    constructor (data: File)
      ensures this.data == data
    {
      this.data := data;
    }
  }

  method AppendPairList(ps: seq<Pair>, out: Stream)
    requires |ps| < WORD_LIMIT
    modifies out
    ensures out.data == old(out.data) + PutPairList(ps)
  {
    hide PutSize;
    out.data := out.data + PutSize(|ps|);
    ghost var start := out.data;
    for i := 0 to |ps|
      invariant out.data + PutPairs(ps[i..]) == start + PutPairs(ps)
    {
      assert ps[i..][0] == ps[i] && ps[i..][1..] == ps[i + 1..];
      assert PutPairs(ps[i..]) == PutSize(ps[i].file) + PutSize(ps[i].obj) + PutPairs(ps[i + 1..]);
      out.data := out.data + PutSize(ps[i].file) + PutSize(ps[i].obj);
    }
    assert out.data + [] == out.data && ps[|ps|..] == [];
    assert out.data == old(out.data) + (PutSize(|ps|) + PutPairs(ps));
  }

  method AppendNodes(ns: seq<Node>, kind: Kind, out: Stream)
    requires NodesOK(ns, kind)
    modifies out
    ensures out.data == old(out.data) + PutNodes(ns, kind)
  {
    hide PutValue;
    hide PutPairList;
    hide PutNodes;
    hide KindFits;
    PutNoNodes(kind);
    assert ns[0..] == ns;
    ghost var start := out.data;
    for i := 0 to |ns|
      invariant out.data + PutNodes(ns[i..], kind) == start + PutNodes(ns, kind)
    {
      PutNodesNext(ns, i, kind);
      ghost var before, rest := out.data, PutNodes(ns[i + 1..], kind);
      out.data := out.data + PutValue(ns[i].value);
      AppendPairList(ns[i].pairs, out);
      assert out.data + rest == before + (PutValue(ns[i].value) + PutPairList(ns[i].pairs) + rest);
    }
    assert ns[|ns|..] == [];
  }

  lemma {:induction false} PutNoNodes(kind: Kind)
    ensures PutNodes([], kind) == []
  {
  }

  lemma {:induction false} PutNodesNext(ns: seq<Node>, i: nat, kind: Kind)
    requires NodesOK(ns, kind) && i < |ns|
    ensures PutNodes(ns[i..], kind) == PutValue(ns[i].value) + PutPairList(ns[i].pairs) + PutNodes(ns[i + 1..], kind)
  {
    hide PutValue;
    hide PutPairList;
    assert ns[i..][0] == ns[i] && ns[i..][1..] == ns[i + 1..];
  }

  /** append_attr_root_tree over the attributes in walk order. */
  method AppendTree(attrs: seq<Attr>, out: Stream)
    requires AttrsOK(attrs)
    modifies out
    ensures out.data == old(out.data) + PutTree(attrs)
  {
    hide PutString;
    hide PutInt;
    hide PutUint64;
    hide PutNodes;
    hide NodesOK;
    out.data := out.data + PutUint64(|attrs|);
    ghost var start := out.data;
    for i := 0 to |attrs|
      invariant out.data + PutAttrs(attrs[i..]) == start + PutAttrs(attrs)
    {
      assert attrs[i..][0] == attrs[i] && attrs[i..][1..] == attrs[i + 1..];
      assert PutAttrs(attrs[i..]) == PutAttr(attrs[i]) + PutAttrs(attrs[i + 1..]);
      AppendAttr(attrs[i], out);
    }
    assert out.data + [] == out.data && attrs[|attrs|..] == [];
    assert out.data == old(out.data) + (PutUint64(|attrs|) + PutAttrs(attrs));
  }

  method AppendAttr(a: Attr, out: Stream)
    requires AttrOK(a)
    modifies out
    ensures out.data == old(out.data) + PutAttr(a)
  {
    hide PutString;
    hide PutInt;
    hide PutUint64;
    hide PutNodes;
    out.data := out.data + PutString(a.name) + PutInt(KindCode(a.kind)) + PutUint64(|a.nodes|);
    AppendNodes(a.nodes, a.kind, out);
  }

  method AppendPathList(ps: seq<Path>, out: Stream)
    requires |ps| < WORD_LIMIT
    modifies out
    ensures out.data == old(out.data) + PutPathList(ps)
  {
    hide PutSize;
    hide PutString;
    out.data := out.data + PutSize(|ps|);
    ghost var start := out.data;
    for i := 0 to |ps|
      invariant out.data + PutPaths(ps[i..]) == start + PutPaths(ps)
    {
      assert ps[i..][0] == ps[i] && ps[i..][1..] == ps[i + 1..];
      assert PutPaths(ps[i..]) == PutString(ps[i].tag) + PutSize(ps[i].pos) + PutPaths(ps[i + 1..]);
      out.data := out.data + PutString(ps[i].tag) + PutSize(ps[i].pos);
    }
    assert out.data + [] == out.data && ps[|ps|..] == [];
    assert out.data == old(out.data) + (PutSize(|ps|) + PutPaths(ps));
  }

  /** The inner loop of the dump: the attribute regions of all shards. */
  method AppendTrees(ws: seq<Walk>, out: Stream)
    requires Dumpable(ws)
    modifies out
    ensures out.data == old(out.data) + PutTrees(ws, 0)
  {
    hide PutTree;
    hide AttrsOK;
    ghost var start := out.data;
    for j := 0 to |ws|
      invariant out.data + PutTrees(ws, j) == start + PutTrees(ws, 0)
    {
      assert WalkOK(ws[j]);
      assert PutTrees(ws, j) == PutTree(ws[j].attrs) + PutTrees(ws, j + 1);
      AppendTree(ws[j].attrs, out);
    }
    assert out.data + [] == out.data;
  }

  /** dump_mdb_index_to_disk. */
  method DumpIndex(ws: seq<Walk>) returns (file: File)
    requires Dumpable(ws)
    ensures file == Dump(ws)
  {
    hide PutTrees;
    hide PutPathList;
    hide AttrsOK;
    hide PutSize;
    var out := new Stream([]);
    out.data := out.data + PutSize(|ws|);
    for i := 0 to |ws|
      invariant out.data + PutShards(ws, i) == PutSize(|ws|) + PutShards(ws, 0)
    {
      assert WalkOK(ws[i]);
      ghost var before := out.data;
      AppendPathList(ws[i].files, out);
      AppendPathList(ws[i].objects, out);
      AppendTrees(ws, out);
      ghost var part := PutPathList(ws[i].files) + PutPathList(ws[i].objects) + PutTrees(ws, 0);
      assert PutShards(ws, i) == part + PutShards(ws, i + 1);
      assert out.data == before + part;
      assert before + part + PutShards(ws, i + 1) == before + (part + PutShards(ws, i + 1));
    }
    assert out.data + [] == out.data;
    file := out.data;
  }

  // ---------------------------------------------------------------------
  // Loading

  method FillPairs(s: Stream) returns (r: Option<seq<Pair>>)
    modifies s
    ensures match r
            case Some(ps) => ReadPairList(old(s.data)) == Some((ps, s.data))
            case None => ReadPairList(old(s.data)) == None
  {
    hide ReadSize;
    var (n, rest) := ReadSize(s.data);
    if n.None? { return None; }
    s.data := rest;
    var list, i := [], 0;
    while i < n.value
      invariant 0 <= i <= n.value
      invariant ReadPairs(n.value - i, list, s.data) == ReadPairList(old(s.data))
    {
      var (f, s1) := ReadSize(s.data);
      var (o, s2) := ReadSize(s1);
      if f.None? || o.None? { return None; }
      list := list + [Pair(0, f.value, o.value)];
      s.data := s2;
      i := i + 1;
    }
    return Some(list);
  }

  method DropPairs(n: nat, s: Stream)
    modifies s
    ensures s.data == SkipPairs(n, old(s.data))
  {
    hide ReadSize;
    for i := 0 to n
      invariant SkipPairs(n - i, s.data) == SkipPairs(n, old(s.data))
    {
      s.data := ReadSize(ReadSize(s.data).1).1;
    }
  }

  /** read_attr_value_node. */
  method FillNode(kind: Kind, m: map<Value, seq<Pair>>, s: Stream) returns (r: Option<map<Value, seq<Pair>>>)
    modifies s
    ensures match r
            case Some(made) => ReadNode(kind, m, old(s.data)) == Some((made, s.data))
            case None => ReadNode(kind, m, old(s.data)) == None
  {
    hide ReadPairList;
    hide ReadValue;
    hide ReadSize;
    hide SkipPairs;
    var (v, rest) := ReadValue(kind, s.data);
    s.data := rest;
    if v.Some? {
      var ps := FillPairs(s);
      return if ps.Some? then Some(m[v.value := ps.value]) else None;
    }
    var (n, more) := ReadSize(s.data);
    if n.None? { return None; }
    s.data := more;
    DropPairs(n.value, s);
    return Some(m);
  }

  /** read_attr_values. */
  method FillLeaf(s: Stream) returns (r: Option<Leaf>)
    modifies s
    ensures match r
            case Some(leaf) => ReadLeaf(old(s.data)) == Some((leaf, s.data))
            case None => ReadLeaf(old(s.data)) == None
  {
    hide ReadInt;
    hide ReadUint64;
    hide ReadNode;
    var (code, s1) := ReadInt(s.data);
    if code.None? { return None; }
    var kind := KindOf(code.value);
    var (n, s2) := ReadUint64(s1);
    if n.None? { return None; }
    s.data := s2;
    var m, i := map[], 0;
    while i < n.value
      invariant 0 <= i <= n.value
      invariant ReadNodes(n.value - i, kind, m, s.data) == ReadNodes(n.value, kind, map[], s2)
    {
      var made := FillNode(kind, m, s);
      if made.None? { return None; }
      m, i := made.value, i + 1;
    }
    return Some(Leaf(kind, m));
  }

  /** read_attr_name_node. */
  method FillAttr(shards: seq<Shard>, s: Stream) returns (r: Option<seq<Shard>>)
    requires |shards| > 0
    modifies s
    ensures match r
            case Some(made) => ReadAttr(shards, old(s.data)) == Some((made, s.data)) && |made| == |shards|
            case None => ReadAttr(shards, old(s.data)) == None
  {
    hide ReadString;
    hide ReadLeaf;
    hide Djb2;
    var (name, rest) := ReadString(s.data);
    if name.None? { return None; }
    var i := ShardOf(name.value, |shards|);
    s.data := rest;
    var leaf := FillLeaf(s);
    if leaf.None? { return None; }
    return Some(shards[i := shards[i].(names := shards[i].names[name.value := leaf.value])]);
  }

  /** read_into_attr_root_tree. */
  method FillTree(shards: seq<Shard>, s: Stream) returns (r: Option<seq<Shard>>)
    requires |shards| > 0
    modifies s
    ensures match r
            case Some(made) => ReadTree(shards, old(s.data)) == Some((made, s.data)) && |made| == |shards|
            case None => ReadTree(shards, old(s.data)) == None
  {
    hide ReadUint64;
    hide ReadAttr;
    var (n, rest) := ReadUint64(s.data);
    if n.None? { return None; }
    s.data := rest;
    var made, i := shards, 0;
    while i < n.value
      invariant 0 <= i <= n.value && |made| == |shards|
      invariant ReadAttrs(n.value - i, made, s.data) == ReadAttrs(n.value, shards, rest)
    {
      var next := FillAttr(made, s);
      if next.None? { return None; }
      made, i := next.value, i + 1;
    }
    return Some(made);
  }

  /** read_into_path_list. */
  method FillPaths(list: seq<Entry>, s: Stream) returns (r: Option<seq<Entry>>)
    modifies s
    ensures match r
            case Some(made) => ReadPathList(list, old(s.data)) == Some((made, s.data))
            case None => ReadPathList(list, old(s.data)) == None
  {
    hide ReadSize;
    hide ReadString;
    hide InsertEntry;
    var (n, rest) := ReadSize(s.data);
    if n.None? { return None; }
    s.data := rest;
    var made, i := list, 0;
    while i < n.value
      invariant 0 <= i <= n.value
      invariant ReadPaths(n.value - i, made, s.data) == ReadPaths(n.value, list, rest)
    {
      var (tag, s1) := ReadString(s.data);
      var (pos, s2) := ReadSize(s1);
      if pos.None? { return None; }
      made := InsertEntry(made, Entry(tag, pos.value), pos.value);
      s.data := s2;
      i := i + 1;
    }
    return Some(made);
  }

  /** load_mdb_file_to_index without an index to add to. */
  method LoadIndex(file: File) returns (r: Outcome)
    ensures r == Load(file)
  {
    hide ReadSize;
    hide ReadPathList;
    hide ReadTree;
    if file == [] { return NoIndex; }
    var (p, rest) := ReadSize(file);
    if p.None? { return Crash; }
    var s := new Stream(rest);
    var shards, i := seq(AsCount(p.value), _ => FreshShard), 0;
    while i < |shards|
      invariant 0 <= i <= |shards|
      invariant ReadShards(shards, i, s.data) == Load(file)
      decreases |shards| - i
    {
      var files := FillPaths(shards[i].files, s);
      if files.None? { return Crash; }
      var objects := FillPaths(shards[i].objects, s);
      if objects.None? { return Crash; }
      shards := shards[i := shards[i].(files := files.value, objects := objects.value)];
      var made := FillTree(shards, s);
      if made.None? { return Crash; }
      shards, i := made.value, i + 1;
    }
    return Loaded(shards);
  }

  /** Dump an index walked in any order, load the file: the same index, when and only when the
      parallelism is at most one and no name holds values of two kinds. */
  method DumpThenLoad(ghost index: seq<Shard>, ws: seq<Walk>) returns (r: Outcome)
    requires |ws| == |index| && Dumpable(ws) && IndexOK(index)
    requires forall i :: 0 <= i < |ws| ==> Walks(ws[i], index[i])
    ensures |index| == 1 ==> r == Loaded([DumpedShard(index[0])])
    ensures |index| > 1 ==> r == Crash
    ensures r == Loaded(index) <==> |index| <= 1 && forall i :: 0 <= i < |index| ==> Unmixed(index[i])
  {
    hide Dump;
    hide Load;
    hide Unmixed;
    var file := DumpIndex(ws);
    r := LoadIndex(file);
    MdbRoundTrip(index, ws);
  }
}
