/**
  The MDB file: what dumping an index writes and what loading a file builds, as
  functions. Trees are dumped in the order a walk meets them and loaded as maps.

  A load that dereferences the NULL of a failed read ends in Crash (or None).
 */
module MdbFormat {
  import opened Basics
  import opened BinFile

  /** A (file, object) pair: positions in the path lists of a shard. */
  datatype Pair = Pair(shard: nat, file: Word64, obj: Word64)

  datatype Value = IntVal(i: Int32) | FloatVal(bits: Word64) | TextVal(text: Text)

  datatype Kind = Ints | Floats | Texts | Unknown

  /** A value tree of one attribute. */
  datatype Leaf = Leaf(kind: Kind, values: map<Value, seq<Pair>>)

  /** An entry of a path list; inserting behind the end of a list pads it. */
  datatype Entry = Pad | Entry(tag: Option<Text>, pos: Word64)

  datatype Shard = Shard(files: seq<Entry>, objects: seq<Entry>, names: map<Text, Leaf>)

  // ---------------------------------------------------------------------
  // An index as the dump walks it

  datatype Node = Node(value: Value, pairs: seq<Pair>)

  datatype Attr = Attr(name: Text, kind: Kind, nodes: seq<Node>)

  datatype Path = Path(tag: Text, pos: Word64)

  datatype Walk = Walk(files: seq<Path>, objects: seq<Path>, attrs: seq<Attr>)

  predicate KindFits(kind: Kind, v: Value) {
    match kind
    case Ints => v.IntVal?
    case Floats => v.FloatVal?
    case Texts => v.TextVal?
    case Unknown => false
  }

  /** Values are of the kind of their tree, and all counts fit a size_t. */
  predicate NodesOK(ns: seq<Node>, kind: Kind) {
    |ns| < WORD_LIMIT && forall i :: 0 <= i < |ns| ==> KindFits(kind, ns[i].value) && |ns[i].pairs| < WORD_LIMIT
  }

  predicate AttrOK(a: Attr) {
    !a.kind.Unknown? && NodesOK(a.nodes, a.kind)
  }

  predicate AttrsOK(attrs: seq<Attr>) {
    |attrs| < WORD_LIMIT && forall i :: 0 <= i < |attrs| ==> AttrOK(attrs[i])
  }

  /** Every path carries its own position, as interning leaves it. */
  predicate Interned(ps: seq<Path>) {
    |ps| < WORD_LIMIT && forall i :: 0 <= i < |ps| ==> ps[i].pos == i
  }

  predicate WalkOK(w: Walk) {
    Interned(w.files) && Interned(w.objects) && AttrsOK(w.attrs)
  }

  predicate Dumpable(ws: seq<Walk>) {
    |ws| < INT_LIMIT && forall i :: 0 <= i < |ws| ==> WalkOK(ws[i])
  }

  // ---------------------------------------------------------------------
  // Dumping

  function PutPairs(ps: seq<Pair>): File {
    if ps == [] then [] else PutSize(ps[0].file) + PutSize(ps[0].obj) + PutPairs(ps[1..])
  }

  function PutPairList(ps: seq<Pair>): File
    requires |ps| < WORD_LIMIT
  {
    PutSize(|ps|) + PutPairs(ps)
  }

  function PutValue(v: Value): File {
    match v
    case IntVal(i) => PutInt(i)
    case FloatVal(bits) => PutDouble(bits)
    case TextVal(text) => PutString(text)
  }

  function PutNodes(ns: seq<Node>, kind: Kind): File
    requires NodesOK(ns, kind)
  {
    if ns == [] then [] else PutValue(ns[0].value) + PutPairList(ns[0].pairs) + PutNodes(ns[1..], kind)
  }

  function KindCode(kind: Kind): Int32 {
    match kind case Ints => 1 case Floats => 2 case Texts => 3 case Unknown => 0
  }

  function PutAttr(a: Attr): File
    requires AttrOK(a)
  {
    PutString(a.name) + PutInt(KindCode(a.kind)) + PutUint64(|a.nodes|) + PutNodes(a.nodes, a.kind)
  }

  function PutAttrs(attrs: seq<Attr>): File
    requires AttrsOK(attrs)
  {
    if attrs == [] then [] else PutAttr(attrs[0]) + PutAttrs(attrs[1..])
  }

  function PutTree(attrs: seq<Attr>): File
    requires AttrsOK(attrs)
  {
    PutUint64(|attrs|) + PutAttrs(attrs)
  }

  function PutPaths(ps: seq<Path>): File {
    if ps == [] then [] else PutString(ps[0].tag) + PutSize(ps[0].pos) + PutPaths(ps[1..])
  }

  function PutPathList(ps: seq<Path>): File
    requires |ps| < WORD_LIMIT
  {
    PutSize(|ps|) + PutPaths(ps)
  }

  /** The attribute regions of the shards from the `j`-th on. */
  function PutTrees(ws: seq<Walk>, j: nat): File
    requires Dumpable(ws) && j <= |ws|
    decreases |ws| - j
  {
    if j == |ws| then [] else PutTree(ws[j].attrs) + PutTrees(ws, j + 1)
  }

  /** The shards from the `i`-th on: each is followed by the attribute regions of all. */
  function PutShards(ws: seq<Walk>, i: nat): File
    requires Dumpable(ws) && i <= |ws|
    decreases |ws| - i
  {
    if i == |ws| then []
    else PutPathList(ws[i].files) + PutPathList(ws[i].objects) + PutTrees(ws, 0) + PutShards(ws, i + 1)
  }

  function Dump(ws: seq<Walk>): File
    requires Dumpable(ws)
  {
    PutSize(|ws|) + PutShards(ws, 0)
  }

  // ---------------------------------------------------------------------
  // Loading

  function ReadPairs(n: nat, acc: seq<Pair>, s: File): Option<(seq<Pair>, File)>
    decreases n
  {
    if n == 0 then Some((acc, s)) else
    var (f, s1) := ReadSize(s);
    var (o, s2) := ReadSize(s1);
    if f.None? || o.None? then None else ReadPairs(n - 1, acc + [Pair(0, f.value, o.value)], s2)
  }

  function ReadPairList(s: File): Option<(seq<Pair>, File)> {
    var (n, s1) := ReadSize(s);
    if n.None? then None else ReadPairs(n.value, [], s1)
  }

  /** Without a list to fill, the pairs are read and dropped. */
  function SkipPairs(n: nat, s: File): File
    decreases n
  {
    if n == 0 then s else SkipPairs(n - 1, ReadSize(ReadSize(s).1).1)
  }

  function ReadValue(kind: Kind, s: File): (r: (Option<Value>, File))
    ensures |r.1| <= |s|
  {
    match kind
    case Ints => (var (v, s1) := ReadInt(s); (if v.Some? then Some(IntVal(v.value)) else None, s1))
    case Floats => (var (v, s1) := ReadDouble(s); (if v.Some? then Some(FloatVal(v.value)) else None, s1))
    case Texts => (var (v, s1) := ReadString(s); (if v.Some? then Some(TextVal(v.value)) else None, s1))
    case Unknown => (None, s)
  }

  function ReadNode(kind: Kind, m: map<Value, seq<Pair>>, s: File): Option<(map<Value, seq<Pair>>, File)> {
    var (v, s1) := ReadValue(kind, s);
    if v.Some? then
      var ps := ReadPairList(s1);
      if ps.None? then None else Some((m[v.value := ps.value.0], ps.value.1))
    else
      var (n, s2) := ReadSize(s1);
      if n.None? then None else Some((m, SkipPairs(n.value, s2)))
  }

  function ReadNodes(n: nat, kind: Kind, m: map<Value, seq<Pair>>, s: File): Option<(map<Value, seq<Pair>>, File)>
    decreases n
  {
    if n == 0 then Some((m, s)) else
    var r := ReadNode(kind, m, s);
    if r.None? then None else ReadNodes(n - 1, kind, r.value.0, r.value.1)
  }

  function KindOf(code: int): Kind {
    match code case 1 => Ints case 2 => Floats case 3 => Texts case _ => Unknown
  }

  function ReadLeaf(s: File): Option<(Leaf, File)> {
    var (code, s1) := ReadInt(s);
    if code.None? then None else
    var kind := KindOf(code.value);
    var (n, s2) := ReadUint64(s1);
    if n.None? then None else
    var r := ReadNodes(n.value, kind, map[], s2);
    if r.None? then None else Some((Leaf(kind, r.value.0), r.value.1))
  }

  /** The hash that picks the shard of an attribute name. */
  function Djb2(k: seq<byte>): nat {
    if k == [] then 5381 else (Djb2(k[..|k| - 1]) * 33 + k[|k| - 1]) % WORD_LIMIT
  }

  function ShardOf(name: Text, p: nat): (i: nat)
    requires p > 0
    ensures i < p
  {
    Djb2(name) % p
  }

  /** Hashes in numbers: 5381 for no byte, then 33 times the hash so far plus the byte. */
  lemma {:induction false} DjbShort(a: byte, b: byte)
    ensures Djb2([]) == 5381 && Djb2([a]) == 177573 + a && Djb2([a, b]) == 5859909 + 33 * a + b
    ensures a != 0 ==> forall p: nat :: p > 0 ==> ShardOf([a], p) == (177573 + a) % p
  {
    assert [a][..0] == [] && [a, b][..1] == [a];
  }

  function ReadAttr(shards: seq<Shard>, s: File): Option<(seq<Shard>, File)>
    requires |shards| > 0
  {
    var (name, s1) := ReadString(s);
    if name.None? then None else
    var leaf := ReadLeaf(s1);
    if leaf.None? then None else
    var i := ShardOf(name.value, |shards|);
    Some((shards[i := shards[i].(names := shards[i].names[name.value := leaf.value.0])], leaf.value.1))
  }

  function ReadAttrs(n: nat, shards: seq<Shard>, s: File): (r: Option<(seq<Shard>, File)>)
    requires |shards| > 0
    ensures r.Some? ==> |r.value.0| == |shards|
    decreases n
  {
    if n == 0 then Some((shards, s)) else
    var r := ReadAttr(shards, s);
    if r.None? then None else ReadAttrs(n - 1, r.value.0, r.value.1)
  }

  function ReadTree(shards: seq<Shard>, s: File): (r: Option<(seq<Shard>, File)>)
    requires |shards| > 0
    ensures r.Some? ==> |r.value.0| == |shards|
  {
    var (n, s1) := ReadUint64(s);
    if n.None? then None else ReadAttrs(n.value, shards, s1)
  }

  /** list_insert: in front, at the end, in the middle, or behind padding. */
  function InsertEntry(list: seq<Entry>, e: Entry, pos: nat): (r: seq<Entry>)
    ensures |r| == (if pos <= |list| then |list| else pos) + 1 && r[pos] == e
    ensures forall i :: 0 <= i < pos ==> r[i] == if i < |list| then list[i] else Pad
    ensures forall i :: pos < i < |r| ==> r[i] == list[i - 1]
  {
    if pos <= |list| then list[..pos] + [e] + list[pos..]
    else list + seq(pos - |list|, _ => Pad) + [e]
  }

  function ReadPaths(n: nat, list: seq<Entry>, s: File): Option<(seq<Entry>, File)>
    decreases n
  {
    if n == 0 then Some((list, s)) else
    var (tag, s1) := ReadString(s);
    var (pos, s2) := ReadSize(s1);
    if pos.None? then None else ReadPaths(n - 1, InsertEntry(list, Entry(tag, pos.value), pos.value), s2)
  }

  function ReadPathList(list: seq<Entry>, s: File): Option<(seq<Entry>, File)> {
    var (n, s1) := ReadSize(s);
    if n.None? then None else ReadPaths(n.value, list, s1)
  }

  datatype Outcome = Crash | NoIndex | Loaded(shards: seq<Shard>)

  /** One turn of the loading loop: two path lists and one attribute region. */
  function ReadShard(shards: seq<Shard>, i: nat, s: File): (r: Option<(seq<Shard>, File)>)
    requires i < |shards|
    ensures r.Some? ==> |r.value.0| == |shards|
  {
    var files := ReadPathList(shards[i].files, s);
    if files.None? then None else
    var objects := ReadPathList(shards[i].objects, files.value.1);
    if objects.None? then None else
    ReadTree(shards[i := shards[i].(files := files.value.0, objects := objects.value.0)], objects.value.1)
  }

  function ReadShards(shards: seq<Shard>, i: nat, s: File): Outcome
    requires i <= |shards|
    decreases |shards| - i
  {
    if i == |shards| then Loaded(shards) else
    var r := ReadShard(shards, i, s);
    if r.None? then Crash else ReadShards(r.value.0, i + 1, r.value.1)
  }

  const FreshShard := Shard([], [], map[])

  /** The parallelism is kept in an int. */
  function AsCount(p: nat): nat {
    var q := p % (2 * INT_LIMIT);
    if q < INT_LIMIT then q else 0
  }

  /** In numbers: a count of 2^31 up to 2^32 is negative and loads no shard, and 2^32 wraps around. */
  lemma {:induction false} CountNumbers(p: nat)
    ensures p < 0x8000_0000 ==> AsCount(p) == p
    ensures 0x8000_0000 <= p < 0x1_0000_0000 ==> AsCount(p) == 0
    ensures AsCount(p + 0x1_0000_0000) == AsCount(p)
  {
  }

  /** Loading a file when there is no index yet. */
  function Load(s: File): Outcome {
    if s == [] then NoIndex else
    var (p, s1) := ReadSize(s);
    if p.None? then Crash else ReadShards(seq(AsCount(p.value), _ => FreshShard), 0, s1)
  }

  // ---------------------------------------------------------------------
  // What a load builds from a walk

  /** The shard of a pair is not in the file. */
  function Reread(ps: seq<Pair>): seq<Pair> {
    seq(|ps|, i requires 0 <= i < |ps| => Pair(0, ps[i].file, ps[i].obj))
  }

  function ValuesOf(ns: seq<Node>): map<Value, seq<Pair>> {
    if ns == [] then map[] else ValuesOf(ns[..|ns| - 1])[ns[|ns| - 1].value := Reread(ns[|ns| - 1].pairs)]
  }

  function NamesOf(attrs: seq<Attr>): map<Text, Leaf> {
    if attrs == [] then map[] else
    var a := attrs[|attrs| - 1];
    NamesOf(attrs[..|attrs| - 1])[a.name := Leaf(a.kind, ValuesOf(a.nodes))]
  }

  function EntriesOf(ps: seq<Path>): seq<Entry> {
    seq(|ps|, i requires 0 <= i < |ps| => Entry(Some(ps[i].tag), ps[i].pos))
  }

  function ShardOfWalk(w: Walk): Shard {
    Shard(EntriesOf(w.files), EntriesOf(w.objects), NamesOf(w.attrs))
  }

  // ---------------------------------------------------------------------
  // Round trips

  lemma {:induction false} PairsBack(ps: seq<Pair>, acc: seq<Pair>, rest: File)
    ensures ReadPairs(|ps|, acc, PutPairs(ps) + rest) == Some((acc + Reread(ps), rest))
    decreases |ps|
  {
    hide PutSize;
    hide ReadSize;
    if ps == [] {
      assert PutPairs(ps) + rest == rest && acc + Reread(ps) == acc;
    } else {
      var more := PutPairs(ps[1..]) + rest;
      assert PutPairs(ps) + rest == PutSize(ps[0].file) + (PutSize(ps[0].obj) + more);
      SizeBack(ps[0].file, PutSize(ps[0].obj) + more);
      SizeBack(ps[0].obj, more);
      PairsBack(ps[1..], acc + [Pair(0, ps[0].file, ps[0].obj)], rest);
      assert acc + [Pair(0, ps[0].file, ps[0].obj)] + Reread(ps[1..]) == acc + Reread(ps);
    }
  }

  lemma {:induction false} PairListBack(ps: seq<Pair>, rest: File)
    requires |ps| < WORD_LIMIT
    ensures ReadPairList(PutPairList(ps) + rest) == Some((Reread(ps), rest))
  {
    assert PutPairList(ps) + rest == PutSize(|ps|) + (PutPairs(ps) + rest);
    SizeBack(|ps|, PutPairs(ps) + rest);
    PairsBack(ps, [], rest);
    assert [] + Reread(ps) == Reread(ps);
  }

  lemma {:induction false} ValueBack(kind: Kind, v: Value, rest: File)
    requires KindFits(kind, v)
    ensures ReadValue(kind, PutValue(v) + rest) == (Some(v), rest)
  {
    match v
    case IntVal(i) => IntBack(i, rest);
    case FloatVal(bits) => DoubleBack(bits, rest);
    case TextVal(text) => StringBack(text, rest);
  }

  lemma {:induction false} NodeBack(kind: Kind, n: Node, m: map<Value, seq<Pair>>, rest: File)
    requires KindFits(kind, n.value) && |n.pairs| < WORD_LIMIT
    ensures ReadNode(kind, m, PutValue(n.value) + PutPairList(n.pairs) + rest) == Some((m[n.value := Reread(n.pairs)], rest))
  {
    var more := PutPairList(n.pairs) + rest;
    assert PutValue(n.value) + PutPairList(n.pairs) + rest == PutValue(n.value) + more;
    ValueBack(kind, n.value, more);
    PairListBack(n.pairs, rest);
  }

  lemma {:induction false} PairsSkipped(ps: seq<Pair>, rest: File)
    ensures SkipPairs(|ps|, PutPairs(ps) + rest) == rest
    decreases |ps|
  {
    hide PutSize;
    hide ReadSize;
    if ps == [] {
      assert PutPairs(ps) + rest == rest;
    } else {
      var more := PutPairs(ps[1..]) + rest;
      assert PutPairs(ps) + rest == PutSize(ps[0].file) + (PutSize(ps[0].obj) + more);
      SizeBack(ps[0].file, PutSize(ps[0].obj) + more);
      SizeBack(ps[0].obj, more);
      PairsSkipped(ps[1..], rest);
    }
  }

  /** A value of another type than its attribute's is dropped together with its pairs, and reading goes
      on behind them. */
  lemma {:induction false} OtherValueSkipped(kind: Kind, n: Node, m: map<Value, seq<Pair>>, rest: File)
    requires !kind.Unknown? && !KindFits(kind, n.value) && |n.pairs| < WORD_LIMIT
    ensures ReadNode(kind, m, PutValue(n.value) + PutPairList(n.pairs) + rest) == Some((m, rest))
  {
    hide ReadSize;
    hide PutSize;
    hide ReadValue;
    hide PutValue;
    hide PutPairs;
    hide SkipPairs;
    var pairs := PutPairs(n.pairs) + rest;
    var more := PutSize(|n.pairs|) + pairs;
    assert PutValue(n.value) + PutPairList(n.pairs) + rest == PutValue(n.value) + more;
    OtherValue(kind, n.value, more);
    SizeBack(|n.pairs|, pairs);
    PairsSkipped(n.pairs, rest);
  }

  lemma {:induction false} OtherValue(kind: Kind, v: Value, rest: File)
    requires !kind.Unknown? && !KindFits(kind, v)
    ensures ReadValue(kind, PutValue(v) + rest) == (None, rest)
  {
    hide ReadGeneral;
    match v
    case IntVal(i) => FieldBack(1, 1, IntBytes(i), rest);
    case FloatVal(bits) => FieldBack(2, 1, ToBytes(bits, 8), rest);
    case TextVal(text) => FieldBack(3, |text|, text, rest);
  }

  /** A value of an attribute of unknown type is not read at all: what follows is taken for the number
      of its pairs, which the load does not survive. */
  lemma {:induction false} UnknownKind(v: Value, m: map<Value, seq<Pair>>, rest: File)
    ensures ReadNode(Unknown, m, PutValue(v) + rest) == None
  {
    hide ReadGeneral;
    match v
    case IntVal(i) => FieldBack(1, 1, IntBytes(i), rest);
    case FloatVal(bits) => FieldBack(2, 1, ToBytes(bits, 8), rest);
    case TextVal(text) => FieldBack(3, |text|, text, rest);
  }

  lemma {:induction false} NodesBack(all: seq<Node>, i: nat, kind: Kind, rest: File)
    requires i <= |all| && NodesOK(all, kind)
    ensures ReadNodes(|all| - i, kind, ValuesOf(all[..i]), PutNodes(all[i..], kind) + rest) == Some((ValuesOf(all), rest))
    decreases |all| - i
  {
    hide PutValue;
    hide PutPairList;
    hide ReadNode;
    hide KindFits;
    if i == |all| {
      assert all[..i] == all && PutNodes(all[i..], kind) + rest == rest;
    } else {
      var n, more := all[i], PutNodes(all[i + 1..], kind) + rest;
      assert all[i..][1..] == all[i + 1..] && all[i..][0] == n;
      assert PutNodes(all[i..], kind) + rest == PutValue(n.value) + PutPairList(n.pairs) + more;
      NodeBack(kind, n, ValuesOf(all[..i]), more);
      assert all[..i + 1][..i] == all[..i] && all[..i + 1][i] == n;
      NodesBack(all, i + 1, kind, rest);
    }
  }

  lemma {:induction false} LeafBack(a: Attr, rest: File)
    requires AttrOK(a)
    ensures ReadString(PutAttr(a) + rest).0 == Some(a.name)
    ensures ReadLeaf(ReadString(PutAttr(a) + rest).1) == Some((Leaf(a.kind, ValuesOf(a.nodes)), rest))
  {
    hide PutString;
    hide ReadString;
    hide PutInt;
    hide ReadInt;
    hide PutUint64;
    hide ReadUint64;
    hide PutNodes;
    hide ReadNodes;
    var nodes := PutNodes(a.nodes, a.kind) + rest;
    var count := PutUint64(|a.nodes|) + nodes;
    var kind := PutInt(KindCode(a.kind)) + count;
    assert PutAttr(a) + rest == PutString(a.name) + kind;
    StringBack(a.name, kind);
    IntBack(KindCode(a.kind), count);
    Uint64Back(|a.nodes|, nodes);
    assert a.nodes[0..] == a.nodes && a.nodes[..0] == [];
    NodesBack(a.nodes, 0, a.kind, rest);
  }

  lemma {:induction false} AttrBack(a: Attr, shard: Shard, rest: File)
    requires AttrOK(a)
    ensures ReadAttr([shard], PutAttr(a) + rest) ==
            Some(([shard.(names := shard.names[a.name := Leaf(a.kind, ValuesOf(a.nodes))])], rest))
  {
    hide PutAttr;
    hide ReadString;
    hide ReadLeaf;
    hide AttrOK;
    hide Djb2;
    hide ValuesOf;
    LeafBack(a, rest);
    assert ShardOf(a.name, 1) == 0;
    var made := shard.(names := shard.names[a.name := Leaf(a.kind, ValuesOf(a.nodes))]);
    assert [shard][0 := made] == [made];
  }

  lemma {:induction false} AttrsBack(all: seq<Attr>, i: nat, shard: Shard, rest: File)
    requires i <= |all| && AttrsOK(all)
    ensures ReadAttrs(|all| - i, [shard.(names := NamesOf(all[..i]))], PutAttrs(all[i..]) + rest) ==
            Some(([shard.(names := NamesOf(all))], rest))
    decreases |all| - i
  {
    hide PutAttr;
    hide ReadAttr;
    hide AttrOK;
    hide ValuesOf;
    if i == |all| {
      assert all[..i] == all && PutAttrs(all[i..]) + rest == rest;
    } else {
      var a, more := all[i], PutAttrs(all[i + 1..]) + rest;
      assert all[i..][1..] == all[i + 1..] && all[i..][0] == a;
      assert PutAttrs(all[i..]) + rest == PutAttr(a) + more;
      AttrBack(a, shard.(names := NamesOf(all[..i])), more);
      assert all[..i + 1][..i] == all[..i] && all[..i + 1][i] == a;
      AttrsBack(all, i + 1, shard, rest);
    }
  }

  lemma {:induction false} TreeBack(attrs: seq<Attr>, shard: Shard, rest: File)
    requires AttrsOK(attrs) && shard.names == map[]
    ensures ReadTree([shard], PutTree(attrs) + rest) == Some(([shard.(names := NamesOf(attrs))], rest))
  {
    hide PutUint64;
    hide ReadUint64;
    hide PutAttrs;
    hide ReadAttrs;
    var more := PutAttrs(attrs) + rest;
    assert PutTree(attrs) + rest == PutUint64(|attrs|) + more;
    Uint64Back(|attrs|, more);
    assert attrs[0..] == attrs && attrs[..0] == [];
    AttrsBack(attrs, 0, shard, rest);
  }

  lemma {:induction false} PathsBack(all: seq<Path>, i: nat, rest: File)
    requires i <= |all| && Interned(all)
    ensures ReadPaths(|all| - i, EntriesOf(all[..i]), PutPaths(all[i..]) + rest) == Some((EntriesOf(all), rest))
    decreases |all| - i
  {
    hide PutString;
    hide ReadString;
    hide PutSize;
    hide ReadSize;
    if i == |all| {
      assert all[..i] == all && PutPaths(all[i..]) + rest == rest;
    } else {
      var e, more := all[i], PutPaths(all[i + 1..]) + rest;
      assert all[i..][1..] == all[i + 1..] && all[i..][0] == e;
      assert PutPaths(all[i..]) + rest == PutString(e.tag) + (PutSize(e.pos) + more);
      StringBack(e.tag, PutSize(e.pos) + more);
      SizeBack(e.pos, more);
      assert InsertEntry(EntriesOf(all[..i]), Entry(Some(e.tag), e.pos), i) == EntriesOf(all[..i + 1]);
      PathsBack(all, i + 1, rest);
    }
  }

  lemma {:induction false} PathListBack(ps: seq<Path>, rest: File)
    requires Interned(ps)
    ensures ReadPathList([], PutPathList(ps) + rest) == Some((EntriesOf(ps), rest))
  {
    hide PutSize;
    hide ReadSize;
    hide PutPaths;
    hide ReadPaths;
    assert PutPathList(ps) + rest == PutSize(|ps|) + (PutPaths(ps) + rest);
    SizeBack(|ps|, PutPaths(ps) + rest);
    assert ps[0..] == ps && EntriesOf(ps[..0]) == [];
    PathsBack(ps, 0, rest);
  }

  /** One shard: what the dump of its two lists and its region loads to. */
  lemma {:induction false} ShardBack(w: Walk, rest: File)
    requires WalkOK(w)
    ensures ReadShard([FreshShard], 0, PutPathList(w.files) + PutPathList(w.objects) + PutTree(w.attrs) + rest) ==
            Some(([ShardOfWalk(w)], rest))
  {
    hide PutPathList;
    hide ReadPathList;
    hide PutTree;
    hide ReadTree;
    hide AttrsOK;
    hide NamesOf;
    hide EntriesOf;
    var tree := PutTree(w.attrs) + rest;
    var objects := PutPathList(w.objects) + tree;
    assert PutPathList(w.files) + PutPathList(w.objects) + PutTree(w.attrs) + rest == PutPathList(w.files) + objects;
    PathListBack(w.files, objects);
    PathListBack(w.objects, tree);
    var shard := FreshShard.(files := EntriesOf(w.files), objects := EntriesOf(w.objects));
    assert [FreshShard][0 := shard] == [shard];
    TreeBack(w.attrs, shard, rest);
  }

  /** Dumping and loading a single shard reproduces it: both path lists, every attribute, every
      value and every pair, in order. */
  lemma {:induction false} OneShardBack(w: Walk)
    requires Dumpable([w])
    ensures Load(Dump([w])) == Loaded([ShardOfWalk(w)])
  {
    hide PutPathList;
    hide PutTree;
    hide ReadShard;
    hide ReadSize;
    hide ShardOfWalk;
    hide AttrsOK;
    var ws := [w];
    assert WalkOK(ws[0]);
    var s := PutPathList(w.files) + PutPathList(w.objects) + PutTree(w.attrs) + [];
    assert PutTrees(ws, 0) == PutTree(w.attrs) + PutTrees(ws, 1) && PutTrees(ws, 1) == [];
    assert PutShards(ws, 0) == s;
    SizeBack(1, s);
    ShardBack(w, []);
    assert AsCount(1) == 1 && seq(1, _ => FreshShard) == [FreshShard];
    assert ReadShards([ShardOfWalk(w)], 1, []) == Loaded([ShardOfWalk(w)]);
    assert ReadShards([FreshShard], 0, s) == ReadShards([ShardOfWalk(w)], 1, []);
  }

  // ---------------------------------------------------------------------
  // More than one shard

  /** An attribute region is consumed whole, however many shards there are. */
  lemma {:induction false} AttrsConsumed(all: seq<Attr>, i: nat, shards: seq<Shard>, rest: File)
    requires i <= |all| && AttrsOK(all) && |shards| > 0
    ensures var r := ReadAttrs(|all| - i, shards, PutAttrs(all[i..]) + rest); r.Some? && r.value.1 == rest
    decreases |all| - i
  {
    hide PutAttr;
    hide ReadLeaf;
    hide ReadString;
    hide AttrOK;
    hide ValuesOf;
    if i == |all| {
      assert PutAttrs(all[i..]) + rest == rest;
    } else {
      var a, more := all[i], PutAttrs(all[i + 1..]) + rest;
      assert all[i..][1..] == all[i + 1..] && all[i..][0] == a;
      assert PutAttrs(all[i..]) + rest == PutAttr(a) + more;
      LeafBack(a, more);
      AttrsConsumed(all, i + 1, ReadAttr(shards, PutAttr(a) + more).value.0, rest);
    }
  }

  lemma {:induction false} TreeConsumed(attrs: seq<Attr>, shards: seq<Shard>, rest: File)
    requires AttrsOK(attrs) && |shards| > 0
    ensures var r := ReadTree(shards, PutTree(attrs) + rest); r.Some? && r.value.1 == rest
  {
    hide PutUint64;
    hide ReadUint64;
    hide PutAttrs;
    hide ReadAttrs;
    hide AttrOK;
    var more := PutAttrs(attrs) + rest;
    assert PutTree(attrs) + rest == PutUint64(|attrs|) + more;
    Uint64Back(|attrs|, more);
    assert attrs[0..] == attrs;
    AttrsConsumed(attrs, 0, shards, rest);
  }

  lemma {:induction false} ShardConsumed(w: Walk, shards: seq<Shard>, rest: File)
    requires WalkOK(w) && |shards| > 0 && shards[0] == FreshShard
    ensures var r := ReadShard(shards, 0, PutPathList(w.files) + PutPathList(w.objects) + PutTree(w.attrs) + rest);
            r.Some? && r.value.1 == rest
  {
    hide PutPathList;
    hide ReadPathList;
    hide PutTree;
    hide ReadTree;
    hide AttrsOK;
    hide EntriesOf;
    var tree := PutTree(w.attrs) + rest;
    var objects := PutPathList(w.objects) + tree;
    assert PutPathList(w.files) + PutPathList(w.objects) + PutTree(w.attrs) + rest == PutPathList(w.files) + objects;
    PathListBack(w.files, objects);
    PathListBack(w.objects, tree);
    TreeConsumed(w.attrs, shards[0 := shards[0].(files := EntriesOf(w.files), objects := EntriesOf(w.objects))], rest);
  }

  /** After its first shard a dump goes on with another attribute region, where a load wants a
      path list: it fails on the second turn. */
  lemma {:induction false} ManyShardsCrash(ws: seq<Walk>)
    requires Dumpable(ws) && |ws| >= 2
    ensures Load(Dump(ws)) == Crash
  {
    hide ReadSize;
    hide PutSize;
    hide PutShards;
    hide ReadShards;
    hide WalkOK;
    SizeBack(|ws|, PutShards(ws, 0));
    SecondTurn(ws);
    assert AsCount(|ws|) == |ws|;
  }

  lemma {:induction false} SecondTurn(ws: seq<Walk>)
    requires Dumpable(ws) && |ws| >= 2
    ensures ReadShards(seq(|ws|, _ => FreshShard), 0, PutShards(ws, 0)) == Crash
  {
    hide PutPathList;
    hide PutAttrs;
    hide ReadShard;
    hide ReadSize;
    hide PutTrees;
    hide PutTree;
    hide PutShards;
    hide PutUint64;
    FirstRegions(ws);
    var more := PutAttrs(ws[1].attrs) + PutTrees(ws, 2) + PutShards(ws, 1);
    var rest := PutUint64(|ws[1].attrs|) + more;
    var made := seq(|ws|, _ => FreshShard);
    ShardConsumed(ws[0], made, rest);
    hide WalkOK;
    var second := ReadShard(made, 0, PutShards(ws, 0)).value.0;
    Uint64Back(|ws[1].attrs|, more);
    NoPathList(second, 1, rest);
    assert ReadShards(second, 1, rest) == Crash;
  }

  lemma {:induction false} NoPathList(shards: seq<Shard>, i: nat, s: File)
    requires i < |shards| && ReadSize(s).0.None?
    ensures ReadShard(shards, i, s).None?
  {
  }

  lemma {:induction false} FirstRegions(ws: seq<Walk>)
    requires Dumpable(ws) && |ws| >= 2
    ensures WalkOK(ws[0]) && WalkOK(ws[1])
    ensures PutShards(ws, 0) ==
            PutPathList(ws[0].files) + PutPathList(ws[0].objects) + PutTree(ws[0].attrs) +
            (PutUint64(|ws[1].attrs|) + (PutAttrs(ws[1].attrs) + PutTrees(ws, 2) + PutShards(ws, 1)))
  {
    hide PutPathList;
    hide PutAttrs;
    hide PutUint64;
    hide AttrOK;
    assert WalkOK(ws[0]) && WalkOK(ws[1]);
    assert PutTrees(ws, 1) == PutUint64(|ws[1].attrs|) + PutAttrs(ws[1].attrs) + PutTrees(ws, 2);
    assert PutTrees(ws, 0) == PutTree(ws[0].attrs) + PutTrees(ws, 1);
  }

  // ---------------------------------------------------------------------
  // Walks of an index

  /** What a dump keeps of a name: the values of the kind it is marked with. A name that holds integers
      and strings is marked with strings. */
  function Dumped(leaf: Leaf): Leaf {
    leaf.(values := map v | v in leaf.values && KindFits(leaf.kind, v) :: leaf.values[v])
  }

  function DumpedNames(names: map<Text, Leaf>): map<Text, Leaf> {
    map n | n in names :: Dumped(names[n])
  }

  function DumpedShard(shard: Shard): Shard {
    shard.(names := DumpedNames(shard.names))
  }

  /** All values of every name are of the kind that the name is marked with. */
  ghost predicate Unmixed(shard: Shard) {
    forall n, v :: n in shard.names && v in shard.names[n].values ==> KindFits(shard.names[n].kind, v)
  }

  /** Each value of the kind of the leaf is met exactly once, in some order. */
  ghost predicate WalksLeaf(ns: seq<Node>, leaf: Leaf) {
    && (forall i, j :: 0 <= i < j < |ns| ==> ns[i].value != ns[j].value)
    && (forall i :: 0 <= i < |ns| ==>
         ns[i].value in leaf.values && KindFits(leaf.kind, ns[i].value) && leaf.values[ns[i].value] == ns[i].pairs)
    && (forall v :: v in leaf.values && KindFits(leaf.kind, v) ==> exists i :: 0 <= i < |ns| && ns[i].value == v)
  }

  ghost predicate WalksNames(attrs: seq<Attr>, names: map<Text, Leaf>) {
    && (forall i, j :: 0 <= i < j < |attrs| ==> attrs[i].name != attrs[j].name)
    && (forall i :: 0 <= i < |attrs| ==>
         && attrs[i].name in names && names[attrs[i].name].kind == attrs[i].kind
         && WalksLeaf(attrs[i].nodes, names[attrs[i].name]))
    && (forall n :: n in names ==> exists i :: 0 <= i < |attrs| && attrs[i].name == n)
  }

  ghost predicate Walks(w: Walk, shard: Shard) {
    shard.files == EntriesOf(w.files) && shard.objects == EntriesOf(w.objects) && WalksNames(w.attrs, shard.names)
  }

  /** Every pair names one of `p` shards. */
  ghost predicate PairsIn(leaf: Leaf, p: nat) {
    forall v, i :: v in leaf.values && 0 <= i < |leaf.values[v]| ==> leaf.values[v][i].shard < p
  }

  ghost predicate IndexOK(index: seq<Shard>) {
    forall i, n :: 0 <= i < |index| && n in index[i].names ==> PairsIn(index[i].names[n], |index|)
  }

  lemma {:induction false} ValuesOfAt(ns: seq<Node>, i: nat)
    requires i < |ns| && forall a, b :: 0 <= a < b < |ns| ==> ns[a].value != ns[b].value
    ensures ns[i].value in ValuesOf(ns) && ValuesOf(ns)[ns[i].value] == Reread(ns[i].pairs)
  {
    if i < |ns| - 1 { ValuesOfAt(ns[..|ns| - 1], i); }
  }

  lemma {:induction false} ValuesOfKeys(ns: seq<Node>, v: Value)
    requires v in ValuesOf(ns)
    ensures exists i :: 0 <= i < |ns| && ns[i].value == v
  {
    if ns[|ns| - 1].value != v {
      ValuesOfKeys(ns[..|ns| - 1], v);
      var i :| 0 <= i < |ns| - 1 && ns[..|ns| - 1][i].value == v;
      assert ns[i].value == v;
    }
  }

  lemma {:induction false} LeafRebuilt(ns: seq<Node>, leaf: Leaf)
    requires WalksLeaf(ns, leaf) && PairsIn(leaf, 1)
    ensures ValuesOf(ns) == Dumped(leaf).values
  {
    hide KindFits;
    forall i | 0 <= i < |ns| ensures ns[i].value in ValuesOf(ns) && ValuesOf(ns)[ns[i].value] == leaf.values[ns[i].value] {
      ValuesOfAt(ns, i);
      assert Reread(ns[i].pairs) == ns[i].pairs;
    }
    forall v | v in ValuesOf(ns) ensures v in Dumped(leaf).values { ValuesOfKeys(ns, v); }
    assert ValuesOf(ns).Keys == Dumped(leaf).values.Keys;
  }

  lemma {:induction false} NamesOfAt(attrs: seq<Attr>, i: nat)
    requires i < |attrs| && forall a, b :: 0 <= a < b < |attrs| ==> attrs[a].name != attrs[b].name
    ensures attrs[i].name in NamesOf(attrs)
    ensures NamesOf(attrs)[attrs[i].name] == Leaf(attrs[i].kind, ValuesOf(attrs[i].nodes))
  {
    if i < |attrs| - 1 { NamesOfAt(attrs[..|attrs| - 1], i); }
  }

  lemma {:induction false} NamesOfKeys(attrs: seq<Attr>, n: Text)
    requires n in NamesOf(attrs)
    ensures exists i :: 0 <= i < |attrs| && attrs[i].name == n
  {
    if attrs[|attrs| - 1].name != n {
      NamesOfKeys(attrs[..|attrs| - 1], n);
      var i :| 0 <= i < |attrs| - 1 && attrs[..|attrs| - 1][i].name == n;
      assert attrs[i].name == n;
    }
  }

  lemma {:induction false} NamesRebuilt(attrs: seq<Attr>, names: map<Text, Leaf>)
    requires WalksNames(attrs, names) && forall n :: n in names ==> PairsIn(names[n], 1)
    ensures NamesOf(attrs) == DumpedNames(names)
  {
    hide PairsIn;
    hide WalksLeaf;
    hide KindFits;
    forall i | 0 <= i < |attrs|
      ensures attrs[i].name in NamesOf(attrs) && NamesOf(attrs)[attrs[i].name] == Dumped(names[attrs[i].name])
    {
      NamesOfAt(attrs, i);
      LeafRebuilt(attrs[i].nodes, names[attrs[i].name]);
    }
    hide Dumped;
    forall n | n in NamesOf(attrs) ensures n in names { NamesOfKeys(attrs, n); }
    assert NamesOf(attrs).Keys == names.Keys;
  }

  lemma {:induction false} UnmixedKept(shard: Shard)
    ensures DumpedShard(shard) == shard <==> Unmixed(shard)
  {
    hide KindFits;
    if Unmixed(shard) {
      forall n | n in shard.names ensures Dumped(shard.names[n]) == shard.names[n] {
        assert Dumped(shard.names[n]).values == shard.names[n].values;
      }
      assert DumpedNames(shard.names) == shard.names;
    }
    if DumpedShard(shard) == shard {
      forall n, v | n in shard.names && v in shard.names[n].values ensures KindFits(shard.names[n].kind, v) {
        assert v in Dumped(shard.names[n]).values by { assert DumpedNames(shard.names)[n] == shard.names[n]; }
      }
    }
  }

  /** For every index and whatever order its trees are walked in: the dump of at most one shard loads to
      the index without the values that are not of the kind of their name, and of more shards to none at
      all. It is the same index exactly when the parallelism is at most one and no name holds integers
      and strings. */
  lemma {:induction false} MdbRoundTrip(index: seq<Shard>, ws: seq<Walk>)
    requires |ws| == |index| && Dumpable(ws) && IndexOK(index)
    requires forall i :: 0 <= i < |ws| ==> Walks(ws[i], index[i])
    ensures |index| == 1 ==> Load(Dump(ws)) == Loaded([DumpedShard(index[0])])
    ensures |index| > 1 ==> Load(Dump(ws)) == Crash
    ensures Load(Dump(ws)) == Loaded(index) <==> |index| <= 1 && forall i :: 0 <= i < |index| ==> Unmixed(index[i])
  {
    hide Dump;
    hide Load;
    hide IndexOK;
    hide Walks;
    hide WalkOK;
    if |ws| == 0 {
      EmptyIndexBack(ws);
    } else if |ws| == 1 {
      assert ws == [ws[0]] && index == [index[0]];
      OneShardRebuilt(index[0], ws[0]);
      UnmixedKept(index[0]);
    } else {
      ManyShardsCrash(ws);
    }
  }

  lemma {:induction false} OneShardRebuilt(shard: Shard, w: Walk)
    requires Dumpable([w]) && IndexOK([shard]) && Walks(w, shard)
    ensures Load(Dump([w])) == Loaded([DumpedShard(shard)])
  {
    hide Dump;
    hide Load;
    hide WalkOK;
    hide NamesOf;
    hide EntriesOf;
    hide PairsIn;
    hide WalksNames;
    hide DumpedNames;
    OneShardBack(w);
    forall n | n in shard.names ensures PairsIn(shard.names[n], 1) {
      assert [shard][0] == shard;
    }
    NamesRebuilt(w.attrs, shard.names);
  }

  lemma {:induction false} EmptyIndexBack(ws: seq<Walk>)
    requires ws == []
    ensures Load(Dump(ws)) == Loaded([])
  {
    hide ReadSize;
    SizeBack(0, []);
    assert PutSize(0) + [] == PutSize(0) == Dump(ws);
  }
}
