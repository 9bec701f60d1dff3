/**
  The bytes of the files in numbers, apart from the functions that write and read them:
  the tag and length of every kind of field, the order of fields in attributes, pairs and
  records, and whole files written out.
 */
module FileLayout {
  import opened Basics
  import opened BinFile
  import opened MdbFormat
  import opened IndexRecords

  /** The bytes of a number, lowest first. */
  function Four(u: int): seq<byte>
    requires 0 <= u < 0x1_0000_0000
  {
    [u % 256, u / 0x100 % 256, u / 0x1_0000 % 256, u / 0x100_0000]
  }

  function Eight(u: int): seq<byte>
    requires 0 <= u < 0x1_0000_0000_0000_0000
  {
    Four(u % 0x1_0000_0000) + Four(u / 0x1_0000_0000)
  }

  lemma {:induction false} FourIs(u: nat)
    requires u < 0x1_0000_0000
    ensures ToBytes(u, 4) == Four(u)
  {
    var a := u / 256;
    var b := a / 256;
    var c := b / 256;
    assert ToBytes(c, 1) == [c % 256] + ToBytes(c / 256, 0);
    assert ToBytes(b, 2) == [b % 256] + ToBytes(c, 1);
    assert ToBytes(a, 3) == [a % 256] + ToBytes(b, 2);
  }

  /** The low half of a number gives the first four bytes, the high half the others. */
  lemma {:induction false} EightIs(u: nat)
    requires u < 0x1_0000_0000_0000_0000
    ensures ToBytes(u, 8) == Eight(u)
  {
    var a := u / 256;
    var b := a / 256;
    var c := b / 256;
    var d := c / 256;
    FourIs(u % 0x1_0000_0000);
    FourIs(d);
    LowDigits(u);
    assert ToBytes(c, 5) == [c % 256] + ToBytes(d, 4);
    assert ToBytes(b, 6) == [b % 256] + ToBytes(c, 5);
    assert ToBytes(a, 7) == [a % 256] + ToBytes(b, 6);
    assert ToBytes(u, 8) == [u % 256] + ToBytes(a, 7);
    hide ToBytes;
    assert ToBytes(u, 8) == [u % 256, a % 256, b % 256, c % 256] + ToBytes(d, 4);
  }

  lemma {:induction false} LowDigits(u: nat)
    ensures var r, a := u % 0x1_0000_0000, u / 256; var b := a / 256; var c := b / 256;
            && r % 256 == u % 256 && r / 0x100 % 256 == a % 256 && r / 0x1_0000 % 256 == b % 256
            && r / 0x100_0000 == c % 256 && u / 0x1_0000_0000 == c / 256
  {
    var r, a := u % 0x1_0000_0000, u / 256;
    var b := a / 256;
    LowDigit(u, 0x100_0000);
    LowDigit(a, 0x1_0000);
    LowDigit(b, 0x100);
    assert r / 256 == a % 0x100_0000 && r / 256 / 256 == b % 0x1_0000;
  }

  /** Taking a digit off and cutting a number down can be done in either order. */
  lemma {:induction false} LowDigit(u: nat, k: nat)
    requires k > 0
    ensures u % (256 * k) % 256 == u % 256 && u % (256 * k) / 256 == u / 256 % k && u / (256 * k) == u / 256 / k
  {
    var a, d := u / 256, u % 256;
    var q, r := a / k, a % k;
    var m, low := 256 * k, 256 * r + d;
    Regrouped(k, q);
    assert u == m * q + low && low < m;
    DivideExact(m, q, low);
    assert low / 256 == r && low % 256 == d;
  }

  lemma {:induction false} Regrouped(k: nat, q: nat)
    ensures 256 * (k * q) == (256 * k) * q
  {
  }

  // ---------------------------------------------------------------------
  // Fields

  /** A type, an element count and the elements. */
  function IntField(x: Int32): seq<byte> {
    [1, 0, 0, 0] + [1, 0, 0, 0, 0, 0, 0, 0] + Four(if x < 0 then x + 0x1_0000_0000 else x)
  }

  function DoubleField(bits: Word64): seq<byte> {
    [2, 0, 0, 0] + [1, 0, 0, 0, 0, 0, 0, 0] + Eight(bits)
  }

  function TextField(k: Text): seq<byte> {
    [3, 0, 0, 0] + Eight(|k|) + k
  }

  function CountField(n: Word64): seq<byte> {
    [4, 0, 0, 0] + [1, 0, 0, 0, 0, 0, 0, 0] + Eight(n)
  }

  function SizeField(n: Word64): seq<byte> {
    [5, 0, 0, 0] + [1, 0, 0, 0, 0, 0, 0, 0] + Eight(n)
  }

  lemma {:induction false} TagBytes(tag: nat)
    requires tag < 256
    ensures IntBytes(tag) == [tag, 0, 0, 0] && ToBytes(tag, 8) == [tag, 0, 0, 0, 0, 0, 0, 0]
  {
    FourIs(tag);
    EightIs(tag);
  }

  /** What is written for each type of value, tag by tag and byte by byte. */
  lemma {:induction false} FieldBytes()
    ensures forall x: Int32 :: PutInt(x) == IntField(x)
    ensures forall x: Word64 :: PutDouble(x) == DoubleField(x) && PutUint64(x) == CountField(x) && PutSize(x) == SizeField(x)
    ensures forall k: Text :: PutString(k) == TextField(k)
  {
    TagBytes(1);
    TagBytes(2);
    TagBytes(3);
    TagBytes(4);
    TagBytes(5);
    forall x: Int32 ensures PutInt(x) == IntField(x) { FourIs(if x < 0 then x + 0x1_0000_0000 else x); }
    hide Four;
    hide Eight;
    hide ToBytes;
    forall x: Word64 ensures PutDouble(x) == DoubleField(x) && PutUint64(x) == CountField(x) && PutSize(x) == SizeField(x) {
      EightIs(x);
    }
    forall k: Text ensures PutString(k) == TextField(k) { EightIs(|k|); }
  }

  /** Which bytes a reader takes for the start of a field of its type. */
  lemma {:induction false} Accepted(s: File)
    ensures ReadInt(s).0.Some? <==> [1, 0, 0, 0] + [1, 0, 0, 0, 0, 0, 0, 0] <= s
    ensures ReadDouble(s).0.Some? <==> [2, 0, 0, 0] + [1, 0, 0, 0, 0, 0, 0, 0] <= s
    ensures ReadString(s).0.Some? <==> |s| >= 12 && [3, 0, 0, 0] <= s
    ensures ReadUint64(s).0.Some? <==> [4, 0, 0, 0] + [1, 0, 0, 0, 0, 0, 0, 0] <= s
    ensures ReadSize(s).0.Some? <==> [5, 0, 0, 0] + [1, 0, 0, 0, 0, 0, 0, 0] <= s
  {
    hide ReadGeneral;
    Header(s, 1);
    Header(s, 2);
    Header(s, 3);
    Header(s, 4);
    Header(s, 5);
  }

  /** What reading a field takes off the file: a header of twelve bytes and the elements, of four, eight,
      one, eight and eight bytes or none; elements behind the end of the file are zero. */
  lemma {:induction false} GeneralField(s: File)
    requires |s| >= 12
    ensures var (g, rest) := ReadGeneral(s);
            var width := match g.tag case 1 => 4 case 2 => 8 case 3 => 1 case 4 => 8 case 5 => 8 case _ => 0;
            && IntBytes(g.tag) == s[..4] && ToBytes(g.len, 8) == s[4..12]
            && |g.payload| == g.len * width
            && (forall i :: 0 <= i < |g.payload| ==> g.payload[i] == if 12 + i < |s| then s[12 + i] else 0)
            && rest == if 12 + |g.payload| <= |s| then s[12 + |g.payload|..] else []
  {
    IntUnique(s[..4]);
    BytesUnique(s[4..12]);
    hide BytesInt;
    hide IntBytes;
    hide ToBytes;
    var left := s[12..];
    assert forall i :: 0 <= i < |left| ==> left[i] == s[12 + i];
  }

  lemma {:induction false} IntUnique(b: seq<byte>)
    requires |b| == 4
    ensures IntBytes(BytesInt(b)) == b
  {
    BytesUnique(b);
    Powers();
  }

  lemma {:induction false} Header(s: File, tag: nat)
    requires tag < 128
    ensures ReadGeneral(s).0.tag == tag <==> |s| >= 12 && [tag, 0, 0, 0] <= s
    ensures ReadGeneral(s).0.tag == tag && ReadGeneral(s).0.len == 1 <==> [tag, 0, 0, 0] + [1, 0, 0, 0, 0, 0, 0, 0] <= s
  {
    if |s| >= 12 {
      TagRead(s[..4], tag);
      OneRead(s[4..12]);
      hide BytesInt;
      hide BytesWord;
      var head := [tag, 0, 0, 0];
      var one := [1, 0, 0, 0, 0, 0, 0, 0];
      assert head <= s <==> s[..4] == head;
      assert head + one <= s <==> s[..12] == head + one;
      assert s[..12] == s[..4] + s[4..12];
    }
  }

  lemma {:induction false} TagRead(b: seq<byte>, tag: nat)
    requires |b| == 4 && tag < 128
    ensures BytesInt(b) == tag <==> b == [tag, 0, 0, 0]
  {
    BytesUnique(b);
    TagBytes(tag);
    Powers();
    BytesRoundTrip(tag, 4);
  }

  lemma {:induction false} OneRead(b: seq<byte>)
    requires |b| == 8
    ensures BytesWord(b) == 1 <==> b == [1, 0, 0, 0, 0, 0, 0, 0]
  {
    BytesUnique(b);
    TagBytes(1);
    Powers();
    BytesRoundTrip(1, 8);
  }

  /** Different bytes are different numbers. */
  lemma {:induction false} BytesUnique(b: seq<byte>)
    ensures ToBytes(FromBytes(b), |b|) == b
  {
    if b != [] {
      BytesUnique(b[1..]);
      var low: int, rest := b[0], FromBytes(b[1..]);
      var x := low + 256 * rest;
      assert FromBytes(b) == x && x % 256 == low && x / 256 == rest;
    }
  }

  /** An empty file gives no index; any other that does not start with a size_t crashes the load. */
  lemma {:induction false} NoShardCount(s: File)
    ensures Load([]) == NoIndex
    ensures s != [] && !([5, 0, 0, 0] + [1, 0, 0, 0, 0, 0, 0, 0] <= s) ==> Load(s) == Crash
  {
    hide ReadSize;
    Accepted(s);
  }

  // ---------------------------------------------------------------------
  // Attributes, pairs and records

  /** Fields with a number below 256 or a string of one letter. */
  function IntRow(x: byte): File {
    [1, 0, 0, 0] + [1, 0, 0, 0, 0, 0, 0, 0] + [x, 0, 0, 0]
  }

  function TextRow(c: byte): File {
    [3, 0, 0, 0] + [1, 0, 0, 0, 0, 0, 0, 0] + [c]
  }

  function CountRow(x: byte): File {
    [4, 0, 0, 0] + [1, 0, 0, 0, 0, 0, 0, 0] + [x, 0, 0, 0, 0, 0, 0, 0]
  }

  function SizeRow(x: byte): File {
    [5, 0, 0, 0] + [1, 0, 0, 0, 0, 0, 0, 0] + [x, 0, 0, 0, 0, 0, 0, 0]
  }

  lemma {:induction false} Rows(x: byte)
    ensures PutInt(x) == IntRow(x) && PutUint64(x) == CountRow(x) && PutSize(x) == SizeRow(x)
    ensures x != 0 ==> PutString([x]) == TextRow(x)
  {
    TagBytes(1);
    TagBytes(3);
    TagBytes(4);
    TagBytes(5);
    TagBytes(x);
    hide IntBytes;
    hide ToBytes;
  }

  /** An attribute starts with its name, its type, one of three, and the number of its values. */
  lemma {:induction false} AttrBytes(a: Attr)
    requires AttrOK(a)
    ensures var kind := match a.kind case Ints => 1 case Floats => 2 case _ => 3;
            PutAttr(a) == TextField(a.name) + IntRow(kind) + CountField(|a.nodes|) + PutNodes(a.nodes, a.kind)
  {
    FieldBytes();
    Rows(KindCode(a.kind));
    hide PutNodes;
    hide TextField;
    hide CountField;
    hide PutString;
    hide PutUint64;
    hide PutInt;
    hide IntField;
    hide IntRow;
  }

  /** A list of pairs is their number and then, for each, the position of the file and that of the
      object, forty bytes a pair. */
  lemma {:induction false} PairBytes(ps: seq<Pair>, i: nat)
    requires |ps| < WORD_LIMIT && i < |ps|
    ensures |PutPairList(ps)| == 20 + 40 * |ps| && PutPairList(ps)[..20] == SizeField(|ps|)
    ensures PutPairList(ps)[20 + 40 * i..60 + 40 * i] == SizeField(ps[i].file) + SizeField(ps[i].obj)
  {
    FieldBytes();
    hide SizeField;
    hide PutSize;
    PairsBytes(ps, i);
    var all, rest := PutPairList(ps), PutPairs(ps);
    assert all[20 + 40 * i..60 + 40 * i] == rest[40 * i..40 * i + 40];
  }

  lemma {:induction false} PairsBytes(ps: seq<Pair>, i: nat)
    requires i < |ps|
    ensures |PutPairs(ps)| == 40 * |ps| && PutPairs(ps)[40 * i..40 * i + 40] == PutSize(ps[i].file) + PutSize(ps[i].obj)
    decreases |ps|
  {
    hide PutSize;
    var head, rest := PutSize(ps[0].file) + PutSize(ps[0].obj), PutPairs(ps[1..]);
    assert PutPairs(ps) == head + rest && |head| == 40;
    if |ps| > 1 { PairsBytes(ps[1..], if i == 0 then 0 else i - 1); }
    if i > 0 { assert PutPairs(ps)[40 * i..40 * i + 40] == rest[40 * (i - 1)..40 * (i - 1) + 40]; }
  }

  function ValueField(v: Value): File {
    match v case IntVal(x) => IntField(x) case FloatVal(x) => DoubleField(x) case TextVal(x) => TextField(x)
  }

  lemma {:induction false} ValueBytes(v: Value)
    ensures PutValue(v) == ValueField(v)
  {
    FieldBytes();
  }

  /** A record is its type, its name, its value and the two paths. */
  lemma {:induction false} RecordBytes(r: Record)
    ensures var kind := match r.value case IntVal(_) => 1 case FloatVal(_) => 2 case TextVal(_) => 3;
            PutRecord(r) == IntRow(kind) + TextField(r.name) + ValueField(r.value) + TextField(r.file) + TextField(r.obj)
  {
    ValueBytes(r.value);
    ValueBytes(TextVal(r.name));
    ValueBytes(TextVal(r.file));
    ValueBytes(TextVal(r.obj));
    assert PutString(r.name) == TextField(r.name) && PutString(r.file) == TextField(r.file) && PutString(r.obj) == TextField(r.obj);
    var code := KindCode(KindOfValue(r.value));
    Rows(code);
    hide PutValue;
    hide ValueField;
    hide TextField;
    hide PutString;
    hide PutInt;
    hide IntRow;
  }

  // ---------------------------------------------------------------------
  // A whole file

  /** One file f with two objects o and p: a = 5 at (f, p), b = 1.5 at (f, o) and c = "x" at (f, o). */
  const SAMPLE: Walk := Walk(
    [Path([102], 0)],
    [Path([111], 0), Path([112], 1)],
    [Attr([97], Ints, [MdbFormat.Node(IntVal(5), [Pair(0, 0, 1)])]),
     Attr([98], Floats, [MdbFormat.Node(FloatVal(0x3FF8_0000_0000_0000), [Pair(0, 0, 0)])]),
     Attr([99], Texts, [MdbFormat.Node(TextVal([120]), [Pair(0, 0, 0)])])])

  function SampleFiles(): File {
    SizeRow(1) + TextRow(102) + SizeRow(0)
  }

  function SampleObjects(): File {
    SizeRow(2) + TextRow(111) + SizeRow(0) + TextRow(112) + SizeRow(1)
  }

  /** Name, type, number of values; the value, the number of its pairs; a file position and an object
      position. */
  function SampleInt(): File {
    TextRow(97) + IntRow(1) + CountRow(1) + IntRow(5) + SizeRow(1) + SizeRow(0) + SizeRow(1)
  }

  function SampleFloat(): File {
    TextRow(98) + IntRow(2) + CountRow(1) +
    ([2, 0, 0, 0] + [1, 0, 0, 0, 0, 0, 0, 0] + ([0, 0, 0, 0] + [0, 0, 0xF8, 0x3F])) + SizeRow(1) + SizeRow(0) + SizeRow(0)
  }

  function SampleText(): File {
    TextRow(99) + IntRow(3) + CountRow(1) + TextRow(120) + SizeRow(1) + SizeRow(0) + SizeRow(0)
  }

  /** The number of shards, the files, the objects, the number of attributes, the attributes. */
  function SampleFile(): File {
    SizeRow(1) + SampleFiles() + SampleObjects() + CountRow(3) + SampleInt() + SampleFloat() + SampleText()
  }

  /** A list of paths is their number and then, for each, its name and its position. */
  lemma {:induction false} PathsBytes(ps: seq<Path>, p: Path)
    ensures PutPaths(ps + [p]) == PutPaths(ps) + PutString(p.tag) + PutSize(p.pos)
    decreases |ps|
  {
    hide PutString;
    hide PutSize;
    if ps == [] {
      assert [p][1..] == [] && ps + [p] == [p];
    } else {
      PathsBytes(ps[1..], p);
      assert (ps + [p])[1..] == ps[1..] + [p];
    }
  }

  lemma {:induction false} TwoPaths(p: Path, q: Path)
    ensures PutPathList([p]) == PutSize(1) + PutString(p.tag) + PutSize(p.pos)
    ensures PutPathList([p, q]) == PutSize(2) + PutString(p.tag) + PutSize(p.pos) + PutString(q.tag) + PutSize(q.pos)
  {
    PathsBytes([], p);
    PathsBytes([p], q);
    hide PutString;
    hide PutSize;
    assert [] + [p] == [p] && [p] + [q] == [p, q];
  }

  lemma {:induction false} SamplePaths()
    ensures PutPathList(SAMPLE.files) == SampleFiles() && PutPathList(SAMPLE.objects) == SampleObjects()
  {
    SampleRows();
    TwoPaths(Path([102], 0), Path([102], 0));
    TwoPaths(Path([111], 0), Path([112], 1));
    hide PutPathList;
    hide PutSize;
    hide PutString;
    hide SizeRow;
    hide TextRow;
  }

  lemma {:induction false} SampleRows()
    ensures forall x: byte :: PutInt(x) == IntRow(x) && PutUint64(x) == CountRow(x) && PutSize(x) == SizeRow(x)
    ensures forall x: byte :: x != 0 ==> PutString([x]) == TextRow(x)
  {
    forall x: byte ensures PutInt(x) == IntRow(x) && PutUint64(x) == CountRow(x) && PutSize(x) == SizeRow(x) { Rows(x); }
    forall x: byte | x != 0 ensures PutString([x]) == TextRow(x) { Rows(x); }
  }

  lemma {:induction false} SampleDouble()
    ensures PutDouble(0x3FF8_0000_0000_0000) == [2, 0, 0, 0] + [1, 0, 0, 0, 0, 0, 0, 0] + ([0, 0, 0, 0] + [0, 0, 0xF8, 0x3F])
  {
    hide ToBytes;
    hide PutDouble;
    hide Eight;
    FieldBytes();
    SampleDigits();
  }

  lemma {:induction false} SampleDigits()
    ensures Eight(0x3FF8_0000_0000_0000) == [0, 0, 0, 0] + [0, 0, 0xF8, 0x3F]
  {
  }

  lemma {:induction false} SampleAttrs()
    ensures PutAttr(SAMPLE.attrs[0]) == SampleInt() && PutAttr(SAMPLE.attrs[1]) == SampleFloat() && PutAttr(SAMPLE.attrs[2]) == SampleText()
  {
    SampleRows();
    SampleDouble();
    OneNode(SAMPLE.attrs[0], IntVal(5), Pair(0, 0, 1));
    OneNode(SAMPLE.attrs[1], FloatVal(0x3FF8_0000_0000_0000), Pair(0, 0, 0));
    OneNode(SAMPLE.attrs[2], TextVal([120]), Pair(0, 0, 0));
    hide PutSize;
    hide PutString;
    hide PutInt;
    hide PutUint64;
    hide PutDouble;
    hide PutAttr;
    hide SizeRow;
    hide TextRow;
    hide CountRow;
    hide IntRow;
  }

  lemma {:induction false} ThreeAttrs(a: seq<Attr>)
    requires |a| == 3 && AttrsOK(a)
    ensures PutTree(a) == PutUint64(3) + PutAttr(a[0]) + PutAttr(a[1]) + PutAttr(a[2])
  {
    hide PutAttr;
    hide AttrOK;
    hide PutUint64;
    assert a[1..][1..] == [a[2]] && [a[2]][1..] == [];
    assert PutAttrs([a[2]]) == PutAttr(a[2]) + [];
    assert PutAttrs(a[1..]) == PutAttr(a[1]) + PutAttrs([a[2]]);
    assert PutAttrs(a) == PutAttr(a[0]) + PutAttrs(a[1..]);
  }

  /** A dump of one shard: the number of shards, the files, the objects, the attributes. */
  lemma {:induction false} OneShardBytes(w: Walk)
    requires WalkOK(w)
    ensures Dumpable([w]) && Dump([w]) == PutSize(1) + PutPathList(w.files) + PutPathList(w.objects) + PutTree(w.attrs)
  {
    hide AttrsOK;
    hide PutPathList;
    hide PutTree;
    hide PutSize;
    var ws := [w];
    assert WalkOK(ws[0]);
    var body := PutPathList(w.files) + PutPathList(w.objects) + PutTree(w.attrs);
    assert PutTrees(ws, 1) == [] && PutShards(ws, 1) == [];
    assert PutTrees(ws, 0) == PutTree(w.attrs);
    assert PutShards(ws, 0) == body;
  }

  lemma {:induction false} Joined(a: File, b: File, c: File, d: File, e: File, f: File, g: File)
    ensures a + b + c + (d + e + f + g) == a + b + c + d + e + f + g
  {
  }

  /** The dump of the sample is this file. */
  lemma {:induction false} SampleDumped()
    ensures Dumpable([SAMPLE]) && Dump([SAMPLE]) == SampleFile()
  {
    assert WalkOK(SAMPLE);
    SamplePaths();
    SampleAttrs();
    Rows(1);
    Rows(3);
    OneShardBytes(SAMPLE);
    ThreeAttrs(SAMPLE.attrs);
    Joined(SizeRow(1), SampleFiles(), SampleObjects(), CountRow(3), SampleInt(), SampleFloat(), SampleText());
    hide PutAttr;
    hide PutPathList;
    hide PutTree;
    hide PutSize;
    hide PutUint64;
    hide Dump;
    hide SampleFiles;
    hide SampleObjects;
    hide SampleInt;
    hide SampleFloat;
    hide SampleText;
    hide SizeRow;
    hide CountRow;
    hide WalkOK;
  }

  /** The index that the file loads to. */
  const SAMPLE_NAMES: map<Text, MdbFormat.Leaf> :=
    map[[97] := MdbFormat.Leaf(Ints, map[IntVal(5) := [Pair(0, 0, 1)]]),
        [98] := MdbFormat.Leaf(Floats, map[FloatVal(0x3FF8_0000_0000_0000) := [Pair(0, 0, 0)]]),
        [99] := MdbFormat.Leaf(Texts, map[TextVal([120]) := [Pair(0, 0, 0)]])]

  const SAMPLE_SHARD: Shard :=
    Shard([Entry(Some([102]), 0)], [Entry(Some([111]), 0), Entry(Some([112]), 1)], SAMPLE_NAMES)

  lemma {:induction false} SampleLoaded()
    ensures Load(SampleFile()) == Loaded([SAMPLE_SHARD])
  {
    SampleDumped();
    OneShardBack(SAMPLE);
    hide Dump;
    hide Load;
    hide SampleFile;
    SampleNames();
    SampleEntries();
    hide NamesOf;
    hide EntriesOf;
  }

  lemma {:induction false} SampleEntries()
    ensures EntriesOf(SAMPLE.files) == SAMPLE_SHARD.files && EntriesOf(SAMPLE.objects) == SAMPLE_SHARD.objects
  {
  }

  lemma {:induction false} SampleNames()
    ensures NamesOf(SAMPLE.attrs) == SAMPLE_NAMES
  {
    var a := SAMPLE.attrs;
    OneValue(IntVal(5), Pair(0, 0, 1));
    OneValue(FloatVal(0x3FF8_0000_0000_0000), Pair(0, 0, 0));
    OneValue(TextVal([120]), Pair(0, 0, 0));
    hide ValuesOf;
    assert a[..2][..1] == [a[0]] && [a[0]][..0] == [] && a[..|a| - 1] == a[..2];
    assert NamesOf([a[0]]) == map[[97] := MdbFormat.Leaf(Ints, ValuesOf(a[0].nodes))];
    assert NamesOf(a[..2]) == NamesOf([a[0]])[[98] := MdbFormat.Leaf(Floats, ValuesOf(a[1].nodes))];
    assert NamesOf(a) == NamesOf(a[..2])[[99] := MdbFormat.Leaf(Texts, ValuesOf(a[2].nodes))];
  }

  lemma {:induction false} OneValue(v: Value, p: Pair)
    requires p.shard == 0
    ensures ValuesOf([MdbFormat.Node(v, [p])]) == map[v := [p]]
  {
    var n := MdbFormat.Node(v, [p]);
    assert [n][..0] == [];
    assert Reread([p]) == [p];
  }

  lemma {:induction false} OneNode(a: Attr, v: Value, p: Pair)
    requires a.nodes == [MdbFormat.Node(v, [p])] && AttrOK(a)
    ensures PutAttr(a) == PutString(a.name) + PutInt(KindCode(a.kind)) + PutUint64(1) +
                          PutValue(v) + PutSize(1) + PutSize(p.file) + PutSize(p.obj)
  {
    hide PutSize;
    hide PutString;
    hide PutInt;
    hide PutUint64;
    hide PutValue;
    assert [p][1..] == [] && a.nodes[1..] == [];
    assert PutPairs([p]) == PutSize(p.file) + PutSize(p.obj) + [];
    assert PutNodes(a.nodes, a.kind) == PutValue(v) + PutPairList([p]) + [];
  }
}
