/**
  Self-describing fields in a binary file: a four-byte type, an eight-byte element
  count and the elements, all little-endian. A file is the bytes still to be read.
 */
module BinFile {
  import opened Basics

  const INT_LIMIT := 0x8000_0000
  const WORD_LIMIT := 0x1_0000_0000_0000_0000

  type Int32 = x: int | -INT_LIMIT <= x < INT_LIMIT

  /** A uint64_t or a size_t, or the bit pattern of a double. */
  type Word64 = x: int | 0 <= x < WORD_LIMIT

  type File = seq<byte>

  /** An integer cut down to an int, as a comparator returns a difference. */
  function CutToInt(d: int): Int32 {
    var r := d % (2 * INT_LIMIT);
    if r < INT_LIMIT then r else r - 2 * INT_LIMIT
  }

  // ---------------------------------------------------------------------
  // Numbers as bytes

  function Power(n: nat): (p: nat)
    ensures p > 0
  {
    if n == 0 then 1 else 256 * Power(n - 1)
  }

  function ToBytes(x: nat, n: nat): (s: seq<byte>)
    ensures |s| == n
  {
    if n == 0 then [] else [x % 256] + ToBytes(x / 256, n - 1)
  }

  function FromBytes(s: seq<byte>): (x: nat)
    ensures x < Power(|s|)
  {
    if s == [] then 0 else s[0] + 256 * FromBytes(s[1..])
  }

  lemma {:induction false} BytesRoundTrip(x: nat, n: nat)
    requires x < Power(n)
    ensures FromBytes(ToBytes(x, n)) == x
  {
    if n > 0 {
      BytesRoundTrip(x / 256, n - 1);
      assert ToBytes(x, n)[1..] == ToBytes(x / 256, n - 1);
    }
  }

  lemma {:induction false} Powers()
    ensures Power(4) == 0x1_0000_0000 && Power(8) == WORD_LIMIT
  {
    assert Power(2) == 256 * Power(1) && Power(3) == 256 * Power(2) && Power(4) == 256 * Power(3);
    assert Power(6) == 256 * Power(5) && Power(7) == 256 * Power(6) && Power(8) == 256 * Power(7);
  }

  /** Two's complement. */
  function IntBytes(x: Int32): (s: seq<byte>)
    ensures |s| == 4
  {
    ToBytes(if x < 0 then x + 2 * INT_LIMIT else x, 4)
  }

  function BytesInt(s: seq<byte>): Int32
    requires |s| == 4
  {
    Powers();
    var x := FromBytes(s);
    if x < INT_LIMIT then x else x - 2 * INT_LIMIT
  }

  function BytesWord(s: seq<byte>): Word64
    requires |s| == 8
  {
    Powers();
    FromBytes(s)
  }

  lemma {:induction false} IntRoundTrip(x: Int32)
    ensures BytesInt(IntBytes(x)) == x
  {
    Powers();
    BytesRoundTrip(if x < 0 then x + 2 * INT_LIMIT else x, 4);
  }

  lemma {:induction false} WordRoundTrip(x: Word64)
    ensures BytesWord(ToBytes(x, 8)) == x
  {
    Powers();
    BytesRoundTrip(x, 8);
  }

  // ---------------------------------------------------------------------
  // Writing

  function Field(tag: Int32, len: Word64, payload: seq<byte>): File {
    IntBytes(tag) + ToBytes(len, 8) + payload
  }

  function PutInt(x: Int32): File {
    Field(1, 1, IntBytes(x))
  }

  function PutDouble(x: Word64): File {
    Field(2, 1, ToBytes(x, 8))
  }

  /** The length of a string is a size_t. */
  type Text = k: Key | |k| < WORD_LIMIT

  function PutString(k: Text): File {
    Field(3, |k|, k)
  }

  function PutUint64(x: Word64): File {
    Field(4, 1, ToBytes(x, 8))
  }

  function PutSize(x: Word64): (s: File)
    ensures |s| == 20
  {
    Field(5, 1, ToBytes(x, 8))
  }

  // ---------------------------------------------------------------------
  // Reading

  datatype Raw = Raw(tag: Int32, len: Word64, payload: seq<byte>)

  /** The size of an element of each type; a field of another type has none. */
  function Width(tag: int): nat {
    match tag
    case 1 => 4
    case 2 => 8
    case 3 => 1
    case 4 => 8
    case 5 => 8
    case _ => 0
  }

  /** miqs_read_general; at the end of the file the type stays -1, and a payload cut short by
      the end of the file is filled up with zeros. */
  function ReadGeneral(s: File): (r: (Raw, File))
    ensures |r.0.payload| == r.0.len * Width(r.0.tag)
    ensures |r.1| <= |s|
    ensures r.0.tag != -1 ==> |r.1| < |s|
  {
    if |s| < 12 then (Raw(-1, 0, []), []) else
    var tag, len := BytesInt(s[..4]), BytesWord(s[4..12]);
    var need, left := len * Width(tag), s[12..];
    if need <= |left| then (Raw(tag, len, left[..need]), left[need..])
    else (Raw(tag, len, left + seq(need - |left|, _ => 0)), [])
  }

  /** A buffer as a C string: it ends before the first zero. */
  function CString(s: seq<byte>): (k: Key)
    ensures k <= s && (|k| < |s| ==> s[|k|] == 0)
  {
    if s == [] || s[0] == 0 then [] else [s[0]] + CString(s[1..])
  }

  function ReadInt(s: File): (r: (Option<Int32>, File))
    ensures |r.1| <= |s| && (r.0.Some? ==> |r.1| < |s|)
  {
    var (g, rest) := ReadGeneral(s);
    (if g.tag == 1 && g.len == 1 then Some(BytesInt(g.payload)) else None, rest)
  }

  function ReadDouble(s: File): (r: (Option<Word64>, File))
    ensures |r.1| <= |s| && (r.0.Some? ==> |r.1| < |s|)
  {
    var (g, rest) := ReadGeneral(s);
    (if g.tag == 2 && g.len == 1 then Some(BytesWord(g.payload)) else None, rest)
  }

  function ReadString(s: File): (r: (Option<Text>, File))
    ensures |r.1| <= |s| && (r.0.Some? ==> |r.1| < |s|)
  {
    var (g, rest) := ReadGeneral(s);
    (if g.tag == 3 then Some(CString(g.payload)) else None, rest)
  }

  function ReadUint64(s: File): (r: (Option<Word64>, File))
    ensures |r.1| <= |s| && (r.0.Some? ==> |r.1| < |s|)
  {
    var (g, rest) := ReadGeneral(s);
    (if g.tag == 4 && g.len == 1 then Some(BytesWord(g.payload)) else None, rest)
  }

  function ReadSize(s: File): (r: (Option<Word64>, File))
    ensures |r.1| <= |s| && (r.0.Some? ==> |r.1| < |s|)
  {
    var (g, rest) := ReadGeneral(s);
    (if g.tag == 5 && g.len == 1 then Some(BytesWord(g.payload)) else None, rest)
  }

  function SkipField(s: File): (rest: File)
    ensures |rest| <= |s|
  {
    ReadGeneral(s).1
  }

  // ---------------------------------------------------------------------
  // What is written is what is read

  lemma {:induction false} FieldBack(tag: Int32, len: Word64, payload: seq<byte>, rest: File)
    requires |payload| == len * Width(tag)
    ensures ReadGeneral(Field(tag, len, payload) + rest) == (Raw(tag, len, payload), rest)
  {
    hide ToBytes;
    hide BytesWord;
    hide BytesInt;
    hide IntBytes;
    var s := Field(tag, len, payload) + rest;
    IntRoundTrip(tag);
    WordRoundTrip(len);
    assert s[..4] == IntBytes(tag);
    assert s[4..12] == ToBytes(len, 8);
    var left := s[12..];
    assert left[..|payload|] == payload && left[|payload|..] == rest;
  }

  lemma {:induction false} IntBack(x: Int32, rest: File)
    ensures ReadInt(PutInt(x) + rest) == (Some(x), rest)
  {
    FieldBack(1, 1, IntBytes(x), rest);
    IntRoundTrip(x);
  }

  lemma {:induction false} DoubleBack(x: Word64, rest: File)
    ensures ReadDouble(PutDouble(x) + rest) == (Some(x), rest)
  {
    FieldBack(2, 1, ToBytes(x, 8), rest);
    WordRoundTrip(x);
  }

  lemma {:induction false} Uint64Back(x: Word64, rest: File)
    ensures ReadUint64(PutUint64(x) + rest) == (Some(x), rest)
    ensures ReadSize(PutUint64(x) + rest) == (None, rest)
  {
    FieldBack(4, 1, ToBytes(x, 8), rest);
    WordRoundTrip(x);
  }

  lemma {:induction false} SizeBack(x: Word64, rest: File)
    ensures ReadSize(PutSize(x) + rest) == (Some(x), rest)
  {
    FieldBack(5, 1, ToBytes(x, 8), rest);
    WordRoundTrip(x);
  }

  lemma {:induction false} CStringWhole(k: Key)
    ensures CString(k) == k
  {
    if k != [] { CStringWhole(k[1..]); }
  }

  lemma {:induction false} StringBack(k: Text, rest: File)
    ensures ReadString(PutString(k) + rest) == (Some(k), rest)
  {
    FieldBack(3, |k|, k, rest);
    CStringWhole(k);
  }

  lemma {:induction false} SkipBack(rest: File)
    ensures forall x: Int32 :: SkipField(PutInt(x) + rest) == rest
    ensures forall x: Word64 :: SkipField(PutDouble(x) + rest) == rest
    ensures forall k: Text :: SkipField(PutString(k) + rest) == rest
  {
    forall x: Int32 ensures SkipField(PutInt(x) + rest) == rest { IntBack(x, rest); }
    forall x: Word64 ensures SkipField(PutDouble(x) + rest) == rest { DoubleBack(x, rest); }
    forall k: Text ensures SkipField(PutString(k) + rest) == rest { StringBack(k, rest); }
  }
}
