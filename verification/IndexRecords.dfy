/**
  The append-only index file: records of a typed value with its attribute name, file
  path and object path, read back one by one or searched by name and value.
 */
module IndexRecords {
  import opened Basics
  import opened BinFile
  import opened MdbFormat

  datatype Record = Record(name: Text, value: Value, file: Text, obj: Text)

  /** What reading builds; a field of the wrong type leaves a NULL. */
  datatype Found = Found(kind: Kind, name: Option<Text>, data: Option<Value>, file: Option<Text>, obj: Option<Text>)

  function KindOfValue(v: Value): Kind {
    match v case IntVal(_) => Ints case FloatVal(_) => Floats case TextVal(_) => Texts
  }

  function AsFound(r: Record): Found {
    Found(KindOfValue(r.value), Some(r.name), Some(r.value), Some(r.file), Some(r.obj))
  }

  /** append_index_record. */
  function PutRecord(r: Record): File {
    PutInt(KindCode(KindOfValue(r.value))) + PutString(r.name) + PutValue(r.value) + PutString(r.file) + PutString(r.obj)
  }

  function PutRecords(rs: seq<Record>): File {
    if rs == [] then [] else PutRecord(rs[0]) + PutRecords(rs[1..])
  }

  /** read_index_record; nothing once no type can be read. */
  function ReadRecord(s: File): (r: (Option<Found>, File))
    ensures r.0.Some? ==> |r.1| < |s|
  {
    var (code, s1) := ReadInt(s);
    if code.None? then (None, s1) else
    var kind := KindOf(code.value);
    var (name, s2) := ReadString(s1);
    var (data, s3) := ReadValue(kind, s2);
    var (file, s4) := ReadString(s3);
    var (obj, s5) := ReadString(s4);
    (Some(Found(kind, name, data, file, obj)), s5)
  }

  /** Reading until nothing is left to read. */
  function ReadAll(s: File, acc: seq<Found>): seq<Found>
    decreases |s|
  {
    var (r, rest) := ReadRecord(s);
    if r.None? then acc else ReadAll(rest, acc + [r.value])
  }

  /** The search: None when a name or a value cannot be read, which the search does not survive. */
  function FindFrom(s: File, name: Text, matches: Value -> bool, acc: seq<Found>): Option<seq<Found>>
    decreases |s|
  {
    var (code, s1) := ReadInt(s);
    if code.None? then Some(acc) else
    var kind := KindOf(code.value);
    var (n, s2) := ReadString(s1);
    if n.None? then None else
    if n.value != name then FindFrom(SkipField(SkipField(SkipField(s2))), name, matches, acc) else
    var (data, s3) := ReadValue(kind, s2);
    if data.None? then None else
    if !matches(data.value) then FindFrom(SkipField(SkipField(s3)), name, matches, acc) else
    var (file, s4) := ReadString(s3);
    var (obj, s5) := ReadString(s4);
    FindFrom(s5, name, matches, acc + [Found(kind, Some(name), data, file, obj)])
  }

  /** What the search should find: the records of that name whose value matches, in order. */
  function Selected(rs: seq<Record>, name: Text, matches: Value -> bool): (f: seq<Found>)
    ensures |f| <= |rs|
  {
    if rs == [] then [] else
    var rest := Selected(rs[1..], name, matches);
    if rs[0].name == name && matches(rs[0].value) then [AsFound(rs[0])] + rest else rest
  }

  /** The fields of the first record, one after the other. */
  lemma {:induction false} RecordFields(r: Record, rest: File)
    ensures var (code, s1) := ReadInt(PutRecord(r) + rest);
            && code == Some(KindCode(KindOfValue(r.value))) && KindOf(code.value) == KindOfValue(r.value)
            && ReadString(s1) == (Some(r.name), ReadString(s1).1)
            && var s2 := ReadString(s1).1;
            && ReadValue(KindOfValue(r.value), s2) == (Some(r.value), PutString(r.file) + (PutString(r.obj) + rest))
            && SkipField(s2) == PutString(r.file) + (PutString(r.obj) + rest)
  {
    hide PutInt;
    hide PutString;
    hide PutDouble;
    hide ReadInt;
    hide ReadString;
    hide ReadDouble;
    hide SkipField;
    var s3 := PutString(r.file) + (PutString(r.obj) + rest);
    var s2 := PutValue(r.value) + s3;
    var s1 := PutString(r.name) + s2;
    assert PutRecord(r) + rest == PutInt(KindCode(KindOfValue(r.value))) + s1;
    IntBack(KindCode(KindOfValue(r.value)), s1);
    StringBack(r.name, s2);
    ValueBack(KindOfValue(r.value), r.value, s3);
    SkipBack(s3);
  }

  lemma {:induction false} PathsAfter(r: Record, rest: File)
    ensures var s := PutString(r.file) + (PutString(r.obj) + rest);
            && ReadString(s) == (Some(r.file), PutString(r.obj) + rest)
            && ReadString(PutString(r.obj) + rest) == (Some(r.obj), rest)
            && SkipField(SkipField(s)) == rest
  {
    StringBack(r.file, PutString(r.obj) + rest);
    StringBack(r.obj, rest);
  }

  lemma {:induction false} RecordBack(r: Record, rest: File)
    ensures ReadRecord(PutRecord(r) + rest) == (Some(AsFound(r)), rest)
  {
    hide ReadInt;
    hide ReadString;
    hide ReadValue;
    hide PutRecord;
    hide PutString;
    RecordFields(r, rest);
    PathsAfter(r, rest);
  }

  lemma {:induction false} NothingLeft()
    ensures ReadRecord([]).0 == None && ReadInt([]).0 == None
  {
  }

  function AllFound(rs: seq<Record>): seq<Found> {
    seq(|rs|, i requires 0 <= i < |rs| => AsFound(rs[i]))
  }

  /** Reading back everything that was appended. */
  lemma {:induction false} RecordsBack(rs: seq<Record>, acc: seq<Found>)
    ensures ReadAll(PutRecords(rs), acc) == acc + AllFound(rs)
    decreases |rs|
  {
    hide ReadRecord;
    hide PutRecord;
    hide AsFound;
    if rs == [] {
      NothingLeft();
    } else {
      RecordBack(rs[0], PutRecords(rs[1..]));
      RecordsBack(rs[1..], acc + [AsFound(rs[0])]);
      assert [AsFound(rs[0])] + AllFound(rs[1..]) == AllFound(rs);
      assert acc + [AsFound(rs[0])] + AllFound(rs[1..]) == acc + AllFound(rs);
    }
  }

  lemma {:induction false} FindStep(r: Record, rest: File, name: Text, matches: Value -> bool, acc: seq<Found>)
    ensures FindFrom(PutRecord(r) + rest, name, matches, acc) ==
            FindFrom(rest, name, matches, if r.name == name && matches(r.value) then acc + [AsFound(r)] else acc)
  {
    hide ReadInt;
    hide ReadString;
    hide ReadValue;
    hide PutRecord;
    hide PutString;
    hide SkipField;
    RecordFields(r, rest);
    PathsAfter(r, rest);
  }

  /** The search of an appended stream is the filter of what was appended. */
  lemma {:induction false} FindIsSelected(rs: seq<Record>, name: Text, matches: Value -> bool, acc: seq<Found>)
    ensures FindFrom(PutRecords(rs), name, matches, acc) == Some(acc + Selected(rs, name, matches))
    decreases |rs|
  {
    hide PutRecord;
    hide ReadInt;
    hide ReadString;
    hide AsFound;
    if rs == [] {
      NothingLeft();
      assert acc + [] == acc;
    } else {
      hide FindFrom;
      var more := if rs[0].name == name && matches(rs[0].value) then acc + [AsFound(rs[0])] else acc;
      FindStep(rs[0], PutRecords(rs[1..]), name, matches, acc);
      FindIsSelected(rs[1..], name, matches, more);
      assert more + Selected(rs[1..], name, matches) == acc + Selected(rs, name, matches);
    }
  }

  // ---------------------------------------------------------------------
  // The result array

  /** A slot of the result array: whatever realloc left there, NULL, or a record. */
  datatype Slot = Unset | Empty | Filled(record: Found)

  /** Doubling the result array keeps what it holds and leaves the new half unset. */
  method Widen(a: array<Slot>) returns (b: array<Slot>)
    ensures fresh(b) && b.Length == 2 * a.Length && b[..a.Length] == a[..]
    ensures forall i :: a.Length <= i < b.Length ==> b[i] == Unset
  {
    b := new Slot[2 * a.Length](_ => Unset);
    for i := 0 to a.Length
      invariant b[..i] == a[..i] && forall j :: a.Length <= j < b.Length ==> b[j] == Unset
    {
      b[i] := a[i];
    }
  }

  ghost function AllFilled(fs: seq<Found>): seq<Slot> {
    seq(|fs|, i requires 0 <= i < |fs| => Filled(fs[i]))
  }

  /** The capacity that doubling reaches for `n` results. */
  function CapacityFor(c: nat, n: nat): (d: nat)
    requires c > 0
    ensures d >= n && d >= c
    decreases if n <= c then 0 else n - c
  {
    if n <= c then c else CapacityFor(2 * c, n)
  }

  lemma {:induction false} CapacityStep(c: nat, n: nat)
    requires c > 0
    ensures CapacityFor(c, n + 1) == if CapacityFor(c, n) == n then 2 * n else CapacityFor(c, n)
    decreases if n <= c then 0 else n - c
  {
    if n > c { CapacityStep(2 * c, n); }
    else if n == c { assert CapacityFor(2 * c, n + 1) == 2 * c; }
  }

  /** The capacity in numbers: the first one, doubled as often as the results ask for and no oftener. */
  lemma {:induction false} CapacityNumbers(outLen: int, n: nat)
    ensures var c, d := if outLen <= 0 then 10 else outLen, CapacityFor(FirstCapacity(outLen), n);
            n <= d && (exists k: nat :: d == Doubled(c, k)) && (d > c ==> d % 2 == 0 && n > d / 2)
  {
    CapacityDoubled(FirstCapacity(outLen), n);
  }

  lemma {:induction false} CapacityDoubled(c: nat, n: nat)
    requires c > 0
    ensures var d := CapacityFor(c, n); (exists k: nat :: d == Doubled(c, k)) && (d > c ==> d % 2 == 0 && n > d / 2)
    decreases if n <= c then 0 else n - c
  {
    if n <= c {
      assert CapacityFor(c, n) == Doubled(c, 0);
    } else {
      CapacityDoubled(2 * c, n);
      var k: nat :| CapacityFor(2 * c, n) == Doubled(2 * c, k);
      DoubledOnce(c, k);
    }
  }

  function FirstCapacity(outLen: int): nat {
    if outLen <= 0 then 10 else outLen
  }

  /** No slot behind the results is unset. */
  ghost predicate Freeable(slots: seq<Slot>, n: nat) {
    forall i :: n <= i < |slots| ==> slots[i] != Unset
  }

  /** What the array is like while it fills up. */
  ghost predicate Filling(slots: seq<Slot>, found: seq<Found>, first: nat)
    requires first > 0
  {
    && |slots| == CapacityFor(first, |found|) && slots[..|found|] == AllFilled(found)
    && forall i :: |found| <= i < |slots| ==> slots[i] == if |found| <= first then Empty else Unset
  }

  lemma {:induction false} FillingStart(slots: seq<Slot>, first: nat)
    requires first > 0 && |slots| == first && forall i :: 0 <= i < first ==> slots[i] == Empty
    ensures Filling(slots, [], first)
  {
  }

  /** One more record, after doubling if the array is full. */
  lemma {:induction false} FillingNext(slots: seq<Slot>, wide: seq<Slot>, found: seq<Found>, x: Found, first: nat)
    requires first > 0 && Filling(slots, found, first)
    requires if |found| == |slots|
             then |wide| == 2 * |slots| && wide[..|slots|] == slots && forall i :: |slots| <= i < |wide| ==> wide[i] == Unset
             else wide == slots
    ensures |found| < |wide| && Filling(wide[|found| := Filled(x)], found + [x], first)
  {
    hide CapacityFor;
    var n := |found|;
    CapacityStep(first, n);
    CapacityStart(first, n);
    var made := wide[n := Filled(x)];
    assert made[..n] == slots[..n];
    assert made[..n + 1] == AllFilled(found + [x]);
  }

  lemma {:induction false} CapacityStart(c: nat, n: nat)
    requires c > 0
    ensures n <= c ==> CapacityFor(c, n) == c
  {
  }

  /** Freeing what lies behind the results is safe exactly when the array was never doubled or is full. */
  lemma {:induction false} FreeableIff(slots: seq<Slot>, found: seq<Found>, first: nat)
    requires first > 0 && Filling(slots, found, first)
    ensures Freeable(slots, |found|) <==> |found| <= first || |found| == |slots|
  {
    if |found| > first && |found| < |slots| {
      assert slots[|found|] == Unset;
    }
  }

  /** find_index_record: `outLen` asks for a capacity and comes back as the number of results. The slots
      behind the results are freed: `safe` tells whether each of them had been set. */
  method FindIndexRecord(name: Text, matches: Value -> bool, file: File, outLen: int)
    returns (ok: bool, result: array<Slot>, len: int, safe: bool)
    ensures ok <==> FindFrom(file, name, matches, []).Some?
    ensures ok ==> len == |FindFrom(file, name, matches, []).value| <= result.Length
    ensures ok ==> result[..len] == AllFilled(FindFrom(file, name, matches, []).value)
    ensures ok ==> result.Length == CapacityFor(if outLen <= 0 then 10 else outLen, len)
    ensures ok ==> (safe <==> len <= (if outLen <= 0 then 10 else outLen) || len == result.Length)
  {
    hide ReadInt;
    hide ReadString;
    hide ReadValue;
    hide SkipField;
    hide Filling;
    hide CapacityFor;
    var capacity := FirstCapacity(outLen);
    result, len, ok, safe := new Slot[capacity](_ => Empty), 0, true, true;
    FillingStart(result[..], capacity);
    var s, n := file, 0;
    ghost var found: seq<Found> := [];
    while true
      invariant fresh(result) && capacity == result.Length && |found| == n <= capacity
      invariant Filling(result[..], found, FirstCapacity(outLen))
      invariant FindFrom(s, name, matches, found) == FindFrom(file, name, matches, [])
      decreases |s|
    {
      var (code, s1) := ReadInt(s);
      if code.None? { break; }
      var kind := KindOf(code.value);
      var (onDisk, s2) := ReadString(s1);
      if onDisk.None? { return false, result, len, safe; }
      if onDisk.value == name {
        var (data, s3) := ReadValue(kind, s2);
        if data.None? { return false, result, len, safe; }
        if matches(data.value) {
          var (path, s4) := ReadString(s3);
          var (obj, s5) := ReadString(s4);
          var record := Found(kind, Some(name), data, path, obj);
          result := Store(result, n, record, found, FirstCapacity(outLen));
          capacity := result.Length;
          found, n, s := found + [record], n + 1, s5;
        } else {
          s := SkipField(SkipField(s3));
        }
      } else {
        s := SkipField(SkipField(SkipField(s2)));
      }
    }
    len, safe := FreeRest(result, n);
    FreeableIff(result[..], found, FirstCapacity(outLen));
    FillingMeans(result[..], found, FirstCapacity(outLen));
  }

  lemma {:induction false} FillingMeans(slots: seq<Slot>, found: seq<Found>, first: nat)
    requires first > 0 && Filling(slots, found, first)
    ensures |found| <= |slots| == CapacityFor(first, |found|) && slots[..|found|] == AllFilled(found)
  {
  }

  /** Stores one more record, in a doubled array if there is no room. */
  method Store(a: array<Slot>, n: nat, record: Found, ghost found: seq<Found>, ghost first: nat) returns (b: array<Slot>)
    requires first > 0 && n == |found| && Filling(a[..], found, first)
    modifies a
    ensures (b == a || fresh(b)) && n < b.Length && Filling(b[..], found + [record], first)
  {
    hide Filling;
    b := a;
    ghost var slots := a[..];
    FillingMeans(slots, found, first);
    if n == a.Length {
      b := Widen(a);
    }
    FillingNext(slots, b[..], found, record, first);
    ghost var wide := b[..];
    b[n] := Filled(record);
    assert b[..] == wide[n := Filled(record)];
  }

  /** The loop at the end: frees the slots behind the results and counts the length down. */
  method FreeRest(a: array<Slot>, n: nat) returns (len: int, safe: bool)
    requires n <= a.Length
    ensures len == n && (safe <==> Freeable(a[..], n))
  {
    len, safe := a.Length, true;
    var i := a.Length - 1;
    while i >= n
      invariant n - 1 <= i < a.Length && len == i + 1
      invariant safe <==> forall j :: i < j < a.Length ==> a[j] != Unset
    {
      if a[i] == Unset { safe := false; }
      len, i := len - 1, i - 1;
    }
  }

  /** Searching a stream of appended records: exactly the matching ones, in order, and their number. */
  method FindInAppended(rs: seq<Record>, name: Text, matches: Value -> bool, outLen: int)
    returns (result: array<Slot>, len: int, safe: bool)
    ensures len == |Selected(rs, name, matches)| <= result.Length
    ensures result[..len] == AllFilled(Selected(rs, name, matches))
    ensures result.Length == CapacityFor(if outLen <= 0 then 10 else outLen, len)
    ensures safe <==> len <= (if outLen <= 0 then 10 else outLen) || len == result.Length
  {
    hide FindFrom;
    hide PutRecords;
    hide Selected;
    hide CapacityFor;
    var ok;
    FindIsSelected(rs, name, matches, []);
    assert [] + Selected(rs, name, matches) == Selected(rs, name, matches);
    ok, result, len, safe := FindIndexRecord(name, matches, PutRecords(rs), outLen);
  }

  /** Eleven matches at the default capacity: nine slots are freed that were never set. */
  method ElevenMatches(r: Record) returns (len: int, safe: bool)
    ensures len == 11 && !safe
  {
    var rs := seq(11, _ => r);
    var matches := (v: Value) => v == r.value;
    var result;
    AllSelected(rs, r.name, matches);
    result, len, safe := FindInAppended(rs, r.name, matches, 0);
    assert CapacityFor(20, 11) == 20 && CapacityFor(10, 11) == 20;
  }

  lemma {:induction false} AllSelected(rs: seq<Record>, name: Text, matches: Value -> bool)
    requires forall i :: 0 <= i < |rs| ==> rs[i].name == name && matches(rs[i].value)
    ensures |Selected(rs, name, matches)| == |rs|
  {
    if rs != [] { AllSelected(rs[1..], name, matches); }
  }
}
