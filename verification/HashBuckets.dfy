/**
  The bucket array of the hash table: lists of items at the slot hash mod size.

  What the table stores for a key is the list of all values held under it, in list
  order. That list has at most one element as long as no NULL is stored.
 */
module HashBuckets {
  import opened Basics

  type Bytes = seq<byte>

  datatype Value = Value(data: Address, dlen: nat)

  datatype Item = Item(hash: nat, key: Bytes, value: Value)

  /** A slot of the array: NULL until a list is created for it. */
  type Bucket = Option<seq<Item>>

  function Slot(h: nat, size: nat): (i: nat)
    requires size > 0
    ensures i < size
  {
    h % size
  }

  function Listed(b: Bucket): seq<Item> {
    if b.None? then [] else b.value
  }

  /** The values a list holds under a key, in order. */
  function Stack(b: seq<Item>, k: Bytes): seq<Value> {
    if b == [] then [] else
    var rest, last := Stack(b[..|b| - 1], k), b[|b| - 1];
    if last.key == k then rest + [last.value] else rest
  }

  /** The number of items. */
  function Total(items: seq<Bucket>): nat {
    if items == [] then 0 else Total(items[..|items| - 1]) + |Listed(items[|items| - 1])|
  }

  /** The values the array holds under a key that hashes to `h`. */
  ghost function Under(items: seq<Bucket>, h: nat, k: Bytes): seq<Value>
    requires |items| > 0
  {
    Stack(Listed(items[Slot(h, |items|)]), k)
  }

  /** An item with a true hash and a key that is not empty, at slot `i` of `size`. */
  predicate Housed(x: Item, hash: Bytes -> nat, size: nat, i: nat)
    requires size > 0
  {
    x.hash == hash(x.key) && Slot(x.hash, size) == i && x.key != []
  }

  /** Items with true hashes and keys that are not empty, on their way to a slot. */
  ghost predicate Keyed(b: seq<Item>, hash: Bytes -> nat) {
    forall j :: 0 <= j < |b| ==> b[j].hash == hash(b[j].key) && b[j].key != []
  }

  /** Every item is in the slot of its hash; `size` may exceed the part of the array at hand. */
  ghost predicate Placed(items: seq<Bucket>, hash: Bytes -> nat, size: nat)
    requires size > 0
  {
    forall i, j :: 0 <= i < |items| && 0 <= j < |Listed(items[i])| ==> Housed(Listed(items[i])[j], hash, size, i)
  }

  /** The iterator list names each slot that has a list, once. */
  ghost predicate Tracks(order: seq<nat>, items: seq<Bucket>) {
    && (forall a, b :: 0 <= a < b < |order| ==> order[a] != order[b])
    && (forall a :: 0 <= a < |order| ==> order[a] < |items| && items[order[a]].Some?)
    && (forall i :: 0 <= i < |items| && items[i].Some? ==> i in order)
  }

  // ---------------------------------------------------------------------
  // Lists

  lemma {:induction false} StackConcat(a: seq<Item>, b: seq<Item>, k: Bytes)
    ensures Stack(a + b, k) == Stack(a, k) + Stack(b, k)
  {
    if b == [] {
      assert a + b == a;
    } else {
      StackConcat(a, b[..|b| - 1], k);
      assert (a + b)[..|a + b| - 1] == a + b[..|b| - 1];
    }
  }

  lemma {:induction false} StackOne(x: Item, k: Bytes)
    ensures Stack([x], k) == if x.key == k then [x.value] else []
  {
    assert [x][..0] == [];
  }

  lemma {:induction false} StackNone(b: seq<Item>, k: Bytes)
    ensures Stack(b, k) == [] <==> forall j :: 0 <= j < |b| ==> b[j].key != k
  {
    if b != [] {
      var a := b[..|b| - 1];
      StackNone(a, k);
      assert forall j :: 0 <= j < |b| ==> b[j] == if j < |a| then a[j] else b[|b| - 1];
    }
  }

  /** `i` is where the scan of a list for `k` stops. */
  predicate FirstAt(b: seq<Item>, k: Bytes, i: nat) {
    i <= |b| && (forall j :: 0 <= j < i ==> b[j].key != k) && (i < |b| ==> b[i].key == k)
  }

  lemma {:induction false} StackSplit(b: seq<Item>, k: Bytes, i: nat, other: Bytes)
    requires i < |b|
    ensures Stack(b, other) == Stack(b[..i], other) + Stack([b[i]], other) + Stack(b[i + 1..], other)
  {
    StackConcat(b[..i], [b[i]], other);
    StackConcat(b[..i + 1], b[i + 1..], other);
    assert b[..i] + [b[i]] == b[..i + 1];
    assert b[..i + 1] + b[i + 1..] == b;
  }

  /** The scan finds the first value held under the key. */
  lemma {:induction false} StackFirst(b: seq<Item>, k: Bytes, i: nat)
    requires FirstAt(b, k, i)
    ensures Stack(b, k) == if i == |b| then [] else [b[i].value] + Stack(b[i + 1..], k)
  {
    StackNone(b[..i], k);
    if i < |b| {
      StackSplit(b, k, i, k);
      StackOne(b[i], k);
    } else {
      assert b[..i] == b;
    }
  }

  /** Replacing the first value held under a key. */
  lemma {:induction false} StackReplace(b: seq<Item>, k: Bytes, i: nat, v: Value, other: Bytes)
    requires FirstAt(b, k, i) && i < |b|
    ensures Stack(b, k) != []
    ensures Stack(b[i := b[i].(value := v)], other) ==
            if other == k then [v] + Stack(b, k)[1..] else Stack(b, other)
  {
    var c := b[i := b[i].(value := v)];
    StackFirst(b, k, i);
    StackSplit(b, k, i, other);
    StackSplit(c, k, i, other);
    StackOne(b[i], other);
    StackOne(c[i], other);
    assert c[..i] == b[..i] && c[i + 1..] == b[i + 1..];
    StackNone(b[..i], k);
  }

  /** Removing it. */
  lemma {:induction false} StackRemove(b: seq<Item>, k: Bytes, i: nat, other: Bytes)
    requires FirstAt(b, k, i) && i < |b|
    ensures Stack(b, k) != []
    ensures Stack(b[..i] + b[i + 1..], other) ==
            if other == k then Stack(b, k)[1..] else Stack(b, other)
  {
    hide Stack;
    StackFirst(b, k, i);
    StackSplit(b, k, i, other);
    StackConcat(b[..i], b[i + 1..], other);
    StackOne(b[i], other);
    StackNone(b[..i], k);
  }

  // ---------------------------------------------------------------------
  // The array

  lemma {:induction false} TotalUpdate(items: seq<Bucket>, i: nat, b: Bucket)
    requires i < |items|
    ensures Total(items[i := b]) == Total(items) - |Listed(items[i])| + |Listed(b)|
  {
    var n := |items| - 1;
    if i == n {
      assert items[i := b][..n] == items[..n];
    } else {
      TotalUpdate(items[..n], i, b);
      assert items[i := b][..n] == items[..n][i := b];
    }
  }

  lemma {:induction false} TotalEmpty(items: seq<Bucket>)
    requires forall i :: 0 <= i < |items| ==> Listed(items[i]) == []
    ensures Total(items) == 0
  {
    if items != [] {
      TotalEmpty(items[..|items| - 1]);
    }
  }

  /** A new list for a slot that had none: nothing stored changes. */
  lemma {:induction false} OpenSlot(items: seq<Bucket>, order: seq<nat>, hash: Bytes -> nat, i: nat)
    requires i < |items| && items[i].None? && Tracks(order, items) && Placed(items, hash, |items|)
    ensures var made := items[i := Some([])];
            && Tracks(order + [i], made) && Placed(made, hash, |items|) && Total(made) == Total(items)
            && forall h, k :: Under(made, h, k) == Under(items, h, k)
  {
    hide Tracks;
    hide Stack;
    hide Total;
    TracksOpened(items, order, i);
    var made := items[i := Some([])];
    assert forall j :: 0 <= j < |items| ==> Listed(made[j]) == Listed(items[j]);
    assert Placed(made, hash, |items|);
    hide Placed;
    assert forall h, k :: Under(made, h, k) == Under(items, h, k);
    hide Under;
    TotalUpdate(items, i, Some([]));
  }

  lemma {:induction false} TracksOpened(items: seq<Bucket>, order: seq<nat>, i: nat)
    requires i < |items| && items[i].None? && Tracks(order, items)
    ensures Tracks(order + [i], items[i := Some([])])
  {
    var made, queue := items[i := Some([])], order + [i];
    assert forall a :: 0 <= a < |order| ==> order[a] != i;
    forall j | 0 <= j < |made| && made[j].Some? ensures j in queue {
      if j != i { assert j in order; }
    }
  }

  /** Changing the list of one slot. */
  lemma {:induction false} ChangeSlot(items: seq<Bucket>, order: seq<nat>, hash: Bytes -> nat, i: nat, b: seq<Item>)
    requires i < |items| && items[i].Some? && Tracks(order, items) && Placed(items, hash, |items|)
    requires forall j :: 0 <= j < |b| ==> Housed(b[j], hash, |items|, i)
    ensures var made := items[i := Some(b)];
            && Tracks(order, made) && Placed(made, hash, |items|)
            && Total(made) == Total(items) - |Listed(items[i])| + |b|
            && forall h, k :: Under(made, h, k) == if Slot(h, |items|) == i then Stack(b, k) else Under(items, h, k)
  {
    var made := items[i := Some(b)];
    assert Tracks(order, made);
    assert Placed(made, hash, |items|);
    assert forall h, k :: Under(made, h, k) == if Slot(h, |items|) == i then Stack(b, k) else Under(items, h, k);
    TotalUpdate(items, i, Some(b));
  }

  /** Appending an item to the list of its slot adds its value behind those held under its key. */
  lemma {:induction false} Deposit(items: seq<Bucket>, order: seq<nat>, hash: Bytes -> nat, i: nat, x: Item)
    requires i < |items| && items[i].Some? && Tracks(order, items) && Placed(items, hash, |items|)
    requires Housed(x, hash, |items|, i)
    ensures var made := items[i := Some(items[i].value + [x])];
            && Tracks(order, made) && Placed(made, hash, |items|) && Total(made) == Total(items) + 1
            && forall k :: Under(made, hash(k), k) == Under(items, hash(k), k) + Stack([x], k)
  {
    hide Tracks;
    hide Total;
    hide Stack;
    var b := items[i].value;
    assert b == Listed(items[i]);
    assert forall j :: 0 <= j < |b| ==> Housed(b[j], hash, |items|, i);
    hide Placed;
    ChangeSlot(items, order, hash, i, b + [x]);
    forall k ensures Under(items[i := Some(b + [x])], hash(k), k) == Under(items, hash(k), k) + Stack([x], k) {
      StackConcat(b, [x], k);
      StackOne(x, k);
    }
  }

  // ---------------------------------------------------------------------
  // Counting

  ghost function KeysOf(b: seq<Item>): set<Bytes> {
    set j | 0 <= j < |b| :: b[j].key
  }

  /** The keys some item of the array has. */
  ghost function Stored(items: seq<Bucket>): set<Bytes> {
    set i, j | 0 <= i < |items| && 0 <= j < |Listed(items[i])| :: Listed(items[i])[j].key
  }

  lemma {:induction false} StoredIff(items: seq<Bucket>, hash: Bytes -> nat, k: Bytes)
    requires |items| > 0 && Placed(items, hash, |items|)
    ensures k in Stored(items) <==> Under(items, hash(k), k) != []
  {
    var i := Slot(hash(k), |items|);
    StackNone(Listed(items[i]), k);
    if k in Stored(items) {
      var a, j :| 0 <= a < |items| && 0 <= j < |Listed(items[a])| && Listed(items[a])[j].key == k;
      assert Housed(Listed(items[a])[j], hash, |items|, a);
    }
  }

  lemma {:induction false} KeysOfCount(b: seq<Item>)
    requires forall i, j :: 0 <= i < j < |b| ==> b[i].key != b[j].key
    ensures |KeysOf(b)| == |b|
  {
    if b != [] {
      var a, k := b[..|b| - 1], b[|b| - 1].key;
      KeysOfCount(a);
      assert k !in KeysOf(a);
      assert KeysOf(b) == KeysOf(a) + {k};
    }
  }

  /** No key twice in one list. */
  ghost predicate Distinct(items: seq<Bucket>) {
    forall i, a, b :: 0 <= i < |items| && 0 <= a < b < |Listed(items[i])| ==>
      Listed(items[i])[a].key != Listed(items[i])[b].key
  }

  /** The keys of one slot are in no other. */
  lemma {:induction false} SlotsApart(items: seq<Bucket>, hash: Bytes -> nat, size: nat, k: Bytes)
    requires size > 0 && items != [] && Placed(items, hash, size)
    requires k in KeysOf(Listed(items[|items| - 1]))
    ensures k !in Stored(items[..|items| - 1])
  {
    var n := |items| - 1;
    var b := Listed(items[n]);
    var j :| 0 <= j < |b| && b[j].key == k;
    assert Housed(b[j], hash, size, n);
    assert forall c, d :: 0 <= c < n && 0 <= d < |Listed(items[c])| ==> Housed(Listed(items[c])[d], hash, size, c);
    hide Slot;
  }

  lemma {:induction false} StoredSplit(items: seq<Bucket>)
    requires items != []
    ensures Stored(items) == Stored(items[..|items| - 1]) + KeysOf(Listed(items[|items| - 1]))
  {
    var n := |items| - 1;
    var a := items[..n];
    forall k | k in Stored(items) ensures k in Stored(a) || k in KeysOf(Listed(items[n])) {
      var i, j :| 0 <= i < |items| && 0 <= j < |Listed(items[i])| && Listed(items[i])[j].key == k;
      if i < n { assert Listed(a[i])[j].key == k; }
    }
    forall k | k in Stored(a) ensures k in Stored(items) {
      var i, j :| 0 <= i < n && 0 <= j < |Listed(a[i])| && Listed(a[i])[j].key == k;
      assert Listed(items[i])[j].key == k;
    }
  }

  lemma {:induction false} TotalIsStored(items: seq<Bucket>, hash: Bytes -> nat, size: nat)
    requires size > 0 && Placed(items, hash, size) && Distinct(items)
    ensures Total(items) == |Stored(items)|
  {
    if items != [] {
      var n := |items| - 1;
      var a, b := items[..n], Listed(items[n]);
      assert Placed(a, hash, size) && Distinct(a);
      TotalIsStored(a, hash, size);
      KeysOfCount(b);
      StoredSplit(items);
      forall k | k in KeysOf(b) ensures k !in Stored(a) {
        SlotsApart(items, hash, size, k);
      }
      hide Stored;
      hide KeysOf;
      assert Stored(a) !! KeysOf(b);
      assert |Stored(a) + KeysOf(b)| == |Stored(a)| + |KeysOf(b)|;
    }
  }

  /** Two items of one list under the same key make a stack of two. */
  lemma {:induction false} StackTwice(b: seq<Item>, i: nat, j: nat)
    requires i < j < |b| && b[i].key == b[j].key
    ensures |Stack(b, b[i].key)| >= 2
  {
    var k := b[i].key;
    StackConcat(b[..j], b[j..], k);
    assert b[..j] + b[j..] == b;
    StackNone(b[..j], k);
    assert b[..j][i].key == k;
    StackNone(b[j..], k);
    assert b[j..][0].key == k;
  }
}
