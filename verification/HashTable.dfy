/**
  The hash table run by one thread: set, get-or-set, get, delete, unset and clear over
  the bucket array, with growth in between. The hash is any function of the key.
 */
module HashTable {
  import opened Basics
  import opened HashBuckets

  const SIZE_MIN := 128

  /** What a lookup returns: NULL when there is nothing. */
  function Top(vs: seq<Value>): Value {
    if vs == [] then Value(NULL, 0) else vs[0]
  }

  /** The map the table stands for. */
  ghost function ModelOf(items: seq<Bucket>, hash: Bytes -> nat): map<Bytes, Value>
    requires |items| > 0
  {
    map k | k in Stored(items) :: Top(Under(items, hash(k), k))
  }

  /** No NULL is stored, and no key twice. */
  ghost predicate CleanItems(items: seq<Bucket>, hash: Bytes -> nat)
    requires |items| > 0
  {
    forall k :: |Under(items, hash(k), k)| <= 1 && (Under(items, hash(k), k) != [] ==> Top(Under(items, hash(k), k)).data != NULL)
  }

  ghost predicate SameBut(items: seq<Bucket>, made: seq<Bucket>, hash: Bytes -> nat, key: Bytes)
    requires |items| > 0 && |made| > 0
  {
    forall k :: k != key ==> Under(made, hash(k), k) == Under(items, hash(k), k)
  }

  ghost predicate SameAll(items: seq<Bucket>, made: seq<Bucket>, hash: Bytes -> nat)
    requires |items| > 0 && |made| > 0
  {
    forall k :: Under(made, hash(k), k) == Under(items, hash(k), k)
  }

  ghost predicate Fits(items: seq<Bucket>, order: seq<nat>, hash: Bytes -> nat) {
    |items| > 0 && Tracks(order, items) && Placed(items, hash, |items|)
  }

  lemma {:induction false} AppendItem(items: seq<Bucket>, order: seq<nat>, hash: Bytes -> nat, key: Bytes, v: Value)
    requires Fits(items, order, hash) && key != [] && items[Slot(hash(key), |items|)].Some?
    ensures var slot := Slot(hash(key), |items|);
            var made := items[slot := Some(items[slot].value + [Item(hash(key), key, v)])];
            && Fits(made, order, hash) && Total(made) == Total(items) + 1
            && Under(made, hash(key), key) == Under(items, hash(key), key) + [v] && SameBut(items, made, hash, key)
  {
    hide Stack;
    hide Total;
    hide Under;
    var x := Item(hash(key), key, v);
    Deposit(items, order, hash, Slot(hash(key), |items|), x);
    forall k ensures Stack([x], k) == if x.key == k then [x.value] else [] { StackOne(x, k); }
  }

  lemma {:induction false} ReplaceItem(items: seq<Bucket>, order: seq<nat>, hash: Bytes -> nat, key: Bytes, i: nat, v: Value)
    requires Fits(items, order, hash)
    requires var b := Listed(items[Slot(hash(key), |items|)]); FirstAt(b, key, i) && i < |b|
    ensures Under(items, hash(key), key) != []
    ensures var slot := Slot(hash(key), |items|);
            var b := Listed(items[slot]);
            var made := items[slot := Some(b[i := b[i].(value := v)])];
            && Fits(made, order, hash) && Total(made) == Total(items)
            && Under(made, hash(key), key) == [v] + Under(items, hash(key), key)[1..] && SameBut(items, made, hash, key)
  {
    hide Stack;
    hide Total;
    var slot := Slot(hash(key), |items|);
    var b := Listed(items[slot]);
    var c := b[i := b[i].(value := v)];
    assert forall j :: 0 <= j < |b| ==> Housed(b[j], hash, |items|, slot);
    ChangeSlot(items, order, hash, slot, c);
    forall k ensures Stack(b, key) != [] && Stack(c, k) == if k == key then [v] + Stack(b, key)[1..] else Stack(b, k) {
      StackReplace(b, key, i, v, k);
    }
  }

  lemma {:induction false} RemoveItem(items: seq<Bucket>, order: seq<nat>, hash: Bytes -> nat, key: Bytes, i: nat)
    requires Fits(items, order, hash)
    requires var b := Listed(items[Slot(hash(key), |items|)]); FirstAt(b, key, i) && i < |b|
    ensures Under(items, hash(key), key) != []
    ensures var slot := Slot(hash(key), |items|);
            var b := Listed(items[slot]);
            var made := items[slot := Some(b[..i] + b[i + 1..])];
            && Fits(made, order, hash) && Total(made) == Total(items) - 1
            && Under(made, hash(key), key) == Under(items, hash(key), key)[1..] && SameBut(items, made, hash, key)
  {
    hide Stack;
    hide Total;
    var slot := Slot(hash(key), |items|);
    var b := Listed(items[slot]);
    var c := b[..i] + b[i + 1..];
    assert forall j :: 0 <= j < |b| ==> Housed(b[j], hash, |items|, slot);
    ChangeSlot(items, order, hash, slot, c);
    forall k ensures Stack(b, key) != [] && Stack(c, k) == if k == key then Stack(b, key)[1..] else Stack(b, k) {
      StackRemove(b, key, i, k);
    }
  }

  /** As long as no NULL is stored the count is the size of the map. */
  lemma {:induction false} CountIsSize(items: seq<Bucket>, hash: Bytes -> nat)
    requires |items| > 0 && Placed(items, hash, |items|) && CleanItems(items, hash)
    ensures Total(items) == |ModelOf(items, hash)|
  {
    forall i, a, b | 0 <= i < |items| && 0 <= a < b < |Listed(items[i])|
      ensures Listed(items[i])[a].key != Listed(items[i])[b].key
    {
      var l := Listed(items[i]);
      assert Housed(l[a], hash, |items|, i);
      assert |Under(items, hash(l[a].key), l[a].key)| <= 1;
      if l[a].key == l[b].key {
        StackTwice(l, a, b);
      }
    }
    TotalIsStored(items, hash, |items|);
    assert ModelOf(items, hash).Keys == Stored(items);
    assert |ModelOf(items, hash)| == |ModelOf(items, hash).Keys|;
  }

  /** A map update, seen through the buckets. */
  lemma {:induction false} ModelChanged(items: seq<Bucket>, made: seq<Bucket>, hash: Bytes -> nat, key: Bytes)
    requires |items| > 0 && Placed(items, hash, |items|)
    requires |made| > 0 && Placed(made, hash, |made|)
    requires SameBut(items, made, hash, key)
    ensures var vs := Under(made, hash(key), key);
            ModelOf(made, hash) ==
            if vs == [] then ModelOf(items, hash) - {key} else ModelOf(items, hash)[key := vs[0]]
  {
    hide Under;
    hide Stored;
    hide Placed;
    forall k ensures k in Stored(items) <==> Under(items, hash(k), k) != [] { StoredIff(items, hash, k); }
    forall k ensures k in Stored(made) <==> Under(made, hash(k), k) != [] { StoredIff(made, hash, k); }
    var vs, m, m' := Under(made, hash(key), key), ModelOf(items, hash), ModelOf(made, hash);
    var want := if vs == [] then m - {key} else m[key := vs[0]];
    assert m'.Keys == want.Keys;
    assert forall k :: k in m' ==> m'[k] == want[k];
  }

  lemma {:induction false} ModelKept(items: seq<Bucket>, made: seq<Bucket>, hash: Bytes -> nat)
    requires |items| > 0 && Placed(items, hash, |items|)
    requires |made| > 0 && Placed(made, hash, |made|)
    requires SameAll(items, made, hash)
    ensures ModelOf(made, hash) == ModelOf(items, hash) && (CleanItems(made, hash) <==> CleanItems(items, hash))
  {
    hide Under;
    hide Stored;
    hide Placed;
    forall k ensures k in Stored(items) <==> k in Stored(made) { StoredIff(items, hash, k); StoredIff(made, hash, k); }
    assert Stored(items) == Stored(made);
    assert SameAll(made, items, hash);
  }

  lemma {:induction false} KeyInModel(items: seq<Bucket>, hash: Bytes -> nat, key: Bytes)
    requires |items| > 0 && Placed(items, hash, |items|)
    ensures key in ModelOf(items, hash) <==> Under(items, hash(key), key) != []
    ensures key in ModelOf(items, hash) ==> ModelOf(items, hash)[key] == Under(items, hash(key), key)[0]
  {
    StoredIff(items, hash, key);
  }

  lemma {:induction false} EmptyTable(items: seq<Bucket>, hash: Bytes -> nat)
    requires |items| > 0 && forall i :: 0 <= i < |items| ==> items[i] == None
    ensures Fits(items, [], hash) && Total(items) == 0 && CleanItems(items, hash) && ModelOf(items, hash) == map[]
  {
    TotalEmpty(items);
    assert Stored(items) == {};
  }

  lemma {:induction false} CleanKept(items: seq<Bucket>, made: seq<Bucket>, hash: Bytes -> nat, key: Bytes)
    requires |items| > 0 && |made| > 0 && CleanItems(items, hash) && SameBut(items, made, hash, key)
    requires var vs := Under(made, hash(key), key); |vs| <= 1 && (vs != [] ==> vs[0].data != NULL)
    ensures CleanItems(made, hash)
  {
    hide Under;
  }

  /** Scans a list for a key. */
  method Scan(b: seq<Item>, key: Bytes) returns (i: nat)
    ensures FirstAt(b, key, i)
  {
    i := 0;
    while i < |b| && b[i].key != key
      invariant i <= |b| && forall j :: 0 <= j < i ==> b[j].key != key
    {
      i := i + 1;
    }
  }

  lemma {:induction false} StackNothing()
    ensures forall k :: Stack([], k) == []
  {
  }

  lemma {:induction false} StackNext(b: seq<Item>, n: nat)
    requires n < |b|
    ensures forall k :: Stack(b[..n + 1], k) == Stack(b[..n], k) + Stack([b[n]], k)
  {
    assert b[..n + 1] == b[..n] + [b[n]];
    forall k ensures Stack(b[..n + 1], k) == Stack(b[..n], k) + Stack([b[n]], k) {
      StackConcat(b[..n], [b[n]], k);
    }
  }

  /** Every key has the values that a list holds under it behind those it had. */
  ghost predicate Appended(items: seq<Bucket>, made: seq<Bucket>, b: seq<Item>, hash: Bytes -> nat)
    requires |items| > 0 && |made| > 0
  {
    forall k :: Under(made, hash(k), k) == Under(items, hash(k), k) + Stack(b, k)
  }

  /** Moves the items of one old list to the ends of their new lists. */
  method MoveList(b: seq<Item>, items: seq<Bucket>, order: seq<nat>, hash: Bytes -> nat)
    returns (made: seq<Bucket>, queue: seq<nat>)
    requires |items| > 0 && Tracks(order, items) && Placed(items, hash, |items|)
    requires Keyed(b, hash)
    ensures |made| == |items| && Tracks(queue, made) && Placed(made, hash, |items|)
    ensures Total(made) == Total(items) + |b| && Appended(items, made, b, hash)
  {
    hide Placed;
    hide Tracks;
    hide Under;
    hide Total;
    hide Stack;
    StackNothing();
    made, queue := items, order;
    for n := 0 to |b|
      invariant |made| == |items| && Tracks(queue, made) && Placed(made, hash, |items|)
      invariant Total(made) == Total(items) + n
      invariant Appended(items, made, b[..n], hash)
    {
      var slot := Slot(b[n].hash, |made|);
      if made[slot].None? {
        OpenSlot(made, queue, hash, slot);
        made, queue := made[slot := Some([])], queue + [slot];
      }
      StackNext(b, n);
      Deposit(made, queue, hash, slot, b[n]);
      made := made[slot := Some(made[slot].value + [b[n]])];
    }
    assert b[..|b|] == b;
  }

  /** The items of the lists that the first `n` entries of the iterator list name. */
  ghost function Moved(items: seq<Bucket>, order: seq<nat>, n: nat): nat
    requires n <= |order| && Tracks(order, items)
  {
    if n == 0 then 0 else Moved(items, order, n - 1) + |Listed(items[order[n - 1]])|
  }

  /** The array without the lists that the first `n` entries of the iterator list name. */
  ghost predicate Dropped(items: seq<Bucket>, order: seq<nat>, n: nat, left: seq<Bucket>)
    requires n <= |order|
  {
    |left| == |items| && forall i :: 0 <= i < |items| ==> left[i] == if i in order[..n] then None else items[i]
  }

  lemma {:induction false} MovedNothing(items: seq<Bucket>, order: seq<nat>)
    requires Tracks(order, items)
    ensures Moved(items, order, 0) == 0
  {
  }

  lemma {:induction false} DropNone(items: seq<Bucket>, order: seq<nat>)
    ensures Dropped(items, order, 0, items)
  {
  }

  lemma {:induction false} DropOne(items: seq<Bucket>, order: seq<nat>, n: nat, left: seq<Bucket>)
    requires Tracks(order, items) && n < |order| && Dropped(items, order, n, left)
    ensures order[n] < |left| && left[order[n]] == items[order[n]] && left[order[n]].Some?
    ensures Dropped(items, order, n + 1, left[order[n] := None])
    ensures Moved(items, order, n + 1) == Moved(items, order, n) + |left[order[n]].value|
    ensures Moved(items, order, n + 1) <= Moved(items, order, |order|)
  {
    hide Moved;
    hide Tracks;
    TrackedNext(items, order, n);
    MovedNext(items, order, n);
    MovedUp(items, order, n + 1);
  }

  lemma {:induction false} TrackedNext(items: seq<Bucket>, order: seq<nat>, n: nat)
    requires Tracks(order, items) && n < |order|
    ensures order[n] < |items| && items[order[n]].Some?
    ensures order[n] !in order[..n] && order[..n + 1] == order[..n] + [order[n]]
  {
  }

  lemma {:induction false} MovedNext(items: seq<Bucket>, order: seq<nat>, n: nat)
    requires Tracks(order, items) && n < |order|
    ensures order[n] < |items| && items[order[n]].Some?
    ensures Moved(items, order, n + 1) == Moved(items, order, n) + |items[order[n]].value|
  {
    TrackedNext(items, order, n);
    hide Tracks;
  }

  lemma {:induction false} MovedUp(items: seq<Bucket>, order: seq<nat>, n: nat)
    requires Tracks(order, items) && n <= |order|
    ensures Moved(items, order, n) <= Moved(items, order, |order|)
    decreases |order| - n
  {
    if n < |order| { MovedUp(items, order, n + 1); }
  }

  lemma {:induction false} DropAll(items: seq<Bucket>, order: seq<nat>, left: seq<Bucket>)
    requires Tracks(order, items) && Dropped(items, order, |order|, left)
    ensures forall i :: 0 <= i < |left| ==> left[i] == None
  {
    assert order[..|order|] == order;
  }

  /** Emptying the lists the iterator list names empties the table. */
  lemma {:induction false} MovedAll(items: seq<Bucket>, left: seq<Bucket>, order: seq<nat>, n: nat)
    requires Tracks(order, items) && n <= |order| && Dropped(items, order, n, left)
    ensures Moved(items, order, n) == Total(items) - Total(left)
    decreases n
  {
    if n == 0 {
      assert left == items;
    } else {
      var o := order[n - 1];
      var before := left[o := items[o]];
      assert order[..n] == order[..n - 1] + [o];
      assert o !in order[..n - 1];
      MovedAll(items, before, order, n - 1);
      TotalUpdate(before, o, None);
      assert before[o := None] == left;
    }
  }

  lemma {:induction false} MovedIsTotal(items: seq<Bucket>, order: seq<nat>)
    requires Tracks(order, items)
    ensures Moved(items, order, |order|) == Total(items)
  {
    var left := seq(|items|, i requires 0 <= i < |items| => if i in order then None else items[i]);
    assert order[..|order|] == order;
    MovedAll(items, left, order, |order|);
    TotalEmpty(left);
  }

  /** The first `n` lists have been moved, and nothing else. */
  ghost predicate Partly(items: seq<Bucket>, order: seq<nat>, n: nat, made: seq<Bucket>, hash: Bytes -> nat)
    requires |items| > 0 && |made| > 0 && n <= |order|
  {
    forall k :: Under(made, hash(k), k) == (if Slot(hash(k), |items|) in order[..n] then Under(items, hash(k), k) else [])
  }

  lemma {:induction false} RehashStart(items: seq<Bucket>, order: seq<nat>, made: seq<Bucket>, hash: Bytes -> nat)
    requires |items| > 0 && |made| > 0 && forall i :: 0 <= i < |made| ==> made[i] == None
    ensures Tracks([], made) && Placed(made, hash, |made|) && Total(made) == 0
    ensures Partly(items, order, 0, made, hash)
  {
    TotalEmpty(made);
  }

  /** What a list that is about to move holds. */
  lemma {:induction false} ListToMove(items: seq<Bucket>, order: seq<nat>, n: nat, hash: Bytes -> nat)
    requires |items| > 0 && Tracks(order, items) && Placed(items, hash, |items|) && n < |order|
    ensures order[n] < |items| && items[order[n]].Some?
    ensures Keyed(items[order[n]].value, hash)
  {
    var b := items[order[n]].value;
    assert b == Listed(items[order[n]]);
    assert forall j :: 0 <= j < |b| ==> Housed(b[j], hash, |items|, order[n]);
  }

  lemma {:induction false} RehashStep(items: seq<Bucket>, order: seq<nat>, n: nat, was: seq<Bucket>, made: seq<Bucket>, hash: Bytes -> nat)
    requires |items| > 0 && |was| > 0 && |made| > 0 && Tracks(order, items) && Placed(items, hash, |items|)
    requires n < |order| && Partly(items, order, n, was, hash) && Appended(was, made, Listed(items[order[n]]), hash)
    ensures Partly(items, order, n + 1, made, hash)
  {
    forall k ensures Under(made, hash(k), k) ==
                     (if Slot(hash(k), |items|) in order[..n + 1] then Under(items, hash(k), k) else [])
    {
      RehashKey(items, order, n, was, made, hash, k);
    }
  }

  /** The same, for one key: it is in the list that moves, or that list holds nothing under it. */
  lemma {:induction false} RehashKey(items: seq<Bucket>, order: seq<nat>, n: nat, was: seq<Bucket>, made: seq<Bucket>, hash: Bytes -> nat, k: Bytes)
    requires |items| > 0 && |was| > 0 && |made| > 0 && Tracks(order, items) && Placed(items, hash, |items|)
    requires n < |order| && Partly(items, order, n, was, hash) && Appended(was, made, Listed(items[order[n]]), hash)
    ensures Under(made, hash(k), k) == (if Slot(hash(k), |items|) in order[..n + 1] then Under(items, hash(k), k) else [])
  {
    var o, i := order[n], Slot(hash(k), |items|);
    var held := Stack(Listed(items[o]), k);
    assert Under(made, hash(k), k) == Under(was, hash(k), k) + held;
    assert Under(was, hash(k), k) == if i in order[..n] then Under(items, hash(k), k) else [];
    MovedSlots(items, order, n, hash, k);
    hide Partly;
    hide Appended;
    hide Placed;
    hide Tracks;
    hide Stack;
  }

  lemma {:induction false} MovedSlots(items: seq<Bucket>, order: seq<nat>, n: nat, hash: Bytes -> nat, k: Bytes)
    requires |items| > 0 && Tracks(order, items) && Placed(items, hash, |items|) && n < |order|
    ensures order[..n + 1] == order[..n] + [order[n]] && order[n] !in order[..n]
    ensures var held := Stack(Listed(items[order[n]]), k);
            if Slot(hash(k), |items|) == order[n] then held == Under(items, hash(k), k) else held == []
  {
    hide Stack;
    hide Slot;
    var b := Listed(items[order[n]]);
    if Slot(hash(k), |items|) != order[n] {
      assert forall j :: 0 <= j < |b| ==> Housed(b[j], hash, |items|, order[n]);
      StackNone(b, k);
    }
  }

  lemma {:induction false} RehashDone(items: seq<Bucket>, order: seq<nat>, made: seq<Bucket>, hash: Bytes -> nat)
    requires |items| > 0 && |made| > 0 && Tracks(order, items) && Partly(items, order, |order|, made, hash)
    ensures forall k :: Under(made, hash(k), k) == Under(items, hash(k), k)
  {
    assert order[..|order|] == order;
    forall k ensures Under(made, hash(k), k) == Under(items, hash(k), k) {
      var i := Slot(hash(k), |items|);
      assert items[i].Some? ==> i in order;
    }
  }

  /** Moves every list of the old array to a new one, in the order of the iterator list. */
  method Rehash(items: seq<Bucket>, order: seq<nat>, newSize: nat, hash: Bytes -> nat)
    returns (made: seq<Bucket>, queue: seq<nat>)
    requires newSize > 0 && |items| > 0 && Tracks(order, items) && Placed(items, hash, |items|)
    ensures |made| == newSize && Tracks(queue, made) && Placed(made, hash, newSize)
    ensures Total(made) == Total(items)
    ensures forall k :: Under(made, hash(k), k) == Under(items, hash(k), k)
  {
    hide Stack;
    hide Total;
    hide Under;
    hide Partly;
    hide Placed;
    hide Tracks;
    made, queue := seq(newSize, _ => None), [];
    RehashStart(items, order, made, hash);
    for n := 0 to |order|
      invariant |made| == newSize && Tracks(queue, made) && Placed(made, hash, newSize)
      invariant Total(made) == Moved(items, order, n)
      invariant Partly(items, order, n, made, hash)
    {
      ListToMove(items, order, n, hash);
      var b := items[order[n]].value;
      ghost var was := made;
      made, queue := MoveList(b, made, queue, hash);
      RehashStep(items, order, n, was, made, hash);
    }
    MovedIsTotal(items, order);
    RehashDone(items, order, made, hash);
  }

  class Table {
    const hash: Bytes -> nat
    const maxSize: nat
    var size: nat
    var count: nat
    var items: seq<Bucket>
    var order: seq<nat>

    /** The parts of the state that fit each other between any two steps. */
    ghost predicate Wired()
      reads this
    {
      && |items| == size >= SIZE_MIN && Fits(items, order, hash) && count == Total(items)
    }

    /** The load limit that a set restores by growing. */
    ghost predicate Roomy()
      reads this
    {
      (maxSize != 0 && size >= maxSize) || count <= size + size / 3
    }

    ghost predicate Valid()
      reads this
    {
      Wired() && Roomy()
    }

    /** All values held under a key, the visible one first. */
    ghost function Values(k: Bytes): seq<Value>
      requires Wired()
      reads this
    {
      Under(items, hash(k), k)
    }

    /** No NULL stored and no key twice. */
    ghost predicate Clean()
      requires Wired()
      reads this
    {
      CleanItems(items, hash)
    }

    ghost function Model(): map<Bytes, Value>
      requires Wired()
      reads this
    {
      ModelOf(items, hash)
    }

    constructor (initialSize: nat, maxSize: nat, hash: Bytes -> nat)
      ensures Valid() && Clean() && Model() == map[] && count == 0
      ensures size == (if initialSize > 128 then initialSize else 128)
      ensures this.maxSize == maxSize && this.hash == hash
    {
      var n := if initialSize > SIZE_MIN then initialSize else SIZE_MIN;
      this.hash, this.maxSize, size, count := hash, maxSize, n, 0;
      items, order := seq(n, _ => None), [];
      new;
      EmptyTable(items, hash);
    }

    /** ht_grow_table: every item moves to the slot of its hash in the larger array. */
    method Grow()
      requires Wired()
      modifies this
      ensures Wired() && count == old(count)
      ensures SameAll(old(items), items, hash)
      ensures size == if maxSize != 0 && old(size) >= maxSize then old(size)
                      else if maxSize != 0 && 2 * old(size) > maxSize then maxSize else 2 * old(size)
    {
      hide Under;
      hide Placed;
      hide Tracks;
      if maxSize != 0 && size >= maxSize { return; }
      var newSize := 2 * size;
      if maxSize != 0 && newSize > maxSize { newSize := maxSize; }
      items, order := Rehash(items, order, newSize, hash);
      size := newSize;
    }

    /** ht_get_list, and ht_set_list when there is no list yet. */
    method ListFor(h: nat) returns (slot: nat)
      requires Wired()
      modifies this
      ensures Wired() && size == old(size) && count == old(count)
      ensures slot == Slot(h, size) == h % size && items[slot].Some?
      ensures SameAll(old(items), items, hash)
    {
      hide Under;
      hide Placed;
      hide Tracks;
      hide Total;
      slot := Slot(h, size);
      if items[slot].None? {
        OpenSlot(items, order, hash, slot);
        items, order := items[slot := Some([])], order + [slot];
      }
    }

    /** ht_set_internal without copying; `inx` is set for get-or-set. A stored NULL is taken for
        absence: the new value then goes behind it. */
    method Set(key: Bytes, data: Address, dlen: nat, inx: bool) returns (ret: int, prev: Value)
      requires Valid()
      modifies this
      ensures Valid()
      ensures key == [] ==> ret == -1 && prev == Value(NULL, 0) && Values(key) == old(Values(key))
      ensures key != [] ==> prev == Top(old(Values(key)))
      ensures key != [] ==> ret == (if prev.data != NULL && inx then 1 else 0)
      ensures ret == 0 ==>
        if prev.data == NULL then Values(key) == old(Values(key)) + [Value(data, dlen)] && count == old(count) + 1
        else old(Values(key)) != [] && Values(key) == [Value(data, dlen)] + old(Values(key))[1..] && count == old(count)
      ensures ret != 0 ==> Values(key) == old(Values(key)) && count == old(count)
      ensures SameBut(old(items), items, hash, key)
      // The array doubles, up to its bound, when the items outgrow it by a third.
      ensures size ==
        if ret == 0 && count > old(size) + old(size) / 3 && (maxSize == 0 || old(size) < maxSize)
        then (if maxSize != 0 && 2 * old(size) > maxSize then maxSize else 2 * old(size)) else old(size)
      // The value is the one a lookup then finds, unless another one with NULL data hides it.
      ensures ret == 0 ==>
        (Top(Values(key)) == Value(data, dlen) <==>
         old(Values(key)) == [] || prev.data != NULL || prev == Value(data, dlen))
      // As long as no NULL is stored this is the update of a map.
      ensures old(Clean()) && data != NULL && key != [] ==>
        && Clean()
        && (prev.data != NULL <==> key in old(Model()))
        && Model() == if inx && key in old(Model()) then old(Model()) else old(Model())[key := Value(data, dlen)]
    {
      hide Under;
      hide Placed;
      hide Tracks;
      hide Total;
      hide Stored;
      hide Stack;
      hide ModelOf;
      prev := Value(NULL, 0);
      if key == [] { return -1, prev; }
      var slot := ListFor(hash(key));
      var b := items[slot].value;
      var i := Scan(b, key);
      StackFirst(b, key, i);
      assert Values(key) == Stack(b, key) by { FoldUnder(items, hash, key); }
      if i < |b| { prev := b[i].value; }
      ghost var was := old(items);
      KeyInModel(was, hash, key);
      if prev.data != NULL && inx {
        ModelKept(was, items, hash);
        return 1, prev;
      }
      if prev.data == NULL {
        AppendItem(items, order, hash, key, Value(data, dlen));
        items, count := items[slot := Some(b + [Item(hash(key), key, Value(data, dlen))])], count + 1;
      } else {
        ReplaceItem(items, order, hash, key, i, Value(data, dlen));
        items := items[slot := Some(b[i := b[i].(value := Value(data, dlen))])];
      }
      if count > size + size / 3 && (maxSize == 0 || size < maxSize) { Grow(); }
      if old(Clean()) && data != NULL {
        CleanKept(was, items, hash, key);
        ModelChanged(was, items, hash, key);
      }
      ret := 0;
    }

    /** ht_call_internal up to its callback: where the key is, if anywhere. */
    method Locate(key: Bytes) returns (found: bool, slot: nat, i: nat)
      requires Wired()
      ensures found <==> Values(key) != []
      ensures found ==>
        && slot == Slot(hash(key), size) && items[slot].Some?
        && FirstAt(items[slot].value, key, i) && i < |items[slot].value|
        && items[slot].value[i].value == Values(key)[0]
    {
      slot, i := Slot(hash(key), size), 0;
      if items[slot].None? { return false, slot, i; }
      i := Scan(items[slot].value, key);
      StackFirst(items[slot].value, key, i);
      found := i < |items[slot].value|;
    }

    /** ht_get: the first value held under the key. */
    method Get(key: Bytes) returns (v: Value)
      requires Valid()
      ensures v == Top(Values(key))
      ensures Clean() ==> v == if key in Model() then Model()[key] else Value(NULL, 0)
    {
      var found, slot, i := Locate(key);
      KeyInModel(items, hash, key);
      return if found then items[slot].value[i].value else Value(NULL, 0);
    }

    /** ht_exists: also true of a key stored with NULL. */
    method Exists(key: Bytes) returns (found: bool)
      requires Valid()
      ensures found <==> key in Model()
    {
      KeyInModel(items, hash, key);
      var slot, i;
      found, slot, i := Locate(key);
    }

    /** ht_delete: removes the first value held under the key. */
    method Delete(key: Bytes) returns (ret: int, prev: Value)
      requires Valid()
      modifies this
      ensures Valid() && size == old(size) && prev == Top(old(Values(key)))
      ensures ret == if old(Values(key)) == [] then -1 else 0
      ensures count == old(count) - (if ret == 0 then 1 else 0)
      ensures Values(key) == if old(Values(key)) == [] then [] else old(Values(key))[1..]
      ensures SameBut(old(items), items, hash, key)
      ensures old(Clean()) ==> Clean() && Model() == old(Model()) - {key} && (ret == 0 <==> key in old(Model()))
    {
      hide Under;
      hide Placed;
      hide Tracks;
      hide Total;
      hide Stored;
      hide Stack;
      hide ModelOf;
      ghost var was := items;
      var found, slot, i := Locate(key);
      ret, prev := -1, Value(NULL, 0);
      KeyInModel(was, hash, key);
      if found {
        var b := items[slot].value;
        ret, prev := 0, b[i].value;
        RemoveItem(items, order, hash, key, i);
        items, count := items[slot := Some(b[..i] + b[i + 1..])], count - 1;
      }
      if old(Clean()) {
        CleanKept(was, items, hash, key);
        ModelChanged(was, items, hash, key);
      }
    }

    /** ht_unset: leaves the key in the table with NULL data. */
    method Unset(key: Bytes) returns (ret: int, prev: Value)
      requires Valid()
      modifies this
      ensures Valid() && size == old(size) && count == old(count) && prev == Top(old(Values(key)))
      ensures ret == if old(Values(key)) == [] then -1 else 0
      ensures Values(key) == if old(Values(key)) == [] then [] else [Value(NULL, 0)] + old(Values(key))[1..]
      ensures SameBut(old(items), items, hash, key)
    {
      hide Under;
      hide Placed;
      hide Tracks;
      hide Total;
      var found, slot, i := Locate(key);
      ret, prev := -1, Value(NULL, 0);
      if found {
        var b := items[slot].value;
        ret, prev := 0, b[i].value;
        ReplaceItem(items, order, hash, key, i, Value(NULL, 0));
        items := items[slot := Some(b[i := b[i].(value := Value(NULL, 0))])];
      }
    }

    /** ht_clear: drops the lists the iterator list names, which are all of them. */
    method Clear()
      requires Valid()
      modifies this
      ensures Valid() && Clean() && Model() == map[] && count == 0 && size == old(size)
    {
      hide Tracks;
      hide Placed;
      hide Total;
      hide Dropped;
      hide Moved;
      MovedIsTotal(items, order);
      ghost var queue, was, n := order, items, 0;
      DropNone(was, queue);
      assert Moved(was, queue, 0) == 0 by { MovedNothing(was, queue); }
      while order != []
        invariant n <= |queue| && order == queue[n..]
        invariant |items| == size >= SIZE_MIN && size == old(size)
        invariant Dropped(was, queue, n, items)
        invariant count == Moved(was, queue, |queue|) - Moved(was, queue, n)
      {
        var slot := order[0];
        DropOne(was, queue, n, items);
        count := count - |items[slot].value|;
        items := items[slot := None];
        order := order[1..];
        n := n + 1;
      }
      DropAll(was, queue, items);
      EmptyTable(items, hash);
    }

    lemma {:induction false} Room()
      requires Valid()
      ensures size >= 128 && ((maxSize != 0 && size >= maxSize) || count <= size + size / 3)
    {
    }

    /** Every item lies in the bucket of its hash. */
    lemma {:induction false} Spread(i: nat, j: nat)
      requires Valid() && i < size && items[i].Some? && j < |items[i].value|
      ensures hash(items[i].value[j].key) % size == i
    {
      hide Total;
      assert Housed(Listed(items[i])[j], hash, size, i);
    }

    /** As long as no NULL is stored the count is the size of the map. */
    lemma {:induction false} CountIsModel()
      requires Valid() && Clean()
      ensures count == |Model()|
    {
      CountIsSize(items, hash);
    }
  }

  // ---------------------------------------------------------------------
  // The size of the array over a run

  /** The size that doubling reaches, from a size, for `n` items under a bound. */
  function SizeFor(size: nat, n: nat, bound: nat): (r: nat)
    requires size > 0
    ensures r >= size
    decreases if bound != 0 && size >= bound then 0 else if n <= size then 0 else n - size
  {
    if (bound != 0 && size >= bound) || n <= size + size / 3 then size
    else if bound != 0 && 2 * size > bound then bound
    else SizeFor(2 * size, n, bound)
  }

  function Largest(counts: seq<nat>): nat {
    if counts == [] then 0 else
    var rest, last := Largest(counts[..|counts| - 1]), counts[|counts| - 1];
    if last > rest then last else rest
  }

  lemma {:induction false} LargestIs(counts: seq<nat>)
    ensures forall i :: 0 <= i < |counts| ==> counts[i] <= Largest(counts)
    ensures counts != [] ==> Largest(counts) in counts
  {
    if counts != [] { LargestIs(counts[..|counts| - 1]); }
  }

  /** Without a bound: the size is doubled as often as the items ask for and no oftener. */
  lemma {:induction false} SizeForLeast(size: nat, n: nat)
    requires size > 0
    ensures var r := SizeFor(size, n, 0);
            && n <= r + r / 3 && (exists k: nat :: r == Doubled(size, k))
            && (r > size ==> r % 2 == 0 && n > r / 2 + r / 2 / 3)
    decreases if n <= size then 0 else n - size
  {
    if n <= size + size / 3 {
      assert SizeFor(size, n, 0) == Doubled(size, 0);
    } else {
      SizeForLeast(2 * size, n);
      var k: nat :| SizeFor(2 * size, n, 0) == Doubled(2 * size, k);
      DoubledOnce(size, k);
    }
  }

  /** The size for a larger number of items starts from the size for a smaller one. */
  lemma {:induction false} SizeForMore(size: nat, n: nat, m: nat, bound: nat)
    requires size > 0
    ensures SizeFor(SizeFor(size, n, bound), m, bound) == SizeFor(size, if n > m then n else m, bound)
    decreases if bound != 0 && size >= bound then 0 else if n <= size then 0 else n - size
  {
    if !((bound != 0 && size >= bound) || n <= size + size / 3 || (bound != 0 && 2 * size > bound)) {
      SizeForMore(2 * size, n, m, bound);
    }
  }

  /** One operation of a run. */
  datatype Op = Put(key: Bytes, data: Address, dlen: nat, inx: bool) | Drop(key: Bytes) | Blank(key: Bytes) | Wipe

  lemma {:induction false} LargestMore(counts: seq<nat>, c: nat)
    ensures Largest(counts + [c]) == if c > Largest(counts) then c else Largest(counts)
  {
    assert (counts + [c])[..|counts|] == counts;
  }

  /** A set doubles at most once, and that is enough. */
  lemma {:induction false} OneDoubling(size: nat, n: nat, bound: nat)
    requires size >= 128 && ((bound != 0 && size >= bound) || n <= size + size / 3 + 1)
    ensures SizeFor(size, n, bound) ==
            if n > size + size / 3 && (bound == 0 || size < bound)
            then (if bound != 0 && 2 * size > bound then bound else 2 * size) else size
  {
    if n > size + size / 3 && (bound == 0 || 2 * size <= bound) {
      assert SizeFor(2 * size, n, bound) == 2 * size;
    }
  }

  lemma {:induction false} RunStep(first: nat, counts: seq<nat>, size: nat, before: nat, size': nat, n: nat, bound: nat)
    requires first > 0 && size >= 128 && size == SizeFor(first, Largest(counts), bound)
    requires ((bound != 0 && size >= bound) || before <= size + size / 3) && n <= before + 1
    requires size' == if n > size + size / 3 && (bound == 0 || size < bound)
                      then (if bound != 0 && 2 * size > bound then bound else 2 * size) else size
    ensures size' == SizeFor(first, Largest(counts + [n]), bound)
  {
    OneDoubling(size, n, bound);
    LargestMore(counts, n);
    SizeForMore(first, Largest(counts), n, bound);
  }

  /** What one operation does to the values held under a key, the visible one first. */
  function OpOn(s: seq<Value>, op: Op, k: Bytes): seq<Value> {
    match op
    case Put(key, data, dlen, inx) =>
      if key != k || key == [] then s
      else if Top(s).data == NULL then s + [Value(data, dlen)]
      else if inx then s else [Value(data, dlen)] + s[1..]
    case Drop(key) => if key != k || s == [] then s else s[1..]
    case Blank(key) => if key != k || s == [] then s else [Value(NULL, 0)] + s[1..]
    case Wipe => []
  }

  function RunOn(s: seq<Value>, ops: seq<Op>, k: Bytes): seq<Value> {
    if ops == [] then s else OpOn(RunOn(s, ops[..|ops| - 1], k), ops[|ops| - 1], k)
  }

  /** Any run of sets, deletions, unsets and clears, of any length: every key holds what the operations
      on it leave, and the size of the array is what doubling from its first size needs for the largest
      number of items there ever was. */
  method RunAll(t: Table, ops: seq<Op>) returns (counts: seq<nat>)
    requires t.Valid()
    modifies t
    ensures t.Valid() && |counts| == |ops| + 1 && counts[0] == old(t.count) && counts[|ops|] == t.count
    ensures t.size == SizeFor(old(t.size), Largest(counts), t.maxSize)
    ensures forall k :: t.Values(k) == RunOn(old(t.Values(k)), ops, k)
  {
    hide Table.Wired;
    hide Table.Roomy;
    hide Table.Values;
    hide SizeFor;
    hide OpOn;
    counts := [t.count];
    t.Room();
    LargestMore([], t.count);
    assert [] + [t.count] == [t.count];
    OneDoubling(t.size, t.count, t.maxSize);
    for i := 0 to |ops|
      invariant t.Valid() && |counts| == i + 1 && counts[0] == old(t.count) && counts[i] == t.count
      invariant t.size == SizeFor(old(t.size), Largest(counts), t.maxSize)
      invariant forall k :: t.Values(k) == RunOn(old(t.Values(k)), ops[..i], k)
    {
      ghost var size, before := t.size, t.count;
      t.Room();
      Perform(t, ops[i]);
      RunStep(old(t.size), counts, size, before, t.size, t.count, t.maxSize);
      counts := counts + [t.count];
      assert ops[..i + 1][..i] == ops[..i];
    }
    assert ops[..|ops|] == ops;
  }

  method Perform(t: Table, op: Op)
    requires t.Valid()
    modifies t
    ensures t.Valid() && t.count <= old(t.count) + 1
    ensures t.size ==
      if t.count > old(t.size) + old(t.size) / 3 && (t.maxSize == 0 || old(t.size) < t.maxSize)
      then (if t.maxSize != 0 && 2 * old(t.size) > t.maxSize then t.maxSize else 2 * old(t.size)) else old(t.size)
    ensures forall k :: t.Values(k) == OpOn(old(t.Values(k)), op, k)
  {
    hide Under;
    hide Fits;
    hide Total;
    match op {
      case Put(key, data, dlen, inx) =>
        var ret, prev := t.Set(key, data, dlen, inx);
      case Drop(key) =>
        var ret, prev := t.Delete(key);
      case Blank(key) =>
        var ret, prev := t.Unset(key);
      case Wipe =>
        t.Clear();
        forall k ensures t.Values(k) == [] { HoldsNothing(t, k); }
    }
  }

  lemma {:induction false} HoldsNothing(t: Table, k: Bytes)
    requires t.Valid() && t.Model() == map[]
    ensures t.Values(k) == []
  {
    FreshHoldsNothing(t.items, t.hash, k);
  }

  /** A NULL and then a value, both set under the same key of a new table: a lookup still gives NULL,
      and the table counts two items. */
  method HiddenByNull(hash: Bytes -> nat, key: Bytes, data: Address) returns (v: Value, count: nat)
    requires key != []
    ensures v == Value(NULL, 0) && count == 2
  {
    hide Under;
    hide Stored;
    hide Placed;
    hide Tracks;
    hide CleanItems;
    var table := new Table(0, 0, hash);
    FreshHoldsNothing(table.items, hash, key);
    var ret, prev := table.Set(key, NULL, 0, false);
    ret, prev := table.Set(key, data, 1, false);
    v := table.Get(key);
    count := table.count;
  }

  lemma {:induction false} FreshHoldsNothing(items: seq<Bucket>, hash: Bytes -> nat, key: Bytes)
    requires |items| > 0 && Placed(items, hash, |items|) && ModelOf(items, hash) == map[]
    ensures Under(items, hash(key), key) == []
  {
    StoredIff(items, hash, key);
    assert Stored(items) == ModelOf(items, hash).Keys;
  }

  lemma {:induction false} FoldUnder(items: seq<Bucket>, hash: Bytes -> nat, key: Bytes)
    requires |items| > 0
    ensures Under(items, hash(key), key) == Stack(Listed(items[Slot(hash(key), |items|)]), key)
  {
  }
}
