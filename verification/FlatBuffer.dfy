/**
  The byte buffer with a skip offset: the live bytes lie somewhere inside an allocation
  that grows and shrinks, and every operation is one on the plain sequence of bytes. A
  cell of the allocation that nothing has written is Unset.
 */
module FlatBuffer {
  import opened Basics

  const MINLEN := 128
  const FASTGROW := 16384
  const SLOWGROW := 1024

  datatype Cell = Unset | Set(b: byte)

  function Cells(s: seq<byte>): seq<Cell> {
    seq(|s|, i requires 0 <= i < |s| => Set(s[i]))
  }

  /** The sizes an allocation goes through until it holds `newlen` bytes: a minimum, a jump, then steps. */
  function GrownFrom(n: nat, newlen: nat): (r: nat)
    ensures r >= newlen && r >= n
    decreases newlen - n
  {
    if newlen <= n then n
    else if n == 0 then GrownFrom(MINLEN, newlen)
    else if n < FASTGROW then GrownFrom(FASTGROW, newlen)
    else GrownFrom(n + SLOWGROW, newlen)
  }

  /** The sizes in numbers: 128 first, then 16384, then steps of 1024, as few as needed. */
  lemma {:induction false} GrownNumbers(n: nat, newlen: nat)
    ensures var r := GrownFrom(n, newlen);
            if newlen <= n then r == n
            else if n == 0 && newlen <= 128 then r == 128
            else if n < 16384 && newlen <= 16384 then r == 16384
            else var from := if n < 16384 then 16384 else n;
                 newlen <= r < newlen + 1024 && r >= from && (r - from) % 1024 == 0
    decreases newlen - n
  {
    if newlen > n {
      var next := if n == 0 then 128 else if n < 16384 then 16384 else n + 1024;
      GrownNumbers(next, newlen);
    }
  }

  /** The next size on the way down. */
  function Smaller(m: nat): nat {
    if m <= 16384 then m / 2 else m - 1024
  }

  /** The `k`-th size on the way down. */
  function Down(len: nat, k: nat): nat {
    if k == 0 then len else Smaller(Down(len, k - 1))
  }

  lemma {:induction false} SmallerSteps(len: nat, k: nat)
    requires forall j :: 0 <= j < k ==> Down(len, j) > 128
    ensures forall i, j :: 0 <= i < j <= k ==> Down(len, j) < Down(len, i)
  {
    if k > 0 {
      SmallerSteps(len, k - 1);
      assert Down(len, k) < Down(len, k - 1);
    }
  }

  /** The `k`-th size on the way down from a length still holds the bytes and a terminator, and is the
      last to: it is at most 128, where the way ends, or the next one does not. */
  ghost predicate LastHolding(len: nat, used: nat, k: nat) {
    && Down(len, k) > used && (Down(len, k) <= 128 || Smaller(Down(len, k)) <= used)
    && forall j :: 0 <= j < k ==> Down(len, j) > 128
  }

  /** There is one such size. */
  lemma {:induction false} OneLast(len: nat, used: nat, k: nat, m: nat)
    requires LastHolding(len, used, k) && LastHolding(len, used, m)
    ensures k == m
  {
    var low, high := if k < m then k else m, if k < m then m else k;
    SmallerSteps(len, high);
    assert Down(len, low + 1) == Smaller(Down(len, low));
  }

  /** At most 128 bytes less one come down to 128 from the first large allocation. */
  lemma {:induction false} DownTo128(used: nat)
    requires 0 < used < 128
    ensures LastHolding(16384, used, 7) && Down(16384, 7) == 128
  {
    assert Down(16384, 1) == 8192 && Down(16384, 2) == 4096 && Down(16384, 3) == 2048;
    assert Down(16384, 4) == 1024 && Down(16384, 5) == 512 && Down(16384, 6) == 256;
  }

  class FBuf {
    var data: array?<Cell>
    var len: nat
    var used: nat
    var skip: nat
    /** Zero for no bound. */
    const maxlen: nat

    /** The window and a byte behind it are inside the allocation, and the bound is kept. */
    ghost predicate Valid()
      reads this
    {
      && (data == null ==> len == 0 && used == 0 && skip == 0)
      && (data != null ==> data.Length == len && skip + used < len)
      && (maxlen != 0 ==> len <= maxlen + 1)
    }

    /** The live bytes. */
    ghost function Content(): seq<Cell>
      requires Valid()
      reads this, data
    {
      if data == null then [] else data[skip..skip + used]
    }

    /** A terminator lies behind the live bytes. */
    ghost predicate Ended()
      requires Valid()
      reads this, data
    {
      data != null ==> data[skip + used] == Set(0)
    }

    constructor (maxlen: nat)
      ensures Valid() && data == null && Content() == [] && this.maxlen == maxlen
    {
      this.maxlen := maxlen;
      data, len, used, skip := null, 0, 0, 0;
    }

    /** Moves the live bytes, and the one behind them, to the front. */
    method MoveToFront()
      requires Valid() && data != null
      modifies this`skip, data
      ensures Valid() && skip == 0 && Content() == old(Content())
      ensures old(Ended()) ==> Ended()
    {
      var n, from := used + 1, skip;
      ghost var was := data[from..from + n];
      forall i | 0 <= i < n { data[i] := data[from + i]; }
      assert data[..n] == was;
      skip := 0;
      assert Content() == was[..used];
    }

    /** Gives up the skipped bytes. */
    method Compact()
      requires Valid() && data != null
      modifies this`skip, data
      ensures Valid() && skip == 0 && Content() == old(Content())
      ensures old(Ended()) || used == 0 ==> Ended()
    {
      if used != 0 { MoveToFront(); }
      else {
        data[0] := Set(0);
        skip := 0;
      }
    }

    /** A new allocation that starts with the live bytes; the rest is not set. */
    method Reallocate(n: nat)
      requires Valid() && used < n && (maxlen != 0 ==> n <= maxlen + 1)
      modifies this`data, this`len, this`skip
      ensures Valid() && data != null && fresh(data) && len == n && skip == 0 && Content() == old(Content())
      ensures old(Ended()) && old(skip) == 0 ==> Ended()
      ensures old(skip) != 0 ==> data[used] == Unset
    {
      var p := Copied(n);
      data, len, skip := p, n, 0;
    }

    /** What malloc or realloc hands back, with the bytes that were copied. */
    method Copied(n: nat) returns (p: array<Cell>)
      requires Valid() && used < n
      ensures fresh(p) && p.Length == n && p[..used] == Content()
      ensures Ended() && skip == 0 ==> p[used] == Set(0)
      ensures skip != 0 ==> p[used] == Unset
    {
      p := new Cell[n](_ => Unset);
      if data == null {
        p[0] := Set(0);
      } else if skip != 0 {
        forall i | 0 <= i < used { p[i] := data[skip + i]; }
      } else {
        forall i | 0 <= i < Min(len, n) { p[i] := data[i]; }
      }
    }

    /** The next allocation that holds `newlen` bytes. */
    method GrownLength(newlen: nat) returns (n: nat)
      requires newlen > len
      ensures n == GrownFrom(len, newlen)
    {
      n := len;
      while newlen > n
        invariant GrownFrom(n, newlen) == GrownFrom(len, newlen)
        decreases newlen - n
      {
        if n == 0 { n := MINLEN; }
        else if n < FASTGROW { n := FASTGROW; }
        else { n := n + SLOWGROW; }
      }
    }

    /** The allocation after an extension: what there is if that is enough, else the next size within
        the bound. */
    function LenFor(want: nat): nat
      reads this
    {
      if want < len then len else
      var n := GrownFrom(len, want + 1);
      if maxlen != 0 && n > maxlen then maxlen + 1 else n
    }

    /** fbuf_extend: room for `want` bytes and a terminator behind the skip, or no change at all. */
    method Extend(want: nat) returns (r: nat)
      requires Valid()
      modifies this, data
      ensures Valid() && used == old(used) && Content() == old(Content())
      ensures data == old(data) || fresh(data)
      ensures r == 0 <==> maxlen != 0 && want > maxlen
      ensures r == 0 ==> data == old(data) && len == old(len) && skip == old(skip) && (data != null ==> data[..] == old(data[..]))
      ensures r != 0 ==> r == len == old(LenFor(want)) && data != null && skip + want < len
      ensures r != 0 ==> skip == if old(skip) + want < old(len) then old(skip) else 0
      // A terminator is kept unless skipped bytes are given up for a larger allocation.
      ensures old(Ended()) && (r == 0 || old(skip) == 0 || want < old(len)) ==> Ended()
      ensures r != 0 && old(skip) != 0 && want >= old(len) ==> data[skip + used] == Unset
      ensures used == 0 && want < old(len) <= old(skip) + want ==> Ended()
    {
      var newlen := want + 1;
      if newlen <= len - skip { return len; }
      if skip != 0 && newlen <= len {
        Compact();
        return len;
      }
      if maxlen != 0 && newlen > maxlen + 1 { return 0; }
      var n := GrownLength(newlen);
      if maxlen != 0 && n > maxlen { n := maxlen + 1; }
      Reallocate(n);
      return len;
    }

    /** The last size on the way down that still holds the bytes. */
    method ShrunkLength() returns (n: nat)
      requires Valid() && skip == 0
      ensures n <= len && (used == 0 ==> n == 0)
      ensures used > 0 ==> exists k: nat :: LastHolding(len, used, k) && n == Down(len, k)
    {
      var m := if used == 0 then 0 else len;
      ghost var k := 0;
      while true
        invariant m <= len && (used == 0 ==> m == 0)
        invariant used > 0 ==> m == Down(len, k) > used && forall j :: 0 <= j < k ==> Down(len, j) > 128
        decreases m
      {
        n := m;
        if m <= MINLEN { break; }
        else if m <= FASTGROW { m := m / 2; }
        else { m := m - SLOWGROW; }
        if m < used + 1 { break; }
        k := k + 1;
      }
      assert used > 0 ==> LastHolding(len, used, k);
    }

    /** fbuf_shrink. */
    method Shrink() returns (r: nat)
      requires Valid()
      modifies this, data
      ensures Valid() && used == old(used) && Content() == old(Content())
      ensures data == null || data == old(data) || fresh(data)
      ensures r == len <= old(len) && (used == 0 ==> len == 0)
      ensures used > 0 ==> exists k: nat :: LastHolding(old(len), used, k) && len == Down(old(len), k)
      ensures old(Ended()) ==> Ended()
    {
      if skip != 0 { Compact(); }
      var n := ShrunkLength();
      if n == len { return len; }
      if n == 0 { data, len := null, 0; }
      else { Reallocate(n); }
      return len;
    }

    /** Writes bytes into the allocation. */
    method Write(at: nat, s: seq<Cell>)
      requires data != null && at + |s| <= data.Length
      modifies data
      ensures data[..] == Overwritten(old(data[..]), at, s)
    {
      ghost var was := data[..];
      forall i | 0 <= i < |s| { data[at + i] := s[i]; }
      assert data[..at] == was[..at] && data[at..at + |s|] == s && data[at + |s|..] == was[at + |s|..];
      assert data[..] == data[..at] + data[at..at + |s|] + data[at + |s|..];
    }

    /** Writes bytes behind the live ones, and makes the first `n` of them live. */
    method PutBehind(s: seq<Cell>, n: nat)
      requires Valid() && data != null && n <= |s| && skip + used + |s| <= len && skip + used + n < len
      modifies this`used, data
      ensures Valid() && used == old(used) + n && Content() == old(Content()) + s[..n]
      ensures n < |s| && s[n] == Set(0) ==> Ended()
    {
      hide Overwritten;
      ghost var was := data[..];
      Write(skip + used, s);
      WindowBehind(was, skip, skip + used, s, n);
      used := used + n;
      assert Content() == data[..][skip..skip + used];
    }

    method Terminate()
      requires Valid() && data != null
      modifies data
      ensures Valid() && Ended() && Content() == old(Content())
    {
      data[skip + used] := Set(0);
    }

    /** Writes bytes before the live ones, and makes them live. */
    method PutBefore(s: seq<Cell>)
      requires Valid() && data != null && |s| <= skip
      modifies this`used, this`skip, data
      ensures Valid() && Content() == s + old(Content()) && skip == old(skip) - |s|
      ensures old(Ended()) ==> Ended()
    {
      hide Overwritten;
      ghost var was := data[..];
      Write(skip - |s|, s);
      WindowBefore(was, skip - |s|, s, skip + used);
      skip, used := skip - |s|, used + |s|;
      assert Content() == data[..][skip..skip + used] && data[skip + used] == data[..][skip + used];
    }

    /** fbuf_add_binary. */
    method Add(s: seq<byte>) returns (r: int)
      requires Valid()
      modifies this, data
      ensures Valid() && (data == old(data) || fresh(data))
      ensures r == if s == [] || (maxlen != 0 && old(used) + |s| > maxlen) then -1 else |s|
      ensures Content() == if r == -1 then old(Content()) else old(Content()) + Cells(s)
      ensures r != -1 ==> data != null && Ended() && used == old(used) + |s| && len == old(LenFor(used + |s|))
      ensures r != -1 ==> skip == if old(skip + used) + |s| < old(len) then old(skip) else 0
      ensures r == -1 && old(Ended()) ==> Ended()
    {
      if s == [] { return -1; }
      var room := Extend(used + |s|);
      if room == 0 { return -1; }
      PutBehind(Cells(s), |s|);
      assert Cells(s)[..|s|] == Cells(s);
      Terminate();
      return |s|;
    }

    /** fbuf_prepend_binary. */
    method Prepend(s: seq<byte>) returns (r: int)
      requires Valid()
      modifies this, data
      ensures Valid() && (data == old(data) || fresh(data))
      ensures r == if s == [] then 0 else if old(skip) < |s| && maxlen != 0 && old(used) + |s| > maxlen then -1 else |s|
      ensures Content() == if r == -1 then old(Content()) else Cells(s) + old(Content())
      ensures len == if r <= 0 || old(skip) >= |s| then old(len) else old(LenFor(used + |s|))
      ensures skip == if r <= 0 then old(skip) else if old(skip) >= |s| then old(skip) - |s|
                      else if old(skip + used) + |s| < old(len) then old(skip) else 0
      // A terminator is lost exactly when skipped bytes are given up for a larger allocation.
      ensures r == -1 && old(Ended()) ==> Ended()
      ensures r != -1 && old(Ended()) ==>
        (Ended() <==> s == [] || old(skip) >= |s| || old(skip) == 0 || old(used) + |s| < old(len))
      ensures r != -1 && old(Ended()) && !Ended() ==> data[skip + used] == Unset
    {
      if s == [] { return 0; }
      if skip >= |s| {
        PutBefore(Cells(s));
      } else {
        var room := Extend(used + |s|);
        if room == 0 { return -1; }
        ShiftAndPut(Cells(s));
      }
      return |s|;
    }

    /** Makes room at the front of the window and fills it. */
    method ShiftAndPut(s: seq<Cell>)
      requires Valid() && data != null && skip + used + |s| < len
      modifies this`used, data
      ensures Valid() && Content() == s + old(Content()) && data[skip + used] == old(data[skip + used])
    {
      MakeGap(|s|);
      PutInGap(s);
    }

    /** Fills the gap that the live bytes were moved away from. */
    method PutInGap(s: seq<Cell>)
      requires Valid() && data != null && skip + used + |s| < len
      modifies this`used, data
      ensures Valid() && Content() == s + old(data[skip + |s|..skip + |s| + used])
      ensures data[skip + used] == old(data[skip + used + |s|])
    {
      hide Overwritten;
      ghost var was := data[..];
      Write(skip, s);
      WindowBefore(was, skip, s, skip + |s| + used);
      used := used + |s|;
      assert Content() == data[..][skip..skip + used] && data[skip + used] == data[..][skip + used];
    }

    /** Moves the live bytes, and the one behind them, `n` further on. */
    method MakeGap(n: nat)
      requires Valid() && data != null && skip + used + n < len
      modifies data
      ensures data[skip + n..skip + n + used] == old(data[skip..skip + used])
      ensures data[skip + n + used] == old(data[skip + used])
    {
      var from, count := skip, used + 1;
      ghost var was := data[from..from + count];
      forall i | 0 <= i < count { data[from + n + i] := data[from + i]; }
      ghost var now := data[from + n..from + n + count];
      assert forall i :: 0 <= i < count ==> now[i] == data[from + n + i] == was[i];
      assert now == was;
      assert data[from + n..from + n + used] == now[..used] && old(data[from..from + used]) == was[..used];
    }

    /** fbuf_remove: drops bytes from the front. The buffer must have been allocated. */
    method Remove(n: nat) returns (r: nat)
      requires Valid() && data != null
      modifies this, data
      ensures Valid() && data == old(data) && len == old(len)
      ensures Content() == if n >= old(used) then [] else old(Content())[n..]
      ensures r == used == (if n >= old(used) then 0 else old(used) - n) && (old(Ended()) ==> Ended())
      ensures skip == if n >= old(used) then 0 else if n != 0 && old(skip) + n >= len / 2 then 0 else old(skip) + n
    {
      if n >= used {
        Clear();
      } else if n != 0 {
        Advance(n);
        hide FBuf.Content;
        hide FBuf.Ended;
        if skip >= len / 2 { MoveToFront(); }
      }
      return used;
    }

    /** fbuf_clear of an allocated buffer. */
    method Clear()
      requires Valid() && data != null
      modifies this`skip, this`used, data
      ensures Valid() && Ended() && used == 0 && skip == 0 && Content() == []
    {
      used, skip := 0, 0;
      data[0] := Set(0);
    }

    method Advance(n: nat)
      requires Valid() && data != null && n < used
      modifies this`skip, this`used
      ensures Valid() && skip == old(skip) + n && used == old(used) - n && Content() == old(Content())[n..]
      ensures old(Ended()) ==> Ended()
    {
      ghost var was := data[skip..skip + used];
      skip, used := skip + n, used - n;
      assert data[skip..skip + used] == was[n..];
    }

    /** fbuf_concat of another buffer. */
    method Concat(src: FBuf) returns (r: int)
      requires Valid() && src.Valid() && src != this && (src.data != null ==> src.data != data)
      modifies this, data
      ensures Valid() && (data == old(data) || fresh(data))
      ensures r == if src.used == 0 then 0 else if maxlen != 0 && old(used) + src.used > maxlen then -1 else src.used
      ensures len == if r <= 0 then old(len) else old(LenFor(used + src.used))
      ensures src.Valid() && src.Content() == old(src.Content())
      ensures Content() == if r == -1 then old(Content()) else old(Content()) + src.Content()
      ensures if r > 0 then src.Ended() ==> Ended() else old(Ended()) ==> Ended()
    {
      hide FBuf.Content;
      hide FBuf.Ended;
      if src.used == 0 {
        src.NothingLive();
        return 0;
      }
      var n := src.used;
      var room := ExtendBeside(used + n, src);
      if room == 0 { return -1; }
      AppendFrom(src);
      return n;
    }

    /** An extension that leaves another buffer alone. */
    method ExtendBeside(want: nat, src: FBuf) returns (r: nat)
      requires Valid() && src.Valid() && src != this && (src.data != null ==> src.data != data)
      modifies this, data
      ensures Valid() && used == old(used) && Content() == old(Content()) && (data == old(data) || fresh(data))
      ensures r == 0 <==> maxlen != 0 && want > maxlen
      ensures len == if r == 0 then old(len) else old(LenFor(want))
      ensures r != 0 ==> data != null && skip + want < len && src.data != data
      ensures r == 0 && old(Ended()) ==> Ended()
      ensures src.Valid() && src.Content() == old(src.Content()) && src.used == old(src.used) && src.data == old(src.data)
    {
      hide FBuf.Content;
      r := Extend(want);
    }

    lemma {:induction false} NothingLive()
      requires Valid() && used == 0
      ensures Content() == []
    {
    }

    /** Copies the live bytes of another buffer, and the byte behind them, into the room made for them. */
    method AppendFrom(src: FBuf)
      requires Valid() && data != null && src.Valid() && src.data != null && src != this && src.data != data
      requires skip + used + src.used < len
      modifies this`used, data
      ensures Valid() && Content() == old(Content()) + src.Content()
      ensures src.Ended() ==> Ended()
    {
      var n := src.used;
      var s := src.data[src.skip..src.skip + n + 1];
      assert s[..n] == src.Content();
      PutBehind(s, n);
    }
  }

  /** A hundred bytes, ten taken from the front, fifty put there: the allocation of 128 is given up and
      nothing is written behind the bytes. */
  method TerminatorLost(s: seq<byte>, front: seq<byte>) returns (buf: FBuf)
    requires |s| == 100 && |front| == 50
    ensures fresh(buf) && buf.Valid() && buf.Content() == Cells(front) + Cells(s)[10..]
    ensures buf.data != null && buf.data[buf.skip + buf.used] == Unset
  {
    buf := new FBuf(0);
    assert GrownFrom(0, 101) == GrownFrom(MINLEN, 101) == MINLEN;
    var a := buf.Add(s);
    var b := buf.Remove(10);
    assert buf.Ended() && buf.skip == 10 && buf.used == 90 && buf.len == MINLEN;
    var c := buf.Prepend(front);
  }

  ghost function Overwritten(was: seq<Cell>, at: nat, s: seq<Cell>): (now: seq<Cell>)
    requires at + |s| <= |was|
    ensures |now| == |was|
  {
    was[..at] + s + was[at + |s|..]
  }

  lemma {:induction false} WindowBehind(was: seq<Cell>, lo: nat, at: nat, s: seq<Cell>, n: nat)
    requires lo <= at && at + |s| <= |was| && n <= |s|
    ensures Overwritten(was, at, s)[lo..at + n] == was[lo..at] + s[..n]
    ensures n < |s| ==> Overwritten(was, at, s)[at + n] == s[n]
  {
  }

  lemma {:induction false} WindowBefore(was: seq<Cell>, at: nat, s: seq<Cell>, hi: nat)
    requires at + |s| <= hi <= |was|
    ensures Overwritten(was, at, s)[at..hi] == s + was[at + |s|..hi]
    ensures hi < |was| ==> Overwritten(was, at, s)[hi] == was[hi]
  {
    var now, want := Overwritten(was, at, s), s + was[at + |s|..hi];
    assert forall i :: 0 <= i < |want| ==> now[at..hi][i] == now[at + i] == want[i];
  }
}
