/**
  Progress on the status word: in every state that any run of any number of threads can
  reach, a thread that moves without interference gets in when it may, waits or gives up
  when it may not, and gets out; so no run can end in a deadlock.
 */
module HashProgress {
  import opened Basics
  import opened HashStatus

  function PointOf(s: State, t: Thread): Point {
    if t in s.at then s.at[t] else Outside
  }

  /** On the way into ht_get_list. */
  predicate Trying(p: Point) {
    p.FirstTry? || p.Join? || p.Retry?
  }

  ghost predicate NoOwner(s: State) {
    forall t :: !PointOf(s, t).Owns?
  }

  ghost predicate NoReader(s: State) {
    forall t :: !Holds(PointOf(s, t))
  }

  /** Nobody but one thread has moved. */
  ghost predicate OthersStay(s: State, s': State, who: Thread) {
    s'.at.Keys == s.at.Keys && forall t :: t != who ==> PointOf(s', t) == PointOf(s, t)
  }

  /** Only one thread moves, whatever its sched_yield returns. */
  predicate Only(moves: seq<Move>, who: Thread) {
    forall i :: 0 <= i < |moves| ==> moves[i].Run? && moves[i].who == who
  }

  function Then(s: State, moves: seq<Move>): State
    decreases |moves|
  {
    if moves == [] then s else Then(Step(s, moves[0]).0, moves[1..])
  }

  lemma {:induction false} AfterThen(threads: set<Thread>, schedule: seq<Move>, moves: seq<Move>)
    ensures After(threads, schedule + moves) == Then(After(threads, schedule), moves)
    decreases |moves|
  {
    if moves == [] {
      assert schedule + moves == schedule;
    } else {
      var first := schedule + [moves[0]];
      assert first[..|schedule|] == schedule;
      assert schedule + moves == first + moves[1..];
      AfterThen(threads, first, moves[1..]);
    }
  }

  lemma {:induction false} ThenKeeps(s: State, moves: seq<Move>)
    requires Inv(s)
    ensures Inv(Then(s, moves)) && Then(s, moves).at.Keys == s.at.Keys
    decreases |moves|
  {
    if moves != [] {
      StepKeepsInv(s, moves[0]);
      hide Inv;
      ThenKeeps(Step(s, moves[0]).0, moves[1..]);
    }
  }

  // ---------------------------------------------------------------------
  // What the word says

  /** Without an owner the word counts the readers. */
  lemma {:induction false} Counted(s: State)
    requires Inv(s)
    ensures NoOwner(s) <==> s.word >= 3
    ensures NoOwner(s) && NoReader(s) <==> s.word == 3
    ensures NoOwner(s) ==> s.word == 3 + |Readers(s)| < WORD
  {
    if Shared(s) {
      forall t ensures !PointOf(s, t).Owns? { assert t !in Owners(s); }
      SubsetSize(Readers(s), s.at.Keys);
      if NoReader(s) {
        forall t ensures t !in Readers(s) { assert !Holds(PointOf(s, t)); }
        assert Readers(s) == {};
      } else {
        var t :| Holds(PointOf(s, t));
        assert t in Readers(s);
      }
    } else {
      var t :| Locked(s, t);
      assert PointOf(s, t).Owns?;
    }
  }

  // ---------------------------------------------------------------------
  // Single steps, for a thread that moves in a state without owner

  ghost predicate CameIn(s: State, s': State, who: Thread) {
    PointOf(s', who) == Inside(s'.word) && s'.word == s.word + 1 && OthersStay(s, s', who)
  }

  ghost predicate WentOut(s: State, s': State, who: Thread) {
    PointOf(s', who) == Outside && s'.word == s.word - 1 && OthersStay(s, s', who)
  }

  /** The thread has moved and nothing else has changed. */
  ghost predicate MovedOn(s: State, s': State, who: Thread) {
    s'.word == s.word && OthersStay(s, s', who)
  }

  /** How many exchanges a reader has before it at most. */
  function Tries(p: Point, word: nat): nat {
    match p
    case FirstTry => if word == IDLE then 1 else 2
    case Retry => if word == IDLE then 1 else 2
    case Join(seen) => if seen >= READ && seen == word then 1 else if word == IDLE then 2 else 3
    case _ => 0
  }

  lemma {:induction false} TryStep(s: State, m: Move)
    requires Inv(s) && m.Run? && m.who in s.at && Trying(s.at[m.who]) && NoOwner(s)
    ensures var s' := Step(s, m).0; var p, p' := s.at[m.who], PointOf(s', m.who);
            && Inv(s') && m.who in s'.at
            && if Tries(p, s.word) == 1 then CameIn(s, s', m.who)
               else MovedOn(s, s', m.who) && Trying(p') && NoOwner(s') && Tries(p', s.word) == Tries(p, s.word) - 1
  {
    Counted(s);
    RoomToEnter(s, m.who);
    StepKeepsInv(s, m);
    hide Inv;
    assert SeenOK(s.at[m.who]) by { SeenThere(s, m.who); }
  }

  lemma {:induction false} SeenThere(s: State, who: Thread)
    requires Inv(s) && who in s.at
    ensures SeenOK(s.at[who])
  {
  }

  /** How many steps a reader has before it at most. */
  function Exits(p: Point, word: nat): nat {
    match p
    case Inside(seen) => if seen == word then 2 else if word == READ then 3 else 4
    case Leave(seen) => if seen == word then 1 else if word == READ then 2 else 3
    case LeaveLast => if word == READ then 1 else 2
    case _ => 0
  }

  lemma {:induction false} LeaveStep(s: State, m: Move)
    requires Inv(s) && m.Run? && m.who in s.at && Holds(s.at[m.who])
    ensures var s' := Step(s, m).0; var p, p' := s.at[m.who], PointOf(s', m.who);
            && Inv(s') && m.who in s'.at
            && if Exits(p, s.word) == 1 then WentOut(s, s', m.who)
               else MovedOn(s, s', m.who) && Holds(p') && Exits(p', s.word) == Exits(p, s.word) - 1
  {
    ReaderSeesCount(s, m.who);
    StepKeepsInv(s, m);
    SeenThere(s, m.who);
    hide Inv;
  }

  lemma {:induction false} StayTwice(s: State, s1: State, s2: State, who: Thread)
    requires MovedOn(s, s1, who)
    ensures CameIn(s1, s2, who) ==> CameIn(s, s2, who)
    ensures WentOut(s1, s2, who) ==> WentOut(s, s2, who)
  {
    hide PointOf;
  }

  lemma {:induction false} ThenOne(s: State, moves: seq<Move>, k: nat)
    requires 0 < k <= |moves|
    ensures Then(s, moves[..k]) == Then(Step(s, moves[0]).0, moves[1..][..k - 1])
  {
    assert moves[..k][1..] == moves[1..][..k - 1];
  }

  /** A reader alone is inside after so many steps. */
  lemma {:induction false} TryAlone(s: State, who: Thread, moves: seq<Move>)
    requires Inv(s) && who in s.at && Trying(s.at[who]) && NoOwner(s) && Only(moves, who)
    requires |moves| >= Tries(s.at[who], s.word)
    ensures 1 <= Tries(s.at[who], s.word) <= 3
    ensures CameIn(s, Then(s, moves[..Tries(s.at[who], s.word)]), who)
    decreases |moves|
  {
    var n, s1 := Tries(s.at[who], s.word), Step(s, moves[0]).0;
    TryStep(s, moves[0]);
    ThenOne(s, moves, n);
    hide Inv;
    hide CameIn;
    hide Step;
    if n == 1 {
      assert moves[1..][..0] == [];
    } else {
      hide Only;
      OnlyTail(moves, who);
      TryAlone(s1, who, moves[1..]);
      StayTwice(s, s1, Then(s, moves[..n]), who);
    }
  }

  lemma {:induction false} OnlyTail(moves: seq<Move>, who: Thread)
    requires Only(moves, who) && moves != []
    ensures Only(moves[1..], who) && moves[0].Run? && moves[0].who == who
  {
  }

  /** A reader that moves alone is out after so many steps. */
  lemma {:induction false} LeaveAlone(s: State, who: Thread, moves: seq<Move>)
    requires Inv(s) && who in s.at && Holds(s.at[who]) && Only(moves, who)
    requires |moves| >= Exits(s.at[who], s.word)
    ensures 1 <= Exits(s.at[who], s.word) <= 4
    ensures WentOut(s, Then(s, moves[..Exits(s.at[who], s.word)]), who)
    decreases |moves|
  {
    var n, s1 := Exits(s.at[who], s.word), Step(s, moves[0]).0;
    LeaveStep(s, moves[0]);
    ThenOne(s, moves, n);
    hide Inv;
    hide WentOut;
    hide Step;
    if n == 1 {
      assert moves[1..][..0] == [];
    } else {
      hide Only;
      OnlyTail(moves, who);
      LeaveAlone(s1, who, moves[1..]);
      StayTwice(s, s1, Then(s, moves[..n]), who);
    }
  }

  // ---------------------------------------------------------------------
  // Whole runs

  /** In every run the word is three plus the number of readers, or zero, one or two for the one thread
      that clears, writes or grows. */
  lemma {:induction false} WordMeans(threads: set<Thread>, schedule: seq<Move>, t: Thread)
    requires |threads| < WORD - IDLE
    ensures var s := After(threads, schedule);
            && (NoOwner(s) <==> s.word >= 3) && (NoOwner(s) ==> s.word == 3 + |Readers(s)|)
            && match PointOf(s, t)
               case Owns(Clearing) => s.word == 0 && NoReader(s)
               case Owns(Writing) => s.word == 1 && NoReader(s)
               case Owns(Growing) => s.word == 2 && NoReader(s)
               case _ => true
  {
    EveryRun(threads, schedule);
    var s := After(threads, schedule);
    Counted(s);
    if PointOf(s, t).Owns? { OwnerAlone(s, t); }
  }

  lemma {:induction false} OwnerAlone(s: State, t: Thread)
    requires Inv(s) && t in s.at && s.at[t].Owns?
    ensures s.word == Mark(s.at[t].what) && NoReader(s)
  {
    assert t in Owners(s);
    var u :| Locked(s, u);
    forall v ensures !Holds(PointOf(s, v)) { assert v !in Readers(s); }
  }

  /** An operation starts where it should, without touching the word. */
  lemma {:induction false} Starts(threads: set<Thread>, schedule: seq<Move>, who: Thread, reader: bool, want: Exclusive)
    requires |threads| < WORD - IDLE && who in threads
    requires PointOf(After(threads, schedule), who) == Outside
    ensures var s, s' := After(threads, schedule), After(threads, schedule + [Start(who, reader, want)]);
            MovedOn(s, s', who) && PointOf(s', who) == if reader then FirstTry else Wait(want)
  {
    EveryRun(threads, schedule);
    AfterThen(threads, schedule, [Start(who, reader, want)]);
  }

  /** In every reachable state without an owner, a reader that moves alone is inside after at most three
      of its steps, and the word has gone up by one. */
  lemma {:induction false} ReaderGetsIn(threads: set<Thread>, schedule: seq<Move>, who: Thread, moves: seq<Move>)
    requires |threads| < WORD - IDLE && who in threads && |moves| == 3 && Only(moves, who)
    requires Trying(PointOf(After(threads, schedule), who)) && NoOwner(After(threads, schedule))
    ensures exists k :: 1 <= k <= 3 && CameIn(After(threads, schedule), After(threads, schedule + moves[..k]), who)
  {
    EveryRun(threads, schedule);
    var s := After(threads, schedule);
    TryAlone(s, who, moves);
    AfterThen(threads, schedule, moves[..Tries(s.at[who], s.word)]);
  }

  /** As long as there is an owner, a reader does not get in however often it tries. */
  lemma {:induction false} ReaderWaits(threads: set<Thread>, schedule: seq<Move>, who: Thread, yieldFails: bool)
    requires |threads| < WORD - IDLE && who in threads
    requires Trying(PointOf(After(threads, schedule), who)) && !NoOwner(After(threads, schedule))
    ensures var s, s' := After(threads, schedule), After(threads, schedule + [Run(who, yieldFails)]);
            MovedOn(s, s', who) && Trying(PointOf(s', who))
  {
    EveryRun(threads, schedule);
    AfterThen(threads, schedule, [Run(who, yieldFails)]);
    Counted(After(threads, schedule));
  }

  /** In every reachable state a reader that moves alone is out after at most four of its steps, and the
      word has gone down by one. */
  lemma {:induction false} ReaderGetsOut(threads: set<Thread>, schedule: seq<Move>, who: Thread, moves: seq<Move>)
    requires |threads| < WORD - IDLE && who in threads && |moves| == 4 && Only(moves, who)
    requires Holds(PointOf(After(threads, schedule), who))
    ensures exists k :: 1 <= k <= 4 && WentOut(After(threads, schedule), After(threads, schedule + moves[..k]), who)
  {
    EveryRun(threads, schedule);
    var s := After(threads, schedule);
    LeaveAlone(s, who, moves);
    AfterThen(threads, schedule, moves[..Exits(s.at[who], s.word)]);
  }

  /** A thread that has started for `want` owns exactly that after its exchange if nobody is inside;
      with anybody inside a writer or clearer stays waiting and a grower gives up. */
  lemma {:induction false} OwnerGetsIn(threads: set<Thread>, schedule: seq<Move>, who: Thread, want: Exclusive, yieldFails: bool)
    requires |threads| < WORD - IDLE && who in threads && PointOf(After(threads, schedule), who) == Wait(want)
    ensures var s, s' := After(threads, schedule), After(threads, schedule + [Run(who, yieldFails)]);
            && OthersStay(s, s', who)
            && if NoOwner(s) && NoReader(s)
               then PointOf(s', who) == Owns(want) && s'.word == match want case Clearing => 0 case Writing => 1 case Growing => 2
               else s'.word == s.word && PointOf(s', who) == if want == Growing then Outside else Wait(want)
  {
    EveryRun(threads, schedule);
    AfterThen(threads, schedule, [Run(who, yieldFails)]);
    Counted(After(threads, schedule));
  }

  /** An owner is out after one exchange, and the word says that nobody is inside. */
  lemma {:induction false} OwnerGetsOut(threads: set<Thread>, schedule: seq<Move>, who: Thread, yieldFails: bool)
    requires |threads| < WORD - IDLE && who in threads && PointOf(After(threads, schedule), who).Owns?
    ensures var s, s' := After(threads, schedule), After(threads, schedule + [Run(who, yieldFails)]);
            PointOf(s', who) == Outside && s'.word == 3 && OthersStay(s, s', who)
  {
    EveryRun(threads, schedule);
    AfterThen(threads, schedule, [Run(who, yieldFails)]);
    OwnerAlone(After(threads, schedule), who);
  }

  // ---------------------------------------------------------------------
  // No deadlock

  function Active(s: State): set<Thread> {
    set t | t in s.at && s.at[t] != Outside
  }

  predicate AllRun(moves: seq<Move>) {
    forall i :: 0 <= i < |moves| ==> moves[i].Run?
  }

  lemma {:induction false} ThenConcat(s: State, a: seq<Move>, b: seq<Move>)
    ensures Then(s, a + b) == Then(Then(s, a), b)
    decreases |a|
  {
    if a == [] {
      assert a + b == b;
    } else {
      ThenConcat(Step(s, a[0]).0, a[1..], b);
      assert (a + b)[1..] == a[1..] + b;
    }
  }

  function Solo(who: Thread, n: nat): seq<Move> {
    seq(n, _ => Run(who, false))
  }

  /** The thread can finish while all others stand still. */
  ghost predicate CanFinish(s: State, who: Thread) {
    exists n: nat :: var s' := Then(s, Solo(who, n)); PointOf(s', who) == Outside && OthersStay(s, s', who)
  }

  lemma {:induction false} FinishLater(s: State, s1: State, who: Thread, n: nat)
    requires s1 == Then(s, Solo(who, n)) && OthersStay(s, s1, who) && CanFinish(s1, who)
    ensures CanFinish(s, who)
  {
    var m: nat :| var s' := Then(s1, Solo(who, m)); PointOf(s', who) == Outside && OthersStay(s1, s', who);
    ThenConcat(s, Solo(who, n), Solo(who, m));
    assert Solo(who, n) + Solo(who, m) == Solo(who, n + m);
  }

  lemma {:induction false} ReaderFinishes(s: State, who: Thread)
    requires Inv(s) && who in s.at && Holds(s.at[who])
    ensures CanFinish(s, who)
  {
    var n := Exits(s.at[who], s.word);
    LeaveAlone(s, who, Solo(who, n));
    assert Solo(who, n)[..n] == Solo(who, n);
  }

  lemma {:induction false} TryerFinishes(s: State, who: Thread)
    requires Inv(s) && who in s.at && Trying(s.at[who]) && NoOwner(s)
    ensures CanFinish(s, who)
  {
    var n := Tries(s.at[who], s.word);
    TryAlone(s, who, Solo(who, n));
    assert Solo(who, n)[..n] == Solo(who, n);
    var s1 := Then(s, Solo(who, n));
    ThenKeeps(s, Solo(who, n));
    hide Inv;
    ReaderFinishes(s1, who);
    FinishLater(s, s1, who, n);
  }

  lemma {:induction false} SoloOne(s: State, who: Thread)
    ensures Then(s, Solo(who, 1)) == Step(s, Run(who, false)).0
  {
    assert Solo(who, 1)[1..] == [];
    assert Then(Step(s, Run(who, false)).0, []) == Step(s, Run(who, false)).0;
  }

  lemma {:induction false} OwnerFinishes(s: State, who: Thread)
    requires Inv(s) && who in s.at && s.at[who].Owns?
    ensures CanFinish(s, who)
  {
    SoloOne(s, who);
    OwnerAlone(s, who);
    var s' := Then(s, Solo(who, 1));
    assert PointOf(s', who) == Outside && OthersStay(s, s', who);
  }

  lemma {:induction false} WaiterFinishes(s: State, who: Thread)
    requires Inv(s) && who in s.at && s.at[who].Wait? && s.word == IDLE
    ensures CanFinish(s, who)
  {
    SoloOne(s, who);
    var s1 := Then(s, Solo(who, 1));
    StepKeepsInv(s, Run(who, false));
    OwnerFinishes(s1, who);
    FinishLater(s, s1, who, 1);
  }

  /** Among the threads that are not outside there is always one that can finish. */
  lemma {:induction false} SomebodyFinishes(s: State)
    requires Inv(s) && Active(s) != {}
    ensures exists t :: t in Active(s) && CanFinish(s, t)
  {
    hide CanFinish;
    Counted(s);
    if !NoOwner(s) {
      var t :| PointOf(s, t).Owns?;
      OwnerFinishes(s, t);
      assert t in Active(s);
    } else if !NoReader(s) {
      var t :| Holds(PointOf(s, t));
      ReaderFinishes(s, t);
      assert t in Active(s);
    } else {
      var t :| t in Active(s);
      if Trying(s.at[t]) { TryerFinishes(s, t); }
      else {
        assert !PointOf(s, t).Owns? && !Holds(PointOf(s, t));
        WaiterFinishes(s, t);
      }
    }
  }

  /** Everybody is outside and the word says so. */
  ghost predicate AtRest(s: State) {
    Active(s) == {} && s.word == 3
  }

  lemma {:induction false} RestReachable(s: State)
    requires Inv(s)
    ensures exists moves :: AllRun(moves) && AtRest(Then(s, moves))
    decreases |Active(s)|
  {
    hide CanFinish;
    if Active(s) == {} {
      Resting(s);
      assert AllRun([]) && Then(s, []) == s;
    } else {
      SomebodyFinishes(s);
      var t :| t in Active(s) && CanFinish(s, t);
      OneLess(s, t);
      var n: nat :| var s' := Then(s, Solo(t, n)); Inv(s') && |Active(s')| < |Active(s)|;
      hide Inv;
      hide Active;
      RestReachable(Then(s, Solo(t, n)));
      var moves :| AllRun(moves) && AtRest(Then(Then(s, Solo(t, n)), moves));
      ThenConcat(s, Solo(t, n), moves);
      assert AllRun(Solo(t, n) + moves);
    }
  }

  lemma {:induction false} Resting(s: State)
    requires Inv(s) && Active(s) == {}
    ensures AtRest(s)
  {
    forall t ensures PointOf(s, t) == Outside { assert t !in Active(s); }
    Counted(s);
  }

  lemma {:induction false} OneLess(s: State, t: Thread)
    requires Inv(s) && t in Active(s) && CanFinish(s, t)
    ensures exists n: nat :: var s' := Then(s, Solo(t, n)); Inv(s') && |Active(s')| < |Active(s)|
  {
    var n: nat :| var s' := Then(s, Solo(t, n)); PointOf(s', t) == Outside && OthersStay(s, s', t);
    var s' := Then(s, Solo(t, n));
    ThenKeeps(s, Solo(t, n));
    forall u ensures u in Active(s') <==> u in Active(s) - {t} {
      assert u != t ==> PointOf(s', u) == PointOf(s, u);
    }
    assert Active(s') == Active(s) - {t};
  }

  /** No deadlock: whatever a run has led to, the threads can all come to an end, each with the steps of
      the program alone, and leave the word at IDLE. */
  lemma {:induction false} NoDeadlock(threads: set<Thread>, schedule: seq<Move>)
    requires |threads| < WORD - IDLE
    ensures exists moves :: AllRun(moves) && AtRest(After(threads, schedule + moves))
  {
    EveryRun(threads, schedule);
    RestReachable(After(threads, schedule));
    var moves :| AllRun(moves) && AtRest(Then(After(threads, schedule), moves));
    AfterThen(threads, schedule, moves);
  }
}
