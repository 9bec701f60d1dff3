/**
  The status word of the hash table: any number of threads, each running the
  compare-and-swap loops of ht_get_list, ht_set_list, ht_grow_table or ht_clear.

  Every atomic operation on the word is one step; the schedule chooses which
  thread moves, which operation an idle thread starts, and when sched_yield fails.
 */
module HashStatus {
  import opened Basics

  const CLEAR := 0
  const WRITE := 1
  const GROW := 2
  const IDLE := 3
  const READ := 4

  /** The word is a uint32_t. */
  const WORD := 0x1_0000_0000

  type Thread = nat

  datatype Exclusive = Clearing | Writing | Growing

  function Mark(x: Exclusive): nat {
    match x case Clearing => CLEAR case Writing => WRITE case Growing => GROW
  }

  /** Where a thread is; `seen` is its local copy of the status. */
  datatype Point =
    | Outside
    | FirstTry                 // the do loop of ht_get_list
    | Join(seen: nat)          // about to add itself to the readers it saw
    | Retry                    // the exchange in the body of the while loop
    | Inside(seen: nat)        // a reader: `seen` is the value it stored
    | Leave(seen: nat)         // release loop, first exchange
    | LeaveLast                // release loop, second exchange
    | Wait(want: Exclusive)    // about to try IDLE -> want
    | Owns(what: Exclusive)

  datatype State = State(word: nat, at: map<Thread, Point>)

  /** What a step did to the word. */
  datatype Event = Quiet | Enter | Exit | Lock | Unlock

  datatype Move =
    | Start(who: Thread, reader: bool, want: Exclusive)
    | Run(who: Thread, yieldFails: bool)

  function Go(s: State, who: Thread, p: Point): State {
    s.(at := s.at[who := p])
  }

  function Increment(w: nat): nat {
    (w + 1) % WORD
  }

  function Decrement(w: nat): nat {
    (w + WORD - 1) % WORD
  }

  /** One atomic step of a thread that is not outside. */
  function Advance(s: State, who: Thread, yieldFails: bool): (r: (State, Event))
    requires who in s.at
  {
    match s.at[who]
    case Outside => (s, Quiet)
    case FirstTry =>
      if s.word == IDLE then (State(READ, s.at[who := Inside(READ)]), Enter)
      else if s.word < IDLE && !yieldFails then (s, Quiet)
      else (Go(s, who, Join(s.word)), Quiet)
    case Join(seen) =>
      if seen >= READ && s.word == seen
      then (State(Increment(seen), s.at[who := Inside(Increment(seen))]), Enter)
      else (Go(s, who, Retry), Quiet)
    case Retry =>
      if s.word == IDLE then (State(READ, s.at[who := Inside(READ)]), Enter)
      else (Go(s, who, Join(s.word)), Quiet)
    case Inside(seen) => (Go(s, who, Leave(seen)), Quiet)
    case Leave(seen) =>
      if s.word == seen then (State(Decrement(seen), s.at[who := Outside]), Exit)
      else (Go(s, who, LeaveLast), Quiet)
    case LeaveLast =>
      if s.word == READ then (State(IDLE, s.at[who := Outside]), Exit)
      else if s.word > READ then (Go(s, who, Leave(s.word)), Quiet)
      else (Go(s, who, Outside), Quiet)
    case Wait(want) =>
      if s.word == IDLE then (State(Mark(want), s.at[who := Owns(want)]), Lock)
      else if want == Growing then (Go(s, who, Outside), Quiet)
      else (s, Quiet)
    case Owns(what) =>
      if s.word == Mark(what) then (State(IDLE, s.at[who := Outside]), Unlock)
      else (Go(s, who, Outside), Quiet)
  }

  function Step(s: State, m: Move): (r: (State, Event)) {
    match m
    case Start(who, reader, want) =>
      if who in s.at && s.at[who].Outside?
      then (Go(s, who, if reader then FirstTry else Wait(want)), Quiet) else (s, Quiet)
    case Run(who, yieldFails) => if who in s.at then Advance(s, who, yieldFails) else (s, Quiet)
  }

  /** The state after a schedule. */
  function After(threads: set<Thread>, schedule: seq<Move>): State {
    if schedule == [] then State(IDLE, map t | t in threads :: Outside)
    else Step(After(threads, schedule[..|schedule| - 1]), schedule[|schedule| - 1]).0
  }

  /** The event of the last move of a schedule. */
  function LastEvent(threads: set<Thread>, schedule: seq<Move>): Event
    requires schedule != []
  {
    Step(After(threads, schedule[..|schedule| - 1]), schedule[|schedule| - 1]).1
  }

  // ---------------------------------------------------------------------
  // What every step keeps

  /** Counted in the word as a reader. */
  predicate Holds(p: Point) {
    p.Inside? || p.Leave? || p.LeaveLast?
  }

  function Readers(s: State): set<Thread> {
    set t | t in s.at && Holds(s.at[t])
  }

  function Owners(s: State): set<Thread> {
    set t | t in s.at && s.at[t].Owns?
  }

  ghost predicate Shared(s: State) {
    s.word == IDLE + |Readers(s)| && Owners(s) == {}
  }

  ghost predicate Locked(s: State, t: Thread) {
    t in s.at && s.at[t].Owns? && s.word == Mark(s.at[t].what) && Owners(s) == {t} && Readers(s) == {}
  }

  /** A local copy of the status is a value the word can have had at that point. */
  ghost predicate SeenOK(p: Point) {
    && (p.Inside? || p.Leave? ==> p.seen >= READ)
    && (p.Join? ==> p.seen != IDLE)
  }

  ghost predicate Inv(s: State) {
    && |s.at| < WORD - IDLE
    && (Shared(s) || exists t :: Locked(s, t))
    && forall t :: t in s.at ==> SeenOK(s.at[t])
  }

  lemma {:induction false} Moved(s: State, w: nat, t: Thread, p: Point)
    requires t in s.at
    ensures var s' := State(w, s.at[t := p]);
            && Readers(s') == (if Holds(p) then Readers(s) + {t} else Readers(s) - {t})
            && Owners(s') == (if p.Owns? then Owners(s) + {t} else Owners(s) - {t})
            && |s'.at| == |s.at|
  {
    var s' := State(w, s.at[t := p]);
    assert s'.at.Keys == s.at.Keys;
    assert |s'.at.Keys| == |s.at.Keys|;
  }

  /** The count cannot wrap around: a thread that is about to enter is not a reader yet. */
  lemma {:induction false} RoomToEnter(s: State, who: Thread)
    requires Inv(s) && who in s.at && !Holds(s.at[who])
    ensures s.word + 1 < WORD
  {
    assert who !in Readers(s);
    SubsetSize(Readers(s), s.at.Keys - {who});
    assert |s.at.Keys - {who}| == |s.at| - 1;
  }

  /** A reader keeps every owner out. */
  lemma {:induction false} ReaderSeesCount(s: State, who: Thread)
    requires Inv(s) && who in s.at && Holds(s.at[who])
    ensures Shared(s) && READ <= s.word < WORD
  {
    assert who in Readers(s);
    SubsetSize({who}, Readers(s));
    SubsetSize(Readers(s), s.at.Keys);
  }

  /** What a step means for the thread that makes it and for the word. */
  ghost predicate Faithful(s: State, s': State, who: Thread, e: Event)
    requires who in s.at && who in s'.at
  {
    var p, p' := s.at[who], s'.at[who];
    match e
    case Quiet => s'.word == s.word && Holds(p') == Holds(p) && p'.Owns? == p.Owns?
    case Enter => s'.word == s.word + 1 && !Holds(p) && p'.Inside? && s.word >= IDLE
    case Exit => s'.word == s.word - 1 && Holds(p) && p'.Outside? && s.word >= READ
    case Lock => s.word == IDLE && p.Wait? && p' == Owns(p.want) && s'.word == Mark(p.want)
    case Unlock => p.Owns? && s.word == Mark(p.what) && p'.Outside? && s'.word == IDLE
  }

  lemma {:induction false} EnterKeeps(s: State, who: Thread, p: Point)
    requires Inv(s) && who in s.at && !Holds(s.at[who]) && !s.at[who].Owns?
    requires s.word >= IDLE && p.Inside? && SeenOK(p)
    ensures Inv(State(s.word + 1, s.at[who := p]))
  {
    var s' := State(s.word + 1, s.at[who := p]);
    Moved(s, s'.word, who, p);
    assert Shared(s) && who !in Readers(s) && who !in Owners(s);
    hide Readers;
    hide Owners;
    assert |Readers(s) + {who}| == |Readers(s)| + 1;
    assert Shared(s');
  }

  lemma {:induction false} ExitKeeps(s: State, who: Thread)
    requires Inv(s) && who in s.at && Holds(s.at[who])
    ensures s.word >= READ && Inv(State(s.word - 1, s.at[who := Outside]))
  {
    ReaderSeesCount(s, who);
    var s' := State(s.word - 1, s.at[who := Outside]);
    Moved(s, s'.word, who, Outside);
    assert who in Readers(s) && who !in Owners(s);
    assert |Readers(s) - {who}| == |Readers(s)| - 1;
    assert Shared(s');
  }

  lemma {:induction false} QuietKeeps(s: State, who: Thread, p: Point)
    requires Inv(s) && who in s.at && !s.at[who].Owns? && !p.Owns?
    requires Holds(p) == Holds(s.at[who]) && SeenOK(p)
    ensures Inv(State(s.word, s.at[who := p]))
  {
    hide Readers;
    hide Owners;
    hide Holds;
    var s' := State(s.word, s.at[who := p]);
    SameParties(s, who, p);
    if Shared(s) { assert Shared(s'); } else { var t :| Locked(s, t); assert Locked(s', t); }
  }

  lemma {:induction false} SameParties(s: State, who: Thread, p: Point)
    requires who in s.at && !s.at[who].Owns? && !p.Owns? && Holds(p) == Holds(s.at[who])
    ensures var s' := State(s.word, s.at[who := p]);
            Readers(s') == Readers(s) && Owners(s') == Owners(s) && |s'.at| == |s.at|
  {
    Moved(s, s.word, who, p);
    assert (who in Readers(s) <==> Holds(s.at[who])) && who !in Owners(s);
  }

  lemma {:induction false} LockKeeps(s: State, who: Thread, x: Exclusive)
    requires Inv(s) && who in s.at && s.at[who].Wait? && s.word == IDLE
    ensures Inv(State(Mark(x), s.at[who := Owns(x)]))
  {
    var s' := State(Mark(x), s.at[who := Owns(x)]);
    Moved(s, Mark(x), who, Owns(x));
    assert Shared(s) && Readers(s) == {};
    assert Locked(s', who);
  }

  /** The release never fails: nobody else changes the word of an owner. */
  lemma {:induction false} UnlockKeeps(s: State, who: Thread)
    requires Inv(s) && who in s.at && s.at[who].Owns?
    ensures s.word == Mark(s.at[who].what) && Inv(State(IDLE, s.at[who := Outside]))
  {
    var s' := State(IDLE, s.at[who := Outside]);
    Moved(s, IDLE, who, Outside);
    assert who in Owners(s);
    var t :| Locked(s, t);
    assert Owners(s) == {who} && Readers(s) == {};
    assert Shared(s');
  }

  /** A step of a thread that wants to read. */
  lemma {:induction false} EnteringStep(s: State, who: Thread, yieldFails: bool)
    requires Inv(s) && who in s.at && (s.at[who].FirstTry? || s.at[who].Join? || s.at[who].Retry?)
    ensures var (s', e) := Advance(s, who, yieldFails);
            Inv(s') && who in s'.at && Faithful(s, s', who, e)
  {
    var (s', e) := Advance(s, who, yieldFails);
    var p' := s'.at[who];
    RoomToEnter(s, who);
    if e.Enter? { EnterKeeps(s, who, p'); } else { QuietKeeps(s, who, p'); }
  }

  /** A step of a reader that holds the table. */
  lemma {:induction false} LeavingStep(s: State, who: Thread, yieldFails: bool)
    requires Inv(s) && who in s.at && Holds(s.at[who])
    ensures var (s', e) := Advance(s, who, yieldFails);
            Inv(s') && who in s'.at && Faithful(s, s', who, e)
  {
    var (s', e) := Advance(s, who, yieldFails);
    var p' := s'.at[who];
    ReaderSeesCount(s, who);
    ExitKeeps(s, who);
    if !e.Exit? { QuietKeeps(s, who, p'); }
  }

  /** A step of a thread that wants or has the table for itself. */
  lemma {:induction false} OwnerStep(s: State, who: Thread, yieldFails: bool)
    requires Inv(s) && who in s.at && (s.at[who].Wait? || s.at[who].Owns?)
    ensures var (s', e) := Advance(s, who, yieldFails);
            Inv(s') && who in s'.at && Faithful(s, s', who, e)
  {
    hide Inv;
    var (s', e) := Advance(s, who, yieldFails);
    if s.at[who].Owns? { UnlockKeeps(s, who); }
    else if e.Lock? { LockKeeps(s, who, s.at[who].want); }
    else { QuietKeeps(s, who, s'.at[who]); }
  }

  lemma {:induction false} StepKeepsInv(s: State, m: Move)
    requires Inv(s)
    ensures Inv(Step(s, m).0)
    ensures m.who in s.at ==> m.who in Step(s, m).0.at && Faithful(s, Step(s, m).0, m.who, Step(s, m).1)
    ensures Step(s, m).0.at.Keys == s.at.Keys
    ensures forall t :: t in s.at && t != m.who ==> Step(s, m).0.at[t] == s.at[t]
  {
    hide Inv;
    match m
    case Start(who, reader, want) =>
      if who in s.at && s.at[who].Outside? {
        QuietKeeps(s, who, if reader then FirstTry else Wait(want));
      }
    case Run(who, yieldFails) =>
      if who in s.at && !s.at[who].Outside? {
        if s.at[who].Wait? || s.at[who].Owns? { OwnerStep(s, who, yieldFails); }
        else if Holds(s.at[who]) { LeavingStep(s, who, yieldFails); }
        else { EnteringStep(s, who, yieldFails); }
      }
  }

  // ---------------------------------------------------------------------
  // Whole runs

  /** In every run: a status below IDLE means one exclusive owner and no reader, any other
      status counts the readers. */
  lemma {:induction false} EveryRun(threads: set<Thread>, schedule: seq<Move>)
    requires |threads| < WORD - IDLE
    ensures Inv(After(threads, schedule)) && After(threads, schedule).at.Keys == threads
  {
    if schedule == [] {
      var s := After(threads, schedule);
      assert s.at.Keys == threads;
      assert |s.at| == |s.at.Keys|;
      assert Readers(s) == {} && Owners(s) == {};
    } else {
      var before := schedule[..|schedule| - 1];
      EveryRun(threads, before);
      StepKeepsInv(After(threads, before), schedule[|schedule| - 1]);
    }
  }

  /** No two exclusive owners, and no reader beside an owner. */
  lemma {:induction false} MutualExclusion(threads: set<Thread>, schedule: seq<Move>, a: Thread, b: Thread)
    requires |threads| < WORD - IDLE && a in threads && b in threads && a != b
    ensures var s := After(threads, schedule);
            a in s.at && b in s.at && (s.at[a].Owns? ==> !s.at[b].Owns? && !Holds(s.at[b]))
  {
    EveryRun(threads, schedule);
    var s := After(threads, schedule);
    if s.at[a].Owns? {
      assert a in Owners(s);
      var t :| Locked(s, t);
      assert b !in Owners(s) && b !in Readers(s);
    }
  }

  /** How often the thread has entered as a reader, minus how often it has left. */
  function Net(threads: set<Thread>, schedule: seq<Move>, t: Thread): int {
    if schedule == [] then 0 else
    var before := Net(threads, schedule[..|schedule| - 1], t);
    var last := schedule[|schedule| - 1];
    if last.who != t then before else
    match LastEvent(threads, schedule)
    case Enter => before + 1
    case Exit => before - 1
    case _ => before
  }

  /** Each time through ht_get_list the word goes up once and down once: a reader inside has
      entered once more than it has left, and a thread that is done has left as often as entered. */
  lemma {:induction false} ReleaseExactlyOnce(threads: set<Thread>, schedule: seq<Move>, t: Thread)
    requires |threads| < WORD - IDLE && t in threads
    ensures t in After(threads, schedule).at
    ensures Net(threads, schedule, t) == if Holds(After(threads, schedule).at[t]) then 1 else 0
  {
    EveryRun(threads, schedule);
    if schedule != [] {
      var before, last := schedule[..|schedule| - 1], schedule[|schedule| - 1];
      EveryRun(threads, before);
      ReleaseExactlyOnce(threads, before, t);
      StepKeepsInv(After(threads, before), last);
    }
  }

  /** Left alone, a reader gets out within three exchanges. */
  lemma {:induction false} ReleaseAlone(s: State, who: Thread)
    requires Inv(s) && who in s.at && s.at[who].Leave?
    ensures var s1 := Advance(s, who, false).0;
            who in s1.at &&
            (s1.at[who].Outside? ||
             var s2 := Advance(s1, who, false).0;
             who in s2.at &&
             (s2.at[who].Outside? ||
              var s3 := Advance(s2, who, false).0;
              who in s3.at && s3.at[who].Outside?))
  {
    var s1 := Advance(s, who, false).0;
    LeavingStep(s, who, false);
    if !s1.at[who].Outside? {
      assert who in Readers(s1) && !exists t :: Locked(s1, t);
      assert |Readers(s1)| >= 1;
    }
  }
}
