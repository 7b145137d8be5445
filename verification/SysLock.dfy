/**
 The two-mutex system lock of the Genode port (lib/genode_cpp/syslocks.h), as
 threads that interleave one memory access or mutex operation at a time. A mutex
 is a bit that only `Next` sets and clears; a thread whose mutex is held stays
 where it is.
 */
module SysLock {
  datatype Call = Acquire | Try | Release

  /** Where a thread stands inside acquireSys, tryAcquireSys or releaseSys. */
  datatype Pc =
    | Idle
    | AcqLockA | AcqSet | AcqTakeB | AcqUnlockA
    | TryRead | TryLockA | TryCheck | TrySet | TryTakeB | TryWon | TryLost
    | RelLockA | RelClear | RelGiveB | RelUnlockA

  /** `holds` is the client's view: a call that takes the lock has returned and no release has been started. */
  datatype Thread = Thread(pc: Pc, holds: bool)

  datatype State = State(a: bool, b: bool, locked: bool, threads: seq<Thread>)

  /** Thread `thread` runs one step; `call` is what it calls when it is idle. */
  datatype Event = Event(thread: nat, call: Call)

  function Goto(s: State, t: nat, pc: Pc): State
    requires t < |s.threads|
  {
    s.(threads := s.threads[t := s.threads[t].(pc := pc)])
  }

  function Return(s: State, t: nat, holds: bool): State
    requires t < |s.threads|
  {
    s.(threads := s.threads[t := Thread(Idle, holds)])
  }

  function Next(s: State, e: Event): State {
    if e.thread >= |s.threads| then s else
    var t := e.thread;
    match s.threads[t].pc
    case Idle =>
      (match e.call
       case Acquire => Goto(s, t, AcqLockA)
       case Try => Goto(s, t, TryRead)
       case Release =>
         // only the holder releases
         if s.threads[t].holds then s.(threads := s.threads[t := Thread(RelLockA, false)]) else s)
    case AcqLockA => if s.a then s else Goto(s.(a := true), t, AcqSet)
    case AcqSet => Goto(s.(locked := true), t, AcqTakeB)
    case AcqTakeB => if s.b then s else Goto(s.(b := true), t, AcqUnlockA)
    case AcqUnlockA => Return(s.(a := false), t, true)
    case TryRead => if s.locked then Goto(s, t, Idle) else Goto(s, t, TryLockA)
    case TryLockA => if s.a then s else Goto(s.(a := true), t, TryCheck)
    case TryCheck => if s.locked then Goto(s, t, TryLost) else Goto(s, t, TrySet)
    case TrySet => Goto(s.(locked := true), t, TryTakeB)
    case TryTakeB => if s.b then s else Goto(s.(b := true), t, TryWon)
    case TryWon => Return(s.(a := false), t, true)
    case TryLost => Goto(s.(a := false), t, Idle)
    case RelLockA => if s.a then s else Goto(s.(a := true), t, RelClear)
    case RelClear => Goto(s.(locked := false), t, RelGiveB)
    case RelGiveB => Goto(s.(b := false), t, RelUnlockA)
    case RelUnlockA => Goto(s.(a := false), t, Idle)
  }

  function Run(s: State, events: seq<Event>): State
    decreases events
  {
    if events == [] then s else Run(Next(s, events[0]), events[1..])
  }

  predicate Initial(s: State) {
    && !s.a && !s.b && !s.locked
    && forall i | 0 <= i < |s.threads| :: s.threads[i] == Thread(Idle, false)
  }

  /** The thread is between its lock and its unlock of _mutex_a. */
  predicate InA(t: Thread) {
    !t.pc.Idle? && !t.pc.AcqLockA? && !t.pc.TryRead? && !t.pc.TryLockA? && !t.pc.RelLockA?
  }

  /** The thread has taken _mutex_b and not given it back. */
  predicate InB(t: Thread) {
    t.holds || t.pc.AcqUnlockA? || t.pc.TryWon? || t.pc.RelLockA? || t.pc.RelClear? || t.pc.RelGiveB?
  }

  /** The flag and _mutex_b differ only while one of these steps is next. */
  predicate Between(t: Thread) {
    t.pc.AcqTakeB? || t.pc.TryTakeB? || t.pc.RelGiveB?
  }

  /** What a thread knows at some of its steps. */
  predicate Knows(s: State, t: Thread) {
    match t.pc
    case AcqTakeB => s.locked
    case TrySet => !s.locked && !s.b
    case TryTakeB => s.locked && !s.b
    case RelLockA => !t.holds
    case RelClear => !t.holds
    case RelGiveB => !s.locked && s.b && !t.holds
    case _ => true
  }

  /** The bit says whether somebody is in, and at most one is. */
  ghost predicate Guards(bit: bool, isIn: seq<bool>) {
    && (bit <==> exists i | 0 <= i < |isIn| :: isIn[i])
    && forall i, j | 0 <= i < |isIn| && 0 <= j < |isIn| && isIn[i] && isIn[j] :: i == j
  }

  function WhoIsInA(threads: seq<Thread>): seq<bool> {
    seq(|threads|, i requires 0 <= i < |threads| => InA(threads[i]))
  }

  function WhoIsInB(threads: seq<Thread>): seq<bool> {
    seq(|threads|, i requires 0 <= i < |threads| => InB(threads[i]))
  }

  ghost predicate Inv(s: State) {
    && Guards(s.a, WhoIsInA(s.threads))
    && Guards(s.b, WhoIsInB(s.threads))
    && (forall i | 0 <= i < |s.threads| :: Knows(s, s.threads[i]))
    && ((forall i | 0 <= i < |s.threads| :: !Between(s.threads[i])) ==> s.locked == s.b)
  }

  /** What one step does to a bit and to one member, as GuardsStep allows it. */
  predicate Moves(bit: bool, wasIn: bool, newBit: bool, isIn: bool) {
    || (isIn == wasIn && newBit == bit)
    || (!wasIn && isIn && !bit && newBit)
    || (wasIn && !isIn && !newBit)
  }

  /** One member may stay as it is, come in when the bit is clear, or leave and clear it. */
  lemma GuardsStep(bit: bool, isIn: seq<bool>, t: nat, newBit: bool, v: bool)
    requires Guards(bit, isIn) && t < |isIn|
    requires Moves(bit, isIn[t], newBit, v)
    ensures Guards(newBit, isIn[t := v])
  {
    var out := isIn[t := v];
    if newBit {
      var i :| 0 <= i < |isIn| && (isIn[i] || (i == t && v));
      assert out[i];
    }
  }

  lemma OnlyThreadMoves(s: State, e: Event)
    ensures |Next(s, e).threads| == |s.threads|
    ensures forall i | 0 <= i < |s.threads| && i != e.thread :: Next(s, e).threads[i] == s.threads[i]
  {
  }

  lemma StepMoves(s: State, e: Event)
    requires e.thread < |s.threads|
    requires InA(s.threads[e.thread]) ==> s.a
    requires InB(s.threads[e.thread]) ==> s.b
    requires Knows(s, s.threads[e.thread])
    ensures |Next(s, e).threads| == |s.threads|
    ensures Moves(s.a, InA(s.threads[e.thread]), Next(s, e).a, InA(Next(s, e).threads[e.thread]))
    ensures Moves(s.b, InB(s.threads[e.thread]), Next(s, e).b, InB(Next(s, e).threads[e.thread]))
  {
  }

  lemma NextKeepsGuards(s: State, e: Event)
    requires Inv(s)
    ensures Guards(Next(s, e).a, WhoIsInA(Next(s, e).threads))
    ensures Guards(Next(s, e).b, WhoIsInB(Next(s, e).threads))
  {
    var n, t := Next(s, e), e.thread;
    if t < |s.threads| {
      hide Guards, Next, InA, InB, Knows, Between;
      OnlyThreadMoves(s, e);
      InSetsBit(s, t);
      StepMoves(s, e);
      assert WhoIsInA(n.threads) == WhoIsInA(s.threads)[t := InA(n.threads[t])];
      assert WhoIsInB(n.threads) == WhoIsInB(s.threads)[t := InB(n.threads[t])];
      GuardsStep(s.a, WhoIsInA(s.threads), t, n.a, InA(n.threads[t]));
      GuardsStep(s.b, WhoIsInB(s.threads), t, n.b, InB(n.threads[t]));
    }
  }

  lemma InSetsBit(s: State, t: nat)
    requires Inv(s) && t < |s.threads|
    ensures InA(s.threads[t]) ==> s.a
    ensures InB(s.threads[t]) ==> s.b
  {
    assert WhoIsInA(s.threads)[t] == InA(s.threads[t]);
    assert WhoIsInB(s.threads)[t] == InB(s.threads[t]);
  }

  lemma OneInA(s: State, t: nat, u: nat)
    requires Inv(s) && t < |s.threads| && u < |s.threads| && InA(s.threads[t]) && InA(s.threads[u])
    ensures t == u
  {
    assert WhoIsInA(s.threads)[t] && WhoIsInA(s.threads)[u];
  }

  /** While a thread is inside the guarded region nobody else is, so the flag is settled unless it is its own turn. */
  lemma SettledAround(s: State, t: nat)
    requires Inv(s) && t < |s.threads| && InA(s.threads[t]) && !Between(s.threads[t])
    ensures s.locked == s.b
  {
    forall i | 0 <= i < |s.threads|
      ensures !Between(s.threads[i])
    {
      if Between(s.threads[i]) { OneInA(s, t, i); }
    }
  }

  /** A step of a thread outside the guarded region leaves the flag and _mutex_b alone. */
  lemma OutsideStep(s: State, e: Event)
    requires e.thread < |s.threads| ==> !InA(s.threads[e.thread]) && Knows(s, s.threads[e.thread])
    ensures Next(s, e).locked == s.locked && Next(s, e).b == s.b
    ensures e.thread < |s.threads| ==> !Between(Next(s, e).threads[e.thread])
    ensures e.thread < |s.threads| ==> Knows(Next(s, e), Next(s, e).threads[e.thread])
  {
  }

  lemma OwnKnowledge(s: State, e: Event)
    requires Inv(s)
    requires e.thread < |s.threads|
    ensures Knows(Next(s, e), Next(s, e).threads[e.thread])
  {
    var t := e.thread;
    assert Knows(s, s.threads[t]);
    if InA(s.threads[t]) {
      InSetsBit(s, t);
      if !Between(s.threads[t]) { SettledAround(s, t); }
    } else {
      OutsideStep(s, e);
    }
  }

  lemma OthersKnowledge(s: State, e: Event, i: nat)
    requires Inv(s)
    requires i < |s.threads| && i != e.thread
    ensures Knows(Next(s, e), s.threads[i])
  {
    assert Knows(s, s.threads[i]);
    if InA(s.threads[i]) {
      if e.thread < |s.threads| && InA(s.threads[e.thread]) {
        OneInA(s, i, e.thread);
      } else {
        OutsideStep(s, e);
      }
    }
  }

  lemma NextKeepsSettled(s: State, e: Event)
    requires Inv(s)
    requires forall i | 0 <= i < |s.threads| :: !Between(Next(s, e).threads[i])
    ensures Next(s, e).locked == Next(s, e).b
  {
    OnlyThreadMoves(s, e);
    var n, t := Next(s, e), e.thread;
    if t < |s.threads| && InA(s.threads[t]) {
      InSetsBit(s, t);
      assert Knows(s, s.threads[t]);
      if !Between(s.threads[t]) { SettledAround(s, t); }
      assert !Between(n.threads[t]);
    } else {
      OutsideStep(s, e);
      forall i | 0 <= i < |s.threads|
        ensures !Between(s.threads[i])
      {
        if i != t { assert n.threads[i] == s.threads[i]; }
      }
    }
  }

  lemma NextKeepsInv(s: State, e: Event)
    requires Inv(s)
    ensures Inv(Next(s, e))
  {
    hide Guards, Knows, InA, InB, Between, Next;
    NextKeepsGuards(s, e);
    OnlyThreadMoves(s, e);
    var n := Next(s, e);
    forall i | 0 <= i < |n.threads|
      ensures Knows(n, n.threads[i])
    {
      if i == e.thread { OwnKnowledge(s, e); } else { OthersKnowledge(s, e, i); }
    }
    if forall i | 0 <= i < |n.threads| :: !Between(n.threads[i]) {
      NextKeepsSettled(s, e);
    }
  }

  lemma InitialInv(s: State)
    requires Initial(s)
    ensures Inv(s)
  {
  }

  lemma {:induction false} RunKeepsInv(s: State, events: seq<Event>)
    requires Inv(s)
    ensures Inv(Run(s, events))
    decreases events
  {
    hide Inv, Next;
    if events != [] {
      NextKeepsInv(s, events[0]);
      RunKeepsInv(Next(s, events[0]), events[1..]);
    }
  }

  /**
     The lock's promise, for any number of threads and any interleaving: while
     _mutex_a is free the flag says whether _mutex_b is held, and at most one
     thread holds the lock.
     */
  lemma LockIsSafe(s: State, events: seq<Event>)
    requires Initial(s)
    ensures !Run(s, events).a ==> Run(s, events).locked == Run(s, events).b
    ensures forall i, j | 0 <= i < |Run(s, events).threads| && 0 <= j < |Run(s, events).threads|
                          && Run(s, events).threads[i].holds && Run(s, events).threads[j].holds ::
              i == j
    ensures forall i | 0 <= i < |Run(s, events).threads| && Run(s, events).threads[i].holds :: Run(s, events).b
  {
    hide Run, Initial;
    InitialInv(s);
    RunKeepsInv(s, events);
    var r := Run(s, events);
    if !r.a { FlagTellsWhenFree(r); }
    forall i, j | 0 <= i < |r.threads| && 0 <= j < |r.threads| && r.threads[i].holds && r.threads[j].holds
      ensures i == j
    {
      assert WhoIsInB(r.threads)[i] && WhoIsInB(r.threads)[j];
    }
    forall i | 0 <= i < |r.threads| && r.threads[i].holds
      ensures r.b
    {
      InSetsBit(r, i);
    }
  }

  /**
     tryAcquireSys never waits on _mutex_b, and what its two reads of the flag
     are worth: the guarded read that sees it clear is certain that nobody holds
     the lock, and one that sees it set is certain somebody does, while the
     unguarded one is certain only that somebody holds it or has set the flag
     and is about to take _mutex_b.
     */
  lemma TryNeverWaits(s: State, events: seq<Event>, t: nat)
    requires Initial(s)
    requires t < |Run(s, events).threads|
    ensures Run(s, events).threads[t].pc == TryTakeB
            ==> Next(Run(s, events), Event(t, Try)).threads[t].pc == TryWon
    ensures Run(s, events).threads[t].pc == TryCheck
            ==> (Run(s, events).locked
                 <==> exists i | 0 <= i < |Run(s, events).threads| :: InB(Run(s, events).threads[i]))
    ensures Run(s, events).locked
            ==> exists i | 0 <= i < |Run(s, events).threads| ::
                            && (InB(Run(s, events).threads[i]) || Run(s, events).threads[i].pc in {AcqTakeB, TryTakeB})
  {
    hide Run, Initial, Next;
    InitialInv(s);
    RunKeepsInv(s, events);
    TryFacts(Run(s, events), t);
  }

  lemma TryFacts(r: State, t: nat)
    requires Inv(r) && t < |r.threads|
    ensures r.threads[t].pc == TryTakeB ==> Next(r, Event(t, Try)).threads[t].pc == TryWon
    ensures r.threads[t].pc == TryCheck ==> (r.locked <==> exists i | 0 <= i < |r.threads| :: InB(r.threads[i]))
    ensures r.locked
            ==> exists i | 0 <= i < |r.threads| :: (InB(r.threads[i]) || r.threads[i].pc in {AcqTakeB, TryTakeB})
  {
    HeldByWhom(r);
    if r.threads[t].pc == TryTakeB { assert Knows(r, r.threads[t]); }
    if r.threads[t].pc == TryCheck { SettledAround(r, t); }
    if r.locked && !r.b {
      var i :| 0 <= i < |r.threads| && Between(r.threads[i]);
      assert Knows(r, r.threads[i]);
    }
  }

  lemma HeldByWhom(r: State)
    requires Inv(r)
    ensures r.b <==> exists i | 0 <= i < |r.threads| :: InB(r.threads[i])
  {
    var who := WhoIsInB(r.threads);
    if r.b {
      var i :| 0 <= i < |who| && who[i];
      assert InB(r.threads[i]);
    }
    forall i | 0 <= i < |r.threads| && InB(r.threads[i])
      ensures r.b
    {
      assert who[i];
    }
  }

  /**
     acquireSys waits for _mutex_b with _mutex_a in hand. Once it has to,
     nothing moves any more: whatever the threads do, it goes on waiting, and
     the flag and both mutexes stay as they are.
     */
  lemma {:induction false} WaitingIsForever(s: State, events: seq<Event>, t: nat)
    requires Inv(s) && t < |s.threads| && s.threads[t].pc == AcqTakeB && s.b
    ensures |Run(s, events).threads| == |s.threads|
    ensures Run(s, events).threads[t] == s.threads[t]
    ensures Run(s, events).a && Run(s, events).b && Run(s, events).locked
    decreases events
  {
    hide Guards;
    if events == [] {
      InSetsBit(s, t);
      assert Knows(s, s.threads[t]);
    } else {
      var n := Next(s, events[0]);
      WaitingStep(s, events[0], t);
      NextKeepsInv(s, events[0]);
      WaitingIsForever(n, events[1..], t);
    }
  }

  lemma WaitingStep(s: State, e: Event, t: nat)
    requires Inv(s) && t < |s.threads| && s.threads[t].pc == AcqTakeB && s.b
    ensures |Next(s, e).threads| == |s.threads|
    ensures Next(s, e).b && Next(s, e).threads[t] == s.threads[t]
  {
    if e.thread < |s.threads| && e.thread != t && InA(s.threads[e.thread]) {
      OneInA(s, t, e.thread);
      assert false;
    }
  }

  /** So acquireSys, when it comes to take _mutex_b, can ever go on exactly if nobody holds the lock at that moment. */
  lemma AcquireGoesOnIff(s: State, events: seq<Event>, t: nat)
    requires Initial(s)
    requires t < |Run(s, events).threads| && Run(s, events).threads[t].pc == AcqTakeB
    ensures (exists more: seq<Event> :: t < |Run(Run(s, events), more).threads|
                                        && Run(Run(s, events), more).threads[t].pc != AcqTakeB)
            <==> forall i | 0 <= i < |Run(s, events).threads| :: !InB(Run(s, events).threads[i])
  {
    hide Initial, Inv, InB;
    InitialInv(s);
    RunKeepsInv(s, events);
    var r := Run(s, events);
    HeldByWhom(r);
    if r.b {
      forall more: seq<Event> | t < |Run(r, more).threads|
        ensures Run(r, more).threads[t].pc == AcqTakeB
      {
        WaitingIsForever(r, more, t);
      }
    } else {
      var more := [Event(t, Acquire)];
      GoesOn(r, t);
      assert t < |Run(r, more).threads| && Run(r, more).threads[t].pc != AcqTakeB;
    }
  }

  lemma GoesOn(r: State, t: nat)
    requires t < |r.threads| && r.threads[t].pc == AcqTakeB && !r.b
    ensures Run(r, [Event(t, Acquire)]).threads == r.threads[t := r.threads[t].(pc := AcqUnlockA)]
  {
    var more := [Event(t, Acquire)];
    assert Run(Next(r, more[0]), more[1..]) == Next(r, more[0]);
  }

  lemma RunFirst(s: State, e: Event, rest: seq<Event>)
    ensures Run(s, [e] + rest) == Run(Next(s, e), rest)
  {
    assert ([e] + rest)[1..] == rest;
  }

  lemma {:induction false} RunTwice(s: State, a: seq<Event>, b: seq<Event>)
    ensures Run(s, a + b) == Run(Run(s, a), b)
    decreases a
  {
    hide Next;
    if a == [] {
      assert a + b == b;
    } else {
      assert a + b == [a[0]] + (a[1..] + b) && a == [a[0]] + a[1..];
      RunFirst(s, a[0], a[1..] + b);
      RunTwice(Next(s, a[0]), a[1..], b);
    }
  }

  /** One thread takes the lock in five steps, and a second one comes to wait in three. */
  const TAKES := seq(5, _ => Event(0, Acquire))
  const WAITS := seq(3, _ => Event(1, Acquire))

  /** So two threads are enough to get stuck: from the start, eight steps lead to where nothing moves any more. */
  lemma ContendedAcquireStuck(more: seq<Event>)
    ensures var s := State(false, false, false, [Thread(Idle, false), Thread(Idle, false)]);
            && Initial(s)
            && Run(s, TAKES + WAITS) == State(true, true, true, [Thread(Idle, true), Thread(AcqTakeB, false)])
            && var r := Run(s, TAKES + WAITS + more);
               r.a && r.b && |r.threads| == 2 && r.threads[1] == Thread(AcqTakeB, false)
  {
    var s := State(false, false, false, [Thread(Idle, false), Thread(Idle, false)]);
    var held := State(false, true, true, [Thread(Idle, true), Thread(Idle, false)]);
    var stuck := State(true, true, true, [Thread(Idle, true), Thread(AcqTakeB, false)]);
    TakesTheLock(s);
    ComesToWait(held);
    hide Run, Next, Inv;
    RunTwice(s, TAKES, WAITS);
    RunTwice(s, TAKES + WAITS, more);
    InitialInv(s);
    RunKeepsInv(s, TAKES + WAITS);
    WaitingIsForever(stuck, more, 1);
  }

  lemma TakesTheLock(s: State)
    requires s == State(false, false, false, [Thread(Idle, false), Thread(Idle, false)])
    ensures Run(s, TAKES) == State(false, true, true, [Thread(Idle, true), Thread(Idle, false)])
  {
    hide Run;
    var e, t := Event(0, Acquire), Thread(Idle, false);
    assert TAKES == [e] + ([e] + ([e] + ([e] + ([e] + []))));
    RunFirst(s, e, [e] + ([e] + ([e] + ([e] + []))));
    var s1 := State(false, false, false, [Thread(AcqLockA, false), t]);
    assert Next(s, e) == s1;
    RunFirst(s1, e, [e] + ([e] + ([e] + [])));
    var s2 := State(true, false, false, [Thread(AcqSet, false), t]);
    assert Next(s1, e) == s2;
    RunFirst(s2, e, [e] + ([e] + []));
    var s3 := State(true, false, true, [Thread(AcqTakeB, false), t]);
    assert Next(s2, e) == s3;
    RunFirst(s3, e, [e] + []);
    var s4 := State(true, true, true, [Thread(AcqUnlockA, false), t]);
    assert Next(s3, e) == s4;
    RunFirst(s4, e, []);
    RunNothing(Next(s4, e));
  }

  lemma ComesToWait(s: State)
    requires s == State(false, true, true, [Thread(Idle, true), Thread(Idle, false)])
    ensures Run(s, WAITS) == State(true, true, true, [Thread(Idle, true), Thread(AcqTakeB, false)])
  {
    hide Run;
    var e, t := Event(1, Acquire), Thread(Idle, true);
    assert WAITS == [e] + ([e] + ([e] + []));
    RunFirst(s, e, [e] + ([e] + []));
    var s1 := State(false, true, true, [t, Thread(AcqLockA, false)]);
    assert Next(s, e) == s1;
    RunFirst(s1, e, [e] + []);
    var s2 := State(true, true, true, [t, Thread(AcqSet, false)]);
    assert Next(s1, e) == s2;
    RunFirst(s2, e, []);
    RunNothing(Next(s2, e));
  }

  lemma RunNothing(s: State)
    ensures Run(s, []) == s
  {
  }

  /** `count` steps of one thread with nobody in between. */
  function Alone(s: State, e: Event, count: nat): State
    decreases count
  {
    if count == 0 then s else Alone(Next(s, e), e, count - 1)
  }

  /**
     A call nobody interrupts: tryAcquireSys gives up at once when the lock is
     held, otherwise it comes back with the lock, and releaseSys undoes that
     completely.
     */
  lemma TryAlone(s: State, t: nat)
    requires Inv(s) && !s.a && t < |s.threads| && s.threads[t].pc == Idle
    ensures s.b ==> Alone(s, Event(t, Try), 2) == s
    ensures !s.b ==> Alone(s, Event(t, Try), 7) == State(false, true, true, s.threads[t := Thread(Idle, true)])
    ensures !s.b ==> Alone(State(false, true, true, s.threads[t := Thread(Idle, true)]), Event(t, Release), 5) == s
  {
    InSetsBit(s, t);
    FlagTellsWhenFree(s);
    var e := Event(t, Try);
    if s.b {
      assert Next(Next(s, e), e) == s;
      assert Alone(s, e, 2) == Alone(Next(s, e), e, 1) == Next(Next(s, e), e);
    } else {
      TrySteps(s, t);
      ReleaseSteps(s, t);
    }
  }

  lemma FlagTellsWhenFree(s: State)
    requires Inv(s) && !s.a
    ensures s.locked == s.b
  {
    forall i | 0 <= i < |s.threads|
      ensures !Between(s.threads[i])
    {
      InSetsBit(s, i);
    }
  }

  lemma AloneSplits(s: State, e: Event, i: nat, j: nat)
    ensures Alone(s, e, i + j) == Alone(Alone(s, e, i), e, j)
    decreases i
  {
    if i > 0 { AloneSplits(Next(s, e), e, i - 1, j); }
  }

  lemma TrySteps(s: State, t: nat)
    requires !s.a && !s.b && !s.locked && t < |s.threads| && s.threads[t] == Thread(Idle, false)
    ensures Alone(s, Event(t, Try), 7) == State(false, true, true, s.threads[t := Thread(Idle, true)])
  {
    var e := Event(t, Try);
    AloneSplits(s, e, 3, 4);
    assert Alone(s, e, 3) == s.(a := true, threads := s.threads[t := Thread(TryCheck, false)]) by {
      assert Alone(s, e, 1) == Next(s, e);
      AloneSplits(s, e, 1, 2);
      AloneSplits(Next(s, e), e, 1, 1);
    }
    TryCheckSteps(Alone(s, e, 3), t);
    assert s.threads[t := Thread(TryCheck, false)][t := Thread(Idle, true)] == s.threads[t := Thread(Idle, true)];
  }

  lemma TryCheckSteps(s: State, t: nat)
    requires s.a && !s.b && !s.locked && t < |s.threads| && s.threads[t] == Thread(TryCheck, false)
    ensures Alone(s, Event(t, Try), 4) == State(false, true, true, s.threads[t := Thread(Idle, true)])
  {
    var e := Event(t, Try);
    AloneSplits(s, e, 2, 2);
    var s2 := s.(locked := true, threads := s.threads[t := Thread(TryTakeB, false)]);
    assert Alone(s, e, 2) == Next(Next(s, e), e) == s2;
    assert Alone(s2, e, 2) == Next(Next(s2, e), e);
  }

  lemma ReleaseSteps(s: State, t: nat)
    requires !s.a && !s.b && !s.locked && t < |s.threads| && s.threads[t] == Thread(Idle, false)
    ensures Alone(State(false, true, true, s.threads[t := Thread(Idle, true)]), Event(t, Release), 5) == s
  {
    var e := Event(t, Release);
    var h := State(false, true, true, s.threads[t := Thread(Idle, true)]);
    AloneSplits(h, e, 2, 3);
    var h2 := State(true, true, true, s.threads[t := Thread(RelClear, false)]);
    assert Alone(h, e, 2) == Next(Next(h, e), e) == h2;
    AloneSplits(h2, e, 2, 1);
    var h4 := State(true, false, false, s.threads[t := Thread(RelUnlockA, false)]);
    assert Alone(h2, e, 2) == Next(Next(h2, e), e) == h4;
    assert Next(h4, e) == s;
    assert Alone(h4, e, 1) == Next(h4, e);
  }
}
