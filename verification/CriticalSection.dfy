/**
  The POSIX branch of CriticalSection: a reentrant lock built from a plain
  mutex, an owner word that every thread reads without synchronisation, and a
  nesting counter kept beside the mutex.

  Each memory access of Enter and Leave is one step, so the model ranges over
  every interleaving of any number of threads. A thread calls Leave only when
  it has an Enter to undo, which is what CSLocker enforces by scoping.
*/
module CriticalSection {
  import opened Options

  // pthread_self() of a live thread; the owner word 0 means "nobody"
  type Thread = t: int | 0 < t witness 1
  const NOBODY := 0

  // The next memory access of a thread, named after the call it belongs to
  datatype Pc =
    | Outside
    | EnterTest
    | EnterLock
    | EnterOwn
    | EnterLoad
    | EnterStore(seen: int)
    | LeaveTestOwner
    | LeaveTestCount
    | LeaveClear
    | LeaveUnlock
    | LeaveLoad
    | LeaveStore(seen: int)

  // depth is the number of Enter calls completed and not yet undone
  datatype Local = Local(pc: Pc, depth: nat)

  datatype State = State(mutex: Option<Thread>, owner: int, count: int, threads: map<Thread, Local>)

  datatype Move = CallEnter | CallLeave | Advance

  predicate Init(s: State) {
    && s.mutex == None && s.owner == NOBODY && s.count == 0
    && forall t | t in s.threads :: s.threads[t] == Local(Outside, 0)
  }

  predicate Enabled(s: State, t: Thread, m: Move) {
    && t in s.threads
    && var l := s.threads[t];
       match m
       case CallEnter => l.pc == Outside
       case CallLeave => l.pc == Outside && 0 < l.depth
       case Advance => l.pc != Outside && (l.pc == EnterLock ==> s.mutex == None)
  }

  function Goto(s: State, t: Thread, pc: Pc): State
    requires t in s.threads
  {
    s.(threads := s.threads[t := s.threads[t].(pc := pc)])
  }

  function Return(s: State, t: Thread, depth: nat): State
    requires t in s.threads
  {
    s.(threads := s.threads[t := Local(Outside, depth)])
  }

  function Step(s: State, t: Thread, m: Move): State
    requires Enabled(s, t, m)
  {
    var d := s.threads[t].depth;
    match m
    case CallEnter => Goto(s, t, EnterTest)
    case CallLeave => Goto(s, t, LeaveTestOwner)
    case Advance =>
      match s.threads[t].pc
      case EnterTest => Goto(s, t, if s.owner != t then EnterLock else EnterLoad)
      case EnterLock => Goto(s.(mutex := Some(t)), t, EnterOwn)
      case EnterOwn => Return(s.(owner := t), t, d + 1)
      case EnterLoad => Goto(s, t, EnterStore(s.count))
      case EnterStore(seen) => Return(s.(count := seen + 1), t, d + 1)
      case LeaveTestOwner => Goto(s, t, if s.owner == t then LeaveTestCount else LeaveLoad)
      case LeaveTestCount => Goto(s, t, if s.count == 0 then LeaveClear else LeaveLoad)
      case LeaveClear => Goto(s.(owner := NOBODY), t, LeaveUnlock)
      case LeaveUnlock => Return(s.(mutex := None), t, Pred(d))
      case LeaveLoad => Goto(s, t, LeaveStore(s.count))
      case LeaveStore(seen) => Return(s.(count := seen - 1), t, Pred(d))
  }

  function Pred(d: nat): nat {
    if d == 0 then 0 else d - 1
  }

  // A schedule names, move by move, which thread acts; the run stops at a move that is not enabled
  type Schedule = seq<(Thread, Move)>

  function Run(s: State, schedule: Schedule): Option<State>
    decreases |schedule|
  {
    if schedule == [] then Some(s)
    else
      var (t, m) := schedule[0];
      if Enabled(s, t, m) then Run(Step(s, t, m), schedule[1..]) else None
  }

  // ------------------------------------------------------------------
  // What every interleaving keeps

  // One thread's share of the invariant
  ghost predicate Coherent(s: State, t: Thread)
    requires t in s.threads
  {
    var l := s.threads[t];
    && (s.mutex == Some(t) <==> 0 < l.depth || l.pc == EnterOwn)
    && (s.owner == t <==> 0 < l.depth && l.pc != LeaveUnlock)
    && (0 < l.depth ==> s.count == l.depth - 1)
    && match l.pc
       case Outside | EnterTest => true
       case EnterLock | EnterOwn => l.depth == 0
       case EnterLoad => 0 < l.depth
       case EnterStore(seen) => 0 < l.depth && seen == s.count
       case LeaveTestOwner | LeaveTestCount => 0 < l.depth
       case LeaveClear | LeaveUnlock => l.depth == 1
       case LeaveLoad => 1 < l.depth
       case LeaveStore(seen) => 1 < l.depth && seen == s.count
  }

  ghost predicate Inv(s: State) {
    && (forall t | t in s.threads :: Coherent(s, t))
    && (s.mutex.Some? ==> s.mutex.value in s.threads)
    && (s.owner != NOBODY ==> s.mutex.Some? && s.mutex.value == s.owner)
    && (s.mutex == None ==> s.count == 0)
    && (s.mutex.Some? && s.threads[s.mutex.value].depth == 0 ==> s.count == 0)
  }

  lemma StepKeepsOthers(s: State, t: Thread, m: Move, u: Thread)
    requires Inv(s) && Enabled(s, t, m) && u in s.threads && u != t
    ensures Coherent(Step(s, t, m), u)
  {
    assert Coherent(s, t);
    assert Coherent(s, u);
  }

  lemma StepKeepsSelf(s: State, t: Thread, m: Move)
    requires Inv(s) && Enabled(s, t, m)
    ensures Coherent(Step(s, t, m), t)
  {
    assert Coherent(s, t);
  }

  lemma StepKeepsInv(s: State, t: Thread, m: Move)
    requires Inv(s) && Enabled(s, t, m)
    ensures Inv(Step(s, t, m))
  {
    var s' := Step(s, t, m);
    StepKeepsSelf(s, t, m);
    assert Coherent(s, t);
    forall u | u in s'.threads
      ensures Coherent(s', u)
    {
      if u != t {
        StepKeepsOthers(s, t, m, u);
      }
    }
  }

  lemma {:induction false} RunKeepsInv(s: State, schedule: Schedule)
    requires Inv(s)
    ensures Run(s, schedule).Some? ==> Inv(Run(s, schedule).value)
    decreases |schedule|
  {
    if schedule != [] {
      var (t, m) := schedule[0];
      if Enabled(s, t, m) {
        StepKeepsInv(s, t, m);
        RunKeepsInv(Step(s, t, m), schedule[1..]);
      }
    }
  }

  /** The claims a user of the lock relies on, in every state any interleaving reaches. */
  ghost predicate Safe(s: State) {
    // mutual exclusion
    && (forall t, u | t in s.threads && u in s.threads :: 0 < s.threads[t].depth && 0 < s.threads[u].depth ==> t == u)
    // the unsynchronised owner test answers exactly "do I hold the lock?"
    && (forall t | t in s.threads :: s.threads[t].pc in {EnterTest, LeaveTestOwner} ==> (s.owner == t <==> 0 < s.threads[t].depth))
    // the owner word names a thread only while that thread holds the mutex
    && (forall t | t in s.threads :: s.owner == t ==> s.mutex == Some(t))
    // the counter is the nesting depth minus one, and zero while nobody is inside
    && (forall t | t in s.threads :: 0 < s.threads[t].depth ==> s.count == s.threads[t].depth - 1)
    && ((forall t | t in s.threads :: s.threads[t].depth == 0) ==> s.count == 0)
    // the mutex is unlocked only by its holder, at the outermost Leave
    && (forall t | t in s.threads :: s.threads[t].pc == LeaveUnlock ==> s.mutex == Some(t) && s.threads[t].depth == 1)
    // a thread that waits for the mutex does not hold it already
    && (forall t | t in s.threads :: s.threads[t].pc == EnterLock ==> s.mutex != Some(t))
  }

  lemma InvIsSafe(s: State)
    requires Inv(s)
    ensures Safe(s)
  {
    forall t, u | t in s.threads && u in s.threads && 0 < s.threads[t].depth && 0 < s.threads[u].depth
      ensures t == u
    {
      assert Coherent(s, t) && Coherent(s, u);
    }
    if s.mutex.Some? {
      assert Coherent(s, s.mutex.value);
    }
  }

  lemma EveryRunIsSafe(s: State, schedule: Schedule)
    requires Init(s)
    ensures Run(s, schedule).Some? ==> Safe(Run(s, schedule).value)
  {
    RunKeepsInv(s, schedule);
    if Run(s, schedule).Some? {
      InvIsSafe(Run(s, schedule).value);
    }
  }

  /** The mutex changes hands only at the outermost Enter and the outermost Leave. */
  lemma MutexMovesOnlyAtOutermost(s: State, t: Thread, m: Move)
    requires Inv(s) && Enabled(s, t, m)
    ensures var s' := Step(s, t, m);
            && (s.mutex != None && s'.mutex == None <==> m == Advance && s.threads[t].pc == LeaveUnlock)
            && (s.mutex != None && s'.mutex == None ==> s.threads[t].depth == 1 && s'.threads[t].depth == 0)
            && (s.mutex == None && s'.mutex != None ==> s'.mutex == Some(t) && s.threads[t].depth == 0)
  {
    assert Coherent(s, t);
  }

  /** A thread that cannot move is waiting for another thread, and that one can move. */
  lemma NoDeadlock(s: State, t: Thread)
    requires Inv(s) && t in s.threads && s.threads[t].pc != Outside && !Enabled(s, t, Advance)
    ensures s.mutex.Some? && s.mutex.value != t && s.mutex.value in s.threads
    ensures var h := s.mutex.value; Enabled(s, h, Advance) || Enabled(s, h, CallLeave)
  {
    assert Coherent(s, t);
    assert Coherent(s, s.mutex.value);
  }

  // ------------------------------------------------------------------
  // Refinement of an atomic reentrant lock

  datatype Lock = Free | Held(holder: Thread, depth: nat)

  ghost predicate Acquire(l: Lock, l': Lock, t: Thread) {
    match l
    case Free => l' == Held(t, 1)
    case Held(h, d) => h == t && l' == Held(t, d + 1)
  }

  ghost predicate Release(l: Lock, l': Lock, t: Thread) {
    l.Held? && l.holder == t && l' == if l.depth == 1 then Free else Held(t, Pred(l.depth))
  }

  ghost function Abs(s: State): Lock
    requires Inv(s)
  {
    if s.mutex.Some? && 0 < s.threads[s.mutex.value].depth
    then Held(s.mutex.value, s.threads[s.mutex.value].depth)
    else Free
  }

  // Completing Enter acts as one atomic acquire, completing Leave as one atomic release
  predicate CompletesEnter(s: State, t: Thread, m: Move)
    requires Enabled(s, t, m)
  {
    m == Advance && (s.threads[t].pc == EnterOwn || s.threads[t].pc.EnterStore?)
  }

  predicate CompletesLeave(s: State, t: Thread, m: Move)
    requires Enabled(s, t, m)
  {
    m == Advance && (s.threads[t].pc == LeaveUnlock || s.threads[t].pc.LeaveStore?)
  }

  lemma StepRefinesLock(s: State, t: Thread, m: Move)
    requires Inv(s) && Enabled(s, t, m)
    ensures Inv(Step(s, t, m))
    ensures CompletesEnter(s, t, m) ==> Acquire(Abs(s), Abs(Step(s, t, m)), t)
    ensures CompletesLeave(s, t, m) ==> Release(Abs(s), Abs(Step(s, t, m)), t)
    ensures !CompletesEnter(s, t, m) && !CompletesLeave(s, t, m) ==> Abs(Step(s, t, m)) == Abs(s)
  {
    StepKeepsInv(s, t, m);
    assert Coherent(s, t);
    assert Coherent(Step(s, t, m), t);
    if s.mutex.Some? {
      assert Coherent(s, s.mutex.value);
    }
  }

  // The calls that a run completes, in order: true for an Enter, false for a Leave
  ghost function Completed(s: State, schedule: Schedule): seq<(Thread, bool)>
    decreases |schedule|
  {
    if schedule == [] then []
    else
      var (t, m) := schedule[0];
      if !Enabled(s, t, m) then []
      else
        var rest := Completed(Step(s, t, m), schedule[1..]);
        if CompletesEnter(s, t, m) then [(t, true)] + rest
        else if CompletesLeave(s, t, m) then [(t, false)] + rest
        else rest
  }

  // The atomic lock replays a history of calls; None when it would have had to block or fail
  function Replay(l: Lock, calls: seq<(Thread, bool)>): Option<Lock>
    decreases |calls|
  {
    if calls == [] then Some(l)
    else
      var (t, enter) := calls[0];
      match l
      case Free => if enter then Replay(Held(t, 1), calls[1..]) else None
      case Held(h, d) =>
        if h != t || d == 0 then None
        else if enter then Replay(Held(t, d + 1), calls[1..])
        else Replay(if d == 1 then Free else Held(t, Pred(d)), calls[1..])
  }

  /** Every interleaving is linearizable: the completed calls, in order of completion, are a legal history of the atomic lock. */
  lemma {:induction false} EveryRunRefinesLock(s: State, schedule: Schedule)
    requires Inv(s) && Run(s, schedule).Some?
    ensures Inv(Run(s, schedule).value)
    ensures Replay(Abs(s), Completed(s, schedule)) == Some(Abs(Run(s, schedule).value))
    decreases |schedule|
  {
    if schedule != [] {
      var (t, m) := schedule[0];
      var s' := Step(s, t, m);
      StepRefinesLock(s, t, m);
      EveryRunRefinesLock(s', schedule[1..]);
      var rest := Completed(s', schedule[1..]);
      if CompletesEnter(s, t, m) {
        assert Completed(s, schedule)[1..] == rest;
      } else if CompletesLeave(s, t, m) {
        assert Completed(s, schedule)[1..] == rest;
      }
    }
  }

  // ------------------------------------------------------------------
  // Progress

  /** The memory accesses that are left in a thread's call: an Enter has three, a Leave four. */
  function Left(pc: Pc): nat {
    match pc
    case Outside => 0
    case EnterTest => 3
    case EnterLock | EnterLoad => 2
    case EnterOwn | EnterStore(_) => 1
    case LeaveTestOwner => 4
    case LeaveTestCount => 3
    case LeaveClear | LeaveLoad => 2
    case LeaveUnlock | LeaveStore(_) => 1
  }

  // How often a thread moves on in a schedule
  function Advances(schedule: Schedule, t: Thread): nat {
    if schedule == [] then 0 else (if schedule[0] == (t, Advance) then 1 else 0) + Advances(schedule[1..], t)
  }

  // The thread starts no call
  predicate CallsNothing(schedule: Schedule, t: Thread) {
    forall i | 0 <= i < |schedule| && schedule[i].0 == t :: schedule[i].1 == Advance
  }

  /** Moving on takes exactly one access off the call; no other thread's move changes what is left. */
  lemma StepMakesProgress(s: State, t: Thread, m: Move, u: Thread)
    requires Inv(s) && Enabled(s, t, m) && u in s.threads && (u == t ==> m == Advance)
    ensures Left(Step(s, t, m).threads[u].pc) == Left(s.threads[u].pc) - if u == t then 1 else 0
  {
    assert Coherent(s, t);
  }

  /** In every interleaving a call takes as many accesses of its thread as it has, no more and no fewer. */
  lemma {:induction false} EveryCallCompletes(s: State, schedule: Schedule, t: Thread)
    requires Inv(s) && t in s.threads && Run(s, schedule).Some? && CallsNothing(schedule, t)
    ensures t in Run(s, schedule).value.threads
    ensures Left(Run(s, schedule).value.threads[t].pc) == Left(s.threads[t].pc) - Advances(schedule, t)
    decreases |schedule|
  {
    hide Left, Inv;
    if schedule != [] {
      var (u, m) := schedule[0];
      StepMakesProgress(s, u, m, t);
      StepKeepsInv(s, u, m);
      EveryCallCompletes(Step(s, u, m), schedule[1..], t);
    }
  }

  // One thread moves on n times
  function Alone(t: Thread, n: nat): (schedule: Schedule)
    ensures |schedule| == n
  {
    if n == 0 then [] else [(t, Advance)] + Alone(t, n - 1)
  }

  /** An Enter on a free lock gets it in three accesses. */
  lemma FreeLockIsTaken(s: State, t: Thread)
    requires Inv(s) && s.mutex == None && t in s.threads && s.threads[t].pc == EnterTest
    ensures Run(s, Alone(t, 3)) == Some(s.(mutex := Some(t), owner := t, threads := s.threads[t := Local(Outside, 1)]))
  {
    hide Run;
    assert Coherent(s, t);
    PutTwice(s.threads, t, Local(EnterLock, 0), Local(EnterOwn, 0));
    PutTwice(s.threads, t, Local(EnterOwn, 0), Local(Outside, 1));
    ThreeMoves(s, t);
  }

  /** An Enter of the holder raises its depth in three accesses. */
  lemma HolderGoesDeeper(s: State, t: Thread)
    requires Inv(s) && t in s.threads && s.threads[t].pc == EnterTest && 0 < s.threads[t].depth
    ensures Run(s, Alone(t, 3)) == Some(s.(count := s.count + 1, threads := s.threads[t := Local(Outside, s.threads[t].depth + 1)]))
  {
    hide Run;
    var d := s.threads[t].depth;
    assert Coherent(s, t);
    PutTwice(s.threads, t, Local(EnterLoad, d), Local(EnterStore(s.count), d));
    PutTwice(s.threads, t, Local(EnterStore(s.count), d), Local(Outside, d + 1));
    ThreeMoves(s, t);
  }

  /** A Leave at the outermost level frees the lock in four accesses. */
  lemma OutermostLeaveFrees(s: State, t: Thread)
    requires Inv(s) && t in s.threads && s.threads[t].pc == LeaveTestOwner && s.threads[t].depth == 1
    ensures Run(s, Alone(t, 4)) == Some(s.(mutex := None, owner := NOBODY, threads := s.threads[t := Local(Outside, 0)]))
  {
    hide Run;
    assert Coherent(s, t);
    PutTwice(s.threads, t, Local(LeaveTestCount, 1), Local(LeaveClear, 1));
    PutTwice(s.threads, t, Local(LeaveClear, 1), Local(LeaveUnlock, 1));
    PutTwice(s.threads, t, Local(LeaveUnlock, 1), Local(Outside, 0));
    FourMoves(s, t);
  }

  /** A Leave further in lowers the depth by one in four accesses. */
  lemma InnerLeaveStays(s: State, t: Thread)
    requires Inv(s) && t in s.threads && s.threads[t].pc == LeaveTestOwner && 1 < s.threads[t].depth
    ensures Run(s, Alone(t, 4)) == Some(s.(count := s.count - 1, threads := s.threads[t := Local(Outside, s.threads[t].depth - 1)]))
  {
    hide Run, Inv, Coherent;
    var d := s.threads[t].depth;
    HolderKnows(s, t);
    PutTwice(s.threads, t, Local(LeaveTestCount, d), Local(LeaveLoad, d));
    PutTwice(s.threads, t, Local(LeaveLoad, d), Local(LeaveStore(s.count), d));
    PutTwice(s.threads, t, Local(LeaveStore(s.count), d), Local(Outside, d - 1));
    var s1 := s.(threads := s.threads[t := Local(LeaveTestCount, d)]);
    var s2 := s.(threads := s.threads[t := Local(LeaveLoad, d)]);
    var s3 := s.(threads := s.threads[t := Local(LeaveStore(s.count), d)]);
    assert Step(s, t, Advance) == s1 && Step(s1, t, Advance) == s2 && Step(s2, t, Advance) == s3;
    FourMoves(s, t);
  }

  lemma HolderKnows(s: State, t: Thread)
    requires Inv(s) && t in s.threads && s.threads[t].pc == LeaveTestOwner
    ensures 0 < s.threads[t].depth && s.owner == t && s.count == s.threads[t].depth - 1
  {
    assert Coherent(s, t);
  }

  lemma PutTwice(threads: map<Thread, Local>, t: Thread, a: Local, b: Local)
    ensures threads[t := a][t := b] == threads[t := b]
  {
  }

  lemma RunOne(s: State, t: Thread, m: Move, rest: Schedule)
    requires Enabled(s, t, m)
    ensures Run(s, [(t, m)] + rest) == Run(Step(s, t, m), rest)
  {
    assert ([(t, m)] + rest)[1..] == rest;
  }

  lemma ThreeMoves(s: State, t: Thread)
    requires Enabled(s, t, Advance) && Enabled(Step(s, t, Advance), t, Advance)
    requires Enabled(Step(Step(s, t, Advance), t, Advance), t, Advance)
    ensures Run(s, Alone(t, 3)) == Some(Step(Step(Step(s, t, Advance), t, Advance), t, Advance))
  {
    hide Step, Enabled;
    var s1 := Step(s, t, Advance);
    var s2 := Step(s1, t, Advance);
    RunOne(s, t, Advance, Alone(t, 2));
    RunOne(s1, t, Advance, Alone(t, 1));
    RunOne(s2, t, Advance, Alone(t, 0));
  }

  lemma FourMoves(s: State, t: Thread)
    requires Enabled(s, t, Advance) && Enabled(Step(s, t, Advance), t, Advance)
    requires Enabled(Step(Step(s, t, Advance), t, Advance), t, Advance)
    requires Enabled(Step(Step(Step(s, t, Advance), t, Advance), t, Advance), t, Advance)
    ensures Run(s, Alone(t, 4)) == Some(Step(Step(Step(Step(s, t, Advance), t, Advance), t, Advance), t, Advance))
  {
    hide Step, Enabled;
    RunOne(s, t, Advance, Alone(t, 3));
    ThreeMoves(Step(s, t, Advance), t);
  }

  // How far the holder is from giving the lock back: ten for every level, and the accesses of the call in progress
  function ToFree(l: Local): nat {
    match l.pc
    case Outside => 10 * l.depth
    case EnterTest | EnterLock | EnterOwn | EnterLoad | EnterStore(_) => 10 * (l.depth + 1) + Left(l.pc)
    case _ => 10 * Pred(l.depth) + Left(l.pc)
  }

  // The holder's next move on its way out
  function WayOut(l: Local): Move {
    if l.pc == Outside then CallLeave else Advance
  }

  lemma HolderNearsFree(s: State, h: Thread)
    requires Inv(s) && s.mutex == Some(h)
    ensures h in s.threads && Enabled(s, h, WayOut(s.threads[h]))
    ensures var s' := Step(s, h, WayOut(s.threads[h]));
            && s'.threads.Keys == s.threads.Keys
            && (s'.mutex == Some(h) || s'.mutex == None) && ToFree(s'.threads[h]) < ToFree(s.threads[h])
            && forall u | u in s.threads && u != h :: s'.threads[u] == s.threads[u]
  {
    assert Coherent(s, h);
  }

  /** Whatever state the lock is in, its holder can free it, without any other thread moving. */
  lemma {:induction false} LockCanBeFreed(s: State, h: Thread) returns (schedule: Schedule, s': State)
    requires Inv(s) && s.mutex == Some(h)
    ensures Run(s, schedule) == Some(s') && Inv(s') && s'.mutex == None && s'.threads.Keys == s.threads.Keys
    ensures forall u | u in s.threads && u != h :: s'.threads[u] == s.threads[u]
    decreases ToFree(s.threads[h])
  {
    hide Inv, Enabled, Step, ToFree, WayOut;
    HolderNearsFree(s, h);
    var m := WayOut(s.threads[h]);
    var next := Step(s, h, m);
    StepKeepsInv(s, h, m);
    if next.mutex == None {
      schedule, s' := [(h, m)], next;
      assert schedule[1..] == [];
    } else {
      var rest;
      rest, s' := LockCanBeFreed(next, h);
      schedule := [(h, m)] + rest;
      RunOne(s, h, m, rest);
    }
  }

  lemma {:induction false} RunJoins(s: State, a: Schedule, b: Schedule, s': State)
    requires Run(s, a) == Some(s')
    ensures Run(s, a + b) == Run(s', b)
    decreases |a|
  {
    hide Step, Enabled;
    if a == [] {
      assert a + b == b;
    } else {
      var (t, m) := a[0];
      RunJoins(Step(s, t, m), a[1..], b, s');
      assert (a + b)[1..] == a[1..] + b;
    }
  }

  /** A thread that waits for the lock can always get it: there is a schedule in which its Enter completes. */
  lemma WaitingThreadCanEnter(s: State, t: Thread) returns (schedule: Schedule, s': State)
    requires Inv(s) && t in s.threads && s.threads[t].pc == EnterLock
    ensures Run(s, schedule) == Some(s') && t in s'.threads && s'.threads[t] == Local(Outside, 1) && s'.mutex == Some(t) && s'.owner == t
  {
    hide Run;
    assert Coherent(s, t);
    var free, s0 := [], s;
    RunNothing(s);
    if s.mutex.Some? {
      free, s0 := LockCanBeFreed(s, s.mutex.value);
    }
    schedule := free + ([(t, Advance)] + ([(t, Advance)] + []));
    RunJoins(s, free, [(t, Advance)] + ([(t, Advance)] + []), s0);
    var s1 := Step(s0, t, Advance);
    s' := Step(s1, t, Advance);
    RunOne(s0, t, Advance, [(t, Advance)] + []);
    RunOne(s1, t, Advance, []);
    RunNothing(s');
  }

  lemma RunNothing(s: State)
    ensures Run(s, []) == Some(s)
  {
  }
}
