/** The priority scheduler of kern/scheduler.c as a state machine over its queues: what every
    run keeps, when a yield breaks it, and how long a ready thread can wait. */
module SchedulerRuns {
  import opened Lists

  datatype ThreadState = Initialized | Ready | Running | Waiting | Terminated

  const PRIORITY_LEVELS: int := 5

  type Priority = p: int | 0 <= p < PRIORITY_LEVELS

  class Thread {
    const priority: Priority
    var state: ThreadState
    var timeSlice: nat
    var next: Thread?
    var previous: Thread?

    constructor (level: Priority, slice: nat)
      ensures priority == level && state == Initialized && timeSlice == slice
      ensures next == null && previous == null
    {
      priority, state, timeSlice := level, Initialized, slice;
      next, previous := null, null;
    }
  }

  /** The scheduler at one moment: five queues, the running thread, the idle thread, and the
      state and time slice of every thread it has met. */
  datatype State = State(queues: seq<seq<Thread>>, current: Thread?, idle: Thread,
                         status: map<Thread, ThreadState>, slices: map<Thread, nat>)

  /** One ready queue: known threads of its own priority, none of them twice. */
  predicate QueueAt(s: State, p: int)
    requires 0 <= p < |s.queues|
  {
    && Distinct(s.queues[p])
    && (forall t :: t in s.queues[p] ==> t.priority == p && t in s.status)
  }

  predicate WellFormed(s: State) {
    && |s.queues| == PRIORITY_LEVELS
    && (forall p :: 0 <= p < PRIORITY_LEVELS ==> QueueAt(s, p))
    && (s.current != null ==> s.current in s.status)
    && s.idle in s.status
    && s.slices.Keys == s.status.Keys
  }

  predicate Queued(s: State, t: Thread)
    requires |s.queues| == PRIORITY_LEVELS
  {
    t in s.queues[t.priority]
  }

  predicate CurrentRuns(s: State)
    requires s.current != null ==> s.current in s.status
  {
    s.current != null && s.status[s.current] == Running
  }

  // ----- The operations

  /** A thread the scheduler meets for the first time. */
  function Arrive(s: State, t: Thread, slice: nat): State {
    if t in s.status then s else s.(status := s.status[t := Initialized], slices := s.slices[t := slice])
  }

  /** The thread becomes ready at the end of its queue. */
  function Enqueue(s: State, t: Thread): State
    requires |s.queues| == PRIORITY_LEVELS
  {
    s.(queues := s.queues[t.priority := s.queues[t.priority] + [t]], status := s.status[t := Ready])
  }

  /** The highest level up to p that has a ready thread, or -1. */
  function HighestFrom(queues: seq<seq<Thread>>, p: int): (h: int)
    requires -1 <= p < |queues|
    ensures -1 <= h <= p
    ensures h >= 0 ==> queues[h] != []
    ensures forall k :: h < k <= p ==> queues[k] == []
    decreases p + 1
  {
    if p < 0 then -1 else if queues[p] != [] then p else HighestFrom(queues, p - 1)
  }

  function Highest(s: State): (h: int)
    requires |s.queues| == PRIORITY_LEVELS
    ensures -1 <= h < PRIORITY_LEVELS
    ensures h >= 0 ==> s.queues[h] != []
    ensures forall k :: h < k < PRIORITY_LEVELS ==> s.queues[k] == []
  {
    HighestFrom(s.queues, PRIORITY_LEVELS - 1)
  }

  function Chosen(s: State): Thread
    requires |s.queues| == PRIORITY_LEVELS
  {
    if Highest(s) < 0 then s.idle else s.queues[Highest(s)][0]
  }

  /** The chosen thread has left its queue. */
  function Dequeued(s: State): State
    requires |s.queues| == PRIORITY_LEVELS
  {
    if Highest(s) < 0 then s else s.(queues := s.queues[Highest(s) := s.queues[Highest(s)][1..]])
  }

  function Schedule(s: State): State
    requires WellFormed(s)
  {
    var next := Chosen(s);
    var picked := Dequeued(s);
    if s.current == next then picked
    else
      var saved := if CurrentRuns(s) then Enqueue(picked, s.current) else picked;
      saved.(current := next, status := saved.status[next := Running])
  }

  function Add(s: State, t: Thread, slice: nat): State
    requires WellFormed(s)
  {
    Enqueue(Arrive(s, t, slice), t)
  }

  function YieldQueue(s: State): State
    requires WellFormed(s)
  {
    if CurrentRuns(s) then Enqueue(s, s.current) else s
  }

  function Yield(s: State): State
    requires WellFormed(s) && (CurrentRuns(s) ==> !Queued(s, s.current))
  {
    EnqueueWellFormed(s);
    Schedule(YieldQueue(s))
  }

  function Sleeping(s: State): State
    requires WellFormed(s) && s.current != null
  {
    s.(status := s.status[s.current := Waiting])
  }

  function Sleep(s: State): State
    requires WellFormed(s)
  {
    if s.current == null then s
    else
      Relabelled(s, Sleeping(s));
      Schedule(Sleeping(s))
  }

  /** The slice after one more tick of the running thread. */
  function Ticked(s: State): nat
    requires WellFormed(s) && s.current != null
  {
    if s.slices[s.current] > 0 then s.slices[s.current] - 1 else 0
  }

  const SLICE_RESET: nat := 10

  function Tick(s: State): State
    requires WellFormed(s)
  {
    if !CurrentRuns(s) then s
    else if Ticked(s) > 0 then s.(slices := s.slices[s.current := Ticked(s)])
    else
      Relabelled(s, Renewed(s));
      Schedule(Renewed(s))
  }

  function Renewed(s: State): State
    requires s.current != null
  {
    s.(slices := s.slices[s.current := SLICE_RESET])
  }

  lemma Relabelled(s: State, r: State)
    requires WellFormed(s) && r.queues == s.queues && r.idle == s.idle && r.current == s.current
    requires r.status.Keys == s.status.Keys == r.slices.Keys
    ensures WellFormed(r)
  {
    forall p | 0 <= p < PRIORITY_LEVELS
      ensures QueueAt(r, p)
    {
      assert QueueAt(s, p);
    }
  }

  lemma EnqueueWellFormed(s: State)
    requires WellFormed(s) && (CurrentRuns(s) ==> !Queued(s, s.current))
    ensures WellFormed(YieldQueue(s))
  {
    if CurrentRuns(s) {
      EnqueueKeepsShape(s, s.current);
    }
  }

  /** Every other known thread is in a queue of r exactly when it is in one of s. */
  ghost predicate OthersStay(s: State, r: State, t: Thread)
    requires |s.queues| == |r.queues| == PRIORITY_LEVELS
  {
    forall u :: u in s.status && u != t ==> (Queued(r, u) <==> Queued(s, u))
  }

  lemma EnqueueKeepsShape(s: State, t: Thread)
    requires WellFormed(s) && t in s.status && !Queued(s, t)
    ensures WellFormed(Enqueue(s, t)) && Enqueue(s, t).status == s.status[t := Ready]
    ensures Enqueue(s, t).current == s.current && Enqueue(s, t).idle == s.idle
    ensures Queued(Enqueue(s, t), t) && OthersStay(s, Enqueue(s, t), t)
  {
    var r := Enqueue(s, t);
    assert r.status.Keys == s.status.Keys;
    forall p | 0 <= p < PRIORITY_LEVELS
      ensures QueueAt(r, p)
    {
      assert QueueAt(s, p);
    }
  }

  lemma DequeueKeepsShape(s: State)
    requires WellFormed(s)
    ensures WellFormed(Dequeued(s)) && Dequeued(s).status == s.status && Chosen(s) in s.status
    ensures Dequeued(s).current == s.current && Dequeued(s).idle == s.idle && Dequeued(s).slices == s.slices
    ensures if Highest(s) < 0 then Chosen(s) == s.idle && Dequeued(s) == s else Queued(s, Chosen(s))
    ensures !Queued(Dequeued(s), Chosen(s)) && OthersStay(s, Dequeued(s), Chosen(s))
  {
    var h := Highest(s);
    if h >= 0 {
      assert QueueAt(s, h);
      var q := s.queues[h];
      assert q == [q[0]] + q[1..];
      forall p | 0 <= p < PRIORITY_LEVELS
        ensures QueueAt(Dequeued(s), p)
      {
        assert QueueAt(s, p);
      }
    }
  }

  lemma ArriveKeepsShape(s: State, t: Thread, slice: nat)
    requires WellFormed(s)
    ensures WellFormed(Arrive(s, t, slice)) && t in Arrive(s, t, slice).status
  {
    var r := Arrive(s, t, slice);
    forall p | 0 <= p < PRIORITY_LEVELS
      ensures QueueAt(r, p)
    {
      assert QueueAt(s, p);
    }
  }

  // ----- What every run keeps

  /** The running thread and the threads in the queues. */
  predicate InPlay(s: State, t: Thread)
    requires |s.queues| == PRIORITY_LEVELS
  {
    Queued(s, t) || s.current == t
  }

  /** Waiting its turn, or having it. */
  predicate Active(s: State, t: Thread)
    requires WellFormed(s)
  {
    Queued(s, t) || (t == s.current && CurrentRuns(s))
  }

  /** A queued thread is ready, a running one is the current one, and a ready one is in its
      queue; the idle thread alone may be ready and out of the queues. */
  predicate Placed(s: State, t: Thread)
    requires |s.queues| == PRIORITY_LEVELS && t in s.status
  {
    && (Queued(s, t) ==> s.status[t] == Ready)
    && (s.status[t] == Running ==> t == s.current)
    && (s.status[t] == Ready ==> Queued(s, t) || t == s.idle)
  }

  /** Nothing is queued twice, the current thread is not queued, only it runs, and every ready
      thread but perhaps the idle one is in a queue. */
  ghost predicate Sound(s: State) {
    && WellFormed(s)
    && (s.current != null ==> !Queued(s, s.current))
    && (s.current != null && s.current != s.idle ==> s.status[s.current] == Running)
    && (forall t :: t in s.status ==> Placed(s, t))
  }

  lemma SoundShape(s: State)
    requires WellFormed(s)
    ensures |s.queues| == PRIORITY_LEVELS && s.idle in s.status && (s.current != null ==> s.current in s.status)
  {
  }

  lemma AddSound(s: State, t: Thread, slice: nat)
    requires Sound(s) && !InPlay(s, t)
    ensures Sound(Add(s, t, slice))
    ensures forall u :: u in s.status && Active(s, u) ==> Active(Add(s, t, slice), u)
    ensures Active(Add(s, t, slice), t)
  {
    hide Enqueue, QueueAt, WellFormed;
    SoundShape(s);
    ArriveKeepsShape(s, t, slice);
    EnqueueKeepsShape(Arrive(s, t, slice), t);
    var r := Add(s, t, slice);
    forall u | u in r.status
      ensures Placed(r, u)
    {
      if u in s.status && u != t {
        assert Placed(s, u);
      }
    }
  }

  /** What a dispatch needs: all of soundness but for the running thread, which may have just
      been put to sleep. */
  ghost predicate Dispatchable(s: State) {
    && WellFormed(s)
    && (s.current != null ==> !Queued(s, s.current))
    && (forall t :: t in s.status ==> Placed(s, t))
  }

  /** Everything a dispatch does to who is where. */
  lemma ScheduleMoves(s: State)
    requires Dispatchable(s)
    ensures WellFormed(Schedule(s)) && Schedule(s).current == Chosen(s) && Schedule(s).idle == s.idle
    ensures !Queued(Schedule(s), Chosen(s)) && Chosen(s) in s.status
    ensures if s.current == Chosen(s) then s.current == s.idle && Schedule(s) == s
            else Schedule(s).status == Saved(s).status[Chosen(s) := Running]
                 && Schedule(s).queues == Saved(s).queues
  {
    hide Highest, HighestFrom, QueueAt, Enqueue, Dequeued, Chosen;
    DequeueKeepsShape(s);
    if s.current != Chosen(s) {
      SavedMoves(s);
      Switched(Saved(s), Chosen(s));
    }
  }

  /** The queues and states just before the switch. */
  function Saved(s: State): State
    requires WellFormed(s)
  {
    if CurrentRuns(s) then Enqueue(Dequeued(s), s.current) else Dequeued(s)
  }

  lemma SavedMoves(s: State)
    requires Dispatchable(s) && s.current != Chosen(s)
    ensures WellFormed(Saved(s)) && Saved(s).idle == s.idle
    ensures Saved(s).status == if CurrentRuns(s) then s.status[s.current := Ready] else s.status
    ensures !Queued(Saved(s), Chosen(s))
    ensures s.current != null ==> (Queued(Saved(s), s.current) <==> CurrentRuns(s))
    ensures forall t :: t in s.status && t != Chosen(s) && t != s.current ==> (Queued(Saved(s), t) <==> Queued(s, t))
  {
    hide Highest, HighestFrom, QueueAt, Enqueue, Dequeued, Chosen;
    DequeueKeepsShape(s);
    if CurrentRuns(s) {
      EnqueueKeepsShape(Dequeued(s), s.current);
    }
  }

  lemma Switched(s: State, t: Thread)
    requires WellFormed(s) && t in s.status
    ensures WellFormed(s.(current := t, status := s.status[t := Running]))
  {
    var r := s.(current := t, status := s.status[t := Running]);
    assert r.status.Keys == s.status.Keys;
    forall p | 0 <= p < PRIORITY_LEVELS
      ensures QueueAt(r, p)
    {
      assert QueueAt(s, p);
    }
  }

  /** A dispatch takes no one's turn away. */
  lemma DispatchSound(s: State)
    requires Dispatchable(s)
    requires s.current != null && s.current != s.idle ==> s.status[s.current] != Ready
    ensures Sound(Schedule(s))
    ensures forall t :: t in s.status && Active(s, t) ==> Active(Schedule(s), t)
  {
    hide Schedule, Chosen, Highest, Saved, QueueAt;
    ScheduleMoves(s);
    if s.current != Chosen(s) {
      SavedMoves(s);
      var r := Schedule(s);
      forall t | t in r.status
        ensures Placed(r, t)
      {
        assert Placed(s, t);
      }
    }
  }

  lemma SoundIsDispatchable(s: State)
    requires Sound(s)
    ensures Dispatchable(s)
  {
  }

  lemma ScheduleSound(s: State)
    requires Sound(s)
    ensures Sound(Schedule(s))
    ensures forall t :: t in s.status && Active(s, t) ==> Active(Schedule(s), t)
  {
    hide Schedule, QueueAt;
    SoundIsDispatchable(s);
    DispatchSound(s);
  }

  lemma SleepSound(s: State)
    requires Sound(s)
    ensures Sound(Sleep(s))
    ensures forall t :: t in s.status && Active(s, t) && t != s.current ==> Active(Sleep(s), t)
  {
    hide Schedule, QueueAt;
    if s.current != null {
      Relabelled(s, Sleeping(s));
      DispatchSound(Sleeping(s));
    }
  }

  lemma TickSound(s: State)
    requires Sound(s)
    ensures Sound(Tick(s))
    ensures forall t :: t in s.status && Active(s, t) ==> Active(Tick(s), t)
  {
    hide Schedule, QueueAt;
    if CurrentRuns(s) {
      if Ticked(s) > 0 {
        Relabelled(s, Tick(s));
      } else {
        Relabelled(s, Renewed(s));
        ScheduleSound(Renewed(s));
      }
    }
  }

  // ----- Yielding

  /** Some ready thread is at least as urgent as the running one. */
  predicate HasRival(s: State)
    requires WellFormed(s) && s.current != null
  {
    Highest(s) >= s.current.priority
  }

  /** With a rival, yielding is one dispatch: queueing up and choosing commute. */
  lemma YieldIsSchedule(s: State)
    requires Sound(s) && CurrentRuns(s) && HasRival(s)
    ensures Yield(s) == Schedule(s)
  {
    var c := s.current;
    var h := Highest(s);
    var y := Enqueue(s, c);
    HighestAfterEnqueue(s, c);
    assert y.queues[h][0] == s.queues[h][0];
    assert QueueAt(s, h);
    assert Chosen(y) == Chosen(s) != c;
    var q := s.queues[h];
    assert (q + [c])[1..] == q[1..] + [c];
    assert Dequeued(y).queues == Enqueue(Dequeued(s), c).queues;
    assert Dequeued(y) == Enqueue(Dequeued(s), c);
  }

  lemma HighestAfterEnqueue(s: State, t: Thread)
    requires WellFormed(s)
    ensures Highest(Enqueue(s, t)) == if Highest(s) >= t.priority then Highest(s) else t.priority
  {
    hide HighestFrom;
    var y := Enqueue(s, t);
    assert y.queues[t.priority] != [];
    assert forall k :: 0 <= k < PRIORITY_LEVELS && k != t.priority ==> y.queues[k] == s.queues[k];
  }

  /** Without one the yielding thread chooses itself, and the early exit leaves it ready,
      current and out of every queue. */
  lemma YieldToItself(s: State)
    requires Sound(s) && CurrentRuns(s) && !HasRival(s)
    ensures Yield(s) == s.(status := s.status[s.current := Ready])
  {
    var c := s.current;
    var y := Enqueue(s, c);
    HighestAfterEnqueue(s, c);
    assert s.queues[c.priority] == [];
    assert y.queues[c.priority] == [c];
    assert y.queues[c.priority][1..] == [];
    assert Dequeued(y).queues == s.queues;
  }

  /** A yield keeps the scheduler sound exactly when it has a rival, nothing was running, or
      the idle thread yields. */
  lemma YieldSoundExactly(s: State)
    requires Sound(s)
    ensures Sound(Yield(s)) <==> (!CurrentRuns(s) || HasRival(s) || s.current == s.idle)
  {
    hide Schedule, QueueAt, Highest, Enqueue, Yield;
    if !CurrentRuns(s) {
      YieldWhenStopped(s);
      ScheduleSound(s);
    } else if HasRival(s) {
      YieldIsSchedule(s);
      ScheduleSound(s);
    } else {
      YieldToItself(s);
      Relabelled(s, Yield(s));
    }
  }

  lemma YieldWhenStopped(s: State)
    requires WellFormed(s) && !CurrentRuns(s)
    ensures Yield(s) == Schedule(s)
  {
  }

  /** The thread that yielded to itself is lost at the very next dispatch: it stays ready, and
      is neither running nor in any queue. */
  lemma YieldToItselfLoses(s: State)
    requires Sound(s) && CurrentRuns(s) && !HasRival(s) && s.current != s.idle
    ensures WellFormed(Yield(s)) && WellFormed(Schedule(Yield(s)))
    ensures var r := Schedule(Yield(s));
      && s.current in r.status && r.status[s.current] == Ready
      && r.current == Chosen(s) != s.current && !InPlay(r, s.current)
  {
    hide QueueAt, Yield, Highest;
    YieldToItself(s);
    var y := Yield(s);
    Relabelled(s, y);
    DequeueKeepsShape(y);
    assert Chosen(y) != s.current;
    Switched(Dequeued(y), Chosen(y));
  }

  // ----- Runs

  datatype Op = AddOp(thread: Thread, slice: nat) | ScheduleOp | YieldOp | SleepOp | TickOp

  /** Threads are added only while not in play, and no thread but the idle one yields to itself. */
  predicate Legal(s: State, op: Op)
    requires WellFormed(s)
  {
    match op
    case AddOp(t, _) => !InPlay(s, t)
    case YieldOp => CurrentRuns(s) ==> HasRival(s) || s.current == s.idle
    case _ => true
  }

  ghost function Step(s: State, op: Op): State
    requires Sound(s)
  {
    match op
    case AddOp(t, slice) => Add(s, t, slice)
    case ScheduleOp => Schedule(s)
    case YieldOp => Yield(s)
    case SleepOp => Sleep(s)
    case TickOp => Tick(s)
  }

  /** The thread gives up its turn: it sleeps, or it is the idle thread yielding to itself. */
  predicate Retires(s: State, op: Op, t: Thread)
    requires WellFormed(s)
  {
    t == s.current && (op.SleepOp? || (op.YieldOp? && !HasRival(s)))
  }

  /** Every legal step is sound, and only a thread that retires leaves the queues and the processor. */
  lemma StepSound(s: State, op: Op)
    requires Sound(s) && Legal(s, op)
    ensures Sound(Step(s, op))
    ensures forall t :: t in s.status && Active(s, t) && !Retires(s, op, t) ==> Active(Step(s, op), t)
  {
    hide Add, Schedule, Yield, Sleep, Tick, QueueAt, Placed, Queued, HasRival;
    match op
    case AddOp(t, slice) => AddSound(s, t, slice);
    case ScheduleOp => ScheduleSound(s);
    case YieldOp =>
      YieldSoundExactly(s);
      YieldActive(s);
    case SleepOp => SleepSound(s);
    case TickOp => TickSound(s);
  }

  lemma YieldActive(s: State)
    requires Sound(s)
    ensures WellFormed(Yield(s))
    ensures forall t :: t in s.status && Active(s, t) && !Retires(s, YieldOp, t) ==> Active(Yield(s), t)
  {
    hide Schedule, Yield, QueueAt, HasRival, Placed;
    ScheduleSound(s);
    if !CurrentRuns(s) {
      YieldWhenStopped(s);
    } else if HasRival(s) {
      YieldIsSchedule(s);
    } else {
      YieldToItself(s);
      Relabelled(s, Yield(s));
    }
  }

  /** Retiring is leaving: an active thread stays active over a legal step exactly when it does
      not retire in it. */
  lemma RetiringIsLeaving(s: State, op: Op, t: Thread)
    requires Sound(s) && Legal(s, op) && t in s.status && Active(s, t)
    ensures Sound(Step(s, op))
    ensures Active(Step(s, op), t) <==>
      !(t == s.current && (op.SleepOp? || (op.YieldOp? && !HasRival(s))))
  {
    hide Schedule, Yield, QueueAt, Highest, Placed, HasRival;
    StepSound(s, op);
    if t == s.current && op.SleepOp? {
      SleepingDispatchable(s);
      SleptIsOut(s);
    } else if t == s.current && op.YieldOp? && !HasRival(s) {
      YieldToItself(s);
    }
  }

  lemma SleptIsOut(s: State)
    requires Sound(s) && CurrentRuns(s)
    ensures WellFormed(Sleep(s)) && !Active(Sleep(s), s.current)
  {
    hide Schedule, Chosen, Highest, Saved, QueueAt, Placed, Dequeued;
    SleepingDispatchable(s);
    ScheduleMoves(Sleeping(s));
    DequeueKeepsShape(Sleeping(s));
    if s.current != Chosen(Sleeping(s)) {
      SavedMoves(Sleeping(s));
    }
  }

  lemma SleepingDispatchable(s: State)
    requires Sound(s) && s.current != null
    ensures Dispatchable(Sleeping(s))
  {
    Relabelled(s, Sleeping(s));
  }

  /** The yields a run may contain are the sound ones, and the threads it may add those neither
      queued nor current. */
  lemma LegalExactly(s: State, op: Op)
    requires Sound(s)
    ensures op.YieldOp? ==> (Legal(s, op) <==> Sound(Yield(s)))
    ensures op.AddOp? ==> (Legal(s, op) <==> !Queued(s, op.thread) && s.current != op.thread)
    ensures op.ScheduleOp? || op.SleepOp? || op.TickOp? ==> Legal(s, op)
  {
    hide Yield, QueueAt, HasRival, Sound;
    YieldSoundExactly(s);
  }

  ghost function Run(s: State, ops: seq<Op>): State
    requires Sound(s) && LegalRun(s, ops)
    decreases |ops|
  {
    if ops == [] then s
    else
      StepSound(s, ops[0]);
      Run(Step(s, ops[0]), ops[1..])
  }

  ghost predicate LegalRun(s: State, ops: seq<Op>)
    requires Sound(s)
    decreases |ops|
  {
    ops != [] ==>
      && Legal(s, ops[0])
      && (StepSound(s, ops[0]); LegalRun(Step(s, ops[0]), ops[1..]))
  }

  /** Just after initialization: empty queues, nothing running, the idle thread set aside. */
  function Started(idle: Thread, slice: nat): State {
    State([[], [], [], [], []], null, idle, map[idle := Ready], map[idle := slice])
  }

  lemma StartedSound(idle: Thread, slice: nat)
    ensures Sound(Started(idle, slice))
  {
  }

  /** Every reachable state is sound. */
  lemma {:induction false} RunSound(s: State, ops: seq<Op>)
    requires Sound(s) && LegalRun(s, ops)
    ensures Sound(Run(s, ops))
    decreases |ops|
  {
    hide Legal, Step, Sound;
    if ops != [] {
      StepSound(s, ops[0]);
      RunSound(Step(s, ops[0]), ops[1..]);
    }
  }

  ghost predicate NeverRetires(s: State, ops: seq<Op>, t: Thread)
    requires Sound(s) && LegalRun(s, ops)
    decreases |ops|
  {
    ops != [] ==>
      && !Retires(s, ops[0], t)
      && (StepSound(s, ops[0]); NeverRetires(Step(s, ops[0]), ops[1..], t))
  }

  /** No runnable thread is lost: whatever the run, it stays queued or running. */
  lemma {:induction false} RunLosesNoOne(s: State, ops: seq<Op>, t: Thread)
    requires Sound(s) && LegalRun(s, ops)
    requires t in s.status && Active(s, t) && NeverRetires(s, ops, t)
    ensures Sound(Run(s, ops)) && Active(Run(s, ops), t)
    decreases |ops|
  {
    hide Legal, Step, Active, Retires, Queued, QueueAt, Placed;
    if ops != [] {
      StepSound(s, ops[0]);
      StepKeepsKnown(s, ops[0], t);
      RunLosesNoOne(Step(s, ops[0]), ops[1..], t);
    }
  }

  lemma StepKeepsKnown(s: State, op: Op, t: Thread)
    requires Sound(s) && Legal(s, op) && t in s.status
    ensures t in Step(s, op).status
  {
    hide QueueAt, Placed, Queued, Highest, HighestFrom;
  }

  /** Soundness in plain terms, thread by thread. */
  lemma SoundMeans(s: State, t: Thread)
    requires Sound(s) && t in s.status
    ensures |s.queues| == 5
    ensures t in s.queues[t.priority] ==> s.status[t] == Ready && t != s.current
    ensures s.status[t] == Running ==> t == s.current
    ensures s.status[t] == Ready ==> t in s.queues[t.priority] || t == s.idle
    ensures t == s.current && t != s.idle ==> s.status[t] == Running
    ensures forall p, i, j :: 0 <= p < 5 && 0 <= i < j < |s.queues[p]| ==> s.queues[p][i] != s.queues[p][j]
  {
    assert Placed(s, t);
    forall p, i, j | 0 <= p < 5 && 0 <= i < j < |s.queues[p]|
      ensures s.queues[p][i] != s.queues[p][j]
    {
      assert QueueAt(s, p);
    }
  }

  /** A thread other than the idle one retires by sleeping and in no other way. */
  lemma {:induction false} OnlySleepRetires(s: State, ops: seq<Op>, t: Thread)
    requires Sound(s) && LegalRun(s, ops) && t != s.idle && SleepOp !in ops
    ensures NeverRetires(s, ops, t)
    decreases |ops|
  {
    hide Step, Sound, QueueAt, HasRival;
    if ops != [] {
      StepSound(s, ops[0]);
      SameIdle(s, ops[0]);
      LegalNoRetire(s, ops[0], t);
      OnlySleepRetires(Step(s, ops[0]), ops[1..], t);
    }
  }

  lemma LegalNoRetire(s: State, op: Op, t: Thread)
    requires Sound(s) && Legal(s, op) && t != s.idle && op != SleepOp
    ensures !Retires(s, op, t)
  {
    hide QueueAt, HasRival, Placed;
  }

  lemma SameIdle(s: State, op: Op)
    requires Sound(s) && Legal(s, op)
    ensures Step(s, op).idle == s.idle
  {
    hide QueueAt, Placed, Highest, HasRival;
    match op
    case AddOp(t, slice) =>
    case _ =>
  }

  /** Every runnable thread but the idle one stays queued or running over a run without sleeps. */
  lemma NoSleepNoLoss(s: State, ops: seq<Op>, t: Thread)
    requires Sound(s) && LegalRun(s, ops) && SleepOp !in ops
    requires t in s.status && Active(s, t) && t != s.idle
    ensures Sound(Run(s, ops)) && (t in Run(s, ops).queues[t.priority] || Run(s, ops).current == t)
  {
    hide LegalRun, Run, Sound, QueueAt;
    OnlySleepRetires(s, ops, t);
    RunLosesNoOne(s, ops, t);
    RunSound(s, ops);
  }

  // ----- Sleeping and time slices

  /** Out of the queues and off the processor, waiting. */
  predicate Asleep(s: State, t: Thread)
    requires |s.queues| == PRIORITY_LEVELS
  {
    t in s.status && s.status[t] == Waiting && !InPlay(s, t) && t != s.idle
  }

  /** The thread a dispatch chooses: the head of level p when all levels above are empty, the idle
      thread when all five are. */
  lemma ChosenIs(s: State, p: int)
    requires |s.queues| == 5 && -1 <= p < 5 && (forall k :: p < k < 5 ==> s.queues[k] == [])
    requires p >= 0 ==> s.queues[p] != []
    ensures Chosen(s) == if p >= 0 then s.queues[p][0] else s.idle
    ensures Dequeued(s) == if p >= 0 then s.(queues := s.queues[p := s.queues[p][1..]]) else s
  {
    hide HighestFrom;
    assert Highest(s) == p;
  }

  lemma DispatchLeavesAsleep(s: State, t: Thread)
    requires Dispatchable(s) && t in s.status && s.status[t] == Waiting && !Queued(s, t) && t != s.idle
    ensures WellFormed(Schedule(s)) && Asleep(Schedule(s), t)
  {
    hide Schedule, Chosen, Highest, Saved, QueueAt, Placed, Dequeued;
    ScheduleMoves(s);
    DequeueKeepsShape(s);
    if s.current != Chosen(s) {
      SavedMoves(s);
    }
  }

  lemma StepLeavesAsleep(s: State, op: Op, t: Thread)
    requires Sound(s) && Legal(s, op) && Asleep(s, t) && (op.AddOp? ==> op.thread != t)
    ensures Sound(Step(s, op)) && Asleep(Step(s, op), t)
  {
    hide Schedule, Yield, QueueAt, Highest, Placed, Queued;
    StepSound(s, op);
    SoundIsDispatchable(s);
    match op
    case AddOp(u, slice) =>
      ArriveKeepsShape(s, u, slice);
      AddLeavesAsleep(s, u, slice, t);
    case ScheduleOp => DispatchLeavesAsleep(s, t);
    case YieldOp =>
      if !CurrentRuns(s) {
        YieldWhenStopped(s);
        DispatchLeavesAsleep(s, t);
      } else if HasRival(s) {
        YieldIsSchedule(s);
        DispatchLeavesAsleep(s, t);
      } else {
        YieldToItself(s);
        SameQueued(s, Yield(s));
      }
    case SleepOp =>
      if s.current != null {
        SleepingDispatchable(s);
        SameQueued(s, Sleeping(s));
        DispatchLeavesAsleep(Sleeping(s), t);
      }
    case TickOp =>
      if CurrentRuns(s) && Ticked(s) == 0 {
        RenewedDispatchable(s);
        SameQueued(s, Renewed(s));
        DispatchLeavesAsleep(Renewed(s), t);
      } else {
        SameQueued(s, Tick(s));
      }
  }

  lemma SameQueued(s: State, r: State)
    requires WellFormed(s) && r.queues == s.queues
    ensures forall t :: Queued(r, t) <==> Queued(s, t)
  {
  }

  lemma AddLeavesAsleep(s: State, u: Thread, slice: nat, t: Thread)
    requires WellFormed(s) && Asleep(s, t) && u != t && !Queued(s, u)
    ensures |Add(s, u, slice).queues| == PRIORITY_LEVELS && Asleep(Add(s, u, slice), t)
  {
    hide QueueAt;
    ArriveKeepsShape(s, u, slice);
  }

  /** A thread put to sleep waits: over any run that does not add it again it is neither queued
      nor running, whatever else happens. */
  lemma {:induction false} SleeperWaits(s: State, ops: seq<Op>, t: Thread)
    requires Sound(s) && LegalRun(s, ops) && Asleep(s, t)
    requires forall op :: op in ops && op.AddOp? ==> op.thread != t
    ensures Sound(Run(s, ops)) && t in Run(s, ops).status && Run(s, ops).status[t] == Waiting
    ensures !InPlay(Run(s, ops), t)
    decreases |ops|
  {
    hide Legal, Step, QueueAt, Placed, Queued;
    if ops != [] {
      StepLeavesAsleep(s, ops[0], t);
      SleeperWaits(Step(s, ops[0]), ops[1..], t);
    }
  }

  /** Sleeping does put the thread to sleep; the idle thread alone is left waiting and current
      when there is no other. */
  lemma SleepSleeps(s: State)
    requires Sound(s) && s.current != null
    ensures WellFormed(Sleep(s)) && s.current in Sleep(s).status
    ensures s.current != s.idle ==> Asleep(Sleep(s), s.current) && Sleep(s).status[s.current] == Waiting
  {
    hide Schedule, QueueAt, Placed;
    SleepSound(s);
    Relabelled(s, Sleeping(s));
    SameQueued(s, Sleeping(s));
    if s.current != s.idle {
      assert forall t :: t in s.status ==> Placed(s, t);
      SleepingDispatchable(s);
      DispatchLeavesAsleep(Sleeping(s), s.current);
    } else {
      StepKeepsKnown(s, SleepOp, s.current);
    }
  }

  lemma RenewedDispatchable(s: State)
    requires Sound(s) && s.current != null
    ensures Dispatchable(Renewed(s))
  {
    Relabelled(s, Renewed(s));
  }

  function Ticks(n: nat): seq<Op> {
    if n == 0 then [] else [TickOp] + Ticks(n - 1)
  }

  /** A time slice of n ticks: after k ticks short of n the thread still runs with n - k left. */
  lemma {:induction false} SliceRunsDown(s: State, k: nat)
    requires Sound(s) && CurrentRuns(s) && k < s.slices[s.current]
    ensures LegalRun(s, Ticks(k))
    ensures var r := Run(s, Ticks(k));
      && r.current == s.current && s.current in r.status && CurrentRuns(r)
      && r.queues == s.queues && r.status == s.status
      && s.current in r.slices && r.slices[s.current] == s.slices[s.current] - k
    decreases k
  {
    hide Schedule, QueueAt, Placed;
    if k > 0 {
      StepSound(s, TickOp);
      assert Ticks(k)[0] == TickOp && Ticks(k)[1..] == Ticks(k - 1);
      SliceRunsDown(Step(s, TickOp), k - 1);
    }
  }

  /** The tick that uses the slice up renews it to ten and dispatches. */
  lemma LastTickDispatches(s: State)
    requires Sound(s) && CurrentRuns(s) && s.slices[s.current] <= 1
    ensures WellFormed(Tick(s)) && s.current in Tick(s).slices && Tick(s).slices[s.current] == 10
    ensures Tick(s).current == Chosen(s) && Tick(s).queues == Schedule(s).queues && Tick(s).status == Schedule(s).status
  {
    hide QueueAt, Placed, Schedule, Chosen;
    RenewedDispatchable(s);
    ScheduleMoves(Renewed(s));
    DispatchIgnoresSlices(s, Renewed(s).slices);
    assert Tick(s) == Schedule(Renewed(s)) == Schedule(s).(slices := Renewed(s).slices);
  }

  lemma DispatchIgnoresSlices(s: State, slices: map<Thread, nat>)
    requires WellFormed(s) && WellFormed(s.(slices := slices))
    ensures Schedule(s.(slices := slices)) == Schedule(s).(slices := slices)
    ensures Chosen(s) == Schedule(s).current
  {
    hide QueueAt, HighestFrom;
    var r := s.(slices := slices);
    assert Highest(r) == Highest(s);
    assert Dequeued(r) == Dequeued(s).(slices := slices);
  }

  // ----- Waiting

  /** Level p has the first ready threads, and the running thread is no more urgent. */
  predicate Foremost(s: State, p: int)
    requires WellFormed(s)
  {
    p >= 0 && Highest(s) == p && (CurrentRuns(s) ==> s.current.priority <= p)
  }

  predicate AtPlace(s: State, p: int, j: nat, t: Thread)
    requires |s.queues| == PRIORITY_LEVELS
  {
    0 <= p < PRIORITY_LEVELS && j < |s.queues[p]| && s.queues[p][j] == t
  }

  /** A dispatch moves the whole level up one place. */
  lemma DispatchAdvances(s: State, p: int, j: nat, t: Thread)
    requires Dispatchable(s) && Foremost(s, p) && AtPlace(s, p, j, t)
    ensures WellFormed(Schedule(s))
    ensures j == 0 ==> Schedule(s).current == t && CurrentRuns(Schedule(s))
    ensures j > 0 ==> Foremost(Schedule(s), p) && AtPlace(Schedule(s), p, j - 1, t)
  {
    hide QueueAt, Placed, Highest;
    ScheduleMoves(s);
    DequeueKeepsShape(s);
    var d, r := Dequeued(s), Schedule(s);
    assert d.queues[p] == s.queues[p][1..];
    if j > 0 {
      assert d.queues[p][j - 1] == t;
      assert r.queues[p][j - 1] == t;
      assert forall k :: p < k < PRIORITY_LEVELS ==> r.queues[k] == [];
      HighestIs(r, p);
    }
  }

  lemma HighestIs(s: State, p: int)
    requires WellFormed(s) && 0 <= p < PRIORITY_LEVELS && s.queues[p] != []
    requires forall k :: p < k < PRIORITY_LEVELS ==> s.queues[k] == []
    ensures Highest(s) == p
  {
    hide HighestFrom;
  }

  /** The steps that choose a thread to run. */
  predicate Dispatches(s: State, op: Op)
    requires WellFormed(s)
  {
    match op
    case AddOp(_, _) => false
    case ScheduleOp => true
    case YieldOp => true
    case SleepOp => s.current != null
    case TickOp => CurrentRuns(s) && Ticked(s) == 0
  }

  predicate NoMoreUrgent(op: Op, p: int) {
    op.AddOp? ==> op.thread.priority <= p
  }

  /** A legal step that chooses a thread and brings in no one above level p. */
  predicate TakesTurn(s: State, op: Op, p: int)
    requires WellFormed(s)
  {
    Legal(s, op) && NoMoreUrgent(op, p) && Dispatches(s, op)
  }

  lemma AddWaits(s: State, t: Thread, slice: nat, p: int, j: nat, x: Thread)
    requires Sound(s) && !InPlay(s, t) && t.priority <= p && Foremost(s, p) && AtPlace(s, p, j, x)
    ensures WellFormed(Add(s, t, slice)) && Foremost(Add(s, t, slice), p) && AtPlace(Add(s, t, slice), p, j, x)
  {
    hide QueueAt, Placed, Highest;
    var a := Arrive(s, t, slice);
    ArriveKeepsShape(s, t, slice);
    HighestIs(a, p);
    EnqueueKeepsShape(a, t);
    HighestAfterEnqueue(a, t);
  }

  /** One step of the wait. */
  lemma StepAdvances(s: State, op: Op, p: int, j: nat, t: Thread)
    requires Sound(s) && Legal(s, op) && NoMoreUrgent(op, p) && Foremost(s, p) && AtPlace(s, p, j, t)
    ensures Sound(Step(s, op))
    ensures !Dispatches(s, op) ==> Foremost(Step(s, op), p) && AtPlace(Step(s, op), p, j, t)
    ensures Dispatches(s, op) && j == 0 ==> Step(s, op).current == t && CurrentRuns(Step(s, op))
    ensures Dispatches(s, op) && j > 0 ==> Foremost(Step(s, op), p) && AtPlace(Step(s, op), p, j - 1, t)
  {
    hide Schedule, QueueAt, Placed, Queued, Highest, Yield, Add;
    StepSound(s, op);
    SoundIsDispatchable(s);
    match op
    case AddOp(u, slice) => AddWaits(s, u, slice, p, j, t);
    case ScheduleOp => DispatchAdvances(s, p, j, t);
    case YieldOp =>
      if CurrentRuns(s) { YieldIsSchedule(s); } else { YieldWhenStopped(s); }
      DispatchAdvances(s, p, j, t);
    case SleepOp =>
      if s.current != null {
        SleepAdvances(s, p, j, t);
      }
    case TickOp => TickAdvances(s, p, j, t);
  }

  lemma SleepAdvances(s: State, p: int, j: nat, t: Thread)
    requires Sound(s) && s.current != null && Foremost(s, p) && AtPlace(s, p, j, t)
    ensures WellFormed(Sleep(s))
    ensures j == 0 ==> Sleep(s).current == t && CurrentRuns(Sleep(s))
    ensures j > 0 ==> Foremost(Sleep(s), p) && AtPlace(Sleep(s), p, j - 1, t)
  {
    hide Schedule, QueueAt, Highest;
    Relabelled(s, Sleeping(s));
    HighestIs(Sleeping(s), p);
    DispatchAdvances(Sleeping(s), p, j, t);
  }

  lemma TickAdvances(s: State, p: int, j: nat, t: Thread)
    requires Sound(s) && Foremost(s, p) && AtPlace(s, p, j, t)
    ensures WellFormed(Tick(s))
    ensures !Dispatches(s, TickOp) ==> Foremost(Tick(s), p) && AtPlace(Tick(s), p, j, t)
    ensures Dispatches(s, TickOp) && j == 0 ==> Tick(s).current == t && CurrentRuns(Tick(s))
    ensures Dispatches(s, TickOp) && j > 0 ==> Foremost(Tick(s), p) && AtPlace(Tick(s), p, j - 1, t)
  {
    hide Schedule, QueueAt, Highest;
    if CurrentRuns(s) {
      if Ticked(s) > 0 {
        Relabelled(s, Tick(s));
        HighestIs(Tick(s), p);
      } else {
        Relabelled(s, Renewed(s));
        HighestIs(Renewed(s), p);
        DispatchAdvances(Renewed(s), p, j, t);
      }
    }
  }

  /** How many steps of a run chose a thread. */
  ghost function Dispatched(s: State, ops: seq<Op>): nat
    requires Sound(s) && LegalRun(s, ops)
    decreases |ops|
  {
    if ops == [] then 0
    else
      StepSound(s, ops[0]);
      (if Dispatches(s, ops[0]) then 1 else 0) + Dispatched(Step(s, ops[0]), ops[1..])
  }

  /** Bounded wait: from place j of the first level, while nothing more urgent arrives, a thread
      moves up one place a dispatch, and runs on the dispatch after the j-th, not before. */
  lemma {:induction false} BoundedWait(s: State, ops: seq<Op>, p: int, j: nat, t: Thread)
    requires Sound(s) && LegalRun(s, ops) && Foremost(s, p) && AtPlace(s, p, j, t)
    requires (forall op :: op in ops ==> NoMoreUrgent(op, p)) && Dispatched(s, ops) <= j
    ensures Sound(Run(s, ops)) && Foremost(Run(s, ops), p) && AtPlace(Run(s, ops), p, j - Dispatched(s, ops), t)
    ensures Run(s, ops).current != t
    ensures forall op :: Dispatched(s, ops) == j && TakesTurn(Run(s, ops), op, p) ==> Step(Run(s, ops), op).current == t
    decreases |ops|
  {
    hide Legal, Step, Foremost, QueueAt, Placed, Dispatches, NoMoreUrgent, Queued;
    if ops == [] {
      NotYetRunning(s, p, j, t);
      forall op | j == 0 && TakesTurn(s, op, p)
        ensures Step(s, op).current == t
      {
        StepAdvances(s, op, p, j, t);
      }
    } else {
      StepAdvances(s, ops[0], p, j, t);
      BoundedWait(Step(s, ops[0]), ops[1..], p, if Dispatches(s, ops[0]) then j - 1 else j, t);
    }
  }

  /** The wait in plain terms: t is at place j of level p, nothing waits above p, nothing above p
      runs or arrives. While there were at most j dispatches t does not run; after exactly j, the
      next legal step that dispatches puts it on the processor. */
  lemma WaitsExactly(s: State, ops: seq<Op>, p: int, j: nat, t: Thread)
    requires Sound(s) && LegalRun(s, ops)
    requires 0 <= p < 5 && j < |s.queues[p]| && s.queues[p][j] == t
    requires forall k :: p < k < 5 ==> s.queues[k] == []
    requires CurrentRuns(s) ==> s.current.priority <= p
    requires (forall op :: op in ops && op.AddOp? ==> op.thread.priority <= p) && Dispatched(s, ops) <= j
    ensures Sound(Run(s, ops)) && Run(s, ops).current != t
    ensures Dispatched(s, ops) == j ==>
      && Schedule(Run(s, ops)).current == t
      && (Run(s, ops).current != null ==> Sleep(Run(s, ops)).current == t)
  {
    hide QueueAt, Placed, Highest, Schedule, Sleep, LegalRun, Run, Dispatched;
    ChosenLevel(s, p);
    BoundedWait(s, ops, p, j, t);
    var r := Run(s, ops);
    if Dispatched(s, ops) == j {
      assert TakesTurn(r, ScheduleOp, p) && Step(r, ScheduleOp) == Schedule(r);
      if r.current != null {
        assert TakesTurn(r, SleepOp, p) && Step(r, SleepOp) == Sleep(r);
      }
    }
  }

  lemma ChosenLevel(s: State, p: int)
    requires |s.queues| == 5 && 0 <= p < 5 && s.queues[p] != [] && forall k :: p < k < 5 ==> s.queues[k] == []
    ensures Highest(s) == p
  {
    hide HighestFrom;
  }

  lemma NotYetRunning(s: State, p: int, j: nat, t: Thread)
    requires Sound(s) && AtPlace(s, p, j, t)
    ensures s.current != t
  {
    assert QueueAt(s, p);
  }

  /** After a dispatch only the thread just preempted can outrank the running one. */
  lemma OnlyThePreemptedOutranks(s: State, t: Thread)
    requires Sound(s) && t in s.status
    requires Queued(Schedule(s), t) && t.priority > Schedule(s).current.priority
    ensures t == s.current && CurrentRuns(s)
  {
    hide QueueAt, Placed, Schedule, HighestFrom, Chosen, Saved;
    SoundIsDispatchable(s);
    ScheduleMoves(s);
    DequeueKeepsShape(s);
    if s.current != Chosen(s) {
      SavedMoves(s);
      if t != s.current {
        ChosenIsFirst(s, t);
      }
    } else {
      ChosenIsFirst(s, t);
    }
  }

  lemma ChosenIsFirst(s: State, t: Thread)
    requires WellFormed(s) && Queued(s, t)
    ensures Chosen(s).priority >= t.priority
    ensures Highest(s) >= 0
  {
    hide HighestFrom;
    assert QueueAt(s, Highest(s));
  }
}
