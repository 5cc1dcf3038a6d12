/** The scheduler of kern/scheduler.c in its own form: doubly linked ready queues threaded
    through the thread blocks, updated in place. Every operation is proved to be the step of
    SchedulerRuns of the same name. */
module SchedulerObject {
  import opened Lists
  import opened SchedulerRuns

  /** The list from head is q, linked both ways and ended by null. */
  ghost predicate Linked(q: seq<Thread>, head: Thread?)
    reads q`next, q`previous
  {
    && head == At(q, 0)
    && (forall i :: 0 <= i < |q| ==> q[i].next == At(q, i + 1) && q[i].previous == At(q, i - 1))
  }

  lemma DistinctWithout(q: seq<Thread>, i: nat)
    requires i < |q| && Distinct(q)
    ensures Distinct(q[..i] + q[i + 1..]) && (forall t :: t in q[..i] + q[i + 1..] ==> t in q)
  {
    var r := q[..i] + q[i + 1..];
    forall j, k | 0 <= j < k < |r|
      ensures r[j] != r[k]
    {
      assert r[j] == q[if j < i then j else j + 1] && r[k] == q[if k < i then k else k + 1];
    }
  }

  /** The neighbours of place i know each other. */
  ghost predicate Bridged(q: seq<Thread>, i: nat, k: nat)
    requires k < |q|
    reads q
  {
    && q[k].next == At(q, if k + 1 == i then i + 1 else k + 1)
    && q[k].previous == At(q, if k == i + 1 then i - 1 else k - 1)
  }

  lemma GapCloses(q: seq<Thread>, i: nat, head: Thread?)
    requires i < |q| && head == (if i == 0 then At(q, 1) else q[0])
    requires forall k :: 0 <= k < |q| && k != i ==> Bridged(q, i, k)
    ensures Linked(q[..i] + q[i + 1..], head)
  {
    var r := q[..i] + q[i + 1..];
    assert forall j :: j < i ==> At(r, j) == At(q, j);
    assert forall j :: j >= i ==> At(r, j) == At(q, j + 1);
    forall k | 0 <= k < |r|
      ensures r[k].next == At(r, k + 1) && r[k].previous == At(r, k - 1)
    {
      var m := if k < i then k else k + 1;
      assert r[k] == q[m];
      assert Bridged(q, i, m);
    }
  }

  /** The thread has left its queue; nothing else is changed. */
  function Removed(s: State, t: Thread): State
    requires |s.queues| == PRIORITY_LEVELS
  {
    s.(queues := s.queues[t.priority := Without(s.queues[t.priority], t)])
  }

  /** Selecting takes the chosen thread out and nothing more. */
  lemma DequeuedIsRemoved(s: State)
    requires WellFormed(s) && Highest(s) >= 0
    ensures Dequeued(s) == Removed(s, Chosen(s)) && Queued(s, Chosen(s))
  {
    hide HighestFrom;
    assert QueueAt(s, Highest(s));
    WithoutFirst(s.queues[Highest(s)], 0);
  }

  class Scheduler {
    const readyQueues: array<Thread?>
    var currentThread: Thread?
    const idleThread: Thread
    ghost var queues: seq<seq<Thread>>
    ghost var threads: set<Thread>

    /** What the machine of SchedulerRuns sees. */
    ghost function Abs(): State
      reads this, threads
    {
      State(queues, currentThread, idleThread, map t | t in threads :: t.state, map t | t in threads :: t.timeSlice)
    }

    /** The array heads five lists: threads of one priority each, none of them twice. */
    ghost predicate Lists()
      reads this`queues, this`threads, readyQueues, threads`next, threads`previous
    {
      && readyQueues.Length == PRIORITY_LEVELS == |queues|
      && (forall p :: 0 <= p < PRIORITY_LEVELS ==> Distinct(queues[p]) && ListAt(p))
    }

    ghost predicate ListAt(p: int)
      requires readyQueues.Length == PRIORITY_LEVELS == |queues| && 0 <= p < PRIORITY_LEVELS
      reads this`queues, this`threads, readyQueues, threads`next, threads`previous
    {
      && (forall t :: t in queues[p] ==> t in threads && t.priority == p)
      && Linked(queues[p], readyQueues[p])
    }

    ghost predicate Valid()
      reads this, readyQueues, threads
    {
      Lists() && WellFormed(Abs())
    }

    /** What the links are: the array heads each list, each thread in it knows the next and the
        previous one, and beyond the ends is null. */
    lemma Links(p: int)
      requires Valid() && 0 <= p < 5
      ensures readyQueues.Length == 5 == |queues|
      ensures readyQueues[p] == (if queues[p] == [] then null else queues[p][0])
      ensures forall i :: 0 <= i < |queues[p]| ==>
        && queues[p][i].priority == p
        && queues[p][i].next == (if i + 1 < |queues[p]| then queues[p][i + 1] else null)
        && queues[p][i].previous == (if i > 0 then queues[p][i - 1] else null)
    {
      hide WellFormed;
      assert ListAt(p);
    }

    /** Relinking threads of one priority leaves the other four lists alone. */
    twostate lemma OtherListsStay(p: Priority)
      requires old(Lists()) && readyQueues.Length == PRIORITY_LEVELS == |queues| && threads == old(threads)
      requires forall k :: 0 <= k < PRIORITY_LEVELS && k != p ==>
                             queues[k] == old(queues[k]) && readyQueues[k] == old(readyQueues[k])
      requires forall t :: t in threads && t.priority != p ==> t.next == old(t.next) && t.previous == old(t.previous)
      ensures forall k :: 0 <= k < PRIORITY_LEVELS && k != p ==> Distinct(queues[k]) && ListAt(k)
    {
      forall k | 0 <= k < PRIORITY_LEVELS && k != p
        ensures Distinct(queues[k]) && ListAt(k)
      {
        assert old(ListAt(k));
        assert forall i :: 0 <= i < |queues[k]| ==> queues[k][i] in threads && queues[k][i].priority == k;
      }
    }

    /** The thread is linked behind the last one. */
    method Append(thread: Thread, ghost q: seq<Thread>)
      requires readyQueues.Length == PRIORITY_LEVELS && Linked(q, readyQueues[thread.priority])
      requires Distinct(q) && thread !in q
      modifies readyQueues, q`next, thread`next, thread`previous
      ensures Linked(q + [thread], readyQueues[thread.priority])
      ensures forall k :: 0 <= k < PRIORITY_LEVELS && k != thread.priority ==> readyQueues[k] == old(readyQueues[k])
    {
      var p := thread.priority;
      thread.next := null;
      thread.previous := null;
      if readyQueues[p] == null {
        readyQueues[p] := thread;
      } else {
        var current: Thread := readyQueues[p];
        ghost var i := 0;
        while current.next != null
          invariant 0 <= i < |q| && current == q[i]
          decreases |q| - i
        {
          assert q[i].next == At(q, i + 1);
          current := current.next;
          i := i + 1;
        }
        assert q[i].next == At(q, i + 1);
        current.next := thread;
        thread.previous := current;
      }
    }

    /** The thread goes to the end of its list. */
    method LinkLast(thread: Thread)
      requires Lists() && thread in threads && thread !in queues[thread.priority]
      modifies this`queues, readyQueues, threads`next, threads`previous
      ensures Lists() && queues == old(queues)[thread.priority := old(queues[thread.priority]) + [thread]]
    {
      hide Linked;
      var p := thread.priority;
      ghost var q := queues[p];
      assert ListAt(p);
      Append(thread, q);
      queues := queues[p := q + [thread]];
      OtherListsStay(p);
      assert Distinct(queues[p]);
    }

    /** The thread's neighbours close the gap. */
    method Bridge(thread: Thread, ghost q: seq<Thread>, ghost i: nat)
      requires readyQueues.Length == PRIORITY_LEVELS && Linked(q, readyQueues[thread.priority]) && Distinct(q)
      requires i < |q| && q[i] == thread
      modifies readyQueues, q`next, q`previous
      ensures forall k :: 0 <= k < |q| && k != i ==> Bridged(q, i, k)
      ensures readyQueues[thread.priority] == if i == 0 then At(q, 1) else q[0]
      ensures forall k :: 0 <= k < PRIORITY_LEVELS && k != thread.priority ==> readyQueues[k] == old(readyQueues[k])
    {
      assert q[i].next == (if i + 1 < |q| then q[i + 1] else null);
      assert q[i].previous == (if i > 0 then q[i - 1] else null);
      if thread.previous != null {
        thread.previous.next := thread.next;
      } else {
        readyQueues[thread.priority] := thread.next;
      }
      if thread.next != null {
        thread.next.previous := thread.previous;
      }
      thread.next := null;
      thread.previous := null;
    }

    /** The thread leaves its list. */
    method Unlink(thread: Thread)
      requires Lists() && thread in queues[thread.priority]
      modifies this`queues, readyQueues, threads`next, threads`previous
      ensures Lists()
      ensures queues == old(queues)[thread.priority := Without(old(queues[thread.priority]), thread)]
    {
      hide Linked, Without, Distinct, Bridged;
      var p := thread.priority;
      ghost var q := queues[p];
      assert ListAt(p);
      ghost var i :| 0 <= i < |q| && q[i] == thread;
      DistinctBefore(q, i);
      WithoutFirst(q, i);
      Bridge(thread, q, i);
      queues := queues[p := q[..i] + q[i + 1..]];
      OtherListsStay(p);
      GapCloses(q, i, readyQueues[p]);
      DistinctWithout(q, i);
    }

    /** The thread is ready, and known from here on. */
    method MarkReady(thread: Thread)
      requires Lists()
      modifies this`threads, thread`state
      ensures Lists() && threads == old(threads) + {thread}
      ensures Abs().queues == old(Abs()).queues && Abs().current == old(Abs()).current
      ensures Abs().status == old(Abs()).status[thread := Ready]
      ensures Abs().slices == if thread in old(threads) then old(Abs()).slices
                              else old(Abs()).slices[thread := thread.timeSlice]
    {
      hide Distinct, Linked;
      assert forall p :: 0 <= p < PRIORITY_LEVELS ==> ListAt(p);
      thread.state := Ready;
      threads := threads + {thread};
    }

    method AddThreadToReadyQueue(thread: Thread)
      requires Valid() && !Queued(Abs(), thread)
      modifies this`queues, this`threads, readyQueues, threads, thread
      ensures Valid() && Abs() == Add(old(Abs()), thread, old(thread.timeSlice))
      ensures threads == old(threads) + {thread} && thread.timeSlice == old(thread.timeSlice)
    {
      hide WellFormed, Lists, Add;
      AddResult(Abs(), thread, thread.timeSlice);
      MarkReady(thread);
      ghost var marked := Abs();
      LinkLast(thread);
      assert Abs().status == marked.status && Abs().slices == marked.slices;
    }

    method RemoveThreadFromReadyQueue(thread: Thread)
      requires Valid() && Queued(Abs(), thread)
      modifies this`queues, readyQueues, threads`next, threads`previous
      ensures Valid() && Abs() == Removed(old(Abs()), thread)
    {
      hide Distinct, Linked, Without;
      Unlink(thread);
    }

    /** The first thread of the most urgent queue, taken out of it, or the idle thread. */
    method SelectNextThread() returns (next: Thread)
      requires Valid()
      modifies this`queues, readyQueues, threads`next, threads`previous
      ensures Valid() && Abs() == Dequeued(old(Abs()))
      ensures next == Chosen(old(Abs())) && next in threads
    {
      hide WellFormed, Distinct;
      ghost var before := Abs();
      ShapeOf(before);
      DequeueKeepsShape(before);
      var p := PRIORITY_LEVELS - 1;
      while p >= 0
        invariant -1 <= p < PRIORITY_LEVELS
        invariant Abs() == before && Valid()
        invariant HighestFrom(queues, p) == Highest(before)
      {
        assert ListAt(p);
        if readyQueues[p] != null {
          next := readyQueues[p];
          DequeuedIsRemoved(before);
          RemoveThreadFromReadyQueue(next);
          return;
        }
        p := p - 1;
      }
      next := idleThread;
    }

    method Schedule()
      requires Valid() && (CurrentRuns(Abs()) ==> !Queued(Abs(), currentThread))
      modifies this, readyQueues, threads
      ensures Valid() && Abs() == SchedulerRuns.Schedule(old(Abs())) && threads == old(threads)
    {
      hide WellFormed, Lists, Chosen, Dequeued, QueueAt, Queued, Add, SchedulerRuns.Schedule;
      ghost var before := Abs();
      ShapeOf(before);
      ScheduleResult(before);
      DequeueKeepsShape(before);
      var current := currentThread;
      var next := SelectNextThread();
      if current == next {
        return;
      }
      if current != null && current.state == Running {
        assert CurrentRuns(before) && current in threads && before.slices[current] == current.timeSlice;
        AddThreadToReadyQueue(current);
        assert threads == old(threads);
      }
      SwitchTo(next);
    }

    method SwitchTo(next: Thread)
      requires Lists() && next in threads
      modifies this`currentThread, next`state
      ensures Lists() && currentThread == next
      ensures Abs() == old(Abs()).(current := next, status := old(Abs()).status[next := Running])
    {
      hide Lists;
      currentThread := next;
      next.state := Running;
      assert Abs().status == old(Abs()).status[next := Running];
      assert Abs().slices == old(Abs()).slices;
    }

    method YieldProcessor()
      requires Valid() && (CurrentRuns(Abs()) ==> !Queued(Abs(), currentThread))
      modifies this, readyQueues, threads
      ensures Valid() && Abs() == Yield(old(Abs())) && threads == old(threads)
    {
      hide WellFormed, Lists, Queued, Add, SchedulerRuns.Schedule, Yield;
      ghost var before := Abs();
      ShapeOf(before);
      YieldResult(before);
      if currentThread != null && currentThread.state == Running {
        AddThreadToReadyQueue(currentThread);
      }
      Schedule();
    }

    method Sleep() returns (valid: bool)
      requires Valid() && (currentThread != null ==> !Queued(Abs(), currentThread))
      modifies this, readyQueues, threads
      ensures Valid() && Abs() == SchedulerRuns.Sleep(old(Abs())) && threads == old(threads)
      ensures valid == (old(currentThread) != null)
    {
      hide WellFormed, Lists, Queued, SchedulerRuns.Schedule;
      ghost var before := Abs();
      ShapeOf(before);
      var current := currentThread;
      if current == null {
        return false;
      }
      current.state := Waiting;
      assert Abs().status == before.status[current := Waiting];
      assert Abs().slices == before.slices;
      Relabelled(before, Abs());
      Schedule();
      valid := true;
    }

    method TimerTick()
      requires Valid() && (currentThread != null ==> !Queued(Abs(), currentThread))
      modifies this, readyQueues, threads
      ensures Valid() && Abs() == Tick(old(Abs())) && threads == old(threads)
    {
      hide WellFormed, Lists, SchedulerRuns.Schedule;
      ghost var before := Abs();
      ShapeOf(before);
      var current := currentThread;
      if current == null || current.state != Running {
        return;
      }
      if current.timeSlice > 0 {
        current.timeSlice := current.timeSlice - 1;
      }
      assert current.timeSlice == Ticked(before);
      if current.timeSlice == 0 {
        current.timeSlice := SLICE_RESET;
        assert Abs().status == before.status;
        assert Abs().slices == before.slices[current := SLICE_RESET];
        Relabelled(before, Abs());
        Schedule();
      } else {
        assert Abs().status == before.status;
        assert Abs().slices == before.slices[current := Ticked(before)];
        Relabelled(before, Abs());
      }
    }

    constructor ()
      ensures Valid() && fresh(readyQueues) && fresh(threads)
      ensures idleThread.priority == 0 && Abs() == Started(idleThread, 1)
    {
      hide WellFormed, Sound, Linked;
      var idle := new Thread(0, 1);
      idle.state := Ready;
      readyQueues := new Thread?[PRIORITY_LEVELS](_ => null);
      currentThread := null;
      idleThread := idle;
      queues := [[], [], [], [], []];
      threads := {idle};
      new;
      StartedSound(idleThread, 1);
      SoundIsWellFormed(Started(idleThread, 1));
      assert Abs().status == Started(idleThread, 1).status;
      assert Abs().slices == Started(idleThread, 1).slices;
      assert Abs() == Started(idleThread, 1);
      forall p | 0 <= p < PRIORITY_LEVELS
        ensures Linked(queues[p], readyQueues[p])
      {
        EmptyLinked();
        assert queues[p] == [];
      }
    }
  }

  lemma EmptyLinked()
    ensures Linked([], null)
  {
  }

  lemma AddResult(s: State, t: Thread, slice: nat)
    requires WellFormed(s) && !Queued(s, t)
    ensures WellFormed(Add(s, t, slice))
    ensures Add(s, t, slice).queues == s.queues[t.priority := s.queues[t.priority] + [t]]
    ensures Add(s, t, slice).current == s.current && Add(s, t, slice).idle == s.idle
    ensures Add(s, t, slice).status == s.status[t := Ready]
    ensures Add(s, t, slice).slices == if t in s.status then s.slices else s.slices[t := slice]
  {
    ArriveKeepsShape(s, t, slice);
    EnqueueKeepsShape(Arrive(s, t, slice), t);
  }

  /** The steps of a dispatch, as the code takes them. */
  lemma ScheduleResult(s: State)
    requires WellFormed(s) && (CurrentRuns(s) ==> !Queued(s, s.current))
    ensures WellFormed(Dequeued(s))
    ensures var r := SchedulerRuns.Schedule(s);
      if s.current == Chosen(s) then r == Dequeued(s)
      else
        var saved := if CurrentRuns(s) then Add(Dequeued(s), s.current, s.slices[s.current]) else Dequeued(s);
        r == saved.(current := Chosen(s), status := saved.status[Chosen(s) := Running])
    ensures WellFormed(SchedulerRuns.Schedule(s))
    ensures CurrentRuns(s) && s.current != Chosen(s) ==> !Queued(Dequeued(s), s.current)
  {
    hide QueueAt, Queued, Chosen, Dequeued;
    DequeueKeepsShape(s);
    if s.current != Chosen(s) {
      if CurrentRuns(s) {
        OthersStayAt(s, Dequeued(s), Chosen(s), s.current);
        EnqueueKeepsShape(Dequeued(s), s.current);
        Switched(Enqueue(Dequeued(s), s.current), Chosen(s));
      } else {
        Switched(Dequeued(s), Chosen(s));
      }
    }
  }

  lemma OthersStayAt(s: State, r: State, t: Thread, u: Thread)
    requires |s.queues| == |r.queues| == PRIORITY_LEVELS && OthersStay(s, r, t) && u in s.status && u != t
    ensures Queued(r, u) <==> Queued(s, u)
  {
  }

  lemma YieldResult(s: State)
    requires WellFormed(s) && (CurrentRuns(s) ==> !Queued(s, s.current))
    ensures if CurrentRuns(s) then
              var queued := Add(s, s.current, s.slices[s.current]);
              WellFormed(queued) && !CurrentRuns(queued) && Yield(s) == SchedulerRuns.Schedule(queued)
            else Yield(s) == SchedulerRuns.Schedule(s)
  {
    hide SchedulerRuns.Schedule;
    EnqueueWellFormed(s);
  }

  lemma ShapeOf(s: State)
    requires WellFormed(s)
    ensures |s.queues| == PRIORITY_LEVELS && s.idle in s.status && (s.current != null ==> s.current in s.status)
  {
  }

  lemma SoundIsWellFormed(s: State)
    requires Sound(s)
    ensures WellFormed(s)
  {
  }
}
