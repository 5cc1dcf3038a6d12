/** The history of the WMI event queue of wmi/wmi_provider.c: what was fired, what was handed
    out, and what the bounded queue between them can hold. */
module EventLog {
  import opened ByteMemory

  const MAX_EVENTS: int := 1024

  datatype Event = Event(provider: nat, kind: nat, data: Image)

  /** Everything fired so far, the place of the oldest event still queued, and the places of the
      events delivered, in the order they were. */
  datatype Log = Log(fired: seq<Event>, start: nat, delivered: seq<nat>)

  /** The queue is the rest of the history from `start` on. */
  function Queue(l: Log): seq<Event>
    requires l.start <= |l.fired|
  {
    l.fired[l.start..]
  }

  function Fire(l: Log, e: Event): Log {
    Log(l.fired + [e], if |l.fired| - l.start >= MAX_EVENTS then l.start + 1 else l.start, l.delivered)
  }

  function Deliver(l: Log): Log {
    Log(l.fired, l.start + 1, l.delivered + [l.start])
  }

  predicate Increasing(places: seq<nat>) {
    forall i, j :: 0 <= i < j < |places| ==> places[i] < places[j]
  }

  /** A bounded suffix is queued; what was delivered came before it, each once, in fire order. */
  predicate Faithful(l: Log) {
    && l.start <= |l.fired| <= l.start + MAX_EVENTS
    && Increasing(l.delivered)
    && (forall i :: 0 <= i < |l.delivered| ==> l.delivered[i] < l.start)
  }

  datatype Op = FireOp(event: Event) | DeliverOp

  /** Delivering from an empty queue changes nothing. */
  function Step(l: Log, op: Op): Log {
    match op
    case FireOp(e) => Fire(l, e)
    case DeliverOp => if l.start < |l.fired| then Deliver(l) else l
  }

  function Run(l: Log, ops: seq<Op>): Log
    decreases |ops|
  {
    if ops == [] then l else Run(Step(l, ops[0]), ops[1..])
  }

  /** Firing into a full queue takes the oldest event out, otherwise none. */
  lemma FireQueue(l: Log, e: Event)
    requires Faithful(l)
    ensures Faithful(Fire(l, e))
    ensures Queue(Fire(l, e)) == (if |Queue(l)| == 1024 then Queue(l)[1..] else Queue(l)) + [e]
  {
    hide Increasing;
    assert (l.fired + [e])[l.start..] == l.fired[l.start..] + [e];
    if |Queue(l)| == MAX_EVENTS {
      assert (l.fired + [e])[l.start + 1..] == l.fired[l.start..][1..] + [e];
    }
  }

  lemma DeliverQueue(l: Log)
    requires Faithful(l) && l.start < |l.fired|
    ensures Faithful(Deliver(l)) && Queue(Deliver(l)) == Queue(l)[1..] && l.fired[l.start] == Queue(l)[0]
  {
    var d := Deliver(l).delivered;
    forall i, j | 0 <= i < j < |d|
      ensures d[i] < d[j]
    {
      if j < |l.delivered| {
        assert l.delivered[i] < l.delivered[j];
      }
    }
  }

  /** Whatever is fired and fetched, the queue stays a suffix of at most 1024 events, and
      deliveries stay in fire order with no event twice. */
  lemma {:induction false} RunFaithful(l: Log, ops: seq<Op>)
    requires Faithful(l)
    ensures Faithful(Run(l, ops)) && Run(l, ops).start <= |Run(l, ops).fired| <= Run(l, ops).start + 1024
    ensures l.fired <= Run(l, ops).fired && l.delivered <= Run(l, ops).delivered
    decreases |ops|
  {
    hide Increasing, Queue, Step;
    if ops != [] {
      StepFaithful(l, ops[0]);
      RunFaithful(Step(l, ops[0]), ops[1..]);
    }
  }

  lemma StepFaithful(l: Log, op: Op)
    requires Faithful(l)
    ensures Faithful(Step(l, op))
    ensures l.fired <= Step(l, op).fired && l.delivered <= Step(l, op).delivered
  {
    hide Increasing, Queue;
    match op
    case FireOp(e) => FireQueue(l, e);
    case DeliverOp =>
      if l.start < |l.fired| {
        DeliverQueue(l);
      }
  }

  /** Nothing was pushed out so far: every event before the queue was delivered. */
  predicate Complete(l: Log) {
    l.start == |l.delivered| && forall i :: 0 <= i < |l.delivered| ==> l.delivered[i] == i
  }

  /** No step fires into a full queue. */
  predicate NeverFull(l: Log, ops: seq<Op>)
    decreases |ops|
  {
    ops != [] ==>
      && (ops[0].FireOp? ==> |l.fired| - l.start < MAX_EVENTS)
      && NeverFull(Step(l, ops[0]), ops[1..])
  }

  /** Events before the queue that were not delivered. */
  function Lost(l: Log): int {
    l.start - |l.delivered|
  }

  lemma {:induction false} LostStays(l: Log, ops: seq<Op>)
    ensures Lost(Run(l, ops)) >= Lost(l)
    decreases |ops|
  {
    if ops != [] {
      LostStays(Step(l, ops[0]), ops[1..]);
    }
  }

  /** Every event is delivered before the ones still queued exactly when the queue never overflows. */
  lemma {:induction false} RunComplete(l: Log, ops: seq<Op>)
    requires Complete(l)
    ensures Complete(Run(l, ops)) <==> NeverFull(l, ops)
    decreases |ops|
  {
    if ops != [] {
      var s := Step(l, ops[0]);
      if ops[0].FireOp? && |l.fired| - l.start >= MAX_EVENTS {
        LostStays(s, ops[1..]);
      } else {
        assert Complete(s);
        RunComplete(s, ops[1..]);
      }
    }
  }

  /** From the start: no event is ever lost, and they are handed out one by one from the first,
      exactly when no event is fired into a full queue. */
  lemma FreshRunComplete(ops: seq<Op>)
    ensures var r := Run(Log([], 0, []), ops);
      (r.start == |r.delivered| && forall i :: 0 <= i < |r.delivered| ==> r.delivered[i] == i)
      <==> NeverFull(Log([], 0, []), ops)
  {
    RunComplete(Log([], 0, []), ops);
  }

  /** One event fired into a full queue is one event that is never delivered. */
  lemma OverflowLoses(l: Log, e: Event, ops: seq<Op>)
    requires Faithful(l) && |l.fired| - l.start == 1024
    ensures l.start !in Run(Fire(l, e), ops).delivered
  {
    hide Increasing, Queue;
    FireQueue(l, e);
    assert l.start !in l.delivered;
    NeverAgain(Fire(l, e), ops, l.start);
  }

  lemma {:induction false} NeverAgain(l: Log, ops: seq<Op>, place: nat)
    requires place < l.start && place !in l.delivered
    ensures place !in Run(l, ops).delivered
    decreases |ops|
  {
    if ops != [] {
      NeverAgain(Step(l, ops[0]), ops[1..], place);
    }
  }
}
