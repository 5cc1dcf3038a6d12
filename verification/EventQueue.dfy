/** The event queue of wmi/wmi_provider.c in its own form: a doubly linked list with a head, a
    tail and a count. */
module EventQueue {
  import opened ByteMemory
  import opened EventLog
  import opened Lists

  /** sizeof(WMI_EVENT_ENTRY) */
  const ENTRY_SIZE: int := 88

  datatype Status = Success | Timeout | WaitFailed | NoMoreEntries | BufferTooSmall | InsufficientResources

  /** How the wait for the availability event ended. */
  datatype Wait = Signalled | TimedOut | Failed

  class Entry {
    const event: Event
    var next: Entry?
    var previous: Entry?

    constructor (e: Event)
      ensures event == e
    {
      event, next, previous := e, null, null;
    }
  }

  ghost predicate LinkedAt(q: seq<Entry>, i: nat)
    requires i < |q|
    reads q`next, q`previous
  {
    q[i].next == At(q, i + 1) && q[i].previous == At(q, i - 1)
  }

  class Queue {
    var head: Entry?
    var tail: Entry?
    var count: nat
    ghost var entries: seq<Entry>
    ghost var log: Log

    ghost predicate Linked()
      reads this`head, this`tail, this`count, this`entries, entries`next, entries`previous
    {
      && head == At(entries, 0)
      && tail == At(entries, |entries| - 1)
      && count == |entries|
      && Distinct(entries)
      && (forall i :: 0 <= i < |entries| ==> LinkedAt(entries, i))
    }

    /** The list holds, in order, exactly the events the log says are queued. */
    ghost predicate Valid()
      reads this, entries
    {
      && Linked()
      && Faithful(log)
      && |entries| == |EventLog.Queue(log)|
      && (forall i :: 0 <= i < |entries| ==> entries[i].event == EventLog.Queue(log)[i])
    }

    constructor ()
      ensures Valid() && entries == [] && log == Log([], 0, [])
    {
      head, tail, count, entries, log := null, null, 0, [], Log([], 0, []);
    }

    /** The first entry leaves the list. */
    method RemoveHead() returns (first: Entry)
      requires Linked() && count > 0
      modifies this`head, this`tail, this`count, this`entries, entries
      ensures Linked() && first == old(entries[0]) && entries == old(entries[1..])
    {
      assert LinkedAt(entries, 0);
      ghost var q := entries;
      first := head;
      head := first.next;
      if head != null {
        head.previous := null;
      } else {
        tail := null;
      }
      count := count - 1;
      entries := q[1..];
      forall i | 0 <= i < |entries|
        ensures LinkedAt(entries, i)
      {
        assert old(LinkedAt(q, i + 1));
        assert entries[i] == q[i + 1];
      }
    }

    /** A new entry joins the list at its tail. */
    method AddTail(entry: Entry)
      requires Linked() && entry !in entries
      modifies this`head, this`tail, this`count, this`entries, entries, entry
      ensures Linked() && entries == old(entries) + [entry]
    {
      ghost var q := entries;
      entry.next := null;
      entry.previous := tail;
      if tail != null {
        tail.next := entry;
      } else {
        head := entry;
      }
      tail := entry;
      count := count + 1;
      entries := q + [entry];
      forall i | 0 <= i < |entries|
        ensures LinkedAt(entries, i)
      {
        if i < |q| {
          assert old(LinkedAt(q, i));
          assert entries[i] == q[i];
        }
      }
    }

    /** The queueing half of WmiFireEvent; hasMemory says whether the entry could be had. */
    method FireEvent(event: Event, hasMemory: bool) returns (status: Status)
      requires Valid()
      modifies this, entries
      ensures Valid()
      ensures status == if hasMemory then Success else InsufficientResources
      ensures log == if hasMemory then Fire(old(log), event) else old(log)
      ensures !hasMemory ==> entries == old(entries)
      ensures hasMemory ==>
        var kept := if |old(entries)| == 1024 then old(entries)[1..] else old(entries);
        && |entries| == |kept| + 1 <= 1024
        && entries[..|kept|] == kept && entries[|kept|].event == event
    {
      hide Linked, Faithful;
      if !hasMemory {
        return InsufficientResources;
      }
      CountIsLength();
      FireQueue(log, event);
      FaithfulBound(log);
      var entry := new Entry(event);
      if count >= MAX_EVENTS {
        var oldest := RemoveHead();
      }
      AddTail(entry);
      log := Fire(log, event);
      status := Success;
    }

    /** What the links are: each entry knows the next and the previous one, the first and the last
        of all are head and tail, and beyond them is null. */
    lemma Links()
      requires Valid()
      ensures count == |entries| <= 1024
      ensures head == (if entries == [] then null else entries[0])
      ensures tail == (if entries == [] then null else entries[|entries| - 1])
      ensures forall i :: 0 <= i < |entries| ==>
        && entries[i].next == (if i + 1 < |entries| then entries[i + 1] else null)
        && entries[i].previous == (if i > 0 then entries[i - 1] else null)
    {
      forall i | 0 <= i < |entries|
        ensures entries[i].next == (if i + 1 < |entries| then entries[i + 1] else null)
        ensures entries[i].previous == (if i > 0 then entries[i - 1] else null)
      {
        assert LinkedAt(entries, i);
      }
    }

    lemma CountIsLength()
      requires Linked()
      ensures count == |entries|
    {
    }

    /** WmiGetNextEvent, given how the wait ended. */
    method GetNextEvent(bufferSize: nat, wait: Wait) returns (status: Status, size: nat, event: Event)
      requires Valid()
      modifies this, entries
      ensures Valid()
      ensures wait.TimedOut? ==> status == Timeout
      ensures wait.Failed? ==> status == WaitFailed
      ensures wait.Signalled? && old(log).start == |old(log).fired| ==> status == NoMoreEntries
      ensures wait.Signalled? && old(log).start < |old(log).fired| ==>
        && size == (88 + |old(log).fired[old(log).start].data|) % 0x1_0000_0000
        && status == if bufferSize < size then BufferTooSmall else Success
      ensures status != Success ==> log == old(log) && entries == old(entries)
      ensures status == Success ==> log == Deliver(old(log)) && event == old(log).fired[old(log).start]
      ensures status == Success ==> |old(entries)| > 0 && entries == old(entries)[1..] && event == old(entries)[0].event
      ensures wait.Signalled? && old(entries) == [] ==> status == NoMoreEntries
    {
      hide Linked, Faithful;
      size, event := bufferSize, Event(0, 0, []);
      match wait {
        case TimedOut => return Timeout, size, event;
        case Failed => return WaitFailed, size, event;
        case Signalled =>
      }
      CountIsLength();
      FaithfulBound(log);
      if count == 0 {
        return NoMoreEntries, size, event;
      }
      DeliverQueue(log);
      HeadIsFirst();
      size := Required(head.event);
      if bufferSize < size {
        return BufferTooSmall, size, event;
      }
      var first := RemoveHead();
      event := first.event;
      log := Deliver(log);
      status := Success;
    }

    lemma HeadIsFirst()
      requires Linked() && entries != []
      ensures head == entries[0]
    {
    }
  }

  lemma FaithfulBound(l: Log)
    requires Faithful(l)
    ensures l.start <= |l.fired| && |EventLog.Queue(l)| == |l.fired| - l.start <= MAX_EVENTS
  {
  }

  /** The size a caller must offer: a UINT32 sum. */
  function Required(e: Event): nat {
    (ENTRY_SIZE + |e.data|) % TWO_32
  }
}
