/** The provider table of wmi/wmi_provider.c: handles are places in it, and unregistering only
    shortens it from the end. */
module ProviderTable {
  import opened ByteMemory

  const MAX_PROVIDERS: int := 256

  datatype Status = Success | InvalidParameter | InvalidHandle | NameCollision | InsufficientResources | NotFound

  datatype Provider = Provider(guid: nat, handle: nat, active: bool)

  type Table = seq<Provider>

  predicate Knows(t: Table, guid: nat) {
    exists i :: 0 <= i < |t| && t[i].guid == guid
  }

  /** Handles count places from 1; no GUID is in the table twice. */
  predicate Sound(t: Table) {
    && |t| <= MAX_PROVIDERS
    && (forall i :: 0 <= i < |t| ==> t[i].handle == i + 1)
    && (forall i, j :: 0 <= i < j < |t| ==> t[i].guid != t[j].guid)
  }

  /** The place a handle names, computed in 32 bits. */
  function Place(handle: nat): nat {
    (handle % TWO_32 - 1) % TWO_32
  }

  predicate Names(t: Table, handle: nat) {
    handle > 0 && Place(handle) < |t| && t[Place(handle)].handle == handle
  }

  function RegisterStatus(t: Table, guid: nat): Status {
    if Knows(t, guid) then NameCollision else if |t| >= MAX_PROVIDERS then InsufficientResources else Success
  }

  function Register(t: Table, guid: nat): Table {
    if RegisterStatus(t, guid) == Success then t + [Provider(guid, |t| + 1, true)] else t
  }

  function UnregisterStatus(t: Table, handle: nat): Status {
    if handle == 0 then InvalidParameter else if Names(t, handle) then Success else InvalidHandle
  }

  function Unregister(t: Table, handle: nat): Table {
    if !Names(t, handle) then t
    else if Place(handle) == |t| - 1 then t[..|t| - 1]
    else t[Place(handle) := t[Place(handle)].(active := false)]
  }

  /** In a sound table a handle names exactly the place before it. */
  lemma NamesExactly(t: Table, handle: nat)
    requires Sound(t)
    ensures Names(t, handle) <==> 1 <= handle <= |t|
    ensures Names(t, handle) ==> Place(handle) == handle - 1
  {
  }

  lemma RegisterSound(t: Table, guid: nat)
    requires Sound(t)
    ensures Sound(Register(t, guid))
  {
  }

  lemma UnregisterSound(t: Table, handle: nat)
    requires Sound(t)
    ensures Sound(Unregister(t, handle))
  {
    NamesExactly(t, handle);
  }

  datatype Op = RegisterOp(guid: nat) | UnregisterOp(handle: nat)

  function Step(t: Table, op: Op): Table {
    match op
    case RegisterOp(g) => Register(t, g)
    case UnregisterOp(h) => Unregister(t, h)
  }

  function Run(t: Table, ops: seq<Op>): Table
    decreases |ops|
  {
    if ops == [] then t else Run(Step(t, ops[0]), ops[1..])
  }

  predicate ActiveAs(t: Table, handle: nat, guid: nat) {
    1 <= handle <= |t| && t[handle - 1] == Provider(guid, handle, true)
  }

  /** Until its own handle is unregistered, a provider stays active under that handle, whatever
      else comes and goes. */
  lemma {:induction false} HandleStays(t: Table, ops: seq<Op>, handle: nat, guid: nat)
    requires Sound(t) && ActiveAs(t, handle, guid) && UnregisterOp(handle) !in ops
    ensures Sound(Run(t, ops)) && ActiveAs(Run(t, ops), handle, guid)
    decreases |ops|
  {
    if ops != [] {
      match ops[0] {
        case RegisterOp(g) => RegisterSound(t, g);
        case UnregisterOp(h) =>
          UnregisterSound(t, h);
          NamesExactly(t, h);
      }
      HandleStays(Step(t, ops[0]), ops[1..], handle, guid);
    }
  }

  /** An unregistered GUID can be registered again at once exactly when its provider was the last
      in the table; otherwise its dead entry keeps colliding. */
  lemma ReRegisterExactly(t: Table, handle: nat)
    requires Sound(t) && Names(t, handle)
    ensures RegisterStatus(Unregister(t, handle), t[Place(handle)].guid) == Success <==> handle == |t|
  {
    NamesExactly(t, handle);
    var u := Unregister(t, handle);
    if handle < |t| {
      assert u[handle - 1].guid == t[handle - 1].guid;
    }
  }

  /** Unregistering an active provider and registering its GUID again restores the table exactly
      when the provider was the last in it. */
  lemma {:induction false} OutAndBackExactly(t: Table, handle: nat)
    requires Sound(t) && 1 <= handle <= |t| && t[handle - 1].active
    ensures Run(t, [UnregisterOp(handle), RegisterOp(t[handle - 1].guid)]) == t <==> handle == |t|
  {
    hide Unregister, Register, Names;
    var guid := t[handle - 1].guid;
    NamesExactly(t, handle);
    TwoSteps(t, UnregisterOp(handle), RegisterOp(guid));
    ReRegisterExactly(t, handle);
    UnregisterAt(t, handle);
    RegisterAt(Unregister(t, handle), guid);
    if handle == |t| {
      assert t[..|t| - 1] + [t[|t| - 1]] == t;
    }
  }

  lemma TwoSteps(t: Table, op: Op, next: Op)
    ensures Run(t, [op, next]) == Step(Step(t, op), next)
  {
    assert [op, next][1..] == [next] && [next][1..] == [];
    assert Run(Step(t, op), [next]) == Run(Step(Step(t, op), next), []);
  }

  lemma UnregisterAt(t: Table, handle: nat)
    requires Sound(t) && 1 <= handle <= |t|
    ensures Unregister(t, handle)
         == if handle == |t| then t[..|t| - 1] else t[handle - 1 := t[handle - 1].(active := false)]
  {
    NamesExactly(t, handle);
  }

  lemma RegisterAt(t: Table, guid: nat)
    ensures Register(t, guid)
         == if RegisterStatus(t, guid) == Success then t + [Provider(guid, |t| + 1, true)] else t
  {
  }

  class Registry {
    const table: array<Provider>
    var count: nat

    ghost predicate Valid()
      reads this, table
    {
      table.Length == MAX_PROVIDERS && count <= MAX_PROVIDERS && Sound(table[..count])
    }

    ghost function Contents(): Table
      requires Valid()
      reads this, table
    {
      table[..count]
    }

    constructor ()
      ensures Valid() && Contents() == []
    {
      table := new Provider[MAX_PROVIDERS](_ => Provider(0, 0, false));
      count := 0;
    }

    /** WmiRegisterProvider */
    method RegisterProvider(guid: nat) returns (status: Status, handle: nat)
      requires Valid()
      modifies this, table
      ensures Valid() && Contents() == Register(old(Contents()), guid)
      ensures status == RegisterStatus(old(Contents()), guid)
      ensures status == Success ==> ActiveAs(Contents(), handle, guid)
      ensures status == if exists i :: 0 <= i < |old(Contents())| && old(Contents())[i].guid == guid then NameCollision
                        else if |old(Contents())| >= 256 then InsufficientResources else Success
      ensures status == Success ==>
        handle == |old(Contents())| + 1 && Contents() == old(Contents()) + [Provider(guid, handle, true)]
      ensures status != Success ==> Contents() == old(Contents())
    {
      hide Sound;
      ghost var before := table[..count];
      RegisterSound(before, guid);
      handle := 0;
      var i := 0;
      while i < count
        invariant 0 <= i <= count
        invariant forall k :: 0 <= k < i ==> table[k].guid != guid
      {
        if table[i].guid == guid {
          assert before[i].guid == guid;
          return NameCollision, handle;
        }
        i := i + 1;
      }
      assert !Knows(before, guid);
      if count >= MAX_PROVIDERS {
        return InsufficientResources, handle;
      }
      handle := count + 1;
      table[count] := Provider(guid, handle, true);
      count := count + 1;
      assert table[..count] == before + [Provider(guid, handle, true)];
      status := Success;
    }

    /** WmiUnregisterProvider */
    method UnregisterProvider(handle: nat) returns (status: Status)
      requires Valid()
      modifies this, table
      ensures Valid() && Contents() == Unregister(old(Contents()), handle)
      ensures status == UnregisterStatus(old(Contents()), handle)
      ensures status == if handle == 0 then InvalidParameter
                        else if handle <= |old(Contents())| then Success else InvalidHandle
      ensures Contents() == if status != Success then old(Contents())
                            else if handle == |old(Contents())| then old(Contents())[..handle - 1]
                            else old(Contents())[handle - 1 := old(Contents())[handle - 1].(active := false)]
    {
      hide Sound, Place;
      ghost var before := table[..count];
      UnregisterSound(before, handle);
      NamesExactly(before, handle);
      PlaceBound(handle);
      if handle == 0 {
        return InvalidParameter;
      }
      var index := Place(handle);
      if index >= count {
        return InvalidHandle;
      }
      if table[index].handle != handle {
        return InvalidHandle;
      }
      table[index] := table[index].(active := false);
      if index == count - 1 {
        count := count - 1;
        assert table[..count] == before[..|before| - 1];
      } else {
        assert table[..count] == before[index := before[index].(active := false)];
      }
      status := Success;
    }

    /** WmiFindProvider: the one active provider of that GUID, or none. */
    method FindProvider(guid: nat) returns (status: Status, handle: nat)
      requires Valid()
      ensures status == Success || status == NotFound
      ensures status == Success ==> ActiveAs(Contents(), handle, guid)
      ensures status == NotFound ==> forall h :: !ActiveAs(Contents(), h, guid)
      ensures status == Success ==>
        1 <= handle <= |Contents()| && Contents()[handle - 1] == Provider(guid, handle, true)
      ensures status == NotFound ==>
        forall i :: 0 <= i < |Contents()| ==> !Contents()[i].active || Contents()[i].guid != guid
    {
      handle := 0;
      var i := 0;
      while i < count
        invariant 0 <= i <= count
        invariant forall k :: 0 <= k < i ==> !(table[k].active && table[k].guid == guid)
      {
        if table[i].active && table[i].guid == guid {
          assert table[..count][i] == table[i];
          return Success, table[i].handle;
        }
        i := i + 1;
      }
      status := NotFound;
    }

    /** The check WmiFireEvent makes of its provider handle. */
    method IsActive(handle: nat) returns (active: bool)
      requires Valid()
      ensures active <==> exists guid :: ActiveAs(Contents(), handle, guid)
      ensures active <==> 1 <= handle <= |Contents()| && Contents()[handle - 1].active
    {
      hide Place;
      ghost var t := table[..count];
      NamesExactly(t, handle);
      PlaceBound(handle);
      if handle == 0 {
        return false;
      }
      var index := Place(handle);
      if index >= count {
        return false;
      }
      if table[index].handle != handle || !table[index].active {
        return false;
      }
      assert Names(t, handle);
      assert ActiveAs(Contents(), handle, t[index].guid);
      active := true;
    }
  }

  lemma PlaceBound(handle: nat)
    ensures 0 <= Place(handle) < TWO_32
  {
  }
}
