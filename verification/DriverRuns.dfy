/** The driver and device registry of kern/driver_core.c as a state machine: reference counts
    against the devices registered, over whole runs. */
module DriverRuns {
  import opened ByteMemory
  import opened Lists

  const MAX_DRIVERS: int := 128
  const MAX_DEVICES: int := 256

  type UInt32 = x: int | 0 <= x < TWO_32

  datatype Status = Ok | Invalid | NoMemory | Busy | NotFound

  datatype Name = NoName | Name(text: string)

  datatype DeviceState = Unknown | Present | Removed

  class Driver {
    const name: Name
    const hasRemove: bool
    var refCount: UInt32

    constructor (n: Name, callback: bool)
      ensures name == n && hasRemove == callback
    {
      name, hasRemove, refCount := n, callback, 0;
    }
  }

  class Device {
    const name: string
    const driver: Driver?
    var state: DeviceState

    constructor (n: string, d: Driver?)
      ensures name == n && driver == d && state == Unknown
    {
      name, driver, state := n, d, Unknown;
    }
  }

  /** The two registries, and the reference counts of the registered drivers. */
  datatype State = State(drivers: seq<Driver>, refs: map<Driver, UInt32>, devices: seq<Device>)

  predicate DriverNamed(ds: seq<Driver>, n: Name) {
    exists i :: 0 <= i < |ds| && ds[i].name == n
  }

  predicate DeviceNamed(ds: seq<Device>, n: string) {
    exists i :: 0 <= i < |ds| && ds[i].name == n
  }

  // ----- The operations

  function RegisterStatus(s: State, d: Driver): Status {
    if d.name.NoName? then Invalid
    else if |s.drivers| >= MAX_DRIVERS then NoMemory
    else if DriverNamed(s.drivers, d.name) then Busy
    else Ok
  }

  function Register(s: State, d: Driver): State {
    if RegisterStatus(s, d) != Ok then s
    else s.(drivers := s.drivers + [d], refs := s.refs[d := 0])
  }

  function UnregisterStatus(s: State, d: Driver): Status {
    if d !in s.drivers then NotFound
    else if d in s.refs && s.refs[d] > 0 then Busy
    else Ok
  }

  function Unregister(s: State, d: Driver): State {
    if UnregisterStatus(s, d) != Ok then s
    else s.(drivers := Without(s.drivers, d), refs := s.refs - {d})
  }

  function AddStatus(s: State, e: Device): Status {
    if e.name == "" then Invalid
    else if |s.devices| >= MAX_DEVICES then NoMemory
    else if DeviceNamed(s.devices, e.name) then Busy
    else Ok
  }

  /** One reference more, in 32 bits. */
  function Referenced(refs: map<Driver, UInt32>, d: Driver?): map<Driver, UInt32> {
    if d == null || d !in refs then refs else refs[d := (refs[d] + 1) % TWO_32]
  }

  /** One reference less, but only for drivers with a remove callback. */
  function Dereferenced(refs: map<Driver, UInt32>, d: Driver?): map<Driver, UInt32> {
    if d == null || d !in refs || !d.hasRemove then refs else refs[d := (refs[d] - 1) % TWO_32]
  }

  function Add(s: State, e: Device): State {
    if AddStatus(s, e) != Ok then s
    else s.(devices := s.devices + [e], refs := Referenced(s.refs, e.driver))
  }

  function RemoveStatus(s: State, e: Device): Status {
    if e !in s.devices then NotFound else Ok
  }

  function Remove(s: State, e: Device): State {
    if RemoveStatus(s, e) != Ok then s
    else s.(devices := Without(s.devices, e), refs := Dereferenced(s.refs, e.driver))
  }

  // ----- Counting

  /** How many registered devices use a driver. */
  function Uses(es: seq<Device>, d: Driver): nat {
    if es == [] then 0 else (if es[0].driver == d then 1 else 0) + Uses(es[1..], d)
  }

  lemma {:induction false} UsesAppend(es: seq<Device>, e: Device, d: Driver)
    ensures Uses(es + [e], d) == Uses(es, d) + (if e.driver == d then 1 else 0)
    decreases |es|
  {
    if es == [] {
      assert es + [e] == [e];
    } else {
      assert (es + [e])[1..] == es[1..] + [e];
      UsesAppend(es[1..], e, d);
    }
  }

  lemma {:induction false} UsesWithout(es: seq<Device>, e: Device, d: Driver)
    requires e in es
    ensures Uses(Without(es, e), d) == Uses(es, d) - (if e.driver == d then 1 else 0)
    decreases |es|
  {
    if es[0] != e {
      UsesWithout(es[1..], e, d);
      assert ([es[0]] + Without(es[1..], e))[1..] == Without(es[1..], e);
    }
  }

  lemma {:induction false} UsedBy(es: seq<Device>, e: Device, d: Driver)
    requires e in es && e.driver == d
    ensures Uses(es, d) > 0
    decreases |es|
  {
    if es[0] != e {
      UsedBy(es[1..], e, d);
    }
  }

  lemma {:induction false} UnusedBy(es: seq<Device>, d: Driver)
    requires Uses(es, d) == 0
    ensures forall e :: e in es ==> e.driver != d
    decreases |es|
  {
    if es != [] {
      UnusedBy(es[1..], d);
      assert forall e :: e in es ==> e == es[0] || e in es[1..];
    }
  }

  predicate UniqueDrivers(ds: seq<Driver>) {
    forall i, j :: 0 <= i < j < |ds| ==> ds[i].name != ds[j].name
  }

  predicate UniqueDevices(es: seq<Device>) {
    forall i, j :: 0 <= i < j < |es| ==> es[i].name != es[j].name
  }

  // ----- What every run keeps

  /** The count is exact for drivers with a remove callback, and never too low for others. */
  predicate CountFits(s: State, d: Driver) {
    && d in s.refs
    && Uses(s.devices, d) <= s.refs[d]
    && (d.hasRemove ==> s.refs[d] == Uses(s.devices, d))
  }

  /** Unique names, devices only under registered drivers, and fitting counts, none above n. */
  ghost predicate Safe(s: State, n: nat) {
    && |s.drivers| <= MAX_DRIVERS && |s.devices| <= MAX_DEVICES
    && UniqueDrivers(s.drivers) && UniqueDevices(s.devices)
    && (forall e :: e in s.devices && e.driver != null ==> e.driver in s.drivers)
    && (forall d :: d in s.drivers ==> CountFits(s, d) && s.refs[d] <= n)
    && (forall d :: d in s.refs ==> d in s.drivers)
  }

  datatype Op = RegisterOp(drv: Driver) | UnregisterOp(drv: Driver) | AddOp(dev: Device) | RemoveOp(dev: Device)

  /** Devices are added only under registered drivers, or under none. */
  predicate Legal(s: State, op: Op) {
    op.AddOp? && op.dev.driver != null ==> op.dev.driver in s.drivers
  }

  function Step(s: State, op: Op): State {
    match op
    case RegisterOp(d) => Register(s, d)
    case UnregisterOp(d) => Unregister(s, d)
    case AddOp(e) => Add(s, e)
    case RemoveOp(e) => Remove(s, e)
  }

  lemma RegisterSafe(s: State, d: Driver, n: nat)
    requires Safe(s, n)
    ensures Safe(Register(s, d), n)
  {
    hide CountFits;
    var r := Register(s, d);
    if RegisterStatus(s, d) == Ok {
      assert d !in s.drivers;
      NoDeviceYet(s, d, n);
      assert forall x :: x in s.drivers ==> CountFits(s, x);
      FitsAfterRegister(s, d);
    }
  }

  lemma NoDeviceYet(s: State, d: Driver, n: nat)
    requires Safe(s, n) && d !in s.drivers
    ensures Uses(s.devices, d) == 0
  {
    hide CountFits;
    assert forall e :: e in s.devices ==> e.driver != d;
    NoUses(s.devices, d);
  }

  lemma {:induction false} NoUses(es: seq<Device>, d: Driver)
    requires forall e :: e in es ==> e.driver != d
    ensures Uses(es, d) == 0
    decreases |es|
  {
    if es != [] {
      NoUses(es[1..], d);
    }
  }

  lemma FitsAfterRegister(s: State, d: Driver)
    requires RegisterStatus(s, d) == Ok && Uses(s.devices, d) == 0 && d !in s.drivers
    requires forall x :: x in s.drivers ==> CountFits(s, x)
    ensures forall x :: x in Register(s, d).drivers ==> CountFits(Register(s, d), x)
  {
  }

  lemma UnregisterSafe(s: State, d: Driver, n: nat)
    requires Safe(s, n)
    ensures Safe(Unregister(s, d), n)
  {
    if UnregisterStatus(s, d) == Ok {
      var i := WithoutAt(s.drivers, d);
      var r := Unregister(s, d);
      assert forall x :: x in r.drivers <==> x in s.drivers && x != d;
      UnusedBy(s.devices, d);
      UniqueKept(s.drivers, i);
    }
  }

  lemma UniqueKept(ds: seq<Driver>, i: nat)
    requires i < |ds| && UniqueDrivers(ds)
    ensures UniqueDrivers(ds[..i] + ds[i + 1..])
    ensures ds[i] !in ds[..i] + ds[i + 1..]
  {
    var r := ds[..i] + ds[i + 1..];
    forall j, k | 0 <= j < k < |r|
      ensures r[j].name != r[k].name
    {
      assert r[j] == ds[if j < i then j else j + 1] && r[k] == ds[if k < i then k else k + 1];
    }
  }

  lemma UniqueDevicesKept(es: seq<Device>, i: nat)
    requires i < |es| && UniqueDevices(es)
    ensures UniqueDevices(es[..i] + es[i + 1..])
  {
    var r := es[..i] + es[i + 1..];
    forall j, k | 0 <= j < k < |r|
      ensures r[j].name != r[k].name
    {
      assert r[j] == es[if j < i then j else j + 1] && r[k] == es[if k < i then k else k + 1];
    }
  }

  lemma AddSafe(s: State, e: Device, n: nat)
    requires Safe(s, n) && Legal(s, AddOp(e)) && n + 1 < TWO_32
    ensures Safe(Add(s, e), n + 1)
  {
    if AddStatus(s, e) == Ok {
      var r := Add(s, e);
      forall d | d in r.drivers
        ensures CountFits(r, d) && r.refs[d] <= n + 1
      {
        assert CountFits(s, d);
        UsesAppend(s.devices, e, d);
      }
    }
  }

  lemma RemoveSafe(s: State, e: Device, n: nat)
    requires Safe(s, n)
    ensures Safe(Remove(s, e), n)
  {
    if RemoveStatus(s, e) == Ok {
      var r := Remove(s, e);
      var i := WithoutAt(s.devices, e);
      UniqueDevicesKept(s.devices, i);
      forall d | d in r.drivers
        ensures CountFits(r, d) && r.refs[d] <= n
      {
        assert CountFits(s, d);
        UsesWithout(s.devices, e, d);
      }
    }
  }

  lemma StepSafe(s: State, op: Op, n: nat)
    requires Safe(s, n) && Legal(s, op) && n + 1 < TWO_32
    ensures Safe(Step(s, op), n + 1)
  {
    hide CountFits, Safe, Register, Unregister, Add, Remove;
    match op
    case RegisterOp(d) => RegisterSafe(s, d, n); SafeAbove(Register(s, d), n);
    case UnregisterOp(d) => UnregisterSafe(s, d, n); SafeAbove(Unregister(s, d), n);
    case AddOp(e) => AddSafe(s, e, n);
    case RemoveOp(e) => RemoveSafe(s, e, n); SafeAbove(Remove(s, e), n);
  }

  lemma SafeAbove(s: State, n: nat)
    requires Safe(s, n)
    ensures Safe(s, n + 1)
  {
  }

  function Run(s: State, ops: seq<Op>): State
    decreases |ops|
  {
    if ops == [] then s else Run(Step(s, ops[0]), ops[1..])
  }

  ghost predicate LegalRun(s: State, ops: seq<Op>)
    decreases |ops|
  {
    ops != [] ==> Legal(s, ops[0]) && LegalRun(Step(s, ops[0]), ops[1..])
  }

  /** Safety over whole runs, as long as the 32-bit counts cannot have come round. */
  lemma {:induction false} RunSafe(s: State, ops: seq<Op>, n: nat)
    requires Safe(s, n) && LegalRun(s, ops) && n + |ops| < TWO_32
    ensures Safe(Run(s, ops), n + |ops|)
    decreases |ops|
  {
    hide Safe, Legal, Step;
    if ops != [] {
      StepSafe(s, ops[0], n);
      RunSafe(Step(s, ops[0]), ops[1..], n + 1);
    }
  }

  /** Adding a device and removing it again is always a legal run for a known driver, and restores
      the registries exactly when the device has no driver or one with a remove callback. */
  lemma {:induction false} AddThenRemove(s: State, e: Device, n: nat)
    requires Safe(s, n) && n + 1 < TWO_32
    requires e.name != "" && |s.devices| < 256 && forall i :: 0 <= i < |s.devices| ==> s.devices[i].name != e.name
    requires e.driver == null || e.driver in s.drivers
    ensures LegalRun(s, [AddOp(e), RemoveOp(e)])
    ensures Run(s, [AddOp(e), RemoveOp(e)]) == s <==> e.driver == null || e.driver.hasRemove
  {
    hide Safe, Without, CountFits;
    var r := Add(s, e);
    assert AddStatus(s, e) == Ok;
    assert [AddOp(e), RemoveOp(e)][1..] == [RemoveOp(e)] && [RemoveOp(e)][1..] == [];
    assert Run(r, [RemoveOp(e)]) == Run(Remove(r, e), []);
    assert Run(s, [AddOp(e), RemoveOp(e)]) == Run(r, [RemoveOp(e)]);
    assert LegalRun(Remove(r, e), []);
    assert LegalRun(r, [RemoveOp(e)]);
    assert r.devices[..|s.devices|] == s.devices && r.devices[|s.devices|] == e;
    WithoutFirst(r.devices, |s.devices|);
    assert r.devices[..|s.devices|] + r.devices[|s.devices| + 1..] == s.devices;
    assert Remove(r, e).devices == s.devices;
    if e.driver != null {
      CountKnown(s, e.driver, n);
      CountUpDown(s.refs, e.driver);
    }
  }

  lemma CountUpDown(refs: map<Driver, UInt32>, d: Driver)
    requires d in refs && refs[d] < TWO_32 - 1
    ensures Dereferenced(Referenced(refs, d), d) == refs <==> d.hasRemove
  {
    var up := Referenced(refs, d);
    assert up[d] == refs[d] + 1;
    if d.hasRemove {
      assert Dereferenced(up, d) == refs;
    }
  }

  /** While a registered device uses a driver, unregistering the driver is refused. */
  lemma UsedDriverStays(s: State, e: Device, n: nat)
    requires Safe(s, n) && e in s.devices && e.driver != null
    ensures e.driver in s.drivers && UnregisterStatus(s, e.driver) == Busy && Unregister(s, e.driver) == s
  {
    assert CountFits(s, e.driver);
    UsedBy(s.devices, e, e.driver);
  }

  /** A driver with a remove callback can go exactly when no device uses it. */
  lemma UnregisterExactly(s: State, d: Driver, n: nat)
    requires Safe(s, n) && d in s.drivers && d.hasRemove
    ensures UnregisterStatus(s, d) == Ok <==> forall e :: e in s.devices ==> e.driver != d
  {
    assert CountFits(s, d);
    if Uses(s.devices, d) == 0 {
      UnusedBy(s.devices, d);
    } else if forall e :: e in s.devices ==> e.driver != d {
      NoUses(s.devices, d);
    }
  }

  /** Removing a device never lowers the count of a driver without a callback: once such a driver
      has had a device it is never unregistered again. */
  lemma {:induction false} WithoutCallbackPinned(s: State, ops: seq<Op>, n: nat, d: Driver)
    requires Safe(s, n) && LegalRun(s, ops) && n + |ops| < TWO_32
    requires d in s.drivers && !d.hasRemove && s.refs[d] > 0
    ensures d in Run(s, ops).drivers && d in Run(s, ops).refs && Run(s, ops).refs[d] >= s.refs[d]
    decreases |ops|
  {
    hide Legal, Step, CountFits, Safe;
    CountKnown(s, d, n);
    if ops != [] {
      StepSafe(s, ops[0], n);
      StepPinned(s, ops[0], d);
      WithoutCallbackPinned(Step(s, ops[0]), ops[1..], n + 1, d);
    }
  }

  lemma CountKnown(s: State, d: Driver, n: nat)
    requires Safe(s, n) && d in s.drivers
    ensures d in s.refs && s.refs[d] <= n
  {
    assert CountFits(s, d);
  }

  lemma StepPinned(s: State, op: Op, d: Driver)
    requires d in s.drivers && d in s.refs && !d.hasRemove && 0 < s.refs[d] < TWO_32 - 1
    ensures d in Step(s, op).drivers && d in Step(s, op).refs && Step(s, op).refs[d] >= s.refs[d]
  {
    match op
    case RegisterOp(x) =>
      if x == d {
        var k :| 0 <= k < |s.drivers| && s.drivers[k] == d;
        assert DriverNamed(s.drivers, x.name);
      }
    case UnregisterOp(x) =>
      if UnregisterStatus(s, x) == Ok {
        StaysIn(s.drivers, x, d);
      }
    case AddOp(e) =>
    case RemoveOp(e) =>
  }
}
