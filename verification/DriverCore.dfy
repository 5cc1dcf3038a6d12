/** kern/driver_core.c in its own form: two fixed tables of pointers, shifted down on removal. */
module DriverCore {
  import opened ByteMemory
  import opened DriverRuns
  import opened Lists

  /** The shifting loop: entry i of the first n goes, the ones after it move down. */
  method ShiftOut<T>(table: array<T>, i: nat, n: nat)
    requires i < n <= table.Length
    modifies table
    ensures forall k :: 0 <= k < i ==> table[k] == old(table[k])
    ensures forall k :: i <= k < n - 1 ==> table[k] == old(table[k + 1])
  {
    var j := i;
    while j < n - 1
      invariant i <= j <= n - 1
      invariant forall k :: 0 <= k < i ==> table[k] == old(table[k])
      invariant forall k :: i <= k < j ==> table[k] == old(table[k + 1])
      invariant forall k :: j <= k < n ==> table[k] == old(table[k])
    {
      table[j] := table[j + 1];
      j := j + 1;
    }
  }

  /** The first entries of a pointer table. */
  ghost predicate Holds<T>(table: array<T>, s: seq<T>)
    reads table
  {
    |s| <= table.Length && forall i :: 0 <= i < |s| ==> table[i] == s[i]
  }

  /** Entry i shifted out of a table holding s. */
  method Drop<T>(table: array<T>, ghost s: seq<T>, i: nat, n: nat)
    requires Holds(table, s) && i < |s| == n
    modifies table
    ensures Holds(table, s[..i] + s[i + 1..])
  {
    ShiftOut(table, i, n);
  }

  lemma OnlyOneGoes(es: seq<Device>, i: nat)
    requires i < |es| && UniqueDevices(es)
    ensures es[i] !in es[..i] + es[i + 1..]
    ensures forall e :: e in es && e != es[i] ==> e in es[..i] + es[i + 1..]
  {
    assert es == es[..i] + [es[i]] + es[i + 1..];
  }

  class Core {
    const drivers: array<Driver?>
    const devices: array<Device?>
    var driverCount: nat
    var deviceCount: nat
    ghost var driverList: seq<Driver>
    ghost var deviceList: seq<Device>

    ghost predicate Valid()
      reads this, drivers, devices
    {
      && drivers.Length == MAX_DRIVERS && devices.Length == MAX_DEVICES
      && driverCount == |driverList| && Holds(drivers, driverList) && UniqueDrivers(driverList)
      && deviceCount == |deviceList| && Holds(devices, deviceList) && UniqueDevices(deviceList)
    }

    ghost function Abs(): State
      reads this, driverList`refCount
    {
      State(driverList, map d | d in driverList :: d.refCount, deviceList)
    }

    constructor ()
      ensures Valid() && Abs() == State([], map[], []) && Safe(Abs(), 0)
    {
      drivers := new Driver?[MAX_DRIVERS](_ => null);
      devices := new Device?[MAX_DEVICES](_ => null);
      driverCount, deviceCount := 0, 0;
      driverList, deviceList := [], [];
    }

    /** aur_driver_register */
    method RegisterDriver(drv: Driver) returns (status: Status)
      requires Valid()
      modifies this, drivers, drv`refCount
      ensures Valid() && Abs() == Register(old(Abs()), drv)
      ensures status == RegisterStatus(old(Abs()), drv)
      ensures status == if drv.name.NoName? then Invalid else if |old(driverList)| >= 128 then NoMemory
                        else if exists i :: 0 <= i < |old(driverList)| && old(driverList)[i].name == drv.name then Busy
                        else Ok
      ensures driverList == if status == Ok then old(driverList) + [drv] else old(driverList)
      ensures deviceList == old(deviceList) && drv.refCount == if status == Ok then 0 else old(drv.refCount)
    {
      if drv.name.NoName? {
        return Invalid;
      }
      if driverCount >= MAX_DRIVERS {
        return NoMemory;
      }
      var i := 0;
      while i < driverCount
        invariant 0 <= i <= driverCount
        invariant forall k :: 0 <= k < i ==> driverList[k].name != drv.name
      {
        if drivers[i].name == drv.name {
          return Busy;
        }
        i := i + 1;
      }
      assert !DriverNamed(driverList, drv.name);
      drv.refCount := 0;
      drivers[driverCount] := drv;
      driverCount := driverCount + 1;
      driverList := driverList + [drv];
      status := Ok;
      assert Abs().refs == old(Abs()).refs[drv := 0];
    }

    /** aur_driver_unregister */
    method UnregisterDriver(drv: Driver) returns (status: Status)
      requires Valid()
      modifies this, drivers
      ensures Valid() && Abs() == Unregister(old(Abs()), drv)
      ensures status == UnregisterStatus(old(Abs()), drv)
      ensures status == if drv !in old(driverList) then NotFound else if drv.refCount > 0 then Busy else Ok
      ensures deviceList == old(deviceList) && (status != Ok ==> driverList == old(driverList))
      ensures status == Ok ==> |driverList| == |old(driverList)| - 1 && drv !in driverList
      ensures forall d :: d in old(driverList) && d != drv ==> d in driverList
    {
      hide Without, DriverNamed, UniqueDrivers, UniqueDevices;
      var i := 0;
      while i < driverCount
        invariant 0 <= i <= driverCount && Valid() && Abs() == old(Abs())
        invariant drv !in driverList[..i]
      {
        if drivers[i] == drv {
          assert drv in driverList;
          if drv.refCount > 0 {
            return Busy;
          }
          WithoutFirst(driverList, i);
          UniqueKept(driverList, i);
          Drop(drivers, driverList, i, driverCount);
          driverCount := driverCount - 1;
          driverList := driverList[..i] + driverList[i + 1..];
          assert Abs().refs == old(Abs()).refs - {drv};
          return Ok;
        }
        i := i + 1;
      }
      status := NotFound;
    }

    /** One reference more for the driver of a device, if it has one. */
    method Reference(d: Driver?)
      modifies (if d == null then {} else {d})`refCount
      ensures Abs() == old(Abs()).(refs := Referenced(old(Abs()).refs, d))
      ensures d != null ==> d.refCount == (old(d.refCount) + 1) % 0x1_0000_0000
    {
      if d != null {
        d.refCount := (d.refCount + 1) % TWO_32;
      }
      assert Abs().refs == Referenced(old(Abs()).refs, d);
    }

    /** One reference less, if there is a driver and it has a remove callback. */
    method Dereference(d: Driver?)
      modifies (if d == null then {} else {d})`refCount
      ensures Abs() == old(Abs()).(refs := Dereferenced(old(Abs()).refs, d))
      ensures d != null ==>
        d.refCount == if d.hasRemove then (old(d.refCount) - 1) % 0x1_0000_0000 else old(d.refCount)
    {
      if d != null && d.hasRemove {
        d.refCount := (d.refCount - 1) % TWO_32;
      }
      assert Abs().refs == Dereferenced(old(Abs()).refs, d);
    }

    /** The device in place i leaves its table. */
    method DropDevice(i: nat)
      requires Valid() && i < deviceCount && deviceList[i] !in deviceList[..i]
      modifies this`deviceCount, this`deviceList, devices
      ensures Valid() && deviceList == Without(old(deviceList), old(deviceList[i]))
      ensures |deviceList| == |old(deviceList)| - 1 && old(deviceList[i]) !in deviceList
      ensures forall e :: e in old(deviceList) && e != old(deviceList[i]) ==> e in deviceList
    {
      hide Without, UniqueDrivers, UniqueDevices;
      OnlyOneGoes(deviceList, i);
      WithoutFirst(deviceList, i);
      UniqueDevicesKept(deviceList, i);
      Drop(devices, deviceList, i, deviceCount);
      deviceCount := deviceCount - 1;
      deviceList := deviceList[..i] + deviceList[i + 1..];
    }

    /** aur_device_add */
    method AddDevice(dev: Device) returns (status: Status)
      requires Valid()
      modifies this, devices, dev`state, (if dev.driver == null then {} else {dev.driver})`refCount
      ensures Valid() && Abs() == Add(old(Abs()), dev)
      ensures status == AddStatus(old(Abs()), dev)
      ensures dev.state == if status == Ok then Present else old(dev.state)
      ensures status == if dev.name == "" then Invalid else if |old(deviceList)| >= 256 then NoMemory
                        else if exists i :: 0 <= i < |old(deviceList)| && old(deviceList)[i].name == dev.name then Busy
                        else Ok
      ensures driverList == old(driverList)
      ensures deviceList == if status == Ok then old(deviceList) + [dev] else old(deviceList)
      ensures dev.driver != null ==>
        dev.driver.refCount == if status == Ok then (old(dev.driver.refCount) + 1) % 0x1_0000_0000
                               else old(dev.driver.refCount)
    {
      hide UniqueDrivers, Referenced;
      if dev.name == "" {
        return Invalid;
      }
      if deviceCount >= MAX_DEVICES {
        return NoMemory;
      }
      var i := 0;
      while i < deviceCount
        invariant 0 <= i <= deviceCount
        invariant forall k :: 0 <= k < i ==> deviceList[k].name != dev.name
      {
        if devices[i].name == dev.name {
          return Busy;
        }
        i := i + 1;
      }
      assert !DeviceNamed(deviceList, dev.name);
      dev.state := Present;
      devices[deviceCount] := dev;
      deviceCount := deviceCount + 1;
      deviceList := deviceList + [dev];
      assert Abs().refs == old(Abs()).refs;
      Reference(dev.driver);
      status := Ok;
    }

    /** aur_device_remove; the driver's own remove callback touches neither registry. */
    method RemoveDevice(dev: Device) returns (status: Status)
      requires Valid()
      modifies this, devices, dev`state, (if dev.driver == null then {} else {dev.driver})`refCount
      ensures Valid() && Abs() == Remove(old(Abs()), dev)
      ensures status == RemoveStatus(old(Abs()), dev)
      ensures dev.state == if status == Ok then Removed else old(dev.state)
      ensures status == if dev in old(deviceList) then Ok else NotFound
      ensures driverList == old(driverList) && (status != Ok ==> deviceList == old(deviceList))
      ensures status == Ok ==> |deviceList| == |old(deviceList)| - 1 && dev !in deviceList
      ensures forall e :: e in old(deviceList) && e != dev ==> e in deviceList
      ensures dev.driver != null ==>
        dev.driver.refCount == if status == Ok && dev.driver.hasRemove
                               then (old(dev.driver.refCount) - 1) % 0x1_0000_0000 else old(dev.driver.refCount)
    {
      hide Without, UniqueDrivers, UniqueDevices, Dereferenced;
      var i := 0;
      while i < deviceCount
        invariant 0 <= i <= deviceCount && Valid() && Abs() == old(Abs())
        invariant dev !in deviceList[..i] && dev.state == old(dev.state)
      {
        if devices[i] == dev {
          assert dev in deviceList;
          dev.state := Removed;
          Dereference(dev.driver);
          DropDevice(i);
          return Ok;
        }
        i := i + 1;
      }
      status := NotFound;
    }
  }
}
