/**
  The Arduino module-information service (arduino_peripheral/src/ble/ModuleInfoService.cpp):
  static identity values and a battery level, with the guards the setters
  apply before storing. The stored values are those of the BLE
  characteristics; `lastUpdate` is the function-local static timer of
  `update`.
 */
module ModuleInfo {
  import opened Ascii
  import opened BleUtils
  import opened Millis

  const MAX_DEVICE_ID_LENGTH := 50
  const MAX_FIRMWARE_LENGTH := 20
  const MAX_BATTERY: byte := 100
  const UPDATE_INTERVAL := 5000  // milliseconds

  datatype Info = Info(
    deviceId: string,
    locationId: byte,
    batteryLife: byte,
    firmwareVersion: string,
    lastUpdate: uint32)

  /** What every value the service can hold satisfies: the guards' bounds. */
  predicate Valid(m: Info) {
    && |m.deviceId| <= MAX_DEVICE_ID_LENGTH
    && |m.firmwareVersion| <= MAX_FIRMWARE_LENGTH
    && m.batteryLife <= MAX_BATTERY
  }

  /** The values after `setupService`: "TMP-001", location 1, full battery, firmware "1.0.0". */
  function Init(): (m: Info)
    ensures Valid(m)
    ensures m.deviceId == "TMP-001" && m.locationId == 1
    ensures m.batteryLife == 100 && m.firmwareVersion == "1.0.0"
  {
    Info("TMP-001", 1, 100, "1.0.0", 0)
  }

  /** `setDeviceId`: an id longer than the 50-byte characteristic is ignored. */
  function SetDeviceId(m: Info, id: string): (m': Info)
    ensures |id| <= MAX_DEVICE_ID_LENGTH ==> m' == m.(deviceId := id)
    ensures |id| > MAX_DEVICE_ID_LENGTH ==> m' == m
    ensures Valid(m) ==> Valid(m')
  {
    if |id| <= MAX_DEVICE_ID_LENGTH then m.(deviceId := id) else m
  }

  /** `setLocationId`: any byte is stored. */
  function SetLocationId(m: Info, location: byte): (m': Info)
    ensures m'.locationId == location
    ensures m'.(locationId := m.locationId) == m
    ensures Valid(m) ==> Valid(m')
  {
    m.(locationId := location)
  }

  /** `setBatteryLife`: the level is constrained to at most 100 before it is stored. */
  function SetBatteryLife(m: Info, level: byte): (m': Info)
    ensures m'.batteryLife <= MAX_BATTERY
    ensures level <= MAX_BATTERY ==> m'.batteryLife == level
    ensures level > MAX_BATTERY ==> m'.batteryLife == MAX_BATTERY
    ensures m'.(batteryLife := m.batteryLife) == m
    ensures Valid(m) ==> Valid(m')
  {
    m.(batteryLife := if level <= MAX_BATTERY then level else MAX_BATTERY)
  }

  /** `setFirmwareVersion`: a version longer than the 20-byte characteristic is ignored. */
  function SetFirmwareVersion(m: Info, version: string): (m': Info)
    ensures |version| <= MAX_FIRMWARE_LENGTH ==> m' == m.(firmwareVersion := version)
    ensures |version| > MAX_FIRMWARE_LENGTH ==> m' == m
    ensures Valid(m) ==> Valid(m')
  {
    if |version| <= MAX_FIRMWARE_LENGTH then m.(firmwareVersion := version) else m
  }

  /**
    `update`: once at least 5000 ms have passed since the last time it
    fired, it records `now` and lowers a positive battery level by one. The
    level saturates at 0; it never wraps back to 100.
   */
  function Update(m: Info, now: uint32): (m': Info)
    ensures Since(now, m.lastUpdate) < UPDATE_INTERVAL ==> m' == m
    ensures Since(now, m.lastUpdate) >= UPDATE_INTERVAL ==>
      && m'.lastUpdate == now
      && m'.batteryLife == (if m.batteryLife == 0 then 0
                            else if m.batteryLife > MAX_BATTERY then MAX_BATTERY
                            else m.batteryLife - 1)
      && m'.(lastUpdate := m.lastUpdate, batteryLife := m.batteryLife) == m
    ensures Valid(m) ==> Valid(m')
  {
    if Since(now, m.lastUpdate) >= UPDATE_INTERVAL then
      var fired := m.(lastUpdate := now);
      if m.batteryLife > 0 then SetBatteryLife(fired, m.batteryLife - 1) else fired
    else m
  }

  /** `update` called at each of `times` in turn. */
  function UpdateAll(m: Info, times: seq<uint32>): Info
    decreases |times|
  {
    if times == [] then m else UpdateAll(Update(m, times[0]), times[1..])
  }

  /**
    Over any run of updates the battery never rises and never wraps; from a
    valid state it drops by at most one per call, and only the battery and
    the timer ever change.
   */
  lemma {:induction false} UpdatesOnlyDrain(m: Info, times: seq<uint32>)
    ensures UpdateAll(m, times).batteryLife <= m.batteryLife
    ensures Valid(m) ==> Valid(UpdateAll(m, times))
    ensures Valid(m) ==> UpdateAll(m, times).batteryLife >= m.batteryLife - |times|
    ensures UpdateAll(m, times).(batteryLife := m.batteryLife, lastUpdate := m.lastUpdate) == m
    decreases |times|
  {
    if times != [] {
      UpdatesOnlyDrain(Update(m, times[0]), times[1..]);
    }
  }

  /**
    Updates spaced at least the interval apart each take one percent off:
    after `k` such calls a full battery reads `max(100 - k, 0)`.
   */
  lemma {:induction false} SpacedUpdatesCountDown(m: Info, times: seq<uint32>)
    requires Valid(m)
    requires |times| >= 1 ==> Since(times[0], m.lastUpdate) >= UPDATE_INTERVAL
    requires forall i :: 1 <= i < |times| ==> Since(times[i], times[i - 1]) >= UPDATE_INTERVAL
    ensures UpdateAll(m, times).batteryLife ==
      if m.batteryLife >= |times| then m.batteryLife - |times| else 0
    decreases |times|
  {
    if times != [] {
      var next := Update(m, times[0]);
      assert next.lastUpdate == times[0];
      SpacedUpdatesCountDown(next, times[1..]);
    }
  }
}
