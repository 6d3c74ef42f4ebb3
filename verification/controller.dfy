/**
  The Arduino therapy controller (arduino_peripheral/src/controller/TherapyController.cpp),
  a deferred-start variant of the session state machine: the write
  callbacks only store the new values, and the main loop's `update()`
  derives start and stop from intensity, target time and `millis()`.
  Pushes to the BLE services, serial logging and the LED are not modelled;
  only whether a module-information service is linked matters, because the
  battery counter only runs when it is.
 */
module Controller {
  import opened Ascii
  import opened BleUtils
  import opened Millis

  const ACTIVE: string := "Active"
  const INACTIVE: string := "Inactive"
  const BATTERY_FULL: byte := 0x64
  const MILLIS_PER_SECOND := 1000

  datatype Controller = Controller(
    targetTime: uint32,        // seconds
    intensity: byte,           // percent
    timeStamp: string,
    userId: string,
    therapyActive: bool,
    therapyStartTime: uint32,  // millis() when the session started
    elapsedTime: uint32,       // whole seconds since the start
    batteryLife: byte,
    lastBatteryUpdate: uint32,
    status: string,
    hasModuleInfo: bool)

  /** The status text that belongs with an activity flag. */
  function StatusOf(active: bool): (s: string)
    ensures s == ACTIVE <==> active
    ensures s == INACTIVE <==> !active
  {
    if active then ACTIVE else INACTIVE
  }

  /**
    What holds of every controller the firmware can reach: the status text
    agrees with the activity flag (so the unguarded status pushes inside
    `update` never run) and the battery counter is a percentage.
   */
  predicate Consistent(c: Controller) {
    c.status == StatusOf(c.therapyActive) && c.batteryLife <= BATTERY_FULL
  }

  /** Every field apart from the four the callbacks write. */
  predicate SameSession(c: Controller, d: Controller) {
    && c.therapyActive == d.therapyActive
    && c.therapyStartTime == d.therapyStartTime
    && c.elapsedTime == d.elapsedTime
    && c.status == d.status
    && c.batteryLife == d.batteryLife
    && c.lastBatteryUpdate == d.lastBatteryUpdate
    && c.hasModuleInfo == d.hasModuleInfo
  }

  /** The constructor's defaults: nothing set, inactive, battery 0x64, no services linked. */
  function Init(): (c: Controller)
    ensures Consistent(c)
    ensures !c.therapyActive && c.intensity == 0 && c.targetTime == 0 && c.elapsedTime == 0
    ensures c.batteryLife == 100 && !c.hasModuleInfo
    ensures c.timeStamp == "" && c.userId == "" && c.therapyStartTime == 0 && c.lastBatteryUpdate == 0
  {
    Controller(0, 0, "", "", false, 0, 0, BATTERY_FULL, 0, INACTIVE, false)
  }

  /** `setModuleInfoService`: links the service, which enables the battery counter. */
  function LinkModuleInfo(c: Controller): (d: Controller)
    ensures d.hasModuleInfo
    ensures d.(hasModuleInfo := c.hasModuleInfo) == c
  {
    c.(hasModuleInfo := true)
  }

  // ------------------------------------------------------------ write callbacks

  /** `onTargetTimeUpdated`: stores the value and nothing else; no session starts yet. */
  function OnTargetTimeUpdated(c: Controller, targetTime: uint32): (d: Controller)
    ensures d.targetTime == targetTime
    ensures d.intensity == c.intensity && d.timeStamp == c.timeStamp && d.userId == c.userId
    ensures SameSession(c, d)
  {
    c.(targetTime := targetTime)
  }

  /** `onIntensityUpdated`: stores the value and nothing else; no session starts yet. */
  function OnIntensityUpdated(c: Controller, intensity: byte): (d: Controller)
    ensures d.intensity == intensity
    ensures d.targetTime == c.targetTime && d.timeStamp == c.timeStamp && d.userId == c.userId
    ensures SameSession(c, d)
  {
    c.(intensity := intensity)
  }

  function OnTimeStampUpdated(c: Controller, timeStamp: string): (d: Controller)
    ensures d.timeStamp == timeStamp
    ensures d.targetTime == c.targetTime && d.intensity == c.intensity && d.userId == c.userId
    ensures SameSession(c, d)
  {
    c.(timeStamp := timeStamp)
  }

  function OnUserIdUpdated(c: Controller, userId: string): (d: Controller)
    ensures d.userId == userId
    ensures d.targetTime == c.targetTime && d.intensity == c.intensity && d.timeStamp == c.timeStamp
    ensures SameSession(c, d)
  {
    c.(userId := userId)
  }

  // ------------------------------------------------------------ start / stop

  /** `startTherapy`: ignored while a session runs; otherwise starts one at `now`. */
  function StartTherapy(c: Controller, now: uint32): (d: Controller)
    ensures c.therapyActive ==> d == c
    ensures !c.therapyActive ==>
      && d.therapyActive && d.therapyStartTime == now && d.elapsedTime == 0 && d.status == ACTIVE
      && d.(therapyActive := false, therapyStartTime := c.therapyStartTime,
            elapsedTime := c.elapsedTime, status := c.status) == c
  {
    if c.therapyActive then c
    else c.(therapyActive := true, therapyStartTime := now, elapsedTime := 0, status := ACTIVE)
  }

  /**
    `stopTherapy`: ignored while idle; otherwise ends the session and clears
    intensity, target and elapsed time. The session metadata survives.
   */
  function StopTherapy(c: Controller): (d: Controller)
    ensures !c.therapyActive ==> d == c
    ensures c.therapyActive ==>
      && !d.therapyActive && d.intensity == 0 && d.targetTime == 0 && d.elapsedTime == 0
      && d.status == INACTIVE
      && d.(therapyActive := true, intensity := c.intensity, targetTime := c.targetTime,
            elapsedTime := c.elapsedTime, status := c.status) == c
  {
    if !c.therapyActive then c
    else c.(therapyActive := false, intensity := 0, targetTime := 0, status := INACTIVE, elapsedTime := 0)
  }

  // ------------------------------------------------------------ battery

  /**
    One battery step: decrement, and a counter already at 0 becomes 0x64.
    On percentages this is a countdown modulo 101, so 0 is a value the
    counter really shows.
   */
  function BatteryTick(level: byte): (next: byte)
    ensures level <= BATTERY_FULL ==> next <= BATTERY_FULL && next == (level - 1) % 101
  {
    if level > 0 then level - 1 else BATTERY_FULL
  }

  /**
    `updateBattery`: does nothing without a linked module-information
    service or before `interval` ms have passed; otherwise steps the
    counter and restarts the interval at `now`.
   */
  function UpdateBattery(c: Controller, now: uint32, interval: uint32): (d: Controller)
    ensures !c.hasModuleInfo || Since(now, c.lastBatteryUpdate) < interval ==> d == c
    ensures c.hasModuleInfo && Since(now, c.lastBatteryUpdate) >= interval ==>
      && d.batteryLife == BatteryTick(c.batteryLife)
      && d.lastBatteryUpdate == now
      && d.(batteryLife := c.batteryLife, lastBatteryUpdate := c.lastBatteryUpdate) == c
    ensures Consistent(c) ==> Consistent(d)
  {
    if !c.hasModuleInfo then c
    else if Since(now, c.lastBatteryUpdate) >= interval then
      c.(batteryLife := BatteryTick(c.batteryLife), lastBatteryUpdate := now)
    else c
  }

  /** `k` battery steps. */
  function BatteryTicks(level: byte, k: nat): byte
    decreases k
  {
    if k == 0 then level else BatteryTick(BatteryTicks(level, k - 1))
  }

  /**
    From the initial 0x64 the counter cycles through 100, 99, ..., 1, 0 and
    back to 100, a period of 101 steps: after `101 * q + r` steps, with
    `r <= 100`, it reads `100 - r`.
   */
  lemma {:induction false} BatteryCycle(q: nat, r: nat)
    requires r <= 100
    ensures BatteryTicks(BATTERY_FULL, 101 * q + r) == 100 - r
    decreases 101 * q + r
  {
    if r > 0 {
      BatteryCycle(q, r - 1);
    } else if q > 0 {
      BatteryCycle(q - 1, 100);
    }
  }

  // ------------------------------------------------------------ main loop

  /** Whole seconds since the session started, as `(millis() - start) / 1000` computes them. */
  function ElapsedSeconds(c: Controller, now: uint32): (e: uint32)
    ensures now >= c.therapyStartTime ==> e == (now - c.therapyStartTime) / MILLIS_PER_SECOND
    ensures now < c.therapyStartTime ==> e == (now - c.therapyStartTime + UINT_LIMIT) / MILLIS_PER_SECOND
  {
    Since(now, c.therapyStartTime) / MILLIS_PER_SECOND
  }

  /** The session part of `update`, before the battery step. */
  function Reconcile(c: Controller, now: uint32): (d: Controller)
    ensures d.therapyActive ==> d.elapsedTime < d.targetTime
    ensures d.status == StatusOf(d.therapyActive)
    ensures d.timeStamp == c.timeStamp && d.userId == c.userId
    ensures d.batteryLife == c.batteryLife && d.lastBatteryUpdate == c.lastBatteryUpdate
    ensures d.hasModuleInfo == c.hasModuleInfo
  {
    if c.therapyActive then
      var running := c.(elapsedTime := ElapsedSeconds(c, now), status := ACTIVE);
      if running.elapsedTime >= running.targetTime then StopTherapy(running) else running
    else
      var idle := c.(elapsedTime := 0, status := INACTIVE);
      if idle.intensity > 0 && idle.targetTime > 0 then StartTherapy(idle, now) else idle
  }

  /**
    `update()`, once per pass of the main loop. While idle it zeroes the
    elapsed time and starts a session exactly when intensity and target are
    both positive. While running it recomputes the elapsed seconds and stops
    exactly when they reach the target, so a running session with target 0
    stops on its first update. Then the battery step runs.
   */
  function Update(c: Controller, now: uint32, batteryInterval: uint32): (d: Controller)
    ensures !c.therapyActive ==>
      && (d.therapyActive <==> c.intensity > 0 && c.targetTime > 0)
      && d.elapsedTime == 0
      && d.intensity == c.intensity && d.targetTime == c.targetTime
      && (d.therapyActive ==> d.therapyStartTime == now)
      && (!d.therapyActive ==> d.therapyStartTime == c.therapyStartTime)
    ensures c.therapyActive ==>
      && (d.therapyActive <==> ElapsedSeconds(c, now) < c.targetTime)
      && (d.therapyActive ==>
            d.elapsedTime == ElapsedSeconds(c, now) && d.therapyStartTime == c.therapyStartTime
            && d.intensity == c.intensity && d.targetTime == c.targetTime)
      && (!d.therapyActive ==> d.intensity == 0 && d.targetTime == 0 && d.elapsedTime == 0)
    ensures d.therapyActive ==> d.elapsedTime < d.targetTime
    ensures d.status == StatusOf(d.therapyActive)
    ensures d.timeStamp == c.timeStamp && d.userId == c.userId
    ensures d.hasModuleInfo == c.hasModuleInfo
    ensures Consistent(c) ==> Consistent(d)
  {
    UpdateBattery(Reconcile(c, now), now, batteryInterval)
  }

  /** A running session whose target is 0 ends on the next update, whatever the clock says. */
  lemma ZeroTargetStopsAtOnce(c: Controller, now: uint32, batteryInterval: uint32)
    requires c.therapyActive && c.targetTime == 0
    ensures !Update(c, now, batteryInterval).therapyActive
  {
  }

  /**
    Writes are deferred: after both values are written the controller is
    exactly as idle as before, and the next `update` starts the session at
    its own clock reading.
   */
  lemma DeferredStart(c: Controller, intensity: byte, targetTime: uint32, now: uint32, batteryInterval: uint32)
    requires !c.therapyActive && intensity > 0 && targetTime > 0
    ensures var w := OnTargetTimeUpdated(OnIntensityUpdated(c, intensity), targetTime);
      && !w.therapyActive && w.elapsedTime == c.elapsedTime
      && var d := Update(w, now, batteryInterval);
         d.therapyActive && d.therapyStartTime == now && d.elapsedTime == 0 && d.status == ACTIVE
  {
  }

  // ------------------------------------------------------------ runs

  /** Everything that can happen to the controller. */
  datatype Event =
    | LinkInfo
    | TargetTimeWritten(targetTime: uint32)
    | IntensityWritten(intensity: byte)
    | TimeStampWritten(timeStamp: string)
    | UserIdWritten(userId: string)
    | Loop(now: uint32)

  function Step(c: Controller, e: Event, batteryInterval: uint32): Controller {
    match e
    case LinkInfo => LinkModuleInfo(c)
    case TargetTimeWritten(t) => OnTargetTimeUpdated(c, t)
    case IntensityWritten(i) => OnIntensityUpdated(c, i)
    case TimeStampWritten(s) => OnTimeStampUpdated(c, s)
    case UserIdWritten(u) => OnUserIdUpdated(c, u)
    case Loop(now) => Update(c, now, batteryInterval)
  }

  function Run(c: Controller, events: seq<Event>, batteryInterval: uint32): Controller
    decreases |events|
  {
    if events == [] then c else Run(Step(c, events[0], batteryInterval), events[1..], batteryInterval)
  }

  /**
    In every reachable controller the status text matches the activity flag
    and the battery stays within 0..100, and after the last main-loop pass
    a running session has not yet reached its target.
   */
  lemma {:induction false} RunStaysConsistent(events: seq<Event>, batteryInterval: uint32)
    ensures Consistent(Run(Init(), events, batteryInterval))
    ensures |events| >= 1 && events[|events| - 1].Loop? ==>
      var d := Run(Init(), events, batteryInterval);
      d.therapyActive ==> d.elapsedTime < d.targetTime
  {
    RunPreserves(Init(), events, batteryInterval);
  }

  lemma {:induction false} RunPreserves(c: Controller, events: seq<Event>, batteryInterval: uint32)
    requires Consistent(c)
    ensures Consistent(Run(c, events, batteryInterval))
    ensures |events| >= 1 && events[|events| - 1].Loop? ==>
      var d := Run(c, events, batteryInterval);
      d.therapyActive ==> d.elapsedTime < d.targetTime
    decreases |events|
  {
    if events != [] {
      var next := Step(c, events[0], batteryInterval);
      RunPreserves(next, events[1..], batteryInterval);
      if |events| == 1 {
        assert Run(next, events[1..], batteryInterval) == next;
      } else {
        assert events[1..][|events[1..]| - 1] == events[|events| - 1];
      }
    }
  }
}
