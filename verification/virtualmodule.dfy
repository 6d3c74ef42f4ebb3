/**
  The Python virtual therapy module (ble_testing/test_module.py): the
  `TherapyService` record, the elapsed-time characteristic's own cached
  start instant, and the battery characteristic's level. Each write
  handler, each pass of the reconciliation thread, each read and each pass
  of the battery thread is one atomic step taking the wall clock `now` (in
  whole seconds) as a parameter.
 */
module VirtualModule {
  import opened Ascii
  import PyInt

  /** The fields of `TherapyService`. Nothing bounds intensity or target: any parsed integer is stored. */
  datatype Service = Service(
    intensity: int,
    targetTime: int,
    elapsedTime: int,
    startTime: int,
    isTherapyActive: bool,
    timeStamp: string,
    userId: string)

  /**
    The whole module: the service, `TimeCharacteristic.startTime` (a cached
    copy of the session start that the reconciliation thread refreshes) and
    `BatteryLifeCharacteristic.batteryLife`.
   */
  datatype Module = Module(service: Service, cachedStart: int, batteryLife: int)

  /** The module right after construction at time `boot`; the cache holds `boot`, the service 0. */
  function Init(boot: int): (m: Module)
    ensures !m.service.isTherapyActive && m.service.intensity == 0 && m.service.targetTime == 0
    ensures m.service.startTime == 0 && m.service.elapsedTime == 0 && m.cachedStart == boot
    ensures m.service.timeStamp == "" && m.service.userId == ""
    ensures m.batteryLife == 100
  {
    Module(Service(0, 0, 0, 0, false, "", ""), boot, 100)
  }

  /** The service fields a session-value write never touches. */
  predicate SameMetadata(s: Service, t: Service) {
    s.timeStamp == t.timeStamp && s.userId == t.userId
  }

  // ------------------------------------------------------------ value writes

  /**
    What a write handler ends with. `Rejected`: `int()` raised `ValueError`
    and the error was shown. `Raised`: the start branch called
    `showTherapyStarted()` without its two arguments; the `TypeError` was
    caught after the state had changed, so no notification was sent.
    `Notified`: the handler reached `PropertiesChanged` with these bytes.
   */
  datatype WriteEffect = Rejected | Raised | Notified(value: seq<byte>)

  datatype Written = Written(next: Module, effect: WriteEffect)

  /** The session start a write triggers: active, elapsed 0, started now. */
  function StartSession(s: Service, now: int): (t: Service)
    ensures t.isTherapyActive && t.elapsedTime == 0 && t.startTime == now
    ensures t.intensity == s.intensity && t.targetTime == s.targetTime && SameMetadata(s, t)
  {
    s.(isTherapyActive := true, elapsedTime := 0, startTime := now)
  }

  /** `IntensityCharacteristic.ReadValue`: `str(intensity)` as bytes. */
  function ReadIntensity(m: Module): (r: seq<byte>)
    ensures PyInt.Parse(r) == Some(m.service.intensity)
  {
    PyInt.ParseStr(m.service.intensity);
    PyInt.Str(m.service.intensity)
  }

  /** `TargetTimeCharacteristic.ReadValue`: `str(targetTime)` as bytes. */
  function ReadTargetTime(m: Module): (r: seq<byte>)
    ensures PyInt.Parse(r) == Some(m.service.targetTime)
  {
    PyInt.ParseStr(m.service.targetTime);
    PyInt.Str(m.service.targetTime)
  }

  /**
    `IntensityCharacteristic.WriteValue`. A payload `int()` rejects changes
    nothing. Otherwise the value is stored whatever it is (0 and negative
    values included); if the target time is positive a session (re)starts,
    else intensity is the only field that changes.
   */
  function WriteIntensity(m: Module, payload: seq<byte>, now: int): (w: Written)
    ensures PyInt.Parse(payload).None? ==> w.next == m && w.effect == Rejected
    ensures PyInt.Parse(payload).Some? ==>
      var v := PyInt.Parse(payload).value;
      && w.next.service.intensity == v
      && w.next.service.targetTime == m.service.targetTime
      && SameMetadata(m.service, w.next.service)
      && w.next.cachedStart == m.cachedStart && w.next.batteryLife == m.batteryLife
      && (m.service.targetTime > 0 ==>
            && w.next.service.isTherapyActive && w.next.service.elapsedTime == 0
            && w.next.service.startTime == now
            && w.effect == Raised)
      && (m.service.targetTime <= 0 ==>
            && w.next.service == m.service.(intensity := v)
            && w.effect.Notified? && PyInt.Parse(w.effect.value) == Some(v))
  {
    match PyInt.Parse(payload)
    case None => Written(m, Rejected)
    case Some(v) =>
      var stored := m.service.(intensity := v);
      if stored.targetTime > 0 then
        Written(m.(service := StartSession(stored, now)), Raised)
      else
        var next := m.(service := stored);
        Written(next, Notified(ReadIntensity(next)))
  }

  /**
    `TargetTimeCharacteristic.WriteValue`, the mirror image: the value is
    stored, and a session (re)starts only when the intensity is positive.
   */
  function WriteTargetTime(m: Module, payload: seq<byte>, now: int): (w: Written)
    ensures PyInt.Parse(payload).None? ==> w.next == m && w.effect == Rejected
    ensures PyInt.Parse(payload).Some? ==>
      var v := PyInt.Parse(payload).value;
      && w.next.service.targetTime == v
      && w.next.service.intensity == m.service.intensity
      && SameMetadata(m.service, w.next.service)
      && w.next.cachedStart == m.cachedStart && w.next.batteryLife == m.batteryLife
      && (m.service.intensity > 0 ==>
            && w.next.service.isTherapyActive && w.next.service.elapsedTime == 0
            && w.next.service.startTime == now
            && w.effect == Raised)
      && (m.service.intensity <= 0 ==>
            && w.next.service == m.service.(targetTime := v)
            && w.effect.Notified? && PyInt.Parse(w.effect.value) == Some(v))
  {
    match PyInt.Parse(payload)
    case None => Written(m, Rejected)
    case Some(v) =>
      var stored := m.service.(targetTime := v);
      if stored.intensity > 0 then
        Written(m.(service := StartSession(stored, now)), Raised)
      else
        var next := m.(service := stored);
        Written(next, Notified(ReadTargetTime(next)))
  }

  // ------------------------------------------------------------ reconciliation

  /**
    One pass of `TimeCharacteristic.reset_loop`. The cache is first
    refreshed from the service's start instant. A running session whose
    elapsed time `now - startTime` has reached the target completes:
    intensity, target and the active flag are cleared and the cache moves
    to `now`; the service's start instant, elapsed time and metadata are
    left as they were. Any other pass changes no service field.
   */
  function Tick(m: Module, now: int): (r: Module)
    ensures var s := m.service;
      s.isTherapyActive && now - s.startTime >= s.targetTime ==>
        && r.service == s.(intensity := 0, targetTime := 0, isTherapyActive := false)
        && r.cachedStart == now
    ensures var s := m.service;
      !(s.isTherapyActive && now - s.startTime >= s.targetTime) ==>
        r.service == s && r.cachedStart == s.startTime
    ensures r.batteryLife == m.batteryLife
  {
    var refreshed := m.(cachedStart := m.service.startTime);
    var elapsed := now - refreshed.cachedStart;
    if refreshed.service.isTherapyActive && elapsed >= refreshed.service.targetTime then
      Module(refreshed.service.(intensity := 0, targetTime := 0, isTherapyActive := false), now, m.batteryLife)
    else
      refreshed
  }

  datatype Read = Read(next: Module, value: seq<byte>)

  /**
    `TimeCharacteristic.getElapsedTime`, a read with side effects. While
    idle it answers 0 and moves the cache and the service's start instant to
    `now`. While running it answers `now - cachedStart` and writes the
    cached start back into the service, so a start instant set by a write
    since the last reconciliation pass is reverted. Either way the service
    and the cache agree afterwards and the answer is the stored elapsed time.
   */
  function ReadElapsed(m: Module, now: int): (r: Read)
    ensures PyInt.Parse(r.value) == Some(r.next.service.elapsedTime)
    ensures r.next.service.startTime == r.next.cachedStart
    ensures !m.service.isTherapyActive ==>
      r.next.service.elapsedTime == 0 && r.next.cachedStart == now
    ensures m.service.isTherapyActive ==>
      r.next.service.elapsedTime == now - m.cachedStart && r.next.cachedStart == m.cachedStart
    ensures r.next.service.(startTime := m.service.startTime, elapsedTime := m.service.elapsedTime) == m.service
    ensures r.next.batteryLife == m.batteryLife
  {
    var cached := if m.service.isTherapyActive then m.cachedStart else now;
    var moduleTime := if m.service.isTherapyActive then now - m.cachedStart else 0;
    var next := Module(m.service.(startTime := cached, elapsedTime := moduleTime), cached, m.batteryLife);
    PyInt.ParseStr(moduleTime);
    Read(next, PyInt.Str(moduleTime))
  }

  // ------------------------------------------------------------ status

  const ACTIVE_TEXT: seq<byte> := [65, 99, 116, 105, 118, 101]             // "Active"
  const INACTIVE_TEXT: seq<byte> := [73, 110, 97, 99, 116, 105, 118, 101]  // "Inactive"

  /** `StatusCharacteristic.getStatus`: "Active" exactly while the service's flag is set. */
  function ReadStatus(m: Module): (r: seq<byte>)
    ensures r == ACTIVE_TEXT <==> m.service.isTherapyActive
    ensures r == INACTIVE_TEXT <==> !m.service.isTherapyActive
  {
    if m.service.isTherapyActive then ACTIVE_TEXT else INACTIVE_TEXT
  }

  /**
    The status the console shows (`updateStatusUi`): "ACTIVE" when both
    intensity and target are positive, whatever the service's flag says.
   */
  predicate UiShowsActive(intensity: int, targetTime: int) {
    intensity > 0 && targetTime > 0
  }

  /**
    The two notions of status come apart: writing intensity 0 (or any
    non-positive value) while the target is positive starts a session, so
    the status characteristic reads "Active" while the console shows
    "INACTIVE" for the same intensity and target.
   */
  /**
    The two notions agree when a write stores a positive intensity while
    the target is positive: the session starts and the console shows it.
   */
  lemma StatusNotionsAgreeOnStart(m: Module, payload: seq<byte>, now: int)
    requires m.service.targetTime > 0
    requires PyInt.Parse(payload).Some? && PyInt.Parse(payload).value > 0
    ensures var s := WriteIntensity(m, payload, now).next;
      && ReadStatus(s) == ACTIVE_TEXT
      && UiShowsActive(s.service.intensity, s.service.targetTime)
  {
  }

  lemma StatusNotionsDiverge(m: Module, payload: seq<byte>, now: int)
    requires m.service.targetTime > 0
    requires PyInt.Parse(payload).Some? && PyInt.Parse(payload).value <= 0
    ensures var s := WriteIntensity(m, payload, now).next;
      && ReadStatus(WriteIntensity(m, payload, now).next) == ACTIVE_TEXT
      && !UiShowsActive(s.service.intensity, s.service.targetTime)
  {
  }

  // ------------------------------------------------------------ battery

  /**
    One pass of `batteryDrainLoop`: one percent off, and a level that
    reaches 0 or below is reset to 100. On 1..100 this is a countdown
    modulo 100 that never shows 0.
   */
  function DrainBattery(m: Module): (r: Module)
    ensures 1 <= m.batteryLife <= 100 ==>
      1 <= r.batteryLife <= 100 && r.batteryLife - 1 == (m.batteryLife - 2) % 100
    ensures r.(batteryLife := m.batteryLife) == m
  {
    var level := m.batteryLife - 1;
    m.(batteryLife := if level <= 0 then 100 else level)
  }

  function DrainTimes(m: Module, k: nat): Module
    decreases k
  {
    if k == 0 then m else DrainBattery(DrainTimes(m, k - 1))
  }

  /**
    From the initial 100 the level counts down 100, 99, ..., 1 and steps
    from 1 back to 100, a period of 100 passes: after `100 * q + r` passes,
    with `r < 100`, it reads `100 - r`.
   */
  lemma {:induction false} BatteryCycle(m: Module, q: nat, r: nat)
    requires m.batteryLife == 100 && r < 100
    ensures DrainTimes(m, 100 * q + r).batteryLife == 100 - r
    decreases 100 * q + r
  {
    if r > 0 {
      BatteryCycle(m, q, r - 1);
    } else if q > 0 {
      BatteryCycle(m, q - 1, 99);
    }
  }

  // ------------------------------------------------------------ metadata

  /** `''.join(chr(b) for b in value)`: byte b becomes code point b. */
  function Latin1(payload: seq<byte>): (text: string)
    ensures |text| == |payload|
    ensures forall i :: 0 <= i < |payload| ==> text[i] as int == payload[i]
  {
    if payload == [] then "" else [payload[0] as char] + Latin1(payload[1..])
  }

  /** Decoding is injective, so the stored text determines the payload written. */
  lemma Latin1Injective(p: seq<byte>, q: seq<byte>)
    requires Latin1(p) == Latin1(q)
    ensures p == q
  {
    assert forall i :: 0 <= i < |p| ==> p[i] == Latin1(p)[i] as int;
  }

  /** `TimeStampCharacteristic.WriteValue`: stores the decoded text; nothing else changes. */
  function WriteTimeStamp(m: Module, payload: seq<byte>): (r: Module)
    ensures Latin1(payload) == r.service.timeStamp
    ensures r.(service := r.service.(timeStamp := m.service.timeStamp)) == m
  {
    m.(service := m.service.(timeStamp := Latin1(payload)))
  }

  /** `UserIdCharacteristic.WriteValue`: stores the decoded text; nothing else changes. */
  function WriteUserId(m: Module, payload: seq<byte>): (r: Module)
    ensures Latin1(payload) == r.service.userId
    ensures r.(service := r.service.(userId := m.service.userId)) == m
  {
    m.(service := m.service.(userId := Latin1(payload)))
  }

  // ------------------------------------------------------------ sessions

  /**
    The start rule: a positive intensity and a positive target written in
    either order leave a running session with elapsed time 0 that started at
    the second write, and neither start is notified.
   */
  lemma StartRuleEitherOrder(m: Module, pi: seq<byte>, pt: seq<byte>, t1: int, t2: int)
    requires PyInt.Parse(pi).Some? && PyInt.Parse(pi).value > 0
    requires PyInt.Parse(pt).Some? && PyInt.Parse(pt).value > 0
    ensures var w := WriteTargetTime(WriteIntensity(m, pi, t1).next, pt, t2);
      && w.next.service.isTherapyActive && w.next.service.elapsedTime == 0
      && w.next.service.startTime == t2 && w.effect == Raised
    ensures var w := WriteIntensity(WriteTargetTime(m, pt, t1).next, pi, t2);
      && w.next.service.isTherapyActive && w.next.service.elapsedTime == 0
      && w.next.service.startTime == t2 && w.effect == Raised
  {
  }

  /**
    The session of the module's own scenario: intensity 50 written while the
    target is 0 leaves it idle; a target of 30 written later starts it; a
    reconciliation pass 31 seconds after the start ends it with intensity and
    target cleared, after which the elapsed time reads 0.
   */
  lemma ScenarioCompletes(boot: int, t0: int, t1: int)
    ensures var m1 := WriteIntensity(Init(boot), [53, 48], t0).next;
      !m1.service.isTherapyActive && m1.service.intensity == 50
    ensures var m2 := WriteTargetTime(WriteIntensity(Init(boot), [53, 48], t0).next, [51, 48], t1).next;
      m2.service.isTherapyActive && m2.service.elapsedTime == 0 && m2.service.targetTime == 30
    ensures var m2 := WriteTargetTime(WriteIntensity(Init(boot), [53, 48], t0).next, [51, 48], t1).next;
      var m3 := Tick(m2, t1 + 31);
      && !m3.service.isTherapyActive && m3.service.intensity == 0 && m3.service.targetTime == 0
      && ReadElapsed(m3, t1 + 40).value == PyInt.Str(0)
  {
    ParseSmallLiterals();
    var m1 := Module(Service(50, 0, 0, 0, false, "", ""), boot, 100);
    assert WriteIntensity(Init(boot), [53, 48], t0).next == m1;
    var m2 := Module(Service(50, 30, 0, t1, true, "", ""), boot, 100);
    assert WriteTargetTime(m1, [51, 48], t1).next == m2;
    var m3 := Module(Service(0, 0, 0, t1, false, "", ""), t1 + 31, 100);
    assert Tick(m2, t1 + 31) == m3;
    assert ReadElapsed(m3, t1 + 40).value == PyInt.Str(0);
  }

  /**
    The stale start instant. The reconciliation pass at time 1 caches the
    service's start (0). Intensity 50 and target 5 written at time 10 start a
    five-second session at 10, but an elapsed-time read at 10 answers 10 and
    writes the stale cached start 0 back, so the next pass, at 11, ends the
    session one second after it began.
   */
  lemma StaleStartEndsSessionEarly()
    ensures var m3 := WriteTargetTime(WriteIntensity(Tick(Init(0), 1), [53, 48], 10).next, [53], 10).next;
      m3.service.isTherapyActive && m3.service.startTime == 10 && m3.service.targetTime == 5
    ensures var m3 := WriteTargetTime(WriteIntensity(Tick(Init(0), 1), [53, 48], 10).next, [53], 10).next;
      ReadElapsed(m3, 10).value == PyInt.Str(10) && ReadElapsed(m3, 10).next.service.startTime == 0
    ensures var m3 := WriteTargetTime(WriteIntensity(Tick(Init(0), 1), [53, 48], 10).next, [53], 10).next;
      !Tick(ReadElapsed(m3, 10).next, 11).service.isTherapyActive
  {
    StaleSetup();
    var m3 := Module(Service(50, 5, 0, 10, true, "", ""), 0, 100);
    assert WriteTargetTime(WriteIntensity(Tick(Init(0), 1), [53, 48], 10).next, [53], 10).next == m3;
    var r := ReadElapsed(m3, 10);
    assert r.next == Module(Service(50, 5, 10, 0, true, "", ""), 0, 100);
  }

  /** The module of the stale-start run just after the second write. */
  lemma StaleSetup()
    ensures var m1 := Tick(Init(0), 1);
      var m2 := WriteIntensity(m1, [53, 48], 10).next;
      WriteTargetTime(m2, [53], 10).next == Module(Service(50, 5, 0, 10, true, "", ""), 0, 100)
  {
    ParseSmallLiterals();
    var m1 := Tick(Init(0), 1);
    assert m1 == Module(Service(0, 0, 0, 0, false, "", ""), 0, 100);
    var m2 := WriteIntensity(m1, [53, 48], 10).next;
    assert m2 == Module(Service(50, 0, 0, 0, false, "", ""), 0, 100);
  }

  /** `int()` of the literals the scenarios here write: "50", "5", "30" and "0". */
  lemma ParseSmallLiterals()
    ensures PyInt.Parse([53, 48]) == Some(50)
    ensures PyInt.Parse([53]) == Some(5)
    ensures PyInt.Parse([51, 48]) == Some(30)
    ensures PyInt.Parse([48]) == Some(0)
  {
    var fifty: seq<byte> := [53, 48];
    var thirty: seq<byte> := [51, 48];
    var five: seq<byte> := [53];
    var zero: seq<byte> := [48];
    assert AllDigits(fifty) && AllDigits(five) && AllDigits(thirty) && AllDigits(zero);
    assert ValueOf(five) == 5 by { assert five[..0] == []; }
    assert ValueOf(zero) == 0 by { assert zero[..0] == []; }
    assert ValueOf([51]) == 3 by { assert [51][..0] == []; }
    assert ValueOf(fifty) == 50 by { assert fifty[..1] == five; }
    assert ValueOf(thirty) == 30 by { assert thirty[..1] == [51]; }
  }

  /** Without the intervening read the same session survives the pass at 11. */
  lemma WithoutReadSessionRuns()
    ensures var m1 := Tick(Init(0), 1);
      && var m3 := WriteTargetTime(WriteIntensity(m1, [53, 48], 10).next, [53], 10).next;
      && Tick(m3, 11).service.isTherapyActive
  {
    ParseSmallLiterals();
  }

  // ------------------------------------------------------------ runs

  datatype Event =
    | IntensityWrite(payload: seq<byte>, at: int)
    | TargetTimeWrite(payload: seq<byte>, at: int)
    | ReconcilePass(at: int)
    | ElapsedRead(at: int)
    | StatusRead
    | BatteryPass
    | TimeStampWrite(payload: seq<byte>)
    | UserIdWrite(payload: seq<byte>)

  function Step(m: Module, e: Event): Module {
    match e
    case IntensityWrite(p, t) => WriteIntensity(m, p, t).next
    case TargetTimeWrite(p, t) => WriteTargetTime(m, p, t).next
    case ReconcilePass(t) => Tick(m, t)
    case ElapsedRead(t) => ReadElapsed(m, t).next
    case StatusRead => m
    case BatteryPass => DrainBattery(m)
    case TimeStampWrite(p) => WriteTimeStamp(m, p)
    case UserIdWrite(p) => WriteUserId(m, p)
  }

  function Run(m: Module, events: seq<Event>): Module
    decreases |events|
  {
    if events == [] then m else Run(Step(m, events[0]), events[1..])
  }

  predicate IsMetadataWrite(e: Event) {
    e.TimeStampWrite? || e.UserIdWrite?
  }

  /**
    Over any interleaving of steps the battery stays within 1..100, and the
    session metadata is only ever changed by the two metadata writes: no
    start, completion or read clears it.
   */
  lemma {:induction false} RunInvariants(m: Module, events: seq<Event>)
    requires 1 <= m.batteryLife <= 100
    ensures 1 <= Run(m, events).batteryLife <= 100
    ensures (forall i :: 0 <= i < |events| ==> !IsMetadataWrite(events[i])) ==>
      SameMetadata(m.service, Run(m, events).service)
    decreases |events|
  {
    if events != [] {
      RunInvariants(Step(m, events[0]), events[1..]);
      if forall i :: 0 <= i < |events| ==> !IsMetadataWrite(events[i]) {
        assert !IsMetadataWrite(events[0]);
        assert forall i :: 0 <= i < |events| - 1 ==> events[1..][i] == events[i + 1];
      }
    }
  }

  /**
    A running session need not have a positive intensity: from the initial module, a target of 5 and then an
    intensity of 0 leave a session running at intensity 0.
   */
  lemma ActiveAtZeroIntensityIsReachable(boot: int, t: int)
    ensures var m := WriteIntensity(WriteTargetTime(Init(boot), [53], t).next, [48], t).next;
      m.service.isTherapyActive && m.service.intensity == 0
  {
    ParseSmallLiterals();
    var m1 := Module(Service(0, 5, 0, 0, false, "", ""), boot, 100);
    assert WriteTargetTime(Init(boot), [53], t).next == m1;
  }
}
