/**
 The BeagleBone demo device: the static variables of the C program as fields of a class, one
 method per handler, and for each method a function on device values that specifies it.
 */
module BeagleDevice {
  import opened Common

  /** A client connection handle; the null handle is `None` where the source allows it. */
  type Connection = nat

  datatype Verdict = Accepted | TemporarilyUnavailable
  datatype Led = Off | On | Flashing
  datatype Output = SPCSO1 | SPCSO2 | SPCSO3 | DPCSO1
  datatype Setting = OpDlTmms | RsDlTmms | OtherAttribute
  datatype AccessResult = Success | ObjectValueInvalid | ObjectAccessDenied

  /** LED and published attributes of one single point output. */
  datatype Point = Point(led: bool, stVal: bool, q: nat, t: nat)

  const QUALITY_GOOD := 0
  const QUALITY_QUESTIONABLE := 3
  const QUALITY_OSCILLATORY := 32
  const QUALITY_SUBSTITUTED := 1024

  const DPC_INTERMEDIATE := 0
  const DPC_OFF := 1
  const DPC_ON := 2

  datatype Device = Device(
    owner: Option<Connection>, automatic: bool,
    spc1: Point, spc2: Point, spc3: Point,
    led4: Led, dpcState: nat, dpcStVal: nat, dpcT: nat,
    onTime: int32, offTime: int32,
    opCnt: int32, opCntStVal: int32, opCntT: nat,
    ledState: bool, nextToggle: nat)

  // ---------- What each handler does to the device value ----------

  function Released(d: Device, c: Connection): Device {
    if d.owner == Some(c) then d.(owner := None, automatic := true) else d
  }

  function Claimed(d: Device, c: Connection): Device {
    if d.owner.None? then d.(owner := Some(c), automatic := false) else d
  }

  /** The verdict is decided after the claim, and a test is refused even for the owner. */
  function VerdictFor(d: Device, c: Connection, test: bool): Verdict {
    if !test && Claimed(d, c).owner == Some(c) then Accepted else TemporarilyUnavailable
  }

  function Point1(on: bool, now: nat): Point { Point(on, on, QUALITY_GOOD + QUALITY_SUBSTITUTED, now) }
  function Point2(on: bool, now: nat): Point { Point(on, on, QUALITY_QUESTIONABLE + QUALITY_OSCILLATORY, now) }
  function Point3(on: bool, now: nat): Point { Point(on, on, QUALITY_GOOD, now) }

  function Switched(d: Device, o: Output, on: bool, now: nat): Device
    requires !o.DPCSO1?
  {
    match o
    case SPCSO1 => d.(spc1 := Point1(on, now))
    case SPCSO2 => d.(spc2 := Point2(on, now))
    case SPCSO3 => d.(spc3 := Point3(on, now))
  }

  function MoveStarted(d: Device, now: nat): Device {
    d.(dpcState := DPC_INTERMEDIATE, dpcStVal := DPC_INTERMEDIATE, dpcT := now, led4 := Flashing)
  }

  function MoveFinished(d: Device, on: bool, start: nat): Device {
    var state := if on then DPC_ON else DPC_OFF;
    d.(led4 := if on then On else Off, dpcState := state, dpcStVal := state, dpcT := start)
  }

  function CounterSet(d: Device, v: int32, now: nat): Device {
    d.(opCnt := v, opCntStVal := v, opCntT := now)
  }

  function SettingResult(a: Setting, v: int32): AccessResult {
    if v < 0 then ObjectValueInvalid else if a.OtherAttribute? then ObjectAccessDenied else Success
  }

  function SettingWritten(d: Device, a: Setting, v: int32): Device {
    if SettingResult(a, v) != Success then d
    else if a.OpDlTmms? then d.(offTime := v)
    else d.(onTime := v)
  }

  predicate TogglesAt(d: Device, now: nat) {
    d.automatic && d.nextToggle <= now
  }

  /** The delay that starts when the device toggles: the on delay when it goes on. */
  function DelayInForce(d: Device): int32 {
    if d.ledState then d.offTime else d.onTime
  }

  function Ticked(d: Device, now: nat): Device {
    if !TogglesAt(d, now) then d
    else
      var on := !d.ledState;
      var counted := if on then CounterSet(d, ToInt32(d.opCnt + 1), now) else d;
      counted.(ledState := on, nextToggle := ToUint64(now + ToUint64(DelayInForce(d))),
               spc1 := Point1(on, now), spc2 := Point2(on, now), spc3 := Point3(on, now))
  }

  /** Power-up: `initLEDs`, the static initialisers and the first deadline. */
  function PowerUp(boot: nat): Device {
    var idle := Point(false, false, QUALITY_GOOD, 0);
    Device(None, true, idle, idle, idle, Off, DPC_INTERMEDIATE, DPC_OFF, 0, 1000, 1000, 0, 0, 0,
           false, ToUint64(boot + 1000))
  }

  // ---------- The program itself ----------

  class BeagleServer {
    var automaticOperationMode: bool
    var controllingClient: Option<Connection>
    var dpcState: nat
    var ledOnTimeMs: int32
    var ledOffTimeMs: int32
    var opCnt: int32
    var ledStateValue: bool
    var nextLedToggleTime: nat
    var spc1: Point
    var spc2: Point
    var spc3: Point
    var led4: Led
    var dpcStVal: nat
    var dpcT: nat
    var opCntStVal: int32
    var opCntT: nat

    function State(): Device
      reads this
    {
      Device(controllingClient, automaticOperationMode, spc1, spc2, spc3, led4, dpcState, dpcStVal, dpcT,
             ledOnTimeMs, ledOffTimeMs, opCnt, opCntStVal, opCntT, ledStateValue, nextLedToggleTime)
    }

    constructor (boot: nat)
      ensures State() == PowerUp(boot)
    {
      automaticOperationMode, controllingClient := true, None;
      dpcState, dpcStVal, dpcT, led4 := DPC_INTERMEDIATE, DPC_OFF, 0, Off;
      ledOnTimeMs, ledOffTimeMs := 1000, 1000;
      opCnt, opCntStVal, opCntT := 0, 0, 0;
      var idle := Point(false, false, QUALITY_GOOD, 0);
      spc1, spc2, spc3 := idle, idle, idle;
      ledStateValue, nextLedToggleTime := false, ToUint64(boot + 1000);
    }

    method ConnectionIndication(connection: Connection, connected: bool)
      modifies this
      ensures State() == if connected then old(State()) else Released(old(State()), connection)
    {
      if !connected {
        if controllingClient == Some(connection) {
          controllingClient := None;
          automaticOperationMode := true;
        }
      }
    }

    method PerformCheck(connection: Connection, test: bool) returns (verdict: Verdict)
      modifies this
      ensures State() == Claimed(old(State()), connection)
      ensures verdict == VerdictFor(old(State()), connection, test)
      ensures verdict == Accepted ==> State().owner == Some(connection) && !test
    {
      if controllingClient == None {
        controllingClient := Some(connection);
        automaticOperationMode := false;
      }
      if test {
        return TemporarilyUnavailable;
      }
      if controllingClient == Some(connection) {
        return Accepted;
      } else {
        return TemporarilyUnavailable;
      }
    }

    method UpdateLed1(newState: bool, timeStamp: nat)
      modifies this`spc1
      ensures spc1 == Point1(newState, timeStamp)
    {
      spc1 := spc1.(led := newState);
      spc1 := spc1.(t := timeStamp);
      spc1 := spc1.(stVal := newState);
      spc1 := spc1.(q := QUALITY_GOOD + QUALITY_SUBSTITUTED);
    }

    method UpdateLed2(newState: bool, timeStamp: nat)
      modifies this`spc2
      ensures spc2 == Point2(newState, timeStamp)
    {
      spc2 := spc2.(led := newState);
      spc2 := spc2.(t := timeStamp);
      spc2 := spc2.(stVal := newState);
      spc2 := spc2.(q := QUALITY_QUESTIONABLE + QUALITY_OSCILLATORY);
    }

    method UpdateLed3(newState: bool, timeStamp: nat)
      modifies this`spc3
      ensures spc3 == Point3(newState, timeStamp)
    {
      spc3 := spc3.(led := newState);
      spc3 := spc3.(t := timeStamp);
      spc3 := spc3.(stVal := newState);
      spc3 := spc3.(q := QUALITY_GOOD);
    }

    /** The double point branch up to its sleep: publish the intermediate state and flash. */
    method StartMove(timeStamp: nat)
      modifies this
      ensures State() == MoveStarted(old(State()), timeStamp)
    {
      dpcState := DPC_INTERMEDIATE;
      dpcStVal := dpcState;
      dpcT := timeStamp;
      led4 := Flashing;
    }

    /** The double point branch after its sleep; the time stamp is the one taken on entry. */
    method FinishMove(newState: bool, timeStamp: nat)
      modifies this
      ensures State() == MoveFinished(old(State()), newState, timeStamp)
    {
      if newState {
        led4 := On;
        dpcState := DPC_ON;
      } else {
        led4 := Off;
        dpcState := DPC_OFF;
      }
      dpcStVal := dpcState;
      dpcT := timeStamp;
    }

    /** The whole handler, for callers to which the sleep is invisible. */
    method ControlBinaryOutput(parameter: Output, newState: bool, test: bool, timeStamp: nat)
      modifies this
      ensures test ==> State() == old(State())
      ensures !test && !parameter.DPCSO1? ==> State() == Switched(old(State()), parameter, newState, timeStamp)
      ensures !test && parameter.DPCSO1? ==>
                State() == MoveFinished(MoveStarted(old(State()), timeStamp), newState, timeStamp)
    {
      if test {
        return;
      }
      if parameter == SPCSO1 {
        UpdateLed1(newState, timeStamp);
      }
      if parameter == SPCSO2 {
        UpdateLed2(newState, timeStamp);
      }
      if parameter == SPCSO3 {
        UpdateLed3(newState, timeStamp);
      }
      if parameter == DPCSO1 {
        StartMove(timeStamp);
        FinishMove(newState, timeStamp);
      }
    }

    method ControlInt32(isOpCntRs: bool, value: int32, test: bool, currentTime: nat)
      modifies this
      ensures State() == if isOpCntRs && !test then CounterSet(old(State()), value, currentTime) else old(State())
    {
      if test {
        return;
      }
      if isOpCntRs {
        opCnt := value;
        opCntT := currentTime;
        opCntStVal := opCnt;
      }
    }

    method WriteSetting(dataAttribute: Setting, newValue: int32) returns (r: AccessResult)
      modifies this
      ensures State() == SettingWritten(old(State()), dataAttribute, newValue)
      ensures r == SettingResult(dataAttribute, newValue)
      ensures r == ObjectValueInvalid <==> newValue < 0
      ensures r == ObjectAccessDenied <==> newValue >= 0 && dataAttribute == OtherAttribute
      ensures r != Success ==> State() == old(State())
      ensures r == Success ==> State() == if dataAttribute == OpDlTmms then old(State()).(offTime := newValue)
                                          else old(State()).(onTime := newValue)
    {
      if newValue < 0 {
        return ObjectValueInvalid;
      }
      if dataAttribute == OpDlTmms {
        ledOffTimeMs := newValue;
        return Success;
      }
      if dataAttribute == RsDlTmms {
        ledOnTimeMs := newValue;
        return Success;
      }
      return ObjectAccessDenied;
    }

    method ScheduleNext(currentTime: nat)
      modifies this`nextLedToggleTime
      ensures nextLedToggleTime == ToUint64(currentTime + ToUint64(if ledStateValue then ledOffTimeMs else ledOnTimeMs))
    {
      if ledStateValue {
        nextLedToggleTime := ToUint64(currentTime + ToUint64(ledOffTimeMs));
      } else {
        nextLedToggleTime := ToUint64(currentTime + ToUint64(ledOnTimeMs));
      }
    }

    method UpdateLeds(newState: bool, timeStamp: nat)
      modifies this`spc1, this`spc2, this`spc3
      ensures spc1 == Point1(newState, timeStamp)
      ensures spc2 == Point2(newState, timeStamp)
      ensures spc3 == Point3(newState, timeStamp)
    {
      UpdateLed1(newState, timeStamp);
      UpdateLed2(newState, timeStamp);
      UpdateLed3(newState, timeStamp);
    }

    method CountUp(currentTime: nat)
      modifies this`opCnt, this`opCntT, this`opCntStVal
      ensures opCnt == opCntStVal == ToInt32(old(opCnt) + 1) && opCntT == currentTime
    {
      opCnt := ToInt32(opCnt + 1);
      opCntT := currentTime;
      opCntStVal := opCnt;
    }

    /** What a round of the main loop does once the deadline has come. */
    method Toggle(currentTime: nat)
      requires TogglesAt(State(), currentTime)
      modifies this
      ensures State() == Ticked(old(State()), currentTime)
    {
      ScheduleNext(currentTime);
      ledStateValue := !ledStateValue;
      if ledStateValue {
        CountUp(currentTime);
      }
      UpdateLeds(ledStateValue, currentTime);
    }

    /** One round of the main loop at the given clock reading. */
    method Tick(currentTime: nat)
      modifies this
      ensures State() == Ticked(old(State()), currentTime)
    {
      if automaticOperationMode {
        if nextLedToggleTime <= currentTime {
          Toggle(currentTime);
        }
      }
    }
  }
}
