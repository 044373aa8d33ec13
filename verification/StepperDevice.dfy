/** One motor of the stepper device object: packets made byte by byte, reports read back. */
module StepperDevice {
  import opened Octets
  import opened Rings
  import opened Stepper
  import opened StepperRates

  datatype Kind = PositionPacket | VelAccelPacket | ResetPacket

  function TypeBits(kind: Kind): nat {
    match kind case PositionPacket => 0x00 case VelAccelPacket => 0x10 case ResetPacket => 0x20
  }

  /** How the board reads the first byte of a packet: motor, kind and counter. */
  lemma HeaderRead(index: nat, kind: Kind, counter: Nibble)
    requires index < 4
    ensures var b := index * 64 + TypeBits(kind) + counter;
      && b < 256 && b / 64 == index && b % 16 == counter
      && (b / 32 % 2 == 1 <==> kind.ResetPacket?) && (b / 16 % 2 == 1 <==> kind.VelAccelPacket?)
  {
  }

  /** Where speed and position lie in a report. */
  function SpeedEnd(model: Model): nat { if model.M3? then 5 else 3 }

  /** What a report says. */
  function StatusOf(model: Model, buffer: seq<Byte>): Status
    requires |buffer| >= SpeedEnd(model) + Width(model)
  {
    var e := SpeedEnd(model);
    Status(buffer[0] % 16, buffer[0] / 16 % 2 == 1, buffer[0] / 32 % 2 == 1,
           Join(buffer[1..e]), DecodePosition(model, buffer[e..e + Width(model)]))
  }

  /**
   * A report as the device makes it, behind what it says of the other motors: the counter of the last command with the
   * flags for done and disabled above it, then speed and position in signed bytes, the highest first.
   */
  function ReportBytes(model: Model, top: nat, counter: Nibble, done: bool, disabled: bool, speed: int, position: int):
      seq<Byte>
    requires top < 4
  {
    [top * 0x40 + (if disabled then 0x20 else 0) + (if done then 0x10 else 0) + counter]
    + Split(speed, SpeedEnd(model) - 1) + Split(position, Width(model))
  }

  /** Numbers that two or four bytes hold, and six or eight. */
  predicate FitsReport(model: Model, speed: int, position: int) {
    if model.M3? then -0x80000000 <= speed < 0x80000000 && -0x8000000000000000 <= position < 0x8000000000000000
    else -0x8000 <= speed < 0x8000 && -0x800000000000 <= position < 0x800000000000
  }

  lemma FlagsOf(top: nat, counter: Nibble, done: bool, disabled: bool)
    requires top < 4
    ensures var b := top * 0x40 + (if disabled then 0x20 else 0) + (if done then 0x10 else 0) + counter;
      b < 256 && b % 16 == counter && (b / 16 % 2 == 1) == done && (b / 32 % 2 == 1) == disabled
  {
  }

  lemma ReportParts(model: Model, top: nat, counter: Nibble, done: bool, disabled: bool, speed: int, position: int,
      rest: seq<Byte>)
    requires top < 4
    ensures var b, e := ReportBytes(model, top, counter, done, disabled, speed, position) + rest, SpeedEnd(model);
      && |b| >= e + Width(model) && b[1..e] == Split(speed, e - 1)
      && b[e..e + Width(model)] == Split(position, Width(model))
  {
    hide Split;
  }

  lemma JoinFits(model: Model, speed: int, position: int)
    requires FitsReport(model, speed, position)
    ensures Join(Split(speed, SpeedEnd(model) - 1)) == speed && Join(Split(position, Width(model))) == position
  {
    hide Join, Split, Power256;
    Powers();
    JoinSplit(speed, SpeedEnd(model) - 1);
    JoinSplit(position, Width(model));
  }

  /** Of a position in fractions of a step: the whole step reached, half a step being taken off first. */
  predicate WholeStep(model: Model, position: int, step: int) {
    match model
    case Unipolar => 64 * step + 32 <= position < 64 * (step + 1) + 32
    case Bipolar => 8 * step + 4 <= position < 8 * (step + 1) + 4
    case M3 => step == position
  }

  /**
   * What the device put into a report is what the library reads: counter, flags and speed as they are, and the whole
   * step reached.
   */
  lemma ReportRead(model: Model, top: nat, counter: Nibble, done: bool, disabled: bool, speed: int, position: int,
      rest: seq<Byte>)
    requires top < 4 && FitsReport(model, speed, position)
    ensures var b := ReportBytes(model, top, counter, done, disabled, speed, position) + rest;
      && |b| >= SpeedEnd(model) + Width(model)
      && var s := StatusOf(model, b);
         s == Status(counter, done, disabled, speed, s.position) && WholeStep(model, position, s.position)
  {
    hide Split, Join;
    FlagsOf(top, counter, done, disabled);
    ReportParts(model, top, counter, done, disabled, speed, position, rest);
    JoinFits(model, speed, position);
    hide ReportBytes;
  }

  /** The motor is where and as fast as the library last asked: what it cannot believe leaves the old speed. */
  predicate AsAsked(model: Model, m: Motor, speed: int, step: int) {
    && m.position == (if -(Largest(model) as int) <= step <= Largest(model) then Some(step) else None)
    && (if -(SpeedLimit(model) as int) <= speed <= SpeedLimit(model) then speed == 0 else m.speedEcho == Some(0))
  }

  /**
   * When a report makes the motor stopped: it says done, and the motor was stopped, or the report is up to date and
   * the motor is off, or at rest where it was sent to. A report that does not say done makes it not stopped.
   */
  lemma ReportJudged(model: Model, m: Motor, top: nat, counter: Nibble, done: bool, disabled: bool, speed: int,
      position: int, step: int, rest: seq<Byte>)
    requires top < 4 && FitsReport(model, speed, position) && WholeStep(model, position, step)
    ensures var b := ReportBytes(model, top, counter, done, disabled, speed, position) + rest;
      && |b| >= SpeedEnd(model) + Width(model)
      && var s := StatusOf(model, b); var after := Judge(Hear(model, m, s), s.done).stopped;
         && (after == Some(true) <==>
               && done
               && (m.stopped == Some(true)
                   || (m.packetCounter == Some(counter) && (disabled || AsAsked(model, m, speed, step)))))
         && (after != Some(true) ==> after == if done then m.stopped else Some(false))
  {
    hide StatusOf, ReportBytes;
    ReportRead(model, top, counter, done, disabled, speed, position, rest);
  }

  /** A device that stands on the step it was sent to tells the position in the bytes it was told. */
  lemma PositionTold(model: Model, step: int)
    ensures var position := step * Fractions(model) + Fractions(model) / 2;
      WholeStep(model, position, step) && Split(position, Width(model)) == EncodePosition(model, step)
  {
  }

  function SignedByte(b: Byte): int { if b >= 128 then b - 256 else b }

  lemma JoinTwo(s: seq<Byte>)
    requires |s| == 2
    ensures Join(s) == 0x100 * SignedByte(s[0]) + s[1]
  {
    assert s[..1] == [s[0]];
  }

  lemma JoinFour(s: seq<Byte>)
    requires |s| == 4
    ensures Join(s) == 0x1000000 * SignedByte(s[0]) + 0x10000 * s[1] as int + 0x100 * s[2] as int + s[3]
  {
    hide Join;
    JoinTwo(s[..2]);
    JoinMore(s, 2);
    JoinMore(s, 3);
  }

  lemma JoinMore(s: seq<Byte>, k: nat)
    requires 0 < k < |s|
    ensures Join(s[..k + 1]) == Join(s[..k]) * 256 + s[k]
    ensures s[..|s|] == s
  {
    assert s[..k + 1][..k] == s[..k];
  }

  lemma JoinSix(s: seq<Byte>)
    requires |s| == 6
    ensures Join(s) == 0x10000000000 * SignedByte(s[0]) + 0x100000000 * s[1] as int + 0x1000000 * s[2] as int
      + 0x10000 * s[3] as int + 0x100 * s[4] as int + s[5]
  {
    hide Join;
    JoinFour(s[..4]);
    JoinMore(s, 4);
    JoinMore(s, 5);
  }

  lemma JoinEight(s: seq<Byte>)
    requires |s| == 8
    ensures Join(s) == 0x100000000000000 * SignedByte(s[0]) + 0x1000000000000 * s[1] as int
      + 0x10000000000 * s[2] as int + 0x100000000 * s[3] as int + 0x1000000 * s[4] as int
      + 0x10000 * s[5] as int + 0x100 * s[6] as int + s[7]
  {
    hide Join;
    JoinSix(s[..6]);
    JoinMore(s, 6);
    JoinMore(s, 7);
  }

  lemma {:induction false} SplitAt(v: int, n: nat, k: nat)
    requires k < n
    ensures Split(v, n)[k] == Shift(v, n - 1 - k) % 256
    decreases n
  {
    if k < n - 1 { SplitAt(v / 256, n - 1, k); }
  }

  function Or(x: Option<real>, default: real): real { if x.Some? then x.value else default }

  lemma ThreeBytes(v: nat)
    requires v < 0x1000000
    ensures v / 0x10000 < 256 && v / 0x10000 * 0x10000 + v / 0x100 % 256 * 0x100 + v % 256 == v
  {
  }

  lemma NoCurrent(model: Model)
    ensures CurrentMin(model) <= 0.5 <= CurrentMax(model) && (model.Unipolar? ==> CurrentMin(model) == 0.0)
  {
  }

  class StepperMotor {
    const model: Model
    var motorPositionEcho: Option<int>
    var motorSpeedEcho: Option<int>
    var motorEngagedStateEcho: Option<bool>
    var motorStoppedState: Option<bool>
    var packetCounterEcho: Option<Nibble>
    var motorPosition: Option<int>
    var motorPositionReset: int
    var motorEngagedState: Option<bool>
    var packetCounter: Option<Nibble>
    var motorAcceleration: Option<real>
    var motorSpeed: Option<real>
    var motorCurrentLimit: Option<real>

    /** The setters let nothing out of range in. */
    predicate SettingsAccepted()
      reads this
    {
      && (motorAcceleration.Some? ==> AccelerationMin(model) <= motorAcceleration.value <= AccelerationMax(model))
      && (motorSpeed.Some? ==> 0.0 <= motorSpeed.value <= SpeedMax(model))
      && (motorCurrentLimit.Some? ==> CurrentMin(model) <= motorCurrentLimit.value <= CurrentMax(model))
    }

    /** The current limit sent; the unipolar board has none. */
    function CurrentSent(): real
      reads this
    {
      if model.Unipolar? || motorCurrentLimit.None? then 0.0 else motorCurrentLimit.value
    }

    ghost function State(): Motor
      reads this
    {
      Motor(packetCounter, packetCounterEcho, motorStoppedState, motorPosition, motorPositionEcho, motorSpeedEcho,
            motorEngagedStateEcho)
    }

    /** Six or eight bytes, the highest first. */
    method PutPosition(buffer: array<Byte>, position: int)
      requires buffer.Length >= 2 + Width(model)
      modifies buffer
      ensures buffer[..2] == old(buffer[..2]) && buffer[2..2 + Width(model)] == Split(position, Width(model))
    {
      if model.M3? {
        hide Shift, Split;
        buffer[2] := Shift(position, 7) % 256;
        buffer[3] := Shift(position, 6) % 256;
        ghost var front := buffer[..4];
        PutLow(buffer, 4, position);
        assert buffer[..4] == front;
        EightBytes(buffer[2..10], position);
      } else {
        PutLow(buffer, 2, position);
      }
    }

    static method PutLow(buffer: array<Byte>, at: nat, position: int)
      requires buffer.Length >= at + 6
      modifies buffer
      ensures buffer[..at] == old(buffer[..at]) && buffer[at..at + 6] == Split(position, 6)
    {
      hide Shift, Split;
      SplitAt(position, 6, 0);
      SplitAt(position, 6, 1);
      SplitAt(position, 6, 2);
      SplitAt(position, 6, 3);
      SplitAt(position, 6, 4);
      SplitAt(position, 6, 5);
      buffer[at] := Shift(position, 5) % 256;
      buffer[at + 1] := Shift(position, 4) % 256;
      buffer[at + 2] := Shift(position, 3) % 256;
      buffer[at + 3] := Shift(position, 2) % 256;
      buffer[at + 4] := Shift(position, 1) % 256;
      buffer[at + 5] := Shift(position, 0) % 256;
    }

    /** Advance the counter, clear the stopped state, and put counter and flags in front. */
    method MakeHeader(buffer: array<Byte>, index: nat, kind: Kind)
      requires index < 4 && buffer.Length >= 2
      modifies buffer, this`packetCounter, this`motorStoppedState, this`motorEngagedState
      ensures State() == Make(old(State()))
      ensures motorEngagedState == (if old(motorEngagedState).None? then Some(false) else old(motorEngagedState))
      ensures buffer[0] == index * 64 + TypeBits(kind) + packetCounter.value
      ensures buffer[1] == if old(motorEngagedState.Some? && motorEngagedState.value) then 0 else 0x20
    {
      if packetCounter.None? { packetCounter := Some(0); }
      packetCounter := Some((packetCounter.value + 1) % 16);
      motorStoppedState := Some(false);
      if motorEngagedState.None? { motorEngagedState := Some(false); }
      var flags := if motorEngagedState.value then 0 else 0x20;
      buffer[0] := index * 64 + TypeBits(kind) + packetCounter.value;
      buffer[1] := flags;
    }

    /** What has never been set gets a middling value. */
    method FillSettings()
      requires SettingsAccepted()
      modifies this`motorAcceleration, this`motorSpeed, this`motorCurrentLimit
      ensures SettingsAccepted() && motorAcceleration.Some? && motorSpeed.Some?
      ensures motorAcceleration == (if old(motorAcceleration).Some? then old(motorAcceleration)
                                    else Some(AccelerationMax(model) / 2.0))
      ensures motorSpeed == if old(motorSpeed).Some? then old(motorSpeed) else Some(SpeedMax(model) / 2.0)
      ensures motorCurrentLimit == if model.Unipolar? || old(motorCurrentLimit).Some? then old(motorCurrentLimit)
                                   else Some(0.5)
    {
      if motorSpeed.None? { motorSpeed := Some(SpeedMax(model) / 2.0); }
      if motorAcceleration.None? { motorAcceleration := Some(AccelerationMax(model) / 2.0); }
      if !model.Unipolar? && motorCurrentLimit.None? { motorCurrentLimit := Some(0.5); }
    }

    /** The bytes of a velocity packet. */
    method PutRates(buffer: array<Byte>)
      requires buffer.Length >= 2 + Width(model) && SettingsAccepted() && motorAcceleration.Some? && motorSpeed.Some?
      requires model.Unipolar? || motorCurrentLimit.Some?
      modifies buffer
      ensures buffer[..2] == old(buffer[..2])
      ensures RateBytes(model, buffer[2..2 + Width(model)], motorAcceleration.value, motorSpeed.value, CurrentSent())
    {
      hide AccelerationUnits, SpeedUnits, CurrentUnits, AccelerationMin, AccelerationMax, SpeedMax, CurrentMin,
        CurrentMax;
      NoCurrent(model);
      UnitsFit(model, motorAcceleration.value, motorSpeed.value, CurrentSent());
      var accel := AccelerationUnits(model, motorAcceleration.value);
      var speed := SpeedUnits(model, motorSpeed.value);
      var currentLimit := CurrentUnits(model, CurrentSent());
      if model.M3? {
        PutLong(buffer, accel, speed, currentLimit);
      } else {
        PutShort(buffer, accel, speed, currentLimit);
      }
    }

    /** Three bytes, three bytes and one. */
    method PutLong(buffer: array<Byte>, accel: nat, speed: nat, currentLimit: Byte)
      requires model.M3? && buffer.Length >= 10 && accel < 0x1000000 && speed < 0x1000000
      modifies buffer
      ensures buffer[..2] == old(buffer[..2]) && buffer[9] == 0
      ensures Units(model, buffer[2..10]) == (accel, speed, currentLimit as int)
    {
      ThreeBytes(accel);
      ThreeBytes(speed);
      buffer[2], buffer[3], buffer[4] := accel / 0x10000, accel / 0x100 % 256, accel % 256;
      buffer[5], buffer[6], buffer[7] := speed / 0x10000, speed / 0x100 % 256, speed % 256;
      buffer[8], buffer[9] := currentLimit, 0;
    }

    /** One byte, two and one. */
    method PutShort(buffer: array<Byte>, accel: Byte, speed: nat, currentLimit: Byte)
      requires !model.M3? && buffer.Length >= 8 && speed < 0x10000
      modifies buffer
      ensures buffer[..2] == old(buffer[..2]) && buffer[6] == buffer[7] == 0
      ensures Units(model, buffer[2..8]) == (accel as int, speed, currentLimit as int)
    {
      buffer[2], buffer[3], buffer[4], buffer[5] := accel, speed / 256, speed % 256, currentLimit;
      buffer[6], buffer[7] := 0, 0;
    }

    /** makePacket */
    method MakePacket(buffer: array<Byte>, index: nat, kind: Kind)
      requires index < 4 && buffer.Length >= 2 + Width(model) && SettingsAccepted()
      requires kind.PositionPacket? ==> motorPosition.Some?
      modifies buffer, this`packetCounter, this`motorStoppedState, this`motorEngagedState, this`motorPosition,
               this`motorAcceleration, this`motorSpeed, this`motorCurrentLimit
      ensures var m := old(State());
        State() == Make(if kind.ResetPacket? then m.(position := Some(motorPositionReset)) else m)
      ensures buffer[0] == index * 64 + TypeBits(kind) + packetCounter.value
      ensures buffer[1] == if old(motorEngagedState.Some? && motorEngagedState.value) then 0 else 0x20
      ensures var s := buffer[2..2 + Width(model)];
        match kind
        case PositionPacket => s == EncodePosition(model, motorPosition.value)
        case ResetPacket => s == EncodePosition(model, motorPositionReset)
        case VelAccelPacket =>
          && motorAcceleration == Some(Or(old(motorAcceleration), AccelerationMax(model) / 2.0))
          && motorSpeed == Some(Or(old(motorSpeed), SpeedMax(model) / 2.0))
          && RateBytes(model, s, motorAcceleration.value, motorSpeed.value,
                       if model.Unipolar? then 0.0 else Or(old(motorCurrentLimit), 0.5))
    {
      hide Split, Next, TypeBits, RateBytes, AccelerationMin, AccelerationMax, SpeedMax, CurrentMin, CurrentMax;
      MakeHeader(buffer, index, kind);
      ghost var header := buffer[..2];
      assert header[0] == buffer[0] && header[1] == buffer[1];
      match kind
      case PositionPacket =>
        PutPosition(buffer, motorPosition.value * Fractions(model) + Fractions(model) / 2);
      case ResetPacket =>
        motorPosition := Some(motorPositionReset);
        PutPosition(buffer, motorPositionReset * Fractions(model) + Fractions(model) / 2);
      case VelAccelPacket =>
        FillSettings();
        PutRates(buffer);
      assert buffer[..2] == header && buffer[0] == header[0] && buffer[1] == header[1];
    }

    /** Read the bytes of a report. */
    method ParseReport(buffer: seq<Byte>) returns (s: Status)
      requires |buffer| >= SpeedEnd(model) + Width(model)
      ensures s == StatusOf(model, buffer)
    {
      hide Join;
      var speed, position;
      if model.M3? {
        JoinFour(buffer[1..5]);
        JoinEight(buffer[5..13]);
        speed := 0x1000000 * SignedByte(buffer[1]) + 0x10000 * buffer[2] as int + 0x100 * buffer[3] as int + buffer[4];
        position := 0x100000000000000 * SignedByte(buffer[5]) + 0x1000000000000 * buffer[6] as int
          + 0x10000000000 * buffer[7] as int + 0x100000000 * buffer[8] as int + 0x1000000 * buffer[9] as int
          + 0x10000 * buffer[10] as int + 0x100 * buffer[11] as int + buffer[12];
      } else {
        JoinTwo(buffer[1..3]);
        JoinSix(buffer[3..9]);
        speed := 0x100 * SignedByte(buffer[1]) + buffer[2];
        position := 0x10000000000 * SignedByte(buffer[3]) + 0x100000000 * buffer[4] as int
          + 0x1000000 * buffer[5] as int + 0x10000 * buffer[6] as int + 0x100 * buffer[7] as int + buffer[8];
        // to whole steps, the half added by the device taken off first
        position := if model.Unipolar? then (position - 0x20) / 64 else (position - 0x04) / 8;
      }
      s := Status(buffer[0] % 16, buffer[0] / 16 % 2 == 1, buffer[0] / 32 % 2 == 1, speed, position);
    }

    /** dataInput, uninterrupted: the values are stored, then the stopped state is decided. */
    method DataInput(buffer: seq<Byte>) returns (justStopped: bool)
      requires |buffer| >= SpeedEnd(model) + Width(model)
      modifies this`motorPositionEcho, this`motorSpeedEcho, this`motorEngagedStateEcho, this`packetCounterEcho,
               this`motorStoppedState
      ensures var s := StatusOf(model, buffer); State() == Judge(Hear(model, old(State()), s), s.done)
      ensures justStopped <==> old(motorStoppedState) == Some(false) && motorStoppedState == Some(true)
    {
      hide StatusOf;
      var s := ParseReport(buffer);
      packetCounterEcho := Some(s.counter);
      if s.position > Largest(model) || s.position < -(Largest(model) as int) {
        motorPositionEcho := None;
      } else {
        motorPositionEcho := Some(s.position);
      }
      if !(s.speed > SpeedLimit(model) || s.speed < -(SpeedLimit(model) as int)) { motorSpeedEcho := Some(s.speed); }
      motorEngagedStateEcho := Some(!s.disabled);
      justStopped := false;
      if packetCounter == packetCounterEcho && s.done
        && ((motorPositionEcho == motorPosition && motorSpeedEcho == Some(0)) || motorEngagedStateEcho == Some(false))
      {
        if motorStoppedState == Some(false) { justStopped := true; }
        motorStoppedState := Some(true);
      } else if !s.done {
        motorStoppedState := Some(false);
      }
    }
  }

  lemma EightBytes(s: seq<Byte>, position: int)
    requires |s| == 8 && s[0] == Shift(position, 7) % 256 && s[1] == Shift(position, 6) % 256
    requires s[2..] == Split(position, 6)
    ensures s == Split(position, 8)
  {
    hide Shift, Split;
    SplitAt(position, 8, 0);
    SplitAt(position, 8, 1);
    SplitTail(position, 8);
    var t := Split(position, 8);
    assert s == s[..2] + s[2..] && t == t[..2] + t[2..];
    assert s[..2] == t[..2];
  }

  /** The last six of eight bytes are those of the number itself. */
  lemma SplitTail(v: int, n: nat)
    requires n >= 6
    ensures Split(v, n)[n - 6..] == Split(v, 6)
  {
    forall k | 0 <= k < 6 ensures Split(v, n)[n - 6 + k] == Split(v, 6)[k] {
      SplitAt(v, n, n - 6 + k);
      SplitAt(v, 6, k);
    }
  }
}
