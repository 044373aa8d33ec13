/** The velocity, acceleration and current limit of a stepper motor, and the bytes they are sent in. */
module StepperRates {
  import opened Modulo
  import opened Octets
  import opened Stepper

  // ----- what the setters accept

  function SpeedMax(model: Model): real {
    match model case Unipolar => 383.25 case Bipolar => 32768.0 case M3 => 250000.0
  }

  function AccelerationMin(model: Model): real {
    match model case Unipolar => 140.625 case Bipolar => 4000.0 case M3 => 2.0
  }

  function AccelerationMax(model: Model): real {
    match model case Unipolar => 8859.375 case Bipolar => 1020000.0 case M3 => 10000000.0
  }

  /** In amperes; the unipolar board has no limit to set. */
  function CurrentMin(model: Model): real { if model.Bipolar? then 0.0542 else 0.0 }

  function CurrentMax(model: Model): real { if model.Bipolar? then 2.492 else 4.0 }

  predicate Accepted(model: Model, acceleration: real, speed: real, current: real) {
    && AccelerationMin(model) <= acceleration <= AccelerationMax(model) && 0.0 <= speed <= SpeedMax(model)
    && CurrentMin(model) <= current <= CurrentMax(model)
  }

  // ----- the bytes

  /** round() of the C library: halves away from zero. */
  function Round(x: real): int { if x >= 0.0 then (x + 0.5).Floor else -((-x + 0.5).Floor) }

  /** The nearest of so many steps from 0 to the largest value. */
  function Steps(value: real, largest: real, steps: nat): int
    requires largest > 0.0
  {
    Round(value / largest * steps as real)
  }

  /** The level of the chip's reference voltage, of 64. */
  function CurrentLevel(current: real): int {
    Round((current * 8.0 * 0.15 - 2.08) / 2.08 * 32.0 + 31.0)
  }

  function AccelerationUnits(model: Model, acceleration: real): int {
    match model
    case Unipolar => Steps(acceleration, AccelerationMax(model), 63)
    case Bipolar => Steps(acceleration, AccelerationMax(model), 255)
    case M3 => acceleration.Floor
  }

  function SpeedUnits(model: Model, speed: real): int {
    match model
    case Unipolar => Steps(speed, SpeedMax(model), 511)
    case Bipolar => Steps(speed, SpeedMax(model), 4095)
    case M3 => speed.Floor
  }

  function CurrentUnits(model: Model, current: real): int {
    match model
    case Unipolar => 0
    case Bipolar => CurrentLevel(current)
    case M3 => Steps(current, CurrentMax(model), 255)
  }

  /** How a device reads the three numbers from the bytes behind the flags. */
  function Units(model: Model, s: seq<Byte>): (int, int, int)
    requires |s| == Width(model)
  {
    if model.M3? then
      (s[0] as int * 0x10000 + s[1] as int * 0x100 + s[2], s[3] as int * 0x10000 + s[4] as int * 0x100 + s[5],
       s[6] as int)
    else
      (s[0] as int, s[1] as int * 0x100 + s[2], s[3] as int)
  }

  lemma RoundNear(x: real, n: nat)
    requires 0.0 <= x <= n as real
    ensures 0 <= Round(x) <= n && Nearest(Round(x), x)
  {
  }

  lemma Scaled(q: real, k: real)
    requires 0.0 <= q <= 1.0 && k >= 0.0
    ensures 0.0 <= q * k <= k
  {
  }

  /** The nearest step is at most half a step off. */
  lemma StepsFit(value: real, largest: real, steps: nat)
    requires 0.0 <= value <= largest && largest > 0.0
    ensures 0 <= Steps(value, largest, steps) <= steps
    ensures Nearest(Steps(value, largest, steps), value / largest * steps as real)
  {
    var q, k := value / largest, steps as real;
    QuotientBelow(value, largest, 0.0);
    QuotientAtMost(value, largest, 1.0);
    Scaled(q, k);
    RoundNear(q * k, steps);
  }

  /** Whoever is not below one step is not rounded to none. */
  lemma StepsPositive(value: real, least: real, steps: nat)
    requires 0.0 < least <= value <= steps as real * least
    ensures Steps(value, steps as real * least, steps) > 0
  {
    var q, k := value / (steps as real * least), steps as real;
    StepsFit(value, k * least, steps);
    assert q * (k * least) == value;
    assert (q * k - 1.0) * least == value - least;
    assert q * k >= 1.0 by {
      QuotientAtMost(least, least, 1.0);
      QuotientBelow(value, least, 1.0);
      assert value / least == q * k;
    }
  }

  /** Each setting is sent as the nearest step of its scale; the third model is sent whole units, cut off. */
  lemma UnitsNearest(model: Model, acceleration: real, speed: real, current: real)
    requires Accepted(model, acceleration, speed, current)
    ensures match model
      case Unipolar =>
        && Nearest(AccelerationUnits(model, acceleration), acceleration / 8859.375 * 63.0)
        && Nearest(SpeedUnits(model, speed), speed / 383.25 * 511.0)
      case Bipolar =>
        && Nearest(AccelerationUnits(model, acceleration), acceleration / 1020000.0 * 255.0)
        && Nearest(SpeedUnits(model, speed), speed / 32768.0 * 4095.0)
        && Nearest(CurrentUnits(model, current), (current * 1.2 - 2.08) / 2.08 * 32.0 + 31.0)
      case M3 =>
        && AccelerationUnits(model, acceleration) as real <= acceleration
           < AccelerationUnits(model, acceleration) as real + 1.0
        && SpeedUnits(model, speed) as real <= speed < SpeedUnits(model, speed) as real + 1.0
        && Nearest(CurrentUnits(model, current), current / 4.0 * 255.0)
  {
    hide Steps;
    match model
    case Unipolar =>
      StepsFit(acceleration, 8859.375, 63);
      StepsFit(speed, 383.25, 511);
    case Bipolar =>
      StepsFit(acceleration, 1020000.0, 255);
      StepsFit(speed, 32768.0, 4095);
    case M3 =>
      StepsFit(current, 4.0, 255);
  }

  /** Accepted values fit their bytes, and no motor is left without acceleration. */
  lemma UnitsFit(model: Model, acceleration: real, speed: real, current: real)
    requires Accepted(model, acceleration, speed, current)
    ensures 0 < AccelerationUnits(model, acceleration) < if model.M3? then 0x1000000 else 256
    ensures 0 <= SpeedUnits(model, speed) < if model.M3? then 0x1000000 else 4096
    ensures 0 <= CurrentUnits(model, current) < if model.Bipolar? then 46 else 256
  {
    hide Steps;
    StepsFit(speed, SpeedMax(model), 511);
    StepsFit(speed, SpeedMax(model), 4095);
    match model
    case Unipolar =>
      StepsFit(acceleration, 8859.375, 63);
      StepsPositive(acceleration, 140.625, 63);
    case Bipolar =>
      StepsFit(acceleration, 1020000.0, 255);
      StepsPositive(acceleration, 4000.0, 255);
    case M3 =>
    if model.M3? { StepsFit(current, CurrentMax(model), 255); }
  }

  /** The bytes behind the flags of a velocity packet. */
  predicate RateBytes(model: Model, s: seq<Byte>, acceleration: real, speed: real, current: real) {
    && |s| == Width(model) && s[|s| - 1] == 0 && (model.Bipolar? ==> s[4] == 0) && (model.Unipolar? ==> s[4] == 0)
    && Units(model, s)
       == (AccelerationUnits(model, acceleration), SpeedUnits(model, speed), CurrentUnits(model, current))
  }

  /** Steps per second that a raw speed in a report stands for. */
  function ReportedSpeed(model: Model, raw: int): real {
    match model
    case Unipolar => raw as real / 511.0 * 383.25
    case Bipolar => raw as real / 4096.0 * 32768.0
    case M3 => raw as real / 256.0
  }

  /** A raw speed is believed just when the speed it stands for is one the motor can be set to, in either direction. */
  lemma SpeedBelieved(model: Model, raw: int)
    ensures -(SpeedLimit(model) as int) <= raw <= SpeedLimit(model) <==>
      -SpeedMax(model) <= ReportedSpeed(model, raw) <= SpeedMax(model)
    ensures ReportedSpeed(model, raw) == 0.0 <==> raw == 0
  {
  }

  /** A faster setting is never sent as a slower one; standstill and full speed are sent as such. */
  lemma FasterIsMore(model: Model, slow: real, fast: real)
    requires 0.0 <= slow <= fast <= SpeedMax(model)
    ensures SpeedUnits(model, slow) <= SpeedUnits(model, fast)
    ensures SpeedUnits(model, 0.0) == 0
    ensures SpeedUnits(model, SpeedMax(model))
            == match model case Unipolar => 511 case Bipolar => 4095 case M3 => 250000
  {
  }
}
