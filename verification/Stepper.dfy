/** One stepper motor: the packet counter that tells whether a report is up to date, and the position codec. */
module Stepper {
  import opened Octets
  import opened Rings

  // ----- positions

  datatype Model = Unipolar | Bipolar | M3

  /** v >> 8n */
  function Shift(v: int, n: nat): int
    decreases n
  {
    if n == 0 then v else Shift(v / 256, n - 1)
  }

  function Power256(n: nat): nat
    ensures Power256(n) > 0
  {
    if n == 0 then 1 else 256 * Power256(n - 1)
  }

  /** The n low bytes of v, the highest first. */
  function Split(v: int, n: nat): (s: seq<Byte>)
    ensures |s| == n
    decreases n
  {
    if n == 0 then [] else Split(v / 256, n - 1) + [v % 256]
  }

  /** A signed number from its bytes, the highest first. */
  function Join(s: seq<Byte>): int
    requires s != []
  {
    if |s| == 1 then (if s[0] >= 128 then s[0] - 256 else s[0] as int)
    else Join(s[..|s| - 1]) * 256 + s[|s| - 1]
  }

  lemma {:induction false} JoinSplit(v: int, n: nat)
    requires n > 0 && -128 * Power256(n - 1) <= v < 128 * Power256(n - 1)
    ensures Join(Split(v, n)) == v
    decreases n
  {
    if n > 1 {
      var p := Power256(n - 2);
      assert -128 * p <= v / 256 < 128 * p;
      JoinSplit(v / 256, n - 1);
      assert Split(v, n)[..n - 1] == Split(v / 256, n - 1);
    } else {
      assert Split(v, 1) == [v % 256];
    }
  }

  /** Every packet carries positions in fractions of a step, with half a step added. */
  function Fractions(model: Model): (n: nat)
    ensures n > 0
  {
    match model case Unipolar => 64 case Bipolar => 8 case M3 => 1
  }

  function Width(model: Model): (n: nat) { if model.M3? then 8 else 6 }

  function Largest(model: Model): nat { if model.M3? then 1000000000000000 else 0x7FFFFFFFFF }

  function EncodePosition(model: Model, position: int): (s: seq<Byte>)
    ensures |s| == Width(model)
  {
    Split(position * Fractions(model) + Fractions(model) / 2, Width(model))
  }

  function DecodePosition(model: Model, s: seq<Byte>): int
    requires |s| == Width(model)
  {
    (Join(s) - Fractions(model) / 2) / Fractions(model)
  }

  lemma Powers()
    ensures Power256(1) == 0x100 && Power256(3) == 0x1000000
    ensures Power256(5) == 0x10000000000 && Power256(7) == 0x100000000000000
  {
    assert Power256(5) == 256 * (256 * Power256(3));
  }

  /** A position the library accepts comes back as it was sent. */
  lemma PositionRoundTrip(model: Model, position: int)
    requires -(Largest(model) as int) <= position <= Largest(model)
    ensures DecodePosition(model, EncodePosition(model, position)) == position
  {
    hide Join, Split, Power256;
    Powers();
    JoinSplit(position * Fractions(model) + Fractions(model) / 2, Width(model));
  }

  // ----- the host's side of one motor

  type Nibble = n: nat | n < 16

  /** A status packet: the counter of the last command applied, and what the motor is doing. */
  datatype Status = Status(counter: Nibble, done: bool, disabled: bool, speed: int, position: int)

  /** What the library keeps for a motor; None stands for the unknown values. */
  datatype Motor = Motor(packetCounter: Option<Nibble>, packetCounterEcho: Option<Nibble>, stopped: Option<bool>,
    position: Option<int>, positionEcho: Option<int>, speedEcho: Option<int>, engagedEcho: Option<bool>)

  /** The counter part of makePacket. */
  function Next(counter: Option<Nibble>): (n: Nibble) {
    ((if counter.None? then 0 else counter.value) + 1) % 16
  }

  function Make(m: Motor): Motor { m.(packetCounter := Some(Next(m.packetCounter)), stopped := Some(false)) }

  /** The highest raw speed that is in range. */
  function SpeedLimit(model: Model): nat {
    match model case Unipolar => 511 case Bipolar => 4096 case M3 => 64000000
  }

  /** dataInput up to the write lock. */
  function Hear(model: Model, m: Motor, s: Status): Motor {
    m.(packetCounterEcho := Some(s.counter), engagedEcho := Some(!s.disabled),
       positionEcho := if -(Largest(model) as int) <= s.position <= Largest(model) then Some(s.position) else None,
       speedEcho := if -(SpeedLimit(model) as int) <= s.speed <= SpeedLimit(model) then Some(s.speed) else m.speedEcho)
  }

  predicate AtRest(m: Motor) {
    (m.positionEcho == m.position && m.speedEcho == Some(0)) || m.engagedEcho == Some(false)
  }

  /** dataInput under the write lock: the only place where the stopped state becomes true. */
  function Judge(m: Motor, done: bool): Motor {
    if m.packetCounter == m.packetCounterEcho && done && AtRest(m) then m.(stopped := Some(true))
    else if !done then m.(stopped := Some(false))
    else m
  }

  // ----- the protocol

  /** A command on its way: its number since attachment and the counter it carries. */
  datatype Command = Command(number: nat, counter: Nibble)

  /** A report on its way, with the number of the last command applied when it was made. */
  datatype Report = Report(status: Status, applied: nat)

  datatype System = System(motor: Motor, issued: nat, outbox: seq<Command>,
    device: Report, reports: seq<Report>, echoed: nat, heard: Option<bool>)

  datatype Event =
    | Issue(target: Option<int>, accepted: bool) // makePacket, then sendpacket, which may time out
    | Apply // the device takes the next command
    | Move(done: bool, disabled: bool, speed: int, position: int) // the motor turns
    | Tell // the device makes a report
    | Parse // dataInput up to the lock
    | Decide // dataInput under the lock

  predicate Can(s: System, e: Event) {
    match e
    case Issue(_, _) => true
    case Apply => s.outbox != []
    case Move(_, _, _, _) => true
    case Tell => true
    case Parse => s.reports != [] && s.heard.None?
    case Decide => s.heard.Some?
  }

  function Step(model: Model, s: System, e: Event): System
    requires Can(s, e)
  {
    match e
    case Issue(position, accepted) =>
      var m := Make(if position.Some? then s.motor.(position := position) else s.motor);
      var c := Command(s.issued + 1, m.packetCounter.value);
      s.(motor := m, issued := s.issued + 1, outbox := if accepted then s.outbox + [c] else s.outbox)
    case Apply =>
      var c := s.outbox[0];
      s.(outbox := s.outbox[1..], device := Report(s.device.status.(counter := c.counter), c.number))
    case Move(done, disabled, speed, position) =>
      s.(device := s.device.(status := Status(s.device.status.counter, done, disabled, speed, position)))
    case Tell => s.(reports := s.reports + [s.device])
    case Parse =>
      var r := s.reports[0];
      s.(motor := Hear(model, s.motor, r.status), reports := s.reports[1..], echoed := r.applied,
         heard := Some(r.status.done))
    case Decide => s.(motor := Judge(s.motor, s.heard.value), heard := None)
  }

  /** Counter c belongs to command n, counting from base. */
  predicate Numbered(base: nat, n: nat, c: Nibble) { c == (base + n) % 16 }

  predicate ReportsInOrder(base: nat, reports: seq<Report>, lo: nat, hi: nat) {
    && (forall i :: 0 <= i < |reports| ==> Numbered(base, reports[i].applied, reports[i].status.counter))
    && (forall i :: 0 <= i < |reports| ==> lo <= reports[i].applied <= hi)
    && (forall i, j :: 0 <= i < j < |reports| ==> reports[i].applied <= reports[j].applied)
  }

  predicate CommandsInOrder(base: nat, outbox: seq<Command>, lo: nat, hi: nat) {
    && (forall i :: 0 <= i < |outbox| ==> Numbered(base, outbox[i].number, outbox[i].counter))
    && (forall i :: 0 <= i < |outbox| ==> lo < outbox[i].number <= hi)
    && (forall i, j :: 0 <= i < j < |outbox| ==> outbox[i].number < outbox[j].number)
  }

  /** Counters are command numbers modulo 16; nothing overtakes anything. */
  predicate Inv(base: nat, s: System) {
    && s.motor.packetCounter.Some? && Numbered(base, s.issued, s.motor.packetCounter.value)
    && s.motor.packetCounterEcho.Some? && Numbered(base, s.echoed, s.motor.packetCounterEcho.value)
    && Numbered(base, s.device.applied, s.device.status.counter)
    && s.echoed <= s.device.applied <= s.issued
    && ReportsInOrder(base, s.reports, s.echoed, s.device.applied)
    && CommandsInOrder(base, s.outbox, s.device.applied, s.issued)
  }

  lemma NextNumbered(base: nat, n: nat, c: Nibble)
    requires Numbered(base, n, c)
    ensures Numbered(base, n + 1, Next(Some(c)))
  {
  }

  lemma StepInv(model: Model, base: nat, s: System, e: Event)
    requires Inv(base, s) && Can(s, e)
    ensures Inv(base, Step(model, s, e))
  {
    hide Numbered, AtRest;
    NextNumbered(base, s.issued, s.motor.packetCounter.value);
    hide Next;
  }

  /** A report is up to date, as far as the counters can tell, just when it lags by a multiple of sixteen commands. */
  lemma CountersAgree(base: nat, s: System)
    requires Inv(base, s)
    ensures s.motor.packetCounter == s.motor.packetCounterEcho <==> (s.issued - s.echoed) % 16 == 0
  {
  }

  /** When the stopped state is true after a decision: it was and the motor is done, or the report says so. */
  lemma DecideExactly(model: Model, base: nat, s: System)
    requires Inv(base, s) && s.heard.Some?
    ensures Step(model, s, Decide).motor.stopped == Some(true) <==>
      s.heard.value && (s.motor.stopped == Some(true) || ((s.issued - s.echoed) % 16 == 0 && AtRest(s.motor)))
  {
    CountersAgree(base, s);
  }

  /** The stopped state is true only if the device has applied every command that was made. */
  predicate StoppedIsTrue(s: System) {
    s.motor.stopped == Some(true) ==> s.device.applied == s.issued && s.outbox == []
  }

  /** The report judged is fewer than sixteen commands behind. */
  predicate Timely(s: System, e: Event) { e.Decide? ==> s.issued - s.echoed < 16 }

  lemma StepStoppedIsTrue(model: Model, base: nat, s: System, e: Event)
    requires Inv(base, s) && Can(s, e) && Timely(s, e) && StoppedIsTrue(s)
    ensures StoppedIsTrue(Step(model, s, e))
  {
    if e.Decide? {
      DecideExactly(model, base, s);
      assert s.outbox != [] ==> s.device.applied < s.outbox[0].number <= s.issued;
    }
  }

  predicate Possible(model: Model, s: System, run: seq<Event>)
    decreases |run|
  {
    run == [] || (Can(s, run[0]) && Possible(model, Step(model, s, run[0]), run[1..]))
  }

  function After(model: Model, s: System, run: seq<Event>): System
    requires Possible(model, s, run)
    decreases |run|
  {
    if run == [] then s else After(model, Step(model, s, run[0]), run[1..])
  }

  predicate AllTimely(model: Model, s: System, run: seq<Event>)
    requires Possible(model, s, run)
    decreases |run|
  {
    run == [] || (Timely(s, run[0]) && AllTimely(model, Step(model, s, run[0]), run[1..]))
  }

  /** After attachment: the counter is the one the device reported. */
  predicate Attached(s: System) {
    && s.issued == s.echoed == s.device.applied == 0 && s.outbox == [] && s.reports == [] && s.heard.None?
    && s.motor.packetCounter == s.motor.packetCounterEcho == Some(s.device.status.counter)
  }

  /**
   * In every run in which no report is sixteen or more commands behind: whenever the stopped state is true, the
   * device has applied the newest command, and it stays true only until the next command is made.
   */
  lemma {:induction false} StoppedThroughout(model: Model, base: nat, s: System, run: seq<Event>)
    requires Inv(base, s) && StoppedIsTrue(s) && Possible(model, s, run) && AllTimely(model, s, run)
    ensures Inv(base, After(model, s, run)) && StoppedIsTrue(After(model, s, run))
    decreases |run|
  {
    hide Inv, StoppedIsTrue, Can, Step, Timely;
    if run != [] {
      StepInv(model, base, s, run[0]);
      StepStoppedIsTrue(model, base, s, run[0]);
      StoppedThroughout(model, base, Step(model, s, run[0]), run[1..]);
    }
  }

  lemma AttachedInv(s: System)
    requires Attached(s)
    ensures Inv(s.device.status.counter, s) && StoppedIsTrue(s)
  {
  }

  /** So it is in every such run that begins with an attachment. */
  lemma StoppedSinceAttachment(model: Model, s: System, run: seq<Event>)
    requires Attached(s) && Possible(model, s, run) && AllTimely(model, s, run)
    ensures var t := After(model, s, run);
      t.motor.stopped == Some(true) ==> t.device.applied == t.issued && t.outbox == []
  {
    hide Inv, Possible, AllTimely, After;
    AttachedInv(s);
    StoppedThroughout(model, s.device.status.counter, s, run);
  }

  // ----- sixteen commands that never left

  /** n commands whose packets were not accepted. */
  function Lose(model: Model, s: System, n: nat): (t: System) {
    if n == 0 then s else Step(model, Lose(model, s, n - 1), Issue(None, false))
  }

  lemma {:induction false} LoseChanges(model: Model, base: nat, s: System, n: nat)
    requires Inv(base, s)
    ensures var t := Lose(model, s, n);
      && Inv(base, t) && t.issued == s.issued + n
      && t.motor == s.motor.(packetCounter := t.motor.packetCounter, stopped := t.motor.stopped)
      && (t.outbox, t.device, t.reports, t.echoed, t.heard) == (s.outbox, s.device, s.reports, s.echoed, s.heard)
  {
    hide Inv;
    if n > 0 {
      LoseChanges(model, base, s, n - 1);
      StepInv(model, base, Lose(model, s, n - 1), Issue(None, false));
    }
  }

  /** The bound is sharp: after sixteen lost commands an idle motor is reported stopped, with none of them applied. */
  lemma SixteenLost(model: Model, base: nat, s: System)
    requires Inv(base, s) && s.echoed == s.issued && s.reports == [] && s.heard.None?
    requires s.device.status.done && s.device.status.disabled
    ensures var t := Lose(model, s, 16);
      Can(t, Tell) && Can(Step(model, t, Tell), Parse) && Can(Step(model, Step(model, t, Tell), Parse), Decide)
    ensures var t := Step(model, Step(model, Step(model, Lose(model, s, 16), Tell), Parse), Decide);
      t.motor.stopped == Some(true) && t.issued == t.device.applied + 16
  {
    hide Inv, Lose;
    NotAhead(base, s);
    LoseChanges(model, base, s, 16);
    var t := Lose(model, s, 16);
    NotAhead(base, t);
    StepInv(model, base, t, Tell);
    var u := Step(model, t, Tell);
    StepInv(model, base, u, Parse);
    CountersAgree(base, Step(model, u, Parse));
  }

  lemma NotAhead(base: nat, s: System)
    requires Inv(base, s)
    ensures s.echoed <= s.device.applied <= s.issued
  {
  }
}
