/**
 * The queue of the 64-LED advanced board as values: a one-deep slot for every LED, three kinds of packet, and
 * the board that receives them.
 */
module LedQueue {
  import opened Modulo
  import opened Words

  const LEDS: nat := 64

  /** A brightness in percent; Unknown stands for PUNK_DBL, which is larger than any brightness. */
  datatype Power = Unknown | Level(v: real)

  const OFF: Power := Level(0.0)

  predicate Positive(p: Power) { p.Unknown? || p.v > 0.0 }

  predicate InRange(p: Power) { p.Level? ==> 0.0 <= p.v <= 100.0 }

  /** What the library remembers of an LED: LED_Power, nextLED_Power, lastLED_Power, changedLED_Power. */
  datatype Led = Led(power: Power, next: Power, last: Power, changed: bool)

  datatype Queue = Queue(leds: seq<Led>, requests: nat, control: bool, limit: nat, voltage: nat, lastOutput: nat)

  predicate GoodLed(l: Led) { InRange(l.power) && InRange(l.last) && (l.changed ==> l.next.Level? && InRange(l.next)) }

  predicate Good(leds: seq<Led>) {
    |leds| == LEDS && forall i :: 0 <= i < LEDS ==> GoodLed(leds[i])
  }

  function CountChanged(leds: seq<Led>): nat {
    if leds == [] then 0 else CountChanged(leds[..|leds| - 1]) + (if leds[|leds| - 1].changed then 1 else 0)
  }

  predicate Valid(q: Queue) {
    && Good(q.leds) && q.requests == CountChanged(q.leds)
    && 1 <= q.limit <= 4 && 1 <= q.voltage <= 4
  }

  // ----- packets

  /** Brightness settings for single LEDs, the on bits of one half, or current limit and voltage. */
  datatype Packet = Normal(sets: seq<Setting>) | Output(upper: bool, on: seq<bool>) | Control(limit: nat, voltage: nat)

  /** The value carries seven bits of brightness and, on top, the bit that turns the LED on. */
  datatype Setting = Setting(i: nat, value: Word)

  /** 0-100 -> 0-127, rounded half up */
  function Code(v: real): (c: nat)
    requires 0.0 <= v <= 100.0
    ensures c <= 127
  {
    (v / 100.0 * 127.0 + 0.5).Floor
  }

  function CodeWord(v: real): (w: Word)
    requires 0.0 <= v <= 100.0
    ensures |w| == 8
  {
    var w := FromNat(Code(v), 8);
    if Code(v) != 0 then OrBit(w, 7, true) else w
  }

  // ----- sendpacket

  /** One pass of sendpacket under the output lock; false: wait until the pending value has been written. */
  function Ask(q: Queue, i: nat, v: real): (r: (Queue, bool))
    requires Valid(q) && i < LEDS && 0.0 <= v <= 100.0
  {
    var l := q.leds[i];
    if l.changed then (q, l.next == Level(v))
    else if l.power != Level(v) then
      (q.(requests := q.requests + 1, leds := q.leds[i := l.(changed := true, next := Level(v))]), true)
    else (q, true)
  }

  // ----- getPacket

  /** A brightness the board's register does not hold yet. */
  predicate NeedsBrightness(l: Led) { l.changed && l.next != l.last && l.next != OFF }

  /** What a brightness packet can carry. */
  predicate Eligible(l: Led) { l.changed && l.next != OFF }

  predicate AnyNeedsBrightness(leds: seq<Led>) { exists i :: 0 <= i < |leds| && NeedsBrightness(leds[i]) }

  predicate AnyChanged(leds: seq<Led>) { exists i :: 0 <= i < |leds| && leds[i].changed }

  /** The settings taken from the first n LEDs, at most four. */
  function Settings(leds: seq<Led>, n: nat): (s: seq<Setting>)
    requires Good(leds) && n <= LEDS
    ensures |s| <= 4 && |s| <= n
  {
    if n == 0 then []
    else
      var s := Settings(leds, n - 1);
      if Eligible(leds[n - 1]) && |s| < 4 then s + [Setting(n - 1, CodeWord(leds[n - 1].next.v))] else s
  }

  predicate Chosen(leds: seq<Led>, i: nat)
    requires Good(leds) && i < LEDS
  {
    Eligible(leds[i]) && |Settings(leds, i)| < 4
  }

  /** A packet always carries four settings; the last one is repeated. */
  function Fill(s: seq<Setting>): (t: seq<Setting>)
    requires 1 <= |s| <= 4
    ensures |t| == 4
    decreases 4 - |s|
  {
    if |s| == 4 then s else Fill(s + [s[|s| - 1]])
  }

  function Brightened(leds: seq<Led>): (r: seq<Led>)
    requires Good(leds)
    ensures Good(r)
  {
    seq(LEDS, i requires 0 <= i < LEDS =>
      if Chosen(leds, i) then Led(leds[i].next, Unknown, leds[i].next, false) else leds[i])
  }

  function Half(upper: bool): (lo: nat)
    ensures lo <= 32
  {
    if upper then 32 else 0
  }

  function Switched(leds: seq<Led>, lo: nat): (r: seq<Led>)
    requires Good(leds) && lo <= 32
    ensures Good(r)
  {
    seq(LEDS, i requires 0 <= i < LEDS =>
      if lo <= i < lo + 32 && leds[i].changed then Led(leds[i].next, Unknown, leds[i].last, false) else leds[i])
  }

  function OnBits(leds: seq<Led>, lo: nat): (on: seq<bool>)
    requires Good(leds) && lo <= 32
    ensures |on| == 32
  {
    seq(32, i requires 0 <= i < 32 => Positive(leds[lo + i].power))
  }

  /** The half whose turn it is, unless only the other one has changes. */
  predicate UpperTurn(q: Queue)
    requires |q.leds| == LEDS
  {
    !((q.lastOutput == 0 && AnyChanged(q.leds[..32])) || (q.lastOutput != 0 && !AnyChanged(q.leds[32..])))
  }

  function Get(q: Queue): (r: (Queue, Packet))
    requires Valid(q)
  {
    if q.control then (q.(control := false), Control(q.limit, q.voltage))
    else if AnyNeedsBrightness(q.leds) then
      SomethingChosen(q.leds, LEDS);
      var leds := Brightened(q.leds);
      (q.(leds := leds, requests := CountChanged(leds)), Normal(Fill(Settings(q.leds, LEDS))))
    else
      var upper := UpperTurn(q);
      var leds := Switched(q.leds, Half(upper));
      (q.(leds := leds, requests := CountChanged(leds), lastOutput := if upper then 0 else 1),
       Output(upper, OnBits(leds, Half(upper))))
  }

  /**
   * An on/off packet goes to a half with changes if there is one; and whatever is asked for in between, two in a row go
   * to different halves as long as the half whose turn it is has a change to be sent.
   */
  lemma HalvesInTurn(q: Queue, next: Queue)
    requires Valid(q) && Valid(next) && Get(q).1.Output? && Get(next).1.Output?
    requires next.lastOutput == Get(q).0.lastOutput
    ensures var lower, upper := AnyChanged(q.leds[..32]), AnyChanged(q.leds[32..]);
      lower != upper ==> Get(q).1.upper == upper
    ensures var first := Get(q).1.upper;
      (if first then AnyChanged(next.leds[..32]) else AnyChanged(next.leds[32..])) ==> Get(next).1.upper != first
  {
    hide AnyChanged, AnyNeedsBrightness, Brightened, Switched, OnBits, Settings, Fill;
  }

  lemma {:induction false} SomethingChosen(leds: seq<Led>, n: nat)
    requires Good(leds) && n <= LEDS && AnyNeedsBrightness(leds[..n])
    ensures Settings(leds, n) != [] && exists i :: 0 <= i < n && Chosen(leds, i)
  {
    if NeedsBrightness(leds[n - 1]) {
      if Settings(leds, n - 1) != [] { ASettingWasChosen(leds, n - 1); } else { assert Chosen(leds, n - 1); }
    } else {
      assert leds[..n][..n - 1] == leds[..n - 1];
      SomethingChosen(leds, n - 1);
    }
  }

  lemma {:induction false} ASettingWasChosen(leds: seq<Led>, n: nat)
    requires Good(leds) && n <= LEDS && Settings(leds, n) != []
    ensures exists i :: 0 <= i < n && Chosen(leds, i)
  {
    if Settings(leds, n) == Settings(leds, n - 1) {
      ASettingWasChosen(leds, n - 1);
    } else {
      assert Chosen(leds, n - 1);
    }
  }

  lemma {:induction false} CountUpdate(leds: seq<Led>, i: nat, l: Led)
    requires i < |leds|
    ensures CountChanged(leds[i := l]) ==
      CountChanged(leds) + (if l.changed then 1 else 0) - (if leds[i].changed then 1 else 0)
  {
    var n := |leds| - 1;
    if i == n {
      assert leds[i := l][..n] == leds[..n];
    } else {
      assert leds[i := l][..n] == leds[..n][i := l];
      CountUpdate(leds[..n], i, l);
    }
  }

  lemma AskValid(q: Queue, i: nat, v: real)
    requires Valid(q) && i < LEDS && 0.0 <= v <= 100.0
    ensures Valid(Ask(q, i, v).0)
  {
    CountUpdate(q.leds, i, q.leds[i].(changed := true, next := Level(v)));
  }

  lemma GetValid(q: Queue)
    requires Valid(q)
    ensures Valid(Get(q).0)
  {
    hide Settings, Fill, Chosen;
  }

  // ----- the board

  /** A brightness register and an on bit. */
  datatype Lamp = Lamp(reg: nat, on: bool)

  function Shown(lamp: Lamp): nat { if lamp.on then lamp.reg else 0 }

  predicate Board(b: seq<Lamp>) { |b| == LEDS }

  function Set(b: seq<Lamp>, s: Setting): (c: seq<Lamp>)
    requires Board(b) && |s.value| == 8
    ensures Board(c)
  {
    if s.i < LEDS then b[s.i := Lamp(ToNat(s.value[..7]), s.value[7])] else b
  }

  predicate Bytes(sets: seq<Setting>) { forall k :: 0 <= k < |sets| ==> |sets[k].value| == 8 }

  function SetAll(b: seq<Lamp>, sets: seq<Setting>): (c: seq<Lamp>)
    requires Board(b) && Bytes(sets)
    ensures Board(c)
  {
    if sets == [] then b else Set(SetAll(b, sets[..|sets| - 1]), sets[|sets| - 1])
  }

  predicate WellFormed(p: Packet) {
    match p
    case Normal(sets) => Bytes(sets)
    case Output(_, on) => |on| == 32
    case Control(_, _) => true
  }

  /** What a packet does to the lamps. */
  function Receive(b: seq<Lamp>, p: Packet): (c: seq<Lamp>)
    requires Board(b) && WellFormed(p)
    ensures Board(c)
  {
    match p
    case Normal(sets) => SetAll(b, sets)
    case Output(upper, on) =>
      seq(LEDS, i requires 0 <= i < LEDS =>
        if Half(upper) <= i < Half(upper) + 32 then b[i].(on := on[i - Half(upper)]) else b[i])
    case Control(_, _) => b
  }

  /** Of 127 parts as many as come nearest to so many of 100. */
  lemma CodeNearest(v: real)
    requires 0.0 <= v <= 100.0
    ensures Nearest(Code(v), v * 127.0 / 100.0)
  {
  }

  /** Seven bits of the byte hold the level nearest to the brightness; the eighth is set with any level but 0. */
  lemma CodeShown(v: real)
    requires 0.0 <= v <= 100.0
    ensures ToNat(CodeWord(v)[..7]) == Code(v) && CodeWord(v)[7] == (Code(v) != 0)
    ensures Nearest(ToNat(CodeWord(v)[..7]), v * 127.0 / 100.0)
  {
    CodeNearest(v);
    var c := Code(v);
    PowersOfTwo();
    assert Pow2(7) == 128;
    ToNatFromNat(c, 7);
    assert CodeWord(v)[..7] == FromNat(c, 7);
    DigitBeyond(c, 7, 7);
  }

  lemma {:induction false} SettingsBytes(leds: seq<Led>, n: nat)
    requires Good(leds) && n <= LEDS
    ensures Bytes(Settings(leds, n))
  {
    if n > 0 { SettingsBytes(leds, n - 1); }
  }

  /** Repeating the last setting changes nothing. */
  lemma {:induction false} FillHarmless(b: seq<Lamp>, s: seq<Setting>)
    requires Board(b) && 1 <= |s| <= 4 && Bytes(s)
    ensures Bytes(Fill(s)) && SetAll(b, Fill(s)) == SetAll(b, s)
    decreases 4 - |s|
  {
    if |s| < 4 {
      var last := s[|s| - 1];
      var t := s + [last];
      assert t[..|t| - 1] == s;
      assert SetAll(b, t) == Set(SetAll(b, s), last) == SetAll(b, s);
      FillHarmless(b, t);
    }
  }

  lemma {:induction false} SettingsShown(b: seq<Lamp>, leds: seq<Led>, n: nat, i: nat)
    requires Board(b) && Good(leds) && n <= LEDS && i < LEDS && Bytes(Settings(leds, n))
    ensures SetAll(b, Settings(leds, n))[i] ==
      if i < n && Chosen(leds, i) then Lamp(Code(leds[i].next.v), Code(leds[i].next.v) != 0) else b[i]
  {
    hide CodeWord, Code;
    if n > 0 {
      var s, t := Settings(leds, n - 1), Settings(leds, n);
      SettingsBytes(leds, n - 1);
      SettingsShown(b, leds, n - 1, i);
      if Chosen(leds, n - 1) {
        CodeShown(leds[n - 1].next.v);
        assert t[..|t| - 1] == s;
      }
    }
  }

  /** The lamp of an LED shows what the library believes it shows, and holds the last brightness it was sent. */
  predicate Agrees(l: Led, lamp: Lamp)
    requires GoodLed(l)
  {
    && (l.last.Level? ==> lamp.reg == Code(l.last.v))
    && (l.power.Level? ==> Shown(lamp) == Code(l.power.v))
    && (l.power.Level? && l.power.v > 0.0 ==> l.power == l.last)
    && (l.power.Unknown? ==> l.last.Unknown? && lamp.on)
  }

  predicate AllAgree(leds: seq<Led>, b: seq<Lamp>) {
    Good(leds) && Board(b) && forall i :: 0 <= i < LEDS ==> Agrees(leds[i], b[i])
  }

  lemma CodeOfZero()
    ensures Code(0.0) == 0
  {
  }

  lemma ReceiveOutput(b: seq<Lamp>, leds: seq<Led>, upper: bool)
    requires AllAgree(leds, b) && !AnyNeedsBrightness(leds)
    ensures var t := Switched(leds, Half(upper)); AllAgree(t, Receive(b, Output(upper, OnBits(t, Half(upper)))))
  {
    hide Code, AnyNeedsBrightness;
    CodeOfZero();
    var t := Switched(leds, Half(upper));
    var c := Receive(b, Output(upper, OnBits(t, Half(upper))));
    forall i | 0 <= i < LEDS ensures Agrees(t[i], c[i]) {
      assert Agrees(leds[i], b[i]);
      NotNeeded(leds, i);
      assert Half(upper) <= i < Half(upper) + 32 ==> OnBits(t, Half(upper))[i - Half(upper)] == Positive(t[i].power);
    }
  }

  lemma NotNeeded(leds: seq<Led>, i: nat)
    requires i < |leds| && !AnyNeedsBrightness(leds)
    ensures !NeedsBrightness(leds[i])
  {
  }

  lemma ReceiveNormal(b: seq<Lamp>, leds: seq<Led>)
    requires AllAgree(leds, b) && Settings(leds, LEDS) != []
    ensures var p := Normal(Fill(Settings(leds, LEDS))); WellFormed(p) && AllAgree(Brightened(leds), Receive(b, p))
  {
    hide Code, Settings, Fill, Chosen;
    SettingsBytes(leds, LEDS);
    FillHarmless(b, Settings(leds, LEDS));
    var c := SetAll(b, Settings(leds, LEDS));
    forall i | 0 <= i < LEDS ensures Agrees(Brightened(leds)[i], c[i]) {
      assert Agrees(leds[i], b[i]);
      SettingsShown(b, leds, LEDS, i);
      ChosenEligible(leds, i);
    }
  }

  lemma ChosenEligible(leds: seq<Led>, i: nat)
    requires Good(leds) && i < LEDS
    ensures Chosen(leds, i) ==> leds[i].changed && leds[i].next.Level? && leds[i].next != OFF
  {
  }

  /** Whatever packet comes next, once the board has received it, it shows what the library believes. */
  lemma GetAgrees(q: Queue, b: seq<Lamp>)
    requires Valid(q) && AllAgree(q.leds, b)
    ensures var (t, p) := Get(q); WellFormed(p) && AllAgree(t.leds, Receive(b, p))
  {
    hide AllAgree, Settings, Brightened, Switched, OnBits, Fill, AnyNeedsBrightness, UpperTurn;
    if !q.control {
      if AnyNeedsBrightness(q.leds) {
        assert q.leds[..LEDS] == q.leds;
        SomethingChosen(q.leds, LEDS);
        ReceiveNormal(b, q.leds);
      } else {
        ReceiveOutput(b, q.leds, UpperTurn(q));
      }
    }
  }
}
