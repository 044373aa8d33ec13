/** The LED device object: arrays updated in place by sendpacket and getPacket. */
module LedDevice {
  import opened Words
  import opened LedQueue

  /** The bits of a packet type in the top two bits of the first byte. */
  function Kind(buf: seq<Word>): (bool, bool)
    requires |buf| == 8 && |buf[0]| == 8
  {
    (buf[0][7], buf[0][6])
  }

  predicate Buffer(buf: seq<Word>) { |buf| == 8 && forall k :: 0 <= k < 8 ==> |buf[k]| == 8 }

  /** How the board reads a packet. */
  function Parse(buf: seq<Word>): (p: Packet)
    requires Buffer(buf)
  {
    match Kind(buf)
    case (false, false) =>
      Normal(seq(4, k requires 0 <= k < 4 => Setting(ToNat(buf[2 * k]), buf[2 * k + 1])))
    case (false, true) =>
      Control(1 + BitNat(buf[1][1]) + 2 * BitNat(buf[1][2]), 1 + BitNat(buf[1][3]) + 2 * BitNat(buf[1][4]))
    case (true, upper) =>
      Output(upper, seq(32, j requires 0 <= j < 32 => buf[j / 8 + 1][j % 8]))
  }

  function BitNat(b: bool): nat { if b then 1 else 0 }

  class LedPhidget {
    const LED_Power: array<Power>
    const nextLED_Power: array<Power>
    const lastLED_Power: array<Power>
    const changedLED_Power: array<bool>
    var changeRequests: nat
    var controlPacketWaiting: bool
    var currentLimit: nat
    var voltage: nat
    var lastOutputPacket: nat

    ghost predicate Separate() {
      && LED_Power.Length == nextLED_Power.Length == lastLED_Power.Length == changedLED_Power.Length == LEDS
      && LED_Power != nextLED_Power && LED_Power != lastLED_Power && nextLED_Power != lastLED_Power
    }

    ghost function Leds(): (leds: seq<Led>)
      reads LED_Power, nextLED_Power, lastLED_Power, changedLED_Power
      requires Separate()
      ensures |leds| == LEDS
    {
      seq(LEDS, i requires 0 <= i < LEDS && Separate()
                  reads LED_Power, nextLED_Power, lastLED_Power, changedLED_Power =>
        Led(LED_Power[i], nextLED_Power[i], lastLED_Power[i], changedLED_Power[i]))
    }

    ghost function State(): (q: Queue)
      reads this, LED_Power, nextLED_Power, lastLED_Power, changedLED_Power
      requires Separate()
    {
      Queue(Leds(), changeRequests, controlPacketWaiting, currentLimit, voltage, lastOutputPacket)
    }

    /** One pass of sendpacket under the output lock; false: wait for writtenEvent and try again. */
    method SendPacket(index: nat, power: real) returns (done: bool)
      requires Separate() && Valid(State()) && index < LEDS && 0.0 <= power <= 100.0
      modifies this`changeRequests, changedLED_Power, nextLED_Power
      ensures Separate() && (State(), done) == Ask(old(State()), index, power)
    {
      if changedLED_Power[index] {
        done := nextLED_Power[index] == Level(power);
      } else {
        if LED_Power[index] != Level(power) {
          changeRequests := changeRequests + 1;
          changedLED_Power[index] := true;
          nextLED_Power[index] := Level(power);
          assert Leds() == old(Leds())[index := old(Leds())[index].(changed := true, next := Level(power))];
        }
        done := true;
      }
    }

    /** The pending value of an LED becomes its value. */
    method Commit(i: nat, brightness: bool)
      requires Separate() && Good(Leds()) && i < LEDS && changedLED_Power[i] && changeRequests == CountChanged(Leds())
      modifies this`changeRequests, LED_Power, nextLED_Power, lastLED_Power, changedLED_Power
      ensures Separate() && changeRequests == CountChanged(Leds())
      ensures var l := old(Leds()[i]);
        Leds() == old(Leds())[i := Led(l.next, Unknown, if brightness then l.next else l.last, false)]
    {
      hide CountChanged;
      ghost var before, l := Leds(), Leds()[i];
      ghost var m := Led(l.next, Unknown, if brightness then l.next else l.last, false);
      assert l.changed;
      CountUpdate(before, i, m);
      LED_Power[i] := nextLED_Power[i];
      if brightness { lastLED_Power[i] := nextLED_Power[i]; }
      changedLED_Power[i] := false;
      nextLED_Power[i] := Unknown;
      changeRequests := changeRequests - 1;
      assert Leds() == before[i := m];
    }

    method ControlPacket(buf: array<Word>)
      requires Buffer(buf[..]) && 1 <= currentLimit <= 4 && 1 <= voltage <= 4
      modifies buf, this`controlPacketWaiting
      ensures !controlPacketWaiting && Buffer(buf[..]) && Parse(buf[..]) == Control(currentLimit, voltage)
    {
      hide Parse, FromNat;
      Types();
      buf[0] := FromNat(0x40, 8);
      buf[1] := FromNat(0, 8);
      if currentLimit == 2 {
        buf[1] := OrBit(buf[1], 1, true);
      } else if currentLimit == 3 {
        buf[1] := OrBit(buf[1], 2, true);
      } else if currentLimit == 4 {
        buf[1] := OrBit(OrBit(buf[1], 1, true), 2, true);
      }
      assert |buf[1]| == 8 && buf[1][1] == (currentLimit % 2 == 0) && buf[1][2] == (currentLimit > 2);
      assert !buf[1][3] && !buf[1][4];
      if voltage == 2 {
        buf[1] := OrBit(buf[1], 3, true);
      } else if voltage == 3 {
        buf[1] := OrBit(buf[1], 4, true);
      } else if voltage == 4 {
        buf[1] := OrBit(OrBit(buf[1], 3, true), 4, true);
      }
      ParseControl(buf[..], currentLimit, voltage);
      controlPacketWaiting := false;
    }

    /** Up to four LED sets, then the last one again. */
    method BrightnessPacket(buf: array<Word>)
      requires Separate() && Valid(State()) && Buffer(buf[..]) && AnyNeedsBrightness(Leds())
      modifies this`changeRequests, LED_Power, nextLED_Power, lastLED_Power, changedLED_Power, buf
      ensures Separate() && Leds() == Brightened(old(Leds())) && changeRequests == CountChanged(Leds())
      ensures Buffer(buf[..]) && Settings(old(Leds()), LEDS) != []
      ensures Parse(buf[..]) == Normal(Fill(Settings(old(Leds()), LEDS)))
    {
      hide CountChanged, AnyNeedsBrightness, Parse, Fill, Settings, Brightened, Carries, Mixed;
      ghost var leds := Leds();
      assert leds[..LEDS] == leds;
      SomethingChosen(leds, LEDS);
      NothingCarried(buf[..], leds);
      var i, numLeds := 0, 0;
      while i < LEDS
        invariant Separate() && 0 <= i <= LEDS && changeRequests == CountChanged(Leds())
        invariant Mixed(Leds(), Brightened(leds), leds, i)
        invariant numLeds == |Settings(leds, i)| && Carries(buf[..], Settings(leds, i))
      {
        numLeds := BrightnessStep(buf, i, numLeds, leds);
        i := i + 1;
      }
      MixedWhole(Leds(), Brightened(leds), leds);
      FillUp(buf, numLeds, Settings(leds, LEDS));
      ParseSettings(buf[..], Fill(Settings(leds, LEDS)));
    }

    method BrightnessStep(buf: array<Word>, i: nat, numLeds: nat, ghost leds: seq<Led>) returns (n: nat)
      requires Separate() && Good(leds) && i < LEDS && changeRequests == CountChanged(Leds())
      requires Mixed(Leds(), Brightened(leds), leds, i)
      requires numLeds == |Settings(leds, i)| && Carries(buf[..], Settings(leds, i))
      modifies this`changeRequests, LED_Power, nextLED_Power, lastLED_Power, changedLED_Power, buf
      ensures Separate() && changeRequests == CountChanged(Leds())
      ensures Mixed(Leds(), Brightened(leds), leds, i + 1)
      ensures n == |Settings(leds, i + 1)| && Carries(buf[..], Settings(leds, i + 1))
    {
      hide CountChanged, Carries, Mixed, CodeWord, Good;
      n := numLeds;
      MixedAt(Leds(), Brightened(leds), leds, i);
      ghost var before := Leds();
      if changedLED_Power[i] && numLeds < 4 && nextLED_Power[i] != OFF {
        Commit(i, true);
        assert LED_Power[i] == Leds()[i].power == before[i].next;
        PutSetting(buf, numLeds, i, LED_Power[i].v, Settings(leds, i));
        n := n + 1;
      }
      MixedStep(before, Leds(), Brightened(leds), leds, i);
    }

    static method PutSetting(buf: array<Word>, numLeds: nat, i: nat, power: real, ghost s: seq<Setting>)
      requires Carries(buf[..], s) && |s| == numLeds < 4 && i < LEDS && 0.0 <= power <= 100.0
      modifies buf
      ensures Carries(buf[..], s + [Setting(i, CodeWord(power))])
    {
      hide Code;
      buf[numLeds * 2] := FromNat(i, 8);
      // per cent to a level of seven bits
      buf[numLeds * 2 + 1] := FromNat(Code(power), 8);
      // the on bit goes with any level above zero
      if Code(power) != 0 { buf[numLeds * 2 + 1] := OrBit(buf[numLeds * 2 + 1], 7, true); }
    }

    /** Places left over repeat the last entry, which does no harm. */
    static method FillUp(buf: array<Word>, count: nat, ghost settings: seq<Setting>)
      requires 1 <= |settings| <= 4 && |settings| == count && Carries(buf[..], settings)
      modifies buf
      ensures Carries(buf[..], Fill(settings))
    {
      var numLeds := count;
      ghost var s := settings;
      while numLeds < 4
        invariant 1 <= numLeds == |s| <= 4 && Fill(s) == Fill(settings) && Carries(buf[..], s)
      {
        ghost var last := s[numLeds - 1];
        buf[numLeds * 2] := buf[(numLeds - 1) * 2];
        buf[numLeds * 2 + 1] := buf[(numLeds - 1) * 2 + 1];
        s := s + [last];
        numLeds := numLeds + 1;
      }
    }

    /** The on bits of one half. */
    method OutputPacket(buf: array<Word>, upper: bool)
      requires Separate() && Valid(State()) && Buffer(buf[..]) && Clear(buf[..])
      modifies this`changeRequests, LED_Power, nextLED_Power, lastLED_Power, changedLED_Power, buf
      ensures Separate() && changeRequests == CountChanged(Leds())
      ensures Leds() == Switched(old(Leds()), Half(upper))
      ensures Buffer(buf[..]) && Parse(buf[..]) == Output(upper, OnBits(Leds(), Half(upper)))
    {
      hide CountChanged, Parse, OnBits, Switched, OnUpTo, Mixed, Clear;
      Types();
      ghost var leds := Leds();
      var lo := Half(upper);
      ghost var t := Switched(leds, lo);
      buf[0] := if upper then FromNat(0xC0, 8) else FromNat(0x80, 8);
      NothingOn(old(buf[..]), buf[..], t, lo);
      NothingSwitched(leds, lo);
      var i := lo;
      while i < lo + 32
        invariant Separate() && lo <= i <= lo + 32 && changeRequests == CountChanged(Leds())
        invariant Mixed(Leds(), t, leds, i)
        invariant Buffer(buf[..]) && buf[0][7] && buf[0][6] == upper && OnUpTo(buf[..], t, lo, i - lo)
      {
        OutputStep(i, lo, leds);
        SwitchOn(buf, i, lo, Positive(LED_Power[i]), t);
        i := i + 1;
      }
      HalfSwitched(Leds(), leds, lo);
      assert Leds() == t;
      ParseOutput(buf[..], t, upper);
    }

    method OutputStep(i: nat, lo: nat, ghost leds: seq<Led>)
      requires Separate() && Good(leds) && lo <= 32 && lo <= i < lo + 32 && changeRequests == CountChanged(Leds())
      requires Mixed(Leds(), Switched(leds, lo), leds, i)
      modifies this`changeRequests, LED_Power, nextLED_Power, lastLED_Power, changedLED_Power
      ensures Separate() && changeRequests == CountChanged(Leds())
      ensures Mixed(Leds(), Switched(leds, lo), leds, i + 1)
      ensures Positive(LED_Power[i]) == Positive(Switched(leds, lo)[i].power)
    {
      hide CountChanged, Mixed, Good;
      MixedAt(Leds(), Switched(leds, lo), leds, i);
      ghost var before := Leds();
      if changedLED_Power[i] { Commit(i, false); }
      MixedStep(before, Leds(), Switched(leds, lo), leds, i);
      assert LED_Power[i] == Leds()[i].power;
    }

    /** A lamp that is to be on sets its bit: byte i / 8, counted from one, bit i % 8. */
    static method SwitchOn(buf: array<Word>, i: nat, lo: nat, on: bool, ghost t: seq<Led>)
      requires Buffer(buf[..]) && Good(t) && (lo == 0 || lo == 32) && lo <= i < lo + 32
      requires on == Positive(t[i].power) && OnUpTo(buf[..], t, lo, i - lo)
      modifies buf
      ensures Buffer(buf[..]) && buf[0] == old(buf[0]) && OnUpTo(buf[..], t, lo, i + 1 - lo)
    {
      ghost var before := buf[..];
      ByteOfBit(i, lo);
      if on { buf[i / 8 + 1 - lo / 8] := OrBit(buf[i / 8 + 1 - lo / 8], i % 8, true); }
      BitSet(before, buf[..], t, lo, i - lo, on);
    }

    /** getPacket, for a buffer of zeros. */
    method GetPacket(buf: array<Word>)
      requires Separate() && Valid(State()) && Buffer(buf[..]) && Clear(buf[..])
      modifies this, LED_Power, nextLED_Power, lastLED_Power, changedLED_Power, buf
      ensures Separate() && Buffer(buf[..]) && (State(), Parse(buf[..])) == Get(old(State()))
    {
      hide Parse, Brightened, Settings, Switched, OnBits, Fill, Clear, CountChanged;
      if controlPacketWaiting {
        ControlPacket(buf);
      } else {
        var bright, outputUpper, outputLower := Survey();
        if bright {
          BrightnessPacket(buf);
        } else if (lastOutputPacket == 0 && outputLower) || (lastOutputPacket != 0 && !outputUpper) {
          OutputPacket(buf, false);
          lastOutputPacket := 1;
        } else {
          OutputPacket(buf, true);
          lastOutputPacket := 0;
        }
      }
    }

    /** What is pending: levels that differ, lamps to switch, or nothing. */
    method Survey() returns (bright: bool, outputUpper: bool, outputLower: bool)
      requires Separate()
      ensures bright == AnyNeedsBrightness(Leds())
      ensures !bright ==> outputLower == AnyChanged(Leds()[..32]) && outputUpper == AnyChanged(Leds()[32..])
    {
      bright, outputUpper, outputLower := false, false, false;
      var i := 0;
      while i < LEDS
        invariant 0 <= i <= LEDS && Separate()
        invariant bright <==> exists j :: 0 <= j < i && NeedsBrightness(Leds()[j])
        invariant !bright ==> (outputLower <==> exists j :: 0 <= j < i && j < 32 && Leds()[j].changed)
        invariant !bright ==> (outputUpper <==> exists j :: 32 <= j < i && Leds()[j].changed)
      {
        if changedLED_Power[i] {
          if nextLED_Power[i] != lastLED_Power[i] && nextLED_Power[i] != OFF {
            assert NeedsBrightness(Leds()[i]);
            bright := true;
          } else if i < 32 {
            assert Leds()[i].changed;
            outputLower := true;
          } else {
            assert Leds()[i].changed;
            outputUpper := true;
          }
        }
        i := i + 1;
      }
      Halves(Leds());
    }
  }

  // ----- loops half done

  /** The first i elements are done. */
  predicate Mixed(now: seq<Led>, done: seq<Led>, todo: seq<Led>, i: nat) {
    |now| == |done| == |todo| == LEDS && i <= LEDS && Good(now) && now == done[..i] + todo[i..]
  }

  lemma MixedAt(now: seq<Led>, done: seq<Led>, todo: seq<Led>, i: nat)
    requires Mixed(now, done, todo, i) && i < LEDS
    ensures Good(now) && now[i] == todo[i] && GoodLed(now[i])
  {
  }

  lemma MixedStep(before: seq<Led>, now: seq<Led>, done: seq<Led>, todo: seq<Led>, i: nat)
    requires Mixed(before, done, todo, i) && Good(done) && i < LEDS && now == before[i := done[i]]
    ensures Mixed(now, done, todo, i + 1)
  {
  }

  lemma MixedWhole(now: seq<Led>, done: seq<Led>, todo: seq<Led>)
    requires Mixed(now, done, todo, LEDS)
    ensures now == done
  {
  }

  lemma NothingSwitched(leds: seq<Led>, lo: nat)
    requires Good(leds) && lo <= 32
    ensures Mixed(leds, Switched(leds, lo), leds, lo)
  {
    assert Switched(leds, lo)[..lo] + leds[lo..] == leds;
  }

  lemma HalfSwitched(now: seq<Led>, leds: seq<Led>, lo: nat)
    requires Good(leds) && lo <= 32 && Mixed(now, Switched(leds, lo), leds, lo + 32)
    ensures now == Switched(leds, lo)
  {
  }

  lemma NothingCarried(buf: seq<Word>, leds: seq<Led>)
    requires Buffer(buf) && Good(leds)
    ensures Settings(leds, 0) == [] && Carries(buf, []) && Mixed(leds, Brightened(leds), leds, 0)
  {
  }

  lemma NothingOn(before: seq<Word>, buf: seq<Word>, t: seq<Led>, lo: nat)
    requires Buffer(before) && Buffer(buf) && Clear(before) && buf == before[0 := buf[0]] && Good(t) && lo <= 32
    ensures OnUpTo(buf, t, lo, 0)
  {
  }

  lemma Halves(leds: seq<Led>)
    requires |leds| == LEDS
    ensures AnyChanged(leds[..32]) <==> exists j :: 0 <= j < LEDS && j < 32 && leds[j].changed
    ensures AnyChanged(leds[32..]) <==> exists j :: 32 <= j < LEDS && leds[j].changed
  {
    if j :| 32 <= j < LEDS && leds[j].changed { assert leds[32..][j - 32].changed; }
    if j :| 0 <= j < 32 && leds[j].changed { assert leds[..32][j].changed; }
  }

  /** The buffer holds these LED sets in front. */
  predicate Carries(buf: seq<Word>, s: seq<Setting>) {
    && Buffer(buf) && |s| <= 4
    && forall k :: 0 <= k < |s| ==> s[k].i < LEDS && buf[2 * k] == FromNat(s[k].i, 8) && buf[2 * k + 1] == s[k].value
  }

  predicate Clear(buf: seq<Word>)
    requires Buffer(buf)
  {
    forall k, m :: 0 <= k < 8 && 0 <= m < 8 ==> !buf[k][m]
  }

  /** The four packet types. */
  lemma ParseControl(buf: seq<Word>, limit: nat, voltage: nat)
    requires Buffer(buf) && 1 <= limit <= 4 && 1 <= voltage <= 4
    requires !buf[0][7] && buf[0][6]
    requires buf[1][1] == (limit % 2 == 0) && buf[1][2] == (limit > 2)
    requires buf[1][3] == (voltage % 2 == 0) && buf[1][4] == (voltage > 2)
    ensures Parse(buf) == Control(limit, voltage)
  {
  }

  lemma Types()
    ensures !FromNat(0x40, 8)[7] && FromNat(0x40, 8)[6]
    ensures FromNat(0x80, 8)[7] && !FromNat(0x80, 8)[6]
    ensures FromNat(0xC0, 8)[7] && FromNat(0xC0, 8)[6]
    ensures forall m :: 0 <= m < 8 ==> !FromNat(0, 8)[m]
  {
    PowersOfTwo();
    assert Pow2(6) == 64 && Pow2(7) == 128;
    RunMask(0x40, 6, 1, 8);
    RunMask(0x80, 7, 1, 8);
    RunMask(0xC0, 6, 2, 8);
    RunMask(0, 0, 0, 8);
  }

  /** The index byte of an LED leaves the type bits clear. */
  lemma IndexByte(i: nat)
    requires i < LEDS
    ensures ToNat(FromNat(i, 8)) == i && !FromNat(i, 8)[6] && !FromNat(i, 8)[7]
  {
    PowersOfTwo();
    assert Pow2(6) == 64;
    DigitBeyond(i, 6, 6);
    DigitBeyond(i, 6, 7);
    ToNatFromNat(i, 8);
  }

  lemma ParseSettings(buf: seq<Word>, s: seq<Setting>)
    requires |s| == 4 && Carries(buf, s)
    ensures Parse(buf) == Normal(s)
  {
    hide ToNat, FromNat;
    forall k | 0 <= k < 4 ensures ToNat(buf[2 * k]) == s[k].i && buf[2 * k + 1] == s[k].value { IndexByte(s[k].i); }
    IndexByte(s[0].i);
    assert buf[2 * 0] == FromNat(s[0].i, 8);
  }

  /** The on bits of the first n LEDs of a half are in their places, and the rest is still clear. */
  predicate OnUpTo(buf: seq<Word>, t: seq<Led>, lo: nat, n: nat)
    requires Buffer(buf) && Good(t) && lo <= 32 && n <= 32
  {
    forall j :: 0 <= j < 32 ==> BitAt(buf, j) == (j < n && Positive(t[lo + j].power))
  }

  function BitAt(buf: seq<Word>, j: nat): bool
    requires Buffer(buf) && j < 32
  {
    buf[j / 8 + 1][j % 8]
  }

  lemma ByteOfBit(i: nat, lo: nat)
    requires (lo == 0 || lo == 32) && lo <= i < lo + 32
    ensures i / 8 + 1 - lo / 8 == (i - lo) / 8 + 1 && i % 8 == (i - lo) % 8
  {
  }

  lemma BitSet(before: seq<Word>, after: seq<Word>, t: seq<Led>, lo: nat, n: nat, on: bool)
    requires Buffer(before) && Good(t) && lo <= 32 && n < 32 && OnUpTo(before, t, lo, n)
    requires on == Positive(t[lo + n].power)
    requires after == if on then before[n / 8 + 1 := OrBit(before[n / 8 + 1], n % 8, true)] else before
    ensures Buffer(after) && OnUpTo(after, t, lo, n + 1)
  {
    forall j | 0 <= j < 32 ensures BitAt(after, j) == (j < n + 1 && Positive(t[lo + j].power)) {
      assert BitAt(before, j) == (j < n && Positive(t[lo + j].power));
      OtherBit(j, n);
    }
  }

  lemma OtherBit(j: nat, n: nat)
    ensures j / 8 == n / 8 && j % 8 == n % 8 ==> j == n
  {
  }

  lemma ParseOutput(buf: seq<Word>, t: seq<Led>, upper: bool)
    requires Buffer(buf) && Good(t) && buf[0][7] && buf[0][6] == upper && OnUpTo(buf, t, Half(upper), 32)
    ensures Parse(buf) == Output(upper, OnBits(t, Half(upper)))
  {
    forall j | 0 <= j < 32 ensures buf[j / 8 + 1][j % 8] == OnBits(t, Half(upper))[j] {
      assert BitAt(buf, j) == Positive(t[Half(upper) + j].power);
    }
  }
}
