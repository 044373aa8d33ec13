/** The bi-phase family of infrared codes: half-bits merged into lengths, and the decoder that takes them apart. */
module IrBiphase {
  import opened Modulo
  import opened Rings

  // ----- comparing lengths

  function Pdiff(a: real, b: real): real
    requires a + b > 0.0
  {
    (if a > b then a - b else b - a) / ((a + b) / 2.0)
  }

  predicate Close(a: nat, b: nat) { a + b > 0 && Pdiff(a as real, b as real) < 0.3 }

  /** t is n times the pulse, within a tolerance. */
  predicate Times(t: nat, n: nat, pulse: nat, tolerance: real)
    requires n > 0 && pulse > 0
  {
    Pdiff(t as real / n as real, pulse as real) < tolerance
  }

  // ----- the decoder

  datatype Kind = BIPHASE | RC5 | RC6

  /** How many bits decode_temp has room for. */
  const ROOM: nat := 128

  /** The bit being read, whether half of it has been seen, how many are complete, the two RC-6 flags, decode_temp. */
  datatype Half = Half(bit: bool, halfbit: bool, count: nat, rc6temp: bool, rc6: bool, temp: seq<bool>)

  datatype Scan = Misfit | Full | Going(h: Half)

  function Nothing(): (t: seq<bool>)
    ensures |t| == ROOM
  {
    seq(ROOM, _ => false)
  }

  function Mark(h: Half): (r: Half)
    requires |h.temp| == ROOM && h.count < ROOM
    ensures |r.temp| == ROOM && r == h.(temp := r.temp)
  {
    h.(temp := h.temp[h.count := h.temp[h.count] || h.bit])
  }

  /** One length, the bit it belongs to marked already. */
  function Move(h: Half, t: nat, pulse: nat): Option<Half>
    requires pulse > 0
  {
    if Times(t, 3, pulse, 0.2) then
      if !h.halfbit || (h.count != 3 && h.count != 4) then None
      else Some(h.(rc6temp := !h.rc6temp, bit := !h.bit, count := h.count + 1, rc6 := true))
    else if Times(t, 2, pulse, 0.2) then
      if !h.halfbit then
        if h.count == 4 then Some(h.(halfbit := true, rc6temp := true, rc6 := true)) else None
      else if h.rc6temp then Some(h.(rc6temp := false, halfbit := false, count := h.count + 1))
      else Some(h.(bit := !h.bit, count := h.count + 1))
    else Some(h.(count := if h.halfbit then h.count + 1 else h.count, halfbit := !h.halfbit))
  }

  function Step(s: Scan, t: nat, pulse: nat): (r: Scan)
    requires pulse > 0 && (s.Going? ==> |s.h.temp| == ROOM)
    ensures r.Going? ==> |r.h.temp| == ROOM
  {
    if !s.Going? then s
    else if s.h.count >= ROOM then Full
    else match Move(Mark(s.h), t, pulse) case None => Misfit case Some(h) => Going(h)
  }

  function Steps(s: Scan, data: seq<nat>, pulse: nat): (r: Scan)
    requires pulse > 0 && (s.Going? ==> |s.h.temp| == ROOM)
    ensures r.Going? ==> |r.h.temp| == ROOM
  {
    if data == [] then s else Step(Steps(s, data[..|data| - 1], pulse), data[|data| - 1], pulse)
  }

  /** Whether the first double length, looked for from place i on, is a pulse; so it is taken to be if there is none. */
  function StartSpace(data: seq<nat>, pulse: nat, i: nat): bool
    requires pulse > 0 && i <= |data|
    decreases |data| - i
  {
    if i == |data| then true
    else if Times(data[i], 2, pulse, 0.3) then i % 2 == 0
    else StartSpace(data, pulse, i + 1)
  }

  datatype Biphased = Refused | Overlong | Bits(kind: Kind, bits: seq<bool>)

  /** What is left to do behind the loop. */
  function Finished(s: Scan, pulse: nat, startspace: bool): Biphased
    requires pulse > 0 && (s.Going? ==> |s.h.temp| == ROOM)
  {
    match s
    case Misfit => Refused
    case Full => Overlong
    case Going(h) =>
      if h.count >= ROOM then Overlong
      else
        var n := if (h.halfbit && !h.bit) || (!startspace && h.bit) then h.count + 1 else h.count;
        Bits(if h.rc6 then RC6 else if Pdiff(pulse as real, 889.0) < 0.2 && startspace then RC5 else BIPHASE,
             Mark(h).temp[..n])
  }

  function Start(rc6: bool): (s: Scan)
    ensures s.Going? && |s.h.temp| == ROOM
  {
    Going(Half(true, true, 0, false, rc6, Nothing()))
  }

  /** The bi-phase part of decode_data. */
  function Unpack(data: seq<nat>, pulse: nat, rc6: bool): Biphased
    requires pulse > 0 && data != []
  {
    if Pdiff(data[0] as real, pulse as real) > 0.3 then Refused
    else
      var startspace := StartSpace(data, pulse, 0);
      Finished(Steps(Start(rc6), if startspace then data else data[1..], pulse), pulse, startspace)
  }

  /** The half-bit: the mean of the shortest pulse and space if they are close, else the shorter of the two. */
  function ShortPulse(high: nat, low: nat): nat {
    if Close(low, high) then (low + high + 1) / 2 else if high < low then high else low
  }

  // ----- the encoder

  /** The two lengths of a 1 and of a 0. */
  datatype Lengths = Lengths(one: (nat, nat), zero: (nat, nat))

  function FirstTimes(kind: Kind, l: Lengths, bit: bool): seq<nat> {
    if bit then (if kind.RC6? then [l.one.0] else []) else (if kind.RC6? then [] else [l.zero.0])
  }

  /** The second half of the bit before and the first half of this one; in RC-6 bit 4 is twice as long. */
  function NextTimes(kind: Kind, l: Lengths, last: bool, bit: bool, place: nat): (t: seq<nat>)
    ensures 1 <= |t| <= 2
  {
    var behind, here := if kind.RC6? && place == 5 then 2 else 1, if kind.RC6? && place == 4 then 2 else 1;
    var second := (if last then l.one.1 else l.zero.1) * behind;
    var first := (if bit then l.one.0 else l.zero.0) * here;
    if bit == last then [second, first] else [second + first]
  }

  function LastTimes(kind: Kind, l: Lengths, bit: bool): seq<nat> {
    if bit && !kind.RC6? then [l.one.1] else if !bit && kind.RC6? then [l.zero.1] else []
  }

  /** All but the end. */
  function Merged(kind: Kind, l: Lengths, bits: seq<bool>): seq<nat>
    requires bits != []
  {
    var n := |bits| - 1;
    if n == 0 then FirstTimes(kind, l, bits[0])
    else Merged(kind, l, bits[..n]) + NextTimes(kind, l, bits[n - 1], bits[n], n)
  }

  function HalfTimes(kind: Kind, l: Lengths, bits: seq<bool>): seq<nat>
    requires bits != []
  {
    Merged(kind, l, bits) + LastTimes(kind, l, bits[|bits| - 1])
  }

  // ----- what such lengths are as levels over time

  function Hold(level: bool, time: nat): seq<bool> { seq(time, _ => level) }

  predicate IsPulse(place: nat) { place % 2 == 0 }

  /** The level at every microsecond: pulse and space in turn, a pulse first. */
  function Wave(times: seq<nat>): seq<bool> {
    if times == [] then [] else Wave(times[..|times| - 1]) + Hold(IsPulse(|times| - 1), times[|times| - 1])
  }

  /** Bit 4 of RC-6, the toggle bit, takes double. */
  function FirstTime(kind: Kind, l: Lengths, bit: bool, place: nat): nat {
    (if kind.RC6? && place == 4 then 2 else 1) * if bit then l.one.0 else l.zero.0
  }

  function SecondTime(kind: Kind, l: Lengths, bit: bool, place: nat): nat {
    (if kind.RC6? && place == 4 then 2 else 1) * if bit then l.one.1 else l.zero.1
  }

  /** RC-6 sends a 1 as pulse and space, the others as space and pulse. */
  function FirstHalf(kind: Kind, l: Lengths, bit: bool, place: nat): seq<bool> {
    Hold(bit == kind.RC6?, FirstTime(kind, l, bit, place))
  }

  function SecondHalf(kind: Kind, l: Lengths, bit: bool, place: nat): seq<bool> {
    Hold(bit != kind.RC6?, SecondTime(kind, l, bit, place))
  }

  /** Bit by bit, two halves each. */
  function Cells(kind: Kind, l: Lengths, bits: seq<bool>): seq<bool> {
    if bits == [] then []
    else
      var n := |bits| - 1;
      Cells(kind, l, bits[..n]) + FirstHalf(kind, l, bits[n], n) + SecondHalf(kind, l, bits[n], n)
  }

  /** A space before the first pulse cannot be seen. */
  function Lead(kind: Kind, l: Lengths, bit: bool): seq<bool> {
    if bit == kind.RC6? then [] else FirstHalf(kind, l, bit, 0)
  }

  /** Nor can one behind the last. */
  function Trail(kind: Kind, l: Lengths, bit: bool, place: nat): seq<bool> {
    if bit == kind.RC6? then SecondHalf(kind, l, bit, place) else []
  }

  lemma HoldMore(level: bool, a: nat, b: nat)
    ensures Hold(level, a) + Hold(level, b) == Hold(level, a + b)
  {
  }

  lemma WaveMore(times: seq<nat>, t: nat)
    ensures Wave(times + [t]) == Wave(times) + Hold(IsPulse(|times|), t)
  {
    hide Hold, IsPulse;
    assert (times + [t])[..|times|] == times;
  }

  lemma NextAre(kind: Kind, l: Lengths, last: bool, bit: bool, place: nat)
    requires place > 0
    ensures var x, y := SecondTime(kind, l, last, place - 1), FirstTime(kind, l, bit, place);
      NextTimes(kind, l, last, bit, place) == if bit == last then [x, y] else [x + y]
  {
  }

  lemma NextLevels(kind: Kind, l: Lengths, n: nat, last: bool, bit: bool, place: nat)
    requires place > 0 && IsPulse(n) == (last != kind.RC6?)
    ensures SecondHalf(kind, l, last, place - 1) == Hold(IsPulse(n), SecondTime(kind, l, last, place - 1))
    ensures bit == last ==> FirstHalf(kind, l, bit, place) == Hold(IsPulse(n + 1), FirstTime(kind, l, bit, place))
    ensures bit != last ==> FirstHalf(kind, l, bit, place) == Hold(IsPulse(n), FirstTime(kind, l, bit, place))
  {
    hide Hold, FirstTime, SecondTime;
  }

  /** Second half of one bit and first half of the next, as one length or as two. */
  lemma NextWave(kind: Kind, l: Lengths, times: seq<nat>, last: bool, bit: bool, place: nat)
    requires place > 0 && IsPulse(|times|) == (last != kind.RC6?)
    ensures Wave(times + NextTimes(kind, l, last, bit, place))
      == Wave(times) + SecondHalf(kind, l, last, place - 1) + FirstHalf(kind, l, bit, place)
  {
    hide *;
    NextAre(kind, l, last, bit, place);
    NextLevels(kind, l, |times|, last, bit, place);
    var x, y := SecondTime(kind, l, last, place - 1), FirstTime(kind, l, bit, place);
    var a, b := SecondHalf(kind, l, last, place - 1), FirstHalf(kind, l, bit, place);
    var more := NextTimes(kind, l, last, bit, place);
    if bit == last { TwoWaves(times, more, x, y, a, b); } else { OneWave(times, more, x, y, a, b); }
  }

  lemma TwoWaves(times: seq<nat>, more: seq<nat>, x: nat, y: nat, a: seq<bool>, b: seq<bool>)
    requires more == [x, y] && a == Hold(IsPulse(|times|), x) && b == Hold(IsPulse(|times| + 1), y)
    ensures Wave(times + more) == Wave(times) + a + b
  {
    hide Wave, Hold, IsPulse;
    WaveMore(times, x);
    WaveMore(times + [x], y);
    assert times + [x] + [y] == times + more;
  }

  lemma OneWave(times: seq<nat>, more: seq<nat>, x: nat, y: nat, a: seq<bool>, b: seq<bool>)
    requires more == [x + y] && a == Hold(IsPulse(|times|), x) && b == Hold(IsPulse(|times|), y)
    ensures Wave(times + more) == Wave(times) + a + b
  {
    HoldMore(IsPulse(|times|), x, y);
    hide Wave, Hold, IsPulse;
    WaveMore(times, x + y);
    Regroup(Wave(times), a, b);
  }

  lemma NextParity(kind: Kind, l: Lengths, count: nat, last: bool, bit: bool, place: nat)
    requires IsPulse(count) == (last != kind.RC6?)
    ensures IsPulse(count + |NextTimes(kind, l, last, bit, place)|) == (bit != kind.RC6?)
  {
  }

  lemma Regroup(a: seq<bool>, b: seq<bool>, c: seq<bool>)
    ensures a + b + c == a + (b + c)
  {
  }

  lemma FirstWave(kind: Kind, l: Lengths, bit: bool)
    ensures Lead(kind, l, bit) + Wave(FirstTimes(kind, l, bit)) == FirstHalf(kind, l, bit, 0)
    ensures IsPulse(|FirstTimes(kind, l, bit)|) == (bit != kind.RC6?)
  {
    WaveMore([], FirstTime(kind, l, bit, 0));
    assert [] + [FirstTime(kind, l, bit, 0)] == [FirstTime(kind, l, bit, 0)];
  }

  lemma {:induction false} MergedWave(kind: Kind, l: Lengths, bits: seq<bool>)
    requires bits != []
    ensures var n, m := |bits| - 1, Merged(kind, l, bits);
      && Lead(kind, l, bits[0]) + Wave(m) == Cells(kind, l, bits[..n]) + FirstHalf(kind, l, bits[n], n)
      && IsPulse(|m|) == (bits[n] != kind.RC6?)
  {
    hide NextTimes, Wave, Lead, FirstHalf, SecondHalf, FirstTimes, IsPulse;
    var n := |bits| - 1;
    if n == 0 {
      FirstWave(kind, l, bits[0]);
    } else {
      MergedWave(kind, l, bits[..n]);
      NextWave(kind, l, Merged(kind, l, bits[..n]), bits[n - 1], bits[n], n);
      NextParity(kind, l, |Merged(kind, l, bits[..n])|, bits[n - 1], bits[n], n);
      CellsMore(kind, l, bits, n - 1);
      hide Cells, Merged;
      var lead, a, b := Lead(kind, l, bits[0]), SecondHalf(kind, l, bits[n - 1], n - 1), FirstHalf(kind, l, bits[n], n);
      var w := Wave(Merged(kind, l, bits[..n]));
      Regroup(lead, w + a, b);
      Regroup(lead, w, a);
    }
  }

  lemma CellsMore(kind: Kind, l: Lengths, bits: seq<bool>, k: nat)
    requires k < |bits|
    ensures Cells(kind, l, bits[..k + 1])
      == Cells(kind, l, bits[..k]) + FirstHalf(kind, l, bits[k], k) + SecondHalf(kind, l, bits[k], k)
    ensures bits[..|bits|] == bits
  {
    hide FirstHalf, SecondHalf;
    assert bits[..k + 1][..k] == bits[..k];
  }

  /**
   * The lengths that go out are the levels of the bits, from the first pulse to the last, unless the code ends with
   * the double bit of RC-6 and that is a 0: its last pulse is sent half as long.
   */
  lemma LengthsAreLevels(kind: Kind, l: Lengths, bits: seq<bool>)
    requires bits != []
    ensures var n := |bits| - 1;
      Lead(kind, l, bits[0]) + Wave(HalfTimes(kind, l, bits)) + Trail(kind, l, bits[n], n) == Cells(kind, l, bits)
      <==> !(kind.RC6? && n == 4 && !bits[n] && l.zero.1 > 0)
  {
    hide Wave, Lead, FirstHalf, SecondHalf, Merged, Cells, LastTimes, Trail;
    var n := |bits| - 1;
    MergedWave(kind, l, bits);
    CellsMore(kind, l, bits, n);
    LastWave(kind, l, Merged(kind, l, bits), bits[n], n);
    var lead, w := Lead(kind, l, bits[0]), Wave(Merged(kind, l, bits));
    assert lead + w == Cells(kind, l, bits[..n]) + FirstHalf(kind, l, bits[n], n);
    hide LastLevels;
    SameFront(lead, w, LastLevels(kind, l, bits[n]), Trail(kind, l, bits[n], n), SecondHalf(kind, l, bits[n], n));
  }

  lemma SameFront(lead: seq<bool>, w: seq<bool>, last: seq<bool>, trail: seq<bool>, half: seq<bool>)
    ensures lead + (w + last) + trail == lead + w + half <==> last + trail == half
  {
    assert lead + (w + last) + trail == (lead + w) + (last + trail);
    var front, a := lead + w, last + trail;
    assert (front + a)[|front|..] == a && (front + half)[|front|..] == half;
  }

  /** The last pulse, if the code ends with one. */
  function LastLevels(kind: Kind, l: Lengths, bit: bool): seq<bool> {
    if bit == kind.RC6? then [] else Hold(true, if bit then l.one.1 else l.zero.1)
  }

  lemma LastWave(kind: Kind, l: Lengths, times: seq<nat>, bit: bool, place: nat)
    requires IsPulse(|times|) == (bit != kind.RC6?)
    ensures Wave(times + LastTimes(kind, l, bit)) == Wave(times) + LastLevels(kind, l, bit)
    ensures LastLevels(kind, l, bit) + Trail(kind, l, bit, place) == SecondHalf(kind, l, bit, place)
      <==> !(kind.RC6? && place == 4 && !bit && l.zero.1 > 0)
  {
    hide Wave;
    if bit == kind.RC6? {
      assert times + LastTimes(kind, l, bit) == times;
    } else {
      WaveMore(times, if bit then l.one.1 else l.zero.1);
    }
    LastHalf(kind, l, bit, place);
  }

  lemma LastHalf(kind: Kind, l: Lengths, bit: bool, place: nat)
    ensures LastLevels(kind, l, bit) + Trail(kind, l, bit, place) == SecondHalf(kind, l, bit, place)
      <==> !(kind.RC6? && place == 4 && !bit && l.zero.1 > 0)
  {
    if kind.RC6? && !bit {
      assert |LastLevels(kind, l, bit)| == l.zero.1;
    } else {
      assert [] + SecondHalf(kind, l, bit, place) == SecondHalf(kind, l, bit, place);
    }
  }

  // ----- what the decoder makes of such lengths

  /** All half-bits are of one length. */
  function Even(p: nat): Lengths { Lengths((p, p), (p, p)) }

  lemma PdiffBelow(a: real, b: real, c: real)
    requires a + b > 0.0
    ensures Pdiff(a, b) < c <==> (if a > b then a - b else b - a) < c * ((a + b) / 2.0)
  {
    QuotientBelow(if a > b then a - b else b - a, (a + b) / 2.0, c);
  }

  /** How far a length may be from a double or triple half-bit, and from the double that tells the leading space. */
  lemma TimesTolerance(t: nat, pulse: nat)
    requires pulse > 0
    ensures Times(t, 2, pulse, 0.2) <==> 9 * t < 22 * pulse && 18 * pulse < 11 * t
    ensures Times(t, 3, pulse, 0.2) <==> 9 * t < 33 * pulse && 27 * pulse < 11 * t
    ensures Times(t, 2, pulse, 0.3) <==> 17 * t < 46 * pulse && 34 * pulse < 23 * t
  {
    hide Times;
    DoubleTimes(t, pulse);
    TripleTimes(t, pulse);
  }

  lemma DoubleTimes(t: nat, pulse: nat)
    requires pulse > 0
    ensures Times(t, 2, pulse, 0.2) <==> 9 * t < 22 * pulse && 18 * pulse < 11 * t
    ensures Times(t, 2, pulse, 0.3) <==> 17 * t < 46 * pulse && 34 * pulse < 23 * t
  {
    hide Pdiff;
    PdiffBelow(t as real / 2.0, pulse as real, 0.2);
    PdiffBelow(t as real / 2.0, pulse as real, 0.3);
  }

  lemma TripleTimes(t: nat, pulse: nat)
    requires pulse > 0
    ensures Times(t, 3, pulse, 0.2) <==> 9 * t < 33 * pulse && 27 * pulse < 11 * t
  {
    hide Pdiff;
    PdiffBelow(t as real / 3.0, pulse as real, 0.2);
  }

  lemma SingleAndDouble(p: nat)
    requires p > 0
    ensures !Times(p, 3, p, 0.2) && !Times(p, 2, p, 0.2) && !Times(p, 2, p, 0.3)
    ensures !Times(2 * p, 3, p, 0.2) && Times(2 * p, 2, p, 0.2) && Times(2 * p, 2, p, 0.3)
  {
    hide Pdiff;
    var r := p as real;
    PdiffBelow(r / 3.0, r, 0.2);
    PdiffBelow(r / 2.0, r, 0.2);
    PdiffBelow(r / 2.0, r, 0.3);
    PdiffBelow((2 * p) as real / 3.0, r, 0.2);
    PdiffBelow((2 * p) as real / 2.0, r, 0.2);
    PdiffBelow((2 * p) as real / 2.0, r, 0.3);
  }

  /** Half of the k-th bit has been seen, and the bits before are marked. */
  predicate Reading(s: Scan, bits: seq<bool>, k: nat)
    requires k < |bits|
  {
    && s.Going? && |s.h.temp| == ROOM && s.h.halfbit && s.h.bit == bits[k] && s.h.count == k && !s.h.rc6temp && !s.h.rc6
    && (forall i :: 0 <= i < k && i < ROOM ==> s.h.temp[i] == bits[i])
    && (forall i :: k < i < ROOM ==> !s.h.temp[i]) && (k < ROOM ==> s.h.temp[k] ==> bits[k])
  }

  lemma StepsMore(s: Scan, a: seq<nat>, t: nat, pulse: nat)
    requires pulse > 0 && (s.Going? ==> |s.h.temp| == ROOM)
    ensures Steps(s, a + [t], pulse) == Step(Steps(s, a, pulse), t, pulse)
  {
    assert (a + [t])[..|a|] == a;
  }

  /** The next bit is another one: one double length. */
  lemma ReadsChange(s: Scan, bits: seq<bool>, k: nat, p: nat)
    requires p > 0 && k + 1 < |bits| && k < ROOM && Reading(s, bits, k) && bits[k + 1] != bits[k]
    ensures Reading(Step(s, 2 * p, p), bits, k + 1)
  {
    SingleAndDouble(p);
    hide Times;
  }

  /** The next bit is the same: two single lengths. */
  lemma ReadsSame(s: Scan, bits: seq<bool>, k: nat, p: nat)
    requires p > 0 && k + 1 < |bits| && k + 1 < ROOM && Reading(s, bits, k) && bits[k + 1] == bits[k]
    ensures Reading(Step(Step(s, p, p), p, p), bits, k + 1)
  {
    SingleAndDouble(p);
    hide Times;
  }

  lemma NextEven(p: nat, last: bool, bit: bool, place: nat)
    ensures NextTimes(BIPHASE, Even(p), last, bit, place) == if bit == last then [p, p] else [2 * p]
  {
  }

  lemma ReadsNext(a: seq<nat>, bits: seq<bool>, k: nat, p: nat)
    requires p > 0 && k + 1 < |bits| < ROOM && Reading(Steps(Start(false), a, p), bits, k)
    ensures Reading(Steps(Start(false), a + NextTimes(BIPHASE, Even(p), bits[k], bits[k + 1], k + 1), p), bits, k + 1)
  {
    hide Times, Step, Reading, Steps, Start, NextTimes;
    NextEven(p, bits[k], bits[k + 1], k + 1);
    var s := Steps(Start(false), a, p);
    if bits[k + 1] == bits[k] {
      TwoMore(a, p);
      ReadsSame(s, bits, k, p);
    } else {
      StepsMore(Start(false), a, 2 * p, p);
      ReadsChange(s, bits, k, p);
    }
  }

  lemma TwoMore(a: seq<nat>, p: nat)
    requires p > 0
    ensures Steps(Start(false), a + [p, p], p) == Step(Step(Steps(Start(false), a, p), p, p), p, p)
  {
    hide Step, Steps, Start;
    StepsMore(Start(false), a, p, p);
    StepsMore(Start(false), a + [p], p, p);
    assert a + [p] + [p] == a + [p, p];
  }

  lemma {:induction false} ReadsMerged(bits: seq<bool>, p: nat)
    requires p > 0 && 0 < |bits| < ROOM && bits[0]
    ensures Reading(Steps(Start(false), Merged(BIPHASE, Even(p), bits), p), bits, |bits| - 1)
  {
    hide Step, Reading;
    var n := |bits| - 1;
    if n == 0 {
      NothingRead(bits);
    } else {
      hide Steps, Start;
      var before := bits[..n];
      ReadsMerged(before, p);
      ReadingLonger(Steps(Start(false), Merged(BIPHASE, Even(p), before), p), before, bits, n - 1);
      ReadsNext(Merged(BIPHASE, Even(p), before), bits, n - 1, p);
    }
  }

  lemma NothingRead(bits: seq<bool>)
    requires bits != [] && bits[0]
    ensures Reading(Start(false), bits, 0)
  {
  }

  lemma ReadingLonger(s: Scan, a: seq<bool>, b: seq<bool>, k: nat)
    requires k < |a| <= |b| && a == b[..|a|] && Reading(s, a, k)
    ensures Reading(s, b, k)
  {
  }

  /** RC-5 is told by its half-bit. */
  function KindOf(p: nat): Kind
    requires p > 0
  {
    if Pdiff(p as real, 889.0) < 0.2 then RC5 else BIPHASE
  }

  /** Half-bits from 728 to 1086 microseconds are taken for RC-5. */
  lemma KindIff(p: nat)
    requires p > 0
    ensures KindOf(p) == RC5 <==> 728 <= p <= 1086
  {
    PdiffBelow(p as real, 889.0, 0.2);
    hide Pdiff;
  }

  lemma EndsOnOne(s: Scan, bits: seq<bool>, p: nat)
    requires p > 0 && 0 < |bits| < ROOM && bits[|bits| - 1] && Reading(s, bits, |bits| - 1)
    ensures var r := Finished(Step(s, p, p), p, true); r.Bits? && r.bits == bits && r.kind == KindOf(p)
  {
    SingleAndDouble(p);
    hide Times, Pdiff;
    var n := |bits|;
    var h := Step(s, p, p).h;
    assert h.count == n && !h.halfbit;
    assert Mark(h).temp[..n] == bits;
  }

  lemma EndsOnZero(s: Scan, bits: seq<bool>, p: nat)
    requires p > 0 && 0 < |bits| < ROOM && !bits[|bits| - 1] && Reading(s, bits, |bits| - 1)
    ensures var r := Finished(s, p, true); r.Bits? && r.bits == bits && r.kind == KindOf(p)
  {
    hide Pdiff;
    assert Mark(s.h).temp[..|bits|] == bits;
  }

  /** The end of the code. */
  lemma ReadsAll(bits: seq<bool>, p: nat)
    requires p > 0 && 0 < |bits| < ROOM && bits[0]
    ensures var r := Finished(Steps(Start(false), HalfTimes(BIPHASE, Even(p), bits), p), p, true);
      r.Bits? && r.bits == bits && r.kind == KindOf(p)
  {
    var n := |bits| - 1;
    var s, a := Steps(Start(false), Merged(BIPHASE, Even(p), bits), p), Merged(BIPHASE, Even(p), bits);
    ReadsMerged(bits, p);
    hide Merged, Steps, Reading, Finished, Step;
    if bits[n] {
      StepsMore(Start(false), a, p, p);
      EndsOnOne(s, bits, p);
    } else {
      assert a + [] == a;
      EndsOnZero(s, bits, p);
    }
  }

  // ----- the leading space

  /** The merged lengths of a code that begins with a 1 have their first double, if any, at an even place. */
  predicate DoublesEven(data: seq<nat>, p: nat, m: nat) {
    && m <= |data| && m % 2 == 0 && (forall i :: 0 <= i < m ==> data[i] == p) && (m < |data| ==> data[m] == 2 * p)
  }

  lemma {:induction false} StartSpaceFound(data: seq<nat>, p: nat, m: nat, i: nat)
    requires p > 0 && DoublesEven(data, p, m) && i <= m
    ensures StartSpace(data, p, i)
    decreases m - i
  {
    SingleAndDouble(p);
    hide Times;
    if i < m { StartSpaceFound(data, p, m, i + 1); }
  }

  /** As long as all bits are ones there are only single lengths, a pair for each bit behind the first. */
  lemma {:induction false} MergedEven(bits: seq<bool>, p: nat) returns (m: nat)
    requires bits != [] && bits[0]
    ensures DoublesEven(Merged(BIPHASE, Even(p), bits), p, m)
    ensures m == |Merged(BIPHASE, Even(p), bits)| ==> bits[|bits| - 1]
  {
    var n := |bits| - 1;
    m := 0;
    if n > 0 {
      m := MergedEven(bits[..n], p);
      if m == |Merged(BIPHASE, Even(p), bits[..n])| && bits[n] { m := m + 2; }
    }
  }

  /** The trailing pulse changes nothing. */
  lemma {:induction false} StartSpaceLonger(a: seq<nat>, p: nat, m: nat, i: nat)
    requires p > 0 && DoublesEven(a, p, m) && i <= m
    ensures StartSpace(a + [p], p, i)
    decreases m - i
  {
    SingleAndDouble(p);
    hide Times;
    if i < m {
      StartSpaceLonger(a, p, m, i + 1);
    } else if m == |a| {
      assert StartSpace(a + [p], p, m + 1);
    }
  }

  lemma StartsWithSpace(bits: seq<bool>, p: nat)
    requires p > 0 && bits != [] && bits[0]
    ensures StartSpace(HalfTimes(BIPHASE, Even(p), bits), p, 0)
  {
    var a := Merged(BIPHASE, Even(p), bits);
    var m := MergedEven(bits, p);
    hide Merged, StartSpace, DoublesEven;
    if bits[|bits| - 1] {
      StartSpaceLonger(a, p, m, 0);
    } else {
      assert a + [] == a;
      StartSpaceFound(a, p, m, 0);
    }
  }

  lemma {:induction false} MergedFirst(bits: seq<bool>, p: nat)
    requires |bits| > 1
    ensures var a := Merged(BIPHASE, Even(p), bits);
      a != [] && a[0] == if bits[0] && !bits[1] then 2 * p else p
  {
    var n := |bits| - 1;
    if n > 1 { MergedFirst(bits[..n], p); }
  }

  /** A code that begins with two ones is read as it was sent, at its own half-bit. */
  lemma UnpacksAgain(bits: seq<bool>, p: nat)
    requires p > 0 && 1 < |bits| < ROOM && bits[0] && bits[1]
    ensures var data := HalfTimes(BIPHASE, Even(p), bits); data != [] && Unpack(data, p, false).Bits?
    ensures var r := Unpack(HalfTimes(BIPHASE, Even(p), bits), p, false); r.bits == bits && r.kind == KindOf(p)
  {
    var data := HalfTimes(BIPHASE, Even(p), bits);
    MergedFirst(bits, p);
    assert data[0] == p;
    PdiffBelow(p as real, p as real, 0.1);
    hide Merged, HalfTimes, Steps, Finished, Pdiff;
    StartsWithSpace(bits, p);
    ReadsAll(bits, p);
  }

  // ----- what it makes of other codes

  /** The first bit is always read as a 1. */
  predicate Opened(s: Scan) { s.Going? && |s.h.temp| == ROOM ==> s.h.temp[0] }

  lemma {:induction false} FirstBitRead(s: Scan, data: seq<nat>, pulse: nat)
    requires pulse > 0 && s.Going? && |s.h.temp| == ROOM && s.h.bit && s.h.count == 0 && data != []
    ensures Opened(Steps(s, data, pulse))
  {
    hide Times;
    var n := |data| - 1;
    if n > 0 { FirstBitRead(s, data[..n], pulse); } else { assert data[..0] == []; }
  }

  lemma FirstIsOne(data: seq<nat>, pulse: nat, rc6: bool)
    requires pulse > 0 && data != []
    ensures var r := Unpack(data, pulse, rc6); r.Bits? && r.bits != [] ==> r.bits[0]
  {
    hide Times, Pdiff, StartSpace, Steps, Step;
    var rest := if StartSpace(data, pulse, 0) then data else data[1..];
    if rest != [] {
      FirstBitRead(Start(rc6), rest, pulse);
    } else {
      assert Steps(Start(rc6), [], pulse) == Start(rc6) by { NoSteps(Start(rc6), pulse); }
    }
  }

  lemma NoSteps(s: Scan, pulse: nat)
    requires pulse > 0 && (s.Going? ==> |s.h.temp| == ROOM)
    ensures Steps(s, [], pulse) == s
  {
  }

  /** Lengths that are neither double nor triple read as ones. */
  predicate Singles(data: seq<nat>, pulse: nat)
    requires pulse > 0
  {
    forall i :: 0 <= i < |data| ==>
      !Times(data[i], 2, pulse, 0.2) && !Times(data[i], 3, pulse, 0.2) && !Times(data[i], 2, pulse, 0.3)
  }

  predicate ReadingOnes(s: Scan, n: nat) {
    s.Going? ==>
      && |s.h.temp| == ROOM && s.h.bit && s.h.halfbit == (n % 2 == 0) && s.h.count == (n + 1) / 2
      && forall i :: 0 <= i < s.h.count && i < ROOM ==> s.h.temp[i]
  }

  lemma {:induction false} SinglesRead(data: seq<nat>, pulse: nat, rc6: bool)
    requires pulse > 0 && Singles(data, pulse)
    ensures ReadingOnes(Steps(Start(rc6), data, pulse), |data|)
  {
    hide Times;
    if data != [] { SinglesRead(data[..|data| - 1], pulse, rc6); }
  }

  lemma {:induction false} NoDoubleFound(data: seq<nat>, pulse: nat, i: nat)
    requires pulse > 0 && Singles(data, pulse) && i <= |data|
    ensures StartSpace(data, pulse, i)
    decreases |data| - i
  {
    hide Times;
    if i < |data| { NoDoubleFound(data, pulse, i + 1); }
  }

  lemma NothingLonger(t: nat, first: nat, pulse: nat)
    requires pulse > 0 && t <= first && Pdiff(first as real, pulse as real) <= 0.3
    ensures !Times(t, 2, pulse, 0.2) && !Times(t, 3, pulse, 0.2) && !Times(t, 2, pulse, 0.3)
  {
    hide Pdiff;
    var a, r := t as real, pulse as real;
    PdiffBelow(first as real, r, 0.31);
    PdiffBelow(a / 2.0, r, 0.2);
    PdiffBelow(a / 2.0, r, 0.3);
    PdiffBelow(a / 3.0, r, 0.2);
  }

  /** If no length is longer than the first, all bits are read as ones. */
  lemma AllOnes(data: seq<nat>, pulse: nat, rc6: bool)
    requires pulse > 0 && data != [] && forall i :: 0 <= i < |data| ==> data[i] <= data[0]
    ensures var r := Unpack(data, pulse, rc6); r.Bits? ==> forall i :: 0 <= i < |r.bits| ==> r.bits[i]
  {
    if Pdiff(data[0] as real, pulse as real) <= 0.3 {
      hide Pdiff, Times, Steps;
      forall i | 0 <= i < |data|
        ensures !Times(data[i], 2, pulse, 0.2) && !Times(data[i], 3, pulse, 0.2) && !Times(data[i], 2, pulse, 0.3)
      {
        NothingLonger(data[i], data[0], pulse);
      }
      NoDoubleFound(data, pulse, 0);
      SinglesRead(data, pulse, rc6);
    }
  }

  predicate SinglesAndDoubles(data: seq<nat>, p: nat) {
    forall i :: 0 <= i < |data| ==> data[i] == p || data[i] == 2 * p
  }

  lemma JoinedShort(a: seq<nat>, b: seq<nat>, p: nat)
    requires SinglesAndDoubles(a, p) && SinglesAndDoubles(b, p)
    ensures SinglesAndDoubles(a + b, p)
  {
  }

  lemma {:induction false} MergedShort(bits: seq<bool>, p: nat)
    requires bits != []
    ensures SinglesAndDoubles(Merged(BIPHASE, Even(p), bits), p)
  {
    var n := |bits| - 1;
    if n > 0 {
      MergedShort(bits[..n], p);
      var t := NextTimes(BIPHASE, Even(p), bits[n - 1], bits[n], n);
      NextEven(p, bits[n - 1], bits[n], n);
      JoinedShort(Merged(BIPHASE, Even(p), bits[..n]), t, p);
    }
  }

  /** A code that does not begin with two ones is never read as it was sent, whatever is taken for the pulse. */
  lemma NeverUnpacked(bits: seq<bool>, p: nat, pulse: nat, rc6: bool)
    requires p > 0 && pulse > 0 && |bits| > 1 && !(bits[0] && bits[1])
    ensures var data := HalfTimes(BIPHASE, Even(p), bits);
      data != [] && (Unpack(data, pulse, rc6).Bits? ==> Unpack(data, pulse, rc6).bits != bits)
  {
    var data := HalfTimes(BIPHASE, Even(p), bits);
    MergedFirst(bits, p);
    MergedShort(bits, p);
    JoinedShort(Merged(BIPHASE, Even(p), bits), LastTimes(BIPHASE, Even(p), bits[|bits| - 1]), p);
    hide Merged, Unpack;
    if bits[0] {
      AllOnes(data, pulse, rc6);
    } else {
      FirstIsOne(data, pulse, rc6);
    }
  }
}
