/** The reading side as values: pulse lengths in, tag reports out. */
module Receiver {
  import opened Rings
  import opened LineCode
  import Em4100
  import Em4100Encode
  import FdxB
  import PhidgetTag

  datatype Protocol = EM4100 | ISO11785_FDX_B | PHIDGETS

  /** A report to the tag event. */
  datatype Report = Tag(protocol: Protocol, text: string)

  /** Unread pulses, the two clock lengths seen (0: not yet), and the two line decoders. */
  datatype Rx = Rx(pulses: seq<Pulse>, short: nat, long: nat, man: Line, bip: Line) {
    predicate Valid() { man.Valid() && bip.Valid() }
  }

  // ----- dataInput

  /** A received byte: level in the top bit, half the clocks below; lengths are rounded to the known ones. */
  function Quantize(byte: nat): Pulse
    requires byte < 256
  {
    var clocks, high := 2 * byte % 256, byte >= 128;
    if clocks == 254 then Space
    else if 10 <= clocks <= 22 then Pulse(16, high)
    else if 26 <= clocks <= 40 then Pulse(32, high)
    else if 42 <= clocks <= 54 then Pulse(48, high)
    else if 56 <= clocks <= 72 then Pulse(64, high)
    else if 120 <= clocks <= 136 then Pulse(128, high)
    else Space
  }

  /** Append to the pulse ring; when it is full the oldest pulse is lost. */
  function Enqueue(q: seq<Pulse>, p: Pulse): (r: seq<Pulse>)
    requires |q| < SIZE
    ensures |r| < SIZE
  {
    if |q| == SIZE - 1 then q[1..] + [p] else q + [p]
  }

  function EnqueueAll(q: seq<Pulse>, data: seq<nat>): (r: seq<Pulse>)
    requires |q| < SIZE && forall i :: 0 <= i < |data| ==> data[i] < 256
    ensures |r| < SIZE
  {
    if data == [] then q else Enqueue(EnqueueAll(q, data[..|data| - 1]), Quantize(data[|data| - 1]))
  }

  /** The latest pulses that there is room for. */
  lemma {:induction false} EnqueueLatest(q: seq<Pulse>, data: seq<nat>, read: seq<Pulse>)
    requires |q| < SIZE && |read| == |data|
    requires forall i :: 0 <= i < |data| ==> data[i] < 256 && read[i] == Quantize(data[i])
    ensures var all := q + read;
      EnqueueAll(q, data) == if |all| < SIZE then all else all[|all| - (SIZE - 1)..]
  {
    hide Quantize;
    var n := |data|;
    if n == 0 {
      assert q + read == q;
    } else {
      EnqueueLatest(q, data[..n - 1], read[..n - 1]);
      assert q + read == q + read[..n - 1] + [read[n - 1]];
    }
  }

  // ----- analyze_data

  function ResetLine(l: Line): Line { Line(l.ring.(rd := 0, wr := 0), false, false) }

  /** resetValuesFromSpace */
  function Reset(s: Rx): Rx {
    Rx(s.pulses, 0, 0, ResetLine(s.man), ResetLine(s.bip))
  }

  /** How far the pulses fit two clock lengths, one twice the other; bad if one does not fit. */
  datatype Rate = Rate(short: nat, long: nat, n: nat, bad: bool)

  function Scan(ps: seq<Pulse>, short: nat, long: nat, i: nat): (r: Rate)
    requires i <= |ps|
    ensures i <= r.n <= |ps| && (forall j :: i <= j < r.n ==> ps[j].Pulse?)
    ensures i < |ps| && ps[i].Pulse? && !r.bad ==> i < r.n
    ensures !r.bad && r.n < |ps| ==> ps[r.n].Space?
    ensures r.bad ==> r.n < |ps|
    decreases |ps| - i
  {
    if i == |ps| || ps[i].Space? then Rate(short, long, i, false)
    else
      var clocks := ps[i].clocks;
      if short == 0 then Scan(ps, clocks, long, i + 1)
      else if clocks != short then
        if long == 0 then
          if short * 2 == clocks || short / 2 == clocks then Scan(ps, short, clocks, i + 1)
          else Rate(short, long, i, true)
        else if clocks != long then Rate(short, long, i, true)
        else Scan(ps, short, long, i + 1)
      else Scan(ps, short, long, i + 1)
  }

  function FindEm(l: Line): (r: (Line, seq<Report>))
    requires l.Valid()
    ensures r.0.Valid()
  {
    match Em4100.Locate(l.ring)
    case None => (l, [])
    case Some(o) =>
      (l.(ring := l.ring.Skip(64)),
       [Tag(EM4100, Em4100Encode.TagText(Em4100.Payload(l.ring.All()[o..o + 64])))])
  }

  function FindPhidget(l: Line): (r: (Line, seq<Report>))
    requires l.Valid()
    ensures r.0.Valid()
  {
    match PhidgetTag.Locate(l.ring)
    case None => (l, [])
    case Some(o) => (l.(ring := l.ring.Skip(224)), [Tag(PHIDGETS, PhidgetTag.TagText(l.ring.All()[o..o + 224]))])
  }

  function FindFdx(l: Line): (r: (Line, seq<Report>))
    requires l.Valid()
    ensures r.0.Valid()
  {
    match FdxB.Locate(l.ring)
    case None => (l, [])
    case Some(o) =>
      (l.(ring := l.ring.Skip(128)), [Tag(ISO11785_FDX_B, FdxB.TelegramText(FdxB.Data(l.ring.All()[o..o + 128])))])
  }

  /** The biphase side of a batch: the frame decoders look only if every pulse was usable. */
  function BiphaseBatch(l: Line, short: nat, long: nat, ps: seq<Pulse>): (r: (Line, seq<Report>))
    requires l.Valid() && Pulses(ps)
    ensures r.0.Valid()
  {
    var (bip, ok) := BipAll(l, short, long, ps);
    if !ok then (bip, [])
    else
      var (bip1, ph) := FindPhidget(bip);
      var (bip2, fdx) := FindFdx(bip1);
      (bip2, ph + fdx)
  }

  /** Pulses that fit the clock lengths go through both line decoders, and the frame decoders look on. */
  function Batch(s: Rx, ps: seq<Pulse>): (r: (Rx, seq<Report>))
    requires s.Valid() && Pulses(ps)
    ensures r.0.Valid() && r.0.pulses == s.pulses
  {
    var (man, em) := FindEm(ManAll(s.man, s.long, ps));
    var (bip, found) := BiphaseBatch(s.bip, s.short, s.long, ps);
    (s.(man := man, bip := bip), em + found)
  }

  function Ordered(s: Rx, rate: Rate): Rx {
    if rate.long < rate.short then s.(short := rate.long, long := rate.short)
    else s.(short := rate.short, long := rate.long)
  }

  /** One call of analyze_data. */
  function Analyze(s: Rx): (r: (Rx, seq<Report>))
    requires s.Valid()
    ensures r.0.Valid()
    decreases |s.pulses|
  {
    var ps := s.pulses;
    if ps != [] && ps[0].Space? then Analyze(Reset(s.(pulses := ps[1..])))
    else
      var rate := Scan(ps, s.short, s.long, 0);
      if rate.bad then Analyze(Reset(s.(pulses := ps[1..])))
      else if rate.short == 0 || rate.long == 0 then
        var t := s.(short := rate.short, long := rate.long);
        if rate.n == |ps| then (t, []) else Analyze(t.(pulses := ps[rate.n..]))
      else
        var (t, reports) := Batch(Ordered(s, rate).(pulses := ps[rate.n..]), ps[..rate.n]);
        if t.pulses == [] then (t, reports)
        else
          var (u, more) := Analyze(t);
          (u, reports + more)
  }

  /** One call of dataInput: a packet of pulse lengths. */
  function Input(s: Rx, data: seq<nat>): (r: (Rx, seq<Report>))
    requires s.Valid() && |s.pulses| < SIZE && forall i :: 0 <= i < |data| ==> data[i] < 256
    ensures r.0.Valid()
  {
    var t := s.(pulses := EnqueueAll(s.pulses, data));
    if data == [] then (t, []) else Analyze(t)
  }

  /** What is left unread never grows. */
  lemma {:induction false} AnalyzeShrinks(s: Rx)
    requires s.Valid()
    ensures |Analyze(s).0.pulses| <= |s.pulses|
    decreases |s.pulses|
  {
    hide Batch;
    var ps := s.pulses;
    if ps != [] && ps[0].Space? {
      AnalyzeShrinks(Reset(s.(pulses := ps[1..])));
    } else {
      var rate := Scan(ps, s.short, s.long, 0);
      if rate.bad {
        AnalyzeShrinks(Reset(s.(pulses := ps[1..])));
      } else if rate.short == 0 || rate.long == 0 {
        if rate.n != |ps| { AnalyzeShrinks(s.(short := rate.short, long := rate.long, pulses := ps[rate.n..])); }
      } else {
        var (t, reports) := Batch(Ordered(s, rate).(pulses := ps[rate.n..]), ps[..rate.n]);
        if t.pulses != [] { AnalyzeShrinks(t); }
      }
    }
  }

  /** The five lengths the reader knows. */
  predicate KnownLength(clocks: nat) { clocks == 16 || clocks == 32 || clocks == 48 || clocks == 64 || clocks == 128 }

  /** The first n are pulses of two lengths at most, one twice the other. */
  ghost predicate TwoClocks(ps: seq<Pulse>, n: nat)
    requires n <= |ps|
  {
    exists c: nat :: FitsClock(ps, n, c)
  }

  predicate FitsClock(ps: seq<Pulse>, n: nat, c: nat)
    requires n <= |ps|
  {
    forall j :: 0 <= j < n ==> ps[j].Pulse? && (ps[j].clocks == c || ps[j].clocks == 2 * c)
  }

  predicate KnownPulses(ps: seq<Pulse>) { forall j :: 0 <= j < |ps| && ps[j].Pulse? ==> KnownLength(ps[j].clocks) }

  predicate Among(ps: seq<Pulse>, i: nat, clocks: nat)
    requires i <= |ps|
  {
    exists j :: 0 <= j < i && ps[j] in [Pulse(clocks, true), Pulse(clocks, false)]
  }

  /** The two clock lengths stand for just the lengths among the first i pulses. */
  predicate SeenSoFar(ps: seq<Pulse>, short: nat, long: nat, i: nat)
    requires i <= |ps|
  {
    && (forall j :: 0 <= j < i ==> ps[j].Pulse? && (ps[j].clocks == short || ps[j].clocks == long))
    && (if i == 0 then short == 0 else Among(ps, i, short)) && (long == 0 || Among(ps, i, long))
    && (long != 0 ==> short == 2 * long || long == 2 * short)
  }

  lemma AmongMore(ps: seq<Pulse>, i: nat, clocks: nat)
    requires i < |ps|
    ensures Among(ps, i, clocks) ==> Among(ps, i + 1, clocks)
    ensures ps[i].Pulse? ==> Among(ps, i + 1, ps[i].clocks)
  {
    if ps[i].Pulse? { assert ps[i] in [Pulse(ps[i].clocks, true), Pulse(ps[i].clocks, false)]; }
  }

  lemma SeenNext(ps: seq<Pulse>, short: nat, long: nat, i: nat)
    requires i < |ps| && KnownPulses(ps) && SeenSoFar(ps, short, long, i) && ps[i].Pulse?
    ensures var clocks := ps[i].clocks;
      && (short == 0 ==> SeenSoFar(ps, clocks, long, i + 1))
      && (clocks == short || clocks == long ==> SeenSoFar(ps, short, long, i + 1))
      && (short != 0 && long == 0 && (short * 2 == clocks || short / 2 == clocks) ==>
            SeenSoFar(ps, short, clocks, i + 1))
  {
    assert KnownLength(ps[i].clocks);
    AmongMore(ps, i, short);
    AmongMore(ps, i, long);
    hide Among;
  }

  lemma {:induction false} ScanSoFar(ps: seq<Pulse>, short: nat, long: nat, i: nat)
    requires i <= |ps| && KnownPulses(ps) && SeenSoFar(ps, short, long, i)
    ensures var r := Scan(ps, short, long, i);
      && SeenSoFar(ps, r.short, r.long, r.n)
      && (r.bad ==> ps[r.n].Pulse? && !TwoClocks(ps, r.n + 1))
    decreases |ps| - i
  {
    hide SeenSoFar, TwoClocks, KnownPulses;
    if i < |ps| && ps[i].Pulse? {
      var clocks := ps[i].clocks;
      assert clocks > 0 by { KnownPositive(ps, i); }
      SeenNext(ps, short, long, i);
      if short == 0 {
        ScanSoFar(ps, clocks, long, i + 1);
      } else if clocks == short || clocks == long {
        ScanSoFar(ps, short, long, i + 1);
      } else if long == 0 && (short * 2 == clocks || short / 2 == clocks) {
        ScanSoFar(ps, short, clocks, i + 1);
      } else {
        NoTwoClocks(ps, short, long, i);
      }
    }
  }

  lemma KnownPositive(ps: seq<Pulse>, i: nat)
    requires i < |ps| && KnownPulses(ps) && ps[i].Pulse?
    ensures ps[i].clocks > 0
  {
  }

  lemma NoTwoClocks(ps: seq<Pulse>, short: nat, long: nat, i: nat)
    requires i < |ps| && KnownPulses(ps) && SeenSoFar(ps, short, long, i) && ps[i].Pulse? && short != 0
    requires ps[i].clocks != short && ps[i].clocks != long
    requires long == 0 ==> short * 2 != ps[i].clocks && short / 2 != ps[i].clocks
    ensures !TwoClocks(ps, i + 1)
  {
    hide FitsClock;
    var n := i + 1;
    forall c: nat ensures !FitsClock(ps, n, c) { Misfit(ps, short, long, i, c); }
  }

  lemma Misfit(ps: seq<Pulse>, short: nat, long: nat, i: nat, c: nat)
    requires i < |ps| && KnownPulses(ps) && SeenSoFar(ps, short, long, i) && ps[i].Pulse? && short != 0
    requires ps[i].clocks != short && ps[i].clocks != long
    requires long == 0 ==> short * 2 != ps[i].clocks && short / 2 != ps[i].clocks
    ensures !FitsClock(ps, i + 1, c)
  {
  }

  /**
   * The scan of fresh pulses ends at a gap or where they end if they come in two lengths, one twice the other, and
   * else at the first that does not fit all those before it.
   */
  lemma ScanExact(ps: seq<Pulse>)
    requires KnownPulses(ps)
    ensures var r := Scan(ps, 0, 0, 0);
      && TwoClocks(ps, r.n)
      && (r.bad <==> r.n < |ps| && ps[r.n].Pulse?)
      && (r.bad ==> !TwoClocks(ps, r.n + 1))
  {
    var r := Scan(ps, 0, 0, 0);
    ScanSoFar(ps, 0, 0, 0);
    assert FitsClock(ps, r.n, if r.long == 0 || r.short < r.long then r.short else r.long);
  }

  lemma ClocksOfByte(byte: nat)
    requires byte < 256
    ensures 2 * byte % 256 == 2 * (if byte >= 128 then byte - 128 else byte)
  {
  }

  /** Every known length is recognised within six clocks, nothing is taken for a length more than eight clocks away. */
  lemma QuantizeTolerance(byte: nat, clocks: nat, high: bool)
    requires byte < 256
    ensures var sent: int := 2 * (if byte >= 128 then byte - 128 else byte);
      && (Quantize(byte) == Pulse(clocks, high) ==>
            high == (byte >= 128) && KnownLength(clocks) && -8 <= sent - clocks <= 8)
      && (high == (byte >= 128) && KnownLength(clocks) && -6 <= sent - clocks <= 6 ==>
            Quantize(byte) == Pulse(clocks, high))
  {
    ClocksOfByte(byte);
  }

  /** Whatever was going on, a gap ends it: nothing is left unread, no lengths are known, the decoders start over. */
  lemma {:induction false} GapForgets(s: Rx)
    requires s.Valid() && s.pulses != [] && s.pulses[|s.pulses| - 1].Space?
    ensures var t := Analyze(s).0; t.pulses == [] && t == Reset(t)
    decreases |s.pulses|
  {
    hide Batch;
    var ps := s.pulses;
    if ps[0].Space? {
      AfterDrop(s);
    } else {
      var rate := Scan(ps, s.short, s.long, 0);
      if rate.bad {
        AfterDrop(s);
      } else if rate.short == 0 || rate.long == 0 {
        GapForgets(s.(short := rate.short, long := rate.long, pulses := ps[rate.n..]));
      } else {
        GapForgets(Batch(Ordered(s, rate).(pulses := ps[rate.n..]), ps[..rate.n]).0);
      }
    }
  }

  /** A first pulse that fits neither of the clock lengths in use is dropped, and everything starts over behind it. */
  lemma MisfitDropped(s: Rx)
    requires s.Valid() && s.pulses != [] && s.pulses[0].Pulse? && s.short != 0 && s.long != 0
    requires s.pulses[0].clocks != s.short && s.pulses[0].clocks != s.long
    ensures Analyze(s) == Analyze(Reset(s.(pulses := s.pulses[1..])))
  {
    hide Batch;
    assert Scan(s.pulses, s.short, s.long, 0) == Rate(s.short, s.long, 0, true);
  }

  lemma AfterDrop(s: Rx)
    requires s.Valid() && s.pulses != [] && s.pulses[|s.pulses| - 1].Space?
    ensures var t := Analyze(Reset(s.(pulses := s.pulses[1..]))).0; t.pulses == [] && t == Reset(t)
    decreases |s.pulses|, 0
  {
    hide Batch;
    var u := Reset(s.(pulses := s.pulses[1..]));
    if |s.pulses| > 1 {
      GapForgets(u);
    } else {
      assert u.pulses == [];
    }
  }
}
