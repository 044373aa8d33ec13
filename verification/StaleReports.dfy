/** What an empty queue lets through: runs of a reader just opened after which old or unwritten slots are reported. */
module StaleReports {
  import opened Modulo
  import opened Rings
  import opened LineCode
  import opened LineCodeSync
  import opened Receiver
  import opened EndToEnd
  import opened PulseRuns
  import opened BiphaseRuns
  import opened LevelRuns
  import Em4100
  import Em4100Sync
  import Em4100Encode

  // ----- rings that have not been around

  predicate Unwritten(r: Ring<bool>) { r.Valid() && forall i :: 0 <= i < SIZE ==> !r.buf[i] }

  /** Nothing has been read since the reset, and the slots beyond the write pointer were never written. */
  predicate Clean(r: Ring<bool>) { r.Valid() && r.rd == 0 && forall i :: r.wr <= i < SIZE ==> !r.buf[i] }

  lemma CleanPush(r: Ring<bool>, x: bool)
    requires Clean(r) && r.wr < SIZE - 1
    ensures Clean(r.Push(x)) && r.Push(x).wr == r.wr + 1
  {
  }

  // ----- EM4100: a frame, and half of the next bit

  /** A zero, the frame, and a zero: the first long pulse is the one into the frame. */
  function Alone(f: seq<bool>): (v: seq<bool>)
    ensures |v| == |f| + 2
  {
    [false] + f + [false]
  }

  /** In step, everything since the zero in front queued. */
  predicate Filled(l: Line, v: seq<bool>, n: nat)
    requires |v| > 0
  {
    && l.locked && l.change == (n % 2 == 0) && 2 < n
    && Since(l.ring, v, (n + 1) / 2, 1) && Clean(l.ring) && l.ring.wr == (n + 1) / 2 - 1
  }

  lemma FilledStep(l: Line, v: seq<bool>, n: nat, short: nat, long: nat)
    requires |v| > 0 && short != long && Filled(l, v, n) && n < 1000
    ensures Filled(ManStep(l, long, ManPulse(v, n, short, long)), v, Next(v, n))
  {
    hide Since, Clean, Bit;
    if n % 2 == 0 || Long(v, n) {
      assert Level(v, n) == Bit(v, (n + 1) / 2);
      assert l.Valid() by { FilledValid(l, v, n); }
      SincePush(l.ring, v, (n + 1) / 2, 1);
      CleanPush(l.ring, Bit(v, (n + 1) / 2));
    }
  }

  lemma FilledValid(l: Line, v: seq<bool>, n: nat)
    requires |v| > 0 && Filled(l, v, n)
    ensures l.Valid() && (n < 1000 ==> l.ring.Len() == (n + 1) / 2 - 1)
  {
  }

  lemma FilledMore(l: Line, v: seq<bool>, n: nat, k: nat, short: nat, long: nat)
    requires |v| > 0 && short != long && l.Valid() && k > 0 && After(v, n, k) < 1000
    requires Filled(ManAll(l, long, ManPulses(v, n, k - 1, short, long)), v, After(v, n, k - 1))
    ensures Filled(ManAll(l, long, ManPulses(v, n, k, short, long)), v, After(v, n, k))
  {
    OneOn(v, n, k - 1);
    hide Filled, ManStep, ManAll, ManPulses, Next, Level, Long, After, Pulses, ManPulse;
    ManUnroll(l, v, n, k, short, long);
    FilledStep(ManAll(l, long, ManPulses(v, n, k - 1, short, long)), v, After(v, n, k - 1), short, long);
  }

  lemma {:induction false} FilledFold(l: Line, v: seq<bool>, n: nat, k: nat, short: nat, long: nat)
    requires |v| > 0 && short != long && Filled(l, v, n) && After(v, n, k) < 1000
    ensures l.Valid() && Filled(ManAll(l, long, ManPulses(v, n, k, short, long)), v, After(v, n, k))
  {
    FilledValid(l, v, n);
    hide Filled, ManAll, ManPulses, Long, After, Pulses;
    if k > 0 {
      OneOn(v, n, k - 1);
      FilledFold(l, v, n, k - 1, short, long);
      FilledMore(l, v, n, k, short, long);
    } else {
      NoPulses(l, v, n, short, long);
    }
  }

  /** The pulse into the frame, from a reset. */
  lemma FilledFirst(l: Line, v: seq<bool>, short: nat, long: nat)
    requires |v| > 0 && ManFresh(l) && Clean(l.ring) && l.ring.wr == 0 && Long(v, 1)
    ensures Filled(ManStep(l, long, ManPulse(v, 1, short, long)), v, 3)
  {
    hide Since, Clean, Bit;
    SinceEmpty(l.ring, v, 1);
    SincePush(l.ring, v, 1, 1);
    CleanPush(l.ring, Bit(v, 1));
  }

  lemma FirstOfMany(v: seq<bool>, k: nat, short: nat, long: nat)
    requires |v| > 0 && k > 0 && Long(v, 1)
    ensures ManPulses(v, 1, k, short, long) == [ManPulse(v, 1, short, long)] + ManPulses(v, 3, k - 1, short, long)
    ensures After(v, 1, k) == After(v, 3, k - 1)
  {
    assert After(v, 1, 0) == 1 && After(v, 1, 1) == 3;
    assert ManPulses(v, 1, 0, short, long) == [];
    assert ManPulses(v, 1, 1, short, long) == [ManPulse(v, 1, short, long)];
    hide After, ManPulses, Long;
    PulsesSplit(v, 1, 1, k - 1, short, long);
    AfterSplit(v, 1, 1, k - 1);
  }

  lemma ManOne(l: Line, long: nat, p: Pulse)
    requires l.Valid() && p.Pulse?
    ensures ManAll(l, long, [p]) == ManStep(l, long, p)
  {
    assert [p][..0] == [];
  }

  lemma FilledOpening(l: Line, v: seq<bool>, k: nat, short: nat, long: nat)
    requires |v| > 0 && short != long && ManFresh(l) && Clean(l.ring) && l.ring.wr == 0 && Long(v, 1)
    requires k > 0 && After(v, 1, k) < 1000
    ensures l.Valid() && Filled(ManAll(l, long, ManPulses(v, 1, k, short, long)), v, After(v, 1, k))
  {
    hide Filled, ManStep, ManAll, ManPulses, Long, After, Clean;
    FirstOfMany(v, k, short, long);
    FilledFirst(l, v, short, long);
    ManOne(l, long, ManPulse(v, 1, short, long));
    ManSplit(l, long, [ManPulse(v, 1, short, long)], ManPulses(v, 3, k - 1, short, long));
    FilledFold(ManStep(l, long, ManPulse(v, 1, short, long)), v, 3, k - 1, short, long);
  }

  /** With fewer than 64 bits nothing is found. */
  lemma TooFew(l: Line, v: seq<bool>, n: nat)
    requires |v| > 0 && Filled(l, v, n) && (n + 1) / 2 <= 64
    ensures l.Valid() && FindEm(l) == (l, [])
  {
    FilledValid(l, v, n);
    hide Since, Clean;
  }

  /** The frame alone is queued. */
  lemma JustTheFrame(l: Line, f: seq<bool>)
    requires Em4100.Frame(f) && |f| == 64 && Filled(l, Alone(f), 129)
    ensures l.Valid() && FindEm(l) == (l.(ring := l.ring.Skip(64)), [TagOf(f)])
  {
    var v, a := Alone(f), l.ring.All();
    assert a[..64] == f by {
      assert l.ring.Queue() == a[..64];
      forall i | 0 <= i < 64 ensures a[..64][i] == f[i] { ModuloUnique(0, 1 + i, 1 + i, 66); }
    }
    hide Em4100.Body, Since, Clean;
    assert a[0..64] == f;
    assert Em4100.FrameAt(a, 0) by { forall i | 0 <= i < 9 ensures a[i] { assert a[..64][i] == f[i]; } }
    FindEmResult(l, f);
  }

  /** A first pulse of a zero on the queue so emptied. */
  lemma ZerosBeyond(l: Line, v: seq<bool>, p: Pulse, long: nat)
    requires |v| > 0 && Filled(l, v, 129) && p.Pulse? && p.clocks != long
    ensures var m := l.(ring := l.ring.Skip(64));
      m.Valid() && FindEm(ManStep(m, long, p)).1 == [Tag(EM4100, "0000000000")]
  {
    var r := l.ring.Skip(64);
    assert r.rd == 64 == r.wr;
    var w := r.All()[..64];
    hide Em4100.Body, Em4100Encode.TagText, Since;
    Em4100Sync.ZerosPass(w);
    Em4100Sync.EmptyQueue(r);
    ZeroText(Em4100.Payload(w));
    assert r.All()[0..64] == w;
  }

  lemma ZeroText(d: seq<bool>)
    requires |d| == 40 && forall i :: 0 <= i < 40 ==> !d[i]
    ensures Em4100Encode.TagText(d) == "0000000000"
  {
    var text := Em4100Encode.TagText(d);
    forall n | 0 <= n < 10 ensures text[n] == '0' {
      assert Em4100Encode.Nibble(d, 4 * n) == 0;
    }
  }

  // ----- the run

  lemma {:induction false} WhileFilling(l: Line, v: seq<bool>, pieces: seq<seq<Pulse>>, waited: nat, short: nat,
      long: nat)
    requires |v| > 0 && short != long && ManFresh(l) && Clean(l.ring) && l.ring.wr == 0 && Long(v, 1)
    requires Pieces(pieces, waited)
    requires var k := |Joined(pieces)|; Joined(pieces) == ManPulses(v, 1, k, short, long) && After(v, 1, k) < 129
    ensures l.Valid()
    ensures var (t, found) := ManRun(l, long, pieces); found == [] && Filled(t, v, After(v, 1, |Joined(pieces)|))
    decreases |pieces|
  {
    FreshIsValid(l);
    PiecesBut(pieces, waited);
    hide ManAll, ManPulses, ManFresh, Long, After, Pulses, FindEm, ManRun, Joined, Pieces, AllPulses, FirstPiece,
      Filled, Clean;
    var k, ps := |pieces| - 1, Joined(pieces);
    if k == 0 {
      OneManPiece(l, long, pieces);
      FilledOpening(l, v, |ps|, short, long);
      TooFew(ManAll(l, long, ps), v, After(v, 1, |ps|));
    } else {
      ManUnrolled(l, long, pieces);
      var a, q := Joined(pieces[..k]), pieces[k];
      ManPiecesSplit(v, 1, |ps|, short, long, a, q);
      AfterMonotone(v, 1, |a|, |ps|);
      WhileFilling(l, v, pieces[..k], waited, short, long);
      FilledFold(ManRun(l, long, pieces[..k]).0, v, After(v, 1, |a|), |q|, short, long);
      TooFew(ManAll(ManRun(l, long, pieces[..k]).0, long, q), v, After(v, 1, |ps|));
    }
  }

  lemma NotYetThere(v: seq<bool>, a: nat, k: nat)
    requires |v| > 0 && a < k && After(v, 1, k) == 129
    ensures After(v, 1, a) < 129
  {
    hide Long;
    OneOn(v, 1, a);
    AfterMonotone(v, 1, a + 1, k);
  }

  /** The frame has been reported, and the queue emptied. */
  predicate ReadIn(r: (Line, seq<Report>), m: Line, f: seq<bool>) {
    |f| == 64 && Filled(m, Alone(f), 129) && m.Valid() && r == (m.(ring := m.ring.Skip(64)), [TagOf(f)])
  }

  lemma ReadNow(m: Line, f: seq<bool>)
    requires Em4100.Frame(f) && |f| == 64 && Filled(m, Alone(f), 129)
    ensures m.Valid() && ReadIn(FindEm(m), m, f)
  {
    FilledValid(m, Alone(f), 129);
    hide Em4100.Frame, Alone, Filled, FindEm, TagOf;
    JustTheFrame(m, f);
  }

  lemma ReadInLast(l: Line, f: seq<bool>, pieces: seq<seq<Pulse>>, short: nat, long: nat, n: nat, q: seq<Pulse>)
    returns (m: Line)
    requires Em4100.Frame(f) && |f| == 64 && short != long && l.Valid() && AllPulses(pieces) && pieces != []
    requires AllPulses(pieces[..|pieces| - 1]) && q == pieces[|pieces| - 1]
    requires var (t, found) := ManRun(l, long, pieces[..|pieces| - 1]); found == [] && Filled(t, Alone(f), n)
    requires q == ManPulses(Alone(f), n, |q|, short, long) && After(Alone(f), n, |q|) == 129
    ensures ReadIn(ManRun(l, long, pieces), m, f)
  {
    hide ManAll, ManPulses, Long, After, Pulses, FindEm, ManRun, Joined, AllPulses, Filled, Em4100.Frame, TagOf, Alone,
      ReadIn;
    var t := ManRun(l, long, pieces[..|pieces| - 1]).0;
    ManUnrolled(l, long, pieces);
    FilledFold(t, Alone(f), n, |q|, short, long);
    m := ManAll(t, long, q);
    ReadNow(m, f);
    var r := FindEm(m);
    assert [] + r.1 == r.1;
    assert ManRun(l, long, pieces) == (r.0, r.1);
  }

  /** A packet ends with the frame. */
  lemma FrameRead(l: Line, f: seq<bool>, pieces: seq<seq<Pulse>>, waited: nat, short: nat, long: nat)
    returns (m: Line)
    requires Em4100.Frame(f) && |f| == 64 && short != long && ManFresh(l) && Clean(l.ring) && l.ring.wr == 0
    requires Pieces(pieces, waited) && Long(Alone(f), 1)
    requires var k := |Joined(pieces)|;
      Joined(pieces) == ManPulses(Alone(f), 1, k, short, long) && After(Alone(f), 1, k) == 129
    ensures l.Valid() && ReadIn(ManRun(l, long, pieces), m, f)
  {
    FreshIsValid(l);
    PiecesBut(pieces, waited);
    hide ManAll, ManPulses, ManFresh, Long, After, Pulses, FindEm, ManRun, Joined, Pieces, AllPulses, FirstPiece,
      Filled, Clean, Em4100.Frame, Alone, ReadIn;
    var v, k, ps := Alone(f), |pieces| - 1, Joined(pieces);
    if k == 0 {
      OneManPiece(l, long, pieces);
      FilledOpening(l, v, |ps|, short, long);
      m := ManAll(l, long, ps);
      ReadNow(m, f);
    } else {
      ManUnrolled(l, long, pieces);
      var a, q := Joined(pieces[..k]), pieces[k];
      ManPiecesSplit(v, 1, |ps|, short, long, a, q);
      NotYetThere(v, |a|, |ps|);
      WhileFilling(l, v, pieces[..k], waited, short, long);
      m := ReadInLast(l, f, pieces, short, long, After(v, 1, |a|), q);
    }
  }

  /** Then half of a zero, and the zeros beyond are taken for a tag. */
  lemma ZerosRead(l: Line, f: seq<bool>, pieces: seq<seq<Pulse>>, waited: nat, short: nat, long: nat, p: Pulse)
    requires Em4100.Frame(f) && |f| == 64 && short != long && ManFresh(l) && Clean(l.ring) && l.ring.wr == 0
    requires Pieces(pieces, waited) && Long(Alone(f), 1) && p.Pulse? && p.clocks == short
    requires var k := |Joined(pieces)|;
      Joined(pieces) == ManPulses(Alone(f), 1, k, short, long) && After(Alone(f), 1, k) == 129
    ensures l.Valid() && AllPulses(pieces + [[p]])
    ensures ManRun(l, long, pieces + [[p]]).1 == [TagOf(f), Tag(EM4100, "0000000000")]
  {
    FreshIsValid(l);
    hide Em4100.Frame, ManFresh, Clean, Pieces, Long, ManPulses, After, Joined, Alone, ManRun, AllPulses, ReadIn;
    PiecesBut(pieces, waited);
    var m := FrameRead(l, f, pieces, waited, short, long);
    LastHalf(l, f, pieces, short, long, p, m);
  }

  lemma LastHalf(l: Line, f: seq<bool>, pieces: seq<seq<Pulse>>, short: nat, long: nat, p: Pulse, m: Line)
    requires short != long && l.Valid() && AllPulses(pieces) && p.Pulse? && p.clocks == short
    requires ReadIn(ManRun(l, long, pieces), m, f)
    ensures AllPulses(pieces + [[p]])
    ensures ManRun(l, long, pieces + [[p]]).1 == [TagOf(f), Tag(EM4100, "0000000000")]
  {
    assert AllPulses(pieces + [[p]]) && (pieces + [[p]])[..|pieces|] == pieces;
    hide Alone, Filled, ManRun, TagOf, FindEm, ManAll, AllPulses;
    HalfThenZeros(m, f, p, long);
    ManUnrolled(l, long, pieces + [[p]]);
  }

  lemma HalfThenZeros(m: Line, f: seq<bool>, p: Pulse, long: nat)
    requires |f| == 64 && Filled(m, Alone(f), 129) && p.Pulse? && p.clocks != long
    ensures var t := m.(ring := m.ring.Skip(64));
      m.Valid() && t.Valid() && FindEm(ManAll(t, long, [p])).1 == [Tag(EM4100, "0000000000")]
  {
    FilledValid(m, Alone(f), 129);
    hide Alone, Filled, FindEm, ManStep, ManAll;
    ZerosBeyond(m, Alone(f), p, long);
    ManOne(m.(ring := m.ring.Skip(64)), long, p);
  }

  lemma AloneFacts(f: seq<bool>, k: nat, short: nat, long: nat)
    requires Em4100.Frame(f) && |f| == 64 && short != long
    ensures Long(Alone(f), 1) && !Long(Alone(f), 129)
    ensures MixedBy(ManPulses(Alone(f), 1, k, short, long), 1)
  {
    var v := Alone(f);
    assert f[0] && f[1] && !f[63] by { assert Em4100.Header(f, 0) && Em4100.Body(f); }
    assert v[0] == v[65] == v[64] == false && v[1] && v[2];
    assert Long(v, 1) && !Long(v, 3);
    assert After(v, 1, 0) == 1 && After(v, 1, 1) == 3;
    hide After, Long, ManPulses, Em4100.Frame, Alone;
    if k > 1 {
      PulseAt(v, 1, k, short, long, 0);
      PulseAt(v, 1, k, short, long, 1);
      assert ManPulses(v, 1, k, short, long)[..2][1] == ManPulses(v, 1, k, short, long)[1];
    }
  }

  /**
   * A reader just opened receives the frame of a tag, in packets the last of which ends with it, and then the first
   * half of a zero in a packet of its own: the tag is reported, and then a tag of zeros that was never there.
   */
  lemma TagOfZeros(s: Rx, f: seq<bool>, short: nat, long: nat, packets: seq<seq<nat>>, byte: nat)
    requires Em4100.Frame(f) && |f| == 64 && Clocks(short, long) && AfterReset(s) && Unwritten(s.man.ring)
    requires Packets(packets) && byte < 256
    requires var k := |Received(packets)|;
      Jittered(Received(packets), ManPulses(Alone(f), 1, k, short, long)) && After(Alone(f), 1, k) == 129
    requires Quantize(byte) == Pulse(short, Level(Alone(f), 129))
    ensures Packets(packets + [[byte]])
    ensures Of(true, Run(s, packets + [[byte]]).1) == [TagOf(f), Tag(EM4100, "0000000000")]
  {
    var v, k := Alone(f), |Received(packets)|;
    var ps := ManPulses(v, 1, k, short, long);
    var p := Quantize(byte);
    assert Clean(s.man.ring) && s.man.ring.wr == 0;
    hide Em4100.Frame, Unwritten, Run, Of, ManPulses, After, Long, Level, Quantize, Alone, TagOf, MixedBy, Reached,
      Packets, Clean, TwoLengths, Pieces, AllPulses, ManRun, BipRun, Joined, ManFresh, BipFresh, Jittered, Received;
    AloneFacts(f, k, short, long);
    ManTwoLengths(v, 1, k, short, long);
    var pieces, waited := RunInPieces(s, packets, ps, short, long, 1);
    LastPulse(s, packets, ps, short, long, 1, pieces, waited, byte);
    var (t, found) := Run(s, packets);
    Sides(s, t, found, ps, short, long, pieces, waited);
    var (u, all) := Run(s, packets + [[byte]]);
    Sides(s, u, all, ps + [p], short, long, pieces + [[p]], waited);
    ResetFresh(s);
    ZerosRead(s.man, f, pieces, waited, short, long, p);
  }
}
