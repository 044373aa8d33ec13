/** The Manchester side of a run over any clean stream, and what it makes of a bi-phase one: the level of each cell. */
module LevelRuns {
  import opened Modulo
  import opened Rings
  import opened LineCode
  import opened LineCodeSync
  import opened Receiver
  import opened EndToEnd
  import opened PulseRuns
  import opened BiphaseRuns
  import Em4100

  // ----- tags among the bits of a stream

  /** Some 64 bits of the repetition of v pass for an EM4100 frame. */
  ghost predicate HoldsTag(v: seq<bool>)
    requires |v| > 0
  {
    exists p :: 0 <= p < |v| && Em4100.Frame(Cyclic(v, p, 64))
  }

  lemma FrameWindow(v: seq<bool>, phase: nat, a: seq<bool>, n: nat, o: nat)
    requires |v| > 0 && n <= |a| && a[..n] == Cyclic(v, phase, n) && o + 64 <= n
    ensures Em4100.FrameAt(a, o) <==> Em4100.Frame(Cyclic(v, (phase + o) % |v|, 64))
  {
    hide Cyclic, Em4100.Body;
    var w := a[o..o + 64];
    SliceOfPrefix(a, n, o, o + 64);
    CyclicWindow(v, phase, n, o, 64);
    assert forall i :: 0 <= i < 64 ==> w[i] == a[o + i];
    assert Em4100.Header(a, o) <==> Em4100.Header(w, 0) by {
      assert forall i :: o <= i < o + 9 ==> a[i] == w[i - o];
    }
  }

  lemma SearchInStream(v: seq<bool>, phase: nat, a: seq<bool>, n: nat)
    requires |v| > 0 && n <= |a| && a[..n] == Cyclic(v, phase, n)
    ensures Em4100.Search(a, n, 0).Some? ==> HoldsTag(v)
    ensures HoldsTag(v) && n >= |v| + 63 ==> Em4100.Search(a, n, 0).Some?
  {
    hide Cyclic, Em4100.Frame, Em4100.FrameAt;
    var r := Em4100.Search(a, n, 0);
    if r.Some? { FrameWindow(v, phase, a, n, r.value); }
    if HoldsTag(v) && n >= |v| + 63 {
      var p :| 0 <= p < |v| && Em4100.Frame(Cyclic(v, p, 64));
      var z := NextStart(v, phase, p);
      FrameWindow(v, phase, a, n, z - phase);
    }
  }

  lemma QueueSearched(t: Line, v: seq<bool>, n: nat, b: nat)
    requires |v| > 0 && t.Valid() && ManSynced(t, v, n, b)
    ensures Em4100.Search(t.ring.All(), t.ring.Len(), 0).Some? ==> HoldsTag(v)
    ensures HoldsTag(v) && t.ring.Len() >= |v| + 63 ==> Em4100.Search(t.ring.All(), t.ring.Len(), 0).Some?
  {
    hide Cyclic, Em4100.Search, HoldsTag;
    SearchInStream(v, (n + 1) / 2 - t.ring.Len(), t.ring.All(), t.ring.Len());
  }

  // ----- the Manchester decoder, piece by piece

  lemma ManUnrolled(l: Line, long: nat, pieces: seq<seq<Pulse>>)
    requires l.Valid() && AllPulses(pieces) && pieces != []
    ensures var k := |pieces| - 1; var (m, before) := ManRun(l, long, pieces[..k]);
      var (t, found) := FindEm(ManAll(m, long, pieces[k]));
      ManRun(l, long, pieces) == (t, before + found) && Joined(pieces) == Joined(pieces[..k]) + pieces[k]
  {
    hide FindEm, ManAll;
  }

  lemma OneManPiece(l: Line, long: nat, pieces: seq<seq<Pulse>>)
    requires l.Valid() && AllPulses(pieces) && |pieces| == 1
    ensures ManRun(l, long, pieces) == FindEm(ManAll(l, long, pieces[0])) && Joined(pieces) == pieces[0]
  {
    hide FindEm, ManAll;
    assert pieces[..0] == [];
    var (t, found) := FindEm(ManAll(l, long, pieces[0]));
    assert [] + found == found && [] + pieces[0] == pieces[0];
  }

  lemma ManPiecesSplit(v: seq<bool>, h: nat, k: nat, short: nat, long: nat, a: seq<Pulse>, b: seq<Pulse>)
    requires |v| > 0 && ManPulses(v, h, k, short, long) == a + b
    ensures a == ManPulses(v, h, |a|, short, long) && b == ManPulses(v, After(v, h, |a|), |b|, short, long)
    ensures After(v, h, k) == After(v, After(v, h, |a|), |b|)
  {
    hide After, ManPulses;
    PulsesSplit(v, h, |a|, |b|, short, long);
    AfterSplit(v, h, |a|, |b|);
    var x, y := ManPulses(v, h, |a|, short, long), ManPulses(v, After(v, h, |a|), |b|, short, long);
    assert (a + b)[..|a|] == a && (x + y)[..|a|] == x;
    assert (a + b)[|a|..] == b && (x + y)[|a|..] == y;
  }

  /** In step, the queue complete from bit b on or full, and no tag found in it. */
  predicate NoTagYet(t: Line, v: seq<bool>, n: nat, b: nat)
    requires |v| > 0
  {
    t.Valid() && ManSynced(t, v, n, b) && t.ring.Len() > 0 && Em4100.Search(t.ring.All(), t.ring.Len(), 0) == None
  }

  /** One look: without a report the state is as before, and there is none if the stream holds no tag. */
  ghost predicate Looked(v: seq<bool>, n: nat, b: nat, t: Line, found: seq<Report>)
    requires |v| > 0
  {
    (found == [] ==> NoTagYet(t, v, n, b)) && (!HoldsTag(v) ==> found == [])
  }

  lemma LookedAt(l: Line, v: seq<bool>, n: nat, b: nat)
    requires |v| > 0 && l.Valid() && ManSynced(l, v, n, b) && l.ring.Len() > 0
    ensures Looked(v, n, b, FindEm(l).0, FindEm(l).1)
  {
    hide Em4100.Search, ManSynced, HoldsTag;
    QueueSearched(l, v, n, b);
  }

  /** The first piece from a reset, a long pulse in it. */
  lemma FirstManPiece(l: Line, v: seq<bool>, h: nat, k: nat, short: nat, long: nat, j: nat)
    requires |v| > 0 && short != long && ManFresh(l) && j < k && Long(v, After(v, h, j))
    ensures l.Valid()
    ensures var r := ManAll(l, long, ManPulses(v, h, k, short, long));
      Looked(v, After(v, h, k), (After(v, h, j) + 3) / 2, FindEm(r).0, FindEm(r).1)
  {
    hide ManSynced, ManAll, ManPulses, ManFresh, ManOutOfStep, Long, After, Pulses, Looked, FindEm;
    FreshIsValid(l);
    var n, b := After(v, h, j + 1), (After(v, h, j) + 3) / 2;
    OneOn(v, h, j);
    SeesLongAt(v, h, j + 1, j);
    ManFold(l, v, h, j + 1, short, long, b);
    var ps := ManPulses(v, h, j + 1, short, long);
    var rest := ManPulses(v, n, k - j - 1, short, long);
    PulsesSplit(v, h, j + 1, k - j - 1, short, long);
    AfterSplit(v, h, j + 1, k - j - 1);
    ManSplit(l, long, ps, rest);
    ManFoldSynced(ManAll(l, long, ps), v, n, k - j - 1, short, long, b);
    LookedAt(ManAll(l, long, ps + rest), v, After(v, h, k), b);
  }

  lemma LaterManPiece(m: Line, v: seq<bool>, n: nat, k: nat, short: nat, long: nat, b: nat)
    requires |v| > 0 && short != long && m.Valid() && NoTagYet(m, v, n, b)
    ensures var r := ManAll(m, long, ManPulses(v, n, k, short, long));
      Looked(v, After(v, n, k), b, FindEm(r).0, FindEm(r).1)
  {
    hide ManSynced, ManAll, ManPulses, FindEm, After, Long, Em4100.Search, Looked;
    ManFoldSynced(m, v, n, k, short, long, b);
    LookedAt(ManAll(m, long, ManPulses(v, n, k, short, long)), v, After(v, n, k), b);
  }

  /** After so many pieces. */
  ghost predicate ManReached(l: Line, v: seq<bool>, h: nat, pieces: seq<seq<Pulse>>, long: nat, b: nat)
    requires |v| > 0 && l.Valid() && AllPulses(pieces)
  {
    var (t, found) := ManRun(l, long, pieces);
    Looked(v, After(v, h, |Joined(pieces)|), b, t, found)
  }

  /** The pieces together are the Manchester stream of v from half-bit h on. */
  predicate Fed(pieces: seq<seq<Pulse>>, v: seq<bool>, h: nat, short: nat, long: nat)
    requires |v| > 0
  {
    Joined(pieces) == ManPulses(v, h, |Joined(pieces)|, short, long)
  }

  lemma ManOpens(l: Line, v: seq<bool>, h: nat, pieces: seq<seq<Pulse>>, short: nat, long: nat, j: nat)
    requires |v| > 0 && short != long && ManFresh(l) && AllPulses(pieces) && |pieces| == 1
    requires Fed(pieces, v, h, short, long)
    requires j < |pieces[0]| && Long(v, After(v, h, j))
    ensures l.Valid() && ManReached(l, v, h, pieces, long, (After(v, h, j) + 3) / 2)
  {
    hide ManAll, ManPulses, ManFresh, Long, After, Pulses, FindEm, ManRun, Joined, AllPulses, Looked;
    FreshIsValid(l);
    OneManPiece(l, long, pieces);
    FirstManPiece(l, v, h, |pieces[0]|, short, long, j);
  }

  lemma ManContinues(l: Line, v: seq<bool>, h: nat, pieces: seq<seq<Pulse>>, short: nat, long: nat, b: nat)
    requires |v| > 0 && short != long && l.Valid() && AllPulses(pieces) && pieces != []
    requires Fed(pieces, v, h, short, long)
    requires AllPulses(pieces[..|pieces| - 1]) && ManReached(l, v, h, pieces[..|pieces| - 1], long, b)
    ensures ManReached(l, v, h, pieces, long, b)
  {
    hide ManAll, ManPulses, Long, After, Pulses, FindEm, ManRun, Joined, AllPulses, NoTagYet, HoldsTag;
    var k, ps := |pieces| - 1, Joined(pieces);
    ManUnrolled(l, long, pieces);
    var a, q := Joined(pieces[..k]), pieces[k];
    ManPiecesSplit(v, h, |ps|, short, long, a, q);
    if ManRun(l, long, pieces[..k]).1 == [] {
      LaterManPiece(ManRun(l, long, pieces[..k]).0, v, After(v, h, |a|), |q|, short, long, b);
    }
  }

  lemma AllButLast(v: seq<bool>, h: nat, pieces: seq<seq<Pulse>>, short: nat, long: nat)
    requires |v| > 0 && pieces != []
    requires Fed(pieces, v, h, short, long)
    ensures Fed(pieces[..|pieces| - 1], v, h, short, long)
  {
    hide ManPulses, Long, After, Pulses;
    var k := |pieces| - 1;
    assert Joined(pieces) == Joined(pieces[..k]) + pieces[k];
    hide Joined;
    ManPiecesSplit(v, h, |Joined(pieces)|, short, long, Joined(pieces[..k]), pieces[k]);
  }

  /** Until a tag is found, the queue holds the bits of the stream; and none is found where no 64 bits pass for one. */
  lemma {:induction false} UntilTag(l: Line, v: seq<bool>, h: nat, pieces: seq<seq<Pulse>>, waited: nat, short: nat,
      long: nat, j: nat, b: nat)
    requires |v| > 0 && short != long && ManFresh(l) && Pieces(pieces, waited) && Fed(pieces, v, h, short, long)
    requires j < |pieces[0]| && Long(v, After(v, h, j)) && b == (After(v, h, j) + 3) / 2
    ensures l.Valid() && ManReached(l, v, h, pieces, long, b)
    decreases |pieces|
  {
    FreshIsValid(l);
    PiecesBut(pieces, waited);
    hide Fed, ManFresh, Long, After, Pieces, AllPulses, FirstPiece, ManReached;
    var k := |pieces| - 1;
    if k == 0 {
      ManOpens(l, v, h, pieces, short, long, j);
    } else {
      AllButLast(v, h, pieces, short, long);
      UntilTag(l, v, h, pieces[..k], waited, short, long, j, b);
      ManContinues(l, v, h, pieces, short, long, b);
    }
  }

  // ----- the levels of a bi-phase stream

  /** The level of the second half of cell i: it changes in every cell that is a one, from v before the first. */
  function LevelAfter(g: seq<bool>, v: bool, i: nat): bool
    requires |g| > 0
  {
    (if i == 0 then v else LevelAfter(g, v, i - 1)) != Bit(g, i)
  }

  /** These levels for two repetitions of g, after which they are back where they were. */
  function Levels(g: seq<bool>, v: bool): (r: seq<bool>)
    requires |g| > 0
    ensures |r| == 2 * |g|
  {
    seq(2 * |g|, i requires 0 <= i < 2 * |g| => LevelAfter(g, v, i))
  }

  lemma {:induction false} LevelShift(g: seq<bool>, v: bool, i: nat)
    requires |g| > 0
    ensures (LevelAfter(g, v, i + |g|) != LevelAfter(g, v, i)) == (LevelAfter(g, v, |g| - 1) != v)
  {
    hide Bit;
    BitLater(g, i);
    if i > 0 {
      LevelShift(g, v, i - 1);
      assert LevelAfter(g, v, i + |g|) == (LevelAfter(g, v, i - 1 + |g|) != Bit(g, i + |g|));
    }
  }

  lemma LevelPeriod(g: seq<bool>, v: bool, i: nat)
    requires |g| > 0
    ensures LevelAfter(g, v, i + 2 * |g|) == LevelAfter(g, v, i)
  {
    hide LevelAfter;
    LevelShift(g, v, i);
    LevelShift(g, v, i + |g|);
  }

  lemma {:induction false} LevelsAt(g: seq<bool>, v: bool, i: nat)
    requires |g| > 0
    ensures Bit(Levels(g, v), i) == LevelAfter(g, v, i)
    decreases i
  {
    hide LevelAfter;
    if i >= 2 * |g| {
      LevelsAt(g, v, i - 2 * |g|);
      LevelPeriod(g, v, i - 2 * |g|);
      BitLater(Levels(g, v), i - 2 * |g|);
    } else {
      ModuloUnique(0, i, i, 2 * |g|);
    }
  }

  /** The changes of the levels are the bits. */
  lemma LevelChanges(g: seq<bool>, v: bool, i: nat)
    requires |g| > 0 && i > 0
    ensures (Bit(Levels(g, v), i) != Bit(Levels(g, v), i - 1)) == Bit(g, i)
  {
    hide Bit, Levels;
    LevelsAt(g, v, i);
    LevelsAt(g, v, i - 1);
  }

  lemma {:induction false} OtherLevel(g: seq<bool>, i: nat)
    requires |g| > 0
    ensures LevelAfter(g, true, i) != LevelAfter(g, false, i)
  {
    hide Bit;
    if i > 0 { OtherLevel(g, i - 1); }
  }

  /** Neighbouring pulses are at different levels. */
  predicate Alternates(ps: seq<Pulse>) {
    Pulses(ps) && forall i :: 0 < i < |ps| ==> ps[i].high != ps[i - 1].high
  }

  lemma LongIsLong(g: seq<bool>, v: bool, h: nat)
    requires |g| > 0
    ensures Long(Levels(g, v), h) == BipLong(g, h + 1)
  {
    hide Bit, Levels;
    if h % 2 == 1 { LevelChanges(g, v, (h + 1) / 2); }
  }

  lemma LevelsAlternate(v: seq<bool>, h: nat)
    requires |v| > 0
    ensures Level(v, Next(v, h)) != Level(v, h)
  {
    hide Bit;
  }

  /** A bi-phase stream whose levels alternate is the Manchester stream of its cell levels. */
  lemma {:induction false} BipIsMan(ps: seq<Pulse>, g: seq<bool>, v: bool, h: nat, short: nat, long: nat)
    requires |g| > 0 && BipCoded(ps, g, h + 1, short, long) && Alternates(ps)
    requires ps != [] ==> ps[0].high == Level(Levels(g, v), h)
    ensures ps == ManPulses(Levels(g, v), h, |ps|, short, long)
    ensures BipAfter(g, h + 1, |ps|) == After(Levels(g, v), h, |ps|) + 1
    decreases |ps|
  {
    hide BipLong, Long, Levels, Level;
    if ps != [] {
      var w, k := Levels(g, v), |ps| - 1;
      CodedStart(ps, g, h + 1, short, long, k);
      BipIsMan(ps[..k], g, v, h, short, long);
      LongIsLong(g, v, After(w, h, k));
      assert ps[k].clocks == if BipLong(g, BipAfter(g, h + 1, k)) then long else short;
      if k > 0 {
        LevelsAlternate(w, After(w, h, k - 1));
        assert ps[..k][k - 1] == ps[k - 1];
        PulseAt(w, h, k, short, long, k - 1);
      }
      assert ps == ps[..k] + [ps[k]];
    }
  }

  /** The same stream, entered later by whole repetitions. */
  lemma {:induction false} LaterEntry(g: seq<bool>, e: nat, k: nat)
    requires |g| > 0
    ensures BipAfter(g, e + 2 * |g|, k) == BipAfter(g, e, k) + 2 * |g|
    ensures BipLong(g, BipAfter(g, e, k) + 2 * |g|) == BipLong(g, BipAfter(g, e, k))
  {
    hide Bit;
    if k > 0 { LaterEntry(g, e, k - 1); }
    BitLater(g, BipAfter(g, e, k) / 2);
  }

  lemma CodedLater(ps: seq<Pulse>, g: seq<bool>, e: nat, short: nat, long: nat)
    requires |g| > 0 && BipCoded(ps, g, e, short, long)
    ensures BipCoded(ps, g, e + 2 * |g|, short, long)
  {
    hide BipLong, BipAfter;
    forall i | 0 <= i < |ps|
      ensures ps[i].clocks == if BipLong(g, BipAfter(g, e + 2 * |g|, i)) then long else short
    {
      LaterEntry(g, e, i);
    }
  }

  /** The half-bit of the level sequence at which the stream is entered. */
  function Entry(g: seq<bool>, e: nat): nat
    requires |g| > 0
  {
    e + 2 * |g| - 1
  }

  /** The polarity of a stream: the level sequence that begins with its first pulse. */
  function Polarity(g: seq<bool>, e: nat, ps: seq<Pulse>): bool
    requires |g| > 0 && Pulses(ps)
  {
    ps != [] && ps[0].high == Level(Levels(g, true), Entry(g, e))
  }

  lemma PolarityFits(g: seq<bool>, e: nat, ps: seq<Pulse>)
    requires |g| > 0 && Pulses(ps) && ps != []
    ensures ps[0].high == Level(Levels(g, Polarity(g, e, ps)), Entry(g, e))
  {
    hide Bit, Levels, LevelAfter;
    var c := Entry(g, e) / 2;
    OtherLevel(g, c);
    LevelsAt(g, true, c);
    LevelsAt(g, false, c);
  }

  /** What the Manchester side of a run over a bi-phase stream is fed. */
  function LevelsOf(g: seq<bool>, e: nat, ps: seq<Pulse>): (v: seq<bool>)
    requires |g| > 0 && Pulses(ps)
    ensures |v| == 2 * |g|
  {
    Levels(g, Polarity(g, e, ps))
  }

  lemma FedAsManchester(ps: seq<Pulse>, g: seq<bool>, e: nat, short: nat, long: nat)
    requires |g| > 0 && BipCoded(ps, g, e, short, long) && Alternates(ps)
    ensures ps == ManPulses(LevelsOf(g, e, ps), Entry(g, e), |ps|, short, long)
  {
    hide Levels, Level, Polarity, BipCoded;
    CodedLater(ps, g, e, short, long);
    if ps != [] { PolarityFits(g, e, ps); }
    BipIsMan(ps, g, Polarity(g, e, ps), Entry(g, e), short, long);
  }

  lemma {:induction false} SameHalfBits(g: seq<bool>, v: bool, h: nat, k: nat)
    requires |g| > 0
    ensures BipAfter(g, h + 1, k) == After(Levels(g, v), h, k) + 1
    ensures BipLong(g, BipAfter(g, h + 1, k)) == Long(Levels(g, v), After(Levels(g, v), h, k))
  {
    hide Levels, BipLong, Long;
    if k > 0 { SameHalfBits(g, v, h, k - 1); }
    LongIsLong(g, v, After(Levels(g, v), h, k));
  }

  /** The first long pulse of a bi-phase stream, seen by the Manchester decoder. */
  lemma FirstLongSeen(g: seq<bool>, e: nat, ps: seq<Pulse>, j: nat, one: nat)
    requires one < |g| && g[one] && OpensAt(g, e, j) && Pulses(ps)
    ensures var v, h := LevelsOf(g, e, ps), Entry(g, e);
      Long(v, After(v, h, j)) && After(v, h, j) < h + 2 * |g|
  {
    assert BipLong(g, BipAfter(g, e, j)) && BipAfter(g, e, j) % 2 == 0;
    FirstCellEarly(g, e, j, one);
    hide Levels, BipLong, Long, BipAfter, After, Polarity, OpensAt;
    SameHalfBits(g, Polarity(g, e, ps), Entry(g, e), j);
    LaterEntry(g, e, j);
  }

  lemma ReachedBounded(t: Line, v: seq<bool>, n: nat, b: nat)
    requires 0 < |v| <= 900 && NoTagYet(t, v, n, b) && HoldsTag(v)
    ensures (n + 1) / 2 < b + |v| + 63
  {
    hide Cyclic, HoldsTag, Em4100.Search;
    QueueSearched(t, v, n, b);
  }

  /**
   * The Manchester side of a run over a repeated bi-phase frame: an EM4100 tag is reported, at the latest after six
   * frame lengths and 127 pulses, just when some 64 consecutive cell levels pass for its frame.
   */
  lemma TagAmongLevelsIff(s: Rx, g: seq<bool>, e: nat, ps: seq<Pulse>, short: nat, long: nat, packets: seq<seq<nat>>,
      one: nat, zero: nat)
    requires |g| <= 400 && one < |g| && zero < |g| && g[one] && !g[zero]
    requires Clocks(short, long) && AfterReset(s) && Packets(packets)
    requires Jittered(Received(packets), ps) && BipCoded(ps, g, e, short, long) && Alternates(ps)
    ensures var found := Of(true, Run(s, packets).1);
      && (!HoldsTag(LevelsOf(g, e, ps)) ==> found == [])
      && (HoldsTag(LevelsOf(g, e, ps)) && |Received(packets)| >= 6 * |g| + 127 ==> found != [])
  {
    hide Jittered, BipCoded, BipAfter, BipLong, OpensAt, MixedBy, Run, AllPulses, FirstCell, Pieces, Reached,
      BipRun, ManRun, Of, Packets, BipFresh, ManFresh, Joined, Received, Alternates, Levels, Polarity, After, Long,
      ManPulses, HoldsTag, Pulses;
    CodedPulses(ps, g, e, short, long);
    CodedMixed(ps, g, e, short, long, one, zero);
    var pieces, waited, j := RunOpens(s, g, e, ps, short, long, packets, 2 * |g| - 1);
    var (t, found) := Run(s, packets);
    Sides(s, t, found, ps, short, long, pieces, waited);
    if pieces != [] {
      ResetFresh(s);
      var v, h := LevelsOf(g, e, ps), Entry(g, e);
      FedAsManchester(ps, g, e, short, long);
      FirstLongSeen(g, e, ps, j, one);
      UntilTag(s.man, v, h, pieces, waited, short, long, j, (After(v, h, j) + 3) / 2);
      if ManRun(s.man, long, pieces).1 == [] && HoldsTag(v) {
        ReachedBounded(ManRun(s.man, long, pieces).0, v, After(v, h, |ps|), (After(v, h, j) + 3) / 2);
      }
    }
  }

  /** Both sides together. */
  lemma BothSides(found: seq<Report>, report: Report)
    requires report.protocol != EM4100 && OnlyThis(Of(false, found), report)
    ensures forall i :: 0 <= i < |found| ==> found[i].protocol == EM4100 || found[i] == report
    ensures report in Of(false, found) ==> report in found
    ensures Of(true, found) == [] ==> forall i :: 0 <= i < |found| ==> found[i] == report
    ensures Of(true, found) != [] ==> exists i :: 0 <= i < |found| && found[i].protocol == EM4100
  {
    hide Of;
    forall i | 0 <= i < |found| ensures found[i] in Of(found[i].protocol == EM4100, found) { OfCovers(found, i); }
    if Of(true, found) != [] { assert Of(true, found)[0] in found; }
  }
}
