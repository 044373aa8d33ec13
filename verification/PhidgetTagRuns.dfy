/** A whole run of the reader over a repeated PhidgetTAG frame: from pulse lengths in packets to reports. */
module PhidgetTagRuns {
  import opened Rings
  import opened LineCode
  import opened LineCodeSync
  import opened Receiver
  import opened EndToEnd
  import opened PulseRuns
  import opened BiphaseRuns
  import opened LevelRuns
  import opened Words
  import opened Blocks
  import Crc
  import FdxB
  import Headers
  import PhidgetTag
  import PhidgetTagEncode
  import PhidgetTagSync

  lemma HeaderBits(f: seq<bool>)
    requires PhidgetTag.Frame(f)
    ensures |f| == 224 && f[13] && forall i :: 0 <= i < 13 ==> !f[i]
  {
    assert PhidgetTag.Header(f, 0);
  }

  function TextOf(f: seq<bool>): Report
    requires |f| == 224
  {
    Tag(PHIDGETS, PhidgetTag.TagText(f))
  }

  // ----- the other decoder of the same queue

  /**
   * The header of FDX-B is the end of the frame's own. What follows it may pass for a telegram, if the characters
   * are chosen so; in a quiet frame it does not.
   */
  predicate Quiet(f: seq<bool>)
    requires |f| == 224
  {
    !FdxB.Body(f[3..131])
  }

  /** The telegram seen in a frame that is not quiet. */
  function FalseTelegram(f: seq<bool>): Report
    requires |f| == 224
  {
    Tag(ISO11785_FDX_B, FdxB.TelegramText(FdxB.Data(f[3..131])))
  }

  /** Behind the header every tenth bit at the latest is a one. */
  lemma OneNear(f: seq<bool>, p: nat) returns (c: nat)
    requires PhidgetTag.Frame(f) && 3 < p < 224
    ensures p <= c < p + 10 && c < 224 && f[c]
  {
    if p <= 13 {
      HeaderBits(f);
      return 13;
    }
    if p <= 22 { return 22; }
    if p <= 31 { return 31; }
    var j := (p - 32) / 8;
    assert PhidgetTag.Controls(f, 24) && f[39 + 8 * j];
    return 39 + 8 * j;
  }

  lemma TelegramHeader(f: seq<bool>, p: nat)
    requires PhidgetTag.Frame(f) && |f| == 224 && p < 224
    ensures Headers.ZerosThenOne(Cyclic(f, p, 128), 0, 10) <==> p == 3
    ensures Cyclic(f, 3, 128) == f[3..131]
  {
    hide Cyclic;
    HeaderBits(f);
    if p < 3 {
      CyclicAt(f, p, 128, 10);
    } else if p > 3 {
      var c := OneNear(f, p);
      CyclicAt(f, p, 128, c - p);
    }
    forall i | 0 <= i < 128 ensures Cyclic(f, 3, 128)[i] == f[3..131][i] { CyclicAt(f, 3, 128, i); }
  }

  predicate EndsHeader(phase: nat, o: nat) { (phase + o) % 224 == 3 }

  /** In a repeated frame the header of a telegram stands where the frame's own ends, and nowhere else. */
  lemma TelegramHeaderAt(f: seq<bool>, phase: nat, a: seq<bool>, n: nat, o: nat)
    requires PhidgetTag.Frame(f) && |f| == 224 && n <= |a| && a[..n] == Cyclic(f, phase, n) && o + 128 <= n
    ensures FdxB.Header(a, o) <==> EndsHeader(phase, o)
    ensures FdxB.Header(a, o) ==> a[o..o + 128] == f[3..131]
  {
    hide PhidgetTag.Frame, Cyclic, Headers.ZerosThenOne;
    SliceOfPrefix(a, n, o, o + 128);
    CyclicWindow(f, phase, n, o, 128);
    Headers.PatternInWindow(a, o, 128, 10);
    TelegramHeader(f, (phase + o) % 224);
  }

  lemma {:induction false} NoTelegramIn(f: seq<bool>, phase: nat, a: seq<bool>, n: nat, o: nat)
    requires PhidgetTag.Frame(f) && |f| == 224 && Quiet(f) && n <= |a| && a[..n] == Cyclic(f, phase, n)
    ensures FdxB.Search(a, n, o) == None
    decreases n - o
  {
    hide PhidgetTag.Frame, Cyclic, FdxB.Header, FdxB.Body;
    if o + 128 <= n {
      TelegramHeaderAt(f, phase, a, n, o);
      NoTelegramIn(f, phase, a, n, o + 1);
      NoTelegramIn(f, phase, a, n, o + 12);
    }
  }

  lemma {:induction false} TelegramIn(f: seq<bool>, phase: nat, a: seq<bool>, n: nat, o: nat)
    requires PhidgetTag.Frame(f) && |f| == 224 && !Quiet(f) && n <= |a| && a[..n] == Cyclic(f, phase, n)
    ensures var r := FdxB.Search(a, n, o);
      && (r.Some? ==> a[r.value..r.value + 128] == f[3..131] && EndsHeader(phase, r.value))
      && forall p :: o <= p && p + 128 <= n && EndsHeader(phase, p) ==> r.Some? && r.value <= p
    decreases n - o
  {
    hide PhidgetTag.Frame, Cyclic, FdxB.Header, FdxB.Body, EndsHeader;
    if o + 128 <= n {
      TelegramHeaderAt(f, phase, a, n, o);
      if FdxB.Header(a, o) {
        assert FdxB.Search(a, n, o) == Some(o);
      } else {
        TelegramIn(f, phase, a, n, o + 1);
        assert FdxB.Search(a, n, o) == FdxB.Search(a, n, o + 1);
      }
    }
  }

  lemma FirstHeaderEnd(phase: nat) returns (o: nat)
    ensures o < 224 && EndsHeader(phase, o)
  {
    o := (227 - phase % 224) % 224;
  }

  /** The FDX-B decoder finds something in a repeated PhidgetTAG frame just when that is not quiet. */
  lemma SeenAsTelegramIff(f: seq<bool>, phase: nat, a: seq<bool>, n: nat)
    requires PhidgetTag.Frame(f) && |f| == 224 && 351 <= n <= |a| && a[..n] == Cyclic(f, phase, n)
    ensures FdxB.Search(a, n, 0).Some? <==> !Quiet(f)
  {
    hide PhidgetTag.Frame, Cyclic, Quiet, FdxB.Search, EndsHeader;
    if Quiet(f) {
      NoTelegramIn(f, phase, a, n, 0);
    } else {
      TelegramIn(f, phase, a, n, 0);
      var o := FirstHeaderEnd(phase);
    }
  }

  // ----- the tag's own decoder

  /** The first place at which a frame starts. */
  lemma NextPlaces(f: seq<bool>, from: nat, z: nat)
    requires |f| == 224 && !f[0] && Bit(f, from) && AtPlace(f, 0, z) && from < z <= from + 224
    ensures PhidgetTagSync.StartsAt(from, z - from)
    ensures forall v: nat :: PhidgetTagSync.StartsAt(from, v) ==> z <= from + v
  {
    assert from % 224 != 0;
    hide Bit;
    forall v: nat | PhidgetTagSync.StartsAt(from, v) ensures z <= from + v { FirstMultiple(from, z, v); }
  }

  lemma FirstMultiple(from: nat, z: nat, v: nat)
    requires from % 224 != 0 && z % 224 == 0 && from < z <= from + 224 && (from + v) % 224 == 0
    ensures z <= from + v
  {
  }

  /** The first frame is found as soon as it is complete. */
  lemma SearchFinds(f: seq<bool>, from: nat, a: seq<bool>, n: nat, z: nat)
    requires PhidgetTag.Frame(f) && |f| == 224 && n <= |a| && a[..n] == Cyclic(f, from, n)
    requires AtPlace(f, 0, z) && from < z <= from + 224 && Bit(f, from)
    ensures var o := PhidgetTag.Search(a, n, 0, Crc.Zero);
      if from + n < z + 224 then o == None else o == Some(z - from) && a[z - from..z - from + 224] == f
  {
    HeaderBits(f);
    NextPlaces(f, from, z);
    hide PhidgetTag.Frame, Cyclic, PhidgetTag.Search, AtPlace, Bit, PhidgetTagSync.StartsAt, PhidgetTag.Stored;
    assert a[0..n] == a[..n];
    PhidgetTagSync.SearchRepetition(f, from, a, 0, n, 0, Crc.Zero);
    var o := PhidgetTag.Search(a, n, 0, Crc.Zero);
    if o.Some? { assert PhidgetTagSync.StartsAt(from, o.value); }
    assert PhidgetTagSync.CopyAt(from, 0, z - from);
  }

  /** decodePHIDGETS_TAG reports the frame once it is complete, and skips 224 bits; until then it does nothing. */
  lemma FindsTheTag(l: Line, f: seq<bool>, n: nat, from: nat, z: nat)
    requires PhidgetTag.Frame(f) && |f| == 224 && l.Valid() && BipAt(l, f, n, from) && Bit(f, from)
    requires AtPlace(f, 0, z) && from < z <= from + 224 && from < n / 2 < from + SIZE
    ensures FindPhidget(l) == if n / 2 < z + 224 then (l, []) else (l.(ring := l.ring.Skip(224)), [TextOf(f)])
  {
    hide PhidgetTag.Frame, PhidgetTag.Search, Cyclic, Since, PhidgetTag.TagText, AtPlace, Bit;
    SinceQueue(l.ring, f, n / 2, from);
    SearchFinds(f, from, l.ring.All(), n / 2 - from, z);
  }

  lemma NoFdxFound(l: Line, f: seq<bool>, n: nat, from: nat)
    requires PhidgetTag.Frame(f) && |f| == 224 && Quiet(f) && l.Valid() && BipAt(l, f, n, from)
    requires from < n / 2 < from + SIZE
    ensures FindFdx(l) == (l, [])
  {
    hide PhidgetTag.Frame, Cyclic, FdxB.Search, Quiet, Since;
    SinceQueue(l.ring, f, n / 2, from);
    NoTelegramIn(f, from, l.ring.All(), n / 2 - from, 0);
  }

  lemma TagSteady(f: seq<bool>)
    requires PhidgetTag.Frame(f) && |f| == 224 && Quiet(f)
    ensures Steady(f, TextOf(f))
  {
    hide PhidgetTag.Frame, FindFdx, FindPhidget, AtPlace, Bit, TextOf, Quiet, Since;
    forall l: Line, n: nat, from: nat, z: nat |
      l.Valid() && BipAt(l, f, n, from) && Bit(f, from) && AtPlace(f, 0, z) && from < z <= from + |f|
      && from < n / 2 < z + |f| + 63
      ensures Frames(l) == if n / 2 < z + |f| then (l, []) else (l.(ring := l.ring.Skip(|f|)), [TextOf(f)])
    {
      FindsTheTag(l, f, n, from, z);
      if n / 2 < z + |f| {
        NoFdxFound(l, f, n, from);
      } else {
        SinceSkip(l.ring, f, n / 2, from, 224);
        NoFdxFound(l.(ring := l.ring.Skip(224)), f, n, from + 224);
      }
      assert FindPhidget(l).1 + [] == FindPhidget(l).1;
    }
  }

  // ----- a frame that is not quiet

  lemma NextHeaderEnd(f: seq<bool>, from: nat, z: nat)
    requires |f| == 224 && AtPlace(f, 3, z) && from <= z < from + 224
    ensures EndsHeader(from, z - from)
    ensures forall v: nat :: EndsHeader(from, v) ==> z <= from + v
  {
  }

  lemma FalseOneFound(l: Line, f: seq<bool>, n: nat, from: nat, z: nat)
    requires PhidgetTag.Frame(f) && |f| == 224 && !Quiet(f) && l.Valid() && BipAt(l, f, n, from)
    requires AtPlace(f, 3, z) && from <= z < from + 224 && from < n / 2 < from + SIZE
    ensures if n / 2 < z + 128 then FindFdx(l) == (l, []) else FindFdx(l).1 == [FalseTelegram(f)]
  {
    hide PhidgetTag.Frame, AtPlace, Since, Quiet, FdxB.Search, Cyclic, FdxB.TelegramText, FdxB.Data, EndsHeader;
    SinceQueue(l.ring, f, n / 2, from);
    TelegramIn(f, from, l.ring.All(), n / 2 - from, 0);
    NextHeaderEnd(f, from, z);
  }

  lemma FrameBeforeHeaderEnd(f: seq<bool>, from: nat, z: nat)
    requires |f| == 224 && (forall i :: 0 <= i < 13 ==> !f[i]) && Bit(f, from)
    requires AtPlace(f, 3, z) && from <= z < from + 224
    ensures from < z - 3 && AtPlace(f, 0, z - 3)
  {
  }

  /** The false telegram is complete before the frame, by more bits than a packet holds. */
  lemma FindsTheFalseTelegram(l: Line, f: seq<bool>, n: nat, from: nat, z: nat)
    requires PhidgetTag.Frame(f) && |f| == 224 && !Quiet(f) && l.Valid() && BipAt(l, f, n, from) && Bit(f, from)
    requires AtPlace(f, 3, z) && from <= z < from + 224 && from < n / 2 < z + 191
    ensures if n / 2 < z + 128 then Frames(l) == (l, []) else Frames(l).1 == [FalseTelegram(f)]
  {
    HeaderBits(f);
    hide PhidgetTag.Frame, FindPhidget, FindFdx, AtPlace, Bit, BipAt, Quiet, FalseTelegram;
    FrameBeforeHeaderEnd(f, from, z);
    FindsTheTag(l, f, n, from, z - 3);
    FalseOneFound(l, f, n, from, z);
    assert [] + FindFdx(l).1 == FindFdx(l).1;
  }

  lemma FalseTelegramExpected(f: seq<bool>, c: nat, z: nat)
    requires PhidgetTag.Frame(f) && |f| == 224 && !Quiet(f) && Bit(f, c) && AtPlace(f, 3, z) && c <= z < c + 224
    ensures Expected(f, c, z + 128, FalseTelegram(f))
  {
    hide PhidgetTag.Frame, AtPlace, Bit, BipAt, Quiet, Frames, FalseTelegram;
    forall l: Line, n: nat | l.Valid() && BipAt(l, f, n, c) && c < n / 2 < z + 128 + 63
      ensures if n / 2 < z + 128 then Frames(l) == (l, []) else Frames(l).1 != [] && Frames(l).1[0] == FalseTelegram(f)
    {
      FindsTheFalseTelegram(l, f, n, c, z);
    }
  }

  // ----- whole runs

  /**
   * A quiet frame repeated without end, bi-phase coded at either polarity and entered anywhere, its pulses jittered
   * within their bands and cut into packets in any way: nothing but the tag is ever reported on the bi-phase side,
   * and by 1344 pulses it has been. An EM4100 tag is reported, by 1471 pulses, just when some 64 consecutive cell
   * levels pass for its frame.
   */
  lemma OnlyTheTagIsReported(s: Rx, f: seq<bool>, e: nat, ps: seq<Pulse>, short: nat, long: nat,
      packets: seq<seq<nat>>)
    requires PhidgetTag.Frame(f) && |f| == 224 && Quiet(f) && Clocks(short, long) && AfterReset(s) && Packets(packets)
    requires Jittered(Received(packets), ps) && BipCoded(ps, f, e, short, long)
    ensures var found := Run(s, packets).1;
      && OnlyThis(Of(false, found), TextOf(f))
      && (forall i :: 0 <= i < |found| ==> found[i].protocol == EM4100 || found[i] == TextOf(f))
      && (|Received(packets)| >= 1344 ==> TextOf(f) in found)
      && (Alternates(ps) && !HoldsTag(LevelsOf(f, e, ps)) ==> forall i :: 0 <= i < |found| ==> found[i] == TextOf(f))
      && (Alternates(ps) && HoldsTag(LevelsOf(f, e, ps)) && |Received(packets)| >= 1471 ==>
            exists i :: 0 <= i < |found| && found[i].protocol == EM4100)
  {
    HeaderBits(f);
    hide PhidgetTag.Frame, TextOf, Run, BipCoded, Jittered, Steady, Of, HoldsTag, LevelsOf, Alternates, Quiet;
    TagSteady(f);
    RepeatedFrame(s, f, e, ps, short, long, packets, TextOf(f), 13);
    if Alternates(ps) { TagAmongLevelsIff(s, f, e, ps, short, long, packets, 13, 0); }
    BothSides(Run(s, packets).1, TextOf(f));
  }

  /**
   * If the frame is not quiet, the first report of the bi-phase side is the false telegram, and by 1150 pulses it has
   * been made.
   */
  lemma FalseTelegramIsReported(s: Rx, f: seq<bool>, e: nat, ps: seq<Pulse>, short: nat, long: nat,
      packets: seq<seq<nat>>)
    requires PhidgetTag.Frame(f) && |f| == 224 && !Quiet(f) && Clocks(short, long) && AfterReset(s) && Packets(packets)
    requires Jittered(Received(packets), ps) && BipCoded(ps, f, e, short, long)
    ensures var found := Of(false, Run(s, packets).1);
      (found != [] ==> found[0] == FalseTelegram(f)) && (|Received(packets)| >= 1150 ==> found != [])
  {
    HeaderBits(f);
    hide PhidgetTag.Frame, Run, BipCoded, Jittered, Of, Quiet, BipAfter, BipLong, OpensAt, MixedBy, AllPulses,
      FirstCell, Pieces, Reached, BipRun, ManRun, Packets, BipFresh, Joined, Received, FalseTelegram, Expected;
    CodedMixed(ps, f, e, short, long, 13, 0);
    var pieces, waited, j := RunOpens(s, f, e, ps, short, long, packets, 447);
    var (t, found) := Run(s, packets);
    Sides(s, t, found, ps, short, long, pieces, waited);
    if pieces != [] {
      ResetFresh(s);
      FalseTelegramFirst(s.bip, f, e, pieces, waited, short, long, j);
    }
  }

  lemma FalseTelegramFirst(l: Line, f: seq<bool>, e: nat, pieces: seq<seq<Pulse>>, waited: nat, short: nat, long: nat,
      j: nat)
    requires PhidgetTag.Frame(f) && |f| == 224 && !Quiet(f) && Clocks(short, long) && BipFresh(l)
    requires Pieces(pieces, waited) && BipCoded(Joined(pieces), f, e, short, long)
    requires j < |pieces[0]| && OpensAt(f, e, j) && BipCoded(pieces[0], f, e, short, long)
    ensures l.Valid()
    ensures var found := BipRun(l, short, long, pieces).1;
      (found != [] ==> found[0] == FalseTelegram(f)) && (|Joined(pieces)| >= 1150 ==> found != [])
  {
    HeaderBits(f);
    assert Bit(f, FirstCell(f, e, j));
    PiecesBut(pieces, waited);
    hide PhidgetTag.Frame, BipCoded, Quiet, BipAfter, BipLong, OpensAt, AllPulses, FirstCell, Pieces, BipRun, BipFresh,
      Joined, FalseTelegram, Expected, FirstPiece, Bit, BipAt, AtPlace;
    FirstCellEarly(f, e, j, 13);
    var c := FirstCell(f, e, j);
    var z := NextStart(f, c, 3);
    FirstPieceShort(pieces[0], waited, f, e, short, long, j, z);
    FalseTelegramExpected(f, c, z);
    FirstReport(l, f, e, pieces, waited, short, long, j, z + 128, FalseTelegram(f));
    assert BipAfter(f, e, |Joined(pieces)|) >= e + |Joined(pieces)|;
  }

  /** Of a run that is long enough, the bi-phase side reports the tag and nothing else just when the frame is quiet. */
  lemma OnlyTheTagIff(s: Rx, f: seq<bool>, e: nat, ps: seq<Pulse>, short: nat, long: nat, packets: seq<seq<nat>>)
    requires PhidgetTag.Frame(f) && |f| == 224 && Clocks(short, long) && AfterReset(s) && Packets(packets)
    requires Jittered(Received(packets), ps) && BipCoded(ps, f, e, short, long) && |Received(packets)| >= 1150
    ensures OnlyThis(Of(false, Run(s, packets).1), TextOf(f)) <==> Quiet(f)
  {
    hide PhidgetTag.Frame, Run, BipCoded, Jittered, Of, Quiet, PhidgetTag.TagText, FdxB.TelegramText, FdxB.Data;
    if Quiet(f) {
      OnlyTheTagIsReported(s, f, e, ps, short, long, packets);
    } else {
      FalseTelegramIsReported(s, f, e, ps, short, long, packets);
    }
  }

  /** Written with encodePHIDGETS_TAG and read back through the whole receiver: the string written. */
  lemma WrittenTextIsReported(tagString: string, signedChar: bool, blocks: seq<Word>, s: Rx, e: nat, ps: seq<Pulse>,
      short: nat, long: nat, packets: seq<seq<nat>>)
    requires PhidgetTagEncode.CString(tagString) && PhidgetTagEncode.SevenBit(tagString)
    requires PhidgetTagEncode.Coded(tagString, signedChar, blocks) && |Stream(blocks)| == 224
    requires Clocks(short, long) && AfterReset(s) && Packets(packets)
    requires Jittered(Received(packets), ps) && BipCoded(ps, Stream(blocks), e, short, long)
    ensures var found, tag := Run(s, packets).1, Tag(PHIDGETS, tagString);
      && (Quiet(Stream(blocks)) ==>
            && (forall i :: 0 <= i < |found| ==> found[i].protocol == EM4100 || found[i] == tag)
            && (|Received(packets)| >= 1344 ==> tag in found))
      && (!Quiet(Stream(blocks)) && |Received(packets)| >= 1150 ==> FalseTelegram(Stream(blocks)) in found)
  {
    hide PhidgetTag.Frame, PhidgetTag.CharBytes, Stream, Run, Jittered, BipCoded, Quiet, PhidgetTagEncode.HeaderOf,
      PhidgetTagEncode.DataBit, FalseTelegram, Of, HoldsTag, LevelsOf, Alternates;
    PhidgetTagEncode.CodedIsFrame(tagString, signedChar, blocks);
    PhidgetTagEncode.PaddedText(tagString);
    if Quiet(Stream(blocks)) {
      OnlyTheTagIsReported(s, Stream(blocks), e, ps, short, long, packets);
    } else {
      FalseTelegramIsReported(s, Stream(blocks), e, ps, short, long, packets);
    }
  }
}
