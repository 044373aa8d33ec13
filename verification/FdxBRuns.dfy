/** A whole run of the reader over a repeated FDX-B telegram: from pulse lengths in packets to reports. */
module FdxBRuns {
  import opened Rings
  import opened LineCode
  import opened LineCodeSync
  import opened Receiver
  import opened EndToEnd
  import opened PulseRuns
  import opened BiphaseRuns
  import opened LevelRuns
  import opened Words
  import opened Blocks
  import opened CStrings
  import Crc
  import FdxB
  import FdxBEncode
  import FdxBSync
  import PhidgetTag

  lemma HeaderBits(g: seq<bool>)
    requires FdxB.Frame(g)
    ensures |g| == 128 && g[10] && !g[0]
  {
    assert FdxB.Header(g, 0);
  }

  function TelegramOf(g: seq<bool>): Report
    requires |g| == 128
  {
    Tag(ISO11785_FDX_B, FdxB.TelegramText(FdxB.Data(g)))
  }

  // ----- the other decoder of the same queue

  /** Ten zeros is the longest run in a telegram: the other decoder's header does not occur. */
  lemma NoLongRun(g: seq<bool>, phase: nat, a: seq<bool>, n: nat, o: nat)
    requires FdxB.Frame(g) && n <= |a| && a[..n] == Cyclic(g, phase, n) && o + 224 <= n
    ensures !PhidgetTag.Header(a, o)
  {
    HeaderBits(g);
    var p := (phase + o) % 128;
    var c := 10;
    if p > 0 { c := FdxBSync.NextOne(g, p); }
    hide FdxB.Frame, Cyclic;
    CyclicWindow(g, phase, n, o, 128);
    CyclicAt(g, p, 128, c - p);
    SliceOfPrefix(a, n, o, o + 128);
    assert a[o..o + 128][c - p] == a[o + (c - p)];
  }

  lemma {:induction false} NoPhidgetTagIn(g: seq<bool>, phase: nat, a: seq<bool>, n: nat, o: nat, crcRead: Crc.Register)
    requires FdxB.Frame(g) && n <= |a| && |g| == 128 && a[..n] == Cyclic(g, phase, n)
    ensures PhidgetTag.Search(a, n, o, crcRead) == None
    decreases n - o
  {
    hide FdxB.Frame, Cyclic, PhidgetTag.Header, PhidgetTag.Body, PhidgetTag.Accumulate;
    if o + 224 <= n {
      NoLongRun(g, phase, a, n, o);
      NoPhidgetTagIn(g, phase, a, n, o + 1, crcRead);
    }
  }

  lemma NoPhidgetFound(l: Line, g: seq<bool>, n: nat, from: nat)
    requires FdxB.Frame(g) && |g| == 128 && l.Valid() && BipAt(l, g, n, from) && from < n / 2
    ensures FindPhidget(l) == (l, [])
  {
    hide FdxB.Frame, Cyclic, PhidgetTag.Search;
    NoPhidgetTagIn(g, n / 2 - l.ring.Len(), l.ring.All(), l.ring.Len(), 0, Crc.Zero);
  }

  // ----- the telegram's own decoder

  /** The first telegram is found as soon as it is complete. */
  lemma SearchFinds(g: seq<bool>, from: nat, a: seq<bool>, n: nat, z: nat)
    requires FdxB.Frame(g) && |g| == 128 && n <= |a| && a[..n] == Cyclic(g, from, n)
    requires AtPlace(g, 0, z) && from < z <= from + 128 && Bit(g, from)
    ensures var o := FdxB.Search(a, n, 0);
      if from + n < z + 128 then o == None else o == Some(z - from) && a[z - from..z - from + 128] == g
  {
    HeaderBits(g);
    NextPlaces(g, from, z);
    hide FdxB.Frame, Cyclic, FdxB.Search, AtPlace, Bit, FdxBSync.StartsAt;
    FdxBSync.SearchRepeatedFrame(g, from, a, n, 0);
    var o := FdxB.Search(a, n, 0);
    if o.Some? { assert FdxBSync.StartsAt(from, o.value); }
  }

  lemma FoundWhenComplete(r: Ring<bool>, g: seq<bool>, n: nat, from: nat, z: nat)
    requires FdxB.Frame(g) && |g| == 128 && r.Valid() && Since(r, g, n, from) && from < n < from + SIZE
    requires AtPlace(g, 0, z) && from < z <= from + 128 && Bit(g, from)
    ensures var o := FdxB.Locate(r);
      if n < z + 128 then o == None else o == Some(z - from) && r.All()[z - from..z - from + 128] == g
  {
    hide FdxB.Frame, Cyclic, FdxB.Search, AtPlace, Bit, Since;
    SinceQueue(r, g, n, from);
    SearchFinds(g, from, r.All(), n - from, z);
  }

  /** The first place at which a telegram starts. */
  lemma NextPlaces(g: seq<bool>, from: nat, z: nat)
    requires |g| == 128 && !g[0] && Bit(g, from) && AtPlace(g, 0, z) && from < z <= from + 128
    ensures FdxBSync.StartsAt(from, z - from)
    ensures forall v: nat :: FdxBSync.StartsAt(from, v) ==> z <= from + v
  {
    assert from % 128 != 0;
    hide Bit;
    forall v: nat | FdxBSync.StartsAt(from, v) ensures z <= from + v { FirstMultiple(from, z, v); }
  }

  lemma FirstMultiple(from: nat, z: nat, v: nat)
    requires from % 128 != 0 && z % 128 == 0 && from < z <= from + 128 && (from + v) % 128 == 0
    ensures z <= from + v
  {
  }

  /** decodeISO11785_FDX_B reports the telegram once it is complete, and skips 128 bits; until then it does nothing. */
  lemma FindsTheTelegram(l: Line, g: seq<bool>, n: nat, from: nat, z: nat)
    requires FdxB.Frame(g) && |g| == 128 && l.Valid() && BipAt(l, g, n, from) && Bit(g, from)
    requires AtPlace(g, 0, z) && from < z <= from + 128 && from < n / 2 < z + 191
    ensures FindFdx(l) == if n / 2 < z + 128 then (l, []) else (l.(ring := l.ring.Skip(128)), [TelegramOf(g)])
  {
    hide FdxB.Frame, FdxB.Locate, Since, FdxB.TelegramText, FdxB.Data, AtPlace, Bit;
    FoundWhenComplete(l.ring, g, n / 2, from, z);
  }

  lemma TelegramSteady(g: seq<bool>)
    requires FdxB.Frame(g) && |g| == 128
    ensures Steady(g, TelegramOf(g))
  {
    hide FdxB.Frame, BipAt, FindFdx, FindPhidget, AtPlace, Bit, TelegramOf;
    forall l: Line, n: nat, from: nat, z: nat |
      l.Valid() && BipAt(l, g, n, from) && Bit(g, from) && AtPlace(g, 0, z) && from < z <= from + |g|
      && from < n / 2 < z + |g| + 63
      ensures Frames(l) == if n / 2 < z + |g| then (l, []) else (l.(ring := l.ring.Skip(|g|)), [TelegramOf(g)])
    {
      NoPhidgetFound(l, g, n, from);
      FindsTheTelegram(l, g, n, from, z);
      assert [] + FindFdx(l).1 == FindFdx(l).1;
    }
  }

  // ----- whole runs

  /**
   * A telegram repeated without end, bi-phase coded at either polarity and entered anywhere, its pulses jittered
   * within their bands and cut into packets in any way: nothing but the telegram is ever reported on the bi-phase
   * side, and by 768 pulses it has been. An EM4100 tag is reported, by 895 pulses, just when some 64 consecutive
   * cell levels pass for its frame.
   */
  lemma OnlyTheTelegramIsReported(s: Rx, g: seq<bool>, e: nat, ps: seq<Pulse>, short: nat, long: nat,
      packets: seq<seq<nat>>)
    requires FdxB.Frame(g) && |g| == 128 && Clocks(short, long) && AfterReset(s) && Packets(packets)
    requires Jittered(Received(packets), ps) && BipCoded(ps, g, e, short, long)
    ensures var found := Run(s, packets).1;
      && (forall i :: 0 <= i < |found| ==> found[i].protocol == EM4100 || found[i] == TelegramOf(g))
      && (|Received(packets)| >= 768 ==> TelegramOf(g) in found)
      && (Alternates(ps) && !HoldsTag(LevelsOf(g, e, ps)) ==>
            forall i :: 0 <= i < |found| ==> found[i] == TelegramOf(g))
      && (Alternates(ps) && HoldsTag(LevelsOf(g, e, ps)) && |Received(packets)| >= 895 ==>
            exists i :: 0 <= i < |found| && found[i].protocol == EM4100)
  {
    HeaderBits(g);
    hide FdxB.Frame, TelegramOf, Run, BipCoded, Jittered, Steady, Of, HoldsTag, LevelsOf, Alternates;
    TelegramSteady(g);
    RepeatedFrame(s, g, e, ps, short, long, packets, TelegramOf(g), 10);
    if Alternates(ps) { TagAmongLevelsIff(s, g, e, ps, short, long, packets, 10, 0); }
    BothSides(Run(s, packets).1, TelegramOf(g));
  }

  /** Written with encodeISO11785_FDX_B and read back through the whole receiver: the number written. */
  lemma WrittenNumberIsReported(tagString: string, blocks: seq<Word>, s: Rx, e: nat, ps: seq<Pulse>, short: nat,
      long: nat, packets: seq<seq<nat>>)
    requires FdxBEncode.Acceptable(tagString) && Digits(tagString, 10)
    requires FdxB.Frame(Stream(blocks)) && FdxB.Data(Stream(blocks)) == FdxBEncode.IsoWord(tagString)
    requires Clocks(short, long) && AfterReset(s) && Packets(packets)
    requires Jittered(Received(packets), ps) && BipCoded(ps, Stream(blocks), e, short, long)
    ensures var found, tag := Run(s, packets).1, Tag(ISO11785_FDX_B, tagString);
      && (forall i :: 0 <= i < |found| ==> found[i].protocol == EM4100 || found[i] == tag)
      && (|Received(packets)| >= 768 ==> tag in found)
      && (Alternates(ps) && !HoldsTag(LevelsOf(Stream(blocks), e, ps)) ==>
            forall i :: 0 <= i < |found| ==> found[i] == tag)
  {
    HeaderBits(Stream(blocks));
    hide FdxB.Frame, FdxB.Data, FdxB.TelegramText, FdxBEncode.IsoWord, Run, Jittered, BipCoded, HoldsTag, LevelsOf,
      Alternates;
    OnlyTheTelegramIsReported(s, Stream(blocks), e, ps, short, long, packets);
    FdxBEncode.ReportedText(tagString);
  }
}
