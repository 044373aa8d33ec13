/** From the string to be written to the reports of a reader the tag is held to: encoding, writing, playing, reading. */
module WrittenTags {
  import opened Words
  import opened Blocks
  import opened LineCode
  import opened LineCodeSync
  import opened CStrings
  import opened Receiver
  import opened EndToEnd
  import opened LevelRuns
  import Em4100
  import Em4100Encode
  import FdxB
  import FdxBEncode
  import FdxBRuns
  import PhidgetTagEncode
  import PhidgetTagRuns
  import T5577

  /** The pulses of a tag from one of its half-bits on: its blocks over and over, in its coding, at its bit length. */
  predicate Plays(card: T5577.Card, e: nat, ps: seq<Pulse>)
    requires card.Valid()
  {
    var bits, long := T5577.Playback(card), T5577.BitClocks(card.blocks[0]);
    |bits| > 0 && match T5577.CodingOf(card.blocks[0])
                  case Manchester => ps == ManPulses(bits, e, |ps|, long / 2, long)
                  case DifferentialBiphase => BipCoded(ps, bits, e, long / 2, long)
                  case OtherCoding => false
  }

  /** A reader that starts afresh gets the tag's pulses in packets, every length anywhere in its band. */
  predicate Hears(s: Rx, card: T5577.Card, e: nat, ps: seq<Pulse>, packets: seq<seq<nat>>)
    requires card.Valid()
  {
    AfterReset(s) && Packets(packets) && Jittered(Received(packets), ps) && Plays(card, e, ps)
  }

  /** Everything WriteTag sent arrived, at a tag without locks. */
  predicate Delivered(card: T5577.Card, r: T5577.Card, blocks: seq<Word>, lock: bool,
      delivery: nat -> T5577.Delivery, protocol: Protocol)
    requires card.Valid() && r.Valid() && |blocks| == T5577.BlockCount(protocol)
  {
    && (forall k :: 0 <= k <= |blocks| ==> T5577.Arrives(delivery(k)) && !card.locked[k])
    && T5577.Programmed(card, r, blocks, lock, delivery, protocol, |blocks| + 2)
  }

  predicate Commands(commands: seq<seq<seq<Word>>>) {
    forall k :: 0 <= k < |commands| ==> T5577.Packets(commands[k])
  }

  /** Right after the write, and with lock after any later commands too, the tag plays what was encoded. */
  lemma StillPlays(card: T5577.Card, r: T5577.Card, blocks: seq<Word>, lock: bool, delivery: nat -> T5577.Delivery,
      protocol: Protocol, later: seq<seq<seq<Word>>>)
    requires card.Valid() && r.Valid() && |blocks| == T5577.BlockCount(protocol) && Commands(later)
    requires Delivered(card, r, blocks, lock, delivery, protocol) && (lock || later == [])
    ensures var t := T5577.ObeyAll(r, later);
      && T5577.Playback(t) == Stream(blocks)
      && T5577.CodingOf(t.blocks[0]) == (if protocol == EM4100 then T5577.Manchester else T5577.DifferentialBiphase)
      && T5577.BitClocks(t.blocks[0]) == (if protocol == EM4100 then 64 else 32)
  {
    hide T5577.Playback, Stream, T5577.ObeyAll, T5577.CodingOf, T5577.BitClocks, T5577.Arrives, T5577.Config,
      T5577.MaxBlock;
    T5577.ConfigFields(protocol);
    T5577.PlaysBack(card, r, blocks, lock, delivery, protocol);
    if later == [] { T5577.ObeyNothing(r); } else {
      T5577.LockedTagStays(card, r, blocks, delivery, protocol, later);
      T5577.LockedForGood(r, later, 0);
    }
  }

  /** Hex digits written to a tag: the reader it is held to reports just them, also after later commands if locked. */
  lemma DigitsAreRead(tagString: string, card: T5577.Card, r: T5577.Card, blocks: seq<Word>, lock: bool,
      delivery: nat -> T5577.Delivery, later: seq<seq<seq<Word>>>, s: Rx, e: nat, ps: seq<Pulse>,
      packets: seq<seq<nat>>)
    requires card.Valid() && r.Valid() && T5577.Encoded(EM4100, tagString, true, blocks) && Commands(later)
    requires Em4100Encode.Acceptable(tagString) && Digits(Em4100Encode.HexPart(tagString), 16)
    requires Delivered(card, r, blocks, lock, delivery, EM4100) && (lock || later == [])
    requires Hears(s, T5577.ObeyAll(r, later), e, ps, packets)
    ensures var found := Run(s, packets).1;
      && (forall i :: 0 <= i < |found| ==> found[i] == Tag(EM4100, Em4100Encode.Lower(Em4100Encode.HexPart(tagString))))
      && (|Received(packets)| >= 384 ==> found != [])
  {
    hide T5577.ObeyAll, T5577.Playback, T5577.BitClocks, T5577.CodingOf, Delivered, Stream, Em4100.Frame,
      Em4100.Payload, Em4100Encode.TagBits, Em4100Encode.Acceptable, Em4100Encode.Lower, Run, ManPulses, Quantize;
    StillPlays(card, r, blocks, lock, delivery, EM4100, later);
    WrittenStringIsReported(tagString, blocks, s, e, 32, 64, packets);
  }

  /** An animal number written to a tag: the bi-phase side of the reader reports just that number. */
  lemma NumberIsRead(tagString: string, card: T5577.Card, r: T5577.Card, blocks: seq<Word>, lock: bool,
      delivery: nat -> T5577.Delivery, later: seq<seq<seq<Word>>>, s: Rx, e: nat, ps: seq<Pulse>,
      packets: seq<seq<nat>>)
    requires card.Valid() && r.Valid() && T5577.Encoded(ISO11785_FDX_B, tagString, true, blocks) && Commands(later)
    requires Digits(tagString, 10)
    requires Delivered(card, r, blocks, lock, delivery, ISO11785_FDX_B) && (lock || later == [])
    requires Hears(s, T5577.ObeyAll(r, later), e, ps, packets)
    ensures var found, tag := Run(s, packets).1, Tag(ISO11785_FDX_B, tagString);
      && (forall i :: 0 <= i < |found| ==> found[i].protocol == EM4100 || found[i] == tag)
      && (|Received(packets)| >= 768 ==> tag in found)
  {
    hide T5577.ObeyAll, T5577.Playback, T5577.BitClocks, T5577.CodingOf, Delivered, Stream, FdxB.Frame, FdxB.Data,
      FdxBEncode.IsoWord, Run, BipCoded, Quantize, HoldsTag, LevelsOf, Alternates;
    StillPlays(card, r, blocks, lock, delivery, ISO11785_FDX_B, later);
    FdxBRuns.WrittenNumberIsReported(tagString, blocks, s, e, ps, 16, 32, packets);
  }

  /** A text written to a tag: the bi-phase side of the reader reports just that text, if its frame is quiet. */
  lemma TextIsRead(tagString: string, signedChar: bool, card: T5577.Card, r: T5577.Card, blocks: seq<Word>, lock: bool,
      delivery: nat -> T5577.Delivery, later: seq<seq<seq<Word>>>, s: Rx, e: nat, ps: seq<Pulse>,
      packets: seq<seq<nat>>)
    requires card.Valid() && r.Valid() && T5577.Encoded(PHIDGETS, tagString, signedChar, blocks) && Commands(later)
    requires PhidgetTagEncode.CString(tagString) && PhidgetTagEncode.SevenBit(tagString)
    requires |Stream(blocks)| == 224 && PhidgetTagRuns.Quiet(Stream(blocks))
    requires Delivered(card, r, blocks, lock, delivery, PHIDGETS) && (lock || later == [])
    requires Hears(s, T5577.ObeyAll(r, later), e, ps, packets)
    ensures var found, tag := Run(s, packets).1, Tag(PHIDGETS, tagString);
      && (forall i :: 0 <= i < |found| ==> found[i].protocol == EM4100 || found[i] == tag)
      && (|Received(packets)| >= 1344 ==> tag in found)
  {
    hide T5577.ObeyAll, T5577.Playback, T5577.BitClocks, T5577.CodingOf, Delivered, Stream, PhidgetTagRuns.Quiet,
      PhidgetTagEncode.Coded, Run, BipCoded, Quantize, PhidgetTagEncode.CString, PhidgetTagEncode.SevenBit;
    StillPlays(card, r, blocks, lock, delivery, PHIDGETS, later);
    PhidgetTagRuns.WrittenTextIsReported(tagString, signedChar, blocks, s, e, ps, 16, 32, packets);
  }
}
