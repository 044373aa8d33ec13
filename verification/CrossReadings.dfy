/** Tags of one format that read as tags of another. */
module CrossReadings {
  import opened Modulo
  import opened Words
  import opened Rings
  import opened LineCode
  import opened LineCodeSync
  import opened Receiver
  import opened EndToEnd
  import opened PulseRuns
  import opened LevelRuns
  import Blocks
  import Crc
  import Em4100
  import Em4100Encode
  import FdxB
  import FdxBEncode
  import FdxBRuns
  import PhidgetTag
  import PhidgetTagEncode
  import PhidgetTagRuns

  /** Bits written as digits. */
  function Binary(s: string): (b: seq<bool>)
    ensures |b| == |s| && forall i :: 0 <= i < |s| ==> b[i] == (s[i] == '1')
  {
    seq(|s|, i requires 0 <= i < |s| => s[i] == '1')
  }

  // ----- an FDX-B telegram that is an EM4100 frame at the same time

  lemma {:induction false} LevelsFollow(g: seq<bool>, f: seq<bool>, i: nat)
    requires |g| == 128 && |f| == 64 && i < 64 && f[0] && !g[0]
    requires forall k :: 0 < k < 64 ==> g[k] == (f[k] != f[k - 1])
    ensures LevelAfter(g, true, i) == f[i]
  {
    ModuloUnique(0, i, i, 128);
    if i > 0 { LevelsFollow(g, f, i - 1); }
  }

  /** If the first 63 bits of a telegram after its first zero are the changes of an EM4100 frame, it holds that tag. */
  lemma ChangesHoldTag(g: seq<bool>, f: seq<bool>)
    requires FdxB.Frame(g) && |g| == 128 && Em4100.Frame(f) && |f| == 64
    requires forall k :: 0 < k < 64 ==> g[k] == (f[k] != f[k - 1])
    ensures Cyclic(Levels(g, true), 0, 64) == f && HoldsTag(Levels(g, true))
  {
    FdxBRuns.HeaderBits(g);
    assert f[0] by { assert Em4100.Header(f, 0); }
    hide Em4100.Frame, FdxB.Frame, LevelAfter;
    var v := Levels(g, true);
    forall i | 0 <= i < 64 ensures Cyclic(v, 0, 64)[i] == f[i] {
      LevelsFollow(g, f, i);
      ModuloUnique(0, i, i, 256);
    }
  }

  /** A first bit in which the header's ones go on, and changes where a telegram has its ones. */
  predicate Changing(f: seq<bool>) {
    && |f| == 64 && f[9] && !f[10]
    && f[19] != f[18] && f[28] != f[27] && f[37] != f[36] && f[46] != f[45] && f[55] != f[54]
  }

  /** The number of the tag 8088010208. */
  function TwinWord(): (w: Word)
    ensures |w| == 64
  {
    seq(64, k => k == 39 || k == 31 || k == 27 || k == 16 || k == 9 || k == 3)
  }

  /** Its frame. */
  lemma TwinFrame() returns (f: seq<bool>)
    ensures Em4100.Frame(f) && |f| == 64 && Em4100.Payload(f) == Msb(TwinWord()[..40]) && Changing(f)
  {
    var tag := TwinWord();
    var enc: Word := seq(64, k requires 0 <= k < 64 => Em4100Encode.CodedBit(tag, 10, 5, k));
    assert Em4100Encode.Coded(tag, 10, 5, enc);
    hide Em4100Encode.Coded, Em4100Encode.CodedBit, Em4100.Frame, Em4100.Payload, Changing, TwinWord;
    f := Msb(enc);
    Em4100Encode.CodedWordIsFrame(tag, enc);
    MsbLength(enc);
    TwinChanges(enc);
  }

  lemma TwinChanges(enc: Word)
    requires Em4100Encode.Coded(TwinWord(), 10, 5, enc)
    ensures Changing(Msb(enc))
  {
    var tag := TwinWord();
    assert |enc| == 64;
    hide Em4100Encode.Coded, Msb, TwinWord;
    MsbLength(enc);
    TwinParities(enc);
    TwinBits(tag, enc, 0);
    TwinBits(tag, enc, 5);
    TwinBits(tag, enc, 7);
    TwinBits(tag, enc, 9);
    TwinDigits();
  }

  lemma TwinParities(enc: Word)
    requires Em4100Encode.Coded(TwinWord(), 10, 5, enc)
    ensures |Msb(enc)| == 64 && Msb(enc)[19] != Msb(enc)[18] && Msb(enc)[28] != Msb(enc)[27]
  {
    var tag := TwinWord();
    assert |enc| == 64;
    hide Em4100Encode.Coded, Msb, TwinWord;
    MsbLength(enc);
    Em4100Encode.RowParityAt(tag, enc, 1);
    Em4100Encode.RowParityAt(tag, enc, 3);
    TwinBits(tag, enc, 2);
    TwinBits(tag, enc, 3);
    TwinDigits();
  }

  lemma TwinDigits()
    ensures var t := TwinWord();
      && t[39] && !t[38] && !(t[35] || t[34] || t[33] || t[32]) && t[31] && t[27] && !t[26] && !t[25] && !t[24]
      && !t[17] && t[16] && !t[10] && t[9] && t[3] && !t[2]
  {
  }

  lemma TwinBits(tag: Word, enc: Word, r: nat)
    requires |tag| == 64 && Em4100Encode.Coded(tag, 10, 5, enc) && r < 10
    ensures |Msb(enc)| == 64
    ensures Msb(enc)[9 + 5 * r] == tag[39 - 4 * r] && Msb(enc)[10 + 5 * r] == tag[38 - 4 * r]
    ensures Msb(enc)[11 + 5 * r] == tag[37 - 4 * r] && Msb(enc)[12 + 5 * r] == tag[36 - 4 * r]
  {
    assert |enc| == 64;
    hide Em4100Encode.Coded, Msb;
    Em4100Encode.DataAt(tag, enc, r, 0);
    Em4100Encode.DataAt(tag, enc, r, 1);
    Em4100Encode.DataAt(tag, enc, r, 2);
    Em4100Encode.DataAt(tag, enc, r, 3);
    assert |Msb(enc)| == 64 by { MsbLength(enc); }
  }

  lemma MsbLength(w: Word)
    ensures |Msb(w)| == |w|
  {
  }

  /** A telegram with given data exists. */
  lemma TelegramOfData(iso: seq<bool>) returns (g: seq<bool>)
    requires |iso| == 64
    ensures FdxB.Frame(g) && |g| == 128 && FdxB.Data(g) == iso
  {
    hide FdxB.Frame, FdxB.Data, FdxBEncode.FirstBit, FdxBEncode.SecondBit, Crc.Divide;
    var t := Msb(iso);
    MsbMsb(iso);
    var crc := Crc.Divide(Crc.Zero, iso);
    var first := seq(64, k requires 0 <= k < 64 => FdxBEncode.FirstBit(t, 6, k));
    var second := seq(64, k requires 0 <= k < 64 => FdxBEncode.SecondBit(t, crc, 4, k));
    FdxBEncode.HalvesAreFrame(t, crc, first, second);
    g := Msb(first) + Msb(second);
  }

  /** The data of a telegram that follows the changes of a frame. */
  function Followed(f: seq<bool>): (d: seq<bool>)
    requires |f| == 64
    ensures |d| == 64
  {
    seq(64, i requires 0 <= i < 64 => if i < 48 then f[FdxB.DataPos(i)] != f[FdxB.DataPos(i) - 1] else i == 63)
  }

  lemma FollowedBit(g: seq<bool>, f: seq<bool>, k: nat)
    requires FdxB.Frame(g) && |g| == 128 && Em4100.Frame(f) && Changing(f) && FdxB.Data(g) == Followed(f) && 0 < k < 64
    ensures g[k] == (f[k] != f[k - 1])
  {
    if k > 10 && k % 9 == 1 { ControlsOf(g, (k - 19) / 9); }
    hide FdxB.Frame, Em4100.Frame, Em4100.Body, FdxB.Data;
    if k <= 10 {
      HeaderChanges(g, f, k);
    } else if k % 9 != 1 {
      hide Changing;
      DataChanges(g, f, k);
    }
  }

  lemma HeaderChanges(g: seq<bool>, f: seq<bool>, k: nat)
    requires FdxB.Frame(g) && |g| == 128 && Em4100.Frame(f) && Changing(f) && 0 < k <= 10
    ensures g[k] == (f[k] != f[k - 1])
  {
    assert FdxB.Header(g, 0) && Em4100.Header(f, 0);
    hide FdxB.Frame, Em4100.Frame;
  }

  lemma DataChanges(g: seq<bool>, f: seq<bool>, k: nat)
    requires |g| == 128 && |f| == 64 && FdxB.Data(g) == Followed(f) && 10 < k < 64 && k % 9 != 1
    ensures g[k] == (f[k] != f[k - 1])
  {
    var q, r := (k - 11) / 9, (k - 11) % 9;
    assert (8 * q + r) / 8 == q && FdxB.DataPos(8 * q + r) == k;
    assert FdxB.Data(g)[8 * q + r] == Followed(f)[8 * q + r];
  }

  lemma ControlsOf(g: seq<bool>, j: nat)
    requires FdxB.Frame(g) && |g| == 128 && j < 13
    ensures g[19 + 9 * j]
  {
  }

  /** Any such EM4100 tag is hidden in the cell levels of some telegram, read at one polarity. */
  lemma HiddenTag(f: seq<bool>) returns (g: seq<bool>)
    requires Em4100.Frame(f) && Changing(f)
    ensures FdxB.Frame(g) && |g| == 128 && Cyclic(Levels(g, true), 0, 64) == f && HoldsTag(Levels(g, true))
  {
    g := TelegramOfData(Followed(f));
    hide FdxB.Frame, FdxB.Data, Em4100.Frame, Changing;
    forall k | 0 < k < 64 ensures g[k] == (f[k] != f[k - 1]) { FollowedBit(g, f, k); }
    ChangesHoldTag(g, f);
  }

  lemma TwinTelegram() returns (g: seq<bool>)
    ensures FdxB.Frame(g) && |g| == 128 && HoldsTag(Levels(g, true))
    ensures Em4100.Payload(Cyclic(Levels(g, true), 0, 64)) == Msb(TwinWord()[..40])
  {
    hide Em4100.Frame, Em4100.Payload, FdxB.Frame, Changing;
    var f := TwinFrame();
    g := HiddenTag(f);
  }

  /** In a long enough run of that polarity both the telegram and an EM4100 tag are reported. */
  lemma BothReported(s: Rx, g: seq<bool>, e: nat, ps: seq<Pulse>, short: nat, long: nat, packets: seq<seq<nat>>)
    requires FdxB.Frame(g) && |g| == 128 && HoldsTag(Levels(g, true))
    requires Clocks(short, long) && AfterReset(s) && Packets(packets) && |Received(packets)| >= 895
    requires Jittered(Received(packets), ps) && BipCoded(ps, g, e, short, long) && Alternates(ps)
    requires LevelsOf(g, e, ps) == Levels(g, true)
    ensures var found := Run(s, packets).1;
      FdxBRuns.TelegramOf(g) in found && exists i :: 0 <= i < |found| && found[i].protocol == EM4100
  {
    hide FdxB.Frame, HoldsTag, Levels, LevelsOf, Run, Jittered, BipCoded, Alternates, FdxBRuns.TelegramOf;
    FdxBRuns.OnlyTheTelegramIsReported(s, g, e, ps, short, long, packets);
  }

  // ----- a PhidgetTAG string that reads as an FDX-B telegram

  /** A register by its high and its low byte. */
  function Pair(hi: nat, lo: nat): Crc.Register { FromNat(lo, 8) + FromNat(hi, 8) }

  /** Bit k of what falls out when a byte x is divided behind a register. */
  predicate Out(hi: nat, x: nat, k: nat)
    requires k < 8
  {
    (Digit(hi, k) != Digit(x, k)) != (k < 4 && Digit(hi, 4 + k) != Digit(x, 4 + k))
  }

  /** The register goes from hi and lo to high and low with byte x, bit by bit. */
  predicate Fed(hi: nat, lo: nat, x: nat, high: nat, low: nat) {
    && Digit(low, 0) == Out(hi, x, 0) && Digit(low, 1) == Out(hi, x, 1) && Digit(low, 2) == Out(hi, x, 2)
    && Digit(low, 3) == Out(hi, x, 3) && Digit(low, 4) == Out(hi, x, 4)
    && Digit(low, 5) == (Out(hi, x, 5) != Out(hi, x, 0)) && Digit(low, 6) == (Out(hi, x, 6) != Out(hi, x, 1))
    && Digit(low, 7) == (Out(hi, x, 7) != Out(hi, x, 2))
    && Digit(high, 0) == (Digit(lo, 0) != Out(hi, x, 3)) && Digit(high, 1) == (Digit(lo, 1) != Out(hi, x, 4))
    && Digit(high, 2) == (Digit(lo, 2) != Out(hi, x, 5)) && Digit(high, 3) == (Digit(lo, 3) != Out(hi, x, 6))
    && Digit(high, 4) == ((Digit(lo, 4) != Out(hi, x, 7)) != Out(hi, x, 0))
    && Digit(high, 5) == (Digit(lo, 5) != Out(hi, x, 1)) && Digit(high, 6) == (Digit(lo, 6) != Out(hi, x, 2))
    && Digit(high, 7) == (Digit(lo, 7) != Out(hi, x, 3))
  }

  lemma OutIsQuotient(hi: nat, lo: nat, x: nat, k: nat)
    requires k < 8
    ensures Crc.Quotient(Pair(hi, lo), FromNat(x, 8), k) == Out(hi, x, k)
  {
    hide Digit;
  }

  lemma FedLow(hi: nat, lo: nat, x: nat, high: nat, low: nat, k: nat)
    requires Fed(hi, lo, x, high, low) && k < 8
    ensures Crc.Remainder(Pair(hi, lo), FromNat(x, 8), 8, k) == Digit(low, k)
  {
    hide Digit, Out, Crc.Quotient;
    OutIsQuotient(hi, lo, x, k);
    if k >= 5 { OutIsQuotient(hi, lo, x, k - 5); }
    assert k == 0 || k == 1 || k == 2 || k == 3 || k == 4 || k == 5 || k == 6 || k == 7;
  }

  lemma FedHigh(hi: nat, lo: nat, x: nat, high: nat, low: nat, k: nat)
    requires Fed(hi, lo, x, high, low) && k < 8
    ensures Crc.Remainder(Pair(hi, lo), FromNat(x, 8), 8, 8 + k) == Digit(high, k)
  {
    hide Digit, Out, Crc.Quotient;
    if k < 5 { OutIsQuotient(hi, lo, x, k + 3); }
    if k >= 4 { OutIsQuotient(hi, lo, x, k - 4); }
    assert k == 0 || k == 1 || k == 2 || k == 3 || k == 4 || k == 5 || k == 6 || k == 7;
  }

  lemma FedIsUpdate(hi: nat, lo: nat, x: nat, high: nat, low: nat)
    requires Fed(hi, lo, x, high, low)
    ensures Crc.Update(Pair(hi, lo), FromNat(x, 8)) == Pair(high, low)
  {
    hide Crc.Update, Crc.Remainder, Digit, Fed;
    var u, v: Crc.Byte := Pair(hi, lo), FromNat(x, 8);
    Crc.UpdateBits(u, v);
    forall k | 0 <= k < 16 ensures Crc.Update(u, v)[k] == Pair(high, low)[k] {
      if k < 8 { FedLow(hi, lo, x, high, low, k); } else { FedHigh(hi, lo, x, high, low, k - 8); }
    }
  }

  /** The CRC goes on over one byte of a message. */
  lemma OneByte(bytes: seq<Crc.Byte>, i: nat, hi: nat, lo: nat, x: nat, high: nat, low: nat)
    requires i < |bytes| && Fed(hi, lo, x, high, low) && bytes[i] == FromNat(x, 8)
    ensures Crc.UpdateAll(Pair(hi, lo), bytes[i..]) == Crc.UpdateAll(Pair(high, low), bytes[i + 1..])
  {
    hide Crc.Update, Crc.UpdateAll, Fed;
    FedIsUpdate(hi, lo, x, high, low);
    Crc.UpdateOne(Pair(hi, lo), bytes, i);
  }

  lemma ZerosLeave(bytes: seq<Crc.Byte>, i: nat)
    requires i <= |bytes| && forall k :: i <= k < |bytes| ==> bytes[k] == FromNat(0, 8)
    ensures Crc.UpdateAll(Pair(0, 0), bytes[i..]) == Pair(0, 0)
    decreases |bytes| - i
  {
    if i < |bytes| {
      hide Crc.Update, Crc.UpdateAll;
      OneByte(bytes, i, 0, 0, 0, 0, 0);
      ZerosLeave(bytes, i + 1);
    }
  }

  lemma PairZero()
    ensures Pair(0, 0) == Crc.Zero
  {
    forall k | 0 <= k < 16 ensures !Pair(0, 0)[k] { DigitZero(if k < 8 then k else k - 8); }
  }

  /** A string of letters and digits. */
  const TEXT: string := "3mnPYG631hA9"

  lemma TextLength()
    ensures |TEXT| == 12 && PhidgetTagEncode.SevenBit(TEXT)
  {
  }

  /** The bytes of its tag. */
  lemma TextByte(i: nat, n: nat)
    requires i < 24 && n == if i < 12 then TEXT[i] as nat else 0
    ensures PhidgetTagEncode.Padded(TEXT)[i] == FromNat(n, 8)
  {
    TextLength();
    hide FromNat;
  }

  lemma TextFromZero(b: seq<Crc.Byte>)
    requires b == PhidgetTagEncode.Padded(TEXT)
    ensures Crc.UpdateAll(Pair(0, 0), b[0..]) == Crc.UpdateAll(Pair(0xed, 0xcd), b[2..])
  {
    hide PhidgetTagEncode.Padded, Crc.UpdateAll, Pair, FromNat;
    TextByte(0, 0x33);
    OneByte(b, 0, 0, 0, 0x33, 0x06, 0x30);
    TextByte(1, 0x6d);
    OneByte(b, 1, 0x06, 0x30, 0x6d, 0xed, 0xcd);
  }

  lemma TextFromTwo(b: seq<Crc.Byte>)
    requires b == PhidgetTagEncode.Padded(TEXT)
    ensures Crc.UpdateAll(Pair(0xed, 0xcd), b[2..]) == Crc.UpdateAll(Pair(0x6c, 0xeb), b[3..])
  {
    hide PhidgetTagEncode.Padded, Crc.UpdateAll, Pair, FromNat;
    TextByte(2, 0x6e);
    OneByte(b, 2, 0xed, 0xcd, 0x6e, 0x6c, 0xeb);
  }

  lemma TextFromThree(b: seq<Crc.Byte>)
    requires b == PhidgetTagEncode.Padded(TEXT)
    ensures Crc.UpdateAll(Pair(0x6c, 0xeb), b[3..]) == Crc.UpdateAll(Pair(0x1c, 0xdf), b[4..])
  {
    hide PhidgetTagEncode.Padded, Crc.UpdateAll, Pair, FromNat;
    TextByte(3, 0x50);
    OneByte(b, 3, 0x6c, 0xeb, 0x50, 0x1c, 0xdf);
  }

  lemma TextFromFour(b: seq<Crc.Byte>)
    requires b == PhidgetTagEncode.Padded(TEXT)
    ensures Crc.UpdateAll(Pair(0x1c, 0xdf), b[4..]) == Crc.UpdateAll(Pair(0xf0, 0x88), b[6..])
  {
    hide PhidgetTagEncode.Padded, Crc.UpdateAll, Pair, FromNat;
    TextByte(4, 0x59);
    OneByte(b, 4, 0x1c, 0xdf, 0x59, 0xc7, 0x61);
    TextByte(5, 0x47);
    OneByte(b, 5, 0xc7, 0x61, 0x47, 0xf0, 0x88);
  }

  lemma TextFromSix(b: seq<Crc.Byte>)
    requires b == PhidgetTagEncode.Padded(TEXT)
    ensures Crc.UpdateAll(Pair(0xf0, 0x88), b[6..]) == Crc.UpdateAll(Pair(0xaa, 0x42), b[8..])
  {
    hide PhidgetTagEncode.Padded, Crc.UpdateAll, Pair, FromNat;
    TextByte(6, 0x36);
    OneByte(b, 6, 0xf0, 0x88, 0x36, 0x31, 0x8a);
    TextByte(7, 0x33);
    OneByte(b, 7, 0x31, 0x8a, 0x33, 0xaa, 0x42);
  }

  lemma TextFromEight(b: seq<Crc.Byte>)
    requires b == PhidgetTagEncode.Padded(TEXT)
    ensures Crc.UpdateAll(Pair(0xaa, 0x42), b[8..]) == Crc.UpdateAll(Pair(0x41, 0x39), b[10..])
  {
    hide PhidgetTagEncode.Padded, Crc.UpdateAll, Pair, FromNat;
    TextByte(8, 0x31);
    OneByte(b, 8, 0xaa, 0x42, 0x31, 0x70, 0xd2);
    TextByte(9, 0x68);
    OneByte(b, 9, 0x70, 0xd2, 0x68, 0x41, 0x39);
  }

  lemma TextFromTen(b: seq<Crc.Byte>)
    requires b == PhidgetTagEncode.Padded(TEXT)
    ensures Crc.UpdateAll(Pair(0x41, 0x39), b[10..]) == Crc.UpdateAll(Pair(0, 0), b[12..])
  {
    hide PhidgetTagEncode.Padded, Crc.UpdateAll, Pair, FromNat;
    TextByte(10, 0x41);
    OneByte(b, 10, 0x41, 0x39, 0x41, 0x39, 0);
    TextByte(11, 0x39);
    OneByte(b, 11, 0x39, 0, 0x39, 0, 0);
  }

  /** Its CRC is zero. */
  lemma TextCrc()
    ensures Crc.UpdateAll(Crc.Zero, PhidgetTagEncode.Padded(TEXT)) == Crc.Zero
  {
    var b := PhidgetTagEncode.Padded(TEXT);
    hide PhidgetTagEncode.Padded, Crc.UpdateAll, Pair, FromNat;
    TextFromZero(b);
    TextFromTwo(b);
    TextFromThree(b);
    TextFromFour(b);
    TextFromSix(b);
    TextFromEight(b);
    TextFromTen(b);
    forall k | 12 <= k < 24 ensures b[k] == FromNat(0, 8) { TextByte(k, 0); }
    ZerosLeave(b, 12);
    assert b[0..] == b;
    PairZero();
  }

  /** The bytes behind the telegram's header that is the end of its own. */
  function TelegramBytes(): (b: seq<Crc.Byte>)
    ensures |b| == 8
  {
    [FromNat(0, 8), FromNat(0, 8), FromNat(0x67, 8), FromNat(0xb7, 8), FromNat(0x76, 8), FromNat(0x0d, 8),
     FromNat(0x38, 8), FromNat(0xed, 8)]
  }

  lemma DataFromZero(b: seq<Crc.Byte>)
    requires b == TelegramBytes()
    ensures Crc.UpdateAll(Pair(0, 0), b[0..]) == Crc.UpdateAll(Pair(0, 0), b[2..])
  {
    hide Crc.UpdateAll, Pair, FromNat;
    OneByte(b, 0, 0, 0, 0, 0, 0);
    OneByte(b, 1, 0, 0, 0, 0, 0);
  }

  lemma DataFromTwo(b: seq<Crc.Byte>)
    requires b == TelegramBytes()
    ensures Crc.UpdateAll(Pair(0, 0), b[2..]) == Crc.UpdateAll(Pair(0x45, 0x81), b[4..])
  {
    hide Crc.UpdateAll, Pair, FromNat;
    OneByte(b, 2, 0, 0, 0x67, 0x1c, 0x41);
    OneByte(b, 3, 0x1c, 0x41, 0xb7, 0x45, 0x81);
  }

  lemma DataFromFour(b: seq<Crc.Byte>)
    requires b == TelegramBytes()
    ensures Crc.UpdateAll(Pair(0x45, 0x81), b[4..]) == Crc.UpdateAll(Pair(0, 0xc2), b[6..])
  {
    hide Crc.UpdateAll, Pair, FromNat;
    OneByte(b, 4, 0x45, 0x81, 0x76, 0x87, 0x30);
    OneByte(b, 5, 0x87, 0x30, 0x0d, 0, 0xc2);
  }

  lemma DataFromSix(b: seq<Crc.Byte>)
    requires b == TelegramBytes()
    ensures Crc.UpdateAll(Pair(0, 0xc2), b[6..]) == Crc.UpdateAll(Pair(0x59, 0xb1), b[8..])
  {
    hide Crc.UpdateAll, Pair, FromNat;
    OneByte(b, 6, 0, 0xc2, 0x38, 0x75, 0x5b);
    OneByte(b, 7, 0x75, 0x5b, 0xed, 0x59, 0xb1);
  }

  lemma TelegramCrc()
    ensures Crc.UpdateAll(Crc.Zero, TelegramBytes()) == Pair(0x59, 0xb1)
  {
    var b := TelegramBytes();
    hide Crc.UpdateAll, Pair, TelegramBytes;
    DataFromZero(b);
    DataFromTwo(b);
    DataFromFour(b);
    DataFromSix(b);
    Crc.UpdateNone(Pair(0x59, 0xb1), b);
    PairZero();
  }

  /** The frame of that string. */
  predicate TextFrame(f: seq<bool>) {
    PhidgetTag.Frame(f) && |f| == 224 && PhidgetTag.CharBytes(f) == PhidgetTagEncode.Padded(TEXT)
  }

  lemma CharPlaces(f: seq<bool>, c: nat, n: nat)
    requires TextFrame(f) && c < 9 && n == TEXT[c] as nat
    ensures var p := 32 + 8 * c;
      && f[p] == Digit(n, 6) && f[p + 1] == Digit(n, 5) && f[p + 2] == Digit(n, 4) && f[p + 3] == Digit(n, 3)
      && f[p + 4] == Digit(n, 2) && f[p + 5] == Digit(n, 1) && f[p + 6] == Digit(n, 0) && f[p + 7]
  {
    hide Crc.UpdateAll;
    TextByte(c, n);
    hide PhidgetTagEncode.Padded, Digit;
    var b := PhidgetTag.CharByte(f, c);
    assert b == PhidgetTag.CharBytes(f)[c] == FromNat(n, 8);
    assert b[0] == f[38 + 8 * c] && b[1] == f[37 + 8 * c] && b[2] == f[36 + 8 * c] && b[3] == f[35 + 8 * c];
    assert b[4] == f[34 + 8 * c] && b[5] == f[33 + 8 * c] && b[6] == f[32 + 8 * c];
    assert f[39 + 8 * c];
  }

  /** Eight bits between control bits are those of a byte. */
  predicate Group(f: seq<bool>, g: nat, b: nat)
    requires |f| == 224 && g < 10
  {
    var p := 14 + 9 * g;
    && f[p] == Digit(b, 7) && f[p + 1] == Digit(b, 6) && f[p + 2] == Digit(b, 5) && f[p + 3] == Digit(b, 4)
    && f[p + 4] == Digit(b, 3) && f[p + 5] == Digit(b, 2) && f[p + 6] == Digit(b, 1) && f[p + 7] == Digit(b, 0)
  }

  lemma FirstGroups(f: seq<bool>)
    requires TextFrame(f)
    ensures Group(f, 2, 0x67) && Group(f, 3, 0xb7) && Group(f, 4, 0x76) && f[40] && f[49]
  {
    assert |f| == 224;
    hide TextFrame;
    CharPlaces(f, 0, 0x33);
    CharPlaces(f, 1, 0x6d);
    CharPlaces(f, 2, 0x6e);
    CharPlaces(f, 3, 0x50);
  }

  lemma NextGroups(f: seq<bool>)
    requires TextFrame(f)
    ensures Group(f, 5, 0x0d) && Group(f, 6, 0x38) && f[58] && f[67]
  {
    assert |f| == 224;
    hide TextFrame;
    CharPlaces(f, 3, 0x50);
    CharPlaces(f, 4, 0x59);
    CharPlaces(f, 5, 0x47);
  }

  lemma LastGroups(f: seq<bool>)
    requires TextFrame(f)
    ensures Group(f, 7, 0xed) && Group(f, 8, 0x59) && Group(f, 9, 0xb1) && f[76] && f[85] && f[94] && f[103]
  {
    assert |f| == 224;
    hide TextFrame;
    CharPlaces(f, 5, 0x47);
    CharPlaces(f, 6, 0x36);
    CharPlaces(f, 7, 0x33);
    CharPlaces(f, 8, 0x31);
  }

  lemma StoredBit(f: seq<bool>, p: nat)
    requires TextFrame(f) && (14 <= p < 22 || 23 <= p < 31)
    ensures |f| == 224 && !f[p]
  {
    TextCrc();
    hide Crc.UpdateAll, PhidgetTagEncode.Padded, PhidgetTag.CharBytes;
    assert PhidgetTag.Stored(f)[if p < 22 then 29 - p else 30 - p] == f[p];
  }

  lemma CrcGroups(f: seq<bool>)
    requires TextFrame(f)
    ensures Group(f, 0, 0) && Group(f, 1, 0) && f[22] && f[31]
  {
    assert |f| == 224 && f[22] && f[31];
    hide TextFrame, Digit;
    forall p | 14 <= p < 22 || 23 <= p < 31 ensures !f[p] { StoredBit(f, p); }
    forall k | 0 <= k < 8 ensures !Digit(0, k) { DigitZero(k); }
  }

  lemma GroupBit(f: seq<bool>, g: nat, b: nat, j: nat)
    requires |f| == 224 && g < 10 && Group(f, g, b) && j < 8
    ensures f[14 + 9 * g + j] == Digit(b, 7 - j)
  {
    hide Digit;
  }

  lemma DataGroup(f: seq<bool>, g: nat) returns (b: nat)
    requires TextFrame(f) && g < 8
    ensures |f| == 224 && Group(f, g, b) && TelegramBytes()[g] == FromNat(b, 8)
  {
    assert |f| == 224;
    hide TextFrame, Group, FromNat;
    FirstGroups(f);
    NextGroups(f);
    LastGroups(f);
    CrcGroups(f);
    b := [0, 0, 0x67, 0xb7, 0x76, 0x0d, 0x38, 0xed][g];
  }

  lemma TelegramBit(f: seq<bool>, i: nat)
    requires TextFrame(f) && i < 64
    ensures |f| == 224 && FdxB.Data(f[3..131])[i] == TelegramBytes()[i / 8][7 - i % 8]
  {
    assert |f| == 224;
    hide TextFrame, TelegramBytes, Group, Digit;
    var b := DataGroup(f, i / 8);
    GroupBit(f, i / 8, b, i % 8);
    assert f[3..131][FdxB.DataPos(i)] == f[14 + 9 * (i / 8) + i % 8];
  }

  lemma TelegramData(f: seq<bool>)
    requires TextFrame(f)
    ensures |f| == 224 && FdxB.Data(f[3..131]) == Crc.Bits(TelegramBytes())
  {
    assert |f| == 224;
    hide TextFrame, TelegramBytes, FdxB.Data;
    var w, b := f[3..131], TelegramBytes();
    forall i | 0 <= i < 64 ensures FdxB.Data(w)[i] == Crc.Bits(b)[i] { TelegramBit(f, i); }
  }

  lemma TelegramChecksum(f: seq<bool>)
    requires TextFrame(f)
    ensures |f| == 224 && FdxB.Checksum(f[3..131]) == Msb(Pair(0x59, 0xb1))
  {
    assert |f| == 224;
    LastGroups(f);
    hide TextFrame, Digit, Group;
    var w := f[3..131];
    forall i | 0 <= i < 16 ensures FdxB.Checksum(w)[i] == Msb(Pair(0x59, 0xb1))[i] {
      if i < 8 {
        GroupBit(f, 8, 0x59, i);
      } else {
        GroupBit(f, 9, 0xb1, i - 8);
      }
    }
  }

  lemma TelegramControls(f: seq<bool>)
    requires TextFrame(f)
    ensures |f| == 224 && FdxB.Controls(f[3..131], 10)
  {
    assert |f| == 224;
    FirstGroups(f);
    NextGroups(f);
    LastGroups(f);
    CrcGroups(f);
    hide TextFrame, Group;
    forall j | 0 <= j < 10 ensures f[3..131][19 + 9 * j] {
      assert j == 0 || j == 1 || j == 2 || j == 3 || j == 4 || j == 5 || j == 6 || j == 7 || j == 8 || j == 9;
      assert f[3..131][19 + 9 * j] == f[22 + 9 * j];
    }
  }

  /** The string, written to a PhidgetTAG tag, makes a frame that is not quiet. */
  lemma TextNotQuiet(signedChar: bool, blocks: seq<Word>)
    requires PhidgetTagEncode.Coded(TEXT, signedChar, blocks)
    ensures PhidgetTag.Frame(Blocks.Stream(blocks)) && |Blocks.Stream(blocks)| == 224
    ensures !PhidgetTagRuns.Quiet(Blocks.Stream(blocks))
  {
    var f := Blocks.Stream(blocks);
    TextLength();
    hide PhidgetTagEncode.Coded, Blocks.Stream, PhidgetTagEncode.Padded, PhidgetTag.CharBytes, FdxB.Data, FdxB.Checksum,
      FdxB.Controls, Crc.Divide, Crc.UpdateAll, Crc.Bits, TelegramBytes, Pair, Msb;
    PhidgetTagEncode.CodedIsFrame(TEXT, signedChar, blocks);
    assert |f| == 224 && TextFrame(f);
    hide TextFrame, PhidgetTag.Frame;
    TelegramData(f);
    TelegramChecksum(f);
    TelegramControls(f);
    TelegramCrc();
    Crc.UpdateAllIsDivision(Crc.Zero, TelegramBytes());
  }

  /** So whoever writes it and reads it back is told of a telegram first. */
  lemma TextReadsAsTelegram(signedChar: bool, blocks: seq<Word>, s: Rx, e: nat, ps: seq<Pulse>, short: nat, long: nat,
      packets: seq<seq<nat>>)
    requires PhidgetTagEncode.Coded(TEXT, signedChar, blocks) && |Blocks.Stream(blocks)| == 224
    requires Clocks(short, long) && AfterReset(s) && Packets(packets) && |Received(packets)| >= 1150
    requires Jittered(Received(packets), ps) && BipCoded(ps, Blocks.Stream(blocks), e, short, long)
    ensures var found := Of(false, Run(s, packets).1);
      found != [] && found[0] == PhidgetTagRuns.FalseTelegram(Blocks.Stream(blocks))
  {
    hide PhidgetTagEncode.Coded, Blocks.Stream, PhidgetTag.Frame, PhidgetTagRuns.Quiet, Run, Of, Jittered, BipCoded,
      PhidgetTagRuns.FalseTelegram;
    TextNotQuiet(signedChar, blocks);
    PhidgetTagRuns.FalseTelegramIsReported(s, Blocks.Stream(blocks), e, ps, short, long, packets);
  }
}
