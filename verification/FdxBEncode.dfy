/** Encoding a 15-digit FDX-B tag string into four blocks, and the round trip through the reader. */
module FdxBEncode {
  import opened Words
  import opened Rings
  import opened Crc
  import opened CStrings
  import opened Blocks
  import opened BitReverse
  import opened FdxB
  import opened FdxBSync

  // ----- the two 64-bit halves of the telegram

  /** Bit k of the first half with the first i of its six groups in place; every ninth bit is a one. */
  predicate FirstBit(t: Word, i: nat, k: nat)
    requires |t| == 64 && k < 64
  {
    k < 54 && (k % 9 == 8 || (5 - k / 9 < i && t[k + 16 - k / 9]))
  }

  /** Bit k of the second half with its first i groups in place: two of data, then two of checksum. */
  predicate SecondBit(t: Word, crc: Word, i: nat, k: nat)
    requires |t| == 64 && |crc| == 16 && k < 64
  {
    k % 9 == 0 || (k >= 28 && 6 - (k - 1) / 9 < i &&
                   if k >= 46 then t[k - 41 - (k - 1) / 9] else crc[k - 25 - (k - 1) / 9])
  }

  lemma FirstConstants(k: nat)
    requires k < 64
    ensures Digit(0x0020100804020100, k) == (k < 54 && k % 9 == 8)
  {
    assert Repeat(1, 9, 6) == 0x201008040201;
    assert Pow2(9) == 0x200 && Pow2(8) == 0x100;
    DigitAppend(Repeat(1, 9, 6), 0, 8, k);
    DigitZero(k);
    if k >= 8 {
      RepeatBits(1, 9, 6, k - 8);
      DigitOne((k - 8) % 9);
    }
  }

  lemma SecondConstants(k: nat)
    requires k < 64
    ensures Digit(0x8040201008040201, k) == (k % 9 == 0)
  {
    assert Repeat(1, 9, 8) == 0x8040201008040201 by { assert Repeat(1, 9, 4) == 0x8040201; }
    assert Pow2(9) == 0x200;
    RepeatBits(1, 9, 8, k);
    DigitOne(k % 9);
  }

  lemma GroupMasks()
    ensures forall k :: 0 <= k < 64 ==>
      && FromNat(0x001FE00000000000, 64)[k] == (45 <= k < 53)
      && FromNat(0x7F80000000000000, 64)[k] == (55 <= k < 63)
      && FromNat(0x00001FE000000000, 64)[k] == (37 <= k < 45)
      && FromNat(0x0000000FF0000000, 64)[k] == (28 <= k < 36)
  {
    PowersOfTwo();
    assert Pow2(5) == 0x20 && Pow2(13) == 0x2000 && Pow2(12) == 0x1000;
    hide Pow2;
    PowAdd(16, 12);
    PowAdd(32, 13);
    PowAdd(32, 23);
    PowAdd(32, 5);
    RunMask(0x001FE00000000000, 45, 8, 64);
    RunMask(0x7F80000000000000, 55, 8, 64);
    RunMask(0x00001FE000000000, 37, 8, 64);
    RunMask(0x0000000FF0000000, 28, 8, 64);
  }

  method PlaceFirst(tagData: Word) returns (enc: Word)
    requires |tagData| == 64
    ensures |enc| == 64 && forall k :: 0 <= k < 64 ==> enc[k] == FirstBit(tagData, 6, k)
  {
    GroupMasks();
    forall k | 0 <= k < 64 ensures FromNat(0x0020100804020100, 64)[k] == FirstBit(tagData, 0, k) { FirstConstants(k); }
    enc := FromNat(0x0020100804020100, 64);
    var mask: Word := FromNat(0x001FE00000000000, 64);
    var i, j := 0, 11;
    while i < 6
      invariant 0 <= i <= 6 && j == 11 + i && |enc| == |mask| == 64
      invariant forall k :: 0 <= k < 64 ==> mask[k] == (45 - 9 * i <= k < 53 - 9 * i)
      invariant forall k :: 0 <= k < 64 ==> enc[k] == FirstBit(tagData, i, k)
    {
      enc := Or(enc, And(Shr(tagData, j), mask));
      i, j, mask := i + 1, j + 1, Shr(mask, 9);
    }
  }

  method PlaceSecond(tagData: Word, crc: Register) returns (enc: Word)
    requires |tagData| == 64
    ensures |enc| == 64 && forall k :: 0 <= k < 64 ==> enc[k] == SecondBit(tagData, crc, 4, k)
  {
    GroupMasks();
    forall k | 0 <= k < 64 ensures FromNat(0x8040201008040201, 64)[k] == SecondBit(tagData, crc, 0, k) {
      SecondConstants(k);
    }
    enc := FromNat(0x8040201008040201, 64);
    var mask: Word := FromNat(0x7F80000000000000, 64);
    var i, j := 0, 47;
    while i < 2
      invariant 0 <= i <= 2 && j == 47 - i && |enc| == |mask| == 64
      invariant forall k :: 0 <= k < 64 ==> mask[k] == (55 - 9 * i <= k < 63 - 9 * i)
      invariant forall k :: 0 <= k < 64 ==> enc[k] == SecondBit(tagData, crc, i, k)
    {
      enc := Or(enc, And(Shl(tagData, j), mask));
      i, j, mask := i + 1, j - 1, Shr(mask, 9);
    }
    var crc64: Word := crc + ZeroWord(48);
    enc := Or(enc, And(Shl(crc64, 29), FromNat(0x00001FE000000000, 64)));
    enc := Or(enc, And(Shl(crc64, 28), FromNat(0x0000000FF0000000, 64)));
  }

  // ----- encodeISO11785_FDX_B

  predicate Acceptable(tagString: string) {
    |tagString| == 15 && 0 <= Strtoll(tagString[3..], 10) <= 0x3FFFFFFFFF
  }

  /** The ISO 11784 number: identifier, country code, and the animal bit on top. */
  function IsoWord(tagString: string): (w: Word)
    requires |tagString| == 15
    ensures |w| == 64
  {
    Or(Or(Shl(FromInt(Strtoll(tagString[..3], 10), 64), 38), FromInt(Strtoll(tagString[3..], 10), 64)),
       FromNat(0x8000000000000000, 64))
  }

  /** encodeISO11785_FDX_B: four 32-bit blocks. */
  method Encode(tagString: string, blockDataLen: int) returns (status: Status, blocks: seq<Word>)
    ensures status == if blockDataLen >= 4 && Acceptable(tagString) then Ok else InvalidArg
    ensures status == Ok ==>
      && |blocks| == 4 && (forall b :: 0 <= b < 4 ==> |blocks[b]| == 32)
      && Frame(Stream(blocks))
      && Data(Stream(blocks)) == IsoWord(tagString)
  {
    if blockDataLen < 4 { return InvalidArg, []; }
    if |tagString| != 15 { return InvalidArg, []; }
    var uniqueID := Strtoll(tagString[3..], 10);
    // the cast to an unsigned type sends a negative number above every limit
    if uniqueID < 0 || uniqueID > 0x3FFFFFFFFF { return InvalidArg, []; }
    var countryCode := Strtoll(tagString[..3], 10);
    var tagData := Or(Shl(FromInt(countryCode, 64), 38), FromInt(uniqueID, 64));
    tagData := Or(tagData, FromNat(0x8000000000000000, 64));
    blocks := EncodeWord(tagData);
    return Ok, blocks;
  }

  /** The telegram of a 64-bit number, and its four blocks. */
  method EncodeWord(iso: Word) returns (blocks: seq<Word>)
    requires |iso| == 64
    ensures |blocks| == 4 && (forall b :: 0 <= b < 4 ==> |blocks[b]| == 32)
    ensures Frame(Stream(blocks)) && Data(Stream(blocks)) == iso
  {
    hide Reverse, Frame, Data, Divide, FirstBit, SecondBit;
    ReverseMirrors(iso);
    var tagData := Reverse(iso);
    var crc := Checksum64(tagData, iso);
    var first := PlaceFirst(tagData);
    var second := PlaceSecond(tagData, crc);
    blocks := Halves(first) + Halves(second);
    StreamOfHalves(first, Halves(second));
    StreamOfHalves(second, []);
    assert Halves(second) + [] == Halves(second) && Msb(second) + [] == Msb(second);
    MsbMsb(iso);
    HalvesAreFrame(tagData, crc, first, second);
  }

  /** The CRC loop over the bytes of the reversed word, from the top. */
  method Checksum64(tagData: Word, ghost iso: Word) returns (crc: Register)
    requires |tagData| == |iso| == 64 && tagData == Msb(iso)
    ensures crc == Divide(Zero, iso)
  {
    hide Update, UpdateAll, Divide;
    ghost var bytes: seq<Byte> := seq(8, g requires 0 <= g < 8 => tagData[56 - 8 * g..64 - 8 * g]);
    crc := Zero;
    UpdateNone(crc, bytes);
    var i, j := 0, 56;
    while i < 8
      invariant 0 <= i <= 8 && j == 56 - 8 * i
      invariant UpdateAll(crc, bytes[i..]) == UpdateAll(Zero, bytes)
    {
      var byte: Byte := And(Shr(tagData, j), FromNat(0xFF, 64))[..8];
      LowByte(tagData, j);
      assert byte == bytes[i];
      UpdateOne(crc, bytes, i);
      crc := Update(crc, byte);
      i, j := i + 1, j - 8;
    }
    UpdateNone(crc, bytes);
    forall g | 0 <= g < 8 ensures Msb(bytes[g]) == iso[8 * g..8 * g + 8] {
      assert bytes[g] == tagData[56 - 8 * g..64 - 8 * g];
    }
    UpdateInOrder(bytes, iso);
  }

  lemma LowByte(t: Word, j: nat)
    requires |t| == 64 && j <= 56
    ensures And(Shr(t, j), FromNat(0xFF, 64))[..8] == t[j..j + 8]
  {
    assert Pow2(8) == 0x100 && Pow2(0) == 1;
    RunMask(0xFF, 0, 8, 64);
  }

  lemma FirstHalfBits(t: Word, first: Word)
    requires |t| == |first| == 64 && forall k :: 0 <= k < 64 ==> first[k] == FirstBit(t, 6, k)
    ensures var f := Msb(first);
      && (forall p :: 0 <= p < 10 ==> !f[p]) && f[10]
      && (forall j :: 0 <= j < 5 ==> f[19 + 9 * j])
      && (forall n :: 0 <= n < 48 ==> f[DataPos(n)] == t[63 - n])
  {
    var f := Msb(first);
    forall n | 0 <= n < 48 ensures f[DataPos(n)] == t[63 - n] {
      var k := 63 - DataPos(n);
      assert k / 9 == 5 - n / 8 && k % 9 == 7 - n % 8;
    }
    forall j | 0 <= j < 5 ensures f[19 + 9 * j] {
      assert (44 - 9 * j) % 9 == 8;
    }
  }

  lemma SecondHalfBits(t: Word, crc: Register, second: Word)
    requires |t| == |second| == 64 && forall k :: 0 <= k < 64 ==> second[k] == SecondBit(t, crc, 4, k)
    ensures var f := Msb(second);
      && (forall j :: 5 <= j < 13 ==> f[9 * j - 45])
      && (forall n :: 48 <= n < 64 ==> f[DataPos(n) - 64] == t[63 - n])
      && (forall n :: 64 <= n < 80 ==> f[DataPos(n) - 64] == crc[79 - n])
  {
    var f := Msb(second);
    forall n | 48 <= n < 80 ensures f[DataPos(n) - 64] == if n < 64 then t[63 - n] else crc[79 - n] {
      var k := 127 - DataPos(n);
      assert (k - 1) / 9 == 12 - n / 8 && (k - 1) % 9 == 7 - n % 8;
    }
    forall j | 5 <= j < 13 ensures f[9 * j - 45] {
      assert (108 - 9 * j) % 9 == 0;
    }
  }

  lemma HalvesAreFrame(t: Word, crc: Register, first: Word, second: Word)
    requires |t| == |first| == |second| == 64
    requires forall k :: 0 <= k < 64 ==> first[k] == FirstBit(t, 6, k)
    requires forall k :: 0 <= k < 64 ==> second[k] == SecondBit(t, crc, 4, k)
    requires crc == Divide(Zero, Msb(t))
    ensures Frame(Msb(first) + Msb(second)) && Data(Msb(first) + Msb(second)) == Msb(t)
  {
    hide FirstBit, SecondBit, Divide;
    var f := Msb(first) + Msb(second);
    FirstHalfBits(t, first);
    SecondHalfBits(t, crc, second);
    forall n | 0 <= n < 64 ensures Data(f)[n] == Msb(t)[n] {
      if n < 48 {
        assert f[DataPos(n)] == Msb(first)[DataPos(n)];
      } else {
        assert f[DataPos(n)] == Msb(second)[DataPos(n) - 64];
      }
    }
    forall i | 0 <= i < 16 ensures FdxB.Checksum(f)[i] == Msb(crc)[i] {
      assert f[DataPos(64 + i)] == Msb(second)[DataPos(64 + i) - 64];
    }
    forall j | 0 <= j < 13 ensures f[19 + 9 * j] {
      if j < 5 {
        assert f[19 + 9 * j] == Msb(first)[19 + 9 * j];
      } else {
        assert f[19 + 9 * j] == Msb(second)[9 * j - 45];
      }
    }
    assert Data(f) == Msb(t);
  }

  // ----- the round trip

  lemma {:induction false} DecimalOfDigits(s: string)
    requires Digits(s, 10)
    ensures Decimal(Magnitude(s, 10, 0), |s|) == s
  {
    if s != [] {
      var t, c := s[..|s| - 1], s[|s| - 1];
      assert s == t + [c];
      DecimalOfDigits(t);
      MagnitudeSnoc(t, c, 10, 0);
      assert DigitValue(c) < 10;
      hide Magnitude, Digits;
      DecimalSnoc(Magnitude(t, 10, 0), c, |t|);
    }
  }

  lemma DecimalSnoc(n: nat, c: char, width: nat)
    requires DigitValue(c) < 10
    ensures Decimal(n * 10 + DigitValue(c), width + 1) == Decimal(n, width) + [c]
  {
  }

  lemma MagnitudeBound(s: string)
    requires Digits(s, 10) && |s| == 3
    ensures Magnitude(s, 10, 0) < 1000
  {
    assert DigitValue(s[0]) < 10 && DigitValue(s[1]) < 10 && DigitValue(s[2]) < 10;
    assert s == ([s[0]] + [s[1]]) + [s[2]] && [s[0]][1..] == [];
    MagnitudeSnoc([s[0]] + [s[1]], s[2], 10, 0);
    MagnitudeSnoc([s[0]], s[1], 10, 0);
  }

  lemma TopPower()
    ensures Pow2(63) == 0x8000000000000000
  {
    assert Pow2(15) == 0x8000;
    hide Pow2;
    PowersOfTwo();
    PowAdd(16, 15);
    PowAdd(32, 31);
  }

  lemma AnimalBit()
    ensures forall k :: 0 <= k < 64 ==> FromNat(0x8000000000000000, 64)[k] == (k == 63)
  {
    TopPower();
    assert Pow2(1) == 2;
    hide Pow2;
    RunMask(0x8000000000000000, 63, 1, 64);
  }

  lemma JoinedBits(uid: nat, country: nat, k: nat)
    requires uid < Pow2(38) && k < 48
    ensures ((k >= 38 && FromInt(country, 64)[k - 38]) || FromInt(uid, 64)[k] || FromNat(0x8000000000000000, 64)[k])
            == if k < 38 then Digit(uid, k) else Digit(country, k - 38)
  {
    hide Digit, Pow2, FromInt, FromNat;
    AnimalBit();
    DigitOfInt(uid, k);
    if k >= 38 {
      DigitOfInt(country, k - 38);
      DigitBeyond(uid, 38, k);
    }
  }

  lemma AcceptedNumbers(tagString: string)
    requires Acceptable(tagString) && Digits(tagString, 10)
    ensures |tagString| == 15 && Magnitude(tagString[3..], 10, 0) < Pow2(38)
    ensures Strtoll(tagString[3..], 10) == Magnitude(tagString[3..], 10, 0)
    ensures Strtoll(tagString[..3], 10) == Magnitude(tagString[..3], 10, 0)
  {
    hide Pow2, Magnitude, Strtoll;
    IdentifierSize();
    StrtollOfDigits(tagString[3..], 10);
    StrtollOfDigits(tagString[..3], 10);
  }

  /** The largest identifier that 38 bits hold, in twelve digits. */
  const LARGEST: string := "274877906943"

  lemma ReadDigit(s: string, k: nat, read: nat)
    requires k < |s| && DigitValue(s[k]) < 10
    ensures Magnitude(s[k..], 10, read) == Magnitude(s[k + 1..], 10, read * 10 + DigitValue(s[k]))
  {
    assert s[k..][1..] == s[k + 1..];
  }

  lemma LargestFront()
    ensures Magnitude(LARGEST, 10, 0) == Magnitude(LARGEST[6..], 10, 274877)
  {
    var s := LARGEST;
    hide Magnitude;
    ReadDigit(s, 0, 0);
    ReadDigit(s, 1, 2);
    ReadDigit(s, 2, 27);
    ReadDigit(s, 3, 274);
    ReadDigit(s, 4, 2748);
    ReadDigit(s, 5, 27487);
    assert s[0..] == s;
  }

  lemma LargestBack()
    ensures Magnitude(LARGEST[6..], 10, 274877) == 0x3FFFFFFFFF
  {
    var s := LARGEST;
    hide Magnitude;
    ReadDigit(s, 6, 274877);
    ReadDigit(s, 7, 2748779);
    ReadDigit(s, 8, 27487790);
    ReadDigit(s, 9, 274877906);
    ReadDigit(s, 10, 2748779069);
    ReadDigit(s, 11, 27487790694);
    EndOfDigits(s, 0x3FFFFFFFFF);
  }

  lemma LargestValue()
    ensures |LARGEST| == 12 && Digits(LARGEST, 10) && Magnitude(LARGEST, 10, 0) == 0x3FFFFFFFFF
  {
    hide Magnitude;
    LargestFront();
    LargestBack();
  }

  lemma EndOfDigits(s: string, read: nat)
    ensures Magnitude(s[|s|..], 10, read) == read
  {
  }

  /** Of strings of digits just those of fifteen are accepted whose last twelve are at most 274877906943. */
  lemma AcceptedIff(tagString: string)
    requires Digits(tagString, 10)
    ensures Acceptable(tagString) <==> |tagString| == 15 && NotAfter(tagString[3..], LARGEST)
  {
    if |tagString| == 15 {
      LargestValue();
      hide Magnitude, Strtoll, NotAfter, Digits;
      assert Digits(tagString[3..], 10) by { DigitsBehind(tagString, 3); }
      StrtollOfDigits(tagString[3..], 10);
      NumbersInOrder(tagString[3..], LARGEST, 0);
    }
  }

  lemma DigitsBehind(s: string, k: nat)
    requires k <= |s| && Digits(s, 10)
    ensures Digits(s[k..], 10)
  {
  }

  lemma IsoBits(tagString: string, k: nat)
    requires Acceptable(tagString) && Digits(tagString, 10) && k < 48
    ensures IsoWord(tagString)[k] ==
      if k < 38 then Digit(Magnitude(tagString[3..], 10, 0), k) else Digit(Magnitude(tagString[..3], 10, 0), k - 38)
  {
    AcceptedNumbers(tagString);
    hide Digit, Pow2, Magnitude, Strtoll, Digits, FromInt, FromNat, IsoWord, Acceptable;
    JoinedBits(Magnitude(tagString[3..], 10, 0), Magnitude(tagString[..3], 10, 0), k);
    IsoBit(tagString, k);
  }

  lemma IsoBit(tagString: string, k: nat)
    requires |tagString| == 15 && k < 64
    ensures IsoWord(tagString)[k] ==
      ((k >= 38 && FromInt(Strtoll(tagString[..3], 10), 64)[k - 38]) || FromInt(Strtoll(tagString[3..], 10), 64)[k]
       || FromNat(0x8000000000000000, 64)[k])
  {
    hide Strtoll, FromInt, FromNat;
  }

  /** The text the reader reports for a written tag is the string that was written. */
  lemma ReportedText(tagString: string)
    requires Acceptable(tagString) && Digits(tagString, 10)
    ensures TelegramText(IsoWord(tagString)) == tagString
  {
    AcceptedNumbers(tagString);
    hide IsoWord, Digit, Decimal, ToNat, Magnitude, FromNat, Strtoll, Pow2;
    var front, back := tagString[..3], tagString[3..];
    IsoFields(tagString);
    ToNatFromNat(Magnitude(back, 10, 0), 38);
    SplitDigits(tagString);
    hide Digits;
    MagnitudeBound(front);
    SmallPowers();
    ToNatFromNat(Magnitude(front, 10, 0), 10);
    DecimalOfDigits(front);
    DecimalOfDigits(back);
  }

  lemma SplitDigits(s: string)
    requires |s| == 15 && Digits(s, 10)
    ensures Digits(s[..3], 10) && Digits(s[3..], 10) && s == s[..3] + s[3..]
  {
  }

  lemma IsoFields(tagString: string)
    requires Acceptable(tagString) && Digits(tagString, 10)
    ensures IsoWord(tagString)[..38] == FromNat(Magnitude(tagString[3..], 10, 0), 38)
    ensures IsoWord(tagString)[38..48] == FromNat(Magnitude(tagString[..3], 10, 0), 10)
  {
    assert |tagString| == 15;
    hide IsoWord, Digit, Magnitude, Acceptable, Digits;
    var w := IsoWord(tagString);
    var uid, country := Magnitude(tagString[3..], 10, 0), Magnitude(tagString[..3], 10, 0);
    forall k | 0 <= k < 38 ensures w[..38][k] == FromNat(uid, 38)[k] { IsoBits(tagString, k); }
    forall k | 0 <= k < 10 ensures w[38..48][k] == FromNat(country, 10)[k] { IsoBits(tagString, 38 + k); }
  }

  lemma SmallPowers()
    ensures Pow2(10) == 1024
  {
  }

  lemma {:induction false} DecimalIsDigits(n: nat, width: nat)
    ensures Digits(Decimal(n, width), 10)
    decreases n, width
  {
    if n > 0 || width > 0 {
      DecimalIsDigits(n / 10, if width > 0 then width - 1 else 0);
    }
  }

  /** Of the strings the encoder takes, exactly those of fifteen decimal digits are reported as written. */
  lemma ReportedVerbatim(tagString: string)
    requires Acceptable(tagString)
    ensures TelegramText(IsoWord(tagString)) == tagString <==> Digits(tagString, 10)
  {
    if Digits(tagString, 10) { ReportedText(tagString); }
    DecimalIsDigits(ToNat(IsoWord(tagString)[38..48]), 3);
    DecimalIsDigits(ToNat(IsoWord(tagString)[..38]), 12);
  }

  /**
   * Writing and reading back: the blocks of encodeISO11785_FDX_B, played back without end and entered at
   * any phase, are found by decodeISO11785_FDX_B with 255 bits queued, and reported as they were written.
   */
  lemma WrittenTagReadsBack(tagString: string, blocks: seq<Word>, phase: nat, ring: Ring<bool>)
    requires Acceptable(tagString) && Digits(tagString, 10)
    requires Frame(Stream(blocks)) && Data(Stream(blocks)) == IsoWord(tagString)
    requires ring.Valid() && ring.Len() > 0 && ring.Queue() == Cyclic(Stream(blocks), phase, ring.Len())
    ensures ring.Len() >= 255 ==> Locate(ring).Some?
    ensures Locate(ring).Some? ==>
      TelegramText(Data(ring.All()[Locate(ring).value..Locate(ring).value + 128])) == tagString
  {
    hide Frame, Data, IsoWord, TelegramText;
    DecodeRepeatedFrame(Stream(blocks), phase, ring);
    ReportedText(tagString);
  }
}
