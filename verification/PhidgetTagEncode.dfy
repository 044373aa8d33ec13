/** Encoding up to 24 characters into seven blocks, and the round trip through the reader. */
module PhidgetTagEncode {
  import opened Words
  import opened Rings
  import opened Crc
  import opened CStrings
  import opened Blocks
  import opened PhidgetTag
  import opened PhidgetTagSync

  /** A C string: one byte per character, none of them zero. */
  predicate CString(s: string) {
    forall i :: 0 <= i < |s| ==> 0 < s[i] as nat < 256
  }

  predicate SevenBit(s: string) {
    forall i :: 0 <= i < |s| ==> s[i] as nat < 128
  }

  function CharWord(n: nat): Byte { FromNat(n, 8) }

  /** The string in its zeroed array of 24, as bytes. */
  function Padded(s: string): (b: seq<Byte>)
    requires |s| <= 24
    ensures |b| == 24
  {
    seq<Byte>(24, i requires 0 <= i < 24 => CharWord(if i < |s| then s[i] as nat else 0))
  }

  /** A char promoted to int: on platforms with a signed char its top bit is copied upwards. */
  function Promoted(b: Byte, signedChar: bool): (w: Word)
    ensures |w| == 32
  {
    b + seq(24, _ => signedChar && b[7])
  }

  /** Bit k of data block b: the control bits, and each of its four characters shifted into place. */
  predicate DataBit(bytes: seq<Byte>, signedChar: bool, b: nat, n: nat, k: nat)
    requires |bytes| == 24 && 1 <= b < 7 && k < 32
  {
    k % 8 == 0 || exists m :: 0 <= m < 4 && 4 * (b - 1) + m < n && 25 - 8 * m <= k
                              && Promoted(bytes[4 * (b - 1) + m], signedChar)[k - (25 - 8 * m)]
  }

  lemma ControlMask(k: nat)
    requires k < 32
    ensures Digit(0x01010101, k) == (k % 8 == 0)
  {
    assert Repeat(1, 8, 4) == 0x01010101;
    assert Pow2(8) == 0x100;
    RepeatBits(1, 8, 4, k);
    DigitOne(k % 8);
  }

  lemma CrcConstants()
    ensures forall k :: 0 <= k < 32 ==>
      && FromNat(0x00040201, 32)[k] == (k == 0 || k == 9 || k == 18)
      && FromNat(0x0003FC00, 32)[k] == (10 <= k < 18)
      && FromNat(0x000001FE, 32)[k] == (1 <= k < 9)
  {
    assert Pow2(8) == 0x100 && Pow2(9) == 0x200 && Pow2(10) == 0x400 && Pow2(1) == 2;
    RunMask(0x0003FC00, 10, 8, 32);
    RunMask(0x000001FE, 1, 8, 32);
    forall k | 0 <= k < 32 ensures Digit(0x00040201, k) == (k == 0 || k == 9 || k == 18) {
      DigitAppend(0x201, 1, 9, k);
      DigitOne(k);
      if k >= 9 {
        DigitAppend(1, 1, 9, k - 9);
        DigitOne(k - 9);
        if k >= 18 { DigitOne(k - 18); }
      }
    }
  }

  function HeaderBit(crc: Register, k: nat): bool {
    if k == 0 || k == 9 || k == 18 then true
    else if 10 <= k < 18 then crc[k - 2]
    else if 1 <= k < 9 then crc[k - 1]
    else false
  }

  predicate HeaderOf(block: Word, crc: Register) {
    |block| == 32 && forall k :: 0 <= k < 32 ==> block[k] == HeaderBit(crc, k)
  }

  method HeaderBlock(crc: Register) returns (block: Word)
    ensures HeaderOf(block, crc)
  {
    CrcConstants();
    var wide: Word := crc + ZeroWord(16);
    block := FromNat(0x00040201, 32);
    block := Or(block, And(Shl(wide, 2), FromNat(0x0003FC00, 32)));
    block := Or(block, And(Shl(wide, 1), FromNat(0x000001FE, 32)));
  }

  /** encodePHIDGETS_TAG: seven 32-bit blocks. */
  method Encode(tagString: string, blockDataLen: int, signedChar: bool) returns (status: Status, blocks: seq<Word>)
    requires CString(tagString)
    ensures status == if blockDataLen >= 7 && |tagString| <= 24 then Ok else InvalidArg
    ensures status == Ok ==> Coded(tagString, signedChar, blocks)
  {
    if blockDataLen < 7 { return InvalidArg, []; }
    if |tagString| > 24 { return InvalidArg, []; }
    var tagData := Padded(tagString);
    var crc := ComputeCrc(tagData);
    hide DataBit, HeaderOf, Padded, UpdateAll, DataSoFar, Coded, FromNat;
    var header := HeaderBlock(crc);
    var control: Word := FromNat(0x01010101, 32);
    blocks := [header, control, control, control, control, control, control];
    HeaderLength(header, crc);
    NoCharacters(blocks, tagData, signedChar);
    blocks := PlaceCharacters(blocks, tagData, signedChar);
    AllCharacters(tagString, blocks, signedChar);
    return Ok, blocks;
  }

  /** The characters are shifted into the data blocks one by one, four to a block. */
  method PlaceCharacters(start: seq<Word>, tagData: seq<Byte>, signedChar: bool) returns (blocks: seq<Word>)
    requires DataSoFar(start, tagData, signedChar, 0)
    ensures DataSoFar(blocks, tagData, signedChar, 24) && blocks[0] == start[0]
  {
    hide DataBit, Promoted;
    blocks := start;
    var i, j := 0, 184;
    while i < 24
      invariant 0 <= i <= 24 && j == 184 - 8 * i
      invariant DataSoFar(blocks, tagData, signedChar, i) && blocks[0] == start[0]
    {
      var block, shift := i / 4 + 1, j % 32 + 1;
      ShiftOfCharacter(i);
      AddCharacter(blocks, tagData, signedChar, i);
      blocks := blocks[block := Or(blocks[block], Shl(Promoted(tagData[i], signedChar), shift))];
      i, j := i + 1, j - 8;
    }
  }

  lemma HeaderLength(block: Word, crc: Register)
    requires HeaderOf(block, crc)
    ensures |block| == 32
  {
  }

  lemma AllCharacters(s: string, blocks: seq<Word>, signedChar: bool)
    requires |s| <= 24 && |blocks| == 7 && HeaderOf(blocks[0], UpdateAll(Zero, Padded(s)))
    requires DataSoFar(blocks, Padded(s), signedChar, 24)
    ensures Coded(s, signedChar, blocks)
  {
    hide DataBit, HeaderOf, Padded, UpdateAll;
  }

  /** The data blocks after the first i characters. */
  ghost predicate DataSoFar(blocks: seq<Word>, bytes: seq<Byte>, signedChar: bool, i: nat) {
    && |bytes| == 24 && i <= 24 && |blocks| == 7 && (forall b :: 0 <= b < 7 ==> |blocks[b]| == 32)
    && forall b, k :: 1 <= b < 7 && 0 <= k < 32 ==> blocks[b][k] == DataBit(bytes, signedChar, b, i, k)
  }

  lemma NoCharacters(blocks: seq<Word>, bytes: seq<Byte>, signedChar: bool)
    requires |bytes| == 24 && |blocks| == 7 && |blocks[0]| == 32
    requires forall b :: 1 <= b < 7 ==> blocks[b] == FromNat(0x01010101, 32)
    ensures DataSoFar(blocks, bytes, signedChar, 0)
  {
    hide Digit;
    forall b, k | 1 <= b < 7 && 0 <= k < 32 ensures blocks[b][k] == DataBit(bytes, signedChar, b, 0, k) {
      ControlMask(k);
      assert blocks[b][k] == Digit(0x01010101, k);
    }
  }

  lemma ShiftOfCharacter(i: nat)
    requires i < 24
    ensures (184 - 8 * i) % 32 + 1 == 25 - 8 * (i % 4)
  {
  }

  lemma AddCharacter(blocks: seq<Word>, bytes: seq<Byte>, signedChar: bool, i: nat)
    requires i < 24 && DataSoFar(blocks, bytes, signedChar, i)
    ensures |blocks[i / 4 + 1]| == 32
    ensures var shifted := Shl(Promoted(bytes[i], signedChar), 25 - 8 * (i % 4));
      DataSoFar(blocks[i / 4 + 1 := Or(blocks[i / 4 + 1], shifted)], bytes, signedChar, i + 1)
  {
    hide DataBit, Promoted;
    var shifted := Shl(Promoted(bytes[i], signedChar), 25 - 8 * (i % 4));
    var after := blocks[i / 4 + 1 := Or(blocks[i / 4 + 1], shifted)];
    forall b, k | 1 <= b < 7 && 0 <= k < 32 ensures after[b][k] == DataBit(bytes, signedChar, b, i + 1, k) {
      assert blocks[b][k] == DataBit(bytes, signedChar, b, i, k);
      DataBitStep(bytes, signedChar, b, i, k);
    }
  }

  lemma DataBitStep(bytes: seq<Byte>, signedChar: bool, b: nat, i: nat, k: nat)
    requires |bytes| == 24 && 1 <= b < 7 && k < 32 && i < 24
    ensures DataBit(bytes, signedChar, b, i + 1, k) == (DataBit(bytes, signedChar, b, i, k)
      || (b == i / 4 + 1 && 25 - 8 * (i % 4) <= k && Promoted(bytes[i], signedChar)[k - (25 - 8 * (i % 4))]))
  {
    var m := i % 4;
    if b == i / 4 + 1 { assert 4 * (b - 1) + m == i; }
  }

  // ----- the round trip

  lemma {:induction false} StreamAt(blocks: seq<Word>, p: nat)
    requires (forall b :: 0 <= b < |blocks| ==> |blocks[b]| == 32) && p < 32 * |blocks|
    ensures |Stream(blocks)| == 32 * |blocks| && Stream(blocks)[p] == blocks[p / 32][31 - p % 32]
    decreases |blocks|
  {
    if p >= 32 {
      StreamAt(blocks[1..], p - 32);
      assert (p - 32) / 32 == p / 32 - 1 && (p - 32) % 32 == p % 32;
    } else if |blocks| > 1 {
      StreamAt(blocks[1..], 0);
    }
  }

  predicate Coded(s: string, signedChar: bool, blocks: seq<Word>) {
    && |s| <= 24 && |blocks| == 7 && (forall b :: 0 <= b < 7 ==> |blocks[b]| == 32)
    && HeaderOf(blocks[0], UpdateAll(Zero, Padded(s)))
    && forall b, k :: 1 <= b < 7 && 0 <= k < 32 ==> blocks[b][k] == DataBit(Padded(s), signedChar, b, 24, k)
  }

  lemma TopBit(s: string, c: nat)
    requires |s| <= 24 && SevenBit(s) && c < 24
    ensures !Padded(s)[c][7]
  {
    var v := if c < |s| then s[c] as nat else 0;
    assert Pow2(7) == 128;
    assert v < 128 && Padded(s)[c] == CharWord(v);
    DigitAppend(0, v, 7, 7);
    DigitZero(7 - 7);
  }

  /** Bit k of character c stands where the decoder looks for it. */
  lemma CharBitAt(s: string, signedChar: bool, blocks: seq<Word>, c: nat, k: nat)
    requires Coded(s, signedChar, blocks) && SevenBit(s) && c < 24 && k < 7
    ensures |Stream(blocks)| == 224 && Stream(blocks)[38 + 8 * c - k] == Padded(s)[c][k]
  {
    hide UpdateAll, Padded, DataBit;
    var p, b, m := 38 + 8 * c - k, c / 4 + 1, c % 4;
    StreamAt(blocks, p);
    var i := 25 - 8 * m + k;
    assert p / 32 == b && 31 - p % 32 == i;
    assert blocks[b][i] == DataBit(Padded(s), signedChar, b, 24, i);
    forall d | 0 <= d < 24 ensures !Padded(s)[d][7] { TopBit(s, d); }
    SevenBitData(Padded(s), signedChar, c, k);
  }

  /** Characters of seven bits do not reach into one another. */
  lemma SevenBitData(bytes: seq<Byte>, signedChar: bool, c: nat, k: nat)
    requires |bytes| == 24 && c < 24 && k < 7
    requires forall d :: 0 <= d < 24 ==> !bytes[d][7]
    ensures DataBit(bytes, signedChar, c / 4 + 1, 24, 25 - 8 * (c % 4) + k) == bytes[c][k]
  {
    var b, m := c / 4 + 1, c % 4;
    var i := 25 - 8 * m + k;
    assert 4 * (b - 1) + m == c && i % 8 != 0;
    hide Promoted;
    forall n | 0 <= n < 4 && 25 - 8 * n <= i
      ensures Promoted(bytes[4 * (b - 1) + n], signedChar)[i - (25 - 8 * n)] == (n == m && bytes[c][k])
    {
      PromotedAt(bytes[4 * (b - 1) + n], signedChar, i - (25 - 8 * n));
    }
  }

  lemma PromotedAt(b: Byte, signedChar: bool, p: nat)
    requires !b[7] && p < 32
    ensures Promoted(b, signedChar)[p] == (p < 7 && b[p])
  {
  }

  lemma ControlAt(s: string, signedChar: bool, blocks: seq<Word>, c: nat)
    requires Coded(s, signedChar, blocks) && c < 24
    ensures |Stream(blocks)| == 224 && Stream(blocks)[39 + 8 * c]
  {
    hide UpdateAll, Padded;
    var p := 39 + 8 * c;
    StreamAt(blocks, p);
    assert p / 32 == c / 4 + 1 && 31 - p % 32 == 24 - 8 * (c % 4);
    assert blocks[p / 32][31 - p % 32] == DataBit(Padded(s), signedChar, p / 32, 24, 31 - p % 32);
  }

  /** What encodePHIDGETS_TAG makes of a string of seven-bit characters is a frame of those characters. */
  lemma CodedIsFrame(s: string, signedChar: bool, blocks: seq<Word>)
    requires Coded(s, signedChar, blocks) && SevenBit(s)
    ensures Frame(Stream(blocks)) && CharBytes(Stream(blocks)) == Padded(s)
  {
    hide UpdateAll, Padded, DataBit;
    var f := Stream(blocks);
    StreamAt(blocks, 0);
    forall c | 0 <= c < 24 ensures f[39 + 8 * c] { ControlAt(s, signedChar, blocks, c); }
    forall c | 0 <= c < 24 ensures CharByte(f, c) == Padded(s)[c] {
      forall k | 0 <= k < 8 ensures CharByte(f, c)[k] == Padded(s)[c][k] {
        if k < 7 { CharBitAt(s, signedChar, blocks, c, k); } else { TopBit(s, c); }
      }
    }
    assert CharBytes(f) == Padded(s);
    forall p | 0 <= p < 32 ensures f[p] == blocks[0][31 - p] { StreamAt(blocks, p); }
    assert Stored(f) == UpdateAll(Zero, Padded(s));
  }

  lemma {:induction false} TerminatedAt(s: string, t: string)
    requires (forall i :: 0 <= i < |s| ==> s[i] != 0 as char) && (t == [] || t[0] == 0 as char)
    ensures Terminated(s + t) == s
  {
    if s == [] {
      assert s + t == t;
    } else {
      assert (s + t)[1..] == s[1..] + t;
      TerminatedAt(s[1..], t);
    }
  }

  lemma CharOfByte(v: nat)
    requires v < 256
    ensures ToByte(CharWord(v)) == v
  {
    assert Pow2(8) == 0x100;
    ToNatFromNat(v, 8);
  }

  lemma PaddedText(s: string)
    requires CString(s) && |s| <= 24
    ensures Terminated(Chars(Padded(s))) == s
  {
    hide ToByte, CharWord;
    var text := Chars(Padded(s));
    forall i | 0 <= i < 24 ensures text[i] == if i < |s| then s[i] else 0 as char {
      CharOfByte(if i < |s| then s[i] as nat else 0);
    }
    assert text == s + text[|s|..];
    TerminatedAt(s, text[|s|..]);
  }

  /** Whatever frame is decoded, the reported text consists of seven-bit characters. */
  lemma TextIsSevenBit(w: seq<bool>)
    requires |w| == 224
    ensures SevenBit(TagText(w))
  {
    forall c | 0 <= c < 24 ensures Chars(CharBytes(w))[c] as nat < 128 {
      SevenBits(CharByte(w, c));
    }
    TerminatedSevenBit(Chars(CharBytes(w)));
  }

  lemma SevenBits(b: Byte)
    requires !b[7]
    ensures ToByte(b) < 128
  {
    assert b == b[..7] + [false];
    ToNatAppend(b[..7], [false]);
    assert ToNat([false]) == 0 by { assert [false][1..] == []; }
    ToNatBound(b[..7]);
    assert Pow2(7) == 128;
  }

  lemma {:induction false} TerminatedSevenBit(s: string)
    requires SevenBit(s)
    ensures SevenBit(Terminated(s))
  {
    if s != [] && s[0] != 0 as char {
      assert forall i :: 0 <= i < |s[1..]| ==> s[1..][i] == s[i + 1];
      TerminatedSevenBit(s[1..]);
    }
  }

  /**
   * Writing and reading back: the blocks of encodePHIDGETS_TAG for a string of seven-bit characters,
   * played back without end and entered at any phase, are found by decodePHIDGETS_TAG with 447 bits
   * queued, and the string written is reported.
   */
  lemma WrittenTagReadsBack(s: string, signedChar: bool, blocks: seq<Word>, phase: nat, ring: Ring<bool>)
    requires CString(s) && SevenBit(s) && Coded(s, signedChar, blocks)
    requires ring.Valid() && ring.Len() > 0
    requires |Stream(blocks)| == 224 && ring.Queue() == Cyclic(Stream(blocks), phase, ring.Len())
    ensures ring.Len() >= 447 ==> Locate(ring).Some?
    ensures Locate(ring).Some? ==> TagText(ring.All()[Locate(ring).value..Locate(ring).value + 224]) == s
  {
    hide Frame, CharBytes, Stream, HeaderOf, DataBit;
    CodedIsFrame(s, signedChar, blocks);
    DecodeRepeatedFrame(Stream(blocks), phase, ring);
    PaddedText(s);
  }

  /** Outside seven-bit text the string written is never the string reported, whatever the ring holds. */
  lemma EightBitNeverReported(s: string, ring: Ring<bool>)
    requires ring.Valid() && !SevenBit(s) && Locate(ring).Some?
    ensures TagText(ring.All()[Locate(ring).value..Locate(ring).value + 224]) != s
  {
    TextIsSevenBit(ring.All()[Locate(ring).value..Locate(ring).value + 224]);
  }
}
