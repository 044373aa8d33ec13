/** Encoding an EM4100 tag string into the two blocks a T5577 tag plays back, and the round trip. */
module Em4100Encode {
  import opened Words
  import opened Rings
  import opened Blocks
  import opened CStrings
  import opened Em4100
  import opened Em4100Sync

  predicate Acceptable(tagString: string) {
    |tagString| == 10 || (|tagString| == 12 && tagString[0] == '0' && tagString[1] == 'x')
  }

  /** Bit k of the frame word once the first i rows of data are in. */
  predicate DataBit(tag: Word, i: nat, k: nat)
    requires |tag| == 64
  {
    k >= 55 || (5 <= k && (54 - k) / 5 < i && (54 - k) % 5 < 4 && tag[39 - 4 * ((54 - k) / 5) - (54 - k) % 5])
  }

  /** The parity of the n lowest bits of nibble m. */
  function NibbleParity(tag: Word, m: nat, n: nat): bool
    requires |tag| == 64 && m < 10
  {
    (((n > 0 && tag[4 * m]) != (n > 1 && tag[4 * m + 1])) != (n > 2 && tag[4 * m + 2])) != (n > 3 && tag[4 * m + 3])
  }

  /** The parity of bit c of the lowest nibbles. */
  function ColumnParity(tag: Word, c: nat, nibbles: nat): bool
    requires |tag| == 64 && c < 4 && nibbles <= 10
  {
    nibbles > 0 && ColumnParity(tag, c, nibbles - 1) != tag[4 * (nibbles - 1) + c]
  }

  /** Bit k of the frame word when the parity loop, counting nibbles by row and bits by col, stands at (row, col). */
  function CodedBit(tag: Word, row: nat, col: nat, k: nat): bool
    requires |tag| == 64 && 1 <= row <= 10 && 1 <= col <= 5 && k < 64
  {
    if 1 <= k <= 4 then ColumnParity(tag, k - 1, if k < col then row else row - 1)
    else if k % 5 == 0 && 5 <= k <= 50 then
      NibbleParity(tag, k / 5 - 1, if k < 5 * row then 4 else if k == 5 * row then col - 1 else 0)
    else DataBit(tag, 10, k)
  }

  predicate Coded(tag: Word, row: nat, col: nat, enc: Word)
    requires |tag| == 64 && 1 <= row <= 10 && 1 <= col <= 5
  {
    |enc| == 64 && forall k :: 0 <= k < 64 ==> enc[k] == CodedBit(tag, row, col, k)
  }

  lemma CodedStart(tag: Word, data: Word)
    requires |tag| == |data| == 64
    requires forall k :: 0 <= k < 64 ==> data[k] == DataBit(tag, 10, k)
    ensures Coded(tag, 1, 1, data)
  {
    forall k | 0 <= k < 64 ensures data[k] == CodedBit(tag, 1, 1, k) {
      assert data[k] == DataBit(tag, 10, k);
    }
  }

  lemma CodedWrap(tag: Word, row: nat, enc: Word)
    requires |tag| == 64 && 1 <= row < 10 && Coded(tag, row, 5, enc)
    ensures Coded(tag, row + 1, 1, enc)
  {
  }

  lemma HeaderWord()
    ensures forall k :: 0 <= k < 64 ==> FromNat(0xFF80000000000000, 64)[k] == (k >= 55)
  {
    PowersOfTwo();
    PowAdd(32, 23);
    RunMask(0xFF80000000000000, 55, 9, 64);
  }

  lemma NibbleMask()
    ensures forall k :: 0 <= k < 64 ==> FromNat(0x0078000000000000, 64)[k] == (51 <= k < 55)
  {
    PowersOfTwo();
    PowAdd(32, 19);
    RunMask(0x0078000000000000, 51, 4, 64);
  }

  lemma OneMask()
    ensures forall k :: 0 <= k < 64 ==> FromNat(1, 64)[k] == (k == 0)
  {
    forall k | 0 <= k < 64 ensures FromNat(1, 64)[k] == (k == 0) { DigitOne(k); }
  }

  /** The data loop. */
  method PlaceData(tagData: Word) returns (enc: Word)
    requires |tagData| == 64
    ensures |enc| == 64
    ensures forall k :: 0 <= k < 64 ==> enc[k] == DataBit(tagData, 10, k)
  {
    HeaderWord();
    NibbleMask();
    enc := FromNat(0xFF80000000000000, 64);
    var mask: Word := FromNat(0x0078000000000000, 64);
    var i, j := 0, 15;
    while i < 10
      invariant 0 <= i <= 10 && j == 15 - i && |enc| == |mask| == 64
      invariant forall k :: 0 <= k < 64 ==> mask[k] == (51 - 5 * i <= k < 55 - 5 * i)
      invariant forall k :: 0 <= k < 64 ==> enc[k] == DataBit(tagData, i, k)
    {
      enc := Or(enc, And(Shl(tagData, j), mask));
      i, j, mask := i + 1, j - 1, Shr(mask, 5);
    }
  }

  /** The parity loop. */
  method AddParity(tagData: Word, data: Word) returns (enc: Word)
    requires |tagData| == |data| == 64
    requires forall k :: 0 <= k < 64 ==> data[k] == DataBit(tagData, 10, k)
    ensures Coded(tagData, 10, 5, enc)
  {
    hide DataBit, ColumnParity, NibbleParity;
    CodedStart(tagData, data);
    enc := data;
    var rest := tagData;
    var i, row, col := 0, 1, 1;
    while i < 40
      invariant 0 <= i <= 40 && 1 <= row <= 10 && 1 <= col <= 5 && i == 4 * (row - 1) + (col - 1)
      invariant |rest| == 64 && forall k :: 0 <= k < 64 - i ==> rest[k] == tagData[k + i]
      invariant Coded(tagData, row, col, enc)
    {
      if col > 4 {
        CodedWrap(tagData, row, enc);
        col, row := 1, row + 1;
      }
      enc := AddBit(tagData, rest, enc, i, row, col);
      rest := Sar(rest, 1);
      i, col := i + 1, col + 1;
    }
  }

  /** One bit goes into its column's and its row's parity. */
  method AddBit(ghost tagData: Word, rest: Word, before: Word, ghost i: nat, row: nat, col: nat) returns (enc: Word)
    requires |tagData| == |rest| == 64
    requires 1 <= row <= 10 && 1 <= col <= 4 && i == 4 * (row - 1) + (col - 1) && rest[0] == tagData[i]
    requires Coded(tagData, row, col, before)
    ensures Coded(tagData, row, col + 1, enc)
  {
    hide CodedBit, FromNat;
    OneMask();
    var bit := And(rest, FromNat(1, 64));
    assert |bit| == 64 && forall k :: 0 <= k < 64 ==> bit[k] == (k == 0 && tagData[i]);
    enc := Xor(before, Shl(bit, col));
    enc := Xor(enc, Shl(bit, row * 5));
    forall k | 0 <= k < 64 ensures enc[k] == CodedBit(tagData, row, col + 1, k) {
      assert enc[k] == (before[k] != ((k == col || k == row * 5) && tagData[i]));
      CodedStep(tagData, row, col, k);
    }
  }

  lemma CodedStep(tag: Word, row: nat, col: nat, k: nat)
    requires |tag| == 64 && 1 <= row <= 10 && 1 <= col <= 4 && k < 64
    ensures CodedBit(tag, row, col + 1, k) ==
      (CodedBit(tag, row, col, k) != ((k == col || k == row * 5) && tag[4 * (row - 1) + (col - 1)]))
  {
    hide DataBit;
  }

  /** encodeEM4100: two 32-bit blocks. */
  method Encode(tagString: string, blockDataLen: int) returns (status: Status, blocks: seq<Word>)
    ensures status == if blockDataLen >= 2 && Acceptable(tagString) then Ok else InvalidArg
    ensures status == Ok ==>
      && |blocks| == 2 && |blocks[0]| == 32 && |blocks[1]| == 32
      && Frame(Stream(blocks))
      && Payload(Stream(blocks)) == TagBits(tagString)
  {
    if blockDataLen < 2 { return InvalidArg, []; }
    if |tagString| != 10 {
      if !(|tagString| == 12 && tagString[0] == '0' && tagString[1] == 'x') { return InvalidArg, []; }
    }
    var tagData := FromInt(Strtoll(tagString, 16), 64);
    var data := PlaceData(tagData);
    var enc := AddParity(tagData, data);
    blocks := Halves(enc);
    StreamOfHalves(enc, []);
    assert Halves(enc) + [] == Halves(enc) && Msb(enc) + [] == Msb(enc);
    CodedWordIsFrame(tagData, enc);
    return Ok, blocks;
  }

  /** The low 40 bits of the number a tag string denotes, most significant first. */
  function TagBits(tagString: string): (d: seq<bool>)
    ensures |d| == 40
  {
    Msb(FromInt(Strtoll(tagString, 16), 64)[..40])
  }

  lemma CodedWordIsFrame(tag: Word, enc: Word)
    requires |tag| == 64 && Coded(tag, 10, 5, enc)
    ensures Frame(Msb(enc)) && Payload(Msb(enc)) == Msb(tag[..40])
  {
    var f := Msb(enc);
    forall i | 0 <= i < 10 ensures RowOk(f, i) { CodedRow(tag, enc, i); }
    forall c | 0 <= c < 4 ensures ColumnOk(f, c) {
      ColumnSums(tag, enc, c, 10);
      assert f[59 + c] == enc[4 - c];
    }
    forall i | 0 <= i < 40 ensures Payload(f)[i] == Msb(tag[..40])[i] {
      DataAt(tag, enc, i / 4, i % 4);
    }
  }

  lemma DataAt(tag: Word, enc: Word, r: nat, c: nat)
    requires |tag| == 64 && Coded(tag, 10, 5, enc) && r < 10 && c < 4
    ensures Msb(enc)[9 + 5 * r + c] == tag[39 - 4 * r - c]
  {
    assert (54 - (54 - 5 * r - c)) / 5 == r;
  }

  lemma CodedRow(tag: Word, enc: Word, r: nat)
    requires |tag| == 64 && Coded(tag, 10, 5, enc) && r < 10
    ensures RowOk(Msb(enc), r)
  {
    hide Coded, CodedBit, Msb;
    DataAt(tag, enc, r, 0);
    DataAt(tag, enc, r, 1);
    DataAt(tag, enc, r, 2);
    DataAt(tag, enc, r, 3);
    RowParityAt(tag, enc, r);
  }

  lemma RowParityAt(tag: Word, enc: Word, r: nat)
    requires |tag| == 64 && Coded(tag, 10, 5, enc) && r < 10
    ensures Msb(enc)[9 + 5 * r + 4] ==
      (((tag[39 - 4 * r] != tag[38 - 4 * r]) != tag[37 - 4 * r]) != tag[36 - 4 * r])
  {
    hide DataBit, ColumnParity;
    var k := 50 - 5 * r;
    assert k % 5 == 0 && k / 5 - 1 == 9 - r;
    assert Msb(enc)[9 + 5 * r + 4] == enc[k] == NibbleParity(tag, 9 - r, 4);
  }

  lemma {:induction false} ColumnSums(tag: Word, enc: Word, c: nat, k: nat)
    requires |tag| == 64 && Coded(tag, 10, 5, enc) && c < 4 && k <= 10
    ensures ColumnParity(tag, 3 - c, 10) == (ColumnParity(tag, 3 - c, 10 - k) != ColumnSum(Msb(enc), c, k))
  {
    assert |Msb(enc)| == 64;
    hide Coded, CodedBit, Msb;
    if k > 0 {
      ColumnSums(tag, enc, c, k - 1);
      DataAt(tag, enc, k - 1, c);
      assert Msb(enc)[9 + c + 5 * (k - 1)] == tag[4 * (10 - k) + (3 - c)];
    }
  }

  // ----- the text

  function HexDigit(v: nat): (c: char)
    requires v < 16
    ensures '0' <= c <= '9' || 'a' <= c <= 'f'
  {
    if v < 10 then '0' + v as char else 'a' + (v - 10) as char
  }

  function BitValue(b: bool): nat { if b then 1 else 0 }

  function Nibble(d: seq<bool>, p: nat): (v: nat)
    requires p + 4 <= |d|
    ensures v < 16
  {
    8 * BitValue(d[p]) + 4 * BitValue(d[p + 1]) + 2 * BitValue(d[p + 2]) + BitValue(d[p + 3])
  }

  /** The text of 40 data bits: ten hex digits. */
  function TagText(d: seq<bool>): (s: string)
    requires |d| == 40
    ensures |s| == 10
  {
    seq(10, n requires 0 <= n < 10 => HexDigit(Nibble(d, 4 * n)))
  }

  /** printf("%02x%02x%02x%02x%02x") of the five bytes. */
  function HexText(bytes: seq<Word>): (s: string)
    requires |bytes| == 5 && forall b :: 0 <= b < 5 ==> |bytes[b]| == 8
    ensures |s| == 10
  {
    seq(10, n requires 0 <= n < 10 => HexDigit(Nibble(Msb(bytes[n / 2]), 4 * (n % 2))))
  }

  lemma TextOfBytes(bytes: seq<Word>, d: seq<bool>)
    requires Holds(bytes, d)
    ensures HexText(bytes) == TagText(d)
  {
    hide Nibble, HexDigit;
    forall n | 0 <= n < 10 ensures HexText(bytes)[n] == TagText(d)[n] {
      HeldNibble(bytes, d, n / 2, n % 2);
    }
  }

  lemma HeldNibble(bytes: seq<Word>, d: seq<bool>, b: nat, half: nat)
    requires Holds(bytes, d) && b < 5 && half < 2
    ensures Nibble(Msb(bytes[b]), 4 * half) == Nibble(d, 4 * (2 * b + half))
  {
    NibbleOfSlice(d, 8 * b, 4 * half);
  }

  lemma NibbleOfSlice(d: seq<bool>, lo: nat, p: nat)
    requires lo + 8 <= |d| && p <= 4
    ensures Nibble(d[lo..lo + 8], p) == Nibble(d, lo + p)
  {
  }

  predicate LowerHex(s: string) {
    forall i :: 0 <= i < |s| ==> '0' <= s[i] <= '9' || 'a' <= s[i] <= 'f'
  }

  function Lower(s: string): string {
    seq(|s|, i requires 0 <= i < |s| =>
      if 'A' <= s[i] <= 'Z' then 'a' + (s[i] - 'A') else s[i])
  }

  /** The hex digits of a tag string, without the 0x. */
  function HexPart(tagString: string): string
    requires Acceptable(tagString)
  {
    if |tagString| == 12 then tagString[2..] else tagString
  }

  lemma {:induction false} MagnitudeDigit(s: string, k: nat)
    requires Digits(s, 16) && k < 4 * |s|
    ensures Digit(Magnitude(s, 16, 0), k) == Digit(DigitValue(s[|s| - 1 - k / 4]), k % 4)
  {
    var t, c := s[..|s| - 1], s[|s| - 1];
    assert s == t + [c];
    MagnitudeSnoc(t, c, 16, 0);
    assert Pow2(4) == 16;
    DigitAppend(Magnitude(t, 16, 0), DigitValue(c), 4, k);
    if k >= 4 {
      MagnitudeDigit(t, k - 4);
      assert (k - 4) / 4 == k / 4 - 1 && (k - 4) % 4 == k % 4;
    }
  }

  /** The data bits of a written tag are the bits of its hex digits in order. */
  lemma TagBitsOfHex(tagString: string, n: nat, j: nat)
    requires Acceptable(tagString) && Digits(HexPart(tagString), 16) && n < 10 && j < 4
    ensures TagBits(tagString)[4 * n + j] == Digit(DigitValue(HexPart(tagString)[n]), 3 - j)
  {
    hide Digit, Magnitude;
    var s := HexPart(tagString);
    var v := Magnitude(s, 16, 0);
    assert Strtoll(tagString, 16) == v by {
      if |tagString| == 10 {
        StrtollOfDigits(s, 16);
      } else {
        assert DigitValue(s[0]) < 16 && s[0] == tagString[2];
      }
    }
    var k := 39 - 4 * n - j;
    assert TagBits(tagString)[4 * n + j] == FromInt(v, 64)[k];
    DigitOfInt(v, k);
    MagnitudeDigit(s, k);
    assert 9 - k / 4 == n && k % 4 == 3 - j;
  }

  lemma BitsOfNibble(v: nat)
    requires v < 16
    ensures v == 8 * BitValue(Digit(v, 3)) + 4 * BitValue(Digit(v, 2)) + 2 * BitValue(Digit(v, 1))
                 + BitValue(Digit(v, 0))
  {
    assert Digit(v, 1) == (v / 2 % 2 == 1);
    assert Digit(v, 2) == (v / 2 / 2 % 2 == 1);
    assert Digit(v, 3) == (v / 2 / 2 / 2 % 2 == 1);
  }

  lemma NibbleIs(d: seq<bool>, p: nat, v: nat)
    requires p + 4 <= |d| && v < 16
    requires d[p] == Digit(v, 3) && d[p + 1] == Digit(v, 2) && d[p + 2] == Digit(v, 1) && d[p + 3] == Digit(v, 0)
    ensures Nibble(d, p) == v
  {
    BitsOfNibble(v);
  }

  lemma NibbleOfHex(tagString: string, n: nat)
    requires Acceptable(tagString) && Digits(HexPart(tagString), 16) && n < 10
    ensures Nibble(TagBits(tagString), 4 * n) == DigitValue(HexPart(tagString)[n])
  {
    hide TagBits, Nibble, Digit;
    TagBitsOfHex(tagString, n, 0);
    TagBitsOfHex(tagString, n, 1);
    TagBitsOfHex(tagString, n, 2);
    TagBitsOfHex(tagString, n, 3);
    NibbleIs(TagBits(tagString), 4 * n, DigitValue(HexPart(tagString)[n]));
  }

  /** The text the reader reports for a written tag: its hex digits in lower case. */
  lemma ReportedText(tagString: string)
    requires Acceptable(tagString) && Digits(HexPart(tagString), 16)
    ensures TagText(TagBits(tagString)) == Lower(HexPart(tagString))
  {
    forall n | 0 <= n < 10 ensures TagText(TagBits(tagString))[n] == Lower(HexPart(tagString))[n] {
      NibbleOfHex(tagString, n);
      LowerDigit(HexPart(tagString)[n]);
    }
  }

  lemma LowerDigit(c: char)
    requires DigitValue(c) < 16
    ensures HexDigit(DigitValue(c)) == if 'A' <= c <= 'Z' then 'a' + (c - 'A') else c
  {
  }

  lemma TextIsLowerHex(d: seq<bool>)
    requires |d| == 40
    ensures LowerHex(TagText(d))
  {
  }

  /** The report is the very string that was written just when that is ten lower-case hex digits. */
  lemma ReportedVerbatim(tagString: string)
    requires Acceptable(tagString)
    ensures TagText(TagBits(tagString)) == tagString <==> |tagString| == 10 && LowerHex(tagString)
  {
    if |tagString| == 10 && LowerHex(tagString) {
      ReportedText(tagString);
      assert Lower(tagString) == tagString;
    }
    TextIsLowerHex(TagBits(tagString));
  }

  /**
   * Writing and reading back: whatever blocks encodeEM4100 delivers, played back without end and
   * entered at any phase, decodeEM4100 finds with 127 bits queued, and then reports the digits written.
   */
  lemma WrittenTagReadsBack(tagString: string, blocks: seq<Word>, phase: nat, ring: Ring<bool>)
    requires Acceptable(tagString) && Digits(HexPart(tagString), 16)
    requires Frame(Stream(blocks)) && Payload(Stream(blocks)) == TagBits(tagString)
    requires ring.Valid() && ring.Len() > 0 && ring.Queue() == Cyclic(Stream(blocks), phase, ring.Len())
    ensures ring.Len() >= 127 ==> Locate(ring).Some?
    ensures Locate(ring).Some? ==>
      TagText(Payload(ring.All()[Locate(ring).value..Locate(ring).value + 64])) == Lower(HexPart(tagString))
  {
    DecodeRepeatedFrame(Stream(blocks), phase, ring);
    if Locate(ring).Some? { ReportedText(tagString); }
  }
}
