/** Writing a tag: blocks into commands, commands into radio packets, and the tag that obeys them. */
module T5577 {
  import opened Modulo
  import opened Words
  import opened Blocks
  import opened CStrings
  import opened Receiver
  import Em4100
  import Em4100Encode
  import FdxB
  import FdxBEncode
  import PhidgetTagEncode

  // ----- sendRAWData

  predicate Packet(p: seq<Word>) { |p| == 8 && Bytes(p) && ToNat(p[0]) <= 56 }

  predicate Packets(ps: seq<seq<Word>>) { forall k :: 0 <= k < |ps| ==> Packet(ps[k]) }

  /** The bits a data packet carries: as many as its first byte says. */
  function Carried(p: seq<Word>): seq<bool>
    requires Packet(p)
  {
    StreamLength(p[1..]);
    Stream(p[1..])[..ToNat(p[0])]
  }

  function Received(ps: seq<seq<Word>>): seq<bool>
    requires Packets(ps)
  {
    if ps == [] then [] else Received(ps[..|ps| - 1]) + Carried(ps[|ps| - 1])
  }

  lemma ReceivedMore(ps: seq<seq<Word>>, p: seq<Word>)
    requires Packets(ps) && Packet(p)
    ensures Packets(ps + [p]) && Received(ps + [p]) == Received(ps) + Carried(p)
  {
    assert (ps + [p])[..|ps|] == ps;
  }

  /** A packet with the bytes from s on carries that part of the stream. */
  lemma CarriesSlice(p: seq<Word>, data: seq<Word>, s: nat, e: nat, bits: nat)
    requires |p| == 8 && Bytes(p) && Bytes(data) && s <= e <= |data| && e - s <= 7 && p[1..1 + e - s] == data[s..e]
    requires bits <= 8 * (e - s) && p[0] == FromNat(bits, 8)
    ensures Packet(p) && 8 * s + bits <= |Stream(data)| && Carried(p) == Stream(data)[8 * s..8 * s + bits]
  {
    hide Stream;
    PowersOfTwo();
    ToNatFromNat(bits, 8);
    StreamSlice(data, s, e);
    StreamSlice(p[1..], 0, e - s);
    assert p[1..][0..e - s] == p[1..1 + e - s];
    assert Stream(p[1..])[..bits] == Stream(p[1..])[0..8 * (e - s)][..bits];
    assert Stream(data)[8 * s..8 * s + bits] == Stream(data)[8 * s..8 * e][..bits];
  }

  /** The buffer goes out, with the number of bits in front. */
  method Flush(buffer: array<Word>, bits: nat, packets: seq<seq<Word>>, ghost data: seq<Word>, ghost s: nat,
      ghost e: nat) returns (more: seq<seq<Word>>)
    requires buffer.Length == 10 && Bytes(buffer[..]) && Bytes(data) && |Stream(data)| == 8 * |data|
    requires s <= e <= |data| && e - s <= 7 && buffer[1..1 + e - s] == data[s..e] && bits <= 8 * (e - s)
    requires Packets(packets) && Received(packets) == Stream(data)[..8 * s]
    modifies buffer
    ensures Bytes(buffer[..]) && Packets(more) && |more| == |packets| + 1
    ensures Received(more) == Stream(data)[..8 * s + bits]
  {
    hide Stream, Carried, Received;
    buffer[0] := FromNat(bits, 8);
    var p := buffer[..8];
    assert p[1..1 + e - s] == buffer[1..1 + e - s];
    CarriesSlice(p, data, s, e, bits);
    ReceivedMore(packets, p);
    more := packets + [p];
  }

  method Store(buffer: array<Word>, j: nat, ghost data: seq<Word>, ghost s: nat, w: Word)
    requires buffer.Length == 10 && Bytes(buffer[..]) && Bytes(data) && 1 <= j <= 7 && s + j - 1 < |data|
    requires buffer[1..j] == data[s..s + j - 1] && w == data[s + j - 1]
    modifies buffer
    ensures Bytes(buffer[..]) && buffer[1..j + 1] == data[s..s + j]
  {
    buffer[j] := w;
  }

  /** How many packets it takes to send so many bits. */
  function PacketCount(bitlength: nat): nat { (Length(bitlength) + 6) / 7 }

  function Length(bitlength: nat): (n: nat)
    ensures bitlength <= 8 * n < bitlength + 8
  {
    bitlength / 8 + (if bitlength % 8 != 0 then 1 else 0)
  }

  /** Bytes before i are in packets or in the buffer, which holds j - 1 of them. */
  ghost predicate Midway(buffer: seq<Word>, data: seq<Word>, bitlength: nat, packets: seq<seq<Word>>,
      i: nat, j: nat, bits: nat, left: nat)
  {
    && |buffer| == 10 && Bytes(buffer) && Bytes(data) && Packets(packets)
    && bitlength <= 8 * |data| == |Stream(data)| && Length(bitlength) <= |data|
    && Progress(i, j, |packets|, Length(bitlength)) && buffer[1..j] == data[i - (j - 1)..i]
    && (i < Length(bitlength) ==> left == bitlength - 8 * i && bits == 8 * (j - 1))
    && Received(packets) == Stream(data)[..Least(56 * |packets|, bitlength)]
  }

  lemma NothingSent(buffer: seq<Word>, data: seq<Word>, bitlength: nat)
    requires Bytes(data) && bitlength <= 8 * |data|
    requires |buffer| == 10 && forall k :: 0 <= k < |buffer| ==> buffer[k] == FromNat(0, 8)
    ensures Midway(buffer, data, bitlength, [], 0, 1, 0, bitlength)
  {
    hide Stream, Carried;
    StreamLength(data);
    NothingReceived(buffer);
  }

  /** The next byte goes into the buffer, and when that is full or the data ends, the buffer goes out. */
  method NextByte(buffer: array<Word>, data: seq<Word>, ghost bitlength: nat, length: nat, packets: seq<seq<Word>>,
      refused: nat, i: nat, j: nat, bits: nat, left: nat)
    returns (accepted: bool, more: seq<seq<Word>>, k: nat, filled: nat, rest: nat)
    requires Midway(buffer[..], data, bitlength, packets, i, j, bits, left) && i < length == Length(bitlength)
    requires |packets| <= refused
    modifies buffer
    ensures accepted ==> Midway(buffer[..], data, bitlength, more, i + 1, k, filled, rest) && |more| <= refused
    ensures !accepted ==> more == packets && |packets| == refused < PacketCount(bitlength)
  {
    hide Stream, Carried, Received, Packets;
    Store(buffer, j, data, i - (j - 1), data[i]);
    filled, rest := bits + Least(left, 8), left - Least(left, 8);
    if j == 7 || i == length - 1 {
      PacketFull(i, j, filled, rest, |packets|, length, bitlength);
      if |packets| == refused { return false, packets, j, filled, rest; }
      more := Flush(buffer, filled, packets, data, i + 1 - j, i + 1);
      return true, more, 1, 0, rest;
    }
    return true, packets, j + 1, filled, rest;
  }

  /**
   * sendRAWData: the first bits of the data, in order, in packets of up to 56; sendpacket refuses the packet of the
   * given number, if there are so many, and then nothing more is sent.
   */
  method SendRawData(data: seq<Word>, bitlength: nat, refused: nat) returns (status: Status, packets: seq<seq<Word>>)
    requires Bytes(data) && bitlength <= 8 * |data|
    ensures status == if bitlength > 0xff * 8 then InvalidArg
                      else if refused < PacketCount(bitlength) then NotSent else Ok
    ensures |Stream(data)| == 8 * |data| && Packets(packets)
    ensures bitlength <= 0xff * 8 ==> |packets| == Least(refused, PacketCount(bitlength))
    ensures Received(packets) == Stream(data)[..Least(56 * |packets|, bitlength)]
  {
    hide Stream, Carried, Received, Bytes, Packets;
    packets := [];
    var buffer := new Word[10](_ => FromNat(0, 8));
    NothingSent(buffer[..], data, bitlength);
    var length := bitlength / 8 + (if bitlength % 8 != 0 then 1 else 0);
    if length > 0xff { return InvalidArg, []; }
    var i, j, bits, left := 0, 1, 0, bitlength;
    while i < length
      invariant i <= length && Midway(buffer[..], data, bitlength, packets, i, j, bits, left) && |packets| <= refused
    {
      var accepted;
      accepted, packets, j, bits, left := NextByte(buffer, data, bitlength, length, packets, refused, i, j, bits, left);
      if !accepted { return NotSent, packets; }
      i := i + 1;
    }
    return Ok, packets;
  }

  /** When a packet goes out it holds all that is due to it. */
  lemma PacketFull(i: nat, j: nat, bits: nat, left: nat, sent: nat, length: nat, bitlength: nat)
    requires i < length == Length(bitlength) && Progress(i, j, sent, length) && (j == 7 || i == length - 1)
    requires bitlength - 8 * i < 8 ==> bits == 8 * (j - 1) + (bitlength - 8 * i) && left == 0
    requires bitlength - 8 * i >= 8 ==> bits == 8 * j && left == bitlength - 8 * (i + 1)
    ensures Progress(i + 1, 1, sent + 1, length)
    ensures 8 * (i + 1 - j) == 56 * sent
    ensures 8 * (i + 1 - j) + bits == Least(56 * (sent + 1), bitlength) && bits <= 8 * j
  {
    if i == length - 1 {
      ModuloUnique(sent + 1, length + 6, j - 1, 7);
    }
  }

  /** Seven bytes to a packet, and the rest to the last one. */
  predicate Progress(i: nat, j: nat, sent: nat, length: nat) {
    i <= length && 1 <= j <= 7 && if i < length then i == 7 * sent + j - 1 else j == 1 && sent == (length + 6) / 7
  }

  lemma NothingReceived(buffer: seq<Word>)
    requires forall k :: 0 <= k < |buffer| ==> buffer[k] == FromNat(0, 8)
    ensures Packets([]) && Received([]) == [] && Bytes(buffer)
  {
  }

  // ----- T5577_WriteBlock

  /** What the tag is told: opcode and page, lock, 32 bits of data, three bits of block number. */
  function Command(page: bool, lock: bool, data: Word, block: nat): (c: seq<bool>)
    requires |data| == 32
    ensures |c| == 38
  {
    [true, page, lock] + Msb(data) + Msb(FromNat(block, 3))
  }

  lemma Masks()
    ensures forall k :: 0 <= k < 8 ==> FromNat(0x80, 8)[k] == (k == 7)
    ensures forall k :: 0 <= k < 8 ==> FromNat(0xC0, 8)[k] == (k >= 6)
    ensures forall k :: 0 <= k < 8 ==> FromNat(0x20, 8)[k] == (k == 5)
    ensures forall k :: 0 <= k < 8 ==> !FromNat(0, 8)[k]
    ensures forall k :: 0 <= k < 32 ==> FromNat(0x1F, 32)[k] == (k < 5)
    ensures forall k :: 0 <= k < 32 ==> FromNat(0xFF, 32)[k] == (k < 8)
    ensures forall k :: 0 <= k < 32 ==> FromNat(0xE0, 32)[k] == (5 <= k < 8)
    ensures forall k :: 0 <= k < 8 ==> FromNat(7, 8)[k] == (k < 3)
  {
    assert Pow2(1) == 2 && Pow2(2) == 4 && Pow2(3) == 8 && Pow2(5) == 32 && Pow2(6) == 64 && Pow2(7) == 128;
    assert Pow2(8) == 256;
    RunMask(0x80, 7, 1, 8);
    RunMask(0xC0, 6, 2, 8);
    RunMask(0x20, 5, 1, 8);
    RunMask(0, 0, 0, 8);
    RunMask(0x1F, 0, 5, 32);
    RunMask(0xFF, 0, 8, 32);
    RunMask(0xE0, 5, 3, 32);
    RunMask(7, 0, 3, 8);
  }

  /** The low byte of data >> n. */
  method ByteAt(data: Word, n: nat) returns (w: Word)
    requires |data| == 32 && n <= 24
    ensures |w| == 8 && Msb(w) == Msb(data)[24 - n..32 - n]
  {
    Masks();
    w := And(Shr(data, n), FromNat(0xFF, 32))[..8];
  }

  method FirstByte(page: nat, lock: bool, data: Word) returns (w: Word)
    requires |data| == 32
    ensures |w| == 8 && Msb(w) == [true, page % 2 == 1, lock] + Msb(data)[..5]
  {
    Masks();
    w := FromNat(if page % 2 == 1 then 0xC0 else 0x80, 8);
    w := Or(w, FromNat(if lock then 0x20 else 0, 8));
    w := Or(w, And(Shr(data, 27), FromNat(0x1F, 32))[..8]);
  }

  method LastByte(data: Word, block: nat) returns (w: Word)
    requires |data| == 32
    ensures |w| == 8 && Msb(w)[..6] == Msb(data)[29..] + Msb(FromNat(block, 3))
  {
    Masks();
    w := And(Shl(data, 5), FromNat(0xE0, 32))[..8];
    w := Or(w, Shl(And(FromNat(block, 8), FromNat(7, 8)), 2));
  }

  lemma StreamOfFive(a: Word, b: Word, c: Word, d: Word, e: Word)
    ensures Stream([a, b, c, d, e]) == Msb(a) + Msb(b) + Msb(c) + Msb(d) + Msb(e)
  {
    assert Stream([e]) == Msb(e);
    assert Stream([d, e]) == Msb(d) + Msb(e);
    assert Stream([c, d, e]) == Msb(c) + (Msb(d) + Msb(e));
    assert Stream([b, c, d, e]) == Msb(b) + (Msb(c) + (Msb(d) + Msb(e)));
  }

  lemma MsbLength(w: Word)
    ensures |Msb(w)| == |w|
  {
  }

  /** What becomes of one call of writeRaw: is the timing packet accepted, and which data packet is refused. */
  datatype Delivery = Delivery(timing: bool, refused: nat)

  /** writeRaw: only a refused timing packet is reported; whether the data went out, the caller does not learn. */
  method WriteRaw(data: seq<Word>, bitlength: nat, d: Delivery) returns (status: Status, packets: seq<seq<Word>>)
    requires Bytes(data) && bitlength <= 8 * |data| && bitlength <= 0xff * 8
    ensures status == if d.timing then Ok else NotSent
    ensures |Stream(data)| == 8 * |data| && Packets(packets)
    ensures |packets| == if d.timing then Least(d.refused, PacketCount(bitlength)) else 0
    ensures Received(packets) == Stream(data)[..Least(56 * |packets|, bitlength)]
  {
    hide Stream, Carried, Received, Packets, Bytes;
    StreamLength(data);
    NothingReceived([]);
    if !d.timing { return NotSent, []; }
    var _, sent := SendRawData(data, bitlength, d.refused);
    return Ok, sent;
  }

  /** A command of one data packet reaches the tag. */
  predicate Arrives(d: Delivery) { d.timing && d.refused > 0 }

  /** T5577_WriteBlock: one command in one radio packet. */
  method WriteBlock(page: nat, block: nat, data: Word, lockPage: bool, d: Delivery)
    returns (status: Status, packets: seq<seq<Word>>)
    requires |data| == 32
    ensures status == (if d.timing then Ok else NotSent) && Packets(packets)
    ensures Received(packets) == if Arrives(d) then Command(page % 2 == 1, lockPage, data, block) else []
  {
    hide Msb, FromNat, Stream, Received, Packets;
    var b0 := FirstByte(page, lockPage, data);
    var b1 := ByteAt(data, 19);
    var b2 := ByteAt(data, 11);
    var b3 := ByteAt(data, 3);
    var b4 := LastByte(data, block);
    StreamOfFive(b0, b1, b2, b3, b4);
    status, packets := WriteRaw([b0, b1, b2, b3, b4], 38, d);
    if Arrives(d) {
      assert Received(packets) == Command(page % 2 == 1, lockPage, data, block) by {
        MsbLength(data);
        MsbLength(FromNat(block, 3));
        MsbLength(b4);
        Pieces(Msb(data), [true, page % 2 == 1, lockPage], Msb(FromNat(block, 3)), Msb(b4));
      }
    }
  }

  lemma Pieces(d: seq<bool>, head: seq<bool>, tail: seq<bool>, last: seq<bool>)
    requires |d| == 32 && |head| == 3 && |tail| == 3 && |last| == 8 && last[..6] == d[29..] + tail
    ensures (head + d[..5] + d[5..13] + d[13..21] + d[21..29] + last)[..38] == head + d + tail
  {
    var s := head + d[..5] + d[5..13] + d[13..21] + d[21..29];
    assert s == head + d[..29];
    assert (s + last)[..38] == s + last[..6];
    assert d[..29] + d[29..] == d;
  }

  // ----- the tag

  /** Eight blocks of page 0, and which of them are locked. */
  datatype Card = Card(blocks: seq<Word>, locked: seq<bool>) {
    predicate Valid() { |blocks| == 8 && |locked| == 8 && forall n :: 0 <= n < 8 ==> |blocks[n]| == 32 }
  }

  /** A write command for page 0 stores its block, unless that is locked; anything else changes nothing. */
  function Obey(card: Card, c: seq<bool>): (r: Card)
    requires card.Valid()
    ensures r.Valid()
  {
    if |c| == 38 && c[0] && !c[1] then
      var n := ToNat(Msb(c[35..38]));
      ToNatBound(Msb(c[35..38]));
      if n >= 8 || card.locked[n] then card
      else Card(card.blocks[n := Msb(c[3..35])], card.locked[n := c[2]])
    else card
  }

  lemma ObeyCommand(card: Card, lock: bool, data: Word, block: nat)
    requires card.Valid() && |data| == 32 && block < 8
    ensures Obey(card, Command(false, lock, data, block)) ==
      if card.locked[block] then card else Card(card.blocks[block := data], card.locked[block := lock])
  {
    var c := Command(false, lock, data, block);
    assert c[35..38] == Msb(FromNat(block, 3)) && c[3..35] == Msb(data);
    MsbMsb(FromNat(block, 3));
    MsbMsb(data);
    assert Pow2(3) == 8;
    ToNatFromNat(block, 3);
  }

  function ObeyAll(card: Card, commands: seq<seq<seq<Word>>>): (r: Card)
    requires card.Valid() && forall k :: 0 <= k < |commands| ==> Packets(commands[k])
    ensures r.Valid()
  {
    if commands == [] then card
    else Obey(ObeyAll(card, commands[..|commands| - 1]), Received(commands[|commands| - 1]))
  }

  /** The number of blocks a tag plays back over and over, in its configuration block. */
  function MaxBlock(config: Word): nat
    requires |config| == 32
  {
    ToNat(config[5..8])
  }

  /** What a tag sends in each round. */
  function Playback(card: Card): seq<bool>
    requires card.Valid()
  {
    ToNatBound(card.blocks[0][5..8]);
    assert Pow2(3) == 8;
    Stream(card.blocks[1..1 + MaxBlock(card.blocks[0])])
  }

  function Config(protocol: Protocol): nat {
    match protocol
    case EM4100 => 0x00148040
    case ISO11785_FDX_B => 0x603F8080
    case PHIDGETS => 0x603F80E0
  }

  function BlockCount(protocol: Protocol): (n: nat)
    ensures n <= 7
  {
    match protocol case EM4100 => 2 case ISO11785_FDX_B => 4 case PHIDGETS => 7
  }

  /** How a tag codes its bits: five bits of the configuration. */
  datatype Coding = Manchester | DifferentialBiphase | OtherCoding

  function CodingOf(config: Word): Coding
    requires |config| == 32
  {
    match ToNat(config[12..17]) case 8 => Manchester case 24 => DifferentialBiphase case _ => OtherCoding
  }

  /** The clocks a tag takes for one bit: one of eight lengths, or in the extended mode any even number up to 128. */
  function BitClocks(config: Word): nat
    requires |config| == 32
  {
    if config[17] then 2 * ToNat(config[18..24]) + 2
    else match ToNat(config[18..21])
         case 0 => 8 case 1 => 16 case 2 => 32 case 3 => 40 case 4 => 50 case 5 => 64 case 6 => 100 case _ => 128
  }

  lemma FieldDigit(high: nat, value: nat, low: nat, lo: nat, len: nat, k: nat)
    requires value < Pow2(len) && low < Pow2(lo) && k < len
    ensures Digit((high * Pow2(len) + value) * Pow2(lo) + low, lo + k) == Digit(value, k)
  {
    hide Digit, Pow2;
    DigitAppend(high * Pow2(len) + value, low, lo, lo + k);
    DigitAppend(high, value, len, k);
  }

  lemma Field(n: nat, high: nat, value: nat, low: nat, lo: nat, len: nat)
    requires value < Pow2(len) && low < Pow2(lo) && lo + len <= 32 && n == (high * Pow2(len) + value) * Pow2(lo) + low
    ensures ToNat(FromNat(n, 32)[lo..lo + len]) == value
  {
    hide Digit, Pow2, ToNat;
    forall k | 0 <= k < len ensures FromNat(n, 32)[lo + k] == FromNat(value, len)[k] {
      FieldDigit(high, value, low, lo, len, k);
    }
    assert FromNat(n, 32)[lo..lo + len] == FromNat(value, len);
    ToNatFromNat(value, len);
  }

  /**
   * Each configuration asks for just the blocks its encoder delivers, for the coding that its reader side decodes, and
   * for a bit length whose half is also a length that the reader knows.
   */
  lemma ConfigFields(protocol: Protocol)
    ensures var w := FromNat(Config(protocol), 32);
      && MaxBlock(w) == BlockCount(protocol)
      && CodingOf(w) == (if protocol == EM4100 then Manchester else DifferentialBiphase)
      && BitClocks(w) == (if protocol == EM4100 then 64 else 32)
  {
    ConfigPowers();
    hide Pow2, ToNat, FromNat;
    var n := Config(protocol);
    ExtendedBit(FromNat(n, 32));
    match protocol
    case EM4100 =>
      Field(n, 0x1480, 2, 0, 5, 3);
      Field(n, 0xA, 8, 0x40, 12, 5);
      Field(n, 0x5, 0, 0x8040, 17, 1);
      Field(n, 0x0, 5, 0x8040, 18, 3);
    case ISO11785_FDX_B =>
      Field(n, 0x603F80, 4, 0, 5, 3);
      Field(n, 0x301F, 24, 0x80, 12, 5);
      Field(n, 0x180F, 1, 0x18080, 17, 1);
      Field(n, 0x60, 15, 0x38080, 18, 6);
    case PHIDGETS =>
      Field(n, 0x603F80, 7, 0, 5, 3);
      Field(n, 0x301F, 24, 0xE0, 12, 5);
      Field(n, 0x180F, 1, 0x180E0, 17, 1);
      Field(n, 0x60, 15, 0x380E0, 18, 6);
  }

  lemma ConfigPowers()
    ensures Pow2(1) == 2 && Pow2(3) == 8 && Pow2(5) == 32 && Pow2(6) == 64
    ensures Pow2(12) == 0x1000 && Pow2(17) == 0x20000 && Pow2(18) == 0x40000
  {
    PowersOfTwo();
    PowAdd(8, 4);
    PowAdd(16, 1);
    PowAdd(16, 2);
  }

  lemma ExtendedBit(w: Word)
    requires |w| == 32
    ensures ToNat(w[17..18]) == if w[17] then 1 else 0
  {
  }

  /** Opcode 00 */
  const RESET: seq<bool> := [false, false]

  // ----- T5577_WriteTag

  /** Command k writes data block k + 1, if it arrives. */
  predicate Writes(commands: seq<seq<seq<Word>>>, blocks: seq<Word>, lock: bool, delivery: nat -> Delivery) {
    && |blocks| <= 7 && (forall k :: 0 <= k < |commands| ==> Packets(commands[k]))
    && (forall k :: 0 <= k < |blocks| ==> |blocks[k]| == 32)
    && (forall k :: 0 <= k < |commands| && k < |blocks| ==>
          Received(commands[k]) == if Arrives(delivery(k)) then Command(false, lock, blocks[k], k + 1) else [])
  }

  /** The first k blocks hold what was sent and have its lock, where it arrived and no lock kept it out. */
  predicate Holding(card: Card, r: Card, blocks: seq<Word>, lock: bool, delivery: nat -> Delivery, k: nat)
    requires card.Valid() && r.Valid() && k <= |blocks| <= 7
  {
    && (forall n :: 1 <= n < 8 ==>
          (r.blocks[n], r.locked[n]) ==
            if n <= k && Arrives(delivery(n - 1)) && !card.locked[n] then (blocks[n - 1], lock)
            else (card.blocks[n], card.locked[n]))
    && r.blocks[0] == card.blocks[0] && r.locked[0] == card.locked[0]
  }

  lemma ObeyLast(card: Card, commands: seq<seq<seq<Word>>>, k: nat)
    requires card.Valid() && (forall n :: 0 <= n < |commands| ==> Packets(commands[n])) && 0 < k <= |commands|
    ensures ObeyAll(card, commands[..k]) == Obey(ObeyAll(card, commands[..k - 1]), Received(commands[k - 1]))
  {
    hide Obey, Received, Packets;
    assert commands[..k][..k - 1] == commands[..k - 1];
  }

  lemma {:induction false} BlocksWritten(card: Card, commands: seq<seq<seq<Word>>>, blocks: seq<Word>, lock: bool,
      delivery: nat -> Delivery, k: nat)
    requires card.Valid() && Writes(commands, blocks, lock, delivery) && k <= |commands| && k <= |blocks|
    ensures Holding(card, ObeyAll(card, commands[..k]), blocks, lock, delivery, k)
  {
    hide Received, Command, Obey, Packets, ObeyAll, Arrives;
    if k > 0 {
      BlocksWritten(card, commands, blocks, lock, delivery, k - 1);
      ObeyLast(card, commands, k);
      var before := ObeyAll(card, commands[..k - 1]);
      if Arrives(delivery(k - 1)) { ObeyCommand(before, lock, blocks[k - 1], k); } else { ObeyShort(before, []); }
    } else {
      assert commands[..0] == [] && ObeyAll(card, []) == card by { ObeyNothing(card); }
    }
  }

  lemma ObeyNothing(card: Card)
    requires card.Valid()
    ensures ObeyAll(card, []) == card
  {
  }

  /** What the three encoders promise about their blocks. */
  predicate Encoded(protocol: Protocol, tagString: string, signedChar: bool, blocks: seq<Word>) {
    && |blocks| == BlockCount(protocol)
    && match protocol
       case EM4100 =>
         Em4100.Frame(Stream(blocks)) && Em4100.Payload(Stream(blocks)) == Em4100Encode.TagBits(tagString)
       case ISO11785_FDX_B =>
         && FdxBEncode.Acceptable(tagString)
         && FdxB.Frame(Stream(blocks)) && FdxB.Data(Stream(blocks)) == FdxBEncode.IsoWord(tagString)
       case PHIDGETS => PhidgetTagEncode.Coded(tagString, signedChar, blocks)
  }

  predicate Accepted(protocol: Protocol, tagString: string) {
    match protocol
    case EM4100 => Em4100Encode.Acceptable(tagString)
    case ISO11785_FDX_B => FdxBEncode.Acceptable(tagString)
    case PHIDGETS => |tagString| <= 24
  }

  method EncodeTag(protocol: Protocol, tagString: string, signedChar: bool) returns (status: Status, blocks: seq<Word>)
    requires PhidgetTagEncode.CString(tagString)
    ensures status == if Accepted(protocol, tagString) then Ok else InvalidArg
    ensures status == Ok ==> Encoded(protocol, tagString, signedChar, blocks)
    ensures status == Ok ==> forall b :: 0 <= b < |blocks| ==> |blocks[b]| == 32
  {
    hide Stream, Em4100.Frame, Em4100.Payload, FdxB.Frame, FdxB.Data, FdxBEncode.IsoWord, Em4100Encode.TagBits;
    match protocol
    case EM4100 => status, blocks := Em4100Encode.Encode(tagString, 7);
    case ISO11785_FDX_B => status, blocks := FdxBEncode.Encode(tagString, 7);
    case PHIDGETS => status, blocks := PhidgetTagEncode.Encode(tagString, 7, signedChar);
  }

  /** The number of the first command of the first n whose timing packet is refused; n if there is none. */
  function FirstFailure(delivery: nat -> Delivery, n: nat): (k: nat)
    ensures k <= n && (k < n ==> !delivery(k).timing) && forall i :: 0 <= i < k ==> delivery(i).timing
  {
    if n == 0 then 0
    else
      var k := FirstFailure(delivery, n - 1);
      if k < n - 1 || !delivery(n - 1).timing then k else n
  }

  /** What the blocks of a tag hold, and which are locked, after the first commands of those that write it. */
  predicate Programmed(card: Card, r: Card, blocks: seq<Word>, lock: bool, delivery: nat -> Delivery,
      protocol: Protocol, done: nat)
    requires card.Valid() && r.Valid() && |blocks| == BlockCount(protocol)
  {
    && (forall n :: 1 <= n < 8 ==>
          (r.blocks[n], r.locked[n]) ==
            if n <= done && n <= |blocks| && Arrives(delivery(n - 1)) && !card.locked[n] then (blocks[n - 1], lock)
            else (card.blocks[n], card.locked[n]))
    && (r.blocks[0], r.locked[0]) ==
         if |blocks| < done && Arrives(delivery(|blocks|)) && !card.locked[0] then (FromNat(Config(protocol), 32), lock)
         else (card.blocks[0], card.locked[0])
  }

  /**
   * T5577_WriteTag: the commands go out one by one up to the first whose timing packet is refused. Each block of the
   * tag that was not locked then holds what was sent to it, if that arrived, and is locked just when the caller asked
   * for it; every other block is as before.
   */
  method WriteTag(protocol: Protocol, tagString: string, lock: bool, signedChar: bool, delivery: nat -> Delivery)
    returns (status: Status, commands: seq<seq<seq<Word>>>, ghost blocks: seq<Word>)
    requires PhidgetTagEncode.CString(tagString)
    ensures var n := BlockCount(protocol) + 2;
      status == if !Accepted(protocol, tagString) then InvalidArg
                else if FirstFailure(delivery, n) < n then NotSent else Ok
    ensures forall k :: 0 <= k < |commands| ==> Packets(commands[k])
    ensures status == InvalidArg ==> commands == []
    ensures status != InvalidArg ==> |blocks| == BlockCount(protocol)
    ensures status != InvalidArg ==> Encoded(protocol, tagString, signedChar, blocks)
    ensures status != InvalidArg ==> |commands| == FirstFailure(delivery, |blocks| + 2)
    ensures status != InvalidArg ==> Commands(commands, blocks, lock, delivery, protocol)
    ensures status != InvalidArg ==> forall card: Card :: card.Valid() ==>
      Programmed(card, ObeyAll(card, commands), blocks, lock, delivery, protocol, |commands|)
  {
    hide Encoded, Received, Command, Packets, Stream, Programmed;
    commands := [];
    var data;
    status, data := EncodeTag(protocol, tagString, signedChar);
    blocks := data;
    if status != Ok { return; }
    EncodedCount(protocol, tagString, signedChar, data);
    status, commands := WriteBlocks(data, lock, delivery);
    if status == Ok { status, commands := WriteTail(protocol, data, lock, delivery, commands); }
    FirstFailureIs(delivery, |data| + 2, |commands|);
    forall card: Card | card.Valid()
      ensures Programmed(card, ObeyAll(card, commands), data, lock, delivery, protocol, |commands|)
    {
      TagWritten(card, commands, data, lock, delivery, protocol);
    }
  }

  lemma {:induction false} FirstFailureIs(delivery: nat -> Delivery, n: nat, k: nat)
    requires k <= n && (k < n ==> !delivery(k).timing) && forall i :: 0 <= i < k ==> delivery(i).timing
    ensures FirstFailure(delivery, n) == k
  {
    if k < n { FirstFailureIs(delivery, n - 1, k); } else if n > 0 { FirstFailureIs(delivery, n - 1, n - 1); }
  }

  lemma ResetBits()
    ensures |Stream([FromNat(0x00, 8)])| == 8 && Stream([FromNat(0x00, 8)])[..2] == RESET
  {
    Masks();
  }

  /** T5577_Reset */
  method WriteReset(d: Delivery) returns (status: Status, packets: seq<seq<Word>>)
    ensures status == (if d.timing then Ok else NotSent) && Packets(packets)
    ensures Received(packets) == if Arrives(d) then RESET else []
  {
    hide Received, Packets, Stream;
    ResetBits();
    assert PacketCount(2) == 1;
    status, packets := WriteRaw([FromNat(0x00, 8)], 2, d);
  }

  /** Then the configuration block, then the reset. */
  method WriteTail(protocol: Protocol, ghost data: seq<Word>, lock: bool, delivery: nat -> Delivery,
      writes: seq<seq<seq<Word>>>) returns (status: Status, commands: seq<seq<seq<Word>>>)
    requires |writes| == |data| == BlockCount(protocol) && Writes(writes, data, lock, delivery)
    ensures Commands(commands, data, lock, delivery, protocol) && |commands| >= |writes|
    ensures forall k :: |writes| <= k < |commands| ==> delivery(k).timing
    ensures |commands| < |data| + 2 ==> !delivery(|commands|).timing
    ensures status == if |commands| < |data| + 2 then NotSent else Ok
  {
    hide Received, Command, Packets, Arrives, Stream, Config;
    commands := writes;
    var n := |writes|;
    var config, reset;
    status, config := WriteBlock(0, 0, FromNat(Config(protocol), 32), lock, delivery(n));
    if status != Ok { return; }
    commands := commands + [config];
    status, reset := WriteReset(delivery(n + 1));
    if status != Ok { return; }
    commands := commands + [reset];
  }

  /** The data blocks, in order, up to the first that fails. */
  method WriteBlocks(data: seq<Word>, lock: bool, delivery: nat -> Delivery)
    returns (status: Status, commands: seq<seq<seq<Word>>>)
    requires |data| <= 7 && forall b :: 0 <= b < |data| ==> |data[b]| == 32
    ensures Writes(commands, data, lock, delivery) && |commands| <= |data|
    ensures forall k :: 0 <= k < |commands| ==> delivery(k).timing
    ensures |commands| < |data| ==> !delivery(|commands|).timing
    ensures status == if |commands| < |data| then NotSent else Ok
  {
    hide Received, Command, Packets, Arrives;
    commands := [];
    var i := 0;
    while i < |data|
      invariant 0 <= i <= |data| && |commands| == i && Writes(commands, data, lock, delivery)
      invariant forall k :: 0 <= k < i ==> delivery(k).timing
    {
      var ok, packets := WriteBlock(0, i + 1, data[i], lock, delivery(i));
      if ok != Ok { return ok, commands; }
      commands := commands + [packets];
      i := i + 1;
    }
    return Ok, commands;
  }

  lemma EncodedCount(protocol: Protocol, tagString: string, signedChar: bool, blocks: seq<Word>)
    requires Encoded(protocol, tagString, signedChar, blocks)
    ensures |blocks| == BlockCount(protocol)
  {
  }

  /** The commands are writes of the data blocks, then of the configuration, then a reset, as far as they go. */
  predicate Commands(commands: seq<seq<seq<Word>>>, blocks: seq<Word>, lock: bool, delivery: nat -> Delivery,
      protocol: Protocol)
  {
    var n := |blocks|;
    && Writes(commands, blocks, lock, delivery) && |commands| <= n + 2
    && (|commands| > n ==>
          Received(commands[n]) ==
            if Arrives(delivery(n)) then Command(false, lock, FromNat(Config(protocol), 32), 0) else [])
    && (|commands| > n + 1 ==> Received(commands[n + 1]) == if Arrives(delivery(n + 1)) then RESET else [])
  }

  lemma DataWritten(card: Card, r: Card, blocks: seq<Word>, lock: bool, delivery: nat -> Delivery,
      protocol: Protocol, k: nat)
    requires card.Valid() && r.Valid() && k <= |blocks| == BlockCount(protocol)
    requires Holding(card, r, blocks, lock, delivery, k)
    ensures Programmed(card, r, blocks, lock, delivery, protocol, k)
  {
    hide Arrives, Config;
  }

  lemma ConfigWritten(card: Card, r: Card, c: seq<bool>, blocks: seq<Word>, lock: bool, delivery: nat -> Delivery,
      protocol: Protocol)
    requires card.Valid() && r.Valid() && |blocks| == BlockCount(protocol)
    requires Holding(card, r, blocks, lock, delivery, |blocks|)
    requires c == if Arrives(delivery(|blocks|)) then Command(false, lock, FromNat(Config(protocol), 32), 0) else []
    ensures Programmed(card, Obey(r, c), blocks, lock, delivery, protocol, |blocks| + 1)
  {
    hide Arrives, Config, Obey, Command;
    if Arrives(delivery(|blocks|)) {
      ObeyCommand(r, lock, FromNat(Config(protocol), 32), 0);
    } else {
      ObeyShort(r, []);
    }
  }

  lemma ResetWritten(card: Card, r: Card, blocks: seq<Word>, lock: bool, delivery: nat -> Delivery,
      protocol: Protocol)
    requires card.Valid() && r.Valid() && |blocks| == BlockCount(protocol)
    requires Programmed(card, r, blocks, lock, delivery, protocol, |blocks| + 1)
    ensures Programmed(card, r, blocks, lock, delivery, protocol, |blocks| + 2)
  {
    hide Arrives, Config;
  }

  lemma TagWritten(card: Card, commands: seq<seq<seq<Word>>>, blocks: seq<Word>, lock: bool,
      delivery: nat -> Delivery, protocol: Protocol)
    requires card.Valid() && |blocks| == BlockCount(protocol)
    requires Commands(commands, blocks, lock, delivery, protocol)
    ensures Programmed(card, ObeyAll(card, commands), blocks, lock, delivery, protocol, |commands|)
  {
    hide Stream, Command, Received, Packets, Obey, ObeyAll, Config, BlockCount, Arrives, Holding, Programmed;
    var n := |blocks|;
    var m := Least(n, |commands|);
    BlocksWritten(card, commands, blocks, lock, delivery, m);
    assert commands[..|commands|] == commands;
    if |commands| <= n {
      DataWritten(card, ObeyAll(card, commands), blocks, lock, delivery, protocol, m);
    } else {
      ObeyLast(card, commands, n + 1);
      ConfigWritten(card, ObeyAll(card, commands[..n]), Received(commands[n]), blocks, lock, delivery, protocol);
      if |commands| > n + 1 {
        ObeyLast(card, commands, n + 2);
        ObeyShort(ObeyAll(card, commands[..n + 1]), Received(commands[n + 1]));
        ResetWritten(card, ObeyAll(card, commands), blocks, lock, delivery, protocol);
      }
    }
  }

  lemma ObeyShort(card: Card, c: seq<bool>)
    requires card.Valid() && |c| < 38
    ensures Obey(card, c) == card
  {
  }

  /** When everything arrived at a tag without locks, it plays back just the blocks the encoder made of the string. */
  lemma PlaysBack(card: Card, r: Card, blocks: seq<Word>, lock: bool, delivery: nat -> Delivery, protocol: Protocol)
    requires card.Valid() && r.Valid() && |blocks| == BlockCount(protocol)
    requires forall k :: 0 <= k <= |blocks| ==> Arrives(delivery(k)) && !card.locked[k]
    requires Programmed(card, r, blocks, lock, delivery, protocol, |blocks| + 2)
    ensures Playback(r) == Stream(blocks)
  {
    hide Stream, Arrives, Config, MaxBlock, CodingOf, BitClocks;
    ConfigFields(protocol);
    forall b | 0 <= b < |blocks| ensures r.blocks[1..1 + |blocks|][b] == blocks[b] {}
    assert r.blocks[1..1 + |blocks|] == blocks;
  }

  /**
   * The call may succeed although a block was never written: its data packet was refused, its timing packet not, or
   * the tag had that block locked.
   */
  lemma LostBlockUnnoticed(card: Card, r: Card, blocks: seq<Word>, lock: bool, delivery: nat -> Delivery,
      protocol: Protocol, k: nat)
    requires card.Valid() && r.Valid() && |blocks| == BlockCount(protocol) && k < |blocks|
    requires forall i :: 0 <= i < |blocks| + 2 ==> delivery(i).timing
    requires (delivery(k).refused == 0 || card.locked[k + 1]) && card.blocks[k + 1] != blocks[k]
    requires Programmed(card, r, blocks, lock, delivery, protocol, |blocks| + 2)
    ensures FirstFailure(delivery, |blocks| + 2) == |blocks| + 2 && r.blocks[k + 1] != blocks[k]
  {
    FirstFailureIs(delivery, |blocks| + 2, |blocks| + 2);
  }

  // ----- what the locks are for

  /** Whatever is sent to a tag, a locked block stays as it is. */
  lemma {:induction false} LockedForGood(card: Card, commands: seq<seq<seq<Word>>>, n: nat)
    requires card.Valid() && (forall k :: 0 <= k < |commands| ==> Packets(commands[k])) && n < 8 && card.locked[n]
    ensures var r := ObeyAll(card, commands); r.locked[n] && r.blocks[n] == card.blocks[n]
    decreases |commands|
  {
    hide Received, Packets, Msb, ToNat;
    if commands != [] { LockedForGood(card, commands[..|commands| - 1], n); }
  }

  /** A tag written with lock, everything having arrived, plays the same blocks back whatever is sent to it later. */
  lemma LockedTagStays(card: Card, r: Card, blocks: seq<Word>, delivery: nat -> Delivery, protocol: Protocol,
      commands: seq<seq<seq<Word>>>)
    requires card.Valid() && r.Valid() && |blocks| == BlockCount(protocol)
    requires forall k :: 0 <= k <= |blocks| ==> Arrives(delivery(k)) && !card.locked[k]
    requires Programmed(card, r, blocks, true, delivery, protocol, |blocks| + 2)
    requires forall k :: 0 <= k < |commands| ==> Packets(commands[k])
    ensures Playback(ObeyAll(r, commands)) == Stream(blocks)
  {
    hide Stream, Arrives, Config, MaxBlock, CodingOf, BitClocks, ObeyAll, Packets;
    PlaysBack(card, r, blocks, true, delivery, protocol);
    ConfigFields(protocol);
    var t := ObeyAll(r, commands);
    forall n | 0 <= n <= |blocks| ensures t.blocks[n] == r.blocks[n] { LockedForGood(r, commands, n); }
    assert t.blocks[1..1 + |blocks|] == r.blocks[1..1 + |blocks|];
  }

  /**
   * A tag without locks is still without locks after a write without lock, whatever of it arrived; a second write
   * that arrives then replaces the first.
   */
  lemma UnlockedTagIsRewritten(card: Card, r: Card, t: Card, first: seq<Word>, second: seq<Word>, lock: bool,
      delivery: nat -> Delivery, again: nat -> Delivery, protocol: Protocol, next: Protocol, done: nat)
    requires card.Valid() && r.Valid() && t.Valid() && card.locked == seq(8, _ => false)
    requires |first| == BlockCount(protocol) && |second| == BlockCount(next)
    requires Programmed(card, r, first, false, delivery, protocol, done)
    requires Programmed(r, t, second, lock, again, next, |second| + 2)
    requires forall k :: 0 <= k <= |second| ==> Arrives(again(k))
    ensures r.locked == card.locked && Playback(t) == Stream(second)
    ensures forall n :: 0 <= n < 8 ==> t.locked[n] == (lock && n <= |second|)
  {
    hide Stream, Arrives, Config;
    PlaysBack(r, t, second, lock, again, next);
  }
}
