/** The FDX-B telegram (ISO 11784 data in an ISO 11785 frame): 128 bits, searched for in a ring of bits. */
module FdxB {
  import opened Modulo
  import opened Words
  import opened Rings
  import opened Crc
  import opened Headers

  // ----- the telegram

  /** Ten zeros, then a one. */
  predicate Header(q: seq<bool>, o: nat)
    requires o + 11 <= |q|
  {
    ZerosThenOne(q, o, 10)
  }

  /** Where data bit i stands in the telegram: groups of eight, each followed by a control bit. */
  function DataPos(i: nat): nat { 11 + i + i / 8 }

  /** The 64 data bits, in the order sent. */
  function Data(w: seq<bool>): (d: seq<bool>)
    requires |w| >= 101
    ensures |d| == 64
  {
    seq(64, i requires 0 <= i < 64 => w[DataPos(i)])
  }

  /** The 16 CRC bits, most significant first. */
  function Checksum(w: seq<bool>): (c: seq<bool>)
    requires |w| >= 101
    ensures |c| == 16
  {
    seq(16, i requires 0 <= i < 16 => w[DataPos(64 + i)])
  }

  /** Control bit j follows the j-th group of eight. */
  predicate Controls(w: seq<bool>, n: nat)
    requires |w| >= 11 + 9 * n
  {
    forall j :: 0 <= j < n ==> w[19 + 9 * j]
  }

  predicate Body(w: seq<bool>)
    requires |w| >= 101
  {
    Controls(w, 10) && Msb(Divide(Zero, Data(w))) == Checksum(w)
  }

  /** The whole telegram, with the control bits of its 24-bit trailer. */
  predicate Frame(w: seq<bool>) {
    |w| == 128 && Header(w, 0) && Controls(w, 13) && Body(w)
  }

  // ----- the search

  /** The first telegram within the first limit entries of q; a failed one is skipped with its header. */
  function Search(q: seq<bool>, limit: nat, o: nat): (r: Option<nat>)
    requires limit <= |q|
    decreases limit - o
    ensures r.Some? ==> o <= r.value && r.value + 128 <= limit
  {
    if o + 128 > limit then None
    else if !Header(q, o) then Search(q, limit, o + 1)
    else if Body(q[o..o + 128]) then Some(o)
    else Search(q, limit, o + 12)
  }

  /** Where the decoder finds a telegram; an empty queue is treated as in decodeEM4100. */
  function Locate(r: Ring<bool>): (o: Option<nat>)
    requires r.Valid()
    ensures o.Some? ==> o.value + 128 <= SIZE
  {
    if r.Len() > 0 then Search(r.All(), r.Len(), 0)
    else if Body(r.All()[..128]) then Some(0)
    else Search(r.All(), SIZE, 12)
  }

  // ----- the decoder

  method FindStart(data: array<bool>, end: nat, from: nat, ghost start: nat, ghost o: nat)
    returns (enough: bool, my: nat, ghost at: nat)
    requires data.Length == SIZE && start < SIZE && end < SIZE
    requires var ring := Ring(data[..], start, end); o < Limit(ring) && from == Slot(start, o)
    ensures var ring := Ring(data[..], start, end);
      if o == 0 && ring.Len() == 0 then enough && at == o && my == from
      else if enough then
        && o <= at && at + 128 <= Limit(ring) && my == Slot(start, at) && Header(ring.All(), at)
        && Search(ring.All(), Limit(ring), o) == Search(ring.All(), Limit(ring), at)
      else Search(ring.All(), Limit(ring), o) == None
  {
    hide ZerosThenOne, Body;
    ghost var ring := Ring(data[..], start, end);
    my, at := from, o;
    var bytesInQueue: int := end - my;
    if my > end { bytesInQueue := bytesInQueue + SIZE; }
    while my != end
      invariant o <= at < Limit(ring) && my == Slot(start, at)
      invariant bytesInQueue == if at == 0 && ring.Len() == 0 then 0 else Limit(ring) - at
      invariant Search(ring.All(), Limit(ring), o) == Search(ring.All(), Limit(ring), at)
      invariant o == 0 && ring.Len() == 0 ==> at == o
      decreases Limit(ring) - at
    {
      if bytesInQueue < 128 { return false, my, at; }
      var foundStart := PatternAt(data, my, 10, start, at);
      if foundStart { break; }
      my := Slot(my, 1);
      bytesInQueue := bytesInQueue - 1;
      at := at + 1;
    }
    return true, my, at;
  }

  /** Eight bytes in the order sent, the first bit of each its most significant. */
  predicate InOrder(bytes: seq<Word>, d: seq<bool>) {
    |bytes| == 8 && |d| == 64 && forall g :: 0 <= g < 8 ==> |bytes[g]| == 8 && Msb(bytes[g]) == d[8 * g..8 * g + 8]
  }

  /** The same 64 bits as a number sent least significant bit first: byte 7 holds the lowest eight. */
  predicate Mirrored(bytes: seq<Word>, d: seq<bool>) {
    |bytes| == 8 && |d| == 64 && forall b :: 0 <= b < 8 ==> bytes[b] == d[8 * (7 - b)..8 * (7 - b) + 8]
  }

  /** One group of eight data bits, shifted into both byte arrays. */
  method ReadGroup(data: array<bool>, my: nat, k: nat, ghost w: seq<bool>) returns (byte: Word, reversed: Word)
    requires data.Length == SIZE && my < SIZE && |w| == 128 && 11 + k + 8 <= 128 && k + 8 <= SIZE
    requires forall p :: 11 <= p < 128 ==> data[Slot(my, p - 11)] == w[p]
    ensures |byte| == 8 && Msb(byte) == w[11 + k..11 + k + 8] && reversed == w[11 + k..11 + k + 8]
  {
    byte, reversed := seq(8, _ => false), seq(8, _ => false);
    var i := 0;
    while i < 8
      invariant 0 <= i <= 8 && |byte| == |reversed| == 8
      invariant forall m :: 7 - i < m < 8 ==> byte[m] == w[11 + k + (7 - m)]
      invariant forall m :: 0 <= m <= 7 - i ==> !byte[m]
      invariant forall m :: 0 <= m < i ==> reversed[m] == w[11 + k + m]
      invariant forall m :: i <= m < 8 ==> !reversed[m]
    {
      assert data[Slot(my, k + i)] == w[11 + k + i];
      byte := OrBit(byte, 7 - i, data[Slot(my, k + i)]);
      reversed := OrBit(reversed, i, data[Slot(my, k + i)]);
      i := i + 1;
    }
  }

  /** The 64 data bits and the control bit after each group; k is the number of bits passed. */
  method ReadData(data: array<bool>, my: nat, ghost w: seq<bool>)
    returns (ok: bool, bytes: seq<Word>, reversed: seq<Word>, k: nat)
    requires data.Length == SIZE && my < SIZE && |w| == 128
    requires forall p :: 11 <= p < 128 ==> data[Slot(my, p - 11)] == w[p]
    ensures ok == Controls(w, 8)
    ensures ok ==> k == 72 && InOrder(bytes, Data(w)) && Mirrored(reversed, Data(w))
  {
    hide Data;
    bytes, reversed, k := seq(8, _ => seq(8, _ => false)), seq(8, _ => seq(8, _ => false)), 0;
    var g := 0;
    while g < 8
      invariant 0 <= g <= 8 && k == 9 * g && |bytes| == |reversed| == 8
      invariant Controls(w, g)
      invariant forall h :: 0 <= h < g ==> |bytes[h]| == 8 && Msb(bytes[h]) == Data(w)[8 * h..8 * h + 8]
      invariant forall b :: 7 - g < b < 8 ==> reversed[b] == Data(w)[8 * (7 - b)..8 * (7 - b) + 8]
    {
      var byte, mirror := ReadGroup(data, my, k, w);
      GroupOf(w, g);
      bytes, reversed, k := bytes[g := byte], reversed[7 - g := mirror], k + 8;
      assert data[Slot(my, k)] == w[19 + 9 * g];
      if !data[Slot(my, k)] { return false, bytes, reversed, k; }
      g, k := g + 1, k + 1;
    }
    return true, bytes, reversed, k;
  }

  lemma GroupOf(w: seq<bool>, g: nat)
    requires |w| == 128 && g < 10
    ensures g < 8 ==> Data(w)[8 * g..8 * g + 8] == w[11 + 9 * g..19 + 9 * g]
    ensures g >= 8 ==> Checksum(w)[8 * (g - 8)..8 * (g - 8) + 8] == w[11 + 9 * g..19 + 9 * g]
  {
    var s, t := if g < 8 then Data(w)[8 * g..8 * g + 8] else Checksum(w)[8 * (g - 8)..8 * (g - 8) + 8],
                w[11 + 9 * g..19 + 9 * g];
    forall i | 0 <= i < 8 ensures s[i] == t[i] {
      assert DataPos(8 * g + i) == 11 + 9 * g + i;
    }
  }

  /** The 16 checksum bits and the control bit after each half. */
  method ReadChecksum(data: array<bool>, my: nat, ghost w: seq<bool>) returns (ok: bool, checksum: Word)
    requires data.Length == SIZE && my < SIZE && |w| == 128
    requires forall p :: 11 <= p < 128 ==> data[Slot(my, p - 11)] == w[p]
    ensures ok == (w[91] && w[100])
    ensures ok ==> |checksum| == 16 && Msb(checksum) == Checksum(w)
  {
    checksum := ZeroWord(16);
    var i, k := 0, 72;
    while i < 16
      invariant 0 <= i <= 16 && |checksum| == 16 && k == (if i <= 8 then 72 + i else 73 + i)
      invariant i > 8 ==> w[91]
      invariant forall m :: 15 - i < m < 16 ==> checksum[m] == w[DataPos(64 + (15 - m))]
      invariant forall m :: 0 <= m <= 15 - i ==> !checksum[m]
    {
      if i > 0 && i % 8 == 0 {
        assert data[Slot(my, k)] == w[91];
        if !data[Slot(my, k)] { return false, checksum; }
        k := k + 1;
      }
      assert data[Slot(my, k)] == w[11 + k];
      checksum := OrBit(checksum, 15 - i, data[Slot(my, k)]);
      i, k := i + 1, k + 1;
    }
    assert data[Slot(my, k)] == w[100];
    return data[Slot(my, k)], checksum;
  }

  lemma UpdateInOrder(bytes: seq<Word>, d: seq<bool>)
    requires InOrder(bytes, d)
    ensures UpdateAll(Zero, bytes) == Divide(Zero, d)
  {
    hide Divide, UpdateAll, Bits;
    assert forall g :: 0 <= g < 8 ==> |bytes[g]| == 8;
    UpdateAllIsDivision(Zero, bytes);
    forall i | 0 <= i < 64 ensures Bits(bytes)[i] == d[i] {
      BitInOrder(bytes, d, i / 8, i % 8);
    }
    assert Bits(bytes) == d;
  }

  lemma BitInOrder(bytes: seq<Word>, d: seq<bool>, g: nat, j: nat)
    requires InOrder(bytes, d) && g < 8 && j < 8
    ensures |bytes[g]| == 8 && bytes[g][7 - j] == d[8 * g + j]
  {
    assert Msb(bytes[g])[j] == d[8 * g..8 * g + 8][j];
  }

  // ----- the text

  /** The digits of n, zero-padded to the given width. */
  function Decimal(n: nat, width: nat): string
    decreases n, width
  {
    if n == 0 && width == 0 then ""
    else Decimal(n / 10, if width > 0 then width - 1 else 0) + ['0' + (n % 10) as char]
  }

  /** Bits 0 to 37 are the identifier, 38 to 47 the country code, all sent least significant bit first. */
  function TelegramText(d: seq<bool>): string
    requires |d| == 64
  {
    Decimal(ToNat(d[38..48]), 3) + Decimal(ToNat(d[..38]), 12)
  }

  /** snprintf("%03d%012lld") of the country code and the identifier picked out of the mirrored bytes. */
  method Format(reversed: seq<Word>, ghost d: seq<bool>) returns (text: string)
    requires Mirrored(reversed, d)
    ensures text == TelegramText(d)
  {
    ByteSlices(reversed, d);
    assert |reversed[2]| == 8 && |reversed[3]| == 8;
    // the two parts have no bit in common: | is +
    var countryCode := (4 * ToNat(reversed[2]) + ToNat(reversed[3]) / 64) % 0x400;
    var uid := (0x100000000 * ToNat(reversed[3]) + 0x1000000 * ToNat(reversed[4]) + 0x10000 * ToNat(reversed[5])
                + 0x100 * ToNat(reversed[6]) + ToNat(reversed[7])) % 0x4000000000;
    CountryOfBytes(reversed, d);
    UidOfBytes(reversed, d);
    return Decimal(countryCode, 3) + Decimal(uid, 12);
  }

  lemma ByteSlices(r: seq<Word>, d: seq<bool>)
    requires Mirrored(r, d)
    ensures r[7] == d[..8] && r[6] == d[8..16] && r[5] == d[16..24] && r[4] == d[24..32]
    ensures r[3] == d[32..40] && r[2] == d[40..48]
  {
  }

  lemma CountryOfBytes(r: seq<Word>, d: seq<bool>)
    requires Mirrored(r, d) && |d| == 64
    ensures (4 * ToNat(r[2]) + ToNat(r[3]) / 64) % 0x400 == ToNat(d[38..48])
  {
    assert Pow2(6) == 64 && Pow2(2) == 4 && Pow2(10) == 0x400;
    hide ToNat, Pow2;
    ByteSlices(r, d);
    hide Mirrored;
    assert r[3] == d[32..38] + d[38..40];
    ToNatAppend(d[32..38], d[38..40]);
    ToNatBound(d[32..38]);
    ModuloUnique(ToNat(d[38..40]), ToNat(r[3]), ToNat(d[32..38]), 64);
    assert d[38..48] == d[38..40] + d[40..48];
    ToNatAppend(d[38..40], d[40..48]);
    ToNatBound(d[38..48]);
    CountryParts(ToNat(r[2]), ToNat(r[3]), ToNat(d[38..40]), ToNat(d[38..48]));
  }

  lemma CountryParts(high: nat, middle: nat, low: nat, country: nat)
    requires middle / 64 == low && country == low + 4 * high && country < 0x400
    ensures (4 * high + middle / 64) % 0x400 == country
  {
    ModuloUnique(0, country, country, 0x400);
  }

  lemma UidOfBytes(r: seq<Word>, d: seq<bool>)
    requires Mirrored(r, d) && |d| == 64
    ensures (0x100000000 * ToNat(r[3]) + 0x1000000 * ToNat(r[4]) + 0x10000 * ToNat(r[5])
             + 0x100 * ToNat(r[6]) + ToNat(r[7])) % 0x4000000000 == ToNat(d[..38])
  {
    hide ToNat, Pow2;
    ByteSlices(r, d);
    hide Mirrored;
    PowersOfTwo();
    PowAdd(16, 8);
    assert d[..16] == d[..8] + d[8..16];
    ToNatAppend(d[..8], d[8..16]);
    assert d[..24] == d[..16] + d[16..24];
    ToNatAppend(d[..16], d[16..24]);
    assert d[..32] == d[..24] + d[24..32];
    ToNatAppend(d[..24], d[24..32]);
    assert d[..40] == d[..32] + d[32..40];
    ToNatAppend(d[..32], d[32..40]);
    LowBits(d);
  }

  lemma LowBits(d: seq<bool>)
    requires |d| == 64
    ensures ToNat(d[..40]) % 0x4000000000 == ToNat(d[..38])
  {
    hide ToNat, Pow2;
    IdentifierSize();
    assert d[..40] == d[..38] + d[38..40];
    ToNatAppend(d[..38], d[38..40]);
    ToNatBound(d[..38]);
    ModuloUnique(ToNat(d[38..40]), ToNat(d[..40]), ToNat(d[..38]), 0x4000000000);
  }

  lemma IdentifierSize()
    ensures Pow2(38) == 0x4000000000
  {
    PowersOfTwo();
    PowAdd(32, 6);
    assert Pow2(6) == 64;
  }

  // ----- decodeISO11785_FDX_B

  method TryFrame(data: array<bool>, my: nat, ghost start: nat, ghost o: nat) returns (ok: bool, text: string)
    requires data.Length == SIZE && start < SIZE && o + 128 <= SIZE && my == Slot(start, o + 11)
    ensures ok == Body(From(data[..], start)[o..o + 128])
    ensures ok ==> text == TelegramText(Data(From(data[..], start)[o..o + 128]))
  {
    ghost var w := From(data[..], start)[o..o + 128];
    forall p | 11 <= p < 128 ensures data[Slot(my, p - 11)] == w[p] {
      assert Slot(my, p - 11) == Slot(start, o + p);
    }
    var bytes, reversed, checksum, k;
    ok, bytes, reversed, k := ReadData(data, my, w);
    if !ok { return false, ""; }
    ok, checksum := ReadChecksum(data, my, w);
    if !ok {
      assert !Controls(w, 10) by { assert w[19 + 9 * 8] == w[91] && w[19 + 9 * 9] == w[100]; }
      return false, "";
    }
    assert forall g :: 0 <= g < 8 ==> |bytes[g]| == 8;
    var crc := ComputeCrc(bytes);
    UpdateInOrder(bytes, Data(w));
    assert crc == Divide(Zero, Data(w));
    ControlsSplit(w);
    MsbEqual(crc, checksum);
    if crc != checksum { return false, ""; }
    text := Format(reversed, Data(w));
  }

  lemma MsbEqual(a: Word, b: Word)
    ensures Msb(a) == Msb(b) <==> a == b
  {
    if Msb(a) == Msb(b) {
      assert |a| == |Msb(a)| && |b| == |Msb(b)|;
      forall k | 0 <= k < |a| ensures a[k] == b[k] {
        assert Msb(a)[|a| - 1 - k] == Msb(b)[|a| - 1 - k];
      }
    }
  }

  lemma ControlsSplit(w: seq<bool>)
    requires |w| == 128 && Controls(w, 8) && w[91] && w[100]
    ensures Controls(w, 10)
  {
  }

  /** The search has not yet passed a telegram when it stands at offset o. */
  ghost predicate Searching(r: Ring<bool>, o: nat) {
    && r.Valid() && o < Limit(r)
    && (o > 0 || r.Len() > 0 ==> Locate(r) == Search(r.All(), Limit(r), o))
  }

  /** The header scan has moved on from offset o to offset at, where a telegram may be tried. */
  ghost predicate Reached(r: Ring<bool>, o: nat, at: nat) {
    && r.Valid() && at + 128 <= SIZE
    && if o == 0 && r.Len() == 0 then at == o
       else && o <= at && at + 128 <= Limit(r) && Header(r.All(), at)
            && Search(r.All(), Limit(r), o) == Search(r.All(), Limit(r), at)
  }

  lemma Found(r: Ring<bool>, o: nat, at: nat)
    requires Searching(r, o) && Reached(r, o, at) && Body(r.All()[at..at + 128])
    ensures Locate(r) == Some(at)
  {
  }

  lemma Missed(r: Ring<bool>, o: nat, at: nat)
    requires Searching(r, o) && Reached(r, o, at) && !Body(r.All()[at..at + 128])
    ensures Searching(r, at + 12)
  {
  }

  /** decodeISO11785_FDX_B: scan the ring from *startPtr to *endPtr. */
  method Decode(data: array<bool>, start: nat, end: nat) returns (found: bool, text: string, newStart: nat)
    requires data.Length == SIZE && start < SIZE && end < SIZE
    ensures var ring := Ring(data[..], start, end);
      match Locate(ring)
      case None => !found && newStart == start
      case Some(o) =>
        found && newStart == Slot(start, 128) && text == TelegramText(Data(ring.All()[o..o + 128]))
  {
    hide Header, Body, Search, Data, TelegramText;
    ghost var ring := Ring(data[..], start, end);
    ghost var o: nat := 0;
    var my := start;
    while true
      invariant Searching(ring, o) && my == Slot(start, o)
      decreases Limit(ring) - o
    {
      ghost var from := o;
      var enough;
      enough, my, o := FindStart(data, end, my, start, o);
      if !enough { return false, "", start; }
      my := Slot(my, 11);
      var ok;
      ok, text := TryFrame(data, my, start, o);
      if ok {
        Found(ring, from, o);
        return true, text, Slot(start, 128);
      }
      my := Slot(my, 1);
      Missed(ring, from, o);
      o := o + 12;
    }
    return false, "", start;
  }
}
