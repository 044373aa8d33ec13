/** The PhidgetTAG format: 24 seven-bit characters in a 224-bit frame, searched for in a ring of bits. */
module PhidgetTag {
  import opened Words
  import opened Rings
  import opened Crc
  import opened Headers

  // ----- the frame

  /** Thirteen zeros, then a one. */
  predicate Header(q: seq<bool>, o: nat)
    requires o + 14 <= |q|
  {
    ZerosThenOne(q, o, 13)
  }

  /** Character c: seven bits, most significant first, as an unsigned char. */
  function CharByte(w: seq<bool>, c: nat): Byte
    requires |w| == 224 && c < 24
  {
    seq(8, k requires 0 <= k < 8 => k < 7 && w[38 + 8 * c - k])
  }

  function CharBytes(w: seq<bool>): (b: seq<Byte>)
    requires |w| == 224
    ensures |b| == 24
  {
    seq(24, c requires 0 <= c < 24 => CharByte(w, c))
  }

  /** The stored CRC: two groups of eight bits, each followed by a control bit. */
  function Stored(w: seq<bool>): Register
    requires |w| == 224
  {
    seq(16, k requires 0 <= k < 16 => if k >= 8 then w[29 - k] else w[30 - k])
  }

  /** The control bits after the first n characters. */
  predicate Controls(w: seq<bool>, n: nat)
    requires |w| == 224 && n <= 24
  {
    forall c :: 0 <= c < n ==> w[39 + 8 * c]
  }

  predicate Frame(w: seq<bool>) {
    |w| == 224 && Header(w, 0) && w[22] && w[31] && Controls(w, 24) && UpdateAll(Zero, CharBytes(w)) == Stored(w)
  }

  // ----- the search

  /**
   * What crcRead holds after an attempt at frame w: the bits read are or-ed into what was there, the
   * second byte only if the control bit after the first one was right. It is never cleared on a retry.
   */
  function Accumulate(crcRead: Register, w: seq<bool>): Register
    requires |w| == 224
  {
    seq(16, k requires 0 <= k < 16 => crcRead[k] || ((k >= 8 || w[22]) && Stored(w)[k]))
  }

  /** Whether the attempt succeeds, given what earlier attempts left in crcRead. */
  predicate Body(crcRead: Register, w: seq<bool>)
    requires |w| == 224
  {
    w[22] && w[31] && Controls(w, 24) && UpdateAll(Zero, CharBytes(w)) == Accumulate(crcRead, w)
  }

  function Search(q: seq<bool>, limit: nat, o: nat, crcRead: Register): (r: Option<nat>)
    requires limit <= |q|
    decreases limit - o
    ensures r.Some? ==> o <= r.value && r.value + 224 <= limit
  {
    if o + 224 > limit then None
    else if !Header(q, o) then Search(q, limit, o + 1, crcRead)
    else if Body(crcRead, q[o..o + 224]) then Some(o)
    else Search(q, limit, o + 15, Accumulate(crcRead, q[o..o + 224]))
  }

  /** Where the decoder finds a frame; an empty queue is treated as in decodeEM4100. */
  function Locate(r: Ring<bool>): (o: Option<nat>)
    requires r.Valid()
    ensures o.Some? ==> o.value + 224 <= SIZE
  {
    if r.Len() > 0 then Search(r.All(), r.Len(), 0, Zero)
    else if Body(Zero, r.All()[..224]) then Some(0)
    else Search(r.All(), SIZE, 15, Accumulate(Zero, r.All()[..224]))
  }

  /** The reported C string: the characters up to the first zero. */
  function Terminated(s: string): string {
    if s == [] || s[0] == 0 as char then [] else [s[0]] + Terminated(s[1..])
  }

  function Chars(bytes: seq<Byte>): (s: string)
    ensures |s| == |bytes|
  {
    seq(|bytes|, c requires 0 <= c < |bytes| => (ToByte(bytes[c])) as char)
  }

  function ToByte(b: Byte): (n: nat)
    ensures n < 256
  {
    ToNatBound(b);
    PowersOfTwo();
    ToNat(b)
  }

  function TagText(w: seq<bool>): string
    requires |w| == 224
  {
    Terminated(Chars(CharBytes(w)))
  }

  // ----- the decoder

  method FindStart(data: array<bool>, end: nat, from: nat, ghost start: nat, ghost o: nat, ghost crcRead: Register)
    returns (enough: bool, my: nat, ghost at: nat)
    requires data.Length == SIZE && start < SIZE && end < SIZE
    requires var ring := Ring(data[..], start, end); o < Limit(ring) && from == Slot(start, o)
    ensures var ring := Ring(data[..], start, end);
      if o == 0 && ring.Len() == 0 then enough && at == o && my == from
      else if enough then
        && o <= at && at + 224 <= Limit(ring) && my == Slot(start, at) && Header(ring.All(), at)
        && Search(ring.All(), Limit(ring), o, crcRead) == Search(ring.All(), Limit(ring), at, crcRead)
      else Search(ring.All(), Limit(ring), o, crcRead) == None
  {
    hide ZerosThenOne, Body, Accumulate;
    ghost var ring := Ring(data[..], start, end);
    my, at := from, o;
    var bytesInQueue: int := end - my;
    if my > end { bytesInQueue := bytesInQueue + SIZE; }
    while my != end
      invariant o <= at < Limit(ring) && my == Slot(start, at)
      invariant bytesInQueue == if at == 0 && ring.Len() == 0 then 0 else Limit(ring) - at
      invariant Search(ring.All(), Limit(ring), o, crcRead) == Search(ring.All(), Limit(ring), at, crcRead)
      invariant o == 0 && ring.Len() == 0 ==> at == o
      decreases Limit(ring) - at
    {
      if bytesInQueue < 224 { return false, my, at; }
      var foundStart := PatternAt(data, my, 13, start, at);
      if foundStart { break; }
      my := Slot(my, 1);
      bytesInQueue := bytesInQueue - 1;
      at := at + 1;
    }
    return true, my, at;
  }

  /** The window of the ring that holds the frame tried, read from the bit after its header. */
  ghost predicate Window(data: seq<bool>, my: nat, w: seq<bool>) {
    |data| == SIZE && my < SIZE && |w| == 224 && forall p :: 14 <= p < 224 ==> data[Slot(my, p - 14)] == w[p]
  }

  /** The CRC bits, or-ed into crcRead, and the control bit after each half. */
  method ReadCrc(data: array<bool>, my: nat, before: Register, ghost w: seq<bool>) returns (ok: bool, crcRead: Register)
    requires Window(data[..], my, w)
    ensures ok == (w[22] && w[31]) && crcRead == Accumulate(before, w)
  {
    crcRead := before;
    var i, k := 0, 0;
    while i < 16
      invariant 0 <= i <= 16 && k == (if i <= 8 then i else i + 1)
      invariant i > 8 ==> w[22]
      invariant forall m :: 16 - i <= m < 16 ==> crcRead[m] == (before[m] || Stored(w)[m])
      invariant forall m :: 0 <= m < 16 - i ==> crcRead[m] == before[m]
    {
      if i > 0 && i % 8 == 0 {
        assert data[Slot(my, 22 - 14)] == w[22];
        if !data[Slot(my, k)] {
          assert crcRead == Accumulate(before, w);
          return false, crcRead;
        }
        k := k + 1;
      }
      assert data[Slot(my, (14 + k) - 14)] == w[14 + k];
      crcRead := OrBit(crcRead, 15 - i, data[Slot(my, k)]);
      i, k := i + 1, k + 1;
    }
    assert data[Slot(my, 31 - 14)] == w[31];
    assert crcRead == Accumulate(before, w);
    return data[Slot(my, k)], crcRead;
  }

  /** One character and its control bit. */
  method ReadChar(data: array<bool>, my: nat, c: nat, ghost w: seq<bool>) returns (ok: bool, byte: Byte)
    requires Window(data[..], my, w) && c < 24
    ensures ok == w[39 + 8 * c] && byte == CharByte(w, c)
  {
    byte := ZeroWord(8);
    var i := 0;
    while i < 7
      invariant 0 <= i <= 7 && !byte[7]
      invariant forall m :: 6 - i < m < 7 ==> byte[m] == w[38 + 8 * c - m]
      invariant forall m :: 0 <= m <= 6 - i ==> !byte[m]
    {
      assert data[Slot(my, (32 + 8 * c + i) - 14)] == w[32 + 8 * c + i];
      byte := OrBit(byte, 6 - i, data[Slot(my, 18 + 8 * c + i)]);
      i := i + 1;
    }
    assert data[Slot(my, (39 + 8 * c) - 14)] == w[39 + 8 * c];
    ok := data[Slot(my, 25 + 8 * c)];
  }

  method ReadChars(data: array<bool>, my: nat, ghost w: seq<bool>) returns (ok: bool, tagData: seq<Byte>)
    requires Window(data[..], my, w)
    ensures ok == Controls(w, 24)
    ensures ok ==> tagData == CharBytes(w)
  {
    tagData := [];
    var c := 0;
    while c < 24
      invariant 0 <= c <= 24 && |tagData| == c
      invariant Controls(w, c)
      invariant forall d :: 0 <= d < c ==> tagData[d] == CharByte(w, d)
    {
      var byte;
      ok, byte := ReadChar(data, my, c, w);
      if !ok { return false, tagData; }
      tagData := tagData + [byte];
      c := c + 1;
    }
    return true, tagData;
  }

  method TryFrame(data: array<bool>, my: nat, before: Register, ghost start: nat, ghost o: nat)
    returns (ok: bool, text: string, crcRead: Register)
    requires data.Length == SIZE && start < SIZE && o + 224 <= SIZE && my == Slot(start, o + 14)
    ensures var w := From(data[..], start)[o..o + 224];
      && ok == Body(before, w) && crcRead == Accumulate(before, w)
      && (ok ==> text == TagText(w))
  {
    hide CharBytes, Accumulate, Controls, UpdateAll, Update;
    ghost var w := From(data[..], start)[o..o + 224];
    forall p | 14 <= p < 224 ensures data[Slot(my, p - 14)] == w[p] {
      assert Slot(my, p - 14) == Slot(start, o + p);
    }
    text := "";
    ok, crcRead := ReadCrc(data, my, before, w);
    if !ok { return; }
    var tagData;
    ok, tagData := ReadChars(data, my, w);
    if !ok { return; }
    var crcCalc := ComputeCrc(tagData);
    ok := crcCalc == crcRead;
    text := Terminated(Chars(tagData));
  }

  ghost predicate Searching(r: Ring<bool>, o: nat, crcRead: Register) {
    && r.Valid() && o < Limit(r) && (o == 0 ==> crcRead == Zero)
    && (o > 0 || r.Len() > 0 ==> Locate(r) == Search(r.All(), Limit(r), o, crcRead))
  }

  ghost predicate Reached(r: Ring<bool>, o: nat, at: nat, crcRead: Register) {
    && r.Valid() && at + 224 <= SIZE
    && if o == 0 && r.Len() == 0 then at == o
       else && o <= at && at + 224 <= Limit(r) && Header(r.All(), at)
            && Search(r.All(), Limit(r), o, crcRead) == Search(r.All(), Limit(r), at, crcRead)
  }

  lemma Found(r: Ring<bool>, o: nat, at: nat, crcRead: Register)
    requires Searching(r, o, crcRead) && Reached(r, o, at, crcRead) && Body(crcRead, r.All()[at..at + 224])
    ensures Locate(r) == Some(at)
  {
    hide Body, Header, Accumulate;
  }

  lemma Missed(r: Ring<bool>, o: nat, at: nat, crcRead: Register)
    requires Searching(r, o, crcRead) && Reached(r, o, at, crcRead) && !Body(crcRead, r.All()[at..at + 224])
    ensures Searching(r, at + 15, Accumulate(crcRead, r.All()[at..at + 224]))
  {
    hide Body, Header, Accumulate;
  }

  /** decodePHIDGETS_TAG: scan the ring from *startPtr to *endPtr. */
  method Decode(data: array<bool>, start: nat, end: nat) returns (found: bool, text: string, newStart: nat)
    requires data.Length == SIZE && start < SIZE && end < SIZE
    ensures var ring := Ring(data[..], start, end);
      match Locate(ring)
      case None => !found && newStart == start
      case Some(o) => found && newStart == Slot(start, 224) && text == TagText(ring.All()[o..o + 224])
  {
    hide Header, Body, Search, TagText, Accumulate;
    ghost var ring := Ring(data[..], start, end);
    ghost var o: nat := 0;
    var my, crcRead := start, Zero;
    while true
      invariant Searching(ring, o, crcRead) && my == Slot(start, o)
      decreases Limit(ring) - o
    {
      ghost var from, before := o, crcRead;
      var enough;
      enough, my, o := FindStart(data, end, my, start, o, crcRead);
      if !enough { return false, "", start; }
      my := Slot(my, 14);
      var ok;
      ok, text, crcRead := TryFrame(data, my, crcRead, start, o);
      if ok {
        Found(ring, from, o, before);
        return true, text, Slot(start, 224);
      }
      my := Slot(my, 1);
      Missed(ring, from, o, before);
      o := o + 15;
    }
    return false, "", start;
  }
}
