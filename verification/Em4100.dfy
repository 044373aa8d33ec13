/** The EM4100 tag format: 64-bit frames, found and checked in a ring of received bits. */
module Em4100 {
  import opened Words
  import opened Rings

  // ----- the frame

  /** Nine ones. */
  predicate Header(w: seq<bool>, o: nat)
    requires o + 9 <= |w|
  {
    forall i :: o <= i < o + 9 ==> w[i]
  }

  function RowSum(w: seq<bool>, i: nat): bool
    requires |w| == 64 && i < 10
  {
    ((w[9 + 5 * i] != w[9 + 5 * i + 1]) != w[9 + 5 * i + 2]) != w[9 + 5 * i + 3]
  }

  /** Row i: four data bits, then their parity. */
  predicate RowOk(w: seq<bool>, i: nat)
    requires |w| == 64 && i < 10
  {
    w[9 + 5 * i + 4] == RowSum(w, i)
  }

  /** The sum of column c over the first k rows. */
  function ColumnSum(w: seq<bool>, c: nat, k: nat): bool
    requires |w| == 64 && c < 4 && k <= 10
  {
    k > 0 && ColumnSum(w, c, k - 1) != w[9 + c + 5 * (k - 1)]
  }

  predicate ColumnOk(w: seq<bool>, c: nat)
    requires |w| == 64 && c < 4
  {
    w[59 + c] == ColumnSum(w, c, 10)
  }

  /** Stop bit, row parities and column parities. */
  predicate Body(w: seq<bool>)
    requires |w| == 64
  {
    && !w[63]
    && (forall i :: 0 <= i < 10 ==> RowOk(w, i))
    && (forall c :: 0 <= c < 4 ==> ColumnOk(w, c))
  }

  predicate Frame(w: seq<bool>) {
    |w| == 64 && Header(w, 0) && Body(w)
  }

  /** The 40 data bits of a frame, first sent first. */
  function Payload(w: seq<bool>): (d: seq<bool>)
    requires |w| == 64
    ensures |d| == 40
  {
    seq(40, i requires 0 <= i < 40 => w[9 + 5 * (i / 4) + i % 4])
  }

  // ----- the search

  predicate FrameAt(q: seq<bool>, o: nat) {
    o + 64 <= |q| && Header(q, o) && Body(q[o..o + 64])
  }

  /** The first offset from o on at which a whole frame stands within the first limit entries of q. */
  function Search(q: seq<bool>, limit: nat, o: nat): (r: Option<nat>)
    requires limit <= |q|
    decreases limit - o
    ensures r.Some? ==> o <= r.value && r.value + 64 <= limit && FrameAt(q, r.value)
    ensures forall p :: o <= p && p + 64 <= limit && FrameAt(q, p) ==> r.Some? && r.value <= p
  {
    if o + 64 > limit then None
    else if FrameAt(q, o) then Some(o)
    else Search(q, limit, o + 1)
  }

  /**
   * Where the decoder finds a frame. With an empty queue the header search is skipped, the slots at
   * the read pointer are taken for a frame, and on failure the scan goes on around the whole ring.
   */
  function Locate(r: Ring<bool>): (o: Option<nat>)
    requires r.Valid()
    ensures o.Some? ==> o.value + 64 <= SIZE
  {
    if r.Len() > 0 then Search(r.All(), r.Len(), 0)
    else if Body(r.All()[..64]) then Some(0)
    else Search(r.All(), SIZE, 1)
  }

  method CheckBody(w: array<bool>) returns (ok: bool)
    requires w.Length == 64
    ensures ok == Body(w[..])
  {
    if w[63] { return false; }
    var i := 0;
    while i < 10
      invariant 0 <= i <= 10
      invariant forall j :: 0 <= j < i ==> RowOk(w[..], j)
    {
      var rowParity := false;
      var k := 0;
      while k < 4
        invariant 0 <= k <= 4
        invariant k == 0 ==> rowParity == false
        invariant k == 1 ==> rowParity == w[9 + 5 * i]
        invariant k == 2 ==> rowParity == (w[9 + 5 * i] != w[9 + 5 * i + 1])
        invariant k == 3 ==> rowParity == ((w[9 + 5 * i] != w[9 + 5 * i + 1]) != w[9 + 5 * i + 2])
        invariant k == 4 ==> rowParity == RowSum(w[..], i)
      {
        rowParity := rowParity != w[9 + i * 5 + k];
        k := k + 1;
      }
      if rowParity != w[9 + i * 5 + k] {
        assert !RowOk(w[..], i);
        return false;
      }
      i := i + 1;
    }
    i := 0;
    while i < 4
      invariant 0 <= i <= 4
      invariant forall c :: 0 <= c < i ==> ColumnOk(w[..], c)
    {
      var colParity := false;
      var k := 0;
      while k < 10
        invariant 0 <= k <= 10
        invariant colParity == ColumnSum(w[..], i, k)
      {
        colParity := colParity != w[9 + i + k * 5];
        k := k + 1;
      }
      if colParity != w[9 + i + k * 5] {
        assert !ColumnOk(w[..], i);
        return false;
      }
      i := i + 1;
    }
    return true;
  }

  /** Five bytes that hold the 40 data bits d, the bits of each byte most significant first. */
  predicate Holds(bytes: seq<Word>, d: seq<bool>) {
    && |d| == 40 && |bytes| == 5
    && (forall b :: 0 <= b < 5 ==> |bytes[b]| == 8 && Msb(bytes[b]) == d[8 * b..8 * b + 8])
  }

  method Strip(w: array<bool>) returns (decoded: seq<Word>)
    requires w.Length == 64
    ensures Holds(decoded, Payload(w[..]))
  {
    decoded := seq(5, _ => seq(8, _ => false));
    var i, j := 0, 9;
    while i < 5
      invariant 0 <= i <= 5 && j == 9 + 10 * i
      invariant |decoded| == 5 && forall b :: 0 <= b < 5 ==> |decoded[b]| == 8
      invariant forall b :: 0 <= b < i ==> Msb(decoded[b]) == Payload(w[..])[8 * b..8 * b + 8]
      invariant forall b, k :: i <= b < 5 && 0 <= k < 8 ==> !decoded[b][k]
    {
      var byte := decoded[i];
      var k := 7;
      while k >= 4
        invariant 3 <= k <= 7 && j == 9 + 10 * i + (7 - k)
        invariant |byte| == 8
        invariant forall m :: k < m < 8 ==> byte[m] == w[9 + 10 * i + (7 - m)]
        invariant forall m :: 0 <= m <= k ==> !byte[m]
      {
        byte := byte[k := byte[k] || w[j]];
        k, j := k - 1, j + 1;
      }
      j := j + 1;
      k := 3;
      while k >= 0
        invariant -1 <= k <= 3 && j == 9 + 10 * i + 5 + (3 - k)
        invariant |byte| == 8
        invariant forall m :: 4 <= m < 8 ==> byte[m] == w[9 + 10 * i + (7 - m)]
        invariant forall m :: k < m < 4 ==> byte[m] == w[9 + 10 * i + 5 + (3 - m)]
        invariant forall m :: 0 <= m <= k ==> !byte[m]
      {
        byte := byte[k := byte[k] || w[j]];
        k, j := k - 1, j + 1;
      }
      j := j + 1;
      RowsOfByte(w[..], byte, i);
      decoded := decoded[i := byte];
      i := i + 1;
    }
  }

  lemma RowsOfByte(w: seq<bool>, byte: Word, i: nat)
    requires |w| == 64 && |byte| == 8 && i < 5
    requires forall m :: 4 <= m < 8 ==> byte[m] == w[9 + 10 * i + (7 - m)]
    requires forall m :: 0 <= m < 4 ==> byte[m] == w[9 + 10 * i + 5 + (3 - m)]
    ensures Msb(byte) == Payload(w)[8 * i..8 * i + 8]
  {
    forall p | 0 <= p < 8 ensures Msb(byte)[p] == Payload(w)[8 * i..8 * i + 8][p] {
      var q := 8 * i + p;
      if p < 4 {
        assert q / 4 == 2 * i && q % 4 == p;
      } else {
        assert q / 4 == 2 * i + 1 && q % 4 == p - 4;
      }
    }
  }

  method HeaderAt(data: array<bool>, my: nat, ghost start: nat, ghost o: nat) returns (foundStart: bool)
    requires data.Length == SIZE && start < SIZE && o + 9 <= SIZE && my == Slot(start, o)
    ensures foundStart == Header(From(data[..], start), o)
  {
    foundStart := true;
    var i := 0;
    while i < 9
      invariant 0 <= i <= 9
      invariant forall j :: o <= j < o + i ==> From(data[..], start)[j]
    {
      assert data[Slot(my, i)] == From(data[..], start)[o + i];
      if !data[Slot(my, i)] { return false; }
      i := i + 1;
    }
  }

  method CopyFrame(data: array<bool>, my: nat, ghost start: nat, ghost o: nat) returns (em: array<bool>)
    requires data.Length == SIZE && start < SIZE && o + 64 <= SIZE && my == Slot(start, o)
    ensures fresh(em) && em[..] == From(data[..], start)[o..o + 64]
  {
    em := new bool[64];
    var i := 0;
    while i < 64
      invariant 0 <= i <= 64
      invariant forall j :: 0 <= j < i ==> em[j] == From(data[..], start)[o + j]
    {
      em[i] := data[Slot(my, i)];
      i := i + 1;
    }
  }

  /** The scan for nine ones; on a queue found empty on entry it does nothing. */
  method FindStart(data: array<bool>, end: nat, from: nat, ghost start: nat, ghost o: nat)
    returns (enough: bool, my: nat, ghost at: nat)
    requires data.Length == SIZE && start < SIZE && end < SIZE
    requires var ring := Ring(data[..], start, end); o < Limit(ring) && from == Slot(start, o)
    ensures var ring := Ring(data[..], start, end);
      if o == 0 && ring.Len() == 0 then enough && at == o && my == from
      else if enough then
        && o <= at && at + 64 <= Limit(ring) && my == Slot(start, at) && Header(ring.All(), at)
        && Search(ring.All(), Limit(ring), o) == Search(ring.All(), Limit(ring), at)
      else Search(ring.All(), Limit(ring), o) == None
  {
    hide Header, Body;
    ghost var ring := Ring(data[..], start, end);
    my, at := from, o;
    var bytesInQueue: int := end - my;
    if my > end { bytesInQueue := bytesInQueue + SIZE; }
    while my != end
      invariant o <= at < Limit(ring) && my == Slot(start, at)
      invariant bytesInQueue == if at == 0 && ring.Len() == 0 then 0 else Limit(ring) - at
      invariant Search(ring.All(), Limit(ring), o) == Search(ring.All(), Limit(ring), at)
      invariant o == 0 && ring.Len() == 0 ==> at == o
      decreases Limit(ring) - at
    {
      if bytesInQueue < 64 { return false, my, at; }
      var foundStart := HeaderAt(data, my, start, at);
      if foundStart { break; }
      my := Slot(my, 1);
      bytesInQueue := bytesInQueue - 1;
      at := at + 1;
    }
    return true, my, at;
  }

  method TryFrame(data: array<bool>, my: nat, ghost start: nat, ghost o: nat) returns (ok: bool, decoded: seq<Word>)
    requires data.Length == SIZE && start < SIZE && o + 64 <= SIZE && my == Slot(start, o)
    ensures ok == Body(From(data[..], start)[o..o + 64])
    ensures ok ==> Holds(decoded, Payload(From(data[..], start)[o..o + 64]))
  {
    var em := CopyFrame(data, my, start, o);
    ok := CheckBody(em);
    decoded := [];
    if ok { decoded := Strip(em); }
  }

  /** The search has not yet passed a frame when it stands at offset o. */
  ghost predicate Searching(r: Ring<bool>, o: nat) {
    && r.Valid() && o < Limit(r)
    && (o > 0 || r.Len() > 0 ==> Locate(r) == Search(r.All(), Limit(r), o))
  }

  /** The header scan has moved on from offset o to offset at, where a frame may be tried. */
  ghost predicate Reached(r: Ring<bool>, o: nat, at: nat) {
    && r.Valid() && at + 64 <= SIZE
    && if o == 0 && r.Len() == 0 then at == o
       else && o <= at && at + 64 <= Limit(r) && Header(r.All(), at)
            && Search(r.All(), Limit(r), o) == Search(r.All(), Limit(r), at)
  }

  lemma Found(r: Ring<bool>, o: nat, at: nat)
    requires Searching(r, o) && Reached(r, o, at) && Body(r.All()[at..at + 64])
    ensures Locate(r) == Some(at)
  {
  }

  lemma Missed(r: Ring<bool>, o: nat, at: nat)
    requires Searching(r, o) && Reached(r, o, at) && !Body(r.All()[at..at + 64])
    ensures Searching(r, at + 1)
  {
  }

  /** decodeEM4100: scan the ring from *startPtr to *endPtr. */
  method Decode(data: array<bool>, start: nat, end: nat)
    returns (found: bool, decoded: seq<Word>, newStart: nat)
    requires data.Length == SIZE && start < SIZE && end < SIZE
    ensures var ring := Ring(data[..], start, end);
      match Locate(ring)
      case None => !found && newStart == start
      case Some(o) =>
        && found && newStart == Slot(start, 64)
        && Holds(decoded, Payload(ring.All()[o..o + 64]))
  {
    hide Header, Body, Search, Holds;
    ghost var ring := Ring(data[..], start, end);
    ghost var o: nat := 0;
    var my := start;
    while true
      invariant Searching(ring, o) && my == Slot(start, o)
      decreases Limit(ring) - o
    {
      ghost var from := o;
      var enough;
      enough, my, o := FindStart(data, end, my, start, o);
      if !enough { return false, [], start; }
      var ok;
      ok, decoded := TryFrame(data, my, start, o);
      if ok {
        Found(ring, from, o);
        return true, decoded, Slot(start, 64);
      }
      my := Slot(my, 1);
      Missed(ring, from, o);
      o := o + 1;
    }
    return false, [], start;
  }
}
