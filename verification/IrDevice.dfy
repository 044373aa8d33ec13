/** The infrared codec as it runs: loops over arrays, refining the functions of IrCode. */
module IrDevice {
  import opened Words
  import opened Rings
  import opened Blocks
  import opened IrBiphase
  import opened IrCode
  import opened IrRc6
  import opened IrRoundTrip

  // ----- codeInfoToRawData, space encoding

  /** The TIME_TO_PACKET macro */
  method TimeToPacket(p: Packed, capacity: nat, us: nat) returns (q: Packed)
    requires p.status == Ok
    ensures q == Put(p, capacity, us)
  {
    if |p.data| + 2 >= capacity { return p.(status := NoMemory); }
    if us > 327670 { return p.(status := InvalidArg); }
    var data := p.data;
    if us > 1270 { data := data + [us / 10 / 256 + 128]; }
    data := data + [us / 10 % 256];
    q := Packed(Ok, data, p.time + us);
  }

  /** What follows an error changes nothing. */
  lemma {:induction false} ErrorStays(capacity: nat, a: seq<nat>, b: seq<nat>)
    requires PutAll(capacity, a).status != Ok
    ensures PutAll(capacity, a + b).status == PutAll(capacity, a).status
  {
    if b == [] {
      assert a + b == a;
    } else {
      ErrorStays(capacity, a, b[..|b| - 1]);
      assert (a + b)[..|a + b| - 1] == a + b[..|b| - 1];
    }
  }

  method PutPair(p: Packed, capacity: nat, pair: (nat, nat), ghost before: seq<nat>, ghost after: seq<nat>)
    returns (q: Packed)
    requires p == PutAll(capacity, before) && p.status == Ok
    ensures q.status == Ok ==> q == PutAll(capacity, before + [pair.0, pair.1])
    ensures q.status != Ok ==> PutAll(capacity, before + [pair.0, pair.1] + after).status == q.status
  {
    hide Put;
    PutMore(capacity, before, pair.0);
    q := TimeToPacket(p, capacity, pair.0);
    var all := before + [pair.0, pair.1];
    assert all == before + [pair.0] + [pair.1];
    if q.status != Ok {
      ErrorStays(capacity, before + [pair.0], [pair.1] + after);
      assert before + [pair.0] + ([pair.1] + after) == all + after;
      return;
    }
    PutMore(capacity, before + [pair.0], pair.1);
    q := TimeToPacket(q, capacity, pair.1);
    if q.status != Ok { ErrorStays(capacity, all, after); }
  }

  lemma PutMore(capacity: nat, times: seq<nat>, us: nat)
    ensures PutAll(capacity, times + [us]) == Put(PutAll(capacity, times), capacity, us)
  {
    assert (times + [us])[..|times|] == times;
  }

  /** The repeat code as it stands. */
  method RepeatToRawData(times: seq<nat>, capacity: nat) returns (p: Packed)
    ensures p.status == PutAll(capacity, times).status && (p.status == Ok ==> p == PutAll(capacity, times))
  {
    p := Packed(Ok, [], 0);
    var j := 0;
    assert times[..0] == [];
    while j < |times|
      invariant 0 <= j <= |times| && p.status == Ok && p == PutAll(capacity, times[..j])
    {
      PutMore(capacity, times[..j], times[j]);
      assert times[..j] + [times[j]] == times[..j + 1];
      p := TimeToPacket(p, capacity, times[j]);
      if p.status != Ok {
        ErrorStays(capacity, times[..j + 1], times[j + 1..]);
        assert times[..j + 1] + times[j + 1..] == times;
        return;
      }
      j := j + 1;
    }
    assert times[..j] == times;
  }

  /** Bit by bit, the most significant first; k runs over the bits of the bytes, j over those of the code. */
  method BitsToRawData(code: seq<Word>, info: CodeInfo, start: Packed, capacity: nat, ghost bits: seq<bool>)
    returns (p: Packed)
    requires Bytes(code) && |code| == ByteCount(info.bitCount) && info.bitCount <= 8 * |code|
    requires bits == SentBits(code, info.bitCount)
    requires start == PutAll(capacity, HeaderTimes(info)) && start.status == Ok
    ensures var all := HeaderTimes(info) + BitTimes(info, bits);
      && (p.status == Ok ==> p == PutAll(capacity, all))
      && (p.status != Ok ==> p.status == PutAll(capacity, all).status)
  {
    hide SentBits, PutAll, HeaderTimes;
    p := start;
    var j: int, k := info.bitCount - 1, (8 - info.bitCount % 8) % 8;
    ghost var n := 0;
    assert HeaderTimes(info) + BitTimes(info, bits[..0]) == HeaderTimes(info);
    while j >= 0
      invariant -1 <= j && n == info.bitCount - 1 - j && n <= |bits| && k == 8 * |code| - info.bitCount + n
      invariant p.status == Ok && p == PutAll(capacity, HeaderTimes(info) + BitTimes(info, bits[..n]))
    {
      BitSent(code, info.bitCount, n, j, k);
      var bit := code[k / 8][j % 8];
      assert bits[..n + 1][..n] == bits[..n];
      ghost var before := HeaderTimes(info) + BitTimes(info, bits[..n]);
      var t := if bit then info.one else info.zero;
      ghost var later := LaterTimes(info, bits, n + 1);
      p := PutPair(p, capacity, t, before, later);
      assert before + [t.0, t.1] == HeaderTimes(info) + BitTimes(info, bits[..n + 1]);
      if p.status != Ok {
        assert before + [t.0, t.1] + later == HeaderTimes(info) + BitTimes(info, bits);
        return;
      }
      j, k, n := j - 1, k + 1, n + 1;
    }
    assert bits[..n] == bits;
  }

  lemma BitSent(code: seq<Word>, bitCount: nat, n: nat, j: nat, k: nat)
    requires Bytes(code) && bitCount <= 8 * |code| && n < bitCount && j == bitCount - 1 - n
    requires k == 8 * |code| - bitCount + n
    ensures SentBits(code, bitCount)[n] == code[k / 8][j % 8]
  {
    StreamBit(code, k);
    assert 7 - k % 8 == j % 8;
  }

  /** What is still to come after the first n bits. */
  lemma {:induction false} LaterTimes(info: CodeInfo, bits: seq<bool>, n: nat) returns (later: seq<nat>)
    requires n <= |bits|
    ensures BitTimes(info, bits) == BitTimes(info, bits[..n]) + later
    decreases |bits|
  {
    if n == |bits| {
      assert bits[..n] == bits;
      later := [];
    } else {
      var m := |bits| - 1;
      var t := if bits[m] then info.one else info.zero;
      later := LaterTimes(info, bits[..m], n);
      assert bits[..m][..n] == bits[..n];
      later := later + [t.0, t.1];
    }
  }

  /** codeInfoToRawData without the repeat code, for space encoding. */
  method SpacesToRawData(code: seq<Word>, info: CodeInfo, rawDataLength: nat) returns (p: Packed)
    requires Bytes(code) && |code| == ByteCount(info.bitCount) && info.bitCount <= 8 * |code|
    ensures var q := PutAll(rawDataLength, CodeTimes(info, SentBits(code, info.bitCount), false));
      p.status == q.status && (p.status == Ok ==> p == q)
  {
    hide SentBits;
    ghost var bits := SentBits(code, info.bitCount);
    ghost var rest := BitTimes(info, bits) + [info.trail];
    p := Packed(Ok, [], 0);
    if info.header.0 != 0 {
      assert [] + [info.header.0, info.header.1] == HeaderTimes(info);
      p := PutPair(p, rawDataLength, info.header, [], rest);
    }
    assert HeaderTimes(info) + rest == CodeTimes(info, bits, false);
    if p.status != Ok { return; }
    p := BitsToRawData(code, info, p, rawDataLength, bits);
    ghost var all := HeaderTimes(info) + BitTimes(info, bits);
    assert all + [info.trail] == CodeTimes(info, bits, false);
    if p.status != Ok {
      ErrorStays(rawDataLength, all, [info.trail]);
      return;
    }
    PutMore(rawDataLength, all, info.trail);
    p := TimeToPacket(p, rawDataLength, info.trail);
  }

  /**
   * The same for pulse encoding: after the bits the last space is taken away again. Whether it is that of
   * a 1 or of a 0 is read off the lowest bit of the first byte.
   */
  method PulsesToRawData(code: seq<Word>, info: CodeInfo, rawDataLength: nat) returns (p: Packed)
    requires Bytes(code) && |code| == ByteCount(info.bitCount) && 0 < info.bitCount <= 8 * |code|
    ensures var q := PutAll(rawDataLength, HeaderTimes(info) + BitTimes(info, SentBits(code, info.bitCount)));
      && p.status == q.status
      && (q.status == Ok ==> |q.data| >= 2 && p == Remove(q, if code[0][0] then info.one.1 else info.zero.1))
  {
    hide SentBits, PutAll, BitTimes;
    ghost var bits := SentBits(code, info.bitCount);
    ghost var all := HeaderTimes(info) + BitTimes(info, bits);
    p := Packed(Ok, [], 0);
    NothingPut(rawDataLength);
    if info.header.0 != 0 {
      assert [] + [info.header.0, info.header.1] == HeaderTimes(info);
      p := PutPair(p, rawDataLength, info.header, [], BitTimes(info, bits));
    }
    if p.status != Ok { return; }
    p := BitsToRawData(code, info, p, rawDataLength, bits);
    if p.status != Ok { return; }
    PutSize(rawDataLength, all);
    assert |all| >= 2 by { SizeOfTimes(info, bits); }
    p := TakeSpace(p, if code[0][0] then info.one.1 else info.zero.1);
  }

  lemma SizeOfTimes(info: CodeInfo, bits: seq<bool>)
    ensures |BitTimes(info, bits)| == 2 * |bits|
  {
  }

  /** As many bytes as a space takes, and its time. */
  method TakeSpace(p: Packed, space: nat) returns (q: Packed)
    requires |p.data| >= 2 && p.status == Ok
    ensures q == Remove(p, space)
  {
    var i := |p.data|;
    if space > 1270 { i := i - 1; }
    i := i - 1;
    q := Packed(Ok, p.data[..i], p.time - space);
  }

  lemma NothingPut(capacity: nat)
    ensures PutAll(capacity, []) == Packed(Ok, [], 0)
  {
  }

  // ----- codeInfoToRawData, bi-phase encodings

  function LengthsOf(info: CodeInfo): Lengths { Lengths(info.one, info.zero) }

  /** Up to two lengths. */
  method PutShort(p: Packed, capacity: nat, times: seq<nat>, ghost before: seq<nat>, ghost after: seq<nat>)
    returns (q: Packed)
    requires p == PutAll(capacity, before) && p.status == Ok && |times| <= 2
    ensures q.status == Ok ==> q == PutAll(capacity, before + times)
    ensures q.status != Ok ==> PutAll(capacity, before + times + after).status == q.status
  {
    hide PutAll, Put;
    if |times| == 0 {
      assert before + times == before;
      q := p;
    } else if |times| == 1 {
      assert times == [times[0]];
      PutMore(capacity, before, times[0]);
      q := TimeToPacket(p, capacity, times[0]);
      if q.status != Ok { ErrorStays(capacity, before + times, after); }
    } else {
      assert times == [times[0], times[1]];
      q := PutPair(p, capacity, (times[0], times[1]), before, after);
    }
  }

  /** The half of the last bit still to come and the half of this one, merged if they are of one level. */
  method NextLengths(kind: Kind, info: CodeInfo, lastbit: bool, b: bool, bit: nat) returns (times: seq<nat>)
    ensures times == NextTimes(kind, LengthsOf(info), lastbit, b, bit)
  {
    var four, five := kind == RC6 && bit == 4, kind == RC6 && bit == 5;
    if b {
      if lastbit {
        times := [if five then info.one.1 * 2 else info.one.1, if four then info.one.0 * 2 else info.one.0];
      } else if four {
        times := [info.zero.1 + info.one.0 * 2];
      } else if five {
        times := [info.zero.1 * 2 + info.one.0];
      } else {
        times := [info.zero.1 + info.one.0];
      }
    } else if lastbit {
      if four {
        times := [info.one.1 + info.zero.0 * 2];
      } else if five {
        times := [info.one.1 * 2 + info.zero.0];
      } else {
        times := [info.one.1 + info.zero.0];
      }
    } else {
      times := [if five then info.zero.1 * 2 else info.zero.1, if four then info.zero.0 * 2 else info.zero.0];
    }
  }

  /** What comes behind the first n bits. */
  lemma {:induction false} LaterHalves(kind: Kind, l: Lengths, bits: seq<bool>, n: nat) returns (later: seq<nat>)
    requires 0 < n <= |bits|
    ensures Merged(kind, l, bits) == Merged(kind, l, bits[..n]) + later
    decreases |bits|
  {
    hide NextTimes;
    if n == |bits| {
      assert bits[..n] == bits;
      later := [];
    } else {
      var m := |bits| - 1;
      later := LaterHalves(kind, l, bits[..m], n);
      assert bits[..m][..n] == bits[..n];
      later := later + NextTimes(kind, l, bits[m - 1], bits[m], m);
    }
  }

  lemma MergedMore(kind: Kind, l: Lengths, bits: seq<bool>, n: nat)
    requires 0 < n < |bits|
    ensures Merged(kind, l, bits[..n + 1]) == Merged(kind, l, bits[..n]) + NextTimes(kind, l, bits[n - 1], bits[n], n)
  {
    hide NextTimes;
    assert bits[..n + 1][..n] == bits[..n];
  }

  lemma MergedOne(kind: Kind, l: Lengths, bits: seq<bool>)
    requires bits != []
    ensures Merged(kind, l, bits[..1]) == FirstTimes(kind, l, bits[0])
  {
  }

  /** What has been put so far is what all of it begins with, and so is an error. */
  predicate Puts(p: Packed, capacity: nat, done: seq<nat>, all: seq<nat>) {
    if p.status == Ok then p == PutAll(capacity, done) else p.status == PutAll(capacity, all).status
  }

  /** The lengths of the bits but for the end of the last one. */
  method MergedToRawData(code: seq<Word>, info: CodeInfo, kind: Kind, start: Packed, capacity: nat,
      ghost bits: seq<bool>) returns (p: Packed, lastbit: bool)
    requires Bytes(code) && |code| == ByteCount(info.bitCount) && 0 < info.bitCount <= 8 * |code|
    requires bits == SentBits(code, info.bitCount)
    requires start == PutAll(capacity, HeaderTimes(info)) && start.status == Ok
    ensures var all := HeaderTimes(info) + Merged(kind, LengthsOf(info), bits); Puts(p, capacity, all, all)
    ensures p.status == Ok ==> lastbit == bits[|bits| - 1]
  {
    hide SentBits, PutAll, HeaderTimes, NextTimes, FirstTimes, Merged, LengthsOf;
    ghost var l, header := LengthsOf(info), HeaderTimes(info);
    var j: int, k := info.bitCount - 1, (8 - info.bitCount % 8) % 8;
    BitSent(code, info.bitCount, 0, j, k);
    MergedOne(kind, l, bits);
    ghost var later := LaterHalves(kind, l, bits, 1);
    lastbit := code[k / 8][j % 8];
    var first := FirstLengths(kind, info, lastbit);
    p := PutShort(start, capacity, first, header, later);
    assert header + first + later == header + (first + later);
    if p.status != Ok { return; }
    j, k := j - 1, k + 1;
    ghost var n := 1;
    while j >= 0
      invariant -1 <= j && n == info.bitCount - 1 - j && 0 < n <= |bits| && k == 8 * |code| - info.bitCount + n
      invariant p.status == Ok && p == PutAll(capacity, header + Merged(kind, l, bits[..n])) && lastbit == bits[n - 1]
    {
      BitSent(code, info.bitCount, n, j, k);
      var bit := info.bitCount - j - 1;
      var b := code[k / 8][j % 8];
      var times := NextLengths(kind, info, lastbit, b, bit);
      MergedMore(kind, l, bits, n);
      later := LaterHalves(kind, l, bits, n + 1);
      ghost var before := header + Merged(kind, l, bits[..n]);
      assert before + times == header + Merged(kind, l, bits[..n + 1]);
      assert before + times + later == header + Merged(kind, l, bits);
      assert |times| <= 2 by { TwoAtMost(kind, l, lastbit, b, bit); }
      p := PutShort(p, capacity, times, before, later);
      if p.status != Ok { return; }
      lastbit := b;
      j, k, n := j - 1, k + 1, n + 1;
    }
    assert bits[..n] == bits;
  }

  lemma TwoAtMost(kind: Kind, l: Lengths, last: bool, bit: bool, place: nat)
    ensures |NextTimes(kind, l, last, bit, place)| <= 2
  {
  }

  method FirstLengths(kind: Kind, info: CodeInfo, bit: bool) returns (times: seq<nat>)
    ensures times == FirstTimes(kind, LengthsOf(info), bit) && |times| <= 2
  {
    times := [];
    if bit {
      if kind == RC6 { times := [info.one.0]; }
    } else {
      if kind != RC6 { times := [info.zero.0]; }
    }
  }

  method LastLengths(kind: Kind, info: CodeInfo, lastbit: bool) returns (times: seq<nat>)
    ensures times == LastTimes(kind, LengthsOf(info), lastbit) && |times| <= 2
  {
    times := [];
    if lastbit && kind != RC6 { times := [info.one.1]; }
    if !lastbit && kind == RC6 { times := [info.zero.1]; }
  }

  /** codeInfoToRawData without the repeat code, for the three bi-phase encodings. */
  method HalvesToRawData(code: seq<Word>, info: CodeInfo, kind: Kind, rawDataLength: nat) returns (p: Packed)
    requires Bytes(code) && |code| == ByteCount(info.bitCount) && 0 < info.bitCount <= 8 * |code|
    ensures var all := HeaderTimes(info) + HalfTimes(kind, LengthsOf(info), SentBits(code, info.bitCount));
      Puts(p, rawDataLength, all, all)
  {
    hide SentBits, PutAll, Merged, LastTimes, LengthsOf;
    ghost var bits, l := SentBits(code, info.bitCount), LengthsOf(info);
    ghost var end := LastTimes(kind, l, bits[|bits| - 1]);
    ghost var merged := HeaderTimes(info) + Merged(kind, l, bits);
    assert HeaderTimes(info) + HalfTimes(kind, l, bits) == merged + end;
    p := Packed(Ok, [], 0);
    NothingPut(rawDataLength);
    if info.header.0 != 0 {
      assert [] + [info.header.0, info.header.1] == HeaderTimes(info);
      p := PutPair(p, rawDataLength, info.header, [], Merged(kind, l, bits) + end);
      assert HeaderTimes(info) + (Merged(kind, l, bits) + end) == merged + end;
    }
    if p.status != Ok { return; }
    var lastbit;
    p, lastbit := MergedToRawData(code, info, kind, p, rawDataLength, bits);
    if p.status != Ok {
      ErrorStays(rawDataLength, merged, end);
      return;
    }
    var times := LastLengths(kind, info, lastbit);
    p := PutShort(p, rawDataLength, times, merged, []);
    assert merged + times + [] == merged + times;
  }

  // ----- codeInfoToRawData

  datatype Encoding = UNKNOWN | SPACE | PULSE | Halves(kind: Kind)

  /** The lengths of a code in a given encoding; of a pulse code with its last space, which is then taken away. */
  function EncodedTimes(encoding: Encoding, info: CodeInfo, bits: seq<bool>): seq<nat>
    requires bits != []
  {
    match encoding
    case UNKNOWN => HeaderTimes(info)
    case SPACE => CodeTimes(info, bits, false)
    case PULSE => HeaderTimes(info) + BitTimes(info, bits)
    case Halves(kind) => HeaderTimes(info) + HalfTimes(kind, LengthsOf(info), bits)
  }

  /** Without a known encoding there is nothing to send behind the header. */
  method UnknownToRawData(info: CodeInfo, rawDataLength: nat) returns (p: Packed)
    ensures var q := PutAll(rawDataLength, HeaderTimes(info));
      p.status == if q.status == Ok then InvalidArg else q.status
  {
    hide PutAll;
    p := Packed(Ok, [], 0);
    NothingPut(rawDataLength);
    if info.header.0 != 0 {
      assert [] + [info.header.0, info.header.1] == HeaderTimes(info);
      p := PutPair(p, rawDataLength, info.header, [], []);
      assert HeaderTimes(info) + [] == HeaderTimes(info);
    }
    if p.status == Ok { p := p.(status := InvalidArg); }
  }

  /** codeInfoToRawData: the repeat code as it stands, or the bits in one of the encodings. */
  method CodeInfoToRawData(code: seq<Word>, info: CodeInfo, encoding: Encoding, rawDataLength: nat, again: bool)
    returns (p: Packed)
    requires Bytes(code) && |code| == ByteCount(info.bitCount) && 0 < info.bitCount <= 8 * |code|
    ensures again && info.repeatCode != [] ==>
      Puts(p, rawDataLength, info.repeatCode, info.repeatCode)
    ensures !(again && info.repeatCode != []) ==>
      var q := PutAll(rawDataLength, EncodedTimes(encoding, info, SentBits(code, info.bitCount)));
      && p.status == (if encoding.UNKNOWN? && q.status == Ok then InvalidArg else q.status)
      && (p.status == Ok ==>
            if encoding.PULSE? then |q.data| >= 2 && p == Remove(q, if code[0][0] then info.one.1 else info.zero.1)
            else p == q)
  {
    hide SentBits, PutAll, CodeTimes, BitTimes, HalfTimes;
    if again && info.repeatCode != [] {
      p := RepeatToRawData(info.repeatCode, rawDataLength);
      return;
    }
    match encoding
    case UNKNOWN => p := UnknownToRawData(info, rawDataLength);
    case SPACE => p := SpacesToRawData(code, info, rawDataLength);
    case PULSE => p := PulsesToRawData(code, info, rawDataLength);
    case Halves(kind) => p := HalvesToRawData(code, info, kind, rawDataLength);
  }

  // ----- decode_data

  /** What decode_data leaves for its caller. */
  datatype Result = Failed | OutOfRoom
    | Code(encoding: Encoding, bitCount: nat, bytes: seq<Word>, one: (nat, nat), zero: (nat, nat), trail: nat)

  predicate Agrees(r: Result, d: Decoded) {
    match d
    case Unexpected => r == Failed
    case Biphase(kind, bits, pulse) =>
      r.Code? && HoldsBits(r.bytes, bits)
      && r == Code(Halves(kind), |bits|, r.bytes, (pulse, pulse), (pulse, pulse), r.trail)
    case Overrun => r == OutOfRoom
    case Space(bits, one, zero, trail) =>
      r.Code? && HoldsBits(r.bytes, bits) && r == Code(SPACE, |bits|, r.bytes, one, zero, trail)
    case Pulse(bits, one, zero) =>
      r.Code? && HoldsBits(r.bytes, bits) && r == Code(PULSE, |bits|, r.bytes, one, zero, r.trail)
  }

  /** The COUNT_TIMES macro for one place */
  method CountAt(slots: array<nat>, index: nat, count: nat, t: nat) returns (done: bool, n: nat)
    requires slots.Length == 5 && index < 4
    modifies slots
    ensures done == Fits(old(slots[..]), index, t)
    ensures slots[..] == if done then old(slots[..])[index := t] else old(slots[..])
    ensures n == if done then Larger(count, index + 1) else count
  {
    n := count;
    done := slots[index] == t || slots[index] == 0;
    if done {
      slots[index] := t;
      if n < index + 1 { n := index + 1; }
    }
  }

  method CountTime(slots: array<nat>, count: nat, t: nat) returns (ok: bool, n: nat)
    requires slots.Length == 5
    modifies slots
    ensures var c := Note(Count(old(slots[..]), count), t);
      if ok then c == Some(Count(slots[..], n)) else c == None
  {
    ok, n := CountAt(slots, 0, count, t);
    if ok { return; }
    ok, n := CountAt(slots, 1, count, t);
    if ok { return; }
    ok, n := CountAt(slots, 2, count, t);
    if ok { return; }
    ok, n := CountAt(slots, 3, count, t);
  }

  method CountTimes(data: seq<nat>, highs: array<nat>, lows: array<nat>)
    returns (ok: bool, highcount: nat, lowcount: nat)
    requires highs.Length == lows.Length == 5 && highs != lows && highs[..] == lows[..] == [0, 0, 0, 0, 0]
    modifies highs, lows
    ensures if ok then Counted(data, |data|) == Some((Count(highs[..], highcount), Count(lows[..], lowcount)))
            else Counted(data, |data|) == None
  {
    hide Note;
    highcount, lowcount := 0, 0;
    var i := 0;
    while i < |data|
      invariant 0 <= i <= |data| && Counted(data, i) == Some((Count(highs[..], highcount), Count(lows[..], lowcount)))
    {
      if i % 2 == 0 {
        ok, highcount := CountTime(highs, highcount, data[i]);
      } else {
        ok, lowcount := CountTime(lows, lowcount, data[i]);
      }
      if !ok {
        NoneStays(data, i + 1);
        return;
      }
      i := i + 1;
    }
    ok := true;
  }

  lemma {:induction false} NoneStays(data: seq<nat>, i: nat)
    requires i <= |data| && Counted(data, i) == None
    ensures Counted(data, |data|) == None
    decreases |data| - i
  {
    if i < |data| {
      assert Counted(data, i + 1) == None;
      NoneStays(data, i + 1);
    }
  }

  method OrderTimes(slots: array<nat>, index: nat)
    requires slots.Length == 5 && index < 4
    modifies slots
    ensures slots[..] == Order(old(slots[..]), index)
  {
    if slots[index + 1] != 0 && slots[index + 1] < slots[index] {
      slots[index], slots[index + 1] := slots[index + 1], slots[index];
    }
  }

  /** Rounds of exchanges put the lengths in ascending order, the unused places last. */
  method SortTimes(slots: array<nat>)
    requires slots.Length == 5
    modifies slots
    ensures slots[..] == Sorted(old(slots[..]), 5)
  {
    hide Order;
    ghost var s := slots[..];
    var i := 0;
    while i < 5
      invariant 0 <= i <= 5 && slots[..] == Sorted(s, i)
    {
      OrderTimes(slots, 0);
      OrderTimes(slots, 1);
      OrderTimes(slots, 2);
      OrderTimes(slots, 3);
      i := i + 1;
    }
  }

  /** Bit b of decode_temp. */
  predicate TempHolds(temp: seq<Word>, bits: seq<bool>, n: nat)
    requires |temp| == 16 && Bytes(temp) && n <= |bits| <= 128
  {
    forall b :: 0 <= b < 128 ==> temp[b / 8][b % 8] == (b < n && bits[b])
  }

  /** decode_temp begins with the bits; what is behind them does not matter. */
  predicate TempBegins(temp: seq<Word>, bits: seq<bool>)
    requires |temp| == 16 && Bytes(temp) && |bits| <= 128
  {
    forall b :: 0 <= b < |bits| ==> temp[b / 8][b % 8] == bits[b]
  }

  lemma HeldBegins(temp: seq<Word>, bits: seq<bool>)
    requires |temp| == 16 && Bytes(temp) && |bits| <= 128 && TempHolds(temp, bits, |bits|)
    ensures TempBegins(temp, bits)
  {
  }

  /** Every other length from the given place on: is it the one of a 1? */
  method ReadBits(data: seq<nat>, place: nat, n: nat, dataTimeOne: nat) returns (temp: seq<Word>)
    requires place < 2 && n <= 128 && (n > 0 ==> 2 * (n - 1) + place < |data|)
    ensures |temp| == 16 && Bytes(temp) && TempHolds(temp, BitsAt(data, place, n, dataTimeOne), n)
  {
    hide TempHolds;
    ghost var bits := BitsAt(data, place, n, dataTimeOne);
    temp := seq(16, _ => [false, false, false, false, false, false, false, false]);
    TempStart(temp, bits);
    var bitcount := 0;
    while bitcount < n
      invariant 0 <= bitcount <= n && |temp| == 16 && Bytes(temp) && TempHolds(temp, bits, bitcount)
    {
      ghost var before := temp;
      if data[2 * bitcount + place] == dataTimeOne {
        temp := temp[bitcount / 8 := OrBit(temp[bitcount / 8], bitcount % 8, true)];
      }
      TempMore(before, temp, bits, bitcount);
      bitcount := bitcount + 1;
    }
  }

  lemma TempStart(temp: seq<Word>, bits: seq<bool>)
    requires |temp| == 16 && |bits| <= 128
    requires forall k :: 0 <= k < 16 ==> temp[k] == [false, false, false, false, false, false, false, false]
    ensures Bytes(temp) && TempHolds(temp, bits, 0)
  {
  }

  lemma SameBit(a: nat, b: nat)
    requires a / 8 == b / 8 && a % 8 == b % 8
    ensures a == b
  {
  }

  lemma TempMore(before: seq<Word>, after: seq<Word>, bits: seq<bool>, n: nat)
    requires |before| == 16 && Bytes(before) && n < |bits| <= 128 && TempHolds(before, bits, n)
    requires after == if bits[n] then before[n / 8 := OrBit(before[n / 8], n % 8, true)] else before
    ensures |after| == 16 && Bytes(after) && TempHolds(after, bits, n + 1)
  {
    forall b | 0 <= b < 128 ensures after[b / 8][b % 8] == (b < n + 1 && bits[b]) {
      assert before[b / 8][b % 8] == (b < n && bits[b]);
      if b / 8 == n / 8 && b % 8 == n % 8 { SameBit(b, n); }
    }
  }

  /** The last n bits of the output are those from the end of decode_temp; everything before them is clear. */
  predicate Flipped(bytes: seq<Word>, bits: seq<bool>, n: nat)
    requires Bytes(bytes) && n <= |bits| <= 8 * |bytes|
  {
    forall k :: 0 <= k < 8 * |bytes| ==>
      bytes[k / 8][7 - k % 8] == (k >= 8 * |bytes| - n && bits[k - (8 * |bytes| - |bits|)])
  }

  /** Data is LSB first, flip it to MSB first. */
  method Flip(temp: seq<Word>, bitcount: nat, ghost bits: seq<bool>) returns (bytes: seq<Word>)
    requires |temp| == 16 && Bytes(temp) && bitcount == |bits| <= 128 && TempBegins(temp, bits)
    ensures HoldsBits(bytes, bits)
  {
    hide Flipped, TempBegins;
    var outlength := bitcount / 8 + (if bitcount % 8 != 0 then 1 else 0);
    ByteCountFits(bitcount);
    bytes := seq(outlength, _ => [false, false, false, false, false, false, false, false]);
    FlipStart(bytes, bits);
    var i, j: int, n: int := 0, bitcount - 1, outlength * 8 - 1;
    while i < bitcount
      invariant 0 <= i <= bitcount && j == bitcount - 1 - i && n == outlength * 8 - 1 - i
      invariant |bytes| == outlength && Bytes(bytes) && Flipped(bytes, bits, i)
    {
      TempBit(temp, bits, j);
      ghost var before := bytes;
      if temp[j / 8][j % 8] { bytes := bytes[n / 8 := OrBit(bytes[n / 8], i % 8, true)]; }
      FlipMore(before, bytes, bits, i, n);
      i, j, n := i + 1, j - 1, n - 1;
    }
    FlippedHolds(bytes, bits);
  }

  lemma TempBit(temp: seq<Word>, bits: seq<bool>, j: nat)
    requires |temp| == 16 && Bytes(temp) && j < |bits| <= 128 && TempBegins(temp, bits)
    ensures temp[j / 8][j % 8] == bits[j]
  {
  }

  lemma FlipStart(bytes: seq<Word>, bits: seq<bool>)
    requires |bits| <= 8 * |bytes|
    requires forall k :: 0 <= k < |bytes| ==> bytes[k] == [false, false, false, false, false, false, false, false]
    ensures Bytes(bytes) && Flipped(bytes, bits, 0)
  {
  }

  lemma FlipMore(before: seq<Word>, after: seq<Word>, bits: seq<bool>, i: nat, n: nat)
    requires Bytes(before) && i < |bits| <= 8 * |before| && Flipped(before, bits, i) && n == 8 * |before| - 1 - i
    requires after == if bits[|bits| - 1 - i] then before[n / 8 := OrBit(before[n / 8], i % 8, true)] else before
    ensures Bytes(after) && |after| == |before| && Flipped(after, bits, i + 1)
  {
    assert i % 8 == 7 - n % 8;
    forall k | 0 <= k < 8 * |after|
      ensures after[k / 8][7 - k % 8] == (k >= 8 * |after| - (i + 1) && bits[k - (8 * |after| - |bits|)])
    {
      assert before[k / 8][7 - k % 8] == (k >= 8 * |before| - i && bits[k - (8 * |before| - |bits|)]);
      if k / 8 == n / 8 && k % 8 == n % 8 { SameBit(k, n); }
    }
  }

  lemma FlippedHolds(bytes: seq<Word>, bits: seq<bool>)
    requires Bytes(bytes) && |bytes| == ByteCount(|bits|) && |bits| <= 8 * |bytes| && Flipped(bytes, bits, |bits|)
    ensures HoldsBits(bytes, bits)
  {
    hide Stream;
    StreamLength(bytes);
    var pad := 8 * |bytes| - |bits|;
    forall k | 0 <= k < 8 * |bytes| ensures Stream(bytes)[k] == (k >= pad && bits[k - pad]) {
      StreamBit(bytes, k);
    }
    assert SentBits(bytes, |bits|) == bits;
  }

  /** Check the size, then flip. */
  method Finish(encoding: Encoding, temp: seq<Word>, bitcount: nat, one: (nat, nat), zero: (nat, nat), trail: nat,
      outlength: nat, ghost bits: seq<bool>) returns (r: Result)
    requires |temp| == 16 && Bytes(temp) && bitcount == |bits| <= 128 && TempBegins(temp, bits)
    ensures if SizeOk(bitcount, outlength)
      then r.Code? && HoldsBits(r.bytes, bits) && r == Code(encoding, bitcount, r.bytes, one, zero, trail)
      else r == Failed
  {
    if outlength < bitcount / 8 + (if bitcount % 8 != 0 then 1 else 0) { return Failed; }
    if bitcount < 4 { return Failed; }
    var bytes := Flip(temp, bitcount, bits);
    r := Code(encoding, bitcount, bytes, one, zero, trail);
  }

  // ----- the bi-phase part

  /** decode_temp as a row of bits. */
  function Flat(temp: seq<Word>): (f: seq<bool>)
    requires |temp| == 16 && Bytes(temp)
    ensures |f| == ROOM
  {
    seq(ROOM, b requires 0 <= b < ROOM => temp[b / 8][b % 8])
  }

  /** decode_temp |= bit, at place bitcount. */
  method MarkBit(temp: seq<Word>, bitcount: nat, bit: bool) returns (after: seq<Word>)
    requires |temp| == 16 && Bytes(temp) && bitcount < ROOM
    ensures |after| == 16 && Bytes(after) && Flat(after) == Flat(temp)[bitcount := Flat(temp)[bitcount] || bit]
  {
    after := temp[bitcount / 8 := OrBit(temp[bitcount / 8], bitcount % 8, bit)];
    forall b | 0 <= b < ROOM ensures Flat(after)[b] == Flat(temp)[bitcount := Flat(temp)[bitcount] || bit][b] {
      if b / 8 == bitcount / 8 && b % 8 == bitcount % 8 { SameBit(b, bitcount); }
    }
  }

  /** How the bi-phase part leaves off. */
  datatype Outcome = Gone | TooLong | Done

  /** One length: the step of the loop behind the marking. */
  method MoveOn(t: nat, pulse: nat, bit: bool, halfbit: bool, bitcount: nat, rc6temp: bool, rc6: bool,
      ghost temp: seq<bool>) returns (ok: bool, b: bool, h: bool, n: nat, r: bool, six: bool)
    requires pulse > 0
    ensures var m := Move(Half(bit, halfbit, bitcount, rc6temp, rc6, temp), t, pulse);
      if ok then m == Some(Half(b, h, n, r, six, temp)) else m == None
  {
    ok, b, h, n, r, six := true, bit, halfbit, bitcount, rc6temp, rc6;
    if Times(t, 3, pulse, 0.2) {
      if !halfbit || (bitcount != 3 && bitcount != 4) {
        ok := false;
        return;
      }
      r, b, n, six := !rc6temp, !bit, bitcount + 1, true;
    } else if Times(t, 2, pulse, 0.2) {
      if !halfbit {
        if bitcount == 4 { h, r, six := !halfbit, true, true; } else { ok := false; }
      } else {
        if rc6temp { r, h := false, !halfbit; } else { b := !bit; }
        n := bitcount + 1;
      }
    } else {
      if halfbit { n := bitcount + 1; }
      h := !halfbit;
    }
  }

  method FindStartSpace(data: seq<nat>, pulse: nat) returns (startspace: bool)
    requires pulse > 0
    ensures startspace == StartSpace(data, pulse, 0)
  {
    startspace := true;
    var i := 0;
    while i < |data|
      invariant 0 <= i <= |data| && startspace && StartSpace(data, pulse, 0) == StartSpace(data, pulse, i)
    {
      if Times(data[i], 2, pulse, 0.3) { return i % 2 == 0; }
      i := i + 1;
    }
  }

  lemma StepsPrefix(s: Scan, data: seq<nat>, i: nat, pulse: nat)
    requires pulse > 0 && (s.Going? ==> |s.h.temp| == ROOM) && i < |data|
    ensures Steps(s, data[..i + 1], pulse) == Step(Steps(s, data[..i], pulse), data[i], pulse)
  {
    hide Step;
    assert data[..i + 1][..i] == data[..i];
  }

  lemma {:induction false} Stopped(s: Scan, data: seq<nat>, i: nat, pulse: nat)
    requires pulse > 0 && (s.Going? ==> |s.h.temp| == ROOM) && i <= |data| && !Steps(s, data[..i], pulse).Going?
    ensures Steps(s, data, pulse) == Steps(s, data[..i], pulse)
    decreases |data| - i
  {
    hide Steps, Move, Mark;
    if i < |data| {
      StepsPrefix(s, data, i, pulse);
      Stopped(s, data, i + 1, pulse);
    } else {
      assert data[..i] == data;
    }
  }

  /** The loop over the lengths. */
  method ReadHalves(data: seq<nat>, pulse: nat, rc6: bool)
    returns (out: Outcome, bit: bool, halfbit: bool, bitcount: nat, rc6temp: bool, six: bool, temp: seq<Word>)
    requires pulse > 0
    ensures |temp| == 16 && Bytes(temp)
    ensures match out
      case Gone => Steps(Start(rc6), data, pulse) == Misfit
      case TooLong => Steps(Start(rc6), data, pulse) == Full
      case Done => Steps(Start(rc6), data, pulse) == Going(Half(bit, halfbit, bitcount, rc6temp, six, Flat(temp)))
  {
    hide Steps, Move;
    bit, halfbit, bitcount, rc6temp, six := true, true, 0, false, rc6;
    temp := seq(16, _ => [false, false, false, false, false, false, false, false]);
    assert Flat(temp) == Nothing();
    var i := 0;
    NoSteps(Start(rc6), pulse);
    assert data[..0] == [];
    while i < |data|
      invariant 0 <= i <= |data| && |temp| == 16 && Bytes(temp)
      invariant Steps(Start(rc6), data[..i], pulse) == Going(Half(bit, halfbit, bitcount, rc6temp, six, Flat(temp)))
    {
      StepsPrefix(Start(rc6), data, i, pulse);
      if bitcount >= ROOM {
        Stopped(Start(rc6), data, i + 1, pulse);
        out := TooLong;
        return;
      }
      temp := MarkBit(temp, bitcount, bit);
      var ok;
      ok, bit, halfbit, bitcount, rc6temp, six :=
        MoveOn(data[i], pulse, bit, halfbit, bitcount, rc6temp, six, Flat(temp));
      if !ok {
        Stopped(Start(rc6), data, i + 1, pulse);
        out := Gone;
        return;
      }
      i := i + 1;
    }
    assert data[..i] == data;
    out := Done;
  }

  /** The bi-phase part of decode_data. */
  method DecodeBiphase(data: seq<nat>, pulse: nat, rc6: bool)
    returns (out: Outcome, kind: Kind, bitcount: nat, temp: seq<Word>)
    requires pulse > 0 && data != []
    ensures |temp| == 16 && Bytes(temp)
    ensures match out
      case Gone => Unpack(data, pulse, rc6) == Refused
      case TooLong => Unpack(data, pulse, rc6) == Overlong
      case Done => bitcount <= ROOM && Unpack(data, pulse, rc6) == Bits(kind, Flat(temp)[..bitcount])
  {
    hide Steps, StartSpace, Pdiff;
    kind, bitcount := BIPHASE, 0;
    temp := seq(16, _ => [false, false, false, false, false, false, false, false]);
    if Pdiff(data[0] as real, pulse as real) > 0.3 {
      out := Gone;
      return;
    }
    var startspace := FindStartSpace(data, pulse);
    var bit, halfbit, rc6temp, six;
    out, bit, halfbit, bitcount, rc6temp, six, temp := ReadHalves(if startspace then data else data[1..], pulse, rc6);
    if out != Done { return; }
    if bitcount >= ROOM {
      out := TooLong;
      return;
    }
    temp := MarkBit(temp, bitcount, bit);
    if (halfbit && !bit) || (!startspace && bit) { bitcount := bitcount + 1; }
    if six {
      kind := RC6;
    } else if Pdiff(pulse as real, 889.0) < 0.2 && startspace {
      kind := RC5;
    }
  }

  lemma FlatBegins(temp: seq<Word>, n: nat)
    requires |temp| == 16 && Bytes(temp) && n <= ROOM
    ensures TempBegins(temp, Flat(temp)[..n])
  {
  }

  /** What is not bi-phase. */
  method DecodePlain(data: seq<nat>, outlength: nat, highs: seq<nat>, highcount: nat, lows: seq<nat>, lowcount: nat)
    returns (r: Result)
    requires |highs| == |lows| == 5 && data != []
    ensures Agrees(r, Plain(data, outlength, highs, highcount, lows, lowcount))
  {
    hide HoldsBits, TempHolds, TempBegins, SizeOk;
    if highcount == 1 && lowcount == 2 {
      var dataTimeZero, dataTimeOne := lows[1], lows[0];
      if lows[1] > lows[0] { dataTimeZero, dataTimeOne := lows[0], lows[1]; }
      if |data| / 2 > ROOM { return OutOfRoom; }
      var temp := ReadBits(data, 1, |data| / 2, dataTimeOne);
      HeldBegins(temp, BitsAt(data, 1, |data| / 2, dataTimeOne));
      r := Finish(SPACE, temp, |data| / 2, (highs[0], dataTimeOne), (highs[0], dataTimeZero), data[|data| - 1],
                  outlength, BitsAt(data, 1, |data| / 2, dataTimeOne));
    } else if highcount == 2 && lowcount == 1 {
      var dataTimeZero, dataTimeOne := highs[1], highs[0];
      if highs[1] > highs[0] { dataTimeZero, dataTimeOne := highs[0], highs[1]; }
      if (|data| + 1) / 2 > ROOM { return OutOfRoom; }
      var temp := ReadBits(data, 0, (|data| + 1) / 2, dataTimeOne);
      HeldBegins(temp, BitsAt(data, 0, (|data| + 1) / 2, dataTimeOne));
      r := Finish(PULSE, temp, (|data| + 1) / 2, (dataTimeOne, lows[0]), (dataTimeZero, lows[0]), 0,
                  outlength, BitsAt(data, 0, (|data| + 1) / 2, dataTimeOne));
    } else {
      return Failed;
    }
  }

  /** The half-bit: the mean of the shortest pulse and space if they are close, else the shorter of the two. */
  method ShortPulseWidth(high: nat, low: nat) returns (pulse: nat)
    ensures pulse == ShortPulse(high, low)
  {
    pulse := low;
    if Close(low, high) {
      pulse := (low + high + 1) / 2;
    } else if high < pulse {
      pulse := high;
    }
  }

  /** decode_data; more bits than decode_temp has room for end it here. */
  method DecodeData(data: seq<nat>, outlength: nat) returns (r: Result)
    ensures Agrees(r, Decode(data, outlength))
  {
    hide Counted, Sorted, BiphaseShaped, Rc6Shaped, HoldsBits, TempBegins, SizeOk, Unpack, Plain, ShortPulse;
    var highs, lows := new nat[5](_ => 0), new nat[5](_ => 0);
    assert highs[..] == lows[..] == [0, 0, 0, 0, 0];
    var ok, highcount, lowcount := CountTimes(data, highs, lows);
    if !ok { return Failed; }
    NothingCounted(data);
    SortTimes(highs);
    SortTimes(lows);
    if lowcount == 0 || highcount == 0 { return Failed; }
    var biphase := BiphaseShaped(highs[..], highcount, lows[..], lowcount);
    if biphase || Rc6Shaped(highs[..], highcount, lows[..], lowcount) {
      ShapedPositive(highs[..], highcount, lows[..], lowcount);
      var pulse := ShortPulseWidth(highs[0], lows[0]);
      var out, kind, bitcount, temp := DecodeBiphase(data, pulse, !biphase);
      if out == TooLong { return OutOfRoom; }
      if out == Done {
        FlatBegins(temp, bitcount);
        r := Finish(Halves(kind), temp, bitcount, (pulse, pulse), (pulse, pulse), 0, outlength, Flat(temp)[..bitcount]);
        return;
      }
    }
    r := DecodePlain(data, outlength, highs[..], highcount, lows[..], lowcount);
  }

  // ----- both together

  /**
   * The lengths of a space or pulse code whose unused top bits are clear, given to decode_data, give the same bytes,
   * bit count and lengths just when both kinds of bit occur, a 1 has the longer length, there are at most 128 bits, and
   * the lengths do not come out as bi-phase.
   */
  lemma CodeComesBack(place: nat, code: seq<Word>, info: CodeInfo, outlength: nat, r: Result)
    requires Bytes(code) && info.bitCount <= 8 * |code| && HoldsBits(code, SentBits(code, info.bitCount))
    requires 4 <= info.bitCount && outlength >= |code| && PlainCode(place, info)
    requires Agrees(r, Decode(TimesOf(place, info, SentBits(code, info.bitCount)), outlength))
    ensures var bits := SentBits(code, info.bitCount);
      var t, o, z := TimesOf(place, info, bits), Telling(place, info.one), Telling(place, info.zero);
      && t != []
      && (ComesBack(place, r, info, code) <==>
            && true in bits && false in bits && z < o && info.bitCount <= ROOM
            && !ReadAsBiphase(place, t, Telling(1 - place, info.one), o, z))
  {
    hide SentBits, Decode, TimesOf, HoldsBits, Telling, ReadAsBiphase;
    var bits := SentBits(code, info.bitCount);
    assert |code| == ByteCount(|bits|) by { HeldLength(code, bits); }
    CodedRoundTrip(place, info, bits, outlength);
    var d := Decode(TimesOf(place, info, bits), outlength);
    if d == Returned(place, info, bits) { HeldOnce(r.bytes, code, bits); }
    if ComesBack(place, r, info, code) { HeldBits(code, d.bits); }
  }

  /** The result gives back the code, its bit count and its lengths. */
  predicate ComesBack(place: nat, r: Result, info: CodeInfo, code: seq<Word>) {
    if place == 1 then r == Code(SPACE, info.bitCount, code, info.one, info.zero, info.trail)
    else r.Code? && r == Code(PULSE, info.bitCount, code, info.one, info.zero, r.trail)
  }

  /** The same for a bi-phase code of up to 127 bits: it comes back just when it begins with two ones. */
  lemma BiphaseComesBack(code: seq<Word>, bitCount: nat, kind: Kind, p: nat, outlength: nat, r: Result)
    requires Bytes(code) && bitCount <= 8 * |code| && HoldsBits(code, SentBits(code, bitCount))
    requires 4 <= bitCount < ROOM && outlength >= |code| && p > 0 && !kind.RC6?
    requires Agrees(r, Decode(HalfTimes(kind, Even(p), SentBits(code, bitCount)), outlength))
    ensures r.Code? && r == Code(Halves(KindOf(p)), bitCount, code, (p, p), (p, p), r.trail) <==>
      SentBits(code, bitCount)[0] && SentBits(code, bitCount)[1]
  {
    hide SentBits, Decode, HalfTimes, HoldsBits, KindOf;
    var bits := SentBits(code, bitCount);
    assert |code| == ByteCount(|bits|) by { HeldLength(code, bits); }
    BiphaseRoundTripIff(kind, bits, p, outlength);
    var d := Decode(HalfTimes(kind, Even(p), bits), outlength);
    if d == Biphase(KindOf(p), bits, p) { HeldOnce(r.bytes, code, bits); }
    if r.Code? && r == Code(Halves(KindOf(p)), bitCount, code, (p, p), (p, p), r.trail) { HeldBits(code, d.bits); }
  }

  /** And for an RC-6 code: when its lengths are recognised and a 0 shows early enough that it began with a pulse. */
  lemma Rc6ComesBack(code: seq<Word>, bitCount: nat, p: nat, outlength: nat, r: Result)
    requires Bytes(code) && bitCount <= 8 * |code| && HoldsBits(code, SentBits(code, bitCount))
    requires 6 <= bitCount < ROOM && outlength >= |code| && p > 0
    requires Agrees(r, Decode(HalfTimes(RC6, Even(p), SentBits(code, bitCount)), outlength))
    ensures var bits := SentBits(code, bitCount);
      var data := HalfTimes(RC6, Even(p), bits);
      (r.Code? && r == Code(Halves(RC6), bitCount, code, (p, p), (p, p), r.trail)) <==>
        ShowsSpace(bits) && Recognised(LengthsAt(data, |data|, 0), LengthsAt(data, |data|, 1), p)
  {
    hide SentBits, Decode, HalfTimes, HoldsBits, ShowsSpace, Recognised, LengthsAt;
    var bits := SentBits(code, bitCount);
    assert |code| == ByteCount(|bits|) by { HeldLength(code, bits); }
    DecodeSixIff(bits, p, outlength);
    var d := Decode(HalfTimes(RC6, Even(p), bits), outlength);
    if d == Biphase(RC6, bits, p) { HeldOnce(r.bytes, code, bits); }
    if r.Code? && r == Code(Halves(RC6), bitCount, code, (p, p), (p, p), r.trail) { HeldBits(code, d.bits); }
  }

  lemma HeldLength(bytes: seq<Word>, bits: seq<bool>)
    requires HoldsBits(bytes, bits)
    ensures |bytes| == ByteCount(|bits|)
  {
  }

  lemma HeldBits(bytes: seq<Word>, bits: seq<bool>)
    requires HoldsBits(bytes, bits)
    ensures Bytes(bytes) && |bits| <= 8 * |bytes| && SentBits(bytes, |bits|) == bits
  {
  }
}
