/** Sensor samples of the interface kit: overruns, counts and 12-bit samples packed round-robin into one packet. */
module InterfaceKit {
  import opened Modulo
  import opened Octets

  // Boards with eight sensors send such packets, and one with two.
  const CHANNELS: nat := 8

  // ----- how the device packs a packet

  /** Up to fifteen 12-bit samples for every sensor. */
  predicate Samples(s: seq<seq<nat>>) {
    (|s| == 2 || |s| == CHANNELS) && (forall i :: 0 <= i < |s| ==> |s[i]| <= 15)
    && forall i, j :: 0 <= i < |s| && 0 <= j < |s[i]| ==> s[i][j] < 0x1000
  }

  /** What is still to come, round by round and channel by channel, from channel i of round j on. */
  function Rest(s: seq<seq<nat>>, j: nat, i: nat): (l: seq<nat>)
    requires Samples(s) && j <= 15 && i <= |s|
    decreases 15 - j, |s| - i
  {
    if j == 15 then []
    else if i == |s| then Rest(s, j + 1, 0)
    else if |s[i]| > j then [s[i][j]] + Rest(s, j, i + 1)
    else Rest(s, j, i + 1)
  }

  /** Two samples in three bytes: a low byte, the two high nibbles, the other low byte. */
  function Pack(l: seq<nat>): (b: seq<nat>) {
    if l == [] then []
    else if |l| == 1 then [l[0] % 256, l[0] / 256 * 16]
    else [l[0] % 256, l[0] / 256 * 16 + l[1] / 256, l[1] % 256] + Pack(l[2..])
  }

  /** Overruns of the channel pairs; a pair without any is left out. */
  predicate Overruns(o: seq<nat>) { |o| == CHANNELS && forall i :: 0 <= i < CHANNELS ==> o[i] < 16 }

  function OverrunBytes(o: seq<nat>, pairs: seq<bool>, k: nat): (b: seq<nat>)
    requires Overruns(o) && |pairs| == 4 && k <= 4
    ensures |b| <= k
  {
    if k == 0 then []
    else OverrunBytes(o, pairs, k - 1) + (if pairs[k - 1] then [o[2 * k - 2] * 16 + o[2 * k - 1]] else [])
  }

  function CountBytes(s: seq<seq<nat>>): (b: seq<nat>)
    requires Samples(s)
    ensures |b| == |s| / 2
  {
    seq(|s| / 2, k requires 0 <= k < |s| / 2 => |s[2 * k]| * 16 + |s[2 * k + 1]|)
  }

  /** The pairs that are present in the low nibble of the first byte. */
  predicate Flags(first: nat, pairs: seq<bool>) {
    |pairs| == 4 && forall k :: 0 <= k < 4 ==> (first / Weight(k) % 2 == 1) == pairs[k]
  }

  function Weight(k: nat): (w: nat)
    ensures w > 0
  {
    if k == 0 then 1 else if k == 1 then 2 else if k == 2 then 4 else 8
  }

  predicate At(buffer: seq<Byte>, p: nat, bytes: seq<nat>) {
    p + |bytes| <= |buffer| && forall k :: 0 <= k < |bytes| ==> buffer[p + k] == bytes[k]
  }

  /** A packet with these overruns and samples. */
  predicate Carries(buffer: seq<Byte>, o: seq<nat>, pairs: seq<bool>, s: seq<seq<nat>>) {
    && Overruns(o) && |pairs| == 4 && Samples(s) && |buffer| > 3 && Flags(buffer[0], pairs)
    && (forall k :: 0 <= k < 4 && !pairs[k] ==> o[2 * k] == o[2 * k + 1] == 0)
    && At(buffer, 3, OverrunBytes(o, pairs, 4))
    && At(buffer, 3 + |OverrunBytes(o, pairs, 4)|, CountBytes(s))
    && At(buffer, 3 + |OverrunBytes(o, pairs, 4)| + |s| / 2, Pack(Rest(s, 0, 0)))
  }

  // ----- how many samples are to come

  /** Samples of channels from i on that come after round j. */
  function Left(s: seq<seq<nat>>, j: nat, i: nat): nat
    requires Samples(s) && i <= |s|
    decreases |s| - i
  {
    if i == |s| then 0 else (if |s[i]| > j then |s[i]| - j else 0) + Left(s, j, i + 1)
  }

  /** Samples of channels before i. */
  function Before(s: seq<seq<nat>>, j: nat, i: nat): nat
    requires Samples(s) && i <= |s|
  {
    if i == 0 then 0 else (if |s[i - 1]| > j then |s[i - 1]| - j else 0) + Before(s, j, i - 1)
  }

  lemma {:induction false} LeftIsBefore(s: seq<seq<nat>>, j: nat, i: nat)
    requires Samples(s) && i <= |s|
    ensures Left(s, j, 0) == Before(s, j, i) + Left(s, j, i)
  {
    if i > 0 { LeftIsBefore(s, j, i - 1); }
  }

  lemma {:induction false} NothingLeft(s: seq<seq<nat>>, i: nat)
    requires Samples(s) && i <= |s|
    ensures Left(s, 15, i) == 0
    decreases |s| - i
  {
    if i < |s| { NothingLeft(s, i + 1); }
  }

  /** Round-robin order loses and repeats nothing. */
  lemma {:induction false} RestLength(s: seq<seq<nat>>, j: nat, i: nat)
    requires Samples(s) && j <= 15 && i <= |s|
    ensures |Rest(s, j, i)| == Left(s, j, i) + (if j == 15 then 0 else Before(s, j + 1, i))
    decreases 15 - j, |s| - i
  {
    if j == 15 {
      NothingLeft(s, i);
    } else if i == |s| {
      RestLength(s, j + 1, 0);
      LeftIsBefore(s, j + 1, |s|);
    } else {
      RestLength(s, j, i + 1);
    }
  }

  // ----- reading the samples

  /** The list is what reading from byte x on gives; flip says that a sample ended in the middle of a byte. */
  predicate Readable(b: seq<Byte>, x: nat, flip: bool, l: seq<nat>)
    decreases |l|
  {
    l == [] ||
    (if flip then
       1 <= x < |b| && l[0] == b[x] as int + (b[x - 1] % 16) as int * 256 && Readable(b, x + 1, false, l[1..])
     else
       x + 1 < |b| && l[0] == b[x] as int + (b[x + 1] / 16) as int * 256 && Readable(b, x + 2, true, l[1..]))
  }

  predicate Twelve(l: seq<nat>) { forall k :: 0 <= k < |l| ==> l[k] < 0x1000 }

  lemma PairReadable(b: seq<Byte>, x: nat, l: seq<nat>)
    requires |l| >= 2 && l[0] < 0x1000 && l[1] < 0x1000 && x + 2 < |b|
    requires b[x] == l[0] % 256 && b[x + 1] == l[0] / 256 * 16 + l[1] / 256 && b[x + 2] == l[1] % 256
    requires Readable(b, x + 3, false, l[2..])
    ensures Readable(b, x, false, l)
  {
    PairArithmetic(l[0], l[1]);
    assert l[1..][0] == l[1] && l[1..][1..] == l[2..];
    hide Readable;
    ReadableFlipped(b, x + 2, l[1..]);
    ReadableStraight(b, x, l);
  }

  lemma PairArithmetic(u: nat, v: nat)
    requires u < 0x1000 && v < 0x1000
    ensures var middle := u / 256 * 16 + v / 256;
      u == u % 256 + middle / 16 * 256 && v == v % 256 + middle % 16 * 256
  {
    var h, g := u / 256, v / 256;
    ModuloUnique(h, h * 16 + g, g, 16);
  }

  lemma ReadableFlipped(b: seq<Byte>, x: nat, l: seq<nat>)
    requires l != [] && 1 <= x < |b| && l[0] == b[x] as int + (b[x - 1] % 16) as int * 256
    requires Readable(b, x + 1, false, l[1..])
    ensures Readable(b, x, true, l)
  {
  }

  lemma ReadableStraight(b: seq<Byte>, x: nat, l: seq<nat>)
    requires l != [] && x + 1 < |b| && l[0] == b[x] as int + (b[x + 1] / 16) as int * 256
    requires Readable(b, x + 2, true, l[1..])
    ensures Readable(b, x, false, l)
  {
  }

  lemma PackOfPair(b: seq<Byte>, x: nat, l: seq<nat>)
    requires Twelve(l) && At(b, x, Pack(l)) && |l| >= 2
    ensures x + 2 < |b| && b[x] == l[0] % 256 && b[x + 1] == l[0] / 256 * 16 + l[1] / 256 && b[x + 2] == l[1] % 256
    ensures At(b, x + 3, Pack(l[2..]))
  {
    var p := Pack(l);
    assert b[x + 0] == p[0] && b[x + 1] == p[1] && b[x + 2] == p[2];
    forall k | 0 <= k < |Pack(l[2..])| ensures b[x + 3 + k] == Pack(l[2..])[k] { assert b[x + (k + 3)] == p[k + 3]; }
  }

  lemma {:induction false} PackReadable(b: seq<Byte>, x: nat, l: seq<nat>)
    requires Twelve(l) && At(b, x, Pack(l))
    ensures Readable(b, x, false, l)
    decreases |l|
  {
    if |l| == 1 {
      assert b[x + 0] == Pack(l)[0] && b[x + 1] == Pack(l)[1];
    } else if |l| >= 2 {
      PackOfPair(b, x, l);
      PackReadable(b, x + 3, l[2..]);
      PairReadable(b, x, l);
    }
  }

  lemma {:induction false} RestTwelve(s: seq<seq<nat>>, j: nat, i: nat)
    requires Samples(s) && j <= 15 && i <= |s|
    ensures Twelve(Rest(s, j, i))
    decreases 15 - j, |s| - i
  {
    if j == 15 {
    } else if i == |s| {
      RestTwelve(s, j + 1, 0);
    } else {
      RestTwelve(s, j, i + 1);
    }
  }

  // ----- dataInput

  /** Compensating for resistors: 0.1 percent more, rounded, limited to twelve bits. */
  function Compensated(raw: nat): (v: nat)
    ensures v <= 0xfff
  {
    var v := (raw as real * 1.001 + 0.5).Floor;
    if v > 0xfff then 0xfff else v
  }

  /** What is stored for a sample: the nearest whole number to 0.1 percent more, as long as twelve bits hold it. */
  predicate StoredFor(v: nat, raw: nat) {
    if raw as real * 1.001 < 4094.5 then v < 0xfff && Nearest(v, raw as real * 1.001) else v == 0xfff
  }

  /** On the scale from 0 to 1000. */
  function SensorValue(v: nat): nat { (v as real / 4.095 + 0.5).Floor }

  /** A stored sample is the one the rounding rule asks for, and its value on the scale is the nearest one. */
  lemma CompensationNearest(raw: nat)
    requires raw < 0x1000
    ensures StoredFor(Compensated(raw), raw)
    ensures SensorValue(Compensated(raw)) <= 1000
    ensures Nearest(SensorValue(Compensated(raw)), Compensated(raw) as real * 1000.0 / 4095.0)
  {
  }

  /** Compensation keeps the order of samples, adds at most four, and changes nothing below 500. */
  lemma CompensationOrder(a: nat, b: nat)
    requires a <= b < 0x1000
    ensures Compensated(a) <= Compensated(b) && a <= Compensated(a) <= a + 4
    ensures Compensated(a) == a <==> a < 500 || a == 0xfff
  {
  }

  /** The overruns of one pair of channels, if its bit is set. */
  method ReadPair(buffer: seq<Byte>, k: nat, before: seq<nat>, at: nat, ghost o: seq<nat>, ghost pairs: seq<bool>)
    returns (overrunCount: seq<nat>, overrunPtr: nat)
    requires Overruns(o) && k < 4 && |buffer| > 3 && Flags(buffer[0], pairs)
    requires forall p :: 0 <= p < 4 && !pairs[p] ==> o[2 * p] == o[2 * p + 1] == 0
    requires At(buffer, 3, OverrunBytes(o, pairs, 4))
    requires before == o[..2 * k] && at == 3 + |OverrunBytes(o, pairs, k)|
    ensures overrunCount == o[..2 * k + 2] && overrunPtr == 3 + |OverrunBytes(o, pairs, k + 1)|
  {
    hide OverrunBytes;
    PairByte(buffer, o, pairs, k);
    PairLength(o, pairs, k);
    overrunPtr := at;
    var first, second := 0, 0;
    if buffer[0] / Weight(k) % 2 == 1 {
      first, second := buffer[overrunPtr] / 16, buffer[overrunPtr] % 16;
      ModuloUnique(o[2 * k], buffer[overrunPtr], o[2 * k + 1], 16);
      overrunPtr := overrunPtr + 1;
    }
    overrunCount := before + [first, second];
    assert o[..2 * k + 2] == o[..2 * k] + [o[2 * k], o[2 * k + 1]];
  }

  lemma PairLength(o: seq<nat>, pairs: seq<bool>, k: nat)
    requires Overruns(o) && |pairs| == 4 && k < 4
    ensures |OverrunBytes(o, pairs, k + 1)| == |OverrunBytes(o, pairs, k)| + if pairs[k] then 1 else 0
  {
  }

  method ReadOverruns(buffer: seq<Byte>, ghost o: seq<nat>, ghost pairs: seq<bool>)
    returns (overrunCount: seq<nat>, overrunPtr: nat)
    requires Overruns(o) && |buffer| > 3 && Flags(buffer[0], pairs)
    requires forall p :: 0 <= p < 4 && !pairs[p] ==> o[2 * p] == o[2 * p + 1] == 0
    requires At(buffer, 3, OverrunBytes(o, pairs, 4))
    ensures overrunCount == o && overrunPtr == 3 + |OverrunBytes(o, pairs, 4)|
  {
    overrunCount, overrunPtr := ReadPair(buffer, 0, [], 3, o, pairs);
    overrunCount, overrunPtr := ReadPair(buffer, 1, overrunCount, overrunPtr, o, pairs);
    overrunCount, overrunPtr := ReadPair(buffer, 2, overrunCount, overrunPtr, o, pairs);
    overrunCount, overrunPtr := ReadPair(buffer, 3, overrunCount, overrunPtr, o, pairs);
    assert o[..8] == o;
  }

  lemma {:induction false} OverrunPrefix(o: seq<nat>, pairs: seq<bool>, k: nat, m: nat)
    requires Overruns(o) && |pairs| == 4 && k <= m <= 4
    ensures OverrunBytes(o, pairs, k) <= OverrunBytes(o, pairs, m)
  {
    if k < m { OverrunPrefix(o, pairs, k, m - 1); }
  }

  lemma PairByte(buffer: seq<Byte>, o: seq<nat>, pairs: seq<bool>, k: nat)
    requires Overruns(o) && |buffer| > 3 && |pairs| == 4 && k < 4 && At(buffer, 3, OverrunBytes(o, pairs, 4))
    ensures var p := 3 + |OverrunBytes(o, pairs, k)|;
      pairs[k] ==> p < |buffer| && buffer[p] == o[2 * k] * 16 + o[2 * k + 1]
  {
    OverrunPrefix(o, pairs, k + 1, 4);
    var n := |OverrunBytes(o, pairs, k)|;
    if pairs[k] { assert OverrunBytes(o, pairs, 4)[n] == o[2 * k] * 16 + o[2 * k + 1]; }
  }

  lemma CountPair(a: nat, b: nat)
    requires b < 16
    ensures (a * 16 + b) / 16 == a && (a * 16 + b) % 16 == b
  {
    ModuloUnique(a, a * 16 + b, b, 16);
  }

  method ReadCounts(buffer: seq<Byte>, from: nat, numSensors: nat, ghost s: seq<seq<nat>>)
    returns (channelCount: seq<nat>, countPtr: nat, datacount: nat)
    requires Samples(s) && numSensors == |s| && At(buffer, from, CountBytes(s))
    ensures |channelCount| == |s| && countPtr == from + |s| / 2
    ensures (forall i :: 0 <= i < |s| ==> channelCount[i] == |s[i]|) && datacount == Before(s, 0, |s|)
  {
    channelCount, countPtr, datacount := [], from, 0;
    var i := 0;
    while i < numSensors
      invariant 0 <= i <= |s| && |channelCount| == i && countPtr == from + i / 2 && datacount == Before(s, 0, i)
      invariant forall c :: 0 <= c < i ==> channelCount[c] == |s[c]|
    {
      assert buffer[from + i / 2] == CountBytes(s)[i / 2] == |s[i / 2 * 2]| * 16 + |s[i / 2 * 2 + 1]|;
      var count: nat;
      CountPair(|s[i / 2 * 2]|, |s[i / 2 * 2 + 1]|);
      if i % 2 != 0 {
        count := buffer[countPtr] % 16;
        countPtr := countPtr + 1;
      } else {
        count := buffer[countPtr] / 16;
      }
      channelCount := channelCount + [count];
      datacount := datacount + count;
      i := i + 1;
    }
  }

  /** The samples read so far: rounds before j for every channel, round j for channels before i. */
  predicate Stored(raw: seq<seq<nat>>, s: seq<seq<nat>>, j: nat, i: nat)
    requires Samples(s)
  {
    |raw| == |s| && forall c :: 0 <= c < |s| ==>
      var n := if c < i then j + 1 else j;
      raw[c] == if |s[c]| <= n then s[c] else s[c][..n]
  }

  method ReadSample(buffer: seq<Byte>, at: nat, flip: bool, ghost l: seq<nat>) returns (value: nat, bufindx: nat)
    requires l != [] && Readable(buffer, at, flip, l)
    ensures value == l[0] && Readable(buffer, bufindx, !flip, l[1..])
  {
    if !flip {
      value := buffer[at] as int + (buffer[at + 1] / 16) as int * 256;
      bufindx := at + 2;
    } else {
      value := buffer[at] as int + (buffer[at - 1] % 16) as int * 256;
      bufindx := at + 1;
    }
  }

  lemma RestStep(s: seq<seq<nat>>, j: nat, i: nat)
    requires Samples(s) && j < 15 && i < |s|
    ensures |s[i]| > j ==> Rest(s, j, i) != [] && Rest(s, j, i)[0] == s[i][j] && Rest(s, j, i)[1..] == Rest(s, j, i + 1)
    ensures |s[i]| <= j ==> Rest(s, j, i) == Rest(s, j, i + 1)
  {
  }

  /** One round: a sample of every channel that has more than j. */
  method ReadRound(buffer: seq<Byte>, at: nat, flipped: bool, channelCount: seq<nat>, j: nat, count: nat,
      stored: seq<seq<nat>>, ghost s: seq<seq<nat>>)
    returns (raw: seq<seq<nat>>, bufindx: nat, flip: bool, datacount: nat)
    requires Samples(s) && j < 15 && Stored(stored, s, j, 0)
    requires count == |Rest(s, j, 0)| && Readable(buffer, at, flipped, Rest(s, j, 0))
    requires |channelCount| == |s| && forall i :: 0 <= i < |s| ==> channelCount[i] == |s[i]|
    ensures Stored(raw, s, j, |s|)
    ensures datacount == |Rest(s, j, |s|)| && Readable(buffer, bufindx, flip, Rest(s, j, |s|))
  {
    hide Readable, Samples, Rest, Stored;
    raw, bufindx, flip, datacount := stored, at, flipped, count;
    var i := 0;
    while i < |channelCount|
      invariant 0 <= i <= |s| && Stored(raw, s, j, i)
      invariant datacount == |Rest(s, j, i)| && Readable(buffer, bufindx, flip, Rest(s, j, i))
    {
      RestStep(s, j, i);
      ghost var before := raw;
      StoredShape(raw, s, j, i);
      if channelCount[i] > j {
        var value;
        value, bufindx := ReadSample(buffer, bufindx, flip, Rest(s, j, i));
        raw := raw[i := raw[i] + [value]];
        flip := !flip;
        datacount := datacount - 1;
      }
      StoredMore(before, raw, s, j, i);
      i := i + 1;
    }
  }

  lemma StoredShape(raw: seq<seq<nat>>, s: seq<seq<nat>>, j: nat, i: nat)
    requires Samples(s) && Stored(raw, s, j, i)
    ensures |raw| == |s|
  {
  }

  /** The loop that takes the samples apart. */
  method ReadSamples(buffer: seq<Byte>, from: nat, channelCount: seq<nat>, count: nat, ghost s: seq<seq<nat>>)
    returns (raw: seq<seq<nat>>)
    requires Samples(s) && Readable(buffer, from, false, Rest(s, 0, 0)) && count == Before(s, 0, |s|)
    requires |channelCount| == |s| && forall i :: 0 <= i < |s| ==> channelCount[i] == |s[i]|
    ensures raw == s
  {
    hide Readable, Samples, Stored, Left, Before;
    RestLength(s, 0, 0);
    NoneBefore(s);
    LeftIsBefore(s, 0, |s|);
    raw := seq(|channelCount|, _ => []);
    NothingStored(raw, s);
    var j, flip, bufindx, datacount := 0, false, from, count;
    while datacount > 0
      invariant j <= 15 && Stored(raw, s, j, 0)
      invariant datacount == |Rest(s, j, 0)| && Readable(buffer, bufindx, flip, Rest(s, j, 0))
      decreases 15 - j
    {
      raw, bufindx, flip, datacount := ReadRound(buffer, bufindx, flip, channelCount, j, datacount, raw, s);
      StoredRound(raw, s, j);
      j := j + 1;
    }
    AllStored(raw, s, j);
  }

  lemma NoneBefore(s: seq<seq<nat>>)
    requires Samples(s)
    ensures Before(s, 1, 0) == 0 && Left(s, 0, |s|) == 0
  {
  }

  lemma NothingStored(raw: seq<seq<nat>>, s: seq<seq<nat>>)
    requires Samples(s) && |raw| == |s| && forall c :: 0 <= c < |s| ==> raw[c] == []
    ensures Stored(raw, s, 0, 0)
  {
  }

  lemma StoredMore(before: seq<seq<nat>>, after: seq<seq<nat>>, s: seq<seq<nat>>, j: nat, i: nat)
    requires Samples(s) && i < |s| && Stored(before, s, j, i)
    requires after == if |s[i]| > j then before[i := before[i] + [s[i][j]]] else before
    ensures Stored(after, s, j, i + 1)
  {
    if |s[i]| > j { assert s[i][..j] + [s[i][j]] == s[i][..j + 1]; }
    assert |s[i]| == j + 1 ==> s[i][..j + 1] == s[i];
  }

  lemma StoredRound(raw: seq<seq<nat>>, s: seq<seq<nat>>, j: nat)
    requires Samples(s) && Stored(raw, s, j, |s|)
    ensures Stored(raw, s, j + 1, 0)
  {
  }

  /** Nothing to come means that every channel is complete. */
  lemma {:induction false} RestEmpty(s: seq<seq<nat>>, j: nat, i: nat, c: nat)
    requires Samples(s) && j <= 15 && i <= c < |s| && Rest(s, j, i) == []
    ensures |s[c]| <= j
    decreases c - i
  {
    if j < 15 && i < c { RestEmpty(s, j, i + 1, c); }
  }

  lemma AllStored(raw: seq<seq<nat>>, s: seq<seq<nat>>, j: nat)
    requires Samples(s) && j <= 15 && Stored(raw, s, j, 0) && Rest(s, j, 0) == []
    ensures raw == s
  {
    forall c | 0 <= c < |s| ensures raw[c] == s[c] { RestEmpty(s, j, 0, c); }
  }

  /**
   * The sensor part of dataInput: every sample comes back, in its channel and in order, then is compensated.
   * Overruns of channels without a sensor are not looked at again.
   */
  method ReadPacket(buffer: seq<Byte>, numSensors: nat, ghost o: seq<nat>, ghost pairs: seq<bool>,
      ghost s: seq<seq<nat>>)
    returns (overrunCount: seq<nat>, channelCount: seq<nat>, sensorRawValue: seq<seq<nat>>,
      sensorValue: seq<seq<nat>>)
    requires Carries(buffer, o, pairs, s) && numSensors == |s|
    ensures overrunCount == o[..numSensors] && |channelCount| == |sensorRawValue| == numSensors
    ensures forall i :: 0 <= i < numSensors ==> channelCount[i] == |s[i]| == |sensorRawValue[i]|
    ensures forall i, j :: 0 <= i < numSensors && 0 <= j < |s[i]| ==> StoredFor(sensorRawValue[i][j], s[i][j])
    ensures |sensorValue| == numSensors && forall i :: 0 <= i < numSensors ==> |sensorValue[i]| == |s[i]|
    ensures forall i, j :: 0 <= i < numSensors && 0 <= j < |s[i]| ==>
      Nearest(sensorValue[i][j], sensorRawValue[i][j] as real * 1000.0 / 4095.0)
  {
    hide Rest, Pack, CountBytes, OverrunBytes, StoredFor, Nearest;
    var countPtr: nat, datacount: nat;
    overrunCount, countPtr := ReadOverruns(buffer, o, pairs);
    overrunCount := overrunCount[..numSensors];
    channelCount, countPtr, datacount := ReadCounts(buffer, countPtr, numSensors, s);
    RestTwelve(s, 0, 0);
    PackReadable(buffer, countPtr, Rest(s, 0, 0));
    var raw := ReadSamples(buffer, countPtr, channelCount, datacount, s);
    sensorRawValue, sensorValue := Compensate(raw, s);
  }

  method Compensate(raw: seq<seq<nat>>, ghost s: seq<seq<nat>>)
    returns (sensorRawValue: seq<seq<nat>>, sensorValue: seq<seq<nat>>)
    requires raw == s && forall i, j :: 0 <= i < |s| && 0 <= j < |s[i]| ==> s[i][j] < 0x1000
    ensures |sensorRawValue| == |sensorValue| == |s|
    ensures forall i :: 0 <= i < |s| ==> |sensorRawValue[i]| == |sensorValue[i]| == |s[i]|
    ensures forall i, j :: 0 <= i < |s| && 0 <= j < |s[i]| ==> StoredFor(sensorRawValue[i][j], s[i][j])
    ensures forall i, j :: 0 <= i < |s| && 0 <= j < |s[i]| ==>
      Nearest(sensorValue[i][j], sensorRawValue[i][j] as real * 1000.0 / 4095.0)
  {
    hide Compensated, SensorValue, StoredFor, Nearest;
    sensorRawValue := seq(|raw|, i requires 0 <= i < |raw| =>
      seq(|raw[i]|, j requires 0 <= j < |raw[i]| => Compensated(raw[i][j])));
    sensorValue := seq(|raw|, i requires 0 <= i < |raw| =>
      seq(|raw[i]|, j requires 0 <= j < |raw[i]| => SensorValue(Compensated(raw[i][j]))));
    forall i, j | 0 <= i < |s| && 0 <= j < |s[i]|
      ensures StoredFor(sensorRawValue[i][j], s[i][j])
      ensures Nearest(sensorValue[i][j], sensorRawValue[i][j] as real * 1000.0 / 4095.0)
    {
      CompensationNearest(s[i][j]);
    }
  }
}
