/** A code sent and decoded is the same code with the same lengths, as far as the decoder can tell. */
module IrRoundTrip {
  import opened Modulo
  import opened Words
  import opened Rings
  import opened Blocks
  import opened IrBiphase
  import opened IrCode

  // ----- counting the lengths of a code that tells its bits by one of the two lengths

  /** Pulses stand at even places, spaces at odd ones: from the given place on every other is o or z, the rest p. */
  predicate Coded(place: nat, data: seq<nat>, p: nat, o: nat, z: nat) {
    && place < 2 && p > 0 && o > 0 && z > 0
    && forall i :: 0 <= i < |data| ==> if i % 2 == place then data[i] == o || data[i] == z else data[i] == p
  }

  /** The lengths that tell a bit, among the first i, include this one. */
  predicate Seen(place: nat, data: seq<nat>, i: nat, t: nat)
    requires i <= |data|
  {
    exists j :: 0 <= j < i && j % 2 == place && data[j] == t
  }

  function Alike(n: nat, p: nat): Count { if n == 0 then NONE else Count([p, 0, 0, 0, 0], 1) }

  predicate OnlyOne(place: nat, data: seq<nat>, i: nat, t: nat, other: nat, c: Count)
    requires i <= |data|
  {
    c == Count([t, 0, 0, 0, 0], 1) && Seen(place, data, i, t) && (other != t ==> !Seen(place, data, i, other))
  }

  predicate OneOrBoth(place: nat, data: seq<nat>, i: nat, o: nat, z: nat, c: Count)
    requires i <= |data|
  {
    || (c == NONE && !Seen(place, data, i, o) && !Seen(place, data, i, z))
    || OnlyOne(place, data, i, o, z, c) || OnlyOne(place, data, i, z, o, c)
    || (o != z && Seen(place, data, i, o) && Seen(place, data, i, z)
        && (c == Count([o, z, 0, 0, 0], 2) || c == Count([z, o, 0, 0, 0], 2)))
  }

  lemma SeenMore(place: nat, data: seq<nat>, i: nat, t: nat)
    requires i < |data|
    ensures Seen(place, data, i + 1, t) <==> Seen(place, data, i, t) || (i % 2 == place && data[i] == t)
  {
    if i % 2 == place && data[i] == t { assert Seen(place, data, i + 1, t); }
    if Seen(place, data, i, t) {
      var j :| 0 <= j < i && j % 2 == place && data[j] == t;
      assert Seen(place, data, i + 1, t);
    }
  }

  lemma OneMore(place: nat, data: seq<nat>, i: nat, p: nat, o: nat, z: nat, c: Count) returns (d: Count)
    requires i < |data| && i % 2 == place && Coded(place, data, p, o, z) && OneOrBoth(place, data, i, o, z, c)
    ensures Note(c, data[i]) == Some(d) && OneOrBoth(place, data, i + 1, o, z, d)
  {
    hide Seen;
    SeenMore(place, data, i, o);
    SeenMore(place, data, i, z);
    d := Note(c, data[i]).value;
    assert c == NONE ==> d.slots == [data[i], 0, 0, 0, 0];
    assert c.slots[0] != 0 && data[i] != c.slots[0] && c.n == 1 ==> d.slots == [c.slots[0], data[i], 0, 0, 0];
    assert c.slots[0] == data[i] || (c.n == 2 && c.slots[1] == data[i]) ==> d == c by {
      assert c.slots[0 := c.slots[0]] == c.slots && c.slots[1 := c.slots[1]] == c.slots;
    }
  }

  /** Pulses and spaces as counted: those that are alike, and those that tell the bits. */
  function Sides(place: nat, alike: Count, two: Count): (Count, Count) {
    if place == 1 then (alike, two) else (two, alike)
  }

  lemma {:induction false} CountCoded(place: nat, data: seq<nat>, i: nat, p: nat, o: nat, z: nat) returns (two: Count)
    requires i <= |data| && Coded(place, data, p, o, z)
    ensures Counted(data, i) == Some(Sides(place, Alike((i + place) / 2, p), two))
    ensures OneOrBoth(place, data, i, o, z, two)
  {
    hide Seen, Note;
    if i == 0 {
      two := NONE;
      NoneSeen(place, data, o);
      NoneSeen(place, data, z);
    } else {
      var before := CountCoded(place, data, i - 1, p, o, z);
      if (i - 1) % 2 == place {
        two := OneMore(place, data, i - 1, p, o, z, before);
      } else {
        two := before;
        SeenMore(place, data, i - 1, o);
        SeenMore(place, data, i - 1, z);
        NoteAlike((i - 1 + place) / 2, p);
      }
    }
  }

  lemma NoneSeen(place: nat, data: seq<nat>, t: nat)
    ensures !Seen(place, data, 0, t)
  {
  }

  lemma NoteAlike(n: nat, p: nat)
    requires p > 0
    ensures Note(Alike(n, p), p) == Some(Count([p, 0, 0, 0, 0], 1))
  {
    assert [p, 0, 0, 0, 0][0 := p] == [p, 0, 0, 0, 0];
    assert [0, 0, 0, 0, 0][0 := p] == [p, 0, 0, 0, 0];
  }

  lemma SortTwo(a: nat, b: nat)
    requires a > 0
    ensures Sorted([a, b, 0, 0, 0], 5) == if 0 < b < a then [b, a, 0, 0, 0] else [a, b, 0, 0, 0]
  {
    var s: Slots := [a, b, 0, 0, 0];
    var t: Slots := if 0 < b < a then [b, a, 0, 0, 0] else s;
    assert Pass(s) == t && Pass(t) == t;
    assert Sorted(s, 1) == t by { assert Sorted(s, 0) == s; }
    assert Sorted(s, 2) == t;
    assert Sorted(s, 3) == t;
    assert Sorted(s, 4) == t;
  }

  // ----- decoding such a code

  function Shorter(a: nat, b: nat): nat { if b < a then b else a }

  /** The half-bit that the decoder would read such lengths with. */
  function HalfBit(place: nat, p: nat, o: nat, z: nat): nat {
    if place == 1 then ShortPulse(p, Shorter(o, z)) else ShortPulse(Shorter(o, z), p)
  }

  /** One length is twice another, the third close to the shorter one, and the half-bits come out: read as bi-phase. */
  predicate ReadAsBiphase(place: nat, data: seq<nat>, p: nat, o: nat, z: nat)
    requires data != []
  {
    && Close(p, Shorter(o, z)) && Multiple(Larger(o, z), 2, Shorter(o, z))
    && HalfBit(place, p, o, z) > 0 && !Unpack(data, HalfBit(place, p, o, z), false).Refused?
  }

  lemma CloseBoth(a: nat, b: nat)
    ensures Close(a, b) == Close(b, a) && (Close(a, b) ==> ShortPulse(a, b) > 0 && ShortPulse(b, a) > 0)
  {
    if Close(a, b) { ClosePositive(a, b); }
  }

  /** What the decoder makes of lengths of which one kind are alike and the others come in two lengths. */
  predicate Two(place: nat, p: nat, o: nat, z: nat, highs: Slots, highcount: nat, lows: Slots, lowcount: nat) {
    var two := [Shorter(o, z), Larger(o, z), 0, 0, 0];
    if place == 1 then highcount == 1 && lowcount == 2 && highs == [p, 0, 0, 0, 0] && lows == two
    else highcount == 2 && lowcount == 1 && highs == two && lows == [p, 0, 0, 0, 0]
  }

  lemma ShapeOfTwo(place: nat, p: nat, o: nat, z: nat, highs: Slots, highcount: nat, lows: Slots, lowcount: nat)
    requires place < 2 && Two(place, p, o, z, highs, highcount, lows, lowcount)
    ensures BiphaseShaped(highs, highcount, lows, lowcount) <==>
      Close(p, Shorter(o, z)) && Multiple(Larger(o, z), 2, Shorter(o, z))
    ensures !Rc6Shaped(highs, highcount, lows, lowcount)
    ensures ShortPulse(highs[0], lows[0]) == HalfBit(place, p, o, z)
    ensures BiphaseShaped(highs, highcount, lows, lowcount) ==> HalfBit(place, p, o, z) > 0
  {
    hide Close, Multiple, ShortPulse;
    CloseBoth(p, Shorter(o, z));
  }

  /** The bits: a 1 wherever the longer length stands. */
  function LongBits(place: nat, data: seq<nat>, o: nat, z: nat): (bits: seq<bool>)
    requires place < 2
    ensures |bits| == (|data| + 1 - place) / 2
  {
    BitsAt(data, place, (|data| + 1 - place) / 2, Larger(o, z))
  }

  lemma PlainOfTwo(place: nat, data: seq<nat>, outlength: nat, p: nat, o: nat, z: nat, highs: Slots, highcount: nat,
      lows: Slots, lowcount: nat)
    requires place < 2 && data != [] && Two(place, p, o, z, highs, highcount, lows, lowcount)
    ensures var bits := LongBits(place, data, o, z); var n := |bits|;
      Plain(data, outlength, highs, highcount, lows, lowcount) ==
        if n > ROOM then Overrun
        else if !SizeOk(n, outlength) then Unexpected
        else if place == 1 then Space(bits, (p, Larger(o, z)), (p, Shorter(o, z)), data[|data| - 1])
        else Pulse(bits, (Larger(o, z), p), (Shorter(o, z), p))
  {
  }

  /** Lengths of which only one kind, or none, tells bits are not taken for a space or pulse code. */
  lemma NotTwo(data: seq<nat>, outlength: nat, highs: Count, lows: Count)
    requires data != [] && Counted(data, |data|) == Some((highs, lows)) && highs.n <= 1 && lows.n <= 1
    ensures var d := Decode(data, outlength); !d.Space? && !d.Pulse?
  {
    hide Unpack, Counted, Sorted, BiphaseShaped, Rc6Shaped, ShortPulse, SizeOk, BitsAt;
  }

  lemma DecodeTwo(place: nat, data: seq<nat>, outlength: nat, p: nat, o: nat, z: nat, highs: Count, lows: Count)
    requires place < 2 && data != [] && Counted(data, |data|) == Some((highs, lows))
    requires Two(place, p, o, z, Sorted(highs.slots, 5), highs.n, Sorted(lows.slots, 5), lows.n)
    ensures var d := Decode(data, outlength);
      if ReadAsBiphase(place, data, p, o, z) then !d.Space? && !d.Pulse?
      else d == Plain(data, outlength, Sorted(highs.slots, 5), highs.n, Sorted(lows.slots, 5), lows.n)
  {
    hide Unpack, Counted, Sorted, BiphaseShaped, Rc6Shaped, ShortPulse, SizeOk, Plain, Close, Multiple, HalfBit;
    ShapeOfTwo(place, p, o, z, Sorted(highs.slots, 5), highs.n, Sorted(lows.slots, 5), lows.n);
    hide Two;
  }

  lemma SortedTwo(place: nat, p: nat, o: nat, z: nat, two: Count, highs: Count, lows: Count)
    requires place < 2 && p > 0 && o > 0 && z > 0 && (highs, lows) == Sides(place, Count([p, 0, 0, 0, 0], 1), two)
    requires o != z && (two == Count([o, z, 0, 0, 0], 2) || two == Count([z, o, 0, 0, 0], 2))
    ensures Two(place, p, o, z, Sorted(highs.slots, 5), highs.n, Sorted(lows.slots, 5), lows.n)
  {
    hide Sorted;
    SortTwo(p, 0);
    SortTwo(two.slots[0], two.slots[1]);
  }

  lemma SeenTwo(place: nat, data: seq<nat>, o: nat, z: nat)
    requires Seen(place, data, |data|, o) && Seen(place, data, |data|, z) && o != z
    ensures |data| > 1
  {
  }

  /** Is it decoded as a code of this kind? */
  predicate Told(place: nat, d: Decoded) { if place == 1 then d.Space? else d.Pulse? }

  /**
   * Lengths that are alike for pulses and of two kinds for spaces, or the other way round, are decoded as space or
   * pulse code just when both kinds occur, the size is right, and they do not come out as bi-phase; the longer of the
   * two then is a 1.
   */
  lemma DecodeCoded(place: nat, data: seq<nat>, outlength: nat, p: nat, o: nat, z: nat)
    requires Coded(place, data, p, o, z) && data != []
    ensures var bits, d, l := LongBits(place, data, o, z), Decode(data, outlength), |data|;
      && (d.Space? || d.Pulse? ==> Told(place, d))
      && (Told(place, d) <==>
            && Seen(place, data, l, o) && Seen(place, data, l, z) && o != z && |bits| <= ROOM
            && SizeOk(|bits|, outlength) && !ReadAsBiphase(place, data, p, o, z))
      && (Told(place, d) ==>
            d == if place == 1 then Space(bits, (p, Larger(o, z)), (p, Shorter(o, z)), data[l - 1])
                 else Pulse(bits, (Larger(o, z), p), (Shorter(o, z), p)))
  {
    hide Seen, Sorted, Counted, Close, Multiple, ReadAsBiphase, Decode, BitsAt, Two, Plain, SizeOk;
    var two := CountCoded(place, data, |data|, p, o, z);
    var (highs, lows) := Sides(place, Alike((|data| + place) / 2, p), two);
    if two.n == 2 {
      SeenTwo(place, data, o, z);
      SortedTwo(place, p, o, z, two, highs, lows);
      DecodeTwo(place, data, outlength, p, o, z, highs, lows);
      PlainOfTwo(place, data, outlength, p, o, z, Sorted(highs.slots, 5), highs.n, Sorted(lows.slots, 5), lows.n);
    } else {
      NotTwo(data, outlength, highs, lows);
    }
  }

  // ----- the lengths of a code are coded so

  lemma {:induction false} BitTimesAt(info: CodeInfo, bits: seq<bool>, b: nat)
    requires b < |bits|
    ensures var t := if bits[b] then info.one else info.zero;
      BitTimes(info, bits)[2 * b] == t.0 && BitTimes(info, bits)[2 * b + 1] == t.1
  {
    if b < |bits| - 1 { BitTimesAt(info, bits[..|bits| - 1], b); }
  }

  /** What the bits are told by: the space of a bit, or its pulse. */
  function Telling(place: nat, t: (nat, nat)): nat { if place == 1 then t.1 else t.0 }

  predicate Tens(t: nat) { 0 < t <= LONGEST && t % 10 == 0 }

  /** Equal pulses, two spaces or the other way round, no header, and lengths in whole tens of microseconds. */
  predicate PlainCode(place: nat, info: CodeInfo) {
    && place < 2 && info.header.0 == 0 && Tens(info.one.0) && Tens(info.one.1)
    && Tens(info.zero.0) && Tens(info.zero.1) && Telling(1 - place, info.one) == Telling(1 - place, info.zero)
    && (place == 1 ==> info.trail == info.one.0)
  }

  /** The lengths of a pulse code as it should go out: bit by bit, without the last space. */
  function PulseTimes(info: CodeInfo, bits: seq<bool>): (times: seq<nat>)
    requires bits != []
  {
    var n := |bits| - 1;
    HeaderTimes(info) + BitTimes(info, bits[..n]) + [if bits[n] then info.one.0 else info.zero.0]
  }

  /** The lengths of such a code. */
  function TimesOf(place: nat, info: CodeInfo, bits: seq<bool>): seq<nat>
    requires bits != []
  {
    if place == 1 then CodeTimes(info, bits, false) else PulseTimes(info, bits)
  }

  lemma TimesLength(place: nat, info: CodeInfo, bits: seq<bool>)
    requires PlainCode(place, info) && bits != []
    ensures |TimesOf(place, info, bits)| == 2 * |bits| - 1 + 2 * place
  {
  }

  lemma TimesAt(place: nat, info: CodeInfo, bits: seq<bool>, i: nat)
    requires PlainCode(place, info) && bits != [] && i < |TimesOf(place, info, bits)|
    ensures var t := TimesOf(place, info, bits)[i]; var n := i / 2;
      if i % 2 == place then t == Telling(place, if bits[n] then info.one else info.zero)
      else t == Telling(1 - place, info.one)
  {
    var n := |bits| - 1;
    if i / 2 <= n { BitTimesAt(info, bits, i / 2); }
    if i / 2 < n { BitTimesAt(info, bits[..n], i / 2); }
  }

  lemma TimesOfCode(place: nat, info: CodeInfo, bits: seq<bool>)
    requires PlainCode(place, info) && bits != []
    ensures var t := TimesOf(place, info, bits); var o, z := Telling(place, info.one), Telling(place, info.zero);
      && |t| == 2 * |bits| - 1 + 2 * place && (place == 1 ==> t[|t| - 1] == info.trail)
      && WholeTens(t) && Coded(place, t, Telling(1 - place, info.one), o, z)
      && (forall b :: 0 <= b < |bits| ==> t[2 * b + place] == if bits[b] then o else z)
      && (Seen(place, t, |t|, o) <==> o == z || true in bits) && (Seen(place, t, |t|, z) <==> o == z || false in bits)
  {
    hide TimesOf, Seen;
    var t, o, z := TimesOf(place, info, bits), Telling(place, info.one), Telling(place, info.zero);
    TimesLength(place, info, bits);
    forall i | 0 <= i < |t|
      ensures if i % 2 == place then t[i] == (if bits[i / 2] then o else z) else t[i] == Telling(1 - place, info.one)
    {
      TimesAt(place, info, bits, i);
    }
    forall b | 0 <= b < |bits| ensures t[2 * b + place] == if bits[b] then o else z {
      TimesAt(place, info, bits, 2 * b + place);
    }
    BitsSeen(place, t, bits, o, z);
  }

  lemma BitSeen(place: nat, t: seq<nat>, bits: seq<bool>, bit: bool, x: nat, y: nat)
    requires place < 2 && bits != [] && |t| == 2 * |bits| - 1 + 2 * place
    requires forall i :: 0 <= i < |t| && i % 2 == place ==> t[i] == if bits[i / 2] == bit then x else y
    ensures bit in bits ==> Seen(place, t, |t|, x)
    ensures Seen(place, t, |t|, x) ==> x == y || bit in bits
  {
    if bit in bits {
      var b :| 0 <= b < |bits| && bits[b] == bit;
      assert (2 * b + place) % 2 == place && (2 * b + place) / 2 == b;
      assert t[2 * b + place] == x;
    }
  }

  lemma BitsSeen(place: nat, t: seq<nat>, bits: seq<bool>, o: nat, z: nat)
    requires place < 2 && bits != [] && |t| == 2 * |bits| - 1 + 2 * place
    requires forall i :: 0 <= i < |t| && i % 2 == place ==> t[i] == if bits[i / 2] then o else z
    ensures Seen(place, t, |t|, o) <==> o == z || true in bits
    ensures Seen(place, t, |t|, z) <==> o == z || false in bits
  {
    BitSeen(place, t, bits, true, o, z);
    BitSeen(place, t, bits, false, z, o);
    hide Seen;
    if bits[0] { assert true in bits; } else { assert false in bits; }
  }

  lemma LongerIsOne(place: nat, t: seq<nat>, o: nat, z: nat, bits: seq<bool>)
    requires place < 2 && |t| == 2 * |bits| - 1 + 2 * place && z != o && bits != []
    requires forall b :: 0 <= b < |bits| ==> t[2 * b + place] == if bits[b] then o else z
    ensures LongBits(place, t, o, z) == bits <==> z < o
  {
    if z > o { assert LongBits(place, t, o, z)[0] == !bits[0]; }
  }

  /** What should come back: the bits, and the lengths of a 1 and of a 0. */
  function Returned(place: nat, info: CodeInfo, bits: seq<bool>): Decoded {
    if place == 1 then Space(bits, info.one, info.zero, info.trail) else Pulse(bits, info.one, info.zero)
  }

  /**
   * A space or pulse code of four bits or more decodes to the same bits and lengths just when both kinds of bit occur,
   * a 1 has the longer length, there are at most 128 bits, and the lengths do not come out as bi-phase.
   */
  lemma CodedRoundTrip(place: nat, info: CodeInfo, bits: seq<bool>, outlength: nat)
    requires PlainCode(place, info) && |bits| >= 4 && outlength >= ByteCount(|bits|)
    ensures var t := TimesOf(place, info, bits); var o, z := Telling(place, info.one), Telling(place, info.zero);
      && t != []
      && (Decode(t, outlength) == Returned(place, info, bits) <==>
            && true in bits && false in bits && z < o && |bits| <= ROOM
            && !ReadAsBiphase(place, t, Telling(1 - place, info.one), o, z))
  {
    hide Seen, Decode, TimesOf, WholeTens, Coded, ReadAsBiphase, LongBits;
    var t, o, z := TimesOf(place, info, bits), Telling(place, info.one), Telling(place, info.zero);
    TimesOfCode(place, info, bits);
    DecodeCoded(place, t, outlength, Telling(1 - place, info.one), o, z);
    if o != z { LongerIsOne(place, t, o, z, bits); }
  }

  /** The same of a space code, and its packet bytes expand to its lengths. */
  lemma SpaceRoundTrip(info: CodeInfo, bits: seq<bool>, capacity: nat, outlength: nat)
    requires PlainCode(1, info) && |bits| >= 4 && outlength >= ByteCount(|bits|) && capacity >= 4 * |bits| + 3
    ensures var t := CodeTimes(info, bits, false); var p := PutAll(capacity, t);
      p.status == Ok && Expand(p.data) == t && p.time == Sum(t)
    ensures var t := CodeTimes(info, bits, false);
      Decode(t, outlength) == Space(bits, info.one, info.zero, info.trail) <==>
        && true in bits && false in bits && info.zero.1 < info.one.1 && |bits| <= ROOM
        && !ReadAsBiphase(1, t, info.trail, info.one.1, info.zero.1)
  {
    hide Decode, PutAll, Expand, CodeTimes, WholeTens, ReadAsBiphase;
    TimesOfCode(1, info, bits);
    ExpandPacked(capacity, CodeTimes(info, bits, false));
    CodedRoundTrip(1, info, bits, outlength);
  }

  /** Of a pulse code: the bytes that are left when the last space has been taken off expand to its lengths. */
  lemma PulseRoundTrip(info: CodeInfo, bits: seq<bool>, low: bool, capacity: nat, outlength: nat)
    requires PlainCode(0, info) && |bits| >= 4 && outlength >= ByteCount(|bits|) && capacity >= 4 * |bits| + 3
    ensures var t := PulseTimes(info, bits); var q := PutAll(capacity, BitTimes(info, bits));
      && q.status == Ok && |q.data| >= 2
      && var p := Remove(q, if low then info.one.1 else info.zero.1);
         p.status == Ok && Expand(p.data) == t && p.time == Sum(t)
    ensures var t := PulseTimes(info, bits);
      Decode(t, outlength) == Pulse(bits, info.one, info.zero) <==>
        && true in bits && false in bits && info.zero.0 < info.one.0 && |bits| <= ROOM
        && !ReadAsBiphase(0, t, info.one.1, info.one.0, info.zero.0)
  {
    hide Decode, PutAll, Expand, PulseTimes, WholeTens, ReadAsBiphase, Remove, BitTimes;
    TimesOfCode(0, info, bits);
    ExpandPacked(capacity, PulseTimes(info, bits));
    BitTimesTens(info, bits);
    ExpandPacked(capacity, BitTimes(info, bits));
    assert HeaderTimes(info) + BitTimes(info, bits) == BitTimes(info, bits);
    PulseCodeIff(info, bits, low, capacity);
    CodedRoundTrip(0, info, bits, outlength);
  }

  lemma BitTimesTens(info: CodeInfo, bits: seq<bool>)
    requires PlainCode(0, info)
    ensures WholeTens(BitTimes(info, bits))
  {
    forall i | 0 <= i < 2 * |bits| ensures Tens(BitTimes(info, bits)[i]) { BitTimesAt(info, bits, i / 2); }
  }

  /** A code whose first pulse is a long one is never read as bi-phase, whatever the lengths. */
  lemma LongPulseFirst(data: seq<nat>, p: nat, o: nat, z: nat)
    requires Coded(0, data, p, o, z) && data != [] && data[0] == Larger(o, z)
    ensures !ReadAsBiphase(0, data, p, o, z)
  {
    hide Unpack;
    var s, l := Shorter(o, z), Larger(o, z);
    if Close(p, s) && Multiple(l, 2, s) {
      var pulse := HalfBit(0, p, o, z);
      FarFromHalf(p, s, l);
      FirstRefused(data, pulse);
    }
  }

  lemma FarFromHalf(p: nat, s: nat, l: nat)
    requires Close(p, s) && Multiple(l, 2, s)
    ensures var pulse := (s + p + 1) / 2; Close(s, p) && pulse > 0 && Pdiff(l as real, pulse as real) > 0.3
  {
    ClosePositive(p, s);
    hide Pdiff;
    var pulse := (s + p + 1) / 2;
    assert 20 * (if p > s then p - s else s - p) < 3 * (p + s) by { PdiffBelow(p as real, s as real, 0.3); }
    assert 20 * (2 * s - l) < l + 2 * s by { PdiffBelow(l as real / 2.0, s as real, 0.1); }
    LengthsApart(p, s, l);
    PdiffBelow(p as real, s as real, 0.3);
    PdiffBelow(s as real, p as real, 0.3);
    assert Pdiff(l as real, pulse as real) > 0.3 by { PdiffAbove(l as real, pulse as real, 0.3); }
  }

  lemma LengthsApart(p: nat, s: nat, l: nat)
    requires p > 0 && s > 0 && 20 * (p - s) < 3 * (p + s) && 20 * (2 * s - l) < l + 2 * s
    ensures var pulse := (s + p + 1) / 2; pulse < l && 20 * (l - pulse) > 3 * (l + pulse)
  {
  }

  lemma PdiffAbove(a: real, b: real, c: real)
    requires a + b > 0.0
    ensures Pdiff(a, b) <= c <==> (if a > b then a - b else b - a) <= c * ((a + b) / 2.0)
  {
    QuotientAtMost(if a > b then a - b else b - a, (a + b) / 2.0, c);
  }

  lemma FirstRefused(data: seq<nat>, pulse: nat)
    requires data != [] && pulse > 0 && Pdiff(data[0] as real, pulse as real) > 0.3
    ensures Unpack(data, pulse, false) == Refused
  {
  }

  /**
   * The space taken away is the right one just when the bit looked at, the lowest of the first byte, stands for a
   * space as long as that of the last bit; with more than eight bits these are two different bits.
   */
  lemma PulseCodeIff(info: CodeInfo, bits: seq<bool>, low: bool, capacity: nat)
    requires bits != [] && PutAll(capacity, HeaderTimes(info) + BitTimes(info, bits)).status == Ok
    ensures var q := PutAll(capacity, HeaderTimes(info) + BitTimes(info, bits));
      var space := if low then info.one.1 else info.zero.1;
      |q.data| >= 2 && (Remove(q, space) == PutAll(capacity, PulseTimes(info, bits)) <==>
        space == if bits[|bits| - 1] then info.one.1 else info.zero.1)
  {
    hide PutAll, HeaderTimes;
    var n := |bits| - 1;
    var t := if bits[n] then info.one else info.zero;
    assert HeaderTimes(info) + BitTimes(info, bits) == PulseTimes(info, bits) + [t.1];
    RemoveLastIff(capacity, PulseTimes(info, bits), t.1, if low then info.one.1 else info.zero.1);
  }

  /** A two-byte code whose last bit is a 1 and whose first byte is even loses the wrong space. */
  lemma PulseCodeSpoiled(info: CodeInfo, code: seq<Word>, capacity: nat)
    requires |code| == 2 && Bytes(code) && info.bitCount == 16 && code[1][0] && !code[0][0]
    requires info.one.1 != info.zero.1
    requires PutAll(capacity, HeaderTimes(info) + BitTimes(info, SentBits(code, 16))).status == Ok
    ensures var q := PutAll(capacity, HeaderTimes(info) + BitTimes(info, SentBits(code, 16)));
      |q.data| >= 2 && Remove(q, info.zero.1) != PutAll(capacity, PulseTimes(info, SentBits(code, 16)))
  {
    hide PutAll, HeaderTimes, BitTimes, PulseTimes, Remove;
    StreamBit(code, 15);
    assert SentBits(code, 16)[15] == code[1][0];
    PulseCodeIff(info, SentBits(code, 16), false, capacity);
  }

  // ----- the bytes

  lemma {:induction false} SameStream(a: seq<Word>, b: seq<Word>)
    requires Bytes(a) && Bytes(b) && |a| == |b| && Stream(a) == Stream(b)
    ensures a == b
  {
    if a != [] {
      MsbSame(a[0], b[0], Stream(a[1..]), Stream(b[1..]));
      SameStream(a[1..], b[1..]);
    }
  }

  lemma MsbSame(v: Word, w: Word, s: seq<bool>, t: seq<bool>)
    requires |v| == |w| == 8 && Msb(v) + s == Msb(w) + t
    ensures v == w && s == t
  {
    assert (Msb(v) + s)[..8] == Msb(v) && (Msb(w) + t)[..8] == Msb(w);
    assert (Msb(v) + s)[8..] == s && (Msb(w) + t)[8..] == t;
    MsbMsb(v);
    MsbMsb(w);
  }

  /** Only one row of bytes holds given bits: the bytes decoded are the bytes sent. */
  lemma HeldOnce(a: seq<Word>, b: seq<Word>, bits: seq<bool>)
    requires HoldsBits(a, bits) && HoldsBits(b, bits)
    ensures a == b
  {
    hide Stream;
    StreamLength(a);
    StreamLength(b);
    var pad := 8 * |a| - |bits|;
    forall k | 0 <= k < 8 * |a| ensures Stream(a)[k] == Stream(b)[k] {
      StreamBit(a, k);
      StreamBit(b, k);
      if k >= pad { assert SentBits(a, |bits|)[k - pad] == SentBits(b, |bits|)[k - pad]; }
    }
    SameStream(a, b);
  }

  // ----- a bi-phase code

  /** One length or two, the second twice the first. */
  predicate OneOrTwo(c: Count, p: nat) {
    c == Count([p, 0, 0, 0, 0], 1) || c == Count([p, 2 * p, 0, 0, 0], 2)
  }

  lemma NoteHalf(c: Count, p: nat, t: nat)
    requires p > 0 && OneOrTwo(c, p) && (t == p || t == 2 * p)
    ensures Note(c, t).Some? && OneOrTwo(Note(c, t).value, p)
  {
    assert [p, 0, 0, 0, 0][0 := p] == [p, 0, 0, 0, 0] && [p, 0, 0, 0, 0][1 := 2 * p] == [p, 2 * p, 0, 0, 0];
    assert [p, 2 * p, 0, 0, 0][0 := p] == [p, 2 * p, 0, 0, 0] == [p, 2 * p, 0, 0, 0][1 := 2 * p];
  }

  lemma {:induction false} CountHalves(data: seq<nat>, i: nat, p: nat) returns (highs: Count, lows: Count)
    requires p > 0 && 2 <= i <= |data| && SinglesAndDoubles(data, p) && data[0] == p && data[1] == p
    ensures Counted(data, i) == Some((highs, lows)) && OneOrTwo(highs, p) && OneOrTwo(lows, p)
  {
    if i == 2 {
      NoteAlike(0, p);
      highs, lows := Count([p, 0, 0, 0, 0], 1), Count([p, 0, 0, 0, 0], 1);
      assert Counted(data, 0) == Some((NONE, NONE));
      assert Counted(data, 1) == Some((highs, NONE));
    } else {
      hide Note, OneOrTwo;
      highs, lows := CountHalves(data, i - 1, p);
      if (i - 1) % 2 == 0 {
        NoteHalf(highs, p, data[i - 1]);
        highs := Note(highs, data[i - 1]).value;
      } else {
        NoteHalf(lows, p, data[i - 1]);
        lows := Note(lows, data[i - 1]).value;
      }
    }
  }

  lemma HalvesShaped(highs: Slots, highcount: nat, lows: Slots, lowcount: nat, p: nat)
    requires p > 0 && OneOrTwo(Count(highs, highcount), p) && OneOrTwo(Count(lows, lowcount), p)
    ensures BiphaseShaped(highs, highcount, lows, lowcount) && ShortPulse(highs[0], lows[0]) == p
  {
    hide Pdiff;
    PdiffBelow(p as real, p as real, 0.3);
    PdiffBelow((2 * p) as real, (2 * p) as real, 0.3);
    PdiffBelow((2 * p) as real / 2.0, p as real, 0.1);
  }

  lemma {:induction false} MergedSecond(bits: seq<bool>, p: nat)
    requires |bits| > 1 && bits[0] && bits[1]
    ensures var a := Merged(BIPHASE, Even(p), bits); |a| > 1 && a[0] == a[1] == p
  {
    var n := |bits| - 1;
    if n > 1 { MergedSecond(bits[..n], p); }
  }

  lemma SortedHalves(c: Count, p: nat)
    requires p > 0 && OneOrTwo(c, p)
    ensures Sorted(c.slots, 5) == c.slots && c.n > 0
  {
    hide Sorted;
    SortTwo(p, c.slots[1]);
  }

  lemma DecodeShaped(data: seq<nat>, outlength: nat, highs: Count, lows: Count)
    requires data != [] && Counted(data, |data|) == Some((highs, lows)) && highs.n > 0 && lows.n > 0
    requires Sorted(highs.slots, 5) == highs.slots && Sorted(lows.slots, 5) == lows.slots
    requires BiphaseShaped(highs.slots, highs.n, lows.slots, lows.n)
    ensures var p := ShortPulse(highs.slots[0], lows.slots[0]);
      p > 0 && (Unpack(data, p, false).Bits? && SizeOk(|Unpack(data, p, false).bits|, outlength) ==>
        Decode(data, outlength) == Biphase(Unpack(data, p, false).kind, Unpack(data, p, false).bits, p))
  {
    hide Unpack, Counted, BiphaseShaped, Rc6Shaped, ShortPulse, Plain, Sorted;
    ShapedPositive(highs.slots, highs.n, lows.slots, lows.n);
  }

  lemma DecodeHalves(data: seq<nat>, p: nat, outlength: nat)
    requires p > 0 && |data| > 1 && SinglesAndDoubles(data, p) && data[0] == data[1] == p
    ensures Unpack(data, p, false).Bits? && SizeOk(|Unpack(data, p, false).bits|, outlength) ==>
      Decode(data, outlength) == Biphase(Unpack(data, p, false).kind, Unpack(data, p, false).bits, p)
  {
    hide Unpack, Counted, BiphaseShaped, ShortPulse, Sorted, OneOrTwo, Decode;
    var highs, lows := CountHalves(data, |data|, p);
    SortedHalves(highs, p);
    SortedHalves(lows, p);
    HalvesShaped(highs.slots, highs.n, lows.slots, lows.n, p);
    DecodeShaped(data, outlength, highs, lows);
  }

  /** A code of either kind but RC-6 has the same lengths. */
  lemma {:induction false} SameLengths(kind: Kind, l: Lengths, bits: seq<bool>)
    requires bits != [] && !kind.RC6?
    ensures Merged(kind, l, bits) == Merged(BIPHASE, l, bits) && HalfTimes(kind, l, bits) == HalfTimes(BIPHASE, l, bits)
  {
    if |bits| > 1 { SameLengths(kind, l, bits[..|bits| - 1]); }
  }

  lemma ReadAsSent(bits: seq<bool>, p: nat, outlength: nat)
    requires p > 0 && 4 <= |bits| < ROOM && outlength >= ByteCount(|bits|) && bits[0] && bits[1]
    ensures var d := Decode(HalfTimes(BIPHASE, Even(p), bits), outlength);
      d == Biphase(KindOf(p), bits, p)
  {
    var data := HalfTimes(BIPHASE, Even(p), bits);
    MergedSecond(bits, p);
    MergedShort(bits, p);
    JoinedShort(Merged(BIPHASE, Even(p), bits), LastTimes(BIPHASE, Even(p), bits[|bits| - 1]), p);
    UnpacksAgain(bits, p);
    hide Merged, Unpack, Decode;
    DecodeHalves(data, p, outlength);
  }

  lemma OnlyUnpacked(data: seq<nat>, outlength: nat) returns (pulse: nat, rc6: bool)
    requires data != [] && Decode(data, outlength).Biphase?
    ensures pulse > 0 && Unpack(data, pulse, rc6).Bits? && Unpack(data, pulse, rc6).bits == Decode(data, outlength).bits
  {
    hide Unpack, Counted, BiphaseShaped, Rc6Shaped, ShortPulse, Sorted;
    var (highCount, lowCount) := Counted(data, |data|).value;
    var highs, lows := Sorted(highCount.slots, 5), Sorted(lowCount.slots, 5);
    ShapedPositive(highs, highCount.n, lows, lowCount.n);
    pulse, rc6 := ShortPulse(highs[0], lows[0]), !BiphaseShaped(highs, highCount.n, lows, lowCount.n);
  }

  lemma HalvesTens(kind: Kind, bits: seq<bool>, p: nat)
    requires bits != [] && !kind.RC6? && p % 10 == 0 && 2 * p <= LONGEST
    ensures WholeTens(HalfTimes(kind, Even(p), bits))
  {
    SameLengths(kind, Even(p), bits);
    MergedShort(bits, p);
    JoinedShort(Merged(BIPHASE, Even(p), bits), LastTimes(BIPHASE, Even(p), bits[|bits| - 1]), p);
    hide Merged;
  }

  /** The packet bytes of such a code expand to its lengths. */
  lemma HalvesPacked(kind: Kind, bits: seq<bool>, p: nat, capacity: nat)
    requires bits != [] && !kind.RC6? && p % 10 == 0 && 2 * p <= LONGEST
    requires var n := |HalfTimes(kind, Even(p), bits)|; 2 * n + 1 <= capacity
    ensures var t := HalfTimes(kind, Even(p), bits); var q := PutAll(capacity, t);
      q.status == Ok && Expand(q.data) == t && q.time == Sum(t)
  {
    hide *;
    HalvesTens(kind, bits, p);
    ExpandPacked(capacity, HalfTimes(kind, Even(p), bits));
  }

  /**
   * A bi-phase or RC-5 code of 4 to 127 bits with half-bits of one length: its lengths decode to the same bits and
   * the same half-bit just when it begins with two ones; which of the two it was is told by the half-bit alone.
   */
  lemma BiphaseRoundTripIff(kind: Kind, bits: seq<bool>, p: nat, outlength: nat)
    requires p > 0 && 4 <= |bits| < ROOM && outlength >= ByteCount(|bits|) && !kind.RC6?
    ensures var d := Decode(HalfTimes(kind, Even(p), bits), outlength);
      && (d.Biphase? && d.bits == bits <==> bits[0] && bits[1])
      && (d.Biphase? && d.bits == bits ==> d == Biphase(KindOf(p), bits, p))
  {
    hide Decode, HalfTimes, Unpack, KindOf;
    SameLengths(kind, Even(p), bits);
    var data := HalfTimes(BIPHASE, Even(p), bits);
    if bits[0] && bits[1] {
      ReadAsSent(bits, p, outlength);
    } else {
      NeverUnpacked(bits, p, 1, false);
      if Decode(data, outlength).Biphase? {
        var pulse, rc6 := OnlyUnpacked(data, outlength);
        NeverUnpacked(bits, p, pulse, rc6);
      }
    }
  }
}
