/** Space and pulse codes whose long length is twice all others: which of them are taken for bi-phase. */
module IrDoubles {
  import opened IrBiphase
  import opened IrCode
  import opened IrRoundTrip

  /** Every bit as a single or a double length, and a single behind it. */
  function Pairs(bits: seq<bool>, p: nat): (t: seq<nat>)
    ensures |t| == 2 * |bits|
  {
    if bits == [] then []
    else
      var n := |bits| - 1;
      Pairs(bits[..n], p) + [if bits[n] then 2 * p else p, p]
  }

  lemma {:induction false} PairsAt(bits: seq<bool>, p: nat, i: nat)
    requires i < 2 * |bits|
    ensures Pairs(bits, p)[i] == if i % 2 == 0 && bits[i / 2] then 2 * p else p
  {
    if i < 2 * |bits| - 2 { PairsAt(bits[..|bits| - 1], p, i); }
  }

  /** A second 1, elsewhere than in place 3. */
  predicate SecondOne(bits: seq<bool>) { exists j :: 0 <= j < |bits| && j != 3 && bits[j] && true in bits[..j] }

  lemma SecondOneMore(bits: seq<bool>, bit: bool)
    ensures SecondOne(bits + [bit]) <==> SecondOne(bits) || (bit && |bits| != 3 && true in bits)
    ensures true in bits + [bit] <==> bit || true in bits
  {
    var n := |bits|;
    var more := bits + [bit];
    assert more[..n] == bits;
    assert forall j :: 0 <= j < n ==> more[j] == bits[j] && more[..j] == bits[..j];
    if SecondOne(bits) {
      var j :| 0 <= j < n && j != 3 && bits[j] && true in bits[..j];
      assert more[j] && true in more[..j];
    }
    if bit && n != 3 && true in bits { assert more[n] && true in more[..n]; }
  }

  /** The half-bit decoder behind so many pairs: given up on a second 1, or from the first on in the other half. */
  predicate PairsRead(s: Scan, bits: seq<bool>) {
    if SecondOne(bits) then s == Misfit
    else
      && s.Going? && |s.h.temp| == ROOM && s.h.halfbit == (true !in bits) && (true !in bits ==> !s.h.rc6temp)
      && s.h.count == |bits| + if true in bits then 1 else 0
  }

  lemma LengthRead(s: Scan, bits: seq<bool>, bit: bool, p: nat)
    requires p > 0 && |bits| < ROOM - 1 && PairsRead(s, bits)
    ensures Step(s, if bit then 2 * p else p, p) == Misfit <==> SecondOne(bits + [bit])
    ensures !Step(s, if bit then 2 * p else p, p).Full?
  {
    SecondOneMore(bits, bit);
    SingleAndDouble(p);
    hide Times, SecondOne;
  }

  lemma PairRead(s: Scan, bits: seq<bool>, bit: bool, p: nat)
    requires p > 0 && |bits| < ROOM - 1 && PairsRead(s, bits)
    ensures PairsRead(Step(Step(s, if bit then 2 * p else p, p), p, p), bits + [bit])
  {
    SecondOneMore(bits, bit);
    SingleAndDouble(p);
    hide Times, SecondOne;
  }

  lemma {:induction false} AllPairsRead(bits: seq<bool>, p: nat)
    requires p > 0 && |bits| < ROOM - 1
    ensures PairsRead(Steps(Start(false), Pairs(bits, p), p), bits)
  {
    hide Step, Steps, PairsRead;
    if bits == [] {
      NoPairs(p);
    } else {
      var n := |bits| - 1;
      var a, t := Pairs(bits[..n], p), if bits[n] then 2 * p else p;
      AllPairsRead(bits[..n], p);
      PairRead(Steps(Start(false), a, p), bits[..n], bits[n], p);
      StepsMore(Start(false), a, t, p);
      StepsMore(Start(false), a + [t], p, p);
      assert a + [t] + [p] == a + [t, p];
      assert bits[..n] + [bits[n]] == bits;
    }
  }

  lemma NoPairs(p: nat)
    requires p > 0
    ensures PairsRead(Steps(Start(false), Pairs([], p), p), [])
  {
    NoSteps(Start(false), p);
  }

  // ----- the lengths of such a code

  /** A 1 is told by a double length; everything else is a single one. */
  predicate Doubled(place: nat, info: CodeInfo, p: nat) {
    PlainCode(place, info) && p > 0 && Telling(1 - place, info.one) == p && Telling(place, info.zero) == p
    && Telling(place, info.one) == 2 * p
  }

  lemma TimesArePairs(place: nat, info: CodeInfo, bits: seq<bool>, p: nat)
    requires Doubled(place, info, p) && bits != []
    ensures var t, n := TimesOf(place, info, bits), |bits| - 1;
      t == if place == 1 then [p] + Pairs(bits, p) else Pairs(bits[..n], p) + [if bits[n] then 2 * p else p]
  {
    var t, n := TimesOf(place, info, bits), |bits| - 1;
    TimesLength(place, info, bits);
    hide TimesOf, Pairs;
    var s := if place == 1 then [p] + Pairs(bits, p) else Pairs(bits[..n], p) + [if bits[n] then 2 * p else p];
    forall i | 0 <= i < |t| ensures t[i] == s[i] {
      TimesAt(place, info, bits, i);
      if place == 1 && i > 0 { PairsAt(bits, p, i - 1); }
      if place == 0 && i < 2 * n { PairsAt(bits[..n], p, i); }
    }
  }

  /** The leading space is told by where the doubles are. */
  lemma {:induction false} DoublesTell(data: seq<nat>, p: nat, place: nat, i: nat)
    requires p > 0 && place < 2 && i <= |data| && 2 * p in data[i..]
    requires forall j :: 0 <= j < |data| ==> data[j] == p || (data[j] == 2 * p && j % 2 == place)
    ensures StartSpace(data, p, i) == (place == 0)
    decreases |data| - i
  {
    SingleAndDouble(p);
    hide Times;
    if data[i] == p {
      assert data[i..] == [data[i]] + data[i + 1..];
      DoublesTell(data, p, place, i + 1);
    }
  }

  lemma DoublesWhereOnes(place: nat, info: CodeInfo, bits: seq<bool>, p: nat)
    requires Doubled(place, info, p) && bits != []
    ensures var t := TimesOf(place, info, bits);
      && t != [] && (t[0] == if place == 0 && bits[0] then 2 * p else p)
      && (true in bits ==> StartSpace(t, p, 0) == (place == 0))
  {
    var t := TimesOf(place, info, bits);
    TimesLength(place, info, bits);
    hide TimesOf, StartSpace;
    forall i | 0 <= i < |t| ensures t[i] == if i % 2 == place && bits[i / 2] then 2 * p else p {
      TimesAt(place, info, bits, i);
    }
    if true in bits {
      var b :| 0 <= b < |bits| && bits[b];
      assert t[2 * b + place] == 2 * p;
      assert t[0..] == t;
      DoublesTell(t, p, place, 0);
    }
  }

  /** Read behind the first pulse if the doubles are spaces, else from it on. */
  lemma HalvesOfPairs(place: nat, info: CodeInfo, bits: seq<bool>, p: nat)
    requires Doubled(place, info, p) && 0 < |bits| < ROOM - 1
    ensures var t := TimesOf(place, info, bits);
      t != [] && (Steps(Start(false), if place == 0 then t else t[1..], p) == Misfit <==> SecondOne(bits))
    ensures var t := TimesOf(place, info, bits);
      t != [] && !Steps(Start(false), if place == 0 then t else t[1..], p).Full?
  {
    hide *;
    OnePlace(place, info, p);
    TimesArePairs(place, info, bits, p);
    if place == 1 {
      WholePairs(bits, p);
      assert TimesOf(place, info, bits)[1..] == Pairs(bits, p);
    } else {
      PairsAndHalf(bits, p);
    }
  }

  lemma OnePlace(place: nat, info: CodeInfo, p: nat)
    requires Doubled(place, info, p)
    ensures place < 2 && p > 0
  {
  }

  lemma WholePairs(bits: seq<bool>, p: nat)
    requires p > 0 && |bits| < ROOM - 1
    ensures var s := Steps(Start(false), Pairs(bits, p), p); !s.Full? && (s == Misfit <==> SecondOne(bits))
  {
    AllPairsRead(bits, p);
    hide Steps, SecondOne;
  }

  lemma PairsAndHalf(bits: seq<bool>, p: nat)
    requires p > 0 && 0 < |bits| < ROOM - 1
    ensures var n := |bits| - 1;
      var s := Steps(Start(false), Pairs(bits[..n], p) + [if bits[n] then 2 * p else p], p);
      !s.Full? && (s == Misfit <==> SecondOne(bits))
  {
    var n := |bits| - 1;
    AllPairsRead(bits[..n], p);
    hide Pairs, Steps, Step, SecondOne;
    LengthRead(Steps(Start(false), Pairs(bits[..n], p), p), bits[..n], bits[n], p);
    StepsMore(Start(false), Pairs(bits[..n], p), if bits[n] then 2 * p else p, p);
    assert bits[..n] + [bits[n]] == bits;
  }

  lemma ShapeOfDoubles(p: nat)
    requires p > 0
    ensures Close(p, p) && Multiple(2 * p, 2, p) && ShortPulse(p, p) == p
    ensures Pdiff(p as real, p as real) <= 0.3 && Pdiff((2 * p) as real, p as real) > 0.3
  {
    ShapeTolerance(p, p);
    ShapeTolerance(2 * p, p);
    hide Pdiff;
    PdiffAbove(p as real, p as real, 0.3);
    PdiffAbove((2 * p) as real, p as real, 0.3);
  }

  lemma UnpackRefused(data: seq<nat>, p: nat)
    requires p > 0 && data != []
    ensures var s := Steps(Start(false), if StartSpace(data, p, 0) then data else data[1..], p);
      Unpack(data, p, false).Refused? <==> Pdiff(data[0] as real, p as real) > 0.3 || s == Misfit
  {
    hide Pdiff, Steps, StartSpace;
  }

  /** Taken for bi-phase, unless a second 1 stands elsewhere than in place 3, or a pulse code begins with a 1. */
  lemma ReadAsBiphaseIff(place: nat, info: CodeInfo, bits: seq<bool>, p: nat)
    requires Doubled(place, info, p) && 0 < |bits| < ROOM - 1 && true in bits
    ensures var t := TimesOf(place, info, bits);
      t != [] && (ReadAsBiphase(place, t, p, 2 * p, p) <==> !SecondOne(bits) && (place == 0 ==> !bits[0]))
  {
    var t := TimesOf(place, info, bits);
    DoublesWhereOnes(place, info, bits, p);
    HalvesOfPairs(place, info, bits, p);
    ShapeOfDoubles(p);
    hide TimesOf, Unpack, Steps, StartSpace, SecondOne, Pdiff, Close, Multiple, ShortPulse;
    UnpackRefused(t, p);
  }

  /**
   * A space or pulse code of 4 to 126 bits, its long length twice all others, comes back just when both kinds of bit
   * occur and there is a second 1, elsewhere than in place 3, or, in a pulse code, the first bit is a 1. The default
   * lengths of Sony codes are of this kind.
   */
  lemma DoubledRoundTripIff(place: nat, info: CodeInfo, bits: seq<bool>, p: nat, outlength: nat)
    requires Doubled(place, info, p) && 4 <= |bits| < ROOM - 1 && outlength >= ByteCount(|bits|)
    ensures Decode(TimesOf(place, info, bits), outlength) == Returned(place, info, bits) <==>
      true in bits && false in bits && (SecondOne(bits) || (place == 0 && bits[0]))
  {
    hide TimesOf, Decode, ReadAsBiphase, SecondOne;
    CodedRoundTrip(place, info, bits, outlength);
    if true in bits { ReadAsBiphaseIff(place, info, bits, p); }
  }
}
