/** RC-6 codes: what the decoder makes of the lengths they are sent in. */
module IrRc6 {
  import opened Rings
  import opened IrBiphase
  import opened IrCode
  import opened IrRoundTrip

  // ----- the lengths

  lemma TripleLength(p: nat)
    requires p > 0
    ensures Times(3 * p, 3, p, 0.2) && !Times(3 * p, 2, p, 0.2) && !Times(3 * p, 2, p, 0.3)
  {
    TimesTolerance(3 * p, p);
  }

  /** Around the double bit the lengths are longer. */
  function NextSix(p: nat, last: bool, bit: bool, place: nat): seq<nat> {
    if bit == last then [if place == 5 then 2 * p else p, if place == 4 then 2 * p else p]
    else [if place == 4 || place == 5 then 3 * p else 2 * p]
  }

  lemma NextIsNextSix(p: nat, last: bool, bit: bool, place: nat)
    ensures NextTimes(RC6, Even(p), last, bit, place) == NextSix(p, last, bit, place)
  {
  }

  lemma {:induction false} MergedPrefix(bits: seq<bool>, p: nat, k: nat)
    requires 0 < k <= |bits|
    ensures Merged(RC6, Even(p), bits[..k]) <= Merged(RC6, Even(p), bits)
    decreases |bits|
  {
    hide NextTimes;
    var n := |bits| - 1;
    if k <= n {
      assert bits[..n][..k] == bits[..k];
      MergedPrefix(bits[..n], p, k);
    } else {
      assert bits[..k] == bits;
    }
  }

  lemma {:induction false} MergedBegins(bits: seq<bool>, p: nat)
    requires bits != [] && bits[0]
    ensures var m := Merged(RC6, Even(p), bits); m != [] && m[0] == p
  {
    hide NextTimes;
    var n := |bits| - 1;
    if n > 0 { MergedBegins(bits[..n], p); }
  }

  /** All lengths are one, two or three half-bits. */
  predicate UpToThree(data: seq<nat>, p: nat) {
    forall i :: 0 <= i < |data| ==> data[i] == p || data[i] == 2 * p || data[i] == 3 * p
  }

  lemma {:induction false} MergedUpToThree(bits: seq<bool>, p: nat)
    requires bits != []
    ensures UpToThree(Merged(RC6, Even(p), bits), p)
  {
    var n := |bits| - 1;
    if n > 0 {
      MergedUpToThree(bits[..n], p);
      NextIsNextSix(p, bits[n - 1], bits[n], n);
      hide NextTimes;
    }
  }

  // ----- the leading space

  /** The first double length decides. */
  lemma {:induction false} FirstDouble(data: seq<nat>, p: nat, m: nat, i: nat)
    requires p > 0 && i <= m < |data| && Times(data[m], 2, p, 0.3)
    requires forall j :: i <= j < m ==> !Times(data[j], 2, p, 0.3)
    ensures StartSpace(data, p, i) == (m % 2 == 0)
    decreases m - i
  {
    hide Times;
    if i < m { FirstDouble(data, p, m, i + 1); }
  }

  lemma {:induction false} NoDouble(data: seq<nat>, p: nat, i: nat)
    requires p > 0 && i <= |data| && forall j :: i <= j < |data| ==> !Times(data[j], 2, p, 0.3)
    ensures StartSpace(data, p, i)
    decreases |data| - i
  {
    hide Times;
    if i < |data| { NoDouble(data, p, i + 1); }
  }

  // ----- reading

  /** Half of the k-th bit has been seen, of the double bit the double half, and the bits before are marked. */
  predicate At(s: Scan, bits: seq<bool>, k: nat)
    requires k < |bits|
  {
    && s.Going? && |s.h.temp| == ROOM && s.h.halfbit && s.h.bit == bits[k] && s.h.count == k
    && s.h.rc6temp == (k == 4) && (k >= 4 ==> s.h.rc6)
    && (forall i :: 0 <= i < k && i < ROOM ==> s.h.temp[i] == bits[i])
    && (forall i :: k < i < ROOM ==> !s.h.temp[i]) && (k < ROOM ==> s.h.temp[k] ==> bits[k])
  }

  function StepAll(s: Scan, more: seq<nat>, p: nat): Scan
    requires p > 0 && (s.Going? ==> |s.h.temp| == ROOM) && 1 <= |more| <= 2
  {
    if |more| == 1 then Step(s, more[0], p) else Step(Step(s, more[0], p), more[1], p)
  }

  lemma ReadsSameSix(s: Scan, bits: seq<bool>, k: nat, p: nat)
    requires p > 0 && k + 1 < |bits| && k + 1 < ROOM && At(s, bits, k) && bits[k + 1] == bits[k]
    ensures At(StepAll(s, NextSix(p, bits[k], bits[k + 1], k + 1), p), bits, k + 1)
  {
    SingleAndDouble(p);
    hide Times;
  }

  lemma ReadsChangeSix(s: Scan, bits: seq<bool>, k: nat, p: nat)
    requires p > 0 && k + 1 < |bits| && k + 1 < ROOM && At(s, bits, k) && bits[k + 1] != bits[k]
    ensures At(StepAll(s, NextSix(p, bits[k], bits[k + 1], k + 1), p), bits, k + 1)
  {
    SingleAndDouble(p);
    TripleLength(p);
    hide Times;
  }

  lemma StepsAll(s: Scan, a: seq<nat>, more: seq<nat>, p: nat)
    requires p > 0 && (s.Going? ==> |s.h.temp| == ROOM) && 1 <= |more| <= 2
    ensures Steps(s, a + more, p) == StepAll(Steps(s, a, p), more, p)
  {
    hide Step, Steps;
    StepsMore(s, a, more[0], p);
    if |more| == 2 {
      StepsMore(s, a + [more[0]], more[1], p);
      assert a + [more[0]] + [more[1]] == a + more;
    } else {
      assert [more[0]] == more;
    }
  }

  lemma {:induction false} ReadsMergedSix(bits: seq<bool>, p: nat, rc6: bool)
    requires p > 0 && 0 < |bits| < ROOM && bits[0]
    ensures var m := Merged(RC6, Even(p), bits);
      m != [] && At(Steps(Start(rc6), m[1..], p), bits, |bits| - 1)
  {
    hide Step, At, Steps, NextTimes, NextSix, StepAll;
    var n := |bits| - 1;
    MergedBegins(bits, p);
    if n == 0 {
      StartsAt(bits, p, rc6);
    } else {
      var before := bits[..n];
      var m := Merged(RC6, Even(p), before);
      ReadsMergedSix(before, p, rc6);
      MergedBegins(before, p);
      AtLonger(Steps(Start(rc6), m[1..], p), before, bits, n - 1);
      NextIsNextSix(p, bits[n - 1], bits[n], n);
      var more := NextTimes(RC6, Even(p), bits[n - 1], bits[n], n);
      StepsAll(Start(rc6), m[1..], more, p);
      var s := Steps(Start(rc6), m[1..], p);
      if bits[n] == bits[n - 1] { ReadsSameSix(s, bits, n - 1, p); } else { ReadsChangeSix(s, bits, n - 1, p); }
      assert (m + more)[1..] == m[1..] + more;
    }
  }

  lemma StartsAt(bits: seq<bool>, p: nat, rc6: bool)
    requires p > 0 && |bits| == 1 && bits[0]
    ensures var m := Merged(RC6, Even(p), bits); m == [p] && At(Steps(Start(rc6), m[1..], p), bits, 0)
  {
    NoSteps(Start(rc6), p);
    assert [p][1..] == [];
  }

  lemma AtLonger(s: Scan, a: seq<bool>, b: seq<bool>, k: nat)
    requires k < |a| <= |b| && a == b[..|a|] && At(s, a, k)
    ensures At(s, b, k)
  {
  }

  lemma EndsSixOnOne(s: Scan, bits: seq<bool>, p: nat)
    requires p > 0 && 6 <= |bits| < ROOM && bits[|bits| - 1] && At(s, bits, |bits| - 1)
    ensures Finished(s, p, false) == Bits(RC6, bits)
  {
    assert Mark(s.h).temp[..|bits|] == bits;
  }

  lemma EndsSixOnZero(s: Scan, bits: seq<bool>, p: nat)
    requires p > 0 && 6 <= |bits| < ROOM && !bits[|bits| - 1] && At(s, bits, |bits| - 1)
    ensures Finished(Step(s, p, p), p, false) == Bits(RC6, bits)
  {
    SingleAndDouble(p);
    hide Times;
    var n := |bits|;
    var h := Step(s, p, p).h;
    assert h.count == n && !h.halfbit && h.rc6;
    assert Mark(h).temp[..n] == bits;
  }

  /** Behind its first pulse such a code is read as it was sent. */
  lemma ReadsAllSix(bits: seq<bool>, p: nat, rc6: bool)
    requires p > 0 && 6 <= |bits| < ROOM && bits[0]
    ensures var data := HalfTimes(RC6, Even(p), bits);
      data != [] && data[0] == p && Finished(Steps(Start(rc6), data[1..], p), p, false) == Bits(RC6, bits)
  {
    var n := |bits| - 1;
    var m := Merged(RC6, Even(p), bits);
    MergedBegins(bits, p);
    ReadsMergedSix(bits, p, rc6);
    hide Merged, Steps, At, Finished, Step;
    var s := Steps(Start(rc6), m[1..], p);
    if bits[n] {
      assert m + [] == m;
      EndsSixOnOne(s, bits, p);
    } else {
      StepsMore(Start(rc6), m[1..], p, p);
      assert (m + [p])[1..] == m[1..] + [p];
      EndsSixOnZero(s, bits, p);
    }
  }

  // ----- which codes show their leading space

  predicate All(a: seq<nat>, p: nat) { forall j :: 0 <= j < |a| ==> a[j] == p }

  lemma {:induction false} OnesOnly(bits: seq<bool>, p: nat, m: nat)
    requires 1 <= m <= 4 && m <= |bits| && forall j :: 0 <= j < m ==> bits[j]
    ensures var a := Merged(RC6, Even(p), bits[..m]); |a| == 2 * m - 1 && All(a, p)
  {
    MergedStep(bits, p, m - 1);
    if m > 1 { OnesOnly(bits, p, m - 1); }
    hide Merged;
  }

  /** Lengths up to the first 0, behind three ones at most. */
  lemma OnesMerged(bits: seq<bool>, p: nat, m: nat)
    requires 1 <= m <= 3 && m < |bits| && !bits[m] && forall j :: 0 <= j < m ==> bits[j]
    ensures FirstDoubleIsSpace(Merged(RC6, Even(p), bits[..m + 1]), p)
  {
    OnesOnly(bits, p, m);
    MergedStep(bits, p, m);
    hide Merged;
  }

  lemma MergedStep(bits: seq<bool>, p: nat, k: nat)
    requires k < |bits|
    ensures Merged(RC6, Even(p), bits[..k + 1]) ==
      if k == 0 then FirstTimes(RC6, Even(p), bits[0])
      else Merged(RC6, Even(p), bits[..k]) + NextSix(p, bits[k - 1], bits[k], k)
  {
    if k > 0 { NextIsNextSix(p, bits[k - 1], bits[k], k); }
    hide NextTimes;
    assert bits[..k + 1][..k] == bits[..k];
  }

  /** The lengths of four ones, and those of the double bit and of the one behind it. */
  lemma FourOnes(bits: seq<bool>, p: nat) returns (a: seq<nat>)
    requires |bits| >= 6 && bits[0] && bits[1] && bits[2] && bits[3]
    ensures |a| == 7 && All(a, p)
    ensures Merged(RC6, Even(p), bits[..6]) == a + NextSix(p, true, bits[4], 4) + NextSix(p, bits[4], bits[5], 5)
  {
    a := Merged(RC6, Even(p), bits[..4]);
    OnesOnly(bits, p, 4);
    MergedStep(bits, p, 4);
    MergedStep(bits, p, 5);
    hide Merged, NextSix;
  }

  /** Behind 1111 0 1 ones come as singles. */
  lemma {:induction false} OnesBehind(bits: seq<bool>, p: nat, m: nat)
    requires 6 <= m <= |bits| && bits[0] && bits[1] && bits[2] && bits[3] && !bits[4]
    requires forall j :: 5 <= j < m ==> bits[j]
    ensures var a := Merged(RC6, Even(p), bits[..m]);
      |a| == 2 * m - 3 && forall j :: 0 <= j < |a| ==> a[j] == if j == 7 || j == 8 then 3 * p else p
  {
    if m == 6 {
      var a := FourOnes(bits, p);
    } else {
      OnesBehind(bits, p, m - 1);
      MergedStep(bits, p, m - 1);
      hide Merged;
    }
  }

  /** A 0 among bits 1 to 3, or behind 1111 0 1. */
  predicate ShowsSpace(bits: seq<bool>)
    requires |bits| >= 6
  {
    bits[0] && (!bits[1] || !bits[2] || !bits[3] || (!bits[4] && bits[5] && false in bits[6..]))
  }

  /** Singles and triples up to the last length, which is a double and a space. */
  predicate FirstDoubleIsSpace(a: seq<nat>, p: nat) {
    var n := |a| - 1;
    n >= 0 && n % 2 == 1 && a[n] == 2 * p && forall j :: 0 <= j < n ==> a[j] == p || a[j] == 3 * p
  }

  lemma LateZero(bits: seq<bool>, p: nat, m: nat)
    requires 6 <= m < |bits| && bits[0] && bits[1] && bits[2] && bits[3] && !bits[4] && !bits[m]
    requires forall j :: 5 <= j < m ==> bits[j]
    ensures FirstDoubleIsSpace(Merged(RC6, Even(p), bits[..m + 1]), p)
  {
    OnesBehind(bits, p, m);
    MergedStep(bits, p, m);
    hide Merged;
  }

  lemma SpaceShownAt(bits: seq<bool>, p: nat) returns (k: nat)
    requires |bits| >= 6 && ShowsSpace(bits)
    ensures 0 < k <= |bits| && FirstDoubleIsSpace(Merged(RC6, Even(p), bits[..k]), p)
  {
    hide Merged;
    if bits[1] && bits[2] && bits[3] {
      var m := FirstZero(bits, 6);
      LateZero(bits, p, m);
      k := m + 1;
    } else {
      var m := if !bits[1] then 1 else if !bits[2] then 2 else 3;
      OnesMerged(bits, p, m);
      k := m + 1;
    }
  }

  lemma SpaceShown(bits: seq<bool>, p: nat)
    requires p > 0 && |bits| >= 6 && ShowsSpace(bits)
    ensures !StartSpace(HalfTimes(RC6, Even(p), bits), p, 0)
  {
    var k := SpaceShownAt(bits, p);
    MergedPrefix(bits, p, k);
    hide Merged, StartSpace, ShowsSpace;
    var a, data := Merged(RC6, Even(p), bits[..k]), HalfTimes(RC6, Even(p), bits);
    assert a <= data;
    DoubleAtSpace(a, data, p);
  }

  lemma DoubleAtSpace(a: seq<nat>, data: seq<nat>, p: nat)
    requires p > 0 && a <= data && FirstDoubleIsSpace(a, p)
    ensures !StartSpace(data, p, 0)
  {
    SingleAndDouble(p);
    TripleLength(p);
    hide Times, StartSpace;
    assert forall j :: 0 <= j < |a| ==> data[j] == a[j];
    FirstDouble(data, p, |a| - 1, 0);
  }

  lemma FirstZero(bits: seq<bool>, from: nat) returns (m: nat)
    requires from <= |bits| && false in bits[from..]
    ensures from <= m < |bits| && !bits[m] && forall j :: from <= j < m ==> bits[j]
    decreases |bits| - from
  {
    if bits[from] {
      assert bits[from..] == [bits[from]] + bits[from + 1..];
      m := FirstZero(bits, from + 1);
    } else {
      m := from;
    }
  }

  // ----- the codes that do not

  lemma UnpackHalves(data: seq<nat>, p: nat, rc6: bool)
    requires p > 0 && data != [] && data[0] == p
    ensures var space := StartSpace(data, p, 0);
      Unpack(data, p, rc6) == Finished(Steps(Start(rc6), if space then data else data[1..], p), p, space)
  {
    PdiffBelow(p as real, p as real, 0.1);
    hide Pdiff, Steps, StartSpace, Finished;
  }

  lemma {:induction false} StaysMisfit(s: Scan, a: seq<nat>, b: seq<nat>, p: nat)
    requires p > 0 && (s.Going? ==> |s.h.temp| == ROOM) && Steps(s, a, p) == Misfit
    ensures Steps(s, a + b, p) == Misfit
    decreases |b|
  {
    hide Steps, Move, Mark;
    if b == [] {
      assert a + b == a;
    } else {
      var n := |b| - 1;
      StaysMisfit(s, a, b[..n], p);
      assert a + b == (a + b[..n]) + [b[n]];
      StepsMore(s, a + b[..n], b[n], p);
    }
  }

  /** Singles only, read from the first on. */
  predicate OnesAt(s: Scan, n: nat) {
    && s.Going? && |s.h.temp| == ROOM && s.h.bit && !s.h.rc6temp && s.h.halfbit == (n % 2 == 0)
    && s.h.count == (n + 1) / 2 && forall i :: n / 2 < i < ROOM ==> !s.h.temp[i]
  }

  lemma {:induction false} OnesRead(a: seq<nat>, p: nat, rc6: bool)
    requires p > 0 && All(a, p) && |a| < ROOM
    ensures OnesAt(Steps(Start(rc6), a, p), |a|)
  {
    SingleAndDouble(p);
    hide Times;
    if a == [] {
      NoSteps(Start(rc6), p);
    } else {
      OnesRead(a[..|a| - 1], p, rc6);
    }
  }

  /** A triple length as the eighth, behind seven singles, does not fit. */
  lemma EighthTriple(a: seq<nat>, rest: seq<nat>, p: nat, rc6: bool)
    requires p > 0 && |a| == 7 && All(a, p)
    ensures Steps(Start(rc6), a + [3 * p] + rest, p) == Misfit
  {
    OnesRead(a, p, rc6);
    TripleLength(p);
    StepsMore(Start(rc6), a, 3 * p, p);
    hide Times, Steps;
    StaysMisfit(Start(rc6), a + [3 * p], rest, p);
  }

  /** Bit 5 is not marked and will not be. */
  predicate FifthClear(s: Scan) { s.Going? ==> |s.h.temp| == ROOM && s.h.count >= 6 && !s.h.temp[5] }

  lemma StepClear(s: Scan, t: nat, p: nat)
    requires p > 0 && FifthClear(s)
    ensures FifthClear(Step(s, t, p))
  {
    hide Times;
  }

  lemma {:induction false} StaysClear(s: Scan, a: seq<nat>, b: seq<nat>, p: nat)
    requires p > 0 && (s.Going? ==> |s.h.temp| == ROOM) && FifthClear(Steps(s, a, p))
    ensures FifthClear(Steps(s, a + b, p))
    decreases |b|
  {
    if b == [] {
      assert a + b == a;
    } else {
      var n := |b| - 1;
      StaysClear(s, a, b[..n], p);
      assert a + b == (a + b[..n]) + [b[n]];
      StepsMore(s, a + b[..n], b[n], p);
      hide Steps, Step;
      StepClear(Steps(s, a + b[..n], p), b[n], p);
    }
  }

  /** Eight singles and two doubles: the sixth bit is read as a 0. */
  lemma TwoDoubles(a: seq<nat>, rest: seq<nat>, p: nat, rc6: bool)
    requires p > 0 && |a| == 8 && All(a, p)
    ensures FifthClear(Steps(Start(rc6), a + [2 * p] + [2 * p] + rest, p))
  {
    OnesRead(a, p, rc6);
    SingleAndDouble(p);
    hide Times;
    StepsMore(Start(rc6), a, 2 * p, p);
    StepsMore(Start(rc6), a + [2 * p], 2 * p, p);
    hide Steps;
    StaysClear(Start(rc6), a + [2 * p] + [2 * p], rest, p);
  }

  lemma DoubleThenTriple(a: seq<nat>, rest: seq<nat>, p: nat, rc6: bool)
    requires p > 0 && |a| == 8 && All(a, p)
    ensures Steps(Start(rc6), a + [2 * p] + [3 * p] + rest, p) == Misfit
  {
    OnesRead(a, p, rc6);
    SingleAndDouble(p);
    TripleLength(p);
    hide Times;
    StepsMore(Start(rc6), a, 2 * p, p);
    StepsMore(Start(rc6), a + [2 * p], 3 * p, p);
    hide Steps;
    StaysMisfit(Start(rc6), a + [2 * p] + [3 * p], rest, p);
  }

  // ----- which codes come out

  lemma ReadWithSpace(data: seq<nat>, p: nat, rc6: bool, bits: seq<bool>)
    requires p > 0 && data != [] && data[0] == p && StartSpace(data, p, 0) && |bits| > 5 && bits[5]
    requires Steps(Start(rc6), data, p) == Misfit || FifthClear(Steps(Start(rc6), data, p))
    ensures Unpack(data, p, rc6) != Bits(RC6, bits)
  {
    UnpackHalves(data, p, rc6);
    hide Steps, StartSpace, Unpack;
  }

  lemma MisfitRefused(data: seq<nat>, p: nat, rc6: bool)
    requires p > 0 && data != [] && data[0] == p && StartSpace(data, p, 0) && Steps(Start(rc6), data, p) == Misfit
    ensures Unpack(data, p, rc6) == Refused
  {
    UnpackHalves(data, p, rc6);
    hide Steps, StartSpace, Unpack;
  }

  lemma NinthDouble(data: seq<nat>, p: nat)
    requires p > 0 && |data| > 8 && (data[7] == p || data[7] == 3 * p) && data[8] == 2 * p && All(data[..7], p)
    ensures StartSpace(data, p, 0)
  {
    SingleAndDouble(p);
    TripleLength(p);
    hide Times, StartSpace;
    assert forall j :: 0 <= j < 7 ==> data[j] == data[..7][j];
    FirstDouble(data, p, 8, 0);
  }

  lemma FifthOne(bits: seq<bool>, a: seq<nat>, rest: seq<nat>, p: nat, rc6: bool)
    requires p > 0 && |a| == 7 && All(a, p) && |bits| > 5 && bits[4]
    ensures Unpack(a + NextSix(p, true, true, 4) + NextSix(p, true, bits[5], 5) + rest, p, rc6) != Bits(RC6, bits)
  {
    var data := a + NextSix(p, true, true, 4) + NextSix(p, true, bits[5], 5) + rest;
    var b := a + [p];
    assert data[..7] == a && data[7] == p && data[8] == 2 * p;
    NinthDouble(data, p);
    hide Unpack, Steps, StartSpace, FifthClear;
    if bits[5] {
      TwoDoubles(b, [p] + rest, p, rc6);
      assert data == b + [2 * p] + [2 * p] + ([p] + rest);
      ReadWithSpace(data, p, rc6, bits);
    } else {
      DoubleThenTriple(b, rest, p, rc6);
      assert data == b + [2 * p] + [3 * p] + rest;
      MisfitRefused(data, p, rc6);
    }
  }

  lemma FifthZero(a: seq<nat>, rest: seq<nat>, p: nat, rc6: bool)
    requires p > 0 && |a| == 7 && All(a, p) && StartSpace(a + [3 * p] + rest, p, 0)
    ensures Unpack(a + [3 * p] + rest, p, rc6) == Refused
  {
    hide Unpack, Steps, StartSpace;
    EighthTriple(a, rest, p, rc6);
    MisfitRefused(a + [3 * p] + rest, p, rc6);
  }

  lemma AllOnesBehind(bits: seq<bool>, p: nat)
    requires p > 0 && |bits| >= 6 && bits[0] && bits[1] && bits[2] && bits[3] && !bits[4] && bits[5]
    requires false !in bits[6..]
    ensures StartSpace(HalfTimes(RC6, Even(p), bits), p, 0)
  {
    forall j | 5 <= j < |bits| ensures bits[j] { assert j > 5 ==> bits[j] == bits[6..][j - 6]; }
    OnesBehind(bits, p, |bits|);
    assert bits[..|bits|] == bits;
    SingleAndDouble(p);
    TripleLength(p);
    hide Times, Merged, StartSpace;
    var data := HalfTimes(RC6, Even(p), bits);
    assert data == Merged(RC6, Even(p), bits);
    NoDouble(data, p, 0);
  }

  lemma NotShown(bits: seq<bool>, p: nat, rc6: bool)
    requires p > 0 && |bits| >= 6 && bits[0] && !ShowsSpace(bits)
    ensures var data := HalfTimes(RC6, Even(p), bits); data != [] && Unpack(data, p, rc6) != Bits(RC6, bits)
  {
    var a := FourOnes(bits, p);
    MergedPrefix(bits, p, 6);
    hide Merged, Unpack, StartSpace;
    var data := HalfTimes(RC6, Even(p), bits);
    var front := Merged(RC6, Even(p), bits[..6]);
    var rest := data[|front|..];
    assert front <= data && data == front + rest;
    if bits[4] {
      FifthOne(bits, a, rest, p, rc6);
    } else {
      var more := if bits[5] then [3 * p] else [2 * p, p];
      assert data == a + [3 * p] + (more + rest);
      if bits[5] {
        AllOnesBehind(bits, p);
      } else {
        assert data[..7] == a && data[7] == 3 * p && data[8] == 2 * p;
        NinthDouble(data, p);
      }
      FifthZero(a, more + rest, p, rc6);
    }
  }

  lemma FirstZeroLost(bits: seq<bool>, p: nat, rc6: bool)
    requires p > 0 && |bits| >= 6 && !bits[0]
    ensures var data := HalfTimes(RC6, Even(p), bits); data != [] ==> Unpack(data, p, rc6) != Bits(RC6, bits)
  {
    hide HalfTimes, Unpack;
    var data := HalfTimes(RC6, Even(p), bits);
    if data != [] { FirstIsOne(data, p, rc6); }
  }

  /**
   * An RC-6 code of 6 to 127 bits, read with its own half-bit, comes out as it was sent just when it begins with a 1
   * and a 0 follows early enough to show that the code began with a pulse: in one of the next three bits, or anywhere
   * behind 1111 0 1.
   */
  lemma UnpacksSixIff(bits: seq<bool>, p: nat, rc6: bool)
    requires p > 0 && 6 <= |bits| < ROOM
    ensures var data := HalfTimes(RC6, Even(p), bits);
      data != [] && (Unpack(data, p, rc6) == Bits(RC6, bits) <==> ShowsSpace(bits))
  {
    HalvesThere(bits, p);
    if !bits[0] {
      FirstZeroLost(bits, p, rc6);
    } else if ShowsSpace(bits) {
      SpaceShown(bits, p);
      ReadsAllSix(bits, p, rc6);
      UnpackHalves(HalfTimes(RC6, Even(p), bits), p, rc6);
    } else {
      NotShown(bits, p, rc6);
    }
  }

  lemma HalvesThere(bits: seq<bool>, p: nat)
    requires |bits| > 1
    ensures HalfTimes(RC6, Even(p), bits) != []
  {
    hide NextTimes;
  }

  // ----- which codes are taken for bi-phase at all

  /** One, two and three half-bits, as far as they are among the lengths. */
  function Listed(s: seq<nat>, p: nat): seq<nat> {
    (if p in s then [p] else []) + (if 2 * p in s then [2 * p] else []) + (if 3 * p in s then [3 * p] else [])
  }

  lemma ListedInOrder(s: seq<nat>, p: nat)
    requires p > 0 && |s| <= 3 && forall i :: 0 <= i < |s| ==> s[i] == p || s[i] == 2 * p || s[i] == 3 * p
    requires forall i, j :: 0 <= i < j < |s| ==> s[i] < s[j]
    ensures s == Listed(s, p)
  {
    if |s| == 1 { assert s == [s[0]]; }
    if |s| == 2 { assert s == [s[0], s[1]]; }
    if |s| == 3 { assert s == [s[0], s[1], s[2]]; }
  }

  lemma FewLengths(lengths: set<nat>, p: nat)
    requires forall x :: x in lengths ==> x == p || x == 2 * p || x == 3 * p
    ensures |lengths| <= 3
  {
    var all := {p, 2 * p, 3 * p};
    assert lengths <= all;
    Subset(lengths, all);
  }

  lemma {:induction false} Subset(a: set<nat>, b: set<nat>)
    requires a <= b
    ensures |a| <= |b|
  {
    if a != {} {
      var x :| x in a;
      Subset(a - {x}, b - {x});
    }
  }

  lemma InSorted(c: Count, lengths: set<nat>, p: nat)
    requires Lists(c, lengths) && p > 0 && forall x :: x in lengths ==> x == p || x == 2 * p || x == 3 * p
    ensures var s := Sorted(c.slots, 5);
      && Leading(s, c.n) && s[..c.n] == Listed(s[..c.n], p) && forall x :: x in s[..c.n] <==> x in lengths
  {
    var s, n := Sorted(c.slots, 5), c.n;
    SortedExact(c.slots, n, 5);
    hide Sorted, Listed;
    FewLengths(lengths, p);
    SameElements(c.slots, s, n);
    assert forall x :: x in c.slots[..n] <==> x in SetOf(c.slots[..n]);
    forall i | 0 <= i < n ensures s[..n][i] == p || s[..n][i] == 2 * p || s[..n][i] == 3 * p {
      assert s[..n][i] in s[..n];
    }
    ListedInOrder(s[..n], p);
  }

  lemma SameElements(a: Slots, b: Slots, n: nat)
    requires Leading(a, n) && Leading(b, n) && multiset(a) == multiset(b)
    ensures forall x :: x in a[..n] <==> x in b[..n]
  {
    forall x ensures x in a[..n] <==> x in b[..n] {
      Elements(a, n, x);
      Elements(b, n, x);
      assert x in a <==> x in multiset(a);
      assert x in b <==> x in multiset(b);
    }
  }

  lemma Elements(s: Slots, n: nat, x: nat)
    requires Leading(s, n)
    ensures x in s[..n] <==> x in s && x != 0
  {
    if x in s && x != 0 {
      var i :| 0 <= i < 5 && s[i] == x;
      assert s[..n][i] == x;
    }
  }

  /** Recognised as bi-phase or RC-6: with doubles among the lengths, or as one of two special cases. */
  predicate Recognised(highs: set<nat>, lows: set<nat>, p: nat) {
    var h2, h3, l1, l2, l3 := 2 * p in highs, 3 * p in highs, p in lows, 2 * p in lows, 3 * p in lows;
    || (l1 && (h2 || !h3) && (l2 || !l3))
    || (h2 && h3 && !l1 && l2 && !l3)
    || (!h2 && h3 && l1 && l2 && l3)
  }

  lemma Ratios(p: nat)
    requires p > 0
    ensures Close(p, p) && Close(2 * p, 2 * p) && Close(3 * p, 3 * p)
    ensures !Close(p, 2 * p) && !Close(p, 3 * p) && !Close(2 * p, 3 * p) && !Close(3 * p, 2 * p)
    ensures !Close(2 * p, p) && !Close(3 * p, p)
    ensures Multiple(2 * p, 2, p) && Multiple(3 * p, 3, p) && !Multiple(3 * p, 2, p) && !Multiple(3 * p, 2, 2 * p)
    ensures !Multiple(2 * p, 3, p) && !Multiple(3 * p, 3, 2 * p)
  {
    ShapeTolerance(p, p);
    ShapeTolerance(2 * p, 2 * p);
    ShapeTolerance(3 * p, 3 * p);
    ShapeTolerance(p, 2 * p);
    ShapeTolerance(p, 3 * p);
    ShapeTolerance(2 * p, 3 * p);
    ShapeTolerance(3 * p, 2 * p);
    ShapeTolerance(2 * p, p);
    ShapeTolerance(3 * p, p);
  }

  function One(b: bool): nat { if b then 1 else 0 }

  /** So many places, the lengths among them in order. */
  predicate Placed(s: Slots, n: nat, single: bool, double: bool, triple: bool, p: nat) {
    && n == One(single) + One(double) + One(triple)
    && (n > 0 ==> s[0] == if single then p else if double then 2 * p else 3 * p)
    && (n > 1 ==> s[1] == if single && double then 2 * p else 3 * p)
    && (n > 2 ==> s[2] == 3 * p)
  }

  lemma ListedPlaced(s: Slots, n: nat, lengths: set<nat>, p: nat)
    requires p > 0 && n <= 3 && s[..n] == Listed(s[..n], p) && forall x :: x in s[..n] <==> x in lengths
    ensures Placed(s, n, p in lengths, 2 * p in lengths, 3 * p in lengths, p)
  {
    var t := s[..n];
    assert forall i :: 0 <= i < n ==> s[i] == t[i];
    var single, double, triple := p in t, 2 * p in t, 3 * p in t;
    var u := (if single then [p] else []) + (if double then [2 * p] else []) + (if triple then [3 * p] else []);
    assert t == u;
  }

  lemma ShapeOfPlaced(h: Slots, hn: nat, l: Slots, ln: nat, h2: bool, h3: bool, l1: bool, l2: bool, l3: bool, p: nat)
    requires p > 0 && Placed(h, hn, true, h2, h3, p) && Placed(l, ln, l1, l2, l3, p) && ln > 0
    ensures BiphaseShaped(h, hn, l, ln) <==> l1 && (h2 || !h3) && (l2 || !l3)
    ensures Rc6Shaped(h, hn, l, ln) <==> (h2 && h3 && !l1 && l2 && !l3) || (!h2 && h3 && l1 && l2 && l3)
    ensures ShortPulse(h[0], l[0]) == p
  {
    Ratios(p);
    hide Close, Multiple;
  }

  lemma LengthsUpToThree(data: seq<nat>, p: nat, place: nat)
    requires UpToThree(data, p)
    ensures forall x :: x in LengthsAt(data, |data|, place) ==> x == p || x == 2 * p || x == 3 * p
  {
  }

  /** What decode_data finds in lengths of one, two and three half-bits that begin with a single. */
  lemma CountedSix(data: seq<nat>, p: nat) returns (highs: Count, lows: Count)
    requires p > 0 && |data| > 1 && UpToThree(data, p) && data[0] == p
    ensures Counted(data, |data|) == Some((highs, lows)) && highs.n > 0 && lows.n > 0
    ensures var h, l := Sorted(highs.slots, 5), Sorted(lows.slots, 5);
      && (BiphaseShaped(h, highs.n, l, lows.n) || Rc6Shaped(h, highs.n, l, lows.n) <==>
            Recognised(LengthsAt(data, |data|, 0), LengthsAt(data, |data|, 1), p))
      && ShortPulse(h[0], l[0]) == p
  {
    var hs, ls := LengthsAt(data, |data|, 0), LengthsAt(data, |data|, 1);
    LengthsUpToThree(data, p, 0);
    LengthsUpToThree(data, p, 1);
    FewLengths(hs, p);
    FewLengths(ls, p);
    assert data[0] in hs && data[1] in ls;
    CountedExact(data, |data|);
    var counted := Counted(data, |data|).value;
    highs, lows := counted.0, counted.1;
    InSorted(highs, hs, p);
    InSorted(lows, ls, p);
    var h, l := Sorted(highs.slots, 5), Sorted(lows.slots, 5);
    NotEmpty(highs, hs, p);
    NotEmpty(lows, ls, data[1]);
    hide Counted, LengthsAt, Sorted, Listed, BiphaseShaped, Rc6Shaped, ShortPulse, Lists, Placed;
    ListedPlaced(h, highs.n, hs, p);
    ListedPlaced(l, lows.n, ls, p);
    ShapeOfPlaced(h, highs.n, l, lows.n, 2 * p in hs, 3 * p in hs, p in ls, 2 * p in ls, 3 * p in ls, p);
  }

  lemma NotEmpty(c: Count, lengths: set<nat>, x: nat)
    requires Lists(c, lengths) && x in lengths
    ensures c.n > 0
  {
  }

  lemma DecodeCounted(data: seq<nat>, outlength: nat, highs: Count, lows: Count, p: nat, bits: seq<bool>)
    requires data != [] && Counted(data, |data|) == Some((highs, lows)) && highs.n > 0 && lows.n > 0 && p > 0
    requires ShortPulse(Sorted(highs.slots, 5)[0], Sorted(lows.slots, 5)[0]) == p && SizeOk(|bits|, outlength)
    ensures var h, l := Sorted(highs.slots, 5), Sorted(lows.slots, 5);
      var biphase := BiphaseShaped(h, highs.n, l, lows.n);
      Decode(data, outlength) == Biphase(RC6, bits, p) <==>
        (biphase || Rc6Shaped(h, highs.n, l, lows.n)) && Unpack(data, p, !biphase) == Bits(RC6, bits)
  {
    hide Counted, Sorted, BiphaseShaped, Rc6Shaped, ShortPulse, Unpack, SizeOk;
  }

  /**
   * An RC-6 code of 6 to 127 bits with half-bits of one length is decoded to the same bits and the same half-bit just
   * when its lengths are recognised and a 0 shows early enough that it began with a pulse.
   */
  lemma DecodeSixIff(bits: seq<bool>, p: nat, outlength: nat)
    requires p > 0 && 6 <= |bits| < ROOM && outlength >= ByteCount(|bits|)
    ensures var data := HalfTimes(RC6, Even(p), bits);
      Decode(data, outlength) == Biphase(RC6, bits, p) <==>
        ShowsSpace(bits) && Recognised(LengthsAt(data, |data|, 0), LengthsAt(data, |data|, 1), p)
  {
    hide Merged, Unpack, Decode, Counted, Sorted, BiphaseShaped, Rc6Shaped, ShortPulse, LengthsAt, Recognised,
      ShowsSpace, HalfTimes;
    var data := HalfTimes(RC6, Even(p), bits);
    UnpacksSixIff(bits, p, false);
    UnpacksSixIff(bits, p, true);
    if bits[0] {
      SixLengths(bits, p);
      var highs, lows := CountedSix(data, p);
      DecodeCounted(data, outlength, highs, lows, p, bits);
    } else {
      NoZeroFirst(bits, p, outlength);
    }
  }

  lemma SixLengths(bits: seq<bool>, p: nat)
    requires |bits| > 1 && bits[0]
    ensures var data := HalfTimes(RC6, Even(p), bits); |data| > 1 && UpToThree(data, p) && data[0] == p
  {
    var m := Merged(RC6, Even(p), bits);
    MergedUpToThree(bits, p);
    MergedBegins(bits, p);
    MergedPrefix(bits, p, 2);
    MergedStep(bits, p, 0);
    MergedStep(bits, p, 1);
    hide Merged;
  }

  /** A code that begins with a 0 is never read as sent, with whatever half-bit. */
  lemma NoZeroFirst(bits: seq<bool>, p: nat, outlength: nat)
    requires p > 0 && |bits| >= 6 && !bits[0]
    ensures !ShowsSpace(bits) && Decode(HalfTimes(RC6, Even(p), bits), outlength) != Biphase(RC6, bits, p)
  {
    hide HalfTimes, Decode, Unpack;
    HalvesThere(bits, p);
    var data := HalfTimes(RC6, Even(p), bits);
    if Decode(data, outlength).Biphase? {
      var pulse, rc6 := OnlyUnpacked(data, outlength);
      FirstIsOne(data, pulse, rc6);
    }
  }

  lemma HalvesUpToThree(bits: seq<bool>, p: nat)
    requires bits != []
    ensures UpToThree(HalfTimes(RC6, Even(p), bits), p)
  {
    hide Merged;
    MergedUpToThree(bits, p);
  }

  lemma MultiplesTens(p: nat)
    requires p % 10 == 0
    ensures 2 * p % 10 == 3 * p % 10 == 0
  {
  }

  lemma SixTens(bits: seq<bool>, p: nat)
    requires bits != [] && p % 10 == 0 && 3 * p <= LONGEST
    ensures WholeTens(HalfTimes(RC6, Even(p), bits))
  {
    hide HalfTimes;
    HalvesUpToThree(bits, p);
    MultiplesTens(p);
  }

  /** The packet bytes of such a code expand to its lengths. */
  lemma SixPacked(bits: seq<bool>, p: nat, capacity: nat)
    requires bits != [] && p % 10 == 0 && 3 * p <= LONGEST
    requires var n := |HalfTimes(RC6, Even(p), bits)|; 2 * n + 1 <= capacity
    ensures var t := HalfTimes(RC6, Even(p), bits); var q := PutAll(capacity, t);
      q.status == Ok && Expand(q.data) == t && q.time == Sum(t)
  {
    hide *;
    SixTens(bits, p);
    ExpandPacked(capacity, HalfTimes(RC6, Even(p), bits));
  }

  lemma AlternatingLengths(bits: seq<bool>, p: nat)
    requires bits == [true, false, true, false, true, false]
    ensures HalfTimes(RC6, Even(p), bits) == [p, 2 * p, 2 * p, 2 * p, 3 * p, 3 * p, p]
  {
    var l := Even(p);
    hide Merged;
    assert Merged(RC6, l, bits[..1]) == [p] by { MergedStep(bits, p, 0); }
    assert Merged(RC6, l, bits[..2]) == [p, 2 * p] by { MergedStep(bits, p, 1); }
    assert Merged(RC6, l, bits[..3]) == [p, 2 * p, 2 * p] by { MergedStep(bits, p, 2); }
    assert Merged(RC6, l, bits[..4]) == [p, 2 * p, 2 * p, 2 * p] by { MergedStep(bits, p, 3); }
    assert Merged(RC6, l, bits[..5]) == [p, 2 * p, 2 * p, 2 * p, 3 * p] by { MergedStep(bits, p, 4); }
    assert Merged(RC6, l, bits[..6]) == [p, 2 * p, 2 * p, 2 * p, 3 * p, 3 * p] by { MergedStep(bits, p, 5); }
    assert bits[..6] == bits;
  }

  lemma NoSingleSpace(data: seq<nat>, p: nat)
    requires p > 0 && data == [p, 2 * p, 2 * p, 2 * p, 3 * p, 3 * p, p]
    ensures !Recognised(LengthsAt(data, |data|, 0), LengthsAt(data, |data|, 1), p)
  {
    assert data[5] == 3 * p && data[5] in LengthsAt(data, 7, 1);
    assert p !in LengthsAt(data, 7, 1);
  }

  /**
   * A code without single spaces is not recognised: the third special case takes a triple length for twice a double
   * one.
   */
  lemma AlternatingLost(bits: seq<bool>, p: nat, outlength: nat)
    requires bits == [true, false, true, false, true, false] && p > 0 && outlength > 0
    ensures ShowsSpace(bits) && Decode(HalfTimes(RC6, Even(p), bits), outlength) != Biphase(RC6, bits, p)
  {
    hide HalfTimes, Decode, Recognised, LengthsAt;
    AlternatingLengths(bits, p);
    NoSingleSpace(HalfTimes(RC6, Even(p), bits), p);
    DecodeSixIff(bits, p, outlength);
  }
}
