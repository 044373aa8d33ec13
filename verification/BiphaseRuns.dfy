/** The bi-phase side of a run over any clean stream: which bits are queued, when frames are found in them. */
module BiphaseRuns {
  import opened Modulo
  import opened Rings
  import opened LineCode
  import opened LineCodeSync
  import opened Receiver
  import opened EndToEnd
  import opened PulseRuns
  import FdxB
  import PhidgetTag

  // ----- half-bits and pulses

  lemma {:induction false} BipAfterSplit(g: seq<bool>, e: nat, k: nat, m: nat)
    requires |g| > 0
    ensures BipAfter(g, e, k + m) == BipAfter(g, BipAfter(g, e, k), m)
  {
    hide BipNext;
    if m > 0 { BipAfterSplit(g, e, k, m - 1); }
  }

  lemma {:induction false} BipAfterMonotone(g: seq<bool>, e: nat, i: nat, j: nat)
    requires |g| > 0 && i <= j
    ensures BipAfter(g, e, i) <= BipAfter(g, e, j)
  {
    hide BipLong;
    if i < j { BipAfterMonotone(g, e, i, j - 1); }
  }

  /** Every even half-bit begins a pulse. */
  lemma {:induction false} EvenBegins(g: seq<bool>, e: nat, t: nat) returns (j: nat)
    requires |g| > 0 && t % 2 == 0 && e <= t
    ensures j <= t - e && BipAfter(g, e, j) == t
    decreases t - e
  {
    hide Bit;
    if t == e { return 0; }
    var i := EvenBegins(g, BipNext(g, e), t);
    BipAfterSplit(g, e, 1, i);
    assert BipAfter(g, e, 1) == BipNext(g, e) by { assert BipAfter(g, e, 0) == e; }
    return i + 1;
  }

  /** The next cell that holds a given bit of g. */
  lemma NextCell(g: seq<bool>, e: nat, place: nat) returns (c: nat)
    requires place < |g|
    ensures e <= 2 * c < e + 2 * |g| && Bit(g, c) == g[place]
  {
    var from := (e + 1) / 2;
    var q, now := Divided(from, |g|);
    var p := if now <= place then q else q + 1;
    c := p * |g| + place;
    Distribute(q, 1, |g|);
    ModuloUnique(p, c, place, |g|);
  }

  /** Within one repetition of g there are a long pulse and a short one, if g holds both bits. */
  lemma BothLengths(g: seq<bool>, e: nat, one: nat, zero: nat) returns (i: nat, j: nat)
    requires one < |g| && zero < |g| && g[one] && !g[zero]
    ensures i < 2 * |g| && BipLong(g, BipAfter(g, e, i)) && BipAfter(g, e, i) < e + 2 * |g|
    ensures j < 2 * |g| && !BipLong(g, BipAfter(g, e, j))
  {
    hide BipAfter, Bit;
    var c := NextCell(g, e, one);
    i := EvenBegins(g, e, 2 * c);
    var d := NextCell(g, e, zero);
    j := EvenBegins(g, e, 2 * d);
  }

  // ----- coded pulses in pieces

  lemma CodedPart(ps: seq<Pulse>, g: seq<bool>, e: nat, short: nat, long: nat, i: nat, j: nat)
    requires |g| > 0 && BipCoded(ps, g, e, short, long) && i <= j <= |ps|
    ensures BipCoded(ps[i..j], g, BipAfter(g, e, i), short, long)
  {
    hide BipLong, BipAfter;
    var q, n := ps[i..j], BipAfter(g, e, i);
    forall k | 0 <= k < |q|
      ensures q[k].Pulse? && q[k].clocks == if BipLong(g, BipAfter(g, n, k)) then long else short
    {
      BipAfterSplit(g, e, i, k);
      assert q[k] == ps[i + k];
    }
  }

  lemma CodedStart(ps: seq<Pulse>, g: seq<bool>, e: nat, short: nat, long: nat, k: nat)
    requires |g| > 0 && BipCoded(ps, g, e, short, long) && k <= |ps|
    ensures BipCoded(ps[..k], g, e, short, long)
  {
  }

  lemma CodedPulses(ps: seq<Pulse>, g: seq<bool>, e: nat, short: nat, long: nat)
    requires |g| > 0 && BipCoded(ps, g, e, short, long)
    ensures Pulses(ps)
  {
  }

  /** A coded stream that ends in one more piece. */
  lemma CodedPieces(a: seq<Pulse>, b: seq<Pulse>, g: seq<bool>, e: nat, short: nat, long: nat)
    requires |g| > 0 && BipCoded(a + b, g, e, short, long)
    ensures Pulses(a) && Pulses(b) && BipCoded(a, g, e, short, long)
    ensures BipCoded(b, g, BipAfter(g, e, |a|), short, long)
    ensures BipAfter(g, e, |a + b|) == BipAfter(g, BipAfter(g, e, |a|), |b|)
  {
    hide BipAfter, BipLong, BipCoded, Pulses;
    assert (a + b)[..|a|] == a && (a + b)[|a|..|a + b|] == b;
    CodedStart(a + b, g, e, short, long, |a|);
    CodedPart(a + b, g, e, short, long, |a|, |a + b|);
    CodedPulses(a, g, e, short, long);
    CodedPulses(b, g, BipAfter(g, e, |a|), short, long);
    BipAfterSplit(g, e, |a|, |b|);
  }

  lemma CodedTwoLengths(ps: seq<Pulse>, g: seq<bool>, e: nat, short: nat, long: nat)
    requires |g| > 0 && BipCoded(ps, g, e, short, long)
    ensures TwoLengths(ps, short, long)
  {
    hide BipLong, BipAfter;
  }

  /** With both bits in g, waiting for the second length takes no more than a repetition. */
  lemma CodedMixed(ps: seq<Pulse>, g: seq<bool>, e: nat, short: nat, long: nat, one: nat, zero: nat)
    requires one < |g| && zero < |g| && g[one] && !g[zero] && short != long && BipCoded(ps, g, e, short, long)
    ensures MixedBy(ps, 2 * |g| - 1)
  {
    hide BipLong, BipAfter;
    if |ps| >= 2 * |g| {
      var i, j := BothLengths(g, e, one, zero);
      var q := ps[..2 * |g|];
      assert q[i].clocks == long && q[j].clocks == short;
    }
  }

  // ----- the queue, exactly

  /** The queue holds the bits of g from one bit on up to n, or as many of the latest of them as it has room for. */
  predicate Since(r: Ring<bool>, g: seq<bool>, n: nat, from: nat)
    requires |g| > 0
  {
    && r.Valid() && from <= n && r.Len() == Least(n - from, SIZE - 1)
    && r.Queue() == Cyclic(g, n - r.Len(), r.Len())
  }

  lemma SincePush(r: Ring<bool>, g: seq<bool>, n: nat, from: nat)
    requires |g| > 0 && Since(r, g, n, from)
    ensures Since(r.Push(Bit(g, n)), g, n + 1, from)
  {
    hide Cyclic, Bit;
    HoldsPush(r, g, n, n);
    r.PushQueue(Bit(g, n));
    var s := r.Push(Bit(g, n));
    assert s.Len() == |s.Queue()|;
  }

  lemma SinceSkip(r: Ring<bool>, g: seq<bool>, n: nat, from: nat, k: nat)
    requires |g| > 0 && Since(r, g, n, from) && k <= n - from < SIZE
    ensures Since(r.Skip(k), g, n, from + k)
  {
    hide Cyclic;
    HoldsSkip(r, g, n, n, k);
    r.SkipQueue(k);
    var s := r.Skip(k);
    assert s.Len() == |s.Queue()|;
  }

  lemma SinceEmpty(r: Ring<bool>, g: seq<bool>, n: nat)
    requires |g| > 0 && r.Valid() && r.Len() == 0
    ensures Since(r, g, n, n)
  {
    assert Cyclic(g, n, 0) == [];
  }

  lemma SinceQueue(r: Ring<bool>, g: seq<bool>, n: nat, from: nat)
    requires |g| > 0 && Since(r, g, n, from) && n < from + SIZE
    ensures r.Valid() && r.Len() == n - from && r.All()[..n - from] == Cyclic(g, from, n - from)
  {
  }

  /** In step before half-bit e, the queue beginning with bit from. */
  predicate BipAt(l: Line, g: seq<bool>, e: nat, from: nat)
    requires |g| > 0
  {
    && l.locked && l.change == (e % 2 == 1) && (e % 2 == 1 ==> !Bit(g, e / 2))
    && Since(l.ring, g, e / 2, from)
  }

  lemma BipAtStep(l: Line, g: seq<bool>, e: nat, from: nat, short: nat, long: nat, p: Pulse)
    requires |g| > 0 && short != long && p.Pulse? && p.clocks == (if BipLong(g, e) then long else short)
    requires l.Valid() && BipAt(l, g, e, from)
    ensures BipAt(BipStep(l, long, p), g, BipNext(g, e), from)
  {
    hide Since;
    if BipLong(g, e) || e % 2 == 1 { SincePush(l.ring, g, e / 2, from); }
  }

  lemma {:induction false} BipAtFold(l: Line, g: seq<bool>, e: nat, ps: seq<Pulse>, short: nat, long: nat, from: nat)
    requires |g| > 0 && short != long && BipCoded(ps, g, e, short, long) && l.Valid() && BipAt(l, g, e, from)
    ensures var (r, ok) := BipAll(l, short, long, ps); ok && BipAt(r, g, BipAfter(g, e, |ps|), from)
    decreases |ps|
  {
    hide BipAt, BipStep, BipLong;
    if ps != [] {
      var k := |ps| - 1;
      BipAtFold(l, g, e, ps[..k], short, long, from);
      BipAtStep(BipAll(l, short, long, ps[..k]).0, g, BipAfter(g, e, k), from, short, long, ps[k]);
    }
  }

  /** The first j pulses are short, the next one is long. */
  predicate OpensAt(g: seq<bool>, e: nat, j: nat)
    requires |g| > 0
  {
    BipLong(g, BipAfter(g, e, j)) && forall i :: 0 <= i < j ==> !BipLong(g, BipAfter(g, e, i))
  }

  lemma {:induction false} LeastLong(g: seq<bool>, e: nat, i: nat) returns (j: nat)
    requires |g| > 0 && BipLong(g, BipAfter(g, e, i))
    ensures j <= i && OpensAt(g, e, j)
  {
    hide BipLong, BipAfter;
    j := i;
    if k :| 0 <= k < i && BipLong(g, BipAfter(g, e, k)) { j := LeastLong(g, e, k); }
  }

  /** The cell of the first long pulse: the first bit that is ever queued, and a one. */
  function FirstCell(g: seq<bool>, e: nat, j: nat): nat
    requires |g| > 0
  {
    BipAfter(g, e, j) / 2
  }

  lemma {:induction false} StaysFresh(l: Line, g: seq<bool>, e: nat, ps: seq<Pulse>, short: nat, long: nat)
    requires |g| > 0 && short != long && BipCoded(ps, g, e, short, long) && BipFresh(l)
    requires forall i :: 0 <= i < |ps| ==> !BipLong(g, BipAfter(g, e, i))
    ensures var (r, ok) := BipAll(l, short, long, ps); ok && BipFresh(r)
    decreases |ps|
  {
    hide BipLong, BipAfter;
    if ps != [] { StaysFresh(l, g, e, ps[..|ps| - 1], short, long); }
  }

  lemma LongOpens(l: Line, g: seq<bool>, n: nat, long: nat, p: Pulse)
    requires |g| > 0 && BipFresh(l) && BipLong(g, n) && p.Pulse? && p.clocks == long
    ensures BipAt(BipStep(l, long, p), g, n + 2, n / 2)
  {
    hide Since;
    SinceEmpty(l.ring, g, n / 2);
    SincePush(l.ring, g, n / 2, n / 2);
  }

  lemma OneStep(l: Line, short: nat, long: nat, p: Pulse)
    requires l.Valid() && p.Pulse? && (p.clocks == short || p.clocks == long)
    ensures BipAll(l, short, long, [p]) == (BipStep(l, long, p), true)
  {
    assert [p][..0] == [];
  }

  lemma ThreeParts(ps: seq<Pulse>, j: nat)
    requires j < |ps|
    ensures ps == ps[..j] + [ps[j]] + ps[j + 1..] && ps[..j + 1] == ps[..j] + [ps[j]] && ps[j + 1..|ps|] == ps[j + 1..]
  {
  }

  lemma FirstLongPulse(g: seq<bool>, e: nat, ps: seq<Pulse>, short: nat, long: nat, j: nat)
    requires |g| > 0 && BipCoded(ps, g, e, short, long) && j < |ps| && OpensAt(g, e, j)
    ensures Pulses(ps) && ps[j].Pulse? && ps[j].clocks == long && BipLong(g, BipAfter(g, e, j))
    ensures forall i :: 0 <= i < j ==> !BipLong(g, BipAfter(g, e, i))
  {
    hide BipAfter, BipLong;
  }

  lemma AfterLong(g: seq<bool>, e: nat, j: nat)
    requires |g| > 0 && BipLong(g, BipAfter(g, e, j))
    ensures BipAfter(g, e, j + 1) == BipAfter(g, e, j) + 2
  {
    hide BipLong;
  }

  lemma FreshValid(l: Line)
    requires BipFresh(l)
    ensures l.Valid()
  {
  }

  /** add_biphase_data on the first pulses since a reset: the queue begins with the first long one. */
  lemma BipFirstFold(l: Line, g: seq<bool>, e: nat, ps: seq<Pulse>, short: nat, long: nat, j: nat)
    requires |g| > 0 && short != long && BipCoded(ps, g, e, short, long) && BipFresh(l)
    requires j < |ps| && OpensAt(g, e, j)
    ensures l.Valid() && Pulses(ps)
    ensures var (r, ok) := BipAll(l, short, long, ps); ok && BipAt(r, g, BipAfter(g, e, |ps|), FirstCell(g, e, j))
  {
    hide BipAll, BipAt, BipLong, BipStep, BipAfter, OpensAt, BipCoded, BipFresh, Pulses;
    FirstLongPulse(g, e, ps, short, long, j);
    ThreeParts(ps, j);
    AfterLong(g, e, j);
    FreshValid(l);
    CodedPieces(ps[..j + 1], ps[j + 1..], g, e, short, long);
    CodedPieces(ps[..j], [ps[j]], g, e, short, long);
    StaysFresh(l, g, e, ps[..j], short, long);
    var m := BipAll(l, short, long, ps[..j]).0;
    LongOpens(m, g, BipAfter(g, e, j), long, ps[j]);
    OneStep(m, short, long, ps[j]);
    BipSplit(l, short, long, ps[..j], [ps[j]]);
    BipSplit(l, short, long, ps[..j + 1], ps[j + 1..]);
    BipAtFold(BipStep(m, long, ps[j]), g, BipAfter(g, e, j + 1), ps[j + 1..], short, long, FirstCell(g, e, j));
  }

  // ----- the first piece

  lemma LongInPiece(p: seq<Pulse>, waited: nat, g: seq<bool>, e: nat, short: nat, long: nat) returns (j: nat)
    requires |g| > 0 && FirstPiece(p, waited) && BipCoded(p, g, e, short, long)
    ensures j < |p| && OpensAt(g, e, j)
  {
    hide BipLong, BipAfter, OpensAt;
    var i :| 0 <= i < |p| && p[i].clocks != p[0].clocks;
    j := LeastLong(g, e, if p[i].clocks == long && BipLong(g, BipAfter(g, e, i)) then i else 0);
  }

  lemma {:induction false} AllLong(g: seq<bool>, e: nat, k: nat)
    requires |g| > 0 && forall i :: 0 <= i < k ==> BipLong(g, BipAfter(g, e, i))
    ensures BipAfter(g, e, k) == e + 2 * k
    ensures forall c :: e <= 2 * c < e + 2 * k ==> Bit(g, c)
  {
    hide Bit;
    if k > 0 {
      AllLong(g, e, k - 1);
      assert BipLong(g, e + 2 * (k - 1));
    }
  }

  /** The first piece reaches at most 63 cells beyond the first zero behind the first one. */
  lemma FirstPieceShort(p: seq<Pulse>, waited: nat, g: seq<bool>, e: nat, short: nat, long: nat, j: nat, zero: nat)
    requires |g| > 0 && short != long && FirstPiece(p, waited) && BipCoded(p, g, e, short, long)
    requires j < |p| && OpensAt(g, e, j) && FirstCell(g, e, j) <= zero && !Bit(g, zero)
    ensures BipAfter(g, e, |p|) / 2 <= zero + 63
  {
    assert BipAfter(g, e, j) % 2 == 0;
    if j >= waited {
      hide BipLong, BipAfter, Bit, BipCoded;
      BipAfterSplit(g, e, j, |p| - j);
    } else {
      WaitedOnLong(p, waited, g, e, short, long, j);
      hide BipLong, BipAfter, Bit, BipCoded, OpensAt;
      AllLong(g, e, waited);
      BipAfterSplit(g, e, waited, |p| - waited);
    }
  }

  lemma WaitedOnLong(p: seq<Pulse>, waited: nat, g: seq<bool>, e: nat, short: nat, long: nat, j: nat)
    requires |g| > 0 && short != long && FirstPiece(p, waited) && BipCoded(p, g, e, short, long)
    requires j < waited && OpensAt(g, e, j)
    ensures j == 0 && BipAfter(g, e, 0) == e && forall i :: 0 <= i < waited ==> BipLong(g, BipAfter(g, e, i))
  {
    hide BipLong, BipAfter;
    assert BipAfter(g, e, 0) == e;
    forall i | 0 <= i < waited ensures BipLong(g, BipAfter(g, e, i)) {
      assert p[..waited][i] == p[i] && p[..waited][j] == p[j];
    }
  }

  // ----- reports

  /** Both bi-phase frame decoders, one after the other. */
  function Frames(l: Line): (r: (Line, seq<Report>))
    requires l.Valid()
    ensures r.0.Valid()
  {
    var (m, ph) := FindPhidget(l);
    var (r, fdx) := FindFdx(m);
    (r, ph + fdx)
  }

  lemma NoFrames(l: Line)
    requires l.Valid() && FindPhidget(l) == (l, []) && FindFdx(l) == (l, [])
    ensures Frames(l) == (l, [])
  {
    hide FindPhidget, FindFdx;
    var none: seq<Report> := [];
    assert none + none == none;
  }

  lemma BatchFrames(l: Line, short: nat, long: nat, ps: seq<Pulse>)
    requires l.Valid() && Pulses(ps) && BipAll(l, short, long, ps).1
    ensures BiphaseBatch(l, short, long, ps) == Frames(BipAll(l, short, long, ps).0)
  {
    hide BipAll, FindPhidget, FindFdx;
  }

  /** With the queue beginning at bit c, the decoders find nothing until it reaches the limit, and then first this. */
  ghost predicate Expected(g: seq<bool>, c: nat, limit: nat, report: Report)
    requires |g| > 0
  {
    forall l: Line, n: nat :: l.Valid() && BipAt(l, g, n, c) && c < n / 2 < limit + 63 ==>
      if n / 2 < limit then Frames(l) == (l, []) else Frames(l).1 != [] && Frames(l).1[0] == report
  }

  lemma RunUnrolled(l: Line, short: nat, long: nat, pieces: seq<seq<Pulse>>)
    requires l.Valid() && AllPulses(pieces) && pieces != []
    ensures var k := |pieces| - 1; var (m, before) := BipRun(l, short, long, pieces[..k]);
      var (t, found) := BiphaseBatch(m, short, long, pieces[k]);
      BipRun(l, short, long, pieces) == (t, before + found) && Joined(pieces) == Joined(pieces[..k]) + pieces[k]
  {
    hide BiphaseBatch;
  }

  lemma OnePiece(l: Line, short: nat, long: nat, pieces: seq<seq<Pulse>>)
    requires l.Valid() && AllPulses(pieces) && |pieces| == 1
    ensures BipRun(l, short, long, pieces) == BiphaseBatch(l, short, long, pieces[0]) && Joined(pieces) == pieces[0]
  {
    hide BiphaseBatch;
    assert pieces[..0] == [];
    var (t, found) := BiphaseBatch(l, short, long, pieces[0]);
    assert [] + found == found && [] + pieces[0] == pieces[0];
  }

  lemma PiecesBut(pieces: seq<seq<Pulse>>, waited: nat)
    requires Pieces(pieces, waited)
    ensures AllPulses(pieces) && pieces != [] && FirstPiece(pieces[0], waited)
    ensures |pieces| > 1 ==>
      var k := |pieces| - 1;
      && Pieces(pieces[..k], waited) && AllPulses(pieces[..k]) && pieces[..k][0] == pieces[0] && 1 <= |pieces[k]| <= 63
  {
  }

  /** One more piece, in step: the bits are queued, then the frame decoders look. */
  lemma LaterPiece(m: Line, g: seq<bool>, n: nat, b: seq<Pulse>, short: nat, long: nat, from: nat) returns (r: Line)
    requires |g| > 0 && short != long && BipCoded(b, g, n, short, long) && |b| <= 63
    requires m.Valid() && BipAt(m, g, n, from)
    ensures Pulses(b) && r == BipAll(m, short, long, b).0 && r.Valid() && BiphaseBatch(m, short, long, b) == Frames(r)
    ensures BipAt(r, g, BipAfter(g, n, |b|), from) && n / 2 <= BipAfter(g, n, |b|) / 2 <= n / 2 + 63
  {
    hide BipAll, BipAt, BipLong, BipAfter, BipCoded, BiphaseBatch, Frames, Pulses;
    CodedPulses(b, g, n, short, long);
    BipAtFold(m, g, n, b, short, long, from);
    BatchFrames(m, short, long, b);
    WithinPiece(g, n, |b|);
    r := BipAll(m, short, long, b).0;
  }

  /** The same for the first piece. */
  lemma OpeningPiece(l: Line, g: seq<bool>, e: nat, p: seq<Pulse>, short: nat, long: nat, j: nat) returns (r: Line)
    requires |g| > 0 && short != long && BipCoded(p, g, e, short, long) && BipFresh(l) && OpensAt(g, e, j) && j < |p|
    ensures Pulses(p) && l.Valid() && r == BipAll(l, short, long, p).0 && r.Valid()
    ensures BiphaseBatch(l, short, long, p) == Frames(r)
    ensures BipAt(r, g, BipAfter(g, e, |p|), FirstCell(g, e, j)) && FirstCell(g, e, j) < BipAfter(g, e, |p|) / 2
  {
    hide BipAll, BipAt, BipLong, BipAfter, BipCoded, BiphaseBatch, Frames, Pulses, BipFresh, OpensAt;
    BipFirstFold(l, g, e, p, short, long, j);
    BatchFrames(l, short, long, p);
    BeyondFirst(g, e, |p|, j);
    r := BipAll(l, short, long, p).0;
  }

  /** When the first report comes, and what it is. */
  lemma {:induction false} FirstReport(l: Line, g: seq<bool>, e: nat, pieces: seq<seq<Pulse>>, waited: nat,
      short: nat, long: nat, j: nat, limit: nat, report: Report)
    requires |g| > 0 && short != long && BipFresh(l) && Pieces(pieces, waited)
    requires BipCoded(Joined(pieces), g, e, short, long) && OpensAt(g, e, j) && j < |pieces[0]|
    requires Expected(g, FirstCell(g, e, j), limit, report) && BipAfter(g, e, |pieces[0]|) / 2 < limit + 63
    ensures l.Valid()
    ensures var (t, found) := BipRun(l, short, long, pieces); var n := BipAfter(g, e, |Joined(pieces)|);
      && (found == [] <==> n / 2 < limit) && FirstCell(g, e, j) < n / 2
      && (if found == [] then BipAt(t, g, n, FirstCell(g, e, j)) else found[0] == report)
    decreases |pieces|
  {
    FreshValid(l);
    PiecesBut(pieces, waited);
    hide BipAt, BipLong, BipAfter, BipFresh, OpensAt, BipCoded, BiphaseBatch, Frames, Expected, Pulses, AllPulses,
      Pieces, FirstPiece, BipRun, Joined;
    var c, k := FirstCell(g, e, j), |pieces| - 1;
    if k == 0 {
      OnePiece(l, short, long, pieces);
      var r := OpeningPiece(l, g, e, pieces[0], short, long, j);
      Finds(r, g, BipAfter(g, e, |pieces[0]|), c, limit, report);
    } else {
      RunUnrolled(l, short, long, pieces);
      var a, b := Joined(pieces[..k]), pieces[k];
      CodedPieces(a, b, g, e, short, long);
      FirstReport(l, g, e, pieces[..k], waited, short, long, j, limit, report);
      var m := BipRun(l, short, long, pieces[..k]).0;
      var n := BipAfter(g, e, |a|);
      if BipRun(l, short, long, pieces[..k]).1 == [] {
        var r := LaterPiece(m, g, n, b, short, long, c);
        Finds(r, g, BipAfter(g, n, |b|), c, limit, report);
      } else {
        WithinPiece(g, n, |b|);
      }
    }
  }

  lemma BeyondFirst(g: seq<bool>, e: nat, k: nat, j: nat)
    requires |g| > 0 && OpensAt(g, e, j) && j < k
    ensures FirstCell(g, e, j) < BipAfter(g, e, k) / 2
  {
    assert BipAfter(g, e, j + 1) == BipAfter(g, e, j) + 2;
    hide BipAfter, BipLong;
    BipAfterMonotone(g, e, j + 1, k);
  }

  lemma WithinPiece(g: seq<bool>, n: nat, k: nat)
    requires |g| > 0 && k <= 63
    ensures n / 2 <= BipAfter(g, n, k) / 2 <= n / 2 + 63
  {
  }

  lemma Finds(l: Line, g: seq<bool>, n: nat, c: nat, limit: nat, report: Report)
    requires |g| > 0 && Expected(g, c, limit, report) && l.Valid() && BipAt(l, g, n, c) && c < n / 2 < limit + 63
    ensures if n / 2 < limit then Frames(l) == (l, []) else Frames(l).1 != [] && Frames(l).1[0] == report
  {
    hide BipAt, Frames;
  }

  /** The decoders have looked at this queue and found nothing. */
  predicate LookedInVain(t: Line, g: seq<bool>, n: nat, from: nat)
    requires |g| > 0
  {
    t.Valid() && BipAt(t, g, n, from) && Frames(t) == (t, [])
  }

  lemma InVain(l: Line)
    requires l.Valid() && Frames(l).1 == []
    ensures Frames(l) == (l, [])
  {
    hide PhidgetTag.Locate, FdxB.Locate, PhidgetTag.TagText, FdxB.TelegramText, FdxB.Data;
    var (m, ph) := FindPhidget(l);
    assert ph == [];
    NoFrames(l);
  }

  /** Without a report the queue still holds everything since the first one. */
  lemma {:induction false} NothingYet(l: Line, g: seq<bool>, e: nat, pieces: seq<seq<Pulse>>, waited: nat,
      short: nat, long: nat, j: nat)
    requires |g| > 0 && short != long && BipFresh(l) && Pieces(pieces, waited)
    requires BipCoded(Joined(pieces), g, e, short, long) && OpensAt(g, e, j) && j < |pieces[0]|
    ensures l.Valid()
    ensures var (t, found) := BipRun(l, short, long, pieces);
      found == [] ==> LookedInVain(t, g, BipAfter(g, e, |Joined(pieces)|), FirstCell(g, e, j))
    decreases |pieces|
  {
    FreshValid(l);
    PiecesBut(pieces, waited);
    hide BipAt, BipLong, BipAfter, BipFresh, OpensAt, BipCoded, BiphaseBatch, Frames, Pulses, AllPulses, Pieces,
      FirstPiece, BipRun, Joined, FirstCell;
    var k := |pieces| - 1;
    if BipRun(l, short, long, pieces).1 == [] {
      if k == 0 {
        OnePiece(l, short, long, pieces);
        var r := OpeningPiece(l, g, e, pieces[0], short, long, j);
        InVain(r);
      } else {
        RunUnrolled(l, short, long, pieces);
        CodedPieces(Joined(pieces[..k]), pieces[k], g, e, short, long);
        NothingYet(l, g, e, pieces[..k], waited, short, long, j);
        var r := LaterPiece(BipRun(l, short, long, pieces[..k]).0, g, BipAfter(g, e, |Joined(pieces[..k])|), pieces[k],
                            short, long, FirstCell(g, e, j));
        InVain(r);
      }
    }
  }

  // ----- a repeated frame

  /** Bit z of the repetition is the one at the given place. */
  predicate AtPlace(g: seq<bool>, place: nat, z: nat)
    requires |g| > 0
  {
    z % |g| == place
  }

  /** The next cell at a place in g. */
  lemma NextStart(g: seq<bool>, c: nat, place: nat) returns (z: nat)
    requires place < |g|
    ensures c <= z < c + |g| && AtPlace(g, place, z) && Bit(g, z) == g[place]
  {
    var q, now := Divided(c, |g|);
    var p := if now <= place then q else q + 1;
    z := p * |g| + place;
    Distribute(q, 1, |g|);
    ModuloUnique(p, z, place, |g|);
  }

  lemma NextTime(g: seq<bool>, place: nat, z: nat)
    requires |g| > 0 && AtPlace(g, place, z)
    ensures AtPlace(g, place, z + |g|)
  {
    ShiftModulo(z + |g|, |g|);
  }

  lemma BitLater(g: seq<bool>, c: nat)
    requires |g| > 0
    ensures Bit(g, c + |g|) == Bit(g, c)
  {
    ShiftModulo(c + |g|, |g|);
  }

  /** The queue begins with a one, and the next frame, which begins with a zero, is not yet complete. */
  predicate Partial(g: seq<bool>, n: nat, from: nat, z: nat)
    requires |g| > 0
  {
    Bit(g, from) && AtPlace(g, 0, z) && from < z <= from + |g| && from < n < z + |g|
  }

  /** The decoders take a frame once it is complete, and skip as many bits from the beginning of the queue. */
  ghost predicate Steady(g: seq<bool>, report: Report)
    requires 0 < |g| <= SIZE
  {
    forall l: Line, n: nat, from: nat, z: nat ::
      l.Valid() && BipAt(l, g, n, from) && Bit(g, from) && AtPlace(g, 0, z) && from < z <= from + |g|
      && from < n / 2 < z + |g| + 63 ==>
        Frames(l) == if n / 2 < z + |g| then (l, []) else (l.(ring := l.ring.Skip(|g|)), [report])
  }

  /** One more piece in this state: nothing found, or the frame. */
  lemma Follows(l: Line, g: seq<bool>, n: nat, from: nat, z: nat, report: Report) returns (now: nat, next: nat)
    requires 63 <= |g| <= 400 && Steady(g, report) && l.Valid() && BipAt(l, g, n, from) && Bit(g, from)
    requires AtPlace(g, 0, z) && from < z <= from + |g| && from < n / 2 < z + |g| + 63
    ensures var (t, found) := Frames(l);
      && BipAt(t, g, n, now) && Partial(g, n / 2, now, next)
      && if n / 2 < z + |g| then found == [] && now == from && next == z else found == [report]
  {
    hide Frames, Since, Bit, AtPlace;
    now, next := from, z;
    if n / 2 >= z + |g| {
      assert Frames(l) == (l.(ring := l.ring.Skip(|g|)), [report]);
      SinceSkip(l.ring, g, n / 2, from, |g|);
      NextTime(g, 0, z);
      BitLater(g, from);
      now, next := from + |g|, z + |g|;
    }
  }

  /** The first piece of a repeated frame that begins with a zero. */
  lemma FirstPieceFits(p: seq<Pulse>, waited: nat, g: seq<bool>, e: nat, short: nat, long: nat, j: nat) returns (z: nat)
    requires 63 <= |g| && !g[0] && short != long && FirstPiece(p, waited) && BipCoded(p, g, e, short, long)
    requires j < |p| && OpensAt(g, e, j)
    ensures var c := FirstCell(g, e, j);
      Bit(g, c) && AtPlace(g, 0, z) && c < z <= c + |g| && c < BipAfter(g, e, |p|) / 2 <= z + 63
  {
    var c := FirstCell(g, e, j);
    assert Bit(g, c);
    hide BipAfter, BipLong, BipCoded, FirstPiece, Bit, AtPlace, OpensAt;
    z := NextStart(g, c, 0);
    FirstPieceShort(p, waited, g, e, short, long, j, z);
    BeyondFirst(g, e, |p|, j);
  }

  /** In step within a repeated frame. */
  predicate Tracked(t: Line, g: seq<bool>, n: nat, from: nat, z: nat)
    requires |g| > 0
  {
    t.Valid() && BipAt(t, g, n, from) && Partial(g, n / 2, from, z)
  }

  lemma FirstTracked(l: Line, g: seq<bool>, e: nat, p: seq<Pulse>, waited: nat, short: nat, long: nat, j: nat,
      report: Report) returns (from: nat, z: nat)
    requires 63 <= |g| <= 400 && !g[0] && Steady(g, report) && short != long && BipFresh(l) && FirstPiece(p, waited)
    requires BipCoded(p, g, e, short, long) && OpensAt(g, e, j) && j < |p|
    ensures l.Valid() && Pulses(p)
    ensures var (t, found) := BiphaseBatch(l, short, long, p);
      && Tracked(t, g, BipAfter(g, e, |p|), from, z) && (found == [] ==> from == FirstCell(g, e, j))
      && (found == [] || found == [report])
  {
    hide BipLong, BipAfter, BipAt, BipFresh, OpensAt, BipCoded, BiphaseBatch, Frames, Steady, Bit, AtPlace, Pulses,
      FirstPiece;
    var r := OpeningPiece(l, g, e, p, short, long, j);
    z := FirstPieceFits(p, waited, g, e, short, long, j);
    from, z := Follows(r, g, BipAfter(g, e, |p|), FirstCell(g, e, j), z, report);
  }

  lemma StillTracked(m: Line, g: seq<bool>, n: nat, b: seq<Pulse>, short: nat, long: nat, from: nat, z: nat,
      report: Report) returns (now: nat, next: nat)
    requires 63 <= |g| <= 400 && Steady(g, report) && short != long && m.Valid() && Tracked(m, g, n, from, z)
    requires BipCoded(b, g, n, short, long) && |b| <= 63
    ensures Pulses(b)
    ensures var (t, found) := BiphaseBatch(m, short, long, b);
      && Tracked(t, g, BipAfter(g, n, |b|), now, next) && (found == [] ==> now == from)
      && (found == [] || found == [report])
  {
    hide BipLong, BipAfter, BipAt, BipCoded, BiphaseBatch, Frames, Steady, Bit, AtPlace, Pulses;
    var r := LaterPiece(m, g, n, b, short, long, from);
    now, next := Follows(r, g, BipAfter(g, n, |b|), from, z, report);
  }

  predicate OnlyThis(found: seq<Report>, report: Report) { forall i :: 0 <= i < |found| ==> found[i] == report }

  /** After these pieces: in step, and nothing but the frame reported. */
  predicate KeptUp(l: Line, g: seq<bool>, e: nat, pieces: seq<seq<Pulse>>, short: nat, long: nat, c: nat,
      report: Report, from: nat, z: nat)
    requires |g| > 0 && l.Valid() && AllPulses(pieces)
  {
    var (t, found) := BipRun(l, short, long, pieces);
    && Tracked(t, g, BipAfter(g, e, |Joined(pieces)|), from, z) && (found == [] ==> from == c)
    && OnlyThis(found, report)
  }

  lemma KeepsUp(l: Line, g: seq<bool>, e: nat, pieces: seq<seq<Pulse>>, waited: nat, short: nat, long: nat, c: nat,
      report: Report, from: nat, z: nat) returns (now: nat, next: nat)
    requires 63 <= |g| <= 400 && Steady(g, report) && short != long && l.Valid()
    requires Pieces(pieces, waited) && |pieces| > 1 && BipCoded(Joined(pieces), g, e, short, long)
    requires KeptUp(l, g, e, pieces[..|pieces| - 1], short, long, c, report, from, z)
    ensures KeptUp(l, g, e, pieces, short, long, c, report, now, next)
  {
    hide BipLong, BipAfter, BipCoded, BiphaseBatch, Steady, Pulses, BipRun, Joined, Tracked;
    PiecesBut(pieces, waited);
    RunUnrolled(l, short, long, pieces);
    var k := |pieces| - 1;
    var a, b := Joined(pieces[..k]), pieces[k];
    CodedPieces(a, b, g, e, short, long);
    now, next := StillTracked(BipRun(l, short, long, pieces[..k]).0, g, BipAfter(g, e, |a|), b, short, long, from, z,
                              report);
  }

  lemma OpensUp(l: Line, g: seq<bool>, e: nat, pieces: seq<seq<Pulse>>, waited: nat, short: nat, long: nat, j: nat,
      report: Report) returns (from: nat, z: nat)
    requires 63 <= |g| <= 400 && !g[0] && Steady(g, report) && short != long && BipFresh(l) && Pieces(pieces, waited)
    requires |pieces| == 1 && BipCoded(Joined(pieces), g, e, short, long) && OpensAt(g, e, j) && j < |pieces[0]|
    ensures l.Valid() && KeptUp(l, g, e, pieces, short, long, FirstCell(g, e, j), report, from, z)
  {
    FreshValid(l);
    PiecesBut(pieces, waited);
    hide BipLong, BipAfter, BipFresh, OpensAt, BipCoded, BiphaseBatch, Steady, Pulses, AllPulses, Pieces,
      FirstPiece, BipRun, Joined, Tracked, FirstCell;
    OnePiece(l, short, long, pieces);
    from, z := FirstTracked(l, g, e, pieces[0], waited, short, long, j, report);
  }

  /** Over a repeated frame the queue never becomes empty, and nothing but the frame is reported. */
  lemma {:induction false} AllReports(l: Line, g: seq<bool>, e: nat, pieces: seq<seq<Pulse>>, waited: nat,
      short: nat, long: nat, j: nat, report: Report) returns (from: nat, z: nat)
    requires 63 <= |g| <= 400 && !g[0] && Steady(g, report) && short != long && BipFresh(l) && Pieces(pieces, waited)
    requires BipCoded(Joined(pieces), g, e, short, long) && OpensAt(g, e, j) && j < |pieces[0]|
    ensures l.Valid() && KeptUp(l, g, e, pieces, short, long, FirstCell(g, e, j), report, from, z)
    decreases |pieces|
  {
    FreshValid(l);
    PiecesBut(pieces, waited);
    hide BipLong, BipAfter, BipFresh, OpensAt, BipCoded, Steady, Pulses, AllPulses, Pieces, FirstPiece, BipRun,
      Joined, FirstCell, KeptUp;
    var k := |pieces| - 1;
    if k == 0 {
      from, z := OpensUp(l, g, e, pieces, waited, short, long, j, report);
    } else {
      RunUnrolled(l, short, long, pieces);
      CodedPieces(Joined(pieces[..k]), pieces[k], g, e, short, long);
      from, z := AllReports(l, g, e, pieces[..k], waited, short, long, j, report);
      from, z := KeepsUp(l, g, e, pieces, waited, short, long, FirstCell(g, e, j), report, from, z);
    }
  }

  // ----- whole runs

  lemma {:induction false} FirstOfJoined(pieces: seq<seq<Pulse>>)
    requires pieces != []
    ensures |pieces[0]| <= |Joined(pieces)| && Joined(pieces)[..|pieces[0]|] == pieces[0]
  {
    if |pieces| > 1 {
      FirstOfJoined(pieces[..|pieces| - 1]);
    } else {
      assert pieces[..0] == [] && [] + pieces[0] == pieces[0];
    }
  }

  /** The pieces of a run over a bi-phase stream, and the first long pulse among them. */
  lemma RunOpens(s: Rx, g: seq<bool>, e: nat, ps: seq<Pulse>, short: nat, long: nat, packets: seq<seq<nat>>,
      bound: nat) returns (pieces: seq<seq<Pulse>>, waited: nat, j: nat)
    requires |g| > 0 && Clocks(short, long) && AfterReset(s) && Packets(packets)
    requires Jittered(Received(packets), ps) && BipCoded(ps, g, e, short, long) && MixedBy(ps, bound) && bound <= 900
    ensures var (t, found) := Run(s, packets); Reached(s, t, found, ps, short, long, pieces, waited)
    ensures |ps| == |Received(packets)| && (pieces == [] ==> |ps| <= bound)
    ensures pieces != [] ==> j < |pieces[0]| && OpensAt(g, e, j) && BipCoded(pieces[0], g, e, short, long)
  {
    assert |ps| == |Received(packets)|;
    hide Jittered, BipCoded, BipLong, BipAfter, OpensAt, MixedBy, Run, Decoded, AllPulses, FirstPiece;
    CodedTwoLengths(ps, g, e, short, long);
    pieces, waited := RunInPieces(s, packets, ps, short, long, bound);
    j := 0;
    if pieces == [] {
      assert ps[..|ps|] == ps;
      NotMixed(ps, |ps|, bound);
    } else {
      FirstOfJoined(pieces);
      CodedStart(ps, g, e, short, long, |pieces[0]|);
      PiecesBut(pieces, waited);
      j := LongInPiece(pieces[0], waited, g, e, short, long);
    }
  }

  lemma FirstCellEarly(g: seq<bool>, e: nat, j: nat, one: nat)
    requires one < |g| && g[one] && OpensAt(g, e, j)
    ensures 2 * FirstCell(g, e, j) < e + 2 * |g|
  {
    hide BipAfter, Bit;
    var c := NextCell(g, e, one);
    var i := EvenBegins(g, e, 2 * c);
    assert BipLong(g, 2 * c);
    BipAfterMonotone(g, e, j, i);
  }

  lemma SilentBounded(l: Line, g: seq<bool>, e: nat, pieces: seq<seq<Pulse>>, short: nat, long: nat, j: nat,
      report: Report, from: nat, z: nat, one: nat)
    requires |g| > 0 && one < |g| && g[one] && OpensAt(g, e, j) && l.Valid() && AllPulses(pieces)
    requires KeptUp(l, g, e, pieces, short, long, FirstCell(g, e, j), report, from, z)
    requires BipRun(l, short, long, pieces).1 == []
    ensures |Joined(pieces)| < 6 * |g|
  {
    hide BipAfter, OpensAt, FirstCell, BipAt, BipRun, Bit, AtPlace;
    FirstCellEarly(g, e, j, one);
    assert BipAfter(g, e, |Joined(pieces)|) >= e + |Joined(pieces)|;
  }

  /**
   * A frame that begins with a zero, repeated without end, bi-phase coded at either polarity and entered anywhere,
   * its pulses jittered within their bands and cut into packets in any way: if the frame decoders see it when it is
   * complete, nothing else is reported on the bi-phase side, and within six frame lengths of pulses it has been.
   */
  lemma RepeatedFrame(s: Rx, g: seq<bool>, e: nat, ps: seq<Pulse>, short: nat, long: nat, packets: seq<seq<nat>>,
      report: Report, one: nat)
    requires 63 <= |g| <= 400 && one < |g| && g[one] && !g[0] && Steady(g, report)
    requires Clocks(short, long) && AfterReset(s) && Packets(packets)
    requires Jittered(Received(packets), ps) && BipCoded(ps, g, e, short, long)
    ensures var found := Of(false, Run(s, packets).1);
      OnlyThis(found, report) && (|Received(packets)| >= 6 * |g| ==> report in found)
  {
    hide Jittered, BipCoded, BipAfter, BipLong, OpensAt, MixedBy, Run, Steady, AllPulses, FirstCell, Pieces, Reached,
      BipRun, ManRun, Of, Packets, BipFresh, Joined, Received;
    CodedMixed(ps, g, e, short, long, one, 0);
    var pieces, waited, j := RunOpens(s, g, e, ps, short, long, packets, 2 * |g| - 1);
    var (t, found) := Run(s, packets);
    Sides(s, t, found, ps, short, long, pieces, waited);
    if pieces != [] {
      ResetFresh(s);
      var from, z := AllReports(s.bip, g, e, pieces, waited, short, long, j, report);
      var reports := BipRun(s.bip, short, long, pieces).1;
      assert OnlyThis(reports, report);
      if reports == [] {
        SilentBounded(s.bip, g, e, pieces, short, long, j, report, from, z, one);
      } else {
        assert reports[0] == report;
      }
    }
  }

  lemma ResetFresh(s: Rx)
    requires AfterReset(s)
    ensures BipFresh(s.bip) && ManFresh(s.man)
  {
  }
}
