/** A telegram that never came in whole, reported out of old slots while another tag is in the field. */
module OldReports {
  import opened Modulo
  import opened Rings
  import opened LineCode
  import opened LineCodeSync
  import opened Receiver
  import opened EndToEnd
  import opened PulseRuns
  import opened BiphaseRuns
  import opened StaleReports
  import FdxBRuns
  import PhidgetTagRuns
  import Crc
  import FdxB
  import FdxBSync
  import PhidgetTag
  import PhidgetTagSync

  // ----- the stream

  /** A telegram from its header's one on, ones to make up 224 bits, the frame of a PhidgetTAG tag, and a zero. */
  function FragmentThenTag(d: seq<bool>, f: seq<bool>): (g: seq<bool>)
    requires |d| == 128 && |f| == 224
    ensures |g| == 449
  {
    d[10..] + seq(106, _ => true) + f + [false]
  }

  /** The first n entries of a are those of the stream, as far as the end of the frame. */
  predicate StartsLike(a: seq<bool>, n: nat, d: seq<bool>, f: seq<bool>)
    requires |d| == 128 && |f| == 224
  {
    n <= |a| && forall i :: 0 <= i < n && i < 448 ==> a[i] == FragmentThenTag(d, f)[i]
  }

  predicate Tags(d: seq<bool>, f: seq<bool>) {
    FdxB.Frame(d) && |d| == 128 && PhidgetTag.Frame(f) && |f| == 224 && PhidgetTagRuns.Quiet(f)
  }

  /** Before the frame there is a one among any ten bits. */
  lemma OneIn(d: seq<bool>, f: seq<bool>, i: nat) returns (c: nat)
    requires Tags(d, f) && i < 224
    ensures i <= c < i + 10 && c < 224 && FragmentThenTag(d, f)[c]
  {
    c := i;
    if i < 118 {
      var p := FdxBSync.NextOne(d, 10 + i);
      c := p - 10;
    }
  }

  lemma NoEarlyHeader(a: seq<bool>, n: nat, d: seq<bool>, f: seq<bool>, i: nat)
    requires Tags(d, f) && StartsLike(a, n, d, f) && i < 224
    ensures i + 224 <= n ==> !PhidgetTag.Header(a, i)
    ensures i + 128 <= n ==> !FdxB.Header(a, i)
  {
    hide FragmentThenTag;
    var c := OneIn(d, f, i);
    if i + 128 <= n { assert a[c]; }
  }

  /** In the frame only its own header's end looks like the header of a telegram. */
  lemma NoHeaderInFrame(a: seq<bool>, n: nat, d: seq<bool>, f: seq<bool>, i: nat)
    requires Tags(d, f) && StartsLike(a, n, d, f) && 224 <= i && i + 128 <= n <= 448 && i != 227
    ensures !FdxB.Header(a, i)
  {
    PhidgetTagRuns.HeaderBits(f);
    if i < 227 {
      assert a[i + 10] == f[i + 10 - 224];
    } else {
      var c := PhidgetTagRuns.OneNear(f, i - 224);
      assert a[224 + c] == f[c];
    }
  }

  lemma {:induction false} NoTelegramYet(a: seq<bool>, n: nat, d: seq<bool>, f: seq<bool>, o: nat)
    requires Tags(d, f) && StartsLike(a, n, d, f) && n <= 448
    ensures FdxB.Search(a, n, o) == None
    decreases n - o
  {
    hide FdxB.Header, FdxB.Body;
    if o + 128 <= n {
      if o < 224 {
        NoEarlyHeader(a, n, d, f, o);
      } else if o != 227 {
        NoHeaderInFrame(a, n, d, f, o);
      } else {
        assert a[o..o + 128] == f[3..131];
      }
      NoTelegramYet(a, n, d, f, o + 1);
      NoTelegramYet(a, n, d, f, o + 12);
    }
  }

  lemma FrameAfter(a: seq<bool>, n: nat, d: seq<bool>, f: seq<bool>)
    requires Tags(d, f) && StartsLike(a, n, d, f)
    ensures PhidgetTag.Search(a, n, 0, Crc.Zero) == if n < 448 then None else Some(224)
    ensures n >= 448 ==> a[224..448] == f
  {
    forall i | 0 <= i < 224 && i + 224 <= n ensures !PhidgetTag.Header(a, i) { NoEarlyHeader(a, n, d, f, i); }
    if n >= 448 {
      assert a[224..448] == f;
      assert PhidgetTag.Header(a, 224) by {
        PhidgetTagRuns.HeaderBits(f);
        forall k | 0 <= k < 14 ensures a[224 + k] == f[k] { assert a[224..448][k] == a[224 + k]; }
      }
    }
    hide PhidgetTag.Header, PhidgetTag.Body, PhidgetTag.Frame, PhidgetTag.Accumulate, PhidgetTag.Search, StartsLike;
    if n < 448 {
      NoneWithin(a, n, 0);
    } else {
      PhidgetTagSync.NoHeaderNoStop(a, n, 0, 224, Crc.Zero);
      PhidgetTagSync.FrameAccepted(f);
      PhidgetTagSync.SearchStep(a, n, 224, Crc.Zero);
    }
  }

  lemma {:induction false} NoneWithin(a: seq<bool>, n: nat, o: nat)
    requires n <= |a| && forall i :: o <= i && i + 224 <= n ==> !PhidgetTag.Header(a, i)
    ensures PhidgetTag.Search(a, n, o, Crc.Zero) == None
    decreases n - o
  {
    hide PhidgetTag.Header, PhidgetTag.Body, PhidgetTag.Accumulate;
    if o + 224 <= n { NoneWithin(a, n, o + 1); }
  }

  // ----- the queue

  /** In step, everything queued, and the ring has not been around. */
  predicate Kept(l: Line, g: seq<bool>, n: nat)
    requires |g| > 0
  {
    l.Valid() && BipAt(l, g, n, 0) && Clean(l.ring)
  }

  lemma KeptStep(l: Line, g: seq<bool>, n: nat, short: nat, long: nat, p: Pulse)
    requires |g| > 0 && short != long && p.Pulse? && p.clocks == (if BipLong(g, n) then long else short)
    requires Kept(l, g, n) && n < 1000
    ensures Kept(BipStep(l, long, p), g, BipNext(g, n))
  {
    BipAtStep(l, g, n, 0, short, long, p);
    assert l.ring.wr == l.ring.Len() < SIZE - 1;
    hide Since, BipLong, BipNext;
    CleanPush(l.ring, true);
    CleanPush(l.ring, false);
  }

  lemma {:induction false} KeptFold(l: Line, g: seq<bool>, n: nat, ps: seq<Pulse>, short: nat, long: nat)
    requires |g| > 0 && short != long && BipCoded(ps, g, n, short, long) && Kept(l, g, n)
    requires BipAfter(g, n, |ps|) <= 1000
    ensures l.Valid() && Pulses(ps) && Kept(BipAll(l, short, long, ps).0, g, BipAfter(g, n, |ps|))
    decreases |ps|
  {
    assert l.Valid() && BipAt(l, g, n, 0);
    hide BipStep, BipLong, Kept, BipAt;
    if ps != [] {
      var k := |ps| - 1;
      KeptFold(l, g, n, ps[..k], short, long);
      BipAtFold(l, g, n, ps[..k], short, long, 0);
      KeptStep(BipAll(l, short, long, ps[..k]).0, g, BipAfter(g, n, k), short, long, ps[k]);
    }
  }

  lemma QueueIs(l: Line, d: seq<bool>, f: seq<bool>, n: nat)
    requires |d| == 128 && |f| == 224 && l.Valid() && BipAt(l, FragmentThenTag(d, f), n, 0) && n / 2 < 1023
    ensures l.ring.Len() == n / 2 && StartsLike(l.ring.All(), n / 2, d, f)
  {
    var g, a, k := FragmentThenTag(d, f), l.ring.All(), n / 2;
    hide FragmentThenTag;
    SinceQueue(l.ring, g, k, 0);
    forall i | 0 <= i < k && i < 448 ensures a[i] == g[i] {
      assert a[..k][i] == Cyclic(g, 0, k)[i];
      ModuloUnique(0, i, i, 449);
    }
  }

  /** Until the frame is complete nothing is found; and then first of all the frame. */
  lemma TagFirst(l: Line, d: seq<bool>, f: seq<bool>, n: nat)
    requires Tags(d, f) && l.Valid() && BipAt(l, FragmentThenTag(d, f), n, 0) && 0 < n / 2 < 511
    ensures if n / 2 < 448 then Frames(l) == (l, [])
            else FindPhidget(l) == (l.(ring := l.ring.Skip(224)), [PhidgetTagRuns.TextOf(f)])
  {
    hide FdxB.Frame, PhidgetTag.Frame, PhidgetTagRuns.Quiet, Since, FragmentThenTag, StartsLike, PhidgetTag.Search,
      FdxB.Search, PhidgetTag.TagText, FdxB.TelegramText, FdxB.Data;
    QueueIs(l, d, f, n);
    FrameAfter(l.ring.All(), n / 2, d, f);
    if n / 2 < 448 {
      NoTelegramYet(l.ring.All(), n / 2, d, f, 0);
      NoFrames(l);
    }
  }

  /** Just the frame is left queued. */
  predicate JustFrame(r: Ring<bool>, f: seq<bool>) {
    r.Valid() && r.rd == 224 && r.wr == 448 && r.Queue() == f
  }

  /** At the end of the frame, in a packet that ends there: the tag is reported and its frame is left. */
  lemma TagReported(l: Line, d: seq<bool>, f: seq<bool>)
    requires Tags(d, f) && Kept(l, FragmentThenTag(d, f), 896)
    ensures Frames(l) == (l.(ring := l.ring.Skip(224)), [PhidgetTagRuns.TextOf(f)])
    ensures JustFrame(l.ring.Skip(224), f)
  {
    var a := l.ring.All();
    assert l.ring.wr == 448 by { QueueIs(l, d, f, 896); }
    hide FdxB.Frame, PhidgetTagRuns.Quiet, Since, FragmentThenTag, StartsLike, FdxB.Search, FindPhidget, Clean,
      PhidgetTagRuns.TextOf;
    QueueIs(l, d, f, 896);
    TagFirst(l, d, f, 896);
    FrameAfter(a, 448, d, f);
    var r := l.ring.Skip(224);
    l.ring.SkipQueue(224);
    assert l.ring.Queue() == a[..448] && a[..448][224..] == a[224..448] == f;
    FrameQuiet(r, f);
    assert FindPhidget(l).1 + [] == FindPhidget(l).1;
  }

  lemma FrameQuiet(r: Ring<bool>, f: seq<bool>)
    requires PhidgetTag.Frame(f) && |f| == 224 && PhidgetTagRuns.Quiet(f) && JustFrame(r, f)
    ensures FdxB.Locate(r) == None
  {
    hide PhidgetTag.Frame, PhidgetTagRuns.Quiet, FdxB.Search, Cyclic;
    CyclicWhole(f);
    PhidgetTagRuns.NoTelegramIn(f, 0, r.All(), 224, 0);
  }

  // ----- the next pulse

  lemma FrameLocated(r: Ring<bool>, f: seq<bool>)
    requires PhidgetTag.Frame(f) && |f| == 224 && JustFrame(r, f)
    ensures PhidgetTag.Locate(r) == Some(0) && r.All()[0..224] == f
  {
    var a := r.All();
    assert a[..224] == f && a[0..224] == f;
    PhidgetTagSync.FrameAccepted(f);
    assert PhidgetTag.Header(a, 0) by {
      PhidgetTagRuns.HeaderBits(f);
      forall k | 0 <= k < 14 ensures a[k] == f[k] { assert a[..224][k] == a[k]; }
    }
    hide PhidgetTag.Header, PhidgetTag.Body, PhidgetTag.Frame;
    PhidgetTagSync.SearchStep(a, 224, 0, Crc.Zero);
  }

  /** The slots of the ring, 448 of them written with the stream, from the write pointer on. */
  predicate WrappedAround(a: seq<bool>, d: seq<bool>, f: seq<bool>)
    requires |d| == 128 && |f| == 224
  {
    && |a| == SIZE && (forall i :: 0 <= i < 576 ==> !a[i])
    && forall i :: 0 <= i < 448 ==> a[576 + i] == FragmentThenTag(d, f)[i]
  }

  lemma FragmentBit(d: seq<bool>, f: seq<bool>, i: nat)
    requires |d| == 128 && |f| == 224 && i < 118
    ensures FragmentThenTag(d, f)[i] == d[10 + i]
  {
  }

  /** Unwritten slots make up the header of the telegram whose rest came in first. */
  lemma FragmentWindow(a: seq<bool>, d: seq<bool>, f: seq<bool>)
    requires Tags(d, f) && WrappedAround(a, d, f)
    ensures a[566..694] == d && FdxB.Header(a, 566) && forall p :: 0 <= p < 566 ==> !FdxB.Header(a, p)
  {
    assert FdxB.Header(d, 0);
    hide FragmentThenTag, FdxB.Frame, PhidgetTag.Frame;
    forall k | 0 <= k < 128 ensures a[566..694][k] == d[k] {
      if k >= 10 {
        assert a[576 + (k - 10)] == FragmentThenTag(d, f)[k - 10];
        FragmentBit(d, f, k - 10);
      }
    }
    assert a[566..694][10] == a[576];
    forall p | 0 <= p < 566 ensures !FdxB.Header(a, p) { assert !a[p + 10]; }
  }

  lemma ZerosFail(a: seq<bool>)
    requires |a| == SIZE && forall i :: 0 <= i < 576 ==> !a[i]
    ensures !FdxB.Body(a[..128])
  {
    var j := 0;
    assert !a[..128][19 + 9 * j];
  }

  lemma FragmentFound(a: seq<bool>, d: seq<bool>, f: seq<bool>)
    requires Tags(d, f) && WrappedAround(a, d, f)
    ensures !FdxB.Body(a[..128]) && FdxB.Search(a, SIZE, 12) == Some(566) && a[566..694] == d
  {
    assert FdxB.Body(d);
    ZerosFail(a);
    hide FragmentThenTag, FdxB.Search, FdxB.Body, FdxB.Header, FdxB.Frame, PhidgetTag.Frame;
    FragmentWindow(a, d, f);
    assert !FdxBSync.Tried(a, 12, 555);
    assert FdxBSync.Tried(a, 12, 566);
    FdxBSync.SearchFinds(a, SIZE, 12);
    forall p | 12 <= p < 566 ensures !FdxBSync.Passes(a, 12, p) {}
    assert FdxBSync.Passes(a, 12, 566);
  }

  lemma TagAgain(m: Line, f: seq<bool>)
    requires PhidgetTag.Frame(f) && |f| == 224 && m.Valid() && JustFrame(m.ring, f)
    ensures FindPhidget(m) == (m.(ring := m.ring.Skip(224)), [PhidgetTagRuns.TextOf(f)])
  {
    hide PhidgetTag.Locate, PhidgetTag.TagText, PhidgetTag.Frame, JustFrame;
    FrameLocated(m.ring, f);
  }

  lemma ThenTelegram(m: Line, d: seq<bool>, f: seq<bool>)
    requires Tags(d, f) && m.Valid() && m.ring.Len() == 0 && WrappedAround(m.ring.All(), d, f)
    ensures FindFdx(m).1 == [FdxBRuns.TelegramOf(d)]
  {
    hide FragmentThenTag, WrappedAround, FdxB.Search, FdxB.Body, FdxB.Data, FdxB.TelegramText, PhidgetTag.Frame,
      FdxB.Frame;
    FragmentFound(m.ring.All(), d, f);
  }

  /** On that queue: the tag again, which empties it, and then the telegram. */
  lemma TagThenFragment(m: Line, d: seq<bool>, f: seq<bool>)
    requires Tags(d, f) && m.Valid() && JustFrame(m.ring, f) && WrappedAround(m.ring.Skip(224).All(), d, f)
    ensures Frames(m).1 == [PhidgetTagRuns.TextOf(f), FdxBRuns.TelegramOf(d)]
  {
    assert m.ring.Skip(224).Valid() && m.ring.Skip(224).Len() == 0;
    hide FragmentThenTag, WrappedAround, FindPhidget, FindFdx, FdxB.Frame, PhidgetTag.Frame, JustFrame,
      PhidgetTagRuns.TextOf, FdxBRuns.TelegramOf;
    TagAgain(m, f);
    ThenTelegram(m.(ring := m.ring.Skip(224)), d, f);
  }

  /** The first half of a zero in a packet of its own. */
  lemma FragmentReported(l: Line, d: seq<bool>, f: seq<bool>, long: nat, p: Pulse)
    requires Tags(d, f) && Kept(l, FragmentThenTag(d, f), 896) && p.Pulse? && p.clocks != long
    ensures var m := l.(ring := l.ring.Skip(224));
      m.Valid() && Frames(BipStep(m, long, p)).1 == [PhidgetTagRuns.TextOf(f), FdxBRuns.TelegramOf(d)]
  {
    TagReported(l, d, f);
    var r := l.ring.Skip(224);
    var m := BipStep(l.(ring := r), long, p);
    assert m == l.(ring := r, change := true);
    assert r.Skip(224) == l.ring.(rd := 448);
    RestOfRing(l, r.Skip(224), d, f);
    hide FragmentThenTag, WrappedAround, BipStep, Kept, Frames, JustFrame, Tags;
    TagThenFragment(m, d, f);
  }

  lemma RestOfRing(l: Line, e: Ring<bool>, d: seq<bool>, f: seq<bool>)
    requires |d| == 128 && |f| == 224 && Kept(l, FragmentThenTag(d, f), 896)
    requires e == l.ring.(rd := 448)
    ensures WrappedAround(e.All(), d, f)
  {
    QueueIs(l, d, f, 896);
    hide FragmentThenTag;
    var a := e.All();
    forall i | 0 <= i < 576 ensures !a[i] { assert a[i] == l.ring.buf[448 + i]; }
    forall i | 0 <= i < 448 ensures a[576 + i] == FragmentThenTag(d, f)[i] {
      assert a[576 + i] == l.ring.buf[i] == l.ring.All()[i];
    }
  }

  // ----- the run

  /** After these pieces the tag has been reported and its frame is left. */
  predicate CameIn(r: (Line, seq<Report>), m: Line, g: seq<bool>, f: seq<bool>)
    requires |g| > 0 && |f| == 224
  {
    Kept(m, g, 896) && r == (m.(ring := m.ring.Skip(224)), [PhidgetTagRuns.TextOf(f)])
  }

  lemma CameInNow(m: Line, d: seq<bool>, f: seq<bool>)
    requires Tags(d, f) && Kept(m, FragmentThenTag(d, f), 896)
    ensures CameIn(Frames(m), m, FragmentThenTag(d, f), f)
  {
    hide Tags, FragmentThenTag, Kept, Frames, PhidgetTagRuns.TextOf;
    TagReported(m, d, f);
  }

  lemma TagInOne(l: Line, d: seq<bool>, f: seq<bool>, pieces: seq<seq<Pulse>>, short: nat, long: nat)
    returns (m: Line)
    requires Tags(d, f) && short != long && BipFresh(l) && Clean(l.ring) && l.ring.wr == 0
    requires AllPulses(pieces) && |pieces| == 1 && pieces[0] != []
    requires BipCoded(Joined(pieces), FragmentThenTag(d, f), 0, short, long)
    requires BipAfter(FragmentThenTag(d, f), 0, |Joined(pieces)|) == 896
    ensures l.Valid() && CameIn(BipRun(l, short, long, pieces), m, FragmentThenTag(d, f), f)
  {
    FreshValid(l);
    hide Tags, BipFresh, Clean, AllPulses, BipCoded, Joined, BipAfter, FragmentThenTag, Kept, BipRun, BiphaseBatch,
      Frames, Pulses, CameIn;
    OnePiece(l, short, long, pieces);
    m := KeptOpening(l, d, f, pieces[0], short, long);
    CameInNow(m, d, f);
  }

  lemma TagInLast(l: Line, d: seq<bool>, f: seq<bool>, pieces: seq<seq<Pulse>>, short: nat, long: nat, n: nat)
    returns (m: Line)
    requires Tags(d, f) && short != long && l.Valid() && AllPulses(pieces) && |pieces| > 1
    requires AllPulses(pieces[..|pieces| - 1]) && |pieces[|pieces| - 1]| <= 63
    requires var (t, found) := BipRun(l, short, long, pieces[..|pieces| - 1]);
      found == [] && Kept(t, FragmentThenTag(d, f), n)
    requires BipCoded(pieces[|pieces| - 1], FragmentThenTag(d, f), n, short, long)
    requires BipAfter(FragmentThenTag(d, f), n, |pieces[|pieces| - 1]|) == 896
    ensures CameIn(BipRun(l, short, long, pieces), m, FragmentThenTag(d, f), f)
  {
    var g, k := FragmentThenTag(d, f), |pieces| - 1;
    hide Tags, AllPulses, BipCoded, Joined, BipAfter, FragmentThenTag, Kept, BipRun, BiphaseBatch, Frames, Pulses,
      CameIn;
    RunUnrolled(l, short, long, pieces);
    m := KeptLater(BipRun(l, short, long, pieces[..k]).0, g, n, pieces[k], short, long);
    CameInNow(m, d, f);
    var r := Frames(m);
    assert [] + r.1 == r.1;
    assert BipRun(l, short, long, pieces) == (r.0, r.1);
  }

  /** Pieces that come to the end of the frame: the tag is reported, just then. */
  lemma TagComesIn(l: Line, d: seq<bool>, f: seq<bool>, pieces: seq<seq<Pulse>>, waited: nat, short: nat, long: nat)
    returns (m: Line)
    requires Tags(d, f) && short != long && BipFresh(l) && Clean(l.ring) && l.ring.wr == 0 && Pieces(pieces, waited)
    requires BipCoded(Joined(pieces), FragmentThenTag(d, f), 0, short, long)
    requires BipAfter(FragmentThenTag(d, f), 0, |Joined(pieces)|) == 896
    ensures l.Valid() && CameIn(BipRun(l, short, long, pieces), m, FragmentThenTag(d, f), f)
  {
    FreshValid(l);
    PiecesBut(pieces, waited);
    var g, k := FragmentThenTag(d, f), |pieces| - 1;
    assert |g| > 0;
    hide Tags, BipFresh, Clean, Pieces, FirstPiece, AllPulses, BipCoded, Joined, BipAfter, FragmentThenTag, Kept,
      BipRun, Pulses, CameIn;
    if k == 0 {
      m := TagInOne(l, d, f, pieces, short, long);
    } else {
      RunUnrolled(l, short, long, pieces);
      var a, b := Joined(pieces[..k]), pieces[k];
      CodedPieces(a, b, g, 0, short, long);
      NotYetAtEnd(g, |a|, |a + b|);
      WhileComingIn(l, d, f, pieces[..k], waited, short, long);
      m := TagInLast(l, d, f, pieces, short, long, BipAfter(g, 0, |a|));
    }
  }

  lemma NotYetAtEnd(g: seq<bool>, a: nat, k: nat)
    requires |g| > 0 && a < k && BipAfter(g, 0, k) == 896
    ensures BipAfter(g, 0, a) < 896
  {
    hide BipLong;
    assert BipAfter(g, 0, a + 1) > BipAfter(g, 0, a);
    BipAfterMonotone(g, 0, a + 1, k);
  }

  lemma OpensAtOnce(d: seq<bool>, f: seq<bool>)
    requires Tags(d, f)
    ensures var g := FragmentThenTag(d, f);
      OpensAt(g, 0, 0) && FirstCell(g, 0, 0) == 0 && g[0] && !g[224] && BipAfter(g, 0, 0) == 0 && BipLong(g, 0)
  {
    assert d[10] && !f[0] by { assert FdxB.Header(d, 0) && PhidgetTag.Header(f, 0); }
    FragmentBit(d, f, 0);
    ModuloUnique(0, 0, 0, 449);
  }

  lemma KeptFirst(l: Line, g: seq<bool>, p: seq<Pulse>, short: nat, long: nat)
    requires |g| > 0 && short != long && BipFresh(l) && Clean(l.ring) && l.ring.wr == 0 && p != []
    requires BipLong(g, 0) && BipCoded(p, g, 0, short, long) && BipAfter(g, 0, |p|) <= 896
    ensures Pulses(p) && l.Valid() && Kept(BipAll(l, short, long, p).0, g, BipAfter(g, 0, |p|))
    ensures BipAfter(g, 0, |p|) >= 2
  {
    FreshValid(l);
    assert BipAfter(g, 0, 0) == 0 && OpensAt(g, 0, 0);
    FirstLongPulse(g, 0, p, short, long, 0);
    hide BipAfter, BipAll, BipStep, BipCoded, BipLong, Bit, Clean, OpensAt;
    AfterLong(g, 0, 0);
    assert [p[0]] + p[1..] == p;
    CodedPieces([p[0]], p[1..], g, 0, short, long);
    LongOpens(l, g, 0, long, p[0]);
    CleanOpening(l, long, p[0]);
    OneStep(l, short, long, p[0]);
    BipSplit(l, short, long, [p[0]], p[1..]);
    KeptFold(BipStep(l, long, p[0]), g, 2, p[1..], short, long);
  }

  lemma KeptOpening(l: Line, d: seq<bool>, f: seq<bool>, p: seq<Pulse>, short: nat, long: nat) returns (m: Line)
    requires Tags(d, f) && short != long && BipFresh(l) && Clean(l.ring) && l.ring.wr == 0 && p != []
    requires var g := FragmentThenTag(d, f); BipCoded(p, g, 0, short, long) && BipAfter(g, 0, |p|) <= 896
    ensures Pulses(p) && l.Valid() && m.Valid()
    ensures Kept(m, FragmentThenTag(d, f), BipAfter(FragmentThenTag(d, f), 0, |p|))
    ensures BiphaseBatch(l, short, long, p) == Frames(m) && BipAfter(FragmentThenTag(d, f), 0, |p|) >= 2
  {
    OpensAtOnce(d, f);
    var g := FragmentThenTag(d, f);
    hide Tags, FragmentThenTag, BipAfter, BipAll, Frames, BiphaseBatch, BipCoded, BipLong, Kept, Clean, BipFresh,
      OpensAt, BipAt;
    m := OpeningPiece(l, g, 0, p, short, long, 0);
    KeptFirst(l, g, p, short, long);
  }

  lemma LongsOnly(q: seq<Pulse>, g: seq<bool>, short: nat, long: nat)
    requires |g| > 0 && short != long && BipCoded(q, g, 0, short, long) && OneLength(q) && q != [] && BipLong(g, 0)
    ensures forall c :: 0 <= 2 * c < 2 * |q| ==> Bit(g, c)
  {
    assert BipAfter(g, 0, 0) == 0;
    hide BipAfter, BipLong, Bit;
    assert q[0].clocks == long;
    forall i | 0 <= i < |q| ensures BipLong(g, BipAfter(g, 0, i)) { assert q[i].clocks == long; }
    AllLong(g, 0, |q|);
  }

  /** The frame's first zero is no later than the 225th pulse. */
  lemma MixedSoon(ps: seq<Pulse>, d: seq<bool>, f: seq<bool>, short: nat, long: nat)
    requires Tags(d, f) && short != long && BipCoded(ps, FragmentThenTag(d, f), 0, short, long)
    ensures MixedBy(ps, 224)
  {
    OpensAtOnce(d, f);
    var g := FragmentThenTag(d, f);
    assert !Bit(g, 224) by { ModuloUnique(0, 224, 224, 449); }
    hide Tags, FragmentThenTag, BipAfter, BipLong, Bit, OneLength, BipCoded;
    if |ps| > 224 && OneLength(ps[..225]) {
      CodedStart(ps, g, 0, short, long, 225);
      LongsOnly(ps[..225], g, short, long);
      assert false;
    }
  }

  lemma CleanOpening(l: Line, long: nat, p: Pulse)
    requires l.Valid() && Clean(l.ring) && l.ring.wr == 0 && p.Pulse? && p.clocks == long
    ensures Clean(BipStep(l, long, p).ring)
  {
    hide Clean;
    CleanPush(l.ring, true);
  }

  lemma KeptLater(m: Line, g: seq<bool>, n: nat, b: seq<Pulse>, short: nat, long: nat) returns (r: Line)
    requires |g| > 0 && short != long && BipCoded(b, g, n, short, long) && Kept(m, g, n) && |b| <= 63
    requires BipAfter(g, n, |b|) <= 896
    ensures Pulses(b) && m.Valid() && r.Valid() && Kept(r, g, BipAfter(g, n, |b|))
    ensures BiphaseBatch(m, short, long, b) == Frames(r)
  {
    assert m.Valid() && BipAt(m, g, n, 0);
    hide BipAfter, BipAll, Frames, BiphaseBatch, BipCoded, BipLong, Kept, BipAt;
    r := LaterPiece(m, g, n, b, short, long, 0);
    KeptFold(m, g, n, b, short, long);
  }

  lemma {:induction false} WhileComingIn(l: Line, d: seq<bool>, f: seq<bool>, pieces: seq<seq<Pulse>>, waited: nat,
      short: nat, long: nat)
    requires Tags(d, f) && short != long && BipFresh(l) && Clean(l.ring) && l.ring.wr == 0 && Pieces(pieces, waited)
    requires BipCoded(Joined(pieces), FragmentThenTag(d, f), 0, short, long)
    requires BipAfter(FragmentThenTag(d, f), 0, |Joined(pieces)|) < 896
    ensures l.Valid()
    ensures var (t, found) := BipRun(l, short, long, pieces);
      var n := BipAfter(FragmentThenTag(d, f), 0, |Joined(pieces)|);
      found == [] && Kept(t, FragmentThenTag(d, f), n) && n >= 2
    decreases |pieces|
  {
    FreshValid(l);
    PiecesBut(pieces, waited);
    var g, k := FragmentThenTag(d, f), |pieces| - 1;
    hide Tags, BipFresh, Clean, Pieces, FirstPiece, AllPulses, BipCoded, Joined, BipAfter, FragmentThenTag, Kept,
      BipRun, BiphaseBatch, Frames, Pulses;
    if k == 0 {
      OnePiece(l, short, long, pieces);
      var r := KeptOpening(l, d, f, pieces[0], short, long);
      NoneWhileKept(r, d, f, BipAfter(g, 0, |pieces[0]|));
    } else {
      RunUnrolled(l, short, long, pieces);
      var a, b := Joined(pieces[..k]), pieces[k];
      CodedPieces(a, b, g, 0, short, long);
      BipAfterMonotone(g, 0, |a|, |a + b|);
      WhileComingIn(l, d, f, pieces[..k], waited, short, long);
      var r := KeptLater(BipRun(l, short, long, pieces[..k]).0, g, BipAfter(g, 0, |a|), b, short, long);
      NoneWhileKept(r, d, f, BipAfter(g, 0, |a + b|));
    }
  }

  lemma NoneWhileKept(r: Line, d: seq<bool>, f: seq<bool>, n: nat)
    requires Tags(d, f) && Kept(r, FragmentThenTag(d, f), n) && 2 <= n < 896
    ensures r.Valid() && Frames(r) == (r, [])
  {
    hide Tags, FragmentThenTag, BipAt, Frames;
    TagFirst(r, d, f, n);
  }

  /** Then the first half of a zero. */
  lemma ThenFragment(l: Line, d: seq<bool>, f: seq<bool>, pieces: seq<seq<Pulse>>, waited: nat, short: nat, long: nat,
      p: Pulse)
    requires Tags(d, f) && short != long && BipFresh(l) && Clean(l.ring) && l.ring.wr == 0 && Pieces(pieces, waited)
    requires BipCoded(Joined(pieces), FragmentThenTag(d, f), 0, short, long)
    requires BipAfter(FragmentThenTag(d, f), 0, |Joined(pieces)|) == 896 && p.Pulse? && p.clocks == short
    ensures l.Valid() && AllPulses(pieces + [[p]])
    ensures BipRun(l, short, long, pieces + [[p]]).1
            == [PhidgetTagRuns.TextOf(f), PhidgetTagRuns.TextOf(f), FdxBRuns.TelegramOf(d)]
  {
    FreshValid(l);
    hide Tags, BipFresh, Clean, Pieces, BipCoded, Joined, BipAfter, FragmentThenTag, BipRun, CameIn, AllPulses;
    PiecesBut(pieces, waited);
    var m := TagComesIn(l, d, f, pieces, waited, short, long);
    LastHalf(l, d, f, pieces, short, long, p, m);
  }

  lemma LastHalf(l: Line, d: seq<bool>, f: seq<bool>, pieces: seq<seq<Pulse>>, short: nat, long: nat, p: Pulse, m: Line)
    requires Tags(d, f) && short != long && l.Valid() && AllPulses(pieces) && p.Pulse? && p.clocks == short
    requires CameIn(BipRun(l, short, long, pieces), m, FragmentThenTag(d, f), f)
    ensures AllPulses(pieces + [[p]])
    ensures BipRun(l, short, long, pieces + [[p]]).1
            == [PhidgetTagRuns.TextOf(f), PhidgetTagRuns.TextOf(f), FdxBRuns.TelegramOf(d)]
  {
    assert AllPulses(pieces + [[p]]) && (pieces + [[p]])[..|pieces|] == pieces;
    assert m.Valid();
    hide Tags, FragmentThenTag, Kept, BipRun, BiphaseBatch, PhidgetTagRuns.TextOf, FdxBRuns.TelegramOf, AllPulses,
      Joined;
    HalfBatch(m, d, f, short, long, p);
    RunUnrolled(l, short, long, pieces + [[p]]);
  }

  lemma HalfBatch(m: Line, d: seq<bool>, f: seq<bool>, short: nat, long: nat, p: Pulse)
    requires Tags(d, f) && short != long && p.Pulse? && p.clocks == short && Kept(m, FragmentThenTag(d, f), 896)
    ensures var t := m.(ring := m.ring.Skip(224));
      t.Valid() && BiphaseBatch(t, short, long, [p]).1 == [PhidgetTagRuns.TextOf(f), FdxBRuns.TelegramOf(d)]
  {
    assert m.Valid();
    hide Tags, FragmentThenTag, Kept, BiphaseBatch, Frames, PhidgetTagRuns.TextOf, FdxBRuns.TelegramOf, BipStep, BipAll;
    var t := m.(ring := m.ring.Skip(224));
    FragmentReported(m, d, f, long, p);
    OneStep(t, short, long, p);
    BatchFrames(t, short, long, [p]);
  }

  /**
   * A reader just opened receives a telegram d from its header's one on, other bits, and the frame f of a PhidgetTAG
   * tag, with which a packet ends; then the first half of a zero in a packet of its own. The tag is reported twice,
   * and then the telegram, out of the slots read before and slots never written.
   */
  lemma OldTelegramReported(s: Rx, d: seq<bool>, f: seq<bool>, ps: seq<Pulse>, short: nat, long: nat,
      packets: seq<seq<nat>>, byte: nat)
    requires Tags(d, f) && Clocks(short, long) && AfterReset(s) && Unwritten(s.bip.ring) && Packets(packets)
    requires Jittered(Received(packets), ps) && BipCoded(ps, FragmentThenTag(d, f), 0, short, long)
    requires BipAfter(FragmentThenTag(d, f), 0, |ps|) == 896
    requires byte < 256 && Quantize(byte).Pulse? && Quantize(byte).clocks == short
    ensures Packets(packets + [[byte]])
    ensures Of(false, Run(s, packets + [[byte]]).1)
            == [PhidgetTagRuns.TextOf(f), PhidgetTagRuns.TextOf(f), FdxBRuns.TelegramOf(d)]
  {
    var g, p := FragmentThenTag(d, f), Quantize(byte);
    assert Clean(s.bip.ring) && s.bip.ring.wr == 0;
    assert 2 * |ps| >= 896;
    OpensAtOnce(d, f);
    hide Tags, Unwritten, Run, Of, Quantize, FragmentThenTag, MixedBy, Reached, Packets, Clean, TwoLengths, Pieces,
      AllPulses, ManRun, BipRun, Joined, ManFresh, BipFresh, Jittered, Received, BipCoded, BipAfter;
    CodedTwoLengths(ps, g, 0, short, long);
    MixedSoon(ps, d, f, short, long);
    var pieces, waited := RunInPieces(s, packets, ps, short, long, 224);
    LastPulse(s, packets, ps, short, long, 224, pieces, waited, byte);
    var (t, found) := Run(s, packets);
    Sides(s, t, found, ps, short, long, pieces, waited);
    var (u, all) := Run(s, packets + [[byte]]);
    Sides(s, u, all, ps + [p], short, long, pieces + [[p]], waited);
    ResetFresh(s);
    ThenFragment(s.bip, d, f, pieces, waited, short, long, p);
  }
}
