/** Faults of the frame decoders, as runs of the reader: tags that were never there, and one that is found late. */
module FalseReports {
  import opened Modulo
  import opened Rings
  import opened LineCode
  import opened LineCodeSync
  import opened Receiver
  import opened EndToEnd
  import opened PulseRuns
  import opened BiphaseRuns
  import opened PhidgetTagRuns
  import Crc
  import FdxB
  import PhidgetTag
  import PhidgetTagSync

  // ----- the register that is not cleared

  /** A CRC bit of a PhidgetTAG frame. */
  predicate CrcPlace(d: nat) { 14 <= d < 22 || 23 <= d < 31 }

  /** Bit j of a repetition of f, in the first copy of which bit d was received as a one. */
  function Spoiled(f: seq<bool>, d: nat, j: nat): bool
    requires |f| > 0
  {
    j == d || Bit(f, j)
  }

  /** A one, then a frame with one CRC bit wrong, then the frame over and over. */
  function SpoiledStream(f: seq<bool>, d: nat, m: nat): (g: seq<bool>)
    requires |f| > 0
    ensures |g| == m + 1
  {
    seq(m + 1, i requires 0 <= i => if i == 0 then true else Spoiled(f, d, i - 1))
  }

  /** From entry o on, a holds the bits of that stream from bit j on. */
  predicate Spoils(a: seq<bool>, n: nat, o: nat, f: seq<bool>, d: nat, j: nat)
    requires |f| > 0
  {
    n <= |a| && forall i :: o <= i < n ==> a[i] == Spoiled(f, d, i - o + j)
  }

  lemma PlaceOf(f: seq<bool>, j: nat, k: nat)
    requires |f| == 224 && j % 224 + k < 224
    ensures Bit(f, j + k) == f[j % 224 + k]
  {
    var q, r := Divided(j, 224);
    ModuloUnique(q, j + k, r + k, 224);
  }

  /** A header stands only where a copy of the frame begins. */
  lemma NoOtherHeader(a: seq<bool>, n: nat, o: nat, f: seq<bool>, d: nat, j: nat, i: nat)
    requires PhidgetTag.Frame(f) && |f| == 224 && Spoils(a, n, o, f, d, j) && o <= i && i + 224 <= n
    requires (i - o + j) % 224 != 0
    ensures !PhidgetTag.Header(a, i)
  {
    hide Bit;
    var p := (i - o + j) % 224;
    var c := PhidgetTagSync.NextOne(f, p);
    PlaceOf(f, i - o + j, c - p);
    assert a[i + (c - p)] == Spoiled(f, d, (i + (c - p)) - o + j);
  }

  lemma NoOtherTelegram(a: seq<bool>, n: nat, o: nat, f: seq<bool>, d: nat, j: nat, i: nat)
    requires PhidgetTag.Frame(f) && |f| == 224 && Spoils(a, n, o, f, d, j) && o <= i && i + 128 <= n && CrcPlace(d)
    requires (i - o + j) % 224 != 3
    ensures !FdxB.Header(a, i)
  {
    HeaderBits(f);
    hide Bit;
    var t := i - o + j;
    var p := t % 224;
    if p < 3 {
      PlaceOf(f, t, 10);
      assert a[i + 10] == Spoiled(f, d, (i + 10) - o + j);
    } else {
      var c := OneNear(f, p);
      PlaceOf(f, t, c - p);
      assert a[i + (c - p)] == Spoiled(f, d, (i + (c - p)) - o + j);
    }
  }

  lemma CopyAtPlace(a: seq<bool>, n: nat, o: nat, f: seq<bool>, d: nat, j: nat, i: nat)
    requires |f| == 224 && CrcPlace(d) && Spoils(a, n, o, f, d, j) && o <= i && i + 224 <= n
    requires (i - o + j) % 224 == 0
    ensures a[i..i + 224] == if i - o + j == 0 then f[d := true] else f
  {
    hide Bit;
    var t := i - o + j;
    var w := if t == 0 then f[d := true] else f;
    forall k | 0 <= k < 224 ensures a[i..i + 224][k] == w[k] {
      PlaceOf(f, t, k);
      assert a[i + k] == Spoiled(f, d, (i + k) - o + j);
    }
  }

  lemma TelegramAtPlace(a: seq<bool>, n: nat, o: nat, f: seq<bool>, d: nat, j: nat, i: nat)
    requires |f| == 224 && CrcPlace(d) && Spoils(a, n, o, f, d, j) && o <= i && i + 128 <= n
    requires (i - o + j) % 224 == 3
    ensures a[i..i + 128] == if i - o + j == 3 then f[d := true][3..131] else f[3..131]
  {
    hide Bit;
    var t := i - o + j;
    var w := if t == 3 then f[d := true] else f;
    forall k | 0 <= k < 128 ensures a[i..i + 128][k] == w[3..131][k] {
      PlaceOf(f, t, k);
      assert a[i + k] == Spoiled(f, d, (i + k) - o + j);
    }
  }

  lemma {:induction false} NoTelegramThere(a: seq<bool>, n: nat, o: nat, f: seq<bool>, d: nat, j: nat, i: nat)
    requires PhidgetTag.Frame(f) && |f| == 224 && CrcPlace(d) && Quiet(f) && Quiet(f[d := true])
    requires Spoils(a, n, o, f, d, j) && o <= i
    ensures FdxB.Search(a, n, i) == None
    decreases n - i
  {
    hide PhidgetTag.Frame, FdxB.Header, FdxB.Body, Spoils;
    assert n <= |a| by { SpoilsFits(a, n, o, f, d, j); }
    if i + 128 <= n {
      if (i - o + j) % 224 == 3 {
        TelegramAtPlace(a, n, o, f, d, j, i);
      } else {
        NoOtherTelegram(a, n, o, f, d, j, i);
      }
      NoTelegramThere(a, n, o, f, d, j, i + 1);
      NoTelegramThere(a, n, o, f, d, j, i + 12);
    }
  }

  lemma SpoilsFits(a: seq<bool>, n: nat, o: nat, f: seq<bool>, d: nat, j: nat)
    requires |f| > 0 && Spoils(a, n, o, f, d, j)
    ensures n <= |a|
  {
  }

  /** The spoiled copy fails, and the bit it leaves over is not one of the frame's own CRC. */
  lemma SpoiledFails(f: seq<bool>, d: nat)
    requires PhidgetTag.Frame(f) && |f| == 224 && CrcPlace(d) && !f[d]
    ensures PhidgetTag.Header(f[d := true], 0) && !PhidgetTag.Body(Crc.Zero, f[d := true])
    ensures !PhidgetTagSync.Within(PhidgetTag.Accumulate(Crc.Zero, f[d := true]), f)
  {
    hide Crc.UpdateAll;
    var w := f[d := true];
    var k := if d < 22 then 29 - d else 30 - d;
    assert PhidgetTag.Stored(w)[k] && !PhidgetTag.Stored(f)[k];
    assert PhidgetTag.Accumulate(Crc.Zero, w)[k];
    forall c | 0 <= c < 24 ensures PhidgetTag.CharBytes(w)[c] == PhidgetTag.CharBytes(f)[c] {}
    assert PhidgetTag.CharBytes(w) == PhidgetTag.CharBytes(f);
  }

  /** With such a bit left over no copy is found. */
  lemma {:induction false} NothingFrom(a: seq<bool>, n: nat, o: nat, f: seq<bool>, d: nat, j: nat, i: nat,
      left: Crc.Register)
    requires PhidgetTag.Frame(f) && |f| == 224 && CrcPlace(d) && Spoils(a, n, o, f, d, j) && o <= i && i - o + j > 0
    requires !PhidgetTagSync.Within(left, f)
    ensures n <= |a| && PhidgetTag.Search(a, n, i, left) == None
    decreases n - i
  {
    SpoilsFits(a, n, o, f, d, j);
    hide PhidgetTag.Frame, PhidgetTag.Header, PhidgetTag.Body, PhidgetTag.Accumulate, PhidgetTag.Search, Spoils,
      PhidgetTagSync.Within;
    if i + 224 > n {
      PhidgetTagSync.SearchEnds(a, n, i, left);
    } else {
      PhidgetTagSync.SearchStep(a, n, i, left);
      if (i - o + j) % 224 == 0 {
        CopyAtPlace(a, n, o, f, d, j, i);
        PhidgetTagSync.RetryAcceptsIff(left, f);
        NothingFrom(a, n, o, f, d, j, i + 15, PhidgetTag.Accumulate(left, f));
      } else {
        NoOtherHeader(a, n, o, f, d, j, i);
      }
      NothingFrom(a, n, o, f, d, j, i + 1, left);
    }
  }

  /** As long as the spoiled copy is queued, nothing is found from there on. */
  lemma HiddenBehind(a: seq<bool>, n: nat, o: nat, f: seq<bool>, d: nat)
    requires PhidgetTag.Frame(f) && |f| == 224 && CrcPlace(d) && !f[d] && Spoils(a, n, o, f, d, 0)
    ensures n <= |a| && PhidgetTag.Search(a, n, o, Crc.Zero) == None
  {
    SpoilsFits(a, n, o, f, d, 0);
    SpoiledFails(f, d);
    hide PhidgetTag.Frame, PhidgetTag.Body, PhidgetTag.Accumulate, PhidgetTag.Search, Spoils, PhidgetTagSync.Within;
    if o + 224 > n {
      PhidgetTagSync.SearchEnds(a, n, o, Crc.Zero);
    } else {
      var w := f[d := true];
      PhidgetTagSync.SearchStep(a, n, o, Crc.Zero);
      CopyAtPlace(a, n, o, f, d, 0, o);
      assert a[o..o + 224][13] == a[o + 13];
      assert PhidgetTag.Header(a, o) by {
        forall k | 0 <= k < 14 ensures a[o + k] == w[k] { assert a[o..o + 224][k] == a[o + k]; }
      }
      NothingFrom(a, n, o, f, d, 0, o + 15, PhidgetTag.Accumulate(Crc.Zero, w));
    }
  }

  lemma HeaderOfCopy(a: seq<bool>, p: nat, f: seq<bool>)
    requires PhidgetTag.Frame(f) && |f| == 224 && p + 224 <= |a| && a[p..p + 224] == f
    ensures PhidgetTag.Header(a, p)
  {
    HeaderBits(f);
    forall k | 0 <= k < 14 ensures a[p + k] == f[k] { assert a[p..p + 224][k] == a[p + k]; }
  }

  /** Without the first bit of the spoiled copy the next copy is found. */
  lemma FoundBehind(a: seq<bool>, n: nat, f: seq<bool>, d: nat, j: nat)
    requires PhidgetTag.Frame(f) && |f| == 224 && CrcPlace(d) && Spoils(a, n, 0, f, d, j) && 0 < j < 224
    requires 448 - j <= n
    ensures n <= |a| && PhidgetTag.Search(a, n, 0, Crc.Zero) == Some(224 - j) && a[224 - j..448 - j] == f
  {
    SpoilsFits(a, n, 0, f, d, j);
    var p := 224 - j;
    hide PhidgetTag.Header, PhidgetTag.Body, PhidgetTag.Accumulate, PhidgetTag.Search, Spoils, PhidgetTag.Frame;
    CopyAtPlace(a, n, 0, f, d, j, p);
    HeaderOfCopy(a, p, f);
    forall i | 0 <= i < p ensures !PhidgetTag.Header(a, i) { NoOtherHeader(a, n, 0, f, d, j, i); }
    PhidgetTagSync.NoHeaderNoStop(a, n, 0, p, Crc.Zero);
    PhidgetTagSync.FrameAccepted(f);
    PhidgetTagSync.SearchStep(a, n, p, Crc.Zero);
  }

  // ----- the run

  /** What is queued of that stream. */
  lemma SpoilsQueue(r: Ring<bool>, f: seq<bool>, d: nat, m: nat, n: nat)
    requires |f| > 0 && r.Valid() && Since(r, SpoiledStream(f, d, m), n, 0) && 0 < n <= m
    ensures n <= 1023 ==> r.Len() == n && r.All()[0] && Spoils(r.All(), n, 1, f, d, 0)
    ensures n > 1023 ==> r.Len() == 1023 && Spoils(r.All(), 1023, 0, f, d, n - 1024)
  {
    hide Spoiled;
    var g, a, k, h := SpoiledStream(f, d, m), r.All(), r.Len(), n - r.Len();
    assert r.Queue() == a[..k];
    forall i | 0 <= i < k ensures a[i] == if h + i == 0 then true else Spoiled(f, d, h + i - 1) {
      assert a[..k][i] == Cyclic(g, h, k)[i];
      ModuloUnique(0, h + i, h + i, m + 1);
    }
  }

  lemma SpoiledFrames(l: Line, f: seq<bool>, d: nat, m: nat, n: nat)
    requires PhidgetTag.Frame(f) && |f| == 224 && CrcPlace(d) && !f[d] && Quiet(f) && Quiet(f[d := true]) && m >= 1087
    requires l.Valid() && BipAt(l, SpoiledStream(f, d, m), n, 0) && 0 < n / 2 < 1088
    ensures if n / 2 < 1025 then Frames(l) == (l, []) else Frames(l).1 != [] && Frames(l).1[0] == TextOf(f)
  {
    hide PhidgetTag.Frame, Since, Quiet, Spoils, SpoiledStream, PhidgetTag.Search, FdxB.Search, PhidgetTag.TagText,
      FdxB.TelegramText, PhidgetTag.Header, FdxB.Header;
    var c, a, k := n / 2, l.ring.All(), l.ring.Len();
    SpoilsQueue(l.ring, f, d, m, c);
    if c <= 1023 {
      HiddenBehind(a, k, 1, f, d);
      NoTelegramThere(a, k, 1, f, d, 0, 1);
      AfterOne(a, k);
      NoFrames(l);
    } else if c == 1024 {
      HiddenBehind(a, k, 0, f, d);
      NoTelegramThere(a, k, 0, f, d, 0, 0);
      NoFrames(l);
    } else {
      FoundBehind(a, k, f, d, c - 1024);
    }
  }

  /** A one at the front is no header. */
  lemma AfterOne(a: seq<bool>, n: nat)
    requires 0 < n <= |a| && a[0]
    ensures PhidgetTag.Search(a, n, 0, Crc.Zero) == PhidgetTag.Search(a, n, 1, Crc.Zero)
    ensures FdxB.Search(a, n, 0) == FdxB.Search(a, n, 1)
  {
    hide PhidgetTag.Body, FdxB.Body, PhidgetTag.Accumulate;
  }

  lemma SpoiledExpected(f: seq<bool>, d: nat, m: nat)
    requires PhidgetTag.Frame(f) && |f| == 224 && CrcPlace(d) && !f[d] && Quiet(f) && Quiet(f[d := true]) && m >= 1087
    ensures Expected(SpoiledStream(f, d, m), 0, 1025, TextOf(f))
  {
    hide PhidgetTag.Frame, BipAt, Quiet, Frames, TextOf, SpoiledStream;
    var g := SpoiledStream(f, d, m);
    forall l: Line, n: nat | l.Valid() && BipAt(l, g, n, 0) && 0 < n / 2 < 1025 + 63
      ensures if n / 2 < 1025 then Frames(l) == (l, []) else Frames(l).1 != [] && Frames(l).1[0] == TextOf(f)
    {
      SpoiledFrames(l, f, d, m, n);
    }
  }

  /** A stream that begins with a one and a zero. */
  lemma OneZero(g: seq<bool>, ps: seq<Pulse>, short: nat, long: nat)
    requires |g| > 1 && g[0] && !g[1] && short != long && BipCoded(ps, g, 0, short, long)
    ensures MixedBy(ps, 1) && OpensAt(g, 0, 0) && FirstCell(g, 0, 0) == 0 && !Bit(g, 1)
  {
    ModuloUnique(0, 0, 0, |g|);
    ModuloUnique(0, 1, 1, |g|);
    assert BipAfter(g, 0, 0) == 0 && BipAfter(g, 0, 1) == 2;
    hide Bit;
    if |ps| > 1 { assert ps[..2][0].clocks == long && ps[..2][1].clocks == short; }
  }

  /**
   * One CRC bit of one copy received as a one, and no later copy of the tag is found until the queue of 1023 bits
   * overflows: the first report, of the tag itself, is made just when 1025 bits have come, the one in front included.
   */
  lemma OneBitHidesTheTag(s: Rx, f: seq<bool>, d: nat, m: nat, ps: seq<Pulse>, short: nat, long: nat,
      packets: seq<seq<nat>>)
    requires PhidgetTag.Frame(f) && |f| == 224 && CrcPlace(d) && !f[d] && Quiet(f) && Quiet(f[d := true]) && m >= 1087
    requires Clocks(short, long) && AfterReset(s) && Packets(packets)
    requires Jittered(Received(packets), ps) && BipCoded(ps, SpoiledStream(f, d, m), 0, short, long)
    ensures var found := Of(false, Run(s, packets).1);
      && (found == [] <==> BipAfter(SpoiledStream(f, d, m), 0, |ps|) / 2 < 1025)
      && (found != [] ==> found[0] == TextOf(f))
  {
    var g := SpoiledStream(f, d, m);
    assert g[0] && !g[1] by { HeaderBits(f); ModuloUnique(0, 0, 0, 224); }
    hide PhidgetTag.Frame, Run, BipCoded, Jittered, Of, Quiet, BipAfter, BipLong, OpensAt, MixedBy, AllPulses,
      FirstCell, Pieces, Reached, BipRun, ManRun, Packets, BipFresh, Joined, Received, TextOf, Expected,
      SpoiledStream, Bit;
    OneZero(g, ps, short, long);
    var pieces, waited, j := RunOpens(s, g, 0, ps, short, long, packets, 1);
    var (t, found) := Run(s, packets);
    Sides(s, t, found, ps, short, long, pieces, waited);
    if pieces != [] {
      ResetFresh(s);
      PiecesBut(pieces, waited);
      SameOpening(g, 0, 0, j);
      FirstPieceShort(pieces[0], waited, g, 0, short, long, 0, 1);
      SpoiledExpected(f, d, m);
      FirstReport(s.bip, g, 0, pieces, waited, short, long, 0, 1025, TextOf(f));
    } else {
      assert BipAfter(g, 0, |ps|) <= 2 * |ps|;
    }
  }

  lemma SameOpening(g: seq<bool>, e: nat, i: nat, j: nat)
    requires |g| > 0 && OpensAt(g, e, i) && OpensAt(g, e, j)
    ensures i == j
  {
    hide BipLong, BipAfter;
  }

  // ----- a tag that comes after anything else

  lemma TailIsCyclic(x: seq<bool>, f: seq<bool>, m: nat, p: nat, k: nat)
    requires |f| > 0 && |x| <= p && p + k <= |x| + m && |x| + m > 0
    ensures Cyclic(x + Cyclic(f, 0, m), p, k) == Cyclic(f, p - |x|, k)
  {
    var g := x + Cyclic(f, 0, m);
    forall i | 0 <= i < k ensures Cyclic(g, p, k)[i] == Cyclic(f, p - |x|, k)[i] {
      ModuloUnique(0, p + i, p + i, |g|);
      assert g[p + i] == Cyclic(f, 0, m)[p + i - |x|];
    }
  }

  lemma OpensBy(g: seq<bool>, e: nat, j: nat, c: nat)
    requires |g| > 0 && OpensAt(g, e, j) && Bit(g, c) && e <= 2 * c
    ensures FirstCell(g, e, j) <= c
  {
    hide BipAfter, Bit;
    var i := EvenBegins(g, e, 2 * c);
    BipAfterMonotone(g, e, j, i);
  }

  lemma FrameQueued(t: Line, x: seq<bool>, f: seq<bool>, m: nat, n: nat, c: nat)
    requires PhidgetTag.Frame(f) && |f| == 224 && c <= |x| + 13 && |x| + 1036 <= n / 2 <= |x| + m
    ensures !LookedInVain(t, x + Cyclic(f, 0, m), n, c)
  {
    hide PhidgetTag.Frame, Cyclic, PhidgetTag.Locate, FindFdx, PhidgetTag.TagText;
    var g := x + Cyclic(f, 0, m);
    if LookedInVain(t, g, n, c) {
      var h := n / 2 - 1023;
      TailIsCyclic(x, f, m, h, 1023);
      assert t.ring.Len() == 1023;
      PhidgetTagSync.DecodeRepeatedFrame(f, h - |x|, t.ring);
      assert false;
    }
  }

  /** Whatever was received before, by the time 1036 bits of a repeated tag have come something has been reported. */
  lemma FoundAtTheLatest(s: Rx, x: seq<bool>, f: seq<bool>, m: nat, e: nat, ps: seq<Pulse>, short: nat, long: nat,
      packets: seq<seq<nat>>)
    requires PhidgetTag.Frame(f) && |f| == 224 && m > 1036 && e <= 2 * |x| && MixedBy(ps, 900)
    requires Clocks(short, long) && AfterReset(s) && Packets(packets)
    requires Jittered(Received(packets), ps) && BipCoded(ps, x + Cyclic(f, 0, m), e, short, long)
    requires |x| + 1036 <= BipAfter(x + Cyclic(f, 0, m), e, |ps|) / 2 <= |x| + m
    ensures Of(false, Run(s, packets).1) != []
  {
    var g := x + Cyclic(f, 0, m);
    assert Bit(g, |x| + 13) by {
      HeaderBits(f);
      ModuloUnique(0, |x| + 13, |x| + 13, |g|);
      assert g[|x| + 13] == Cyclic(f, 0, m)[13] == f[13];
    }
    assert BipAfter(g, e, |ps|) <= e + 2 * |ps|;
    hide PhidgetTag.Frame, Run, BipCoded, Jittered, Of, BipAfter, BipLong, OpensAt, MixedBy, AllPulses, FirstCell,
      Pieces, Reached, BipRun, ManRun, Packets, BipFresh, Joined, Received, Bit, Cyclic, LookedInVain;
    var pieces, waited, j := RunOpens(s, g, e, ps, short, long, packets, 900);
    var (t, found) := Run(s, packets);
    Sides(s, t, found, ps, short, long, pieces, waited);
    if pieces != [] {
      ResetFresh(s);
      OpensBy(g, e, j, |x| + 13);
      NothingYet(s.bip, g, e, pieces, waited, short, long, j);
      FrameQueued(BipRun(s.bip, short, long, pieces).0, x, f, m, BipAfter(g, e, |ps|), FirstCell(g, e, j));
    }
  }
}
