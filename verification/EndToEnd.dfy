/** A whole run of the reader over a repeated EM4100 frame: from pulse lengths in packets to reports. */
module EndToEnd {
  import opened Modulo
  import opened Rings
  import opened LineCode
  import opened LineCodeSync
  import opened Receiver
  import opened Words
  import opened Blocks
  import opened CStrings
  import opened Reader
  import Em4100
  import Em4100Sync
  import Em4100Encode
  import FdxB
  import PhidgetTag
  import Crc

  // ----- a stream of period 64 holds no frame of the biphase formats

  lemma Period(g: seq<bool>, phase: nat, n: nat, i: nat)
    requires |g| == 64 && i + 64 < n
    ensures Cyclic(g, phase, n)[i + 64] == Cyclic(g, phase, n)[i]
  {
  }

  /** A control bit of FDX-B falls on a header zero one period earlier. */
  lemma {:induction false} NoFdxB(g: seq<bool>, phase: nat, a: seq<bool>, n: nat, o: nat)
    requires |g| == 64 && n <= |a| && a[..n] == Cyclic(g, phase, n)
    ensures FdxB.Search(a, n, o) == None
    decreases n - o
  {
    hide Cyclic;
    if o + 128 <= n {
      NoFdxB(g, phase, a, n, o + 1);
      if FdxB.Header(a, o) {
        Period(g, phase, n, o);
        assert a[o + 64] == a[..n][o + 64] && a[o] == a[..n][o];
        assert a[o..o + 128][19 + 9 * 5] == a[o + 64];
        assert !FdxB.Body(a[o..o + 128]);
        NoFdxB(g, phase, a, n, o + 12);
      }
    }
  }

  /** A control bit of PhidgetTAG falls on a header zero one period earlier. */
  lemma {:induction false} NoPhidgetTag(g: seq<bool>, phase: nat, a: seq<bool>, n: nat, o: nat, crcRead: Crc.Register)
    requires |g| == 64 && n <= |a| && a[..n] == Cyclic(g, phase, n)
    ensures PhidgetTag.Search(a, n, o, crcRead) == None
    decreases n - o
  {
    hide Cyclic, PhidgetTag.Accumulate;
    if o + 224 <= n {
      NoPhidgetTag(g, phase, a, n, o + 1, crcRead);
      if PhidgetTag.Header(a, o) {
        Period(g, phase, n, o + 7);
        assert a[o + 71] == a[..n][o + 71] && a[o + 7] == a[..n][o + 7];
        assert a[o..o + 224][39 + 8 * 4] == a[o + 71];
        assert !PhidgetTag.Body(crcRead, a[o..o + 224]);
        NoPhidgetTag(g, phase, a, n, o + 15, PhidgetTag.Accumulate(crcRead, a[o..o + 224]));
      }
    }
  }

  // ----- pulses in pieces

  lemma {:induction false} AfterSplit(f: seq<bool>, h: nat, k: nat, m: nat)
    requires |f| > 0
    ensures After(f, h, k + m) == After(f, After(f, h, k), m)
  {
    if m > 0 { AfterSplit(f, h, k, m - 1); }
  }

  lemma {:induction false} PulsesSplit(f: seq<bool>, h: nat, k: nat, m: nat, short: nat, long: nat)
    requires |f| > 0
    ensures ManPulses(f, h, k + m, short, long)
            == ManPulses(f, h, k, short, long) + ManPulses(f, After(f, h, k), m, short, long)
  {
    hide Long, Level, After, Pulses;
    if m > 0 {
      PulsesSplit(f, h, k, m - 1, short, long);
      AfterSplit(f, h, k, m - 1);
      var a, b := ManPulses(f, h, k, short, long), ManPulses(f, After(f, h, k), m - 1, short, long);
      var p := ManPulse(f, After(f, h, k + m - 1), short, long);
      assert a + b + [p] == a + (b + [p]);
    }
  }

  lemma {:induction false} PulseAt(f: seq<bool>, h: nat, k: nat, short: nat, long: nat, i: nat)
    requires |f| > 0 && i < k
    ensures ManPulses(f, h, k, short, long)[i] == ManPulse(f, After(f, h, i), short, long)
  {
    if i < k - 1 { PulseAt(f, h, k - 1, short, long, i); }
  }

  /** Every odd half-bit begins a pulse: long pulses begin on odd half-bits and skip only even ones. */
  lemma {:induction false} OddBegins(f: seq<bool>, h: nat, t: nat) returns (j: nat)
    requires |f| > 0 && t % 2 == 1 && h <= t
    ensures j <= t - h && After(f, h, j) == t
    decreases t - h
  {
    if t == h { return 0; }
    var i := OddBegins(f, Next(f, h), t);
    AfterSplit(f, h, 1, i);
    assert After(f, h, 1) == Next(f, h);
    return i + 1;
  }

  /** A frame sends a long pulse into its first bit and a short one after that. */
  lemma FrameHalfBits(f: seq<bool>, t: nat)
    requires Em4100.Frame(f)
    ensures t % 128 == 127 ==> Long(f, t)
    ensures t % 128 == 1 ==> !Long(f, t)
  {
    hide Em4100.RowOk, Em4100.ColumnOk;
    assert f[0] && f[1] && !f[63] by { assert Em4100.Header(f, 0) && Em4100.Body(f); }
    hide Em4100.Frame;
    var q := t / 128;
    if t % 128 == 127 {
      BitInPeriod(f, t / 2, q, 63);
      BitInPeriod(f, t / 2 + 1, q + 1, 0);
    } else if t % 128 == 1 {
      BitInPeriod(f, t / 2, q, 0);
      BitInPeriod(f, t / 2 + 1, q, 1);
    }
  }

  lemma BitInPeriod(f: seq<bool>, i: nat, q: nat, r: nat)
    requires |f| == 64 && r < 64 && i == 64 * q + r
    ensures Bit(f, i) == f[r]
  {
  }

  /** The next half-bit at a given place in its frame. */
  lemma NextPlace(h: nat, place: nat) returns (t: nat)
    requires place < 128
    ensures h <= t <= h + 127 && t % 128 == place && t % 2 == place % 2
  {
    var q, now := Divided(h, 128);
    var p := if now <= place then q else q + 1;
    t := 128 * p + place;
    ModuloUnique(p, t, place, 128);
    ModuloUnique(64 * p + place / 2, t, place % 2, 2);
  }

  lemma FirstLong(f: seq<bool>, h: nat) returns (j: nat)
    requires Em4100.Frame(f)
    ensures j <= 127 && Long(f, After(f, h, j)) && After(f, h, j) <= h + 127
  {
    assert |f| == 64 by { FrameLength(f); }
    hide Em4100.Frame, Long, After;
    var t := NextPlace(h, 127);
    FrameHalfBits(f, t);
    j := OddBegins(f, h, t);
  }

  lemma FirstShort(f: seq<bool>, h: nat) returns (j: nat)
    requires Em4100.Frame(f)
    ensures j <= 127 && !Long(f, After(f, h, j))
  {
    assert |f| == 64 by { FrameLength(f); }
    hide Em4100.Frame, Long, After;
    var t := NextPlace(h, 1);
    FrameHalfBits(f, t);
    j := OddBegins(f, h, t);
  }

  // ----- scanning for the two clock lengths

  predicate Clocks(short: nat, long: nat) { 0 < short && long == 2 * short }

  predicate TwoLengths(ps: seq<Pulse>, short: nat, long: nat) {
    Pulses(ps) && forall i :: 0 <= i < |ps| ==> ps[i].clocks == short || ps[i].clocks == long
  }

  /** One or both of two lengths have been seen, in either order. */
  predicate Known(a: nat, b: nat, short: nat, long: nat) {
    (a == 0 && b == 0) || (a == short && (b == 0 || b == long)) || (a == long && (b == 0 || b == short))
  }

  /** A scan over pulses of two lengths never fails; it knows both lengths once it has seen both. */
  lemma {:induction false} ScanTwoLengths(ps: seq<Pulse>, a: nat, b: nat, i: nat, short: nat, long: nat)
    requires Clocks(short, long) && TwoLengths(ps, short, long) && Known(a, b, short, long) && i <= |ps|
    ensures var r := Scan(ps, a, b, i);
      && !r.bad && r.n == |ps| && Known(r.short, r.long, short, long)
      && (r.short == 0 ==> a == 0 && i == |ps|)
      && (a != 0 ==> r.short == a) && (b != 0 ==> r.long == b)
      && (r.long == 0 ==> forall j :: i <= j < |ps| ==> ps[j].clocks == r.short)
      && (b == 0 && a != long && r.long != 0 ==> exists j :: i <= j < |ps| && ps[j].clocks == long)
    decreases |ps| - i
  {
    if i < |ps| {
      var c := ps[i].clocks;
      assert ps[i].Pulse?;
      if a == 0 {
        ScanTwoLengths(ps, c, b, i + 1, short, long);
      } else if c != a && b == 0 {
        ScanTwoLengths(ps, a, c, i + 1, short, long);
      } else {
        ScanTwoLengths(ps, a, b, i + 1, short, long);
      }
    }
  }

  /** analyze_data on pulses of two lengths without a gap: wait for the second length, or one batch. */
  lemma AnalyzeFits(s: Rx, short: nat, long: nat)
    requires s.Valid() && Clocks(short, long) && TwoLengths(s.pulses, short, long)
    requires Known(s.short, s.long, short, long) && s.pulses != []
    ensures var r := Scan(s.pulses, s.short, s.long, 0);
      Analyze(s) == if r.long == 0 then (s.(short := r.short, long := r.long), [])
                    else Batch(s.(short := short, long := long, pulses := []), s.pulses)
  {
    hide Scan, Batch;
    ScanTwoLengths(s.pulses, s.short, s.long, 0, short, long);
    var r := Scan(s.pulses, s.short, s.long, 0);
    assert s.pulses[0].Pulse?;
    if r.long != 0 {
      assert s.pulses[..r.n] == s.pulses && s.pulses[r.n..] == [];
      assert Ordered(s, r).(pulses := []) == s.(short := short, long := long, pulses := []);
    }
  }

  // ----- the frame decoders on a stream that is in step

  lemma FrameLength(f: seq<bool>)
    requires Em4100.Frame(f)
    ensures |f| == 64
  {
  }

  function TagOf(f: seq<bool>): Report
    requires |f| == 64
  {
    Tag(EM4100, Em4100Encode.TagText(Em4100.Payload(f)))
  }

  lemma FindEmResult(l: Line, f: seq<bool>)
    requires |f| == 64 && l.Valid()
    requires var o := Em4100.Locate(l.ring);
      o.Some? ==> o.value + 64 <= SIZE && l.ring.All()[o.value..o.value + 64] == f
    ensures FindEm(l) == if Em4100.Locate(l.ring).Some? then (l.(ring := l.ring.Skip(64)), [TagOf(f)]) else (l, [])
  {
    hide Em4100.Locate, Em4100.Payload, Em4100Encode.TagText;
  }

  lemma HoldsValid(l: Line, f: seq<bool>, n: nat, b: nat)
    requires |f| > 0 && ManSynced(l, f, n, b)
    ensures l.Valid() && Holds(l.ring, f, (n + 1) / 2, b)
  {
    hide Cyclic;
  }

  lemma Relined(l: Line, f: seq<bool>, n: nat, b: nat, r: Ring<bool>, c: nat)
    requires |f| > 0 && ManSynced(l, f, n, b) && Holds(r, f, (n + 1) / 2, c)
    ensures ManSynced(l.(ring := r), f, n, c)
  {
    hide Holds;
  }

  /** decodeEM4100 reports the tag or nothing, and leaves the decoder in step. */
  lemma FindsOnlyTheTag(l: Line, f: seq<bool>, n: nat, b: nat)
    requires Em4100.Frame(f) && ManSynced(l, f, n, b) && l.Valid() && l.ring.Len() > 0
    ensures var (r, found) := FindEm(l);
      && ManSynced(r, f, n, (n + 1) / 2) && (r.ring.Len() == 0 ==> (n + 1) / 2 % 64 == 0)
      && if found == [] then r == l && l.ring.Len() < 127 else found == [TagOf(f)]
  {
    assert |f| == 64 by { FrameLength(f); }
    hide Em4100.Frame, Em4100.Locate, Holds, FindEm, ManSynced, TagOf;
    HoldsValid(l, f, n, b);
    LocatesTheFrame(l.ring, f, (n + 1) / 2, b);
    FindEmResult(l, f);
    if Em4100.Locate(l.ring).Some? {
      HoldsSkip(l.ring, f, (n + 1) / 2, b, 64);
      l.ring.SkipQueue(64);
      assert l.ring.Skip(64).Len() == |l.ring.Skip(64).Queue()| == l.ring.Len() - 64;
      Relined(l, f, n, b, l.ring.Skip(64), (n + 1) / 2);
    } else {
      HoldsNow(l.ring, f, (n + 1) / 2, b);
      Relined(l, f, n, b, l.ring, (n + 1) / 2);
    }
  }

  lemma LocatesTheFrame(r: Ring<bool>, f: seq<bool>, n: nat, b: nat)
    requires Em4100.Frame(f) && Holds(r, f, n, b) && r.Len() > 0
    ensures var o := Em4100.Locate(r);
      && (o.Some? ==> r.Len() >= 64 && o.value + 64 <= SIZE && r.All()[o.value..o.value + 64] == f)
      && (o.Some? && r.Len() == 64 ==> n % 64 == 0)
      && (r.Len() >= 127 ==> o.Some?)
  {
    hide Em4100.Frame, Cyclic, Em4100.Locate;
    Em4100Sync.DecodeRepeatedFrame(f, n - r.Len(), r);
    var o := Em4100.Locate(r);
    if o.Some? && r.Len() == 64 {
      AddMultiple(n - 64, 64);
      assert (n - 64 + o.value) % 64 == 0;
    }
  }

  lemma AddMultiple(a: nat, m: nat)
    requires m > 0
    ensures (a + m) % m == a % m
  {
    ShiftModulo(a + m, m);
  }

  /** The biphase formats are never found in it. */
  lemma FindsNothingElse(l: Line, g: seq<bool>, e: nat, b: nat)
    requires |g| == 64 && BipSynced(l, g, e, b) && l.ring.Len() > 0
    ensures FindPhidget(l) == (l, []) && FindFdx(l) == (l, [])
  {
    hide Cyclic;
    var n := l.ring.Len();
    NoFdxB(g, e / 2 - n, l.ring.All(), n, 0);
    NoPhidgetTag(g, e / 2 - n, l.ring.All(), n, 0, Crc.Zero);
  }

  /** A pulse begins at half-bit n and one ended there. */
  predicate Begins(f: seq<bool>, n: nat)
    requires |f| > 0
  {
    n > 0 && !Long(f, n - 1)
  }

  lemma AfterBegins(f: seq<bool>, h: nat, k: nat)
    requires |f| > 0 && k > 0
    ensures Begins(f, After(f, h, k))
  {
    hide Bit;
  }

  /** Where whole frames have been decoded, the next pulse is the long one into the next frame. */
  lemma LongAfterWholeFrames(f: seq<bool>, n: nat)
    requires Em4100.Frame(f) && Begins(f, n) && (n + 1) / 2 % 64 == 0
    ensures Long(f, n)
  {
    var m := FrameEnd(n);
    hide Long, Em4100.Frame;
    FrameHalfBits(f, m);
  }

  lemma FrameEnd(n: nat) returns (m: nat)
    requires n > 0 && (n + 1) / 2 % 64 == 0
    ensures m % 128 == 127 && (m == n || m == n - 1)
  {
    var q, r := Divided((n + 1) / 2, 64);
    m := 128 * q - 1;
    ModuloUnique(q - 1, m, 127, 128);
  }

  /** A batch after which both line decoders are in step. */
  lemma BatchInStep(s: Rx, ps: seq<Pulse>, f: seq<bool>, n: nat, b: nat, c: nat)
    requires s.Valid() && Pulses(ps) && Em4100.Frame(f) && Begins(f, n)
    requires var man := ManAll(s.man, s.long, ps); ManSynced(man, f, n, b) && man.ring.Len() > 0
    requires var (bip, ok) := BipAll(s.bip, s.short, s.long, ps);
      ok && BipSynced(bip, Changes(f), n + 1, c) && bip.ring.Len() > 0
    ensures var (t, found) := Batch(s, ps);
      && t == s.(man := t.man, bip := BipAll(s.bip, s.short, s.long, ps).0)
      && ManSynced(t.man, f, n, (n + 1) / 2) && (t.man.ring.Len() == 0 ==> Long(f, n))
      && if found == [] then t.man == ManAll(s.man, s.long, ps) && t.man.ring.Len() < 127 else found == [TagOf(f)]
  {
    hide ManAll, BipAll, FindEm, FindPhidget, FindFdx, ManSynced, BipSynced, Em4100.Frame, Begins, Long;
    assert |f| == 64 by { FrameLength(f); }
    FindsOnlyTheTag(ManAll(s.man, s.long, ps), f, n, b);
    if (n + 1) / 2 % 64 == 0 { LongAfterWholeFrames(f, n); }
    FindsNothingElse(BipAll(s.bip, s.short, s.long, ps).0, Changes(f), n + 1, c);
    var em := FindEm(ManAll(s.man, s.long, ps)).1;
    assert em + [] + [] == em;
  }

  // ----- the states of a run

  /** Only one pulse length has been seen so far: everything is still unread. */
  predicate Waiting(s: Rx, f: seq<bool>, h: nat, k: nat, short: nat, long: nat)
    requires |f| > 0
  {
    && s.Valid() && s.pulses == ManPulses(f, h, k, short, long)
    && ManFresh(s.man) && BipFresh(s.bip)
    && Known(s.short, 0, short, long) && s.long == 0 && (s.short == 0 <==> k == 0)
    && forall j :: 0 <= j < k ==> s.pulses[j].clocks == s.short
  }

  /** The bit from which on the queue is complete until the first report. */
  function FirstBit(h: nat): nat { (h + 130) / 2 }

  /** Both lengths are known, both decoders are in step; before the first report no bit has been lost. */
  predicate Tracking(s: Rx, f: seq<bool>, h: nat, k: nat, short: nat, long: nat, reported: bool)
    requires |f| > 0
  {
    var n := After(f, h, k);
    && s.Valid() && s.pulses == [] && s.short == short && s.long == long
    && ManSynced(s.man, f, n, (n + 1) / 2) && (s.man.ring.Len() == 0 ==> Long(f, n))
    && BipSynced(s.bip, Changes(f), n + 1, (n + 1) / 2) && s.bip.ring.Len() > 0
    && (!reported ==> ManSynced(s.man, f, n, FirstBit(h)) && s.man.ring.Len() < 127)
  }

  /** No frame keeps the reader waiting for more than 127 pulses. */
  lemma WaitingIsShort(s: Rx, f: seq<bool>, h: nat, k: nat, short: nat, long: nat)
    requires Em4100.Frame(f) && Clocks(short, long) && Waiting(s, f, h, k, short, long)
    ensures k <= 127
  {
    if k >= 128 {
      var i := FirstLong(f, h);
      var j := FirstShort(f, h);
      PulseAt(f, h, k, short, long, i);
      PulseAt(f, h, k, short, long, j);
    }
  }

  lemma {:induction false} ManTwoLengths(f: seq<bool>, h: nat, k: nat, short: nat, long: nat)
    requires |f| > 0
    ensures TwoLengths(ManPulses(f, h, k, short, long), short, long)
  {
    if k > 0 { ManTwoLengths(f, h, k - 1, short, long); }
  }

  /** If a long pulse has been seen, there was one in the first 128 half-bits. */
  lemma LongWithin(f: seq<bool>, h: nat, k: nat, i: nat) returns (j: nat)
    requires Em4100.Frame(f) && i < k && Long(f, After(f, h, i))
    ensures j < k && Long(f, After(f, h, j)) && After(f, h, j) <= h + 127
  {
    j := FirstLong(f, h);
    if j >= k {
      AfterMonotone(f, h, i, j);
      j := i;
    }
  }

  lemma {:induction false} AfterMonotone(f: seq<bool>, h: nat, i: nat, j: nat)
    requires |f| > 0 && i <= j
    ensures After(f, h, i) <= After(f, h, j)
  {
    hide Long;
    if i < j { AfterMonotone(f, h, i, j - 1); }
  }

  lemma {:induction false} SeesLongAt(f: seq<bool>, h: nat, k: nat, j: nat)
    requires |f| > 0 && j < k && Long(f, After(f, h, j))
    ensures SeesLong(f, h, k)
  {
    if j < k - 1 { SeesLongAt(f, h, k - 1, j); }
  }

  lemma {:induction false} BipSeesLongAt(f: seq<bool>, h: nat, k: nat, j: nat)
    requires |f| > 0 && j < k && Long(f, After(f, h, j))
    ensures BipSeesLong(Changes(f), h + 1, k)
  {
    hide Long, BipLong, Changes, After, BipAfter, ManPulses, BipCoded;
    if j < k - 1 {
      BipSeesLongAt(f, h, k - 1, j);
    } else {
      ManIsBip(f, h, j, 1, 2);
      ManLongIsBipLong(f, After(f, h, j));
    }
  }

  lemma OneOn(f: seq<bool>, h: nat, j: nat)
    requires |f| > 0
    ensures After(f, h, j) < After(f, h, j + 1) <= After(f, h, j) + 2
  {
  }

  /** add_manchester_data on everything since the reset, a long pulse among it. */
  lemma FirstBatchMan(l: Line, f: seq<bool>, h: nat, k: nat, short: nat, long: nat, i: nat)
    requires Em4100.Frame(f) && short != long && ManFresh(l) && i < k && Long(f, After(f, h, i))
    ensures var r := ManAll(l, long, ManPulses(f, h, k, short, long));
      ManSynced(r, f, After(f, h, k), FirstBit(h)) && r.ring.Len() > 0
  {
    hide Em4100.Frame, ManSynced, ManAll, ManPulses, ManFresh, ManOutOfStep, Long, After, Pulses;
    assert |f| == 64 by { FrameLength(f); }
    FreshIsValid(l);
    var j := LongWithin(f, h, k, i);
    var n := After(f, h, j + 1);
    OneOn(f, h, j);
    SeesLongAt(f, h, j + 1, j);
    ManFold(l, f, h, j + 1, short, long, FirstBit(h));
    var ps := ManPulses(f, h, j + 1, short, long);
    var rest := ManPulses(f, n, k - j - 1, short, long);
    PulsesSplit(f, h, j + 1, k - j - 1, short, long);
    AfterSplit(f, h, j + 1, k - j - 1);
    ManSplit(l, long, ps, rest);
    ManFoldSynced(ManAll(l, long, ps), f, n, k - j - 1, short, long, FirstBit(h));
  }

  /** add_biphase_data on the same pulses. */
  lemma FirstBatchBip(l: Line, f: seq<bool>, h: nat, k: nat, short: nat, long: nat, i: nat)
    requires |f| > 0 && short != long && BipFresh(l) && i < k && Long(f, After(f, h, i))
    ensures var (r, ok) := BipAll(l, short, long, ManPulses(f, h, k, short, long));
      var n := After(f, h, k);
      ok && BipSynced(r, Changes(f), n + 1, (n + 1) / 2) && r.ring.Len() > 0
  {
    hide BipAll, BipSynced, Long, ManPulses;
    BipSeesLongAt(f, h, k, i);
    ManIsBip(f, h, k, short, long);
    BipFold(l, Changes(f), h + 1, ManPulses(f, h, k, short, long), short, long, (After(f, h, k) + 1) / 2);
  }

  // ----- one packet

  /** Bytes that dataInput rounds to the given pulses: every length anywhere in its band. */
  predicate Jittered(data: seq<nat>, ps: seq<Pulse>) {
    |data| == |ps| && forall i :: 0 <= i < |data| ==> data[i] < 256 && Quantize(data[i]) == ps[i]
  }

  lemma {:induction false} EnqueueFits(q: seq<Pulse>, data: seq<nat>, ps: seq<Pulse>)
    requires Jittered(data, ps) && |q| + |data| < SIZE
    ensures EnqueueAll(q, data) == q + ps
  {
    hide Quantize;
    if data == [] {
      assert q + ps == q;
    } else {
      var k := |data| - 1;
      EnqueueFits(q, data[..k], ps[..k]);
      assert q + ps == q + ps[..k] + [ps[k]];
    }
  }

  /** A packet of fitting pulses is analysed together with what was unread. */
  lemma InputFits(s: Rx, data: seq<nat>, ps: seq<Pulse>)
    requires s.Valid() && Jittered(data, ps) && |s.pulses| + |data| < SIZE && data != []
    ensures Input(s, data) == Analyze(s.(pulses := s.pulses + ps))
  {
    hide Analyze, Quantize, EnqueueAll;
    EnqueueFits(s.pulses, data, ps);
  }

  lemma StepWaiting(s: Rx, f: seq<bool>, h: nat, k: nat, short: nat, long: nat, data: seq<nat>)
    requires Em4100.Frame(f) && Clocks(short, long) && Waiting(s, f, h, k, short, long)
    requires 1 <= |data| <= 63 && Jittered(data, ManPulses(f, After(f, h, k), |data|, short, long))
    ensures |s.pulses| < SIZE
    ensures var (t, found) := Input(s, data); var n := k + |data|;
      || (found == [] && Waiting(t, f, h, n, short, long))
      || (Tracking(t, f, h, n, short, long, found != []) && (found == [] || found == [TagOf(f)]))
  {
    hide Em4100.Frame, Input, Analyze, Scan, Batch, Tracking, Long, ManPulses, TagOf;
    assert |f| == 64 by { FrameLength(f); }
    WaitingIsShort(s, f, h, k, short, long);
    var n := k + |data|;
    var ps := ManPulses(f, h, n, short, long);
    PulsesSplit(f, h, k, |data|, short, long);
    InputFits(s, data, ManPulses(f, After(f, h, k), |data|, short, long));
    var u := s.(pulses := ps);
    ManTwoLengths(f, h, n, short, long);
    AnalyzeFits(u, short, long);
    ScanTwoLengths(ps, u.short, 0, 0, short, long);
    if Scan(ps, u.short, 0, 0).long != 0 {
      var i := LongSeen(s, f, h, k, n, short, long);
      FirstBatch(u.(short := short, long := long, pulses := []), f, h, n, i);
    }
  }

  /** When the scan has come to know both lengths, there is a long pulse among those scanned. */
  lemma LongSeen(s: Rx, f: seq<bool>, h: nat, k: nat, n: nat, short: nat, long: nat) returns (i: nat)
    requires Em4100.Frame(f) && Clocks(short, long) && Waiting(s, f, h, k, short, long) && k <= n
    requires Scan(ManPulses(f, h, n, short, long), s.short, 0, 0).long != 0
    ensures i < n && Long(f, After(f, h, i))
  {
    hide Scan, Em4100.Frame;
    assert |f| == 64 by { FrameLength(f); }
    var ps := ManPulses(f, h, n, short, long);
    ManTwoLengths(f, h, n, short, long);
    ScanTwoLengths(ps, s.short, 0, 0, short, long);
    if s.short == long {
      i := 0;
      PulseAt(f, h, k, short, long, 0);
      assert s.pulses[0].clocks == long;
    } else {
      i :| 0 <= i < |ps| && ps[i].clocks == long;
      PulseAt(f, h, n, short, long, i);
    }
  }

  /** The first batch after a reset brings both decoders in step. */
  lemma FirstBatch(s: Rx, f: seq<bool>, h: nat, n: nat, i: nat)
    requires Em4100.Frame(f) && s.Valid() && s.pulses == [] && Clocks(s.short, s.long)
    requires ManFresh(s.man) && BipFresh(s.bip) && i < n && Long(f, After(f, h, i))
    ensures var (t, found) := Batch(s, ManPulses(f, h, n, s.short, s.long));
      Tracking(t, f, h, n, s.short, s.long, found != []) && (found == [] || found == [TagOf(f)])
  {
    hide Em4100.Frame, ManSynced, BipSynced, ManAll, BipAll, ManPulses, ManFresh, BipFresh, Long, Batch, Begins;
    assert |f| == 64 by { FrameLength(f); }
    FirstBatchMan(s.man, f, h, n, s.short, s.long, i);
    FirstBatchBip(s.bip, f, h, n, s.short, s.long, i);
    AfterBegins(f, h, n);
    BatchInStep(s, ManPulses(f, h, n, s.short, s.long), f, After(f, h, n), FirstBit(h), (After(f, h, n) + 1) / 2);
  }

  lemma StepTracking(s: Rx, f: seq<bool>, h: nat, k: nat, short: nat, long: nat, reported: bool, data: seq<nat>)
    requires Em4100.Frame(f) && Clocks(short, long) && Tracking(s, f, h, k, short, long, reported)
    requires 1 <= |data| <= 63 && Jittered(data, ManPulses(f, After(f, h, k), |data|, short, long))
    ensures |s.pulses| < SIZE
    ensures var (t, found) := Input(s, data); var n := k + |data|;
      Tracking(t, f, h, n, short, long, reported || found != []) && (found == [] || found == [TagOf(f)])
  {
    hide Em4100.Frame, Input, Analyze, Scan, Batch, ManSynced, BipSynced, Long, ManPulses, TagOf, After, Jittered;
    assert |f| == 64 by { FrameLength(f); }
    var m, e := |data|, After(f, h, k);
    var ps := ManPulses(f, e, m, short, long);
    InputFits(s, data, ps);
    assert [] + ps == ps;
    var u := s.(pulses := ps);
    ManTwoLengths(f, e, m, short, long);
    AnalyzeFits(u, short, long);
    ScanTwoLengths(ps, short, long, 0, short, long);
    assert u.(short := short, long := long, pulses := []) == s;
    LaterBatch(s, f, h, k, m, reported);
  }

  lemma LaterBatch(s: Rx, f: seq<bool>, h: nat, k: nat, m: nat, reported: bool)
    requires Em4100.Frame(f) && s.Valid() && Clocks(s.short, s.long) && 1 <= m
    requires Tracking(s, f, h, k, s.short, s.long, reported)
    ensures var (t, found) := Batch(s, ManPulses(f, After(f, h, k), m, s.short, s.long));
      && Tracking(t, f, h, k + m, s.short, s.long, reported || found != [])
      && (found == [] || found == [TagOf(f)])
  {
    hide Em4100.Frame, ManSynced, BipSynced, ManAll, BipAll, ManPulses, Long, Batch, After, Pulses, TagOf, Begins;
    assert |f| == 64 by { FrameLength(f); }
    var e, n := After(f, h, k), After(f, h, k + m);
    var ps := ManPulses(f, e, m, s.short, s.long);
    AfterSplit(f, h, k, m);
    hide FirstBit;
    var b := if reported then (e + 1) / 2 else FirstBit(h);
    ManFoldSynced(s.man, f, e, m, s.short, s.long, b);
    LaterBatchBip(s.bip, f, e, m, s.short, s.long);
    AfterBegins(f, h, k + m);
    BatchInStep(s, ps, f, n, b, (n + 1) / 2);
  }

  lemma LaterBatchBip(l: Line, f: seq<bool>, e: nat, m: nat, short: nat, long: nat)
    requires |f| > 0 && short != long && l.Valid() && BipSynced(l, Changes(f), e + 1, (e + 1) / 2) && l.ring.Len() > 0
    ensures var (r, ok) := BipAll(l, short, long, ManPulses(f, e, m, short, long)); var n := After(f, e, m);
      ok && BipSynced(r, Changes(f), n + 1, (n + 1) / 2) && r.ring.Len() > 0
  {
    hide BipAll, BipSynced, BipFresh, ManPulses, Changes, BipCoded, After, BipAfter, BipSeesLong;
    var n, g := After(f, e, m), Changes(f);
    SyncedNotFresh(l, g, e + 1, (e + 1) / 2);
    ManIsBip(f, e, m, short, long);
    Halved(e + 1, n + 1);
    BipLater(l, g, e + 1, (e + 1) / 2, (n + 1) / 2);
    BipFold(l, g, e + 1, ManPulses(f, e, m, short, long), short, long, (n + 1) / 2);
  }

  lemma SyncedNotFresh(l: Line, g: seq<bool>, e: nat, b: nat)
    requires |g| > 0 && BipSynced(l, g, e, b)
    ensures !BipFresh(l)
  {
    hide Holds;
  }

  lemma Halved(a: nat, b: nat)
    requires a <= b
    ensures a / 2 <= b / 2
  {
  }

  lemma BipLater(l: Line, g: seq<bool>, e: nat, b: nat, c: nat)
    requires |g| > 0 && BipSynced(l, g, e, b) && b <= c
    ensures BipSynced(l, g, e, c)
  {
  }

  // ----- whole runs

  predicate Packets(packets: seq<seq<nat>>) {
    forall i :: 0 <= i < |packets| ==>
      |packets[i]| <= 63 && forall j :: 0 <= j < |packets[i]| ==> packets[i][j] < 256
  }

  /** All the bytes received, in order. */
  function Received(packets: seq<seq<nat>>): seq<nat> {
    if packets == [] then [] else Received(packets[..|packets| - 1]) + packets[|packets| - 1]
  }

  /** The reader's state and its reports after a number of packets. */
  function Run(s: Rx, packets: seq<seq<nat>>): (r: (Rx, seq<Report>))
    requires s.Valid() && |s.pulses| < SIZE && Packets(packets)
    ensures r.0.Valid() && |r.0.pulses| < SIZE
  {
    if packets == [] then (s, [])
    else
      var (t, before) := Run(s, packets[..|packets| - 1]);
      var (u, found) := Input(t, packets[|packets| - 1]);
      InputBounded(t, packets[|packets| - 1]);
      (u, before + found)
  }

  lemma InputBounded(s: Rx, data: seq<nat>)
    requires s.Valid() && |s.pulses| < SIZE && forall i :: 0 <= i < |data| ==> data[i] < 256
    ensures |Input(s, data).0.pulses| < SIZE
  {
    AnalyzeShrinks(s.(pulses := EnqueueAll(s.pulses, data)));
  }

  /** The state after opening the device or after a gap; the rings may hold anything. */
  predicate AfterReset(s: Rx) {
    s.Valid() && s == Reset(s) && s.pulses == []
  }

  lemma {:induction false} RunInvariant(s: Rx, f: seq<bool>, h: nat, short: nat, long: nat, packets: seq<seq<nat>>)
    requires Em4100.Frame(f) && Clocks(short, long) && AfterReset(s) && Packets(packets)
    requires var d := Received(packets); Jittered(d, ManPulses(f, h, |d|, short, long))
    ensures var (t, found) := Run(s, packets); var k := |Received(packets)|;
      && (forall i :: 0 <= i < |found| ==> found[i] == TagOf(f))
      && ((found == [] && Waiting(t, f, h, k, short, long)) || Tracking(t, f, h, k, short, long, found != []))
    decreases |packets|
  {
    hide Em4100.Frame, Waiting, Tracking, Input, TagOf, ManPulses;
    assert |f| == 64 by { FrameLength(f); }
    if packets == [] {
      StartsWaiting(s, f, h, short, long);
    } else {
      var p, before := packets[|packets| - 1], packets[..|packets| - 1];
      var k := |Received(before)|;
      PulsesSplit(f, h, k, |p|, short, long);
      assert Received(packets) == Received(before) + p;
      JitteredSplit(Received(before), p, ManPulses(f, h, k, short, long),
                    ManPulses(f, After(f, h, k), |p|, short, long));
      RunInvariant(s, f, h, short, long, before);
      var (t, found) := Run(s, before);
      if p == [] {
        EmptyPacket(t);
        assert found + [] == found;
      } else if Waiting(t, f, h, k, short, long) && found == [] {
        StepWaiting(t, f, h, k, short, long, p);
      } else {
        StepTracking(t, f, h, k, short, long, found != [], p);
      }
    }
  }

  lemma EmptyPacket(s: Rx)
    requires s.Valid() && |s.pulses| < SIZE
    ensures Input(s, []) == (s, [])
  {
  }

  lemma JitteredSplit(a: seq<nat>, b: seq<nat>, p: seq<Pulse>, q: seq<Pulse>)
    requires |a| == |p| && Jittered(a + b, p + q)
    ensures Jittered(a, p) && Jittered(b, q)
  {
    forall i | 0 <= i < |a| ensures a[i] < 256 && Quantize(a[i]) == p[i] {
      assert (a + b)[i] == a[i] && (p + q)[i] == p[i];
    }
    forall i | 0 <= i < |b| ensures b[i] < 256 && Quantize(b[i]) == q[i] {
      assert (a + b)[|a| + i] == b[i] && (p + q)[|a| + i] == q[i];
    }
  }

  lemma StartsWaiting(s: Rx, f: seq<bool>, h: nat, short: nat, long: nat)
    requires Em4100.Frame(f) && Clocks(short, long) && AfterReset(s)
    ensures Waiting(s, f, h, 0, short, long)
  {
  }

  /**
   * A tag's frame repeated without end, entered anywhere, its pulses jittered within their bands and cut
   * into packets in any way: nothing but the tag is ever reported, and by 384 pulses it has been.
   */
  lemma OnlyTheTagIsReported(s: Rx, f: seq<bool>, h: nat, short: nat, long: nat, packets: seq<seq<nat>>)
    requires Em4100.Frame(f) && Clocks(short, long) && AfterReset(s) && Packets(packets)
    requires var d := Received(packets); Jittered(d, ManPulses(f, h, |d|, short, long))
    ensures var found := Run(s, packets).1;
      && (forall i :: 0 <= i < |found| ==> found[i] == TagOf(f))
      && (|Received(packets)| >= 384 ==> found != [])
  {
    hide Em4100.Frame, TagOf, Run;
    assert |f| == 64 by { FrameLength(f); }
    RunInvariant(s, f, h, short, long, packets);
    var (t, found) := Run(s, packets);
    var k := |Received(packets)|;
    if found == [] {
      if Waiting(t, f, h, k, short, long) {
        WaitingIsShort(t, f, h, k, short, long);
      } else {
        UnreportedIsShort(t, f, h, k, short, long);
      }
    }
  }

  lemma UnreportedIsShort(s: Rx, f: seq<bool>, h: nat, k: nat, short: nat, long: nat)
    requires Em4100.Frame(f) && Tracking(s, f, h, k, short, long, false)
    ensures k < 384
  {
    hide Cyclic;
  }

  /** The state after a packet that ends in a gap is as good as the state after opening the device. */
  lemma GapResets(s: Rx, data: seq<nat>)
    requires s.Valid() && |s.pulses| < SIZE && data != []
    requires (forall i :: 0 <= i < |data| ==> data[i] < 256) && Quantize(data[|data| - 1]).Space?
    ensures AfterReset(Input(s, data).0)
  {
    hide Analyze, Quantize;
    var q := EnqueueAll(s.pulses, data);
    assert q[|q| - 1] == Quantize(data[|data| - 1]);
    GapForgets(s.(pulses := q));
  }

  lemma NothingToRead(s: Rx)
    requires s.Valid() && s.pulses == [] && s.short == 0
    ensures Analyze(s) == (s, [])
  {
    hide Batch;
  }

  lemma ReadPulses(data: seq<nat>) returns (read: seq<Pulse>)
    requires forall i :: 0 <= i < |data| ==> data[i] < 256
    ensures |read| == |data| && Jittered(data, read)
    ensures data != [] ==> read[0] == Quantize(data[0]) && Jittered(data[1..], read[1..])
  {
    hide Quantize;
    read := seq(|data|, i requires 0 <= i < |data| => Quantize(data[i]));
  }

  /** A pulse that fits neither of the clock lengths in use is lost, and with it everything known before. */
  lemma MisfitForgets(s: Rx, data: seq<nat>)
    requires s.Valid() && s.pulses == [] && s.short != 0 && s.long != 0 && 0 < |data| <= 63
    requires (forall i :: 0 <= i < |data| ==> data[i] < 256) && Quantize(data[0]).Pulse?
    requires Quantize(data[0]).clocks != s.short && Quantize(data[0]).clocks != s.long
    ensures AfterReset(Reset(s)) && Input(s, data) == Input(Reset(s), data[1..])
  {
    hide Quantize, Analyze, EnqueueAll, Jittered;
    var read := ReadPulses(data);
    EnqueueFits([], data, read);
    EnqueueFits([], data[1..], read[1..]);
    assert [] + read == read && [] + read[1..] == read[1..];
    MisfitDropped(s.(pulses := read));
    assert Reset(s.(pulses := read[1..])) == Reset(s).(pulses := read[1..]);
    if |data| == 1 { NothingToRead(Reset(s)); }
  }

  lemma {:induction false} RunFirst(s: Rx, u: Rx, p: seq<nat>, packets: seq<seq<nat>>)
    requires s.Valid() && u.Valid() && |s.pulses| < SIZE && |u.pulses| < SIZE
    requires packets != [] && Packets(packets) && |p| <= 63 && forall j :: 0 <= j < |p| ==> p[j] < 256
    requires Input(s, packets[0]) == Input(u, p)
    ensures Packets([p] + packets[1..]) && Run(s, packets) == Run(u, [p] + packets[1..])
    decreases |packets|
  {
    hide Input;
    var n := |packets| - 1;
    var other := [p] + packets[1..];
    if n == 0 {
      assert packets[..0] == [] && other == [p] && other[..0] == [];
    } else {
      assert packets[..n][1..] == packets[1..][..n - 1];
      assert other[..n] == [p] + packets[..n][1..] && other[n] == packets[n];
      RunFirst(s, u, p, packets[..n]);
    }
  }

  lemma {:induction false} ReceivedFirst(packets: seq<seq<nat>>)
    requires packets != [] && packets[0] != []
    ensures var other := [packets[0][1..]] + packets[1..];
      Received(packets) != [] && Received(packets)[0] == packets[0][0] && Received(other) == Received(packets)[1..]
    decreases |packets|
  {
    var n := |packets| - 1;
    var other := [packets[0][1..]] + packets[1..];
    if n == 0 {
      assert packets[..0] == [] && other == [packets[0][1..]] && other[..0] == [];
    } else {
      assert packets[..n][1..] == packets[1..][..n - 1];
      assert other[..n] == [packets[0][1..]] + packets[..n][1..] && other[n] == packets[n];
      ReceivedFirst(packets[..n]);
    }
  }

  /**
   * A tag that follows another without a gap between them: if its first pulse fits neither clock length of the other,
   * nothing but the new tag is reported from then on, and by 385 pulses it has been.
   */
  lemma NextTagIsReported(s: Rx, f: seq<bool>, h: nat, short: nat, long: nat, packets: seq<seq<nat>>)
    requires Em4100.Frame(f) && Clocks(short, long) && Packets(packets) && packets != [] && packets[0] != []
    requires s.Valid() && s.pulses == [] && s.short != 0 && s.long != 0
    requires var d := Received(packets); Jittered(d, ManPulses(f, h, |d|, short, long))
    requires Quantize(packets[0][0]).Pulse? ==>
      Quantize(packets[0][0]).clocks != s.short && Quantize(packets[0][0]).clocks != s.long
    ensures var found := Run(s, packets).1;
      && (forall i :: 0 <= i < |found| ==> found[i] == TagOf(f))
      && (|Received(packets)| >= 385 ==> found != [])
  {
    hide Em4100.Frame, TagOf, Run, Input, Quantize, ManPulses;
    assert |f| == 64 by { FrameLength(f); }
    ReceivedFirst(packets);
    var d := Received(packets);
    var ps := ManPulses(f, h, |d|, short, long);
    assert ps[0].Pulse?;
    MisfitForgets(s, packets[0]);
    var other := [packets[0][1..]] + packets[1..];
    RunFirst(s, Reset(s), packets[0][1..], packets);
    PulsesSplit(f, h, 1, |d| - 1, short, long);
    assert [d[0]] + d[1..] == d;
    JitteredSplit([d[0]], d[1..], ManPulses(f, h, 1, short, long), ManPulses(f, After(f, h, 1), |d| - 1, short, long));
    OnlyTheTagIsReported(Reset(s), f, After(f, h, 1), short, long, other);
  }

  /** Written with encodeEM4100 and read back through the whole receiver: the digits written, and nothing else. */
  lemma WrittenStringIsReported(tagString: string, blocks: seq<Word>, s: Rx, h: nat, short: nat, long: nat,
      packets: seq<seq<nat>>)
    requires Em4100Encode.Acceptable(tagString) && Digits(Em4100Encode.HexPart(tagString), 16)
    requires Em4100.Frame(Stream(blocks)) && Em4100.Payload(Stream(blocks)) == Em4100Encode.TagBits(tagString)
    requires Clocks(short, long) && AfterReset(s) && Packets(packets)
    requires var d := Received(packets); Jittered(d, ManPulses(Stream(blocks), h, |d|, short, long))
    ensures var found := Run(s, packets).1;
      && (forall i :: 0 <= i < |found| ==> found[i] == Tag(EM4100, Em4100Encode.Lower(Em4100Encode.HexPart(tagString))))
      && (|Received(packets)| >= 384 ==> found != [])
  {
    hide Em4100.Frame, Em4100.Payload, Em4100Encode.TagText, Em4100Encode.TagBits, Em4100Encode.Lower, Run, Jittered;
    OnlyTheTagIsReported(s, Stream(blocks), h, short, long, packets);
    Em4100Encode.ReportedText(tagString);
  }

  /** A run of the reader object. */
  method ReadPackets(reader: RfidReader, packets: seq<seq<nat>>)
    requires reader.Valid() && Packets(packets)
    modifies reader, reader.dataBuffer, reader.manBuffer, reader.biphaseBuffer
    ensures reader.Valid()
    ensures var r := Run(old(reader.State()), packets);
      reader.State() == r.0 && reader.reports == old(reader.reports) + r.1
  {
    hide Input;
    ghost var s := reader.State();
    var i := 0;
    assert packets[..0] == [];
    assert reader.reports + [] == reader.reports;
    while i < |packets|
      invariant 0 <= i <= |packets| && reader.Valid() && Packets(packets[..i])
      invariant var r := Run(s, packets[..i]);
        reader.State() == r.0 && reader.reports == old(reader.reports) + r.1
    {
      assert packets[..i + 1][..i] == packets[..i];
      reader.DataInput(packets[i]);
      i := i + 1;
    }
    assert packets[..i] == packets;
  }
}
