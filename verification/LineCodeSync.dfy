/** The line decoders invert their codes: what is pushed is what was sent, wherever the pulses begin. */
module LineCodeSync {
  import opened Modulo
  import opened Rings
  import opened LineCode

  // ----- the codes

  /** Bit i of the endless repetition of f. */
  function Bit(f: seq<bool>, i: nat): bool
    requires |f| > 0
  {
    f[i % |f|]
  }

  /** Manchester: bit i is sent as its own level in half-bit 2i and the opposite level in half-bit 2i + 1. */
  function Level(f: seq<bool>, h: nat): bool
    requires |f| > 0
  {
    if h % 2 == 0 then Bit(f, h / 2) else !Bit(f, h / 2)
  }

  /** Half-bits h and h + 1 are at one level and merge into a long pulse. */
  predicate Long(f: seq<bool>, h: nat)
    requires |f| > 0
  {
    h % 2 == 1 && Bit(f, h / 2) != Bit(f, h / 2 + 1)
  }

  function Next(f: seq<bool>, h: nat): nat
    requires |f| > 0
  {
    if Long(f, h) then h + 2 else h + 1
  }

  /** The half-bit at which the k-th pulse from half-bit h on begins. */
  function After(f: seq<bool>, h: nat, k: nat): (n: nat)
    requires |f| > 0
    ensures h + k <= n <= h + 2 * k
  {
    if k == 0 then h else Next(f, After(f, h, k - 1))
  }

  /** k pulses of the Manchester code, beginning with half-bit h. */
  function ManPulses(f: seq<bool>, h: nat, k: nat, short: nat, long: nat): (ps: seq<Pulse>)
    requires |f| > 0
    ensures |ps| == k && Pulses(ps)
  {
    if k == 0 then []
    else
      var n := After(f, h, k - 1);
      ManPulses(f, h, k - 1, short, long) + [Pulse(if Long(f, n) then long else short, Level(f, n))]
  }

  // ----- queues of consecutive bits

  /** The queue holds the latest bits before bit n, and unless the ring is full all from bit b on. */
  predicate Holds(r: Ring<bool>, f: seq<bool>, n: nat, b: nat)
    requires |f| > 0
  {
    && r.Valid() && r.Len() <= n && r.Queue() == Cyclic(f, n - r.Len(), r.Len())
    && (r.Len() == SIZE - 1 || n - r.Len() <= b)
  }

  lemma CyclicAppend(f: seq<bool>, p: nat, m: nat)
    requires |f| > 0
    ensures Cyclic(f, p, m) + [Bit(f, p + m)] == Cyclic(f, p, m + 1)
  {
    var a, c := Cyclic(f, p, m) + [Bit(f, p + m)], Cyclic(f, p, m + 1);
    forall i | 0 <= i < m + 1 ensures a[i] == c[i] {}
  }

  lemma CyclicTail(f: seq<bool>, p: nat, m: nat, k: nat)
    requires |f| > 0 && k <= m
    ensures Cyclic(f, p, m)[k..] == Cyclic(f, p + k, m - k)
  {
    var a, c := Cyclic(f, p, m)[k..], Cyclic(f, p + k, m - k);
    forall i | 0 <= i < m - k ensures a[i] == c[i] {}
  }

  lemma HoldsPush(r: Ring<bool>, f: seq<bool>, n: nat, b: nat)
    requires |f| > 0 && Holds(r, f, n, b)
    ensures Holds(r.Push(Bit(f, n)), f, n + 1, b)
  {
    hide Cyclic, Bit;
    var x, m := Bit(f, n), r.Len();
    r.PushQueue(x);
    CyclicAppend(f, n - m, m);
    var q, s := Cyclic(f, n - m, m), r.Push(x);
    if m == SIZE - 1 {
      CyclicTail(f, n - m, m + 1, 1);
      assert q[1..] + [x] == (q + [x])[1..];
    }
    assert s.Len() == |s.Queue()|;
  }

  lemma HoldsSkip(r: Ring<bool>, f: seq<bool>, n: nat, b: nat, k: nat)
    requires |f| > 0 && Holds(r, f, n, b) && k <= r.Len()
    ensures Holds(r.Skip(k), f, n, n)
  {
    r.SkipQueue(k);
    var s := r.Skip(k);
    assert s.Len() == |s.Queue()| == r.Len() - k;
    CyclicTail(f, n - r.Len(), r.Len(), k);
  }

  lemma HoldsNothing(r: Ring<bool>, f: seq<bool>, n: nat)
    requires |f| > 0 && r.Valid() && r.Len() == 0
    ensures Holds(r, f, n, n)
  {
    assert Cyclic(f, n, 0) == [];
  }

  // ----- Manchester

  /** Locked in the right phase: half a bit has been seen exactly when an even half-bit comes next. */
  predicate ManSynced(l: Line, f: seq<bool>, h: nat, b: nat)
    requires |f| > 0
  {
    l.locked && l.change == (h % 2 == 0) && Holds(l.ring, f, (h + 1) / 2, b)
  }

  /** Locked in the wrong phase; what has been decoded is worthless. */
  predicate ManOutOfStep(l: Line, h: nat) {
    l.Valid() && l.locked && l.change == (h % 2 == 1)
  }

  predicate ManFresh(l: Line) {
    l.Valid() && !l.locked && !l.change && l.ring.Len() == 0
  }

  lemma ManStepSynced(l: Line, f: seq<bool>, h: nat, short: nat, long: nat, b: nat)
    requires |f| > 0 && short != long && ManSynced(l, f, h, b)
    ensures ManSynced(ManStep(l, long, Pulse(if Long(f, h) then long else short, Level(f, h))), f, Next(f, h), b)
  {
    hide Holds;
    if h % 2 == 0 || Long(f, h) {
      assert Level(f, h) == Bit(f, (h + 1) / 2);
      HoldsPush(l.ring, f, (h + 1) / 2, b);
    }
  }

  /** The first long pulse ends every doubt: a wrong phase is noticed, and its bits are thrown away. */
  lemma ManLongPulse(l: Line, f: seq<bool>, h: nat, long: nat)
    requires |f| > 0 && Long(f, h) && (ManFresh(l) || ManOutOfStep(l, h))
    ensures var r := ManStep(l, long, Pulse(long, Level(f, h)));
      ManSynced(r, f, h + 2, (h + 1) / 2) && r.ring.Queue() == [Bit(f, (h + 1) / 2)]
  {
    hide Holds;
    var empty := if l.change then l.ring.(rd := l.ring.wr) else l.ring;
    var n := (h + 1) / 2;
    HoldsNothing(empty, f, n);
    HoldsPush(empty, f, n, n);
    empty.PushQueue(Bit(f, n));
    assert empty.Queue() == [];
  }

  /** Before the first long pulse a decoder is still fresh, in step, or out of step. */
  lemma ManShortPulse(l: Line, f: seq<bool>, h: nat, short: nat, long: nat, b: nat)
    requires |f| > 0 && !Long(f, h) && short != long && (h + 2) / 2 <= b
    requires ManFresh(l) || ManOutOfStep(l, h) || ManSynced(l, f, h, b)
    ensures var r := ManStep(l, long, Pulse(short, Level(f, h)));
      ManFresh(r) || ManOutOfStep(r, h + 1) || ManSynced(r, f, h + 1, b)
  {
    if ManSynced(l, f, h, b) {
      ManStepSynced(l, f, h, short, long, b);
    } else if ManFresh(l) && h % 2 == 1 {
      HoldsNothing(l.ring, f, (h + 2) / 2);
    }
  }

  /** Some pulse among the k from half-bit h on is long. */
  predicate SeesLong(f: seq<bool>, h: nat, k: nat)
    requires |f| > 0
  {
    k > 0 && (SeesLong(f, h, k - 1) || Long(f, After(f, h, k - 1)))
  }

  /** The n-th half-bit's pulse. */
  function ManPulse(f: seq<bool>, n: nat, short: nat, long: nat): (p: Pulse)
    requires |f| > 0
    ensures p.Pulse?
  {
    Pulse(if Long(f, n) then long else short, Level(f, n))
  }

  lemma ManUnroll(l: Line, f: seq<bool>, h: nat, k: nat, short: nat, long: nat)
    requires |f| > 0 && k > 0 && l.Valid()
    ensures var n := After(f, h, k - 1);
      && After(f, h, k) == Next(f, n)
      && ManAll(l, long, ManPulses(f, h, k, short, long))
         == ManStep(ManAll(l, long, ManPulses(f, h, k - 1, short, long)), long, ManPulse(f, n, short, long))
  {
    var ps := ManPulses(f, h, k, short, long);
    assert ps[..k - 1] == ManPulses(f, h, k - 1, short, long);
  }

  lemma StaysNonEmpty(l: Line, long: nat, p: Pulse)
    requires l.Valid() && p.Pulse?
    ensures p.clocks == long || l.ring.Len() > 0 ==> ManStep(l, long, p).ring.Len() > 0
  {
    var ring := if l.change then l.ring.(rd := l.ring.wr) else l.ring;
    ring.PushQueue(p.high);
    l.ring.PushQueue(p.high);
    assert ring.Push(p.high).Len() == |ring.Push(p.high).Queue()|;
    assert l.ring.Push(p.high).Len() == |l.ring.Push(p.high).Queue()|;
  }

  /** In step, the decoder stays in step; a first long pulse leaves something in the queue. */
  lemma {:induction false} ManFoldSynced(l: Line, f: seq<bool>, h: nat, k: nat, short: nat, long: nat, b: nat)
    requires |f| > 0 && short != long && l.Valid() && ManSynced(l, f, h, b)
    ensures var r := ManAll(l, long, ManPulses(f, h, k, short, long));
      ManSynced(r, f, After(f, h, k), b) && (l.ring.Len() > 0 || (k > 0 && Long(f, h)) ==> r.ring.Len() > 0)
  {
    if k > 0 {
      FirstPulse(f, h, k);
      hide ManSynced, ManStep, ManAll, ManPulses, Next, Level, Long, After;
      var n := After(f, h, k - 1);
      var q := ManAll(l, long, ManPulses(f, h, k - 1, short, long));
      ManFoldSynced(l, f, h, k - 1, short, long, b);
      ManUnroll(l, f, h, k, short, long);
      ManStepSynced(q, f, n, short, long, b);
      StaysNonEmpty(q, long, ManPulse(f, n, short, long));
    } else {
      NoPulses(l, f, h, short, long);
    }
  }

  lemma FirstPulse(f: seq<bool>, h: nat, k: nat)
    requires |f| > 0 && k > 0
    ensures k == 1 ==> After(f, h, k - 1) == h
  {
  }

  lemma NoPulses(l: Line, f: seq<bool>, h: nat, short: nat, long: nat)
    requires |f| > 0 && l.Valid()
    ensures ManAll(l, long, ManPulses(f, h, 0, short, long)) == l && After(f, h, 0) == h
  {
  }

  /** One more pulse, from any of the states a decoder can be in. */
  lemma ManAnyStep(q: Line, f: seq<bool>, n: nat, short: nat, long: nat, b: nat)
    requires |f| > 0 && short != long && (Next(f, n) + 1) / 2 <= b
    requires ManFresh(q) || ManOutOfStep(q, n) || (q.Valid() && ManSynced(q, f, n, b))
    ensures var r := ManStep(q, long, ManPulse(f, n, short, long));
      && (ManFresh(r) || ManOutOfStep(r, Next(f, n)) || ManSynced(r, f, Next(f, n), b))
      && (Long(f, n) ==> ManSynced(r, f, Next(f, n), b) && r.ring.Len() > 0)
      && (ManSynced(q, f, n, b) && q.ring.Len() > 0 ==> ManSynced(r, f, Next(f, n), b) && r.ring.Len() > 0)
  {
    hide Holds, ManStep, Level, ManSynced;
    var p := ManPulse(f, n, short, long);
    StaysNonEmpty(q, long, p);
    if ManSynced(q, f, n, b) {
      ManStepSynced(q, f, n, short, long, b);
    } else if Long(f, n) {
      ManLongPulse(q, f, n, long);
      SyncedLater(ManStep(q, long, p), f, n + 2, (n + 1) / 2, b);
    } else {
      ManShortPulse(q, f, n, short, long, b);
    }
  }

  lemma SyncedLater(l: Line, f: seq<bool>, h: nat, b: nat, c: nat)
    requires |f| > 0 && ManSynced(l, f, h, b) && b <= c
    ensures ManSynced(l, f, h, c)
  {
  }

  /**
   * add_manchester_data from reset: once a long pulse has been seen, the queue holds exactly the bits
   * sent, the latest last, and none from bit b on is missing unless the ring is full.
   */
  lemma {:induction false} ManFold(l: Line, f: seq<bool>, h: nat, k: nat, short: nat, long: nat, b: nat)
    requires |f| > 0 && short != long && ManFresh(l) && (After(f, h, k) + 1) / 2 <= b
    ensures var r, n := ManAll(l, long, ManPulses(f, h, k, short, long)), After(f, h, k);
      && (ManFresh(r) || ManOutOfStep(r, n) || ManSynced(r, f, n, b))
      && (SeesLong(f, h, k) ==> ManSynced(r, f, n, b) && r.ring.Len() > 0)
  {
    hide ManFresh, ManOutOfStep, ManSynced, ManStep, Long;
    if k > 0 {
      assert l.Valid() by { FreshIsValid(l); }
      var n := After(f, h, k - 1);
      assert After(f, h, k) == Next(f, n) && n < Next(f, n);
      hide ManAll, ManPulses, ManPulse, After, Next, Level;
      ManUnroll(l, f, h, k, short, long);
      ManFold(l, f, h, k - 1, short, long, b);
      ManAnyStep(ManAll(l, long, ManPulses(f, h, k - 1, short, long)), f, After(f, h, k - 1), short, long, b);
    }
  }

  lemma FreshIsValid(l: Line)
    requires ManFresh(l)
    ensures l.Valid()
  {
  }

  // ----- biphase

  /** Biphase: a one is one long pulse, a zero two short ones; cell e / 2 begins at half-bit e if e is even. */
  predicate BipLong(g: seq<bool>, e: nat)
    requires |g| > 0
  {
    e % 2 == 0 && Bit(g, e / 2)
  }

  function BipNext(g: seq<bool>, e: nat): nat
    requires |g| > 0
  {
    if BipLong(g, e) then e + 2 else e + 1
  }

  function BipAfter(g: seq<bool>, e: nat, k: nat): (n: nat)
    requires |g| > 0
    ensures e + k <= n <= e + 2 * k
  {
    if k == 0 then e else BipNext(g, BipAfter(g, e, k - 1))
  }

  /** The pulse lengths are those of the biphase code of g from half-bit e on; levels do not matter. */
  predicate BipCoded(ps: seq<Pulse>, g: seq<bool>, e: nat, short: nat, long: nat)
    requires |g| > 0
  {
    Pulses(ps) && forall i :: 0 <= i < |ps| ==>
      ps[i].clocks == if BipLong(g, BipAfter(g, e, i)) then long else short
  }

  /** Locked: half a cell has been seen exactly when an odd half-bit comes next, and then of a zero. */
  predicate BipSynced(l: Line, g: seq<bool>, e: nat, b: nat)
    requires |g| > 0
  {
    && l.locked && l.change == (e % 2 == 1) && (e % 2 == 1 ==> !Bit(g, e / 2)) && Holds(l.ring, g, e / 2, b)
  }

  predicate BipFresh(l: Line) {
    l.Valid() && !l.locked && l.ring.Len() == 0
  }

  lemma BipAnyStep(l: Line, g: seq<bool>, e: nat, short: nat, long: nat, b: nat, p: Pulse)
    requires |g| > 0 && short != long && p.Pulse? && p.clocks == (if BipLong(g, e) then long else short)
    requires BipFresh(l) || (l.Valid() && BipSynced(l, g, e, b))
    requires BipFresh(l) ==> e / 2 <= b
    ensures var r := BipStep(l, long, p);
      && ((BipFresh(l) && BipFresh(r)) || BipSynced(r, g, BipNext(g, e), b))
      && (BipLong(g, e) || l.ring.Len() > 0 ==> BipSynced(r, g, BipNext(g, e), b) && r.ring.Len() > 0)
  {
    hide Holds;
    NonEmptyPush(l.ring, true);
    NonEmptyPush(l.ring, false);
    if BipLong(g, e) {
      if BipFresh(l) {
        HoldsNothing(l.ring, g, e / 2);
        HoldsPush(l.ring, g, e / 2, e / 2);
        HoldsLater(l.ring.Push(true), g, e / 2 + 1, e / 2, b);
      } else {
        HoldsPush(l.ring, g, e / 2, b);
      }
    } else if !BipFresh(l) && e % 2 == 1 {
      HoldsPush(l.ring, g, e / 2, b);
    }
  }

  lemma HoldsLater(r: Ring<bool>, f: seq<bool>, n: nat, b: nat, c: nat)
    requires |f| > 0 && Holds(r, f, n, b) && b <= c
    ensures Holds(r, f, n, c)
  {
  }

  lemma HoldsNow(r: Ring<bool>, f: seq<bool>, n: nat, b: nat)
    requires |f| > 0 && Holds(r, f, n, b)
    ensures Holds(r, f, n, n)
  {
  }

  lemma NonEmptyPush(r: Ring<bool>, x: bool)
    requires r.Valid()
    ensures r.Push(x).Valid() && r.Push(x).Len() > 0
  {
    r.PushQueue(x);
    assert r.Push(x).Len() == |r.Push(x).Queue()|;
  }

  /** Some pulse among the first k is long. */
  predicate BipSeesLong(g: seq<bool>, e: nat, k: nat)
    requires |g| > 0
  {
    k > 0 && (BipSeesLong(g, e, k - 1) || BipLong(g, BipAfter(g, e, k - 1)))
  }

  /**
   * add_biphase_data from reset or in step: every pulse is accepted, and once a long pulse has been seen
   * the queue holds exactly the bits sent, the latest last, none from bit b on missing unless it is full.
   */
  lemma {:induction false} BipFold(l: Line, g: seq<bool>, e: nat, ps: seq<Pulse>, short: nat, long: nat, b: nat)
    requires |g| > 0 && short != long && BipCoded(ps, g, e, short, long)
    requires BipFresh(l) || (l.Valid() && BipSynced(l, g, e, b))
    requires BipFresh(l) ==> BipAfter(g, e, |ps|) / 2 <= b
    ensures var (r, ok) := BipAll(l, short, long, ps); var n := BipAfter(g, e, |ps|);
      && ok && ((BipFresh(l) && BipFresh(r)) || BipSynced(r, g, n, b))
      && (BipSeesLong(g, e, |ps|) || l.ring.Len() > 0 ==> BipSynced(r, g, n, b) && r.ring.Len() > 0)
    decreases |ps|
  {
    hide Holds, BipStep, BipLong;
    if ps != [] {
      var k := |ps| - 1;
      BipFold(l, g, e, ps[..k], short, long, b);
      BipAnyStep(BipAll(l, short, long, ps[..k]).0, g, BipAfter(g, e, k), short, long, b, ps[k]);
    }
  }

  // ----- a Manchester stream, read as biphase

  /** The changes between neighbouring bits of f. */
  function Changes(f: seq<bool>): (g: seq<bool>)
    ensures |g| == |f|
  {
    seq(|f|, i requires 0 <= i < |f| => f[i] != f[if i == 0 then |f| - 1 else i - 1])
  }

  lemma ChangeAt(f: seq<bool>, i: nat)
    requires |f| > 0 && i > 0
    ensures Bit(Changes(f), i) == (Bit(f, i) != Bit(f, i - 1))
  {
    var n := |f|;
    var q, r := i / n, i % n;
    assert i == q * n + r;
    if r == 0 {
      assert q == 0 ==> q * n == 0;
      assert (q - 1) * n == q * n - n;
      ModuloUnique(q - 1, i - 1, n - 1, n);
    } else {
      ModuloUnique(q, i - 1, r - 1, n);
    }
  }

  lemma CodedMore(ps: seq<Pulse>, p: Pulse, g: seq<bool>, e: nat, short: nat, long: nat)
    requires |g| > 0 && BipCoded(ps, g, e, short, long)
    requires p.Pulse? && p.clocks == if BipLong(g, BipAfter(g, e, |ps|)) then long else short
    ensures BipCoded(ps + [p], g, e, short, long)
  {
    hide BipLong, BipAfter;
    var qs := ps + [p];
    forall i | 0 <= i < |qs|
      ensures qs[i].Pulse? && qs[i].clocks == if BipLong(g, BipAfter(g, e, i)) then long else short
    {
      if i < |ps| { assert qs[i] == ps[i]; }
    }
  }

  /** A Manchester stream of f has the pulse lengths of a biphase stream of the changes in f. */
  lemma {:induction false} ManIsBip(f: seq<bool>, h: nat, k: nat, short: nat, long: nat)
    requires |f| > 0
    ensures BipAfter(Changes(f), h + 1, k) == After(f, h, k) + 1
    ensures BipCoded(ManPulses(f, h, k, short, long), Changes(f), h + 1, short, long)
  {
    hide Bit, Level, Long, BipLong, Changes, BipCoded;
    if k == 0 {
      NothingCoded(Changes(f), h + 1, short, long);
    } else {
      ManIsBip(f, h, k - 1, short, long);
      ManLongIsBipLong(f, After(f, h, k - 1));
      CodedMore(ManPulses(f, h, k - 1, short, long), ManPulse(f, After(f, h, k - 1), short, long), Changes(f), h + 1,
                short, long);
    }
  }

  lemma NothingCoded(g: seq<bool>, e: nat, short: nat, long: nat)
    requires |g| > 0
    ensures BipCoded([], g, e, short, long)
  {
  }

  lemma ManLongIsBipLong(f: seq<bool>, n: nat)
    requires |f| > 0
    ensures BipLong(Changes(f), n + 1) == Long(f, n)
  {
    if n % 2 == 1 { ChangeAt(f, (n + 1) / 2); }
  }
}
