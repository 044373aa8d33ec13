/** What the FDX-B header and checks are worth: synchronisation on a repeated telegram, burst detection. */
module FdxBSync {
  import opened Rings
  import opened Crc
  import opened Headers
  import opened FdxB

  /** Every ninth bit from the header's one on is a one, so ten zeros in a row stand only in the header. */
  lemma HeaderOnlyAtStart(f: seq<bool>, p: nat)
    requires Frame(f) && p < 128
    ensures Header(Cyclic(f, p, 128), 0) <==> p == 0
  {
    hide Cyclic, Controls;
    if p == 0 {
      CyclicWhole(f);
    } else {
      var c := NextOne(f, p);
      CyclicAt(f, p, 128, c - p);
    }
  }

  lemma NextOne(f: seq<bool>, p: nat) returns (c: nat)
    requires Frame(f) && 0 < p < 128
    ensures p <= c < p + 10 && c < 128 && f[c]
  {
    if p <= 10 { return 10; }
    var j := (p - 11) / 9;
    assert Controls(f, 13) && f[19 + 9 * j];
    return 19 + 9 * j;
  }

  lemma HeaderAtPhase(f: seq<bool>, phase: nat, n: nat, o: nat)
    requires Frame(f) && o + 128 <= n
    ensures Header(Cyclic(f, phase, n), o) <==> (phase + o) % 128 == 0
    ensures Header(Cyclic(f, phase, n), o) ==> Cyclic(f, phase, n)[o..o + 128] == f
  {
    hide Cyclic, ZerosThenOne;
    var p := (phase + o) % 128;
    CyclicWindow(f, phase, n, o, 128);
    PatternInWindow(Cyclic(f, phase, n), o, 128, 10);
    HeaderOnlyAtStart(f, p);
    if p == 0 { CyclicWhole(f); }
  }

  predicate StartsAt(phase: nat, o: nat) { (phase + o) % 128 == 0 }

  lemma SeenAt(f: seq<bool>, phase: nat, a: seq<bool>, n: nat, o: nat)
    requires Frame(f) && n <= |a| && a[..n] == Cyclic(f, phase, n) && o + 128 <= n
    ensures Header(a, o) <==> StartsAt(phase, o)
    ensures Header(a, o) ==> a[o..o + 128] == f
  {
    hide ZerosThenOne, Frame, Cyclic;
    PatternInPrefix(a, n, o, 10);
    SliceOfPrefix(a, n, o, o + 128);
    HeaderAtPhase(f, phase, n, o);
  }

  /** No header is ever a false one: the search ends at the first, or runs out of bits. */
  lemma {:induction false} SearchRepeatedFrame(f: seq<bool>, phase: nat, a: seq<bool>, n: nat, o: nat)
    requires Frame(f) && n <= |a| && a[..n] == Cyclic(f, phase, n)
    ensures var r := Search(a, n, o);
      && (r.Some? ==> a[r.value..r.value + 128] == f && StartsAt(phase, r.value))
      && forall p :: o <= p && p + 128 <= n && StartsAt(phase, p) ==> r.Some? && r.value <= p
    decreases n - o
  {
    hide Header, StartsAt, Cyclic, Body, Controls, Data, Checksum;
    if o + 128 <= n {
      SeenAt(f, phase, a, n, o);
      if Header(a, o) {
        assert Body(f) && a[o..o + 128] == f;
        assert Search(a, n, o) == Some(o);
      } else {
        SearchRepeatedFrame(f, phase, a, n, o + 1);
        assert Search(a, n, o) == Search(a, n, o + 1);
      }
    }
  }

  lemma FirstStart(phase: nat) returns (o: nat)
    ensures o < 128 && StartsAt(phase, o)
  {
    o := (128 - phase % 128) % 128;
  }

  /**
   * decodeISO11785_FDX_B on a non-empty queue of the repeated telegram, entered at any phase: it finds
   * nothing or the telegram itself, and with 255 bits queued it does find it.
   */
  lemma DecodeRepeatedFrame(f: seq<bool>, phase: nat, ring: Ring<bool>)
    requires Frame(f) && ring.Valid() && ring.Len() > 0
    requires ring.Queue() == Cyclic(f, phase, ring.Len())
    ensures var o := Locate(ring);
      && (o.Some? ==> o.value + 128 <= ring.Len() && ring.All()[o.value..o.value + 128] == f)
      && (ring.Len() >= 255 ==> o.Some?)
  {
    hide Frame, StartsAt;
    SearchRepeatedFrame(f, phase, ring.All(), ring.Len(), 0);
    var o := FirstStart(phase);
    assert StartsAt(phase, o);
  }

  lemma {:induction false} SearchPrefix(a: seq<bool>, n: nat, o: nat)
    requires n <= |a|
    ensures Search(a, n, o) == Search(a[..n], n, o)
    decreases n - o
  {
    hide ZerosThenOne, Body;
    if o + 128 <= n {
      PatternInPrefix(a, n, o, 10);
      SliceOfPrefix(a, n, o, o + 128);
      SearchPrefix(a, n, o + 1);
      SearchPrefix(a, n, o + 12);
    }
  }

  /** What decodeISO11785_FDX_B finds in a non-empty queue depends on what is queued alone. */
  lemma QueueOnly(ring: Ring<bool>)
    requires ring.Valid() && ring.Len() > 0
    ensures Locate(ring) == Search(ring.Queue(), ring.Len(), 0)
  {
    hide Search;
    SearchPrefix(ring.All(), ring.Len(), 0);
  }

  // ----- what the search finds in any bits

  /** A header at place p is tried, unless it stands right behind a header that was tried, from place o on. */
  predicate Tried(q: seq<bool>, o: nat, p: nat)
    requires p + 11 <= |q|
    decreases p
  {
    o <= p && Header(q, p) && !(o + 11 <= p && Tried(q, o, p - 11))
  }

  /** The window at p is tried and passes. */
  predicate Passes(q: seq<bool>, o: nat, p: nat)
    requires p + 128 <= |q|
  {
    Tried(q, o, p) && Body(q[p..p + 128])
  }

  /** Nothing tried earlier reaches place o. */
  ghost predicate Clear(q: seq<bool>, from: nat, o: nat)
    requires o + 11 <= |q|
  {
    forall p :: from <= p < o && Tried(q, from, p) ==> p + 12 <= o
  }

  lemma TriedWhenClear(q: seq<bool>, from: nat, o: nat)
    requires o + 12 <= |q| && from <= o && Clear(q, from, o)
    ensures Tried(q, from, o) <==> Header(q, o)
    ensures !Header(q, o) ==> Clear(q, from, o + 1)
  {
    hide ZerosThenOne;
  }

  lemma ClearBehind(q: seq<bool>, from: nat, o: nat)
    requires o + 23 <= |q| && from <= o && Clear(q, from, o) && Header(q, o)
    ensures Clear(q, from, o + 12) && forall p :: o < p < o + 12 ==> !Tried(q, from, p)
  {
    TriedWhenClear(q, from, o);
    forall p | o < p < o + 12 ensures !Tried(q, from, p) {
      if p < o + 11 { assert q[o + 10]; }
    }
  }

  /** From such a place on the search comes to the first window that is tried and passes. */
  lemma {:induction false} SearchOn(q: seq<bool>, n: nat, from: nat, o: nat)
    requires n <= |q| && from <= o && (o + 128 <= n ==> Clear(q, from, o))
    ensures var r := Search(q, n, o);
      && (r.Some? ==> Passes(q, from, r.value))
      && forall p :: o <= p && p + 128 <= n && Passes(q, from, p) ==> r.Some? && r.value <= p
    decreases n - o
  {
    hide ZerosThenOne, Body, Clear, Tried;
    if o + 128 <= n {
      TriedWhenClear(q, from, o);
      if !Header(q, o) {
        SearchOn(q, n, from, o + 1);
      } else if !Body(q[o..o + 128]) {
        ClearBehind(q, from, o);
        SearchOn(q, n, from, o + 12);
      }
    }
  }

  /** In any bits the search finds the first window that is tried and passes the checks. */
  lemma SearchFinds(q: seq<bool>, n: nat, o: nat)
    requires n <= |q|
    ensures var r := Search(q, n, o);
      && (r.Some? ==> Passes(q, o, r.value))
      && forall p :: o <= p && p + 128 <= n && Passes(q, o, p) ==> r.Some? && r.value <= p
  {
    hide Search, Passes;
    SearchOn(q, n, o, o);
  }

  /**
   * With an empty queue the header test is skipped: the 128 slots at the read pointer are taken for a telegram
   * just when control bits and checksum fit. Failing that, the old slots of the whole ring are searched, and a
   * telegram is found just when a header among them that is not right behind another one is followed by good data.
   */
  lemma EmptyQueue(ring: Ring<bool>)
    requires ring.Valid() && ring.Len() == 0
    ensures Locate(ring) == Some(0) <==> Body(ring.All()[..128])
    ensures Locate(ring).Some? <==>
      Body(ring.All()[..128]) || exists o :: 12 <= o <= SIZE - 128 && Passes(ring.All(), 12, o)
    ensures Locate(ring).Some? && Locate(ring) != Some(0) ==> Passes(ring.All(), 12, Locate(ring).value)
  {
    hide Body, Search, Passes;
    SearchFinds(ring.All(), SIZE, 12);
  }

  /** A telegram whose data bits are changed, but only inside 16 consecutive ones, is always rejected. */
  lemma BurstRejected(f: seq<bool>, g: seq<bool>, k: nat)
    requires Frame(f) && |g| == 128 && k + 16 <= 64
    requires Checksum(g) == Checksum(f) && Data(g) != Data(f)
    requires Data(g)[..k] == Data(f)[..k] && Data(g)[k + 16..] == Data(f)[k + 16..]
    ensures !Body(g)
  {
    var d, e := Data(f), Data(g);
    assert d == d[..k] + d[k..k + 16] + d[k + 16..];
    assert e == d[..k] + e[k..k + 16] + d[k + 16..];
    BurstDetected(Zero, d[..k], d[k..k + 16], e[k..k + 16], d[k + 16..]);
    MsbEqual(Divide(Zero, d), Divide(Zero, e));
  }
}
