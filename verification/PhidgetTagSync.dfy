/** Synchronisation on a repeated PhidgetTAG frame: its header of thirteen zeros stands nowhere else. */
module PhidgetTagSync {
  import opened Rings
  import opened Crc
  import opened Headers
  import opened PhidgetTag

  lemma NextOne(f: seq<bool>, p: nat) returns (c: nat)
    requires Frame(f) && 0 < p < 224
    ensures p <= c < p + 13 && c < 224 && f[c]
  {
    if p <= 13 { return 13; }
    if p <= 22 { return 22; }
    if p <= 31 { return 31; }
    var j := (p - 32) / 8;
    assert Controls(f, 24) && f[39 + 8 * j];
    return 39 + 8 * j;
  }

  lemma HeaderOnlyAtStart(f: seq<bool>, p: nat)
    requires Frame(f) && p < 224
    ensures Header(Cyclic(f, p, 224), 0) <==> p == 0
  {
    hide Cyclic, Controls;
    if p == 0 {
      CyclicWhole(f);
    } else {
      var c := NextOne(f, p);
      CyclicAt(f, p, 224, c - p);
    }
  }

  lemma HeaderAtPhase(f: seq<bool>, phase: nat, n: nat, o: nat)
    requires Frame(f) && o + 224 <= n
    ensures Header(Cyclic(f, phase, n), o) <==> (phase + o) % 224 == 0
    ensures Header(Cyclic(f, phase, n), o) ==> Cyclic(f, phase, n)[o..o + 224] == f
  {
    hide Cyclic, ZerosThenOne;
    var p := (phase + o) % 224;
    CyclicWindow(f, phase, n, o, 224);
    PatternInWindow(Cyclic(f, phase, n), o, 224, 13);
    HeaderOnlyAtStart(f, p);
    if p == 0 { CyclicWhole(f); }
  }

  predicate StartsAt(phase: nat, o: nat) { (phase + o) % 224 == 0 }

  lemma SeenAt(f: seq<bool>, phase: nat, a: seq<bool>, n: nat, o: nat)
    requires Frame(f) && n <= |a| && a[..n] == Cyclic(f, phase, n) && o + 224 <= n
    ensures Header(a, o) <==> StartsAt(phase, o)
    ensures Header(a, o) ==> a[o..o + 224] == f
  {
    hide ZerosThenOne, Frame, Cyclic;
    PatternInPrefix(a, n, o, 13);
    SliceOfPrefix(a, n, o, o + 224);
    HeaderAtPhase(f, phase, n, o);
  }

  lemma FrameAccepted(f: seq<bool>)
    requires Frame(f)
    ensures Body(Zero, f)
  {
    assert Accumulate(Zero, f) == Stored(f);
  }

  /** From one place on the entries are those of f, repeated. */
  ghost predicate Repeats(a: seq<bool>, from: nat, n: nat, f: seq<bool>, phase: nat)
    requires |f| > 0
  {
    from <= n <= |a| && a[from..n] == Cyclic(f, phase, n - from)
  }

  /** A copy begins at place p. */
  ghost predicate CopyAt(phase: nat, from: nat, p: nat) { from <= p && StartsAt(phase, p - from) }

  lemma SeenFrom(f: seq<bool>, phase: nat, a: seq<bool>, from: nat, n: nat, o: nat)
    requires Frame(f) && Repeats(a, from, n, f, phase) && from <= o && o + 224 <= n
    ensures Header(a, o) <==> CopyAt(phase, from, o)
    ensures Header(a, o) ==> a[o..o + 224] == f
  {
    hide ZerosThenOne, Frame, Cyclic;
    var b := a[from..];
    assert b[..n - from] == a[from..n];
    SeenAt(f, phase, b, n - from, o - from);
    assert b[o - from..o - from + 224] == a[o..o + 224];
    PatternInWindow(a, o, 224, 13);
    PatternInWindow(b, o - from, 224, 13);
  }

  /** No bit is set in the register that the frame's own CRC lacks. */
  predicate Within(left: Register, f: seq<bool>)
    requires |f| == 224
  {
    forall k :: 0 <= k < 16 && left[k] ==> Stored(f)[k]
  }

  /**
   * The CRC left over from failed attempts is or-ed into the next one: a good frame is then accepted
   * just when the leftover has no bit the frame's own CRC lacks, and what a refused frame leaves is no better.
   */
  lemma RetryAcceptsIff(left: Register, f: seq<bool>)
    requires Frame(f)
    ensures Body(left, f) <==> Within(left, f)
    ensures !Within(left, f) ==> !Within(Accumulate(left, f), f)
  {
    hide Controls, UpdateAll, CharBytes, Stored;
    var a := Accumulate(left, f);
    if a == Stored(f) {
      forall k | 0 <= k < 16 && left[k] ensures Stored(f)[k] { assert a[k]; }
    }
    if Within(left, f) {
      forall k | 0 <= k < 16 ensures a[k] == Stored(f)[k] {}
      assert a == Stored(f);
    } else {
      var k :| 0 <= k < 16 && left[k] && !Stored(f)[k];
      assert a[k];
    }
  }

  lemma SearchStep(a: seq<bool>, n: nat, o: nat, left: Register)
    requires o + 224 <= n <= |a|
    ensures !Header(a, o) ==> Search(a, n, o, left) == Search(a, n, o + 1, left)
    ensures Header(a, o) && Body(left, a[o..o + 224]) ==> Search(a, n, o, left) == Some(o)
    ensures Header(a, o) && !Body(left, a[o..o + 224]) ==>
      Search(a, n, o, left) == Search(a, n, o + 15, Accumulate(left, a[o..o + 224]))
  {
    hide Header, Body, Accumulate;
  }

  lemma SearchEnds(a: seq<bool>, n: nat, o: nat, left: Register)
    requires o + 224 > n && n <= |a|
    ensures Search(a, n, o, left) == None
  {
  }

  /**
   * The search, come to a repetition of f with something left in the register: if the frame's CRC covers
   * that, it ends at the first copy of the frame; if not, no copy is found, however many are queued.
   */
  lemma {:induction false} SearchRepetition(f: seq<bool>, phase: nat, a: seq<bool>, from: nat, n: nat, o: nat,
      left: Register)
    requires Frame(f) && Repeats(a, from, n, f, phase) && from <= o
    ensures var r := Search(a, n, o, left);
      && (r.Some? ==> Within(left, f) && a[r.value..r.value + 224] == f && CopyAt(phase, from, r.value))
      && forall p :: o <= p && p + 224 <= n && CopyAt(phase, from, p) && Within(left, f) ==> r.Some? && r.value <= p
    decreases n - o
  {
    assert |f| == 224 && n <= |a|;
    hide Header, CopyAt, Cyclic, Body, Frame, Accumulate, Within, Repeats, Search;
    if o + 224 > n {
      SearchEnds(a, n, o, left);
    } else {
      SeenFrom(f, phase, a, from, n, o);
      RetryAcceptsIff(left, f);
      SearchStep(a, n, o, left);
      if !Header(a, o) {
        SearchRepetition(f, phase, a, from, n, o + 1, left);
      } else if !Within(left, f) {
        SearchRepetition(f, phase, a, from, n, o + 15, Accumulate(left, f));
      }
    }
  }

  lemma FirstStart(phase: nat) returns (o: nat)
    ensures o < 224 && StartsAt(phase, o)
  {
    o := (224 - phase % 224) % 224;
  }

  /**
   * decodePHIDGETS_TAG on a non-empty queue of the repeated frame, entered at any phase: it finds
   * nothing or the frame itself, and with 447 bits queued it does find it.
   */
  lemma DecodeRepeatedFrame(f: seq<bool>, phase: nat, ring: Ring<bool>)
    requires Frame(f) && ring.Valid() && ring.Len() > 0
    requires ring.Queue() == Cyclic(f, phase, ring.Len())
    ensures var o := Locate(ring);
      && (o.Some? ==> o.value + 224 <= ring.Len() && ring.All()[o.value..o.value + 224] == f
                      && CopyAt(phase, 0, o.value))
      && (ring.Len() >= 447 ==> o.Some?)
  {
    assert |f| == 224;
    hide Frame, StartsAt, Search, Cyclic, Stored;
    assert ring.All()[0..ring.Len()] == ring.Queue();
    SearchRepetition(f, phase, ring.All(), 0, ring.Len(), 0, Zero);
    var o := FirstStart(phase);
    assert CopyAt(phase, 0, o);
  }

  lemma {:induction false} NoHeaderNoStop(q: seq<bool>, n: nat, o: nat, p: nat, left: Register)
    requires n <= |q| && o <= p && p + 224 <= n && forall i :: o <= i < p ==> !Header(q, i)
    ensures Search(q, n, o, left) == Search(q, n, p, left)
    decreases p - o
  {
    hide Header, Body, Accumulate;
    if o < p { NoHeaderNoStop(q, n, o + 1, p, left); }
  }

  /**
   * A false header at o, whose window fails, then nothing until the tag's frame starts to repeat: the tag
   * is found just when the CRC bits read from the failed window are all set in the tag's own CRC.
   */
  lemma FoundAfterFailureIff(q: seq<bool>, n: nat, o: nat, from: nat, f: seq<bool>)
    requires Frame(f) && o + 15 <= from && from + 224 <= n && Repeats(q, from, n, f, 0)
    requires Header(q, o) && !Body(Zero, q[o..o + 224]) && forall i :: o + 15 <= i < from ==> !Header(q, i)
    ensures Search(q, n, o, Zero) ==
      if Within(Accumulate(Zero, q[o..o + 224]), f) then Some(from) else None
  {
    assert |f| == 224 && n <= |q|;
    hide Header, Body, Frame, Accumulate, Within, Repeats, Cyclic;
    var left := Accumulate(Zero, q[o..o + 224]);
    assert Search(q, n, o, Zero) == Search(q, n, o + 15, left);
    NoHeaderNoStop(q, n, o + 15, from, left);
    SearchRepetition(f, 0, q, from, n, from, left);
    assert CopyAt(0, from, from);
  }

  lemma {:induction false} SearchPrefix(a: seq<bool>, n: nat, o: nat, left: Register)
    requires n <= |a|
    ensures Search(a, n, o, left) == Search(a[..n], n, o, left)
    decreases n - o
  {
    hide ZerosThenOne, Body, Accumulate;
    if o + 224 <= n {
      PatternInPrefix(a, n, o, 13);
      SliceOfPrefix(a, n, o, o + 224);
      SearchPrefix(a, n, o + 1, left);
      SearchPrefix(a, n, o + 15, Accumulate(left, a[o..o + 224]));
    }
  }

  /** What decodePHIDGETS_TAG finds in a non-empty queue depends on what is queued alone. */
  lemma QueueOnly(ring: Ring<bool>)
    requires ring.Valid() && ring.Len() > 0
    ensures Locate(ring) == Search(ring.Queue(), ring.Len(), 0, Zero)
  {
    hide Search;
    SearchPrefix(ring.All(), ring.Len(), 0, Zero);
  }

  // ----- what the search finds in any bits

  /** A header at place p is tried, unless it stands right behind a header that was tried, from place o on. */
  predicate Tried(q: seq<bool>, o: nat, p: nat)
    requires p + 14 <= |q|
    decreases p
  {
    o <= p && Header(q, p) && !(o + 14 <= p && Tried(q, o, p - 14))
  }

  /** What crcRead holds when the search comes to place p: the CRC bits of all windows tried before. */
  function Leftover(q: seq<bool>, o: nat, p: nat, left: Register): Register
    requires p + 223 <= |q|
    decreases p
  {
    if p <= o then left
    else
      var before := Leftover(q, o, p - 1, left);
      if Tried(q, o, p - 1) then Accumulate(before, q[p - 1..p + 223]) else before
  }

  /** The window at p is tried and passes with what is left over. */
  predicate Passes(q: seq<bool>, o: nat, p: nat, left: Register)
    requires p + 224 <= |q|
  {
    Tried(q, o, p) && Body(Leftover(q, o, p, left), q[p..p + 224])
  }

  /** Nothing tried earlier reaches place o. */
  ghost predicate Clear(q: seq<bool>, from: nat, o: nat)
    requires o + 14 <= |q|
  {
    forall p :: from <= p < o && Tried(q, from, p) ==> p + 15 <= o
  }

  lemma TriedWhenClear(q: seq<bool>, from: nat, o: nat)
    requires o + 15 <= |q| && from <= o && Clear(q, from, o)
    ensures Tried(q, from, o) <==> Header(q, o)
    ensures !Header(q, o) ==> Clear(q, from, o + 1)
  {
    hide ZerosThenOne;
  }

  lemma ClearBehind(q: seq<bool>, from: nat, o: nat)
    requires o + 29 <= |q| && from <= o && Clear(q, from, o) && Header(q, o)
    ensures Clear(q, from, o + 15) && forall p :: o < p < o + 15 ==> !Tried(q, from, p)
  {
    TriedWhenClear(q, from, o);
    forall p | o < p < o + 15 ensures !Tried(q, from, p) {
      if p < o + 14 { assert q[o + 13]; }
    }
  }

  lemma {:induction false} LeftoverSame(q: seq<bool>, from: nat, o: nat, p: nat, left: Register)
    requires from <= o <= p && p + 223 <= |q| && forall i :: o <= i < p ==> !Tried(q, from, i)
    ensures Leftover(q, from, p, left) == Leftover(q, from, o, left)
    decreases p
  {
    hide Tried, Accumulate;
    if o < p { LeftoverSame(q, from, o, p - 1, left); }
  }

  /** From such a place on the search comes to the first window that is tried and passes. */
  lemma {:induction false} SearchOn(q: seq<bool>, n: nat, from: nat, o: nat, left: Register)
    requires n <= |q| && from <= o && (o + 224 <= n ==> Clear(q, from, o)) && o + 223 <= |q|
    ensures var r := Search(q, n, o, Leftover(q, from, o, left));
      && (r.Some? ==> Passes(q, from, r.value, left))
      && forall p :: o <= p && p + 224 <= n && Passes(q, from, p, left) ==> r.Some? && r.value <= p
    decreases n - o
  {
    hide ZerosThenOne, Body, Clear, Tried, Accumulate, Search, Header;
    if o + 224 > n {
      SearchEnds(q, n, o, Leftover(q, from, o, left));
    } else {
      TriedWhenClear(q, from, o);
      SearchStep(q, n, o, Leftover(q, from, o, left));
      if !Header(q, o) {
        SearchOn(q, n, from, o + 1, left);
      } else if !Body(Leftover(q, from, o, left), q[o..o + 224]) {
        ClearBehind(q, from, o);
        if o + 15 + 224 <= n {
          LeftoverSame(q, from, o + 1, o + 15, left);
          SearchOn(q, n, from, o + 15, left);
        } else {
          SearchEnds(q, n, o + 15, Leftover(q, from, o + 1, left));
        }
      }
    }
  }

  /** In any bits the search finds the first window that is tried and passes the checks. */
  lemma SearchFinds(q: seq<bool>, n: nat, o: nat, left: Register)
    requires n <= |q|
    ensures var r := Search(q, n, o, left);
      && (r.Some? ==> Passes(q, o, r.value, left))
      && forall p :: o <= p && p + 224 <= n && Passes(q, o, p, left) ==> r.Some? && r.value <= p
  {
    hide Search, Passes;
    if o + 224 <= n { SearchOn(q, n, o, o, left); } else { SearchEnds(q, n, o, left); }
  }

  /**
   * With an empty queue the header test is skipped: the 224 slots at the read pointer are taken for a frame
   * just when control bits and CRC fit. Failing that, the old slots of the whole ring are searched, and a frame is
   * found just when some header that is tried is followed by good data, its CRC covering what earlier tries, the
   * first one included, have left over.
   */
  lemma EmptyQueue(ring: Ring<bool>)
    requires ring.Valid() && ring.Len() == 0
    ensures Locate(ring) == Some(0) <==> Body(Zero, ring.All()[..224])
    ensures var left := Accumulate(Zero, ring.All()[..224]);
      && (Locate(ring).Some? <==>
            Body(Zero, ring.All()[..224]) || exists o :: 15 <= o <= SIZE - 224 && Passes(ring.All(), 15, o, left))
      && (Locate(ring).Some? && Locate(ring) != Some(0) ==> Passes(ring.All(), 15, Locate(ring).value, left))
  {
    hide Body, Search, Accumulate, Passes;
    SearchFinds(ring.All(), SIZE, 15, Accumulate(Zero, ring.All()[..224]));
  }
}
