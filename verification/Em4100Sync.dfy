/** What the EM4100 checks are worth: synchronisation on a repeated frame, and error detection. */
module Em4100Sync {
  import opened Rings
  import opened Em4100

  // ----- synchronisation

  /** A window of the repeated frame that is out of step never passes header and checks together. */
  lemma NoFalseStart(f: seq<bool>, p: nat)
    requires Frame(f) && 0 < p < 64
    ensures !Frame(Cyclic(f, p, 64))
  {
    hide Cyclic, ColumnOk;
    var w := Cyclic(f, p, 64);
    if p <= 8 {
      CyclicAt(f, p, 64, 63);
    } else if p > 54 {
      CyclicAt(f, p, 64, 63 - p);
    } else if Header(w, 0) {
      // nine ones in a row cover a whole row of five, whose parity is even
      var r := (p - 5) / 5;
      var d := 9 + 5 * r - p;
      assert 0 <= d <= 4;
      assert RowOk(f, r);
      forall i | p <= i < p + 9 ensures f[i] {
        CyclicAt(f, p, 64, i - p);
        assert w[i - p];
      }
    }
  }

  /** In the repeated frame, entered anywhere, a frame is seen exactly where one starts. */
  lemma FramesAreWhereSent(f: seq<bool>, phase: nat, n: nat, o: nat)
    requires Frame(f)
    ensures FrameAt(Cyclic(f, phase, n), o) <==> o + 64 <= n && (phase + o) % 64 == 0
    ensures FrameAt(Cyclic(f, phase, n), o) ==> Cyclic(f, phase, n)[o..o + 64] == f
  {
    hide Cyclic, Body;
    if o + 64 <= n {
      var p := (phase + o) % 64;
      var q := Cyclic(f, phase, n);
      CyclicWindow(f, phase, n, o, 64);
      assert Header(q, o) <==> Header(q[o..o + 64], 0) by {
        assert forall i :: o <= i < o + 9 ==> q[i] == q[o..o + 64][i - o];
      }
      if p == 0 { CyclicWhole(f); } else { NoFalseStart(f, p); }
    }
  }

  lemma FrameAtPrefix(a: seq<bool>, n: nat, o: nat)
    requires n <= |a| && o + 64 <= n
    ensures FrameAt(a, o) == FrameAt(a[..n], o) && a[o..o + 64] == a[..n][o..o + 64]
  {
    SliceOfPrefix(a, n, o, o + 64);
    assert Header(a, o) <==> Header(a[..n], o) by {
      assert forall i :: 0 <= i < n ==> a[..n][i] == a[i];
    }
  }

  predicate StartsAt(phase: nat, o: nat) { (phase + o) % 64 == 0 }

  lemma SeenAt(f: seq<bool>, phase: nat, a: seq<bool>, n: nat, o: nat)
    requires Frame(f) && n <= |a| && a[..n] == Cyclic(f, phase, n) && o + 64 <= n
    ensures FrameAt(a, o) <==> StartsAt(phase, o)
    ensures FrameAt(a, o) ==> a[o..o + 64] == f
  {
    hide Frame, Cyclic, FrameAt;
    FrameAtPrefix(a, n, o);
    FramesAreWhereSent(f, phase, n, o);
  }

  lemma FirstStart(phase: nat) returns (o: nat)
    ensures o < 64 && StartsAt(phase, o)
  {
    o := (64 - phase % 64) % 64;
  }

  lemma SearchRepeatedFrame(f: seq<bool>, phase: nat, a: seq<bool>, n: nat)
    requires Frame(f) && n <= |a| && a[..n] == Cyclic(f, phase, n)
    ensures var o := Search(a, n, 0);
      && (o.Some? ==> a[o.value..o.value + 64] == f && StartsAt(phase, o.value))
      && (n >= 127 ==> o.Some?)
  {
    hide Frame, Cyclic, FrameAt, StartsAt;
    if n >= 127 {
      var o := FirstStart(phase);
      SeenAt(f, phase, a, n, o);
    }
    var r := Search(a, n, 0);
    if r.Some? { SeenAt(f, phase, a, n, r.value); }
  }

  /**
   * decodeEM4100 on a non-empty queue of the repeated frame, entered at any phase: it finds nothing
   * or the frame itself, and with 127 bits queued it does find it.
   */
  lemma DecodeRepeatedFrame(f: seq<bool>, phase: nat, ring: Ring<bool>)
    requires Frame(f) && ring.Valid() && ring.Len() > 0
    requires ring.Queue() == Cyclic(f, phase, ring.Len())
    ensures var o := Locate(ring);
      && (o.Some? ==> o.value + 64 <= ring.Len() && ring.All()[o.value..o.value + 64] == f && StartsAt(phase, o.value))
      && (ring.Len() >= 127 ==> o.Some?)
  {
    hide Frame, Cyclic, FrameAt, StartsAt;
    SearchRepeatedFrame(f, phase, ring.All(), ring.Len());
  }

  lemma {:induction false} SearchPrefix(a: seq<bool>, n: nat, o: nat)
    requires n <= |a|
    ensures Search(a, n, o) == Search(a[..n], n, o)
    decreases n - o
  {
    hide FrameAt;
    if o + 64 <= n {
      FrameAtPrefix(a, n, o);
      SearchPrefix(a, n, o + 1);
    }
  }

  /** What decodeEM4100 finds in a non-empty queue is the first whole frame queued; older slots do not matter. */
  lemma QueueOnly(ring: Ring<bool>)
    requires ring.Valid() && ring.Len() > 0
    ensures Locate(ring) == Search(ring.Queue(), ring.Len(), 0)
  {
    hide Search;
    SearchPrefix(ring.All(), ring.Len(), 0);
  }

  /**
   * With an empty queue the header test is skipped: the 64 slots at the read pointer are taken for a frame
   * just when stop bit and parities fit, and failing that any frame in the ring is.
   */
  lemma EmptyQueue(ring: Ring<bool>)
    requires ring.Valid() && ring.Len() == 0
    ensures Locate(ring) == Some(0) <==> Body(ring.All()[..64])
    ensures Locate(ring).Some? <==>
      Body(ring.All()[..64]) || exists o :: 1 <= o <= SIZE - 64 && FrameAt(ring.All(), o)
  {
    hide Body, FrameAt;
    var r := Search(ring.All(), SIZE, 1);
    if r.Some? { assert FrameAt(ring.All(), r.value); }
  }

  /** Slots that were never written pass. */
  lemma ZerosPass(w: seq<bool>)
    requires |w| == 64 && forall i :: 0 <= i < 64 ==> !w[i]
    ensures Body(w)
  {
    forall c | 0 <= c < 4 ensures ColumnOk(w, c) { ZeroColumn(w, c, 10); }
  }

  lemma {:induction false} ZeroColumn(w: seq<bool>, c: nat, k: nat)
    requires |w| == 64 && (forall i :: 0 <= i < 64 ==> !w[i]) && c < 4 && k <= 10
    ensures !ColumnSum(w, c, k)
  {
    if k > 0 { ZeroColumn(w, c, k - 1); }
  }

  // ----- error detection

  lemma {:induction false} ColumnSumChange(v: seq<bool>, w: seq<bool>, c: nat, r: nat, k: nat)
    requires |v| == |w| == 64 && c < 4 && r < 10 && k <= 10
    requires v[9 + c + 5 * r] != w[9 + c + 5 * r]
    requires forall i :: 0 <= i < 10 && i != r ==> v[9 + c + 5 * i] == w[9 + c + 5 * i]
    ensures (ColumnSum(v, c, k) != ColumnSum(w, c, k)) == (r < k)
  {
    if k > 0 { ColumnSumChange(v, w, c, r, k - 1); }
  }

  /** A changed data bit shows up a second time in its column. */
  lemma ColumnPartner(v: seq<bool>, w: seq<bool>, r: nat, c: nat) returns (p: nat)
    requires Frame(v) && Frame(w) && r < 10 && c < 4 && v[9 + 5 * r + c] != w[9 + 5 * r + c]
    ensures p < 64 && v[p] != w[p] && p != 9 + 5 * r + c && p % 5 == (9 + c) % 5
  {
    assert ColumnOk(v, c) && ColumnOk(w, c);
    if v[59 + c] != w[59 + c] { return 59 + c; }
    if forall i :: 0 <= i < 10 && i != r ==> v[9 + c + 5 * i] == w[9 + c + 5 * i] {
      ColumnSumChange(v, w, c, r, 10);
      assert false;
    }
    var i :| 0 <= i < 10 && i != r && v[9 + c + 5 * i] != w[9 + c + 5 * i];
    p := 9 + c + 5 * i;
  }

  /** A changed bit shows up a second time in its row. */
  lemma RowPartner(v: seq<bool>, w: seq<bool>, r: nat, c: nat) returns (d: nat)
    requires Frame(v) && Frame(w) && r < 10 && c < 5 && v[9 + 5 * r + c] != w[9 + 5 * r + c]
    ensures d < 5 && d != c && v[9 + 5 * r + d] != w[9 + 5 * r + d]
  {
    assert RowOk(v, r) && RowOk(w, r);
    d := if c != 0 && v[9 + 5 * r] != w[9 + 5 * r] then 0
         else if c != 1 && v[9 + 5 * r + 1] != w[9 + 5 * r + 1] then 1
         else if c != 2 && v[9 + 5 * r + 2] != w[9 + 5 * r + 2] then 2
         else if c != 3 && v[9 + 5 * r + 3] != w[9 + 5 * r + 3] then 3
         else 4;
  }

  /** Two different frames that both pass every check differ in at least three places. */
  lemma MinimumDistance(v: seq<bool>, w: seq<bool>)
    requires Frame(v) && Frame(w) && v != w
    ensures exists a, b, c :: 0 <= a < 64 && 0 <= b < 64 && 0 <= c < 64 && a != b && b != c && a != c
                              && v[a] != w[a] && v[b] != w[b] && v[c] != w[c]
  {
    var r, c := ChangedDataBit(v, w);
    var a := 9 + 5 * r + c;
    var p := ColumnPartner(v, w, r, c);
    var d := RowPartner(v, w, r, c);
    var b := 9 + 5 * r + d;
    assert p != b;
    assert v[a] != w[a] && v[b] != w[b] && v[p] != w[p];
  }

  lemma ChangedDataBit(v: seq<bool>, w: seq<bool>) returns (r: nat, c: nat)
    requires Frame(v) && Frame(w) && v != w
    ensures r < 10 && c < 4 && v[9 + 5 * r + c] != w[9 + 5 * r + c]
  {
    var p :| 0 <= p < 64 && v[p] != w[p];
    if p < 59 {
      r, c := (p - 9) / 5, (p - 9) % 5;
      if c == 4 { c := RowPartner(v, w, r, c); }
    } else {
      c := p - 59;
      assert ColumnOk(v, c) && ColumnOk(w, c);
      if i :| 0 <= i < 10 && v[9 + 5 * i + c] != w[9 + 5 * i + c] { return i, c; }
      ColumnSumSame(v, w, c, 10);
      assert false;
    }
  }

  lemma {:induction false} ColumnSumSame(v: seq<bool>, w: seq<bool>, c: nat, k: nat)
    requires |v| == |w| == 64 && c < 4 && k <= 10
    requires forall i :: 0 <= i < 10 ==> v[9 + 5 * i + c] == w[9 + 5 * i + c]
    ensures ColumnSum(v, c, k) == ColumnSum(w, c, k)
  {
    if k > 0 { ColumnSumSame(v, w, c, k - 1); }
  }

  /** So one or two wrong bits in a frame are always rejected at that alignment. */
  lemma TwoErrorsDetected(f: seq<bool>, i: nat, j: nat)
    requires Frame(f) && i < 64 && j < 64
    ensures !Frame(f[i := !f[i]])
    ensures i != j ==> !Frame(f[i := !f[i]][j := !f[j]])
  {
    var g := f[i := !f[i]];
    if Frame(g) { MinimumDistance(f, g); }
    var h := g[j := !f[j]];
    if i != j && Frame(h) {
      assert f[i] != h[i];
      MinimumDistance(f, h);
    }
  }
}
