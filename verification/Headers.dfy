/** The start patterns of the biphase formats: a run of zeros, then a one. */
module Headers {
  import opened Rings

  predicate ZerosThenOne(q: seq<bool>, o: nat, zeros: nat)
    requires o + zeros < |q|
  {
    (forall i :: o <= i < o + zeros ==> !q[i]) && q[o + zeros]
  }

  /** The decoders' test for a start pattern at slot my. */
  method PatternAt(data: array<bool>, my: nat, zeros: nat, ghost start: nat, ghost o: nat) returns (foundStart: bool)
    requires data.Length == SIZE && start < SIZE && o + zeros < SIZE && my == Slot(start, o)
    ensures foundStart == ZerosThenOne(From(data[..], start), o, zeros)
  {
    foundStart := true;
    var i := 0;
    while i < zeros
      invariant 0 <= i <= zeros
      invariant foundStart && forall j :: o <= j < o + i ==> !From(data[..], start)[j]
    {
      assert data[Slot(my, i)] == From(data[..], start)[o + i];
      if data[Slot(my, i)] {
        foundStart := false;
        break;
      }
      i := i + 1;
    }
    assert data[Slot(my, zeros)] == From(data[..], start)[o + zeros];
    if !data[Slot(my, zeros)] { foundStart := false; }
  }

  lemma PatternInWindow(q: seq<bool>, o: nat, n: nat, zeros: nat)
    requires zeros < n && o + n <= |q|
    ensures ZerosThenOne(q, o, zeros) <==> ZerosThenOne(q[o..o + n], 0, zeros)
  {
    var w := q[o..o + n];
    assert w[zeros] == q[o + zeros];
    assert forall i :: o <= i < o + zeros ==> q[i] == w[i - o];
    assert forall i :: 0 <= i < zeros ==> w[i] == q[o + i];
  }

  lemma PatternInPrefix(a: seq<bool>, n: nat, o: nat, zeros: nat)
    requires n <= |a| && o + zeros < n
    ensures ZerosThenOne(a, o, zeros) <==> ZerosThenOne(a[..n], o, zeros)
  {
    assert forall i :: 0 <= i < n ==> a[..n][i] == a[i];
  }
}
