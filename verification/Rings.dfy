/** The reader's ring buffers: 1024 slots, a read and a write pointer, oldest data overwritten. */
module Rings {
  import opened Modulo

  datatype Option<+T> = None | Some(value: T)

  const SIZE: nat := 1024

  /** The slot i places after p, without a remainder operation. */
  function Slot(p: nat, i: nat): (s: nat)
    requires p < SIZE && i <= SIZE
    ensures s < SIZE
  {
    if p + i < SIZE then p + i else p + i - SIZE
  }

  /** All slots of a ring in reading order from slot p. */
  function From<T>(buf: seq<T>, p: nat): (s: seq<T>)
    requires |buf| == SIZE && p < SIZE
    ensures |s| == SIZE
    ensures forall i :: 0 <= i < SIZE ==> s[i] == buf[Slot(p, i)]
  {
    seq(SIZE, i requires 0 <= i < SIZE => buf[Slot(p, i)])
  }

  lemma SliceOfPrefix<T>(a: seq<T>, n: nat, o: nat, m: nat)
    requires o <= m <= n <= |a|
    ensures a[..n][o..m] == a[o..m]
  {
    forall i | 0 <= i < m - o ensures a[..n][o..m][i] == a[o..m][i] {
      assert a[..n][o + i] == a[o + i];
    }
  }

  /** A ring as a value: the slots and the two pointers. Equal pointers mean an empty queue. */
  datatype Ring<T> = Ring(buf: seq<T>, rd: nat, wr: nat) {

    predicate Valid() { |buf| == SIZE && rd < SIZE && wr < SIZE }

    function Len(): (n: nat)
      requires Valid()
      ensures n < SIZE
    {
      if wr >= rd then wr - rd else wr - rd + SIZE
    }

    /** Every slot, starting at the read pointer. */
    function All(): (s: seq<T>)
      requires Valid()
      ensures |s| == SIZE
    {
      From(buf, rd)
    }

    /** The unread data. */
    function Queue(): (s: seq<T>)
      requires Valid()
      ensures |s| == Len()
    {
      All()[..Len()]
    }

    /** Store x, advance the write pointer, and drop the oldest entry if the pointers met. */
    function Push(x: T): Ring<T>
      requires Valid()
    {
      var w := Slot(wr, 1);
      Ring(buf[wr := x], if w == rd then Slot(rd, 1) else rd, w)
    }

    lemma PushQueue(x: T)
      requires Valid()
      ensures Push(x).Valid()
      ensures Push(x).Queue() == if Len() == SIZE - 1 then Queue()[1..] + [x] else Queue() + [x]
    {
      var r := Push(x);
      var want := if Len() == SIZE - 1 then Queue()[1..] + [x] else Queue() + [x];
      assert |r.Queue()| == |want|;
      forall i | 0 <= i < r.Len() ensures r.Queue()[i] == want[i] {}
    }

    /** Advance the read pointer past k entries. */
    function Skip(k: nat): Ring<T>
      requires Valid() && k <= SIZE
    {
      this.(rd := Slot(rd, k))
    }

    lemma SkipQueue(k: nat)
      requires Valid() && k <= Len()
      ensures Skip(k).Valid() && Skip(k).Queue() == Queue()[k..]
    {
      assert Skip(k).Len() == Len() - k;
    }
  }

  /** How far the frame decoders look: the queue, but the whole ring when the queue is empty on entry. */
  ghost function Limit(r: Ring<bool>): (n: nat)
    requires r.Valid()
    ensures 0 < n <= SIZE
  {
    if r.Len() > 0 then r.Len() else SIZE
  }

  /** n entries of the endlessly repeated sequence f, from any phase. */
  function Cyclic<T>(f: seq<T>, phase: nat, n: nat): (s: seq<T>)
    requires |f| > 0
    ensures |s| == n
  {
    seq(n, i requires 0 <= i < n => f[(phase + i) % |f|])
  }

  /** Within one period of the phase, the entries are those of f, wrapped around once. */
  lemma CyclicAt<T>(f: seq<T>, p: nat, n: nat, i: nat)
    requires p < |f| && i < n && i < |f|
    ensures Cyclic(f, p, n)[i] == f[if p + i < |f| then p + i else p + i - |f|]
  {
    ModuloUnique(if p + i < |f| then 0 else 1, p + i, if p + i < |f| then p + i else p + i - |f|, |f|);
  }

  lemma WindowEntry<T>(f: seq<T>, phase: nat, n: nat, o: nat, len: nat, p: nat, i: nat)
    requires |f| > 0 && o + len <= n && i < len && p == (phase + o) % |f|
    ensures Cyclic(f, phase, n)[o + i] == Cyclic(f, p, len)[i]
  {
    AddModulo(phase + o, i, |f|);
  }

  lemma SameSlice<T>(a: seq<T>, o: nat, c: seq<T>)
    requires o + |c| <= |a| && forall i :: 0 <= i < |c| ==> a[o + i] == c[i]
    ensures a[o..o + |c|] == c
  {
  }

  /** A piece of a repetition is a repetition from a later phase. */
  lemma CyclicWindow<T>(f: seq<T>, phase: nat, n: nat, o: nat, len: nat)
    requires |f| > 0 && o + len <= n
    ensures Cyclic(f, phase, n)[o..o + len] == Cyclic(f, (phase + o) % |f|, len)
  {
    hide Cyclic;
    var p := (phase + o) % |f|;
    var a, c := Cyclic(f, phase, n), Cyclic(f, p, len);
    forall i | 0 <= i < len ensures a[o + i] == c[i] { WindowEntry(f, phase, n, o, len, p, i); }
    SameSlice(a, o, c);
  }

  lemma CyclicWhole<T>(f: seq<T>)
    requires |f| > 0
    ensures Cyclic(f, 0, |f|) == f
  {
    forall i | 0 <= i < |f| ensures Cyclic(f, 0, |f|)[i] == f[i] { CyclicAt(f, 0, |f|, i); }
  }
}
