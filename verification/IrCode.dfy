/** Infrared codes: space coding into packet bytes, decoding from pulse and space lengths, and the round trip. */
module IrCode {
  import opened Words
  import opened Rings
  import opened Blocks
  import opened Modulo
  import opened IrBiphase

  datatype Status = Ok | NoMemory | InvalidArg

  /** A space code: every bit is a pulse and a space. A header of 0 is none; lengths are in microseconds. */
  datatype CodeInfo = CodeInfo(bitCount: nat, header: (nat, nat), one: (nat, nat), zero: (nat, nat), trail: nat,
    repeatCode: seq<nat>)

  // ----- lengths in bytes

  const LONGEST: nat := 327670

  /** TIME_TO_PACKET: tens of microseconds, in one byte up to 1270 us, in two above. */
  function PackOne(us: nat): (s: seq<nat>)
    requires us <= LONGEST
    ensures 1 <= |s| <= 2 && forall i :: 0 <= i < |s| ==> s[i] < 256
  {
    if us > 1270 then [us / 10 / 256 + 128, us / 10 % 256] else [us / 10 % 256]
  }

  datatype Packed = Packed(status: Status, data: seq<nat>, time: int)

  function Put(p: Packed, capacity: nat, us: nat): Packed {
    if p.status != Ok then p
    else if |p.data| + 2 >= capacity then p.(status := NoMemory)
    else if us > LONGEST then p.(status := InvalidArg)
    else Packed(Ok, p.data + PackOne(us), p.time + us)
  }

  function PutAll(capacity: nat, times: seq<nat>): Packed {
    if times == [] then Packed(Ok, [], 0) else Put(PutAll(capacity, times[..|times| - 1]), capacity, times[|times| - 1])
  }

  /** How many bytes a length takes that begins with the given one. */
  function Width(b: nat): (w: nat)
    ensures 1 <= w <= 2
  {
    if b >= 128 then 2 else 1
  }

  /** The length at the front. */
  function First(bytes: seq<nat>): nat
    requires bytes != [] && Width(bytes[0]) <= |bytes|
  {
    if bytes[0] >= 128 then ((bytes[0] - 128) * 256 + bytes[1]) * 10 else bytes[0] * 10
  }

  /** How the device reads the bytes. */
  function Expand(bytes: seq<nat>): seq<nat> {
    if bytes == [] || |bytes| < Width(bytes[0]) then [] else [First(bytes)] + Expand(bytes[Width(bytes[0])..])
  }

  function Sum(times: seq<nat>): nat {
    if times == [] then 0 else Sum(times[..|times| - 1]) + times[|times| - 1]
  }

  predicate WholeTens(times: seq<nat>) { forall i :: 0 <= i < |times| ==> times[i] % 10 == 0 && times[i] <= LONGEST }

  /** A row of whole packets. */
  predicate Whole(bytes: seq<nat>)
    decreases |bytes|
  {
    bytes == [] || (Width(bytes[0]) <= |bytes| && Whole(bytes[Width(bytes[0])..]))
  }

  lemma FirstMore(a: seq<nat>, b: seq<nat>)
    requires a != [] && Width(a[0]) <= |a|
    ensures First(a + b) == First(a) && (a + b)[0] == a[0] && (a + b)[Width(a[0])..] == a[Width(a[0])..] + b
  {
  }

  lemma ExpandCons(s: seq<nat>)
    requires s != [] && Width(s[0]) <= |s|
    ensures Expand(s) == [First(s)] + Expand(s[Width(s[0])..])
    ensures Whole(s) <==> Whole(s[Width(s[0])..])
  {
    hide First, Width;
  }

  lemma ExpandNothing(b: seq<nat>)
    ensures [] + b == b && Expand([]) + Expand(b) == Expand(b)
  {
  }

  lemma WholeFront(a: seq<nat>)
    requires a != [] && Whole(a)
    ensures Width(a[0]) <= |a| && Whole(a[Width(a[0])..])
  {
    hide Width;
  }

  lemma {:induction false} ExpandMore(a: seq<nat>, b: seq<nat>)
    requires Whole(a)
    ensures Expand(a + b) == Expand(a) + Expand(b) && (Whole(b) ==> Whole(a + b))
    decreases |a|
  {
    hide First, Width, Expand, Whole;
    if a == [] {
      ExpandNothing(b);
    } else {
      WholeFront(a);
      FirstMore(a, b);
      var rest := a[Width(a[0])..];
      ExpandCons(a);
      ExpandCons(a + b);
      ExpandMore(rest, b);
      Associates([First(a)], Expand(rest), Expand(b));
    }
  }

  lemma Associates(a: seq<nat>, b: seq<nat>, c: seq<nat>)
    ensures a + (b + c) == (a + b) + c
  {
  }

  lemma ExpandOne(us: nat)
    requires us <= LONGEST
    ensures Whole(PackOne(us)) && Expand(PackOne(us)) == [us - us % 10]
  {
    var s := PackOne(us);
    var n := us / 10;
    assert n == n / 256 * 256 + n % 256;
    assert s[1..] == if us > 1270 then [n % 256] else [];
    assert us > 1270 ==> s[2..] == [];
  }

  /** Lengths cut off to whole tens of microseconds. */
  function InTens(times: seq<nat>): (r: seq<nat>)
    ensures |r| == |times| && (WholeTens(times) ==> r == times)
  {
    seq(|times|, i requires 0 <= i < |times| => times[i] - times[i] % 10)
  }

  lemma InTensMore(times: seq<nat>)
    requires times != []
    ensures var n := |times| - 1; InTens(times) == InTens(times[..n]) + [times[n] - times[n] % 10]
  {
  }

  predicate Sendable(times: seq<nat>) { forall i :: 0 <= i < |times| ==> times[i] <= LONGEST }

  /** The bytes of the lengths expand to the lengths, in whole tens of microseconds. */
  lemma {:induction false} ExpandInTens(capacity: nat, times: seq<nat>)
    requires Sendable(times) && 2 * |times| + 1 <= capacity
    ensures var p := PutAll(capacity, times);
      && p.status == Ok && |p.data| <= 2 * |times| && Whole(p.data) && Expand(p.data) == InTens(times)
      && p.time == Sum(times)
  {
    if times != [] {
      var before, us := times[..|times| - 1], times[|times| - 1];
      ExpandInTens(capacity, before);
      ExpandOne(us);
      hide PackOne, Expand, Whole, InTens;
      ExpandMore(PutAll(capacity, before).data, PackOne(us));
      InTensMore(times);
    }
  }

  lemma ExpandPacked(capacity: nat, times: seq<nat>)
    requires WholeTens(times) && 2 * |times| + 1 <= capacity
    ensures var p := PutAll(capacity, times);
      p.status == Ok && |p.data| <= 2 * |times| && Whole(p.data) && Expand(p.data) == times && p.time == Sum(times)
  {
    ExpandInTens(capacity, times);
  }

  // ----- the lengths of a code

  /** The bits sent: the last bitCount of the bytes, the first byte holding what does not fill a byte. */
  function SentBits(code: seq<Word>, bitCount: nat): (bits: seq<bool>)
    requires Bytes(code) && bitCount <= 8 * |code|
    ensures |bits| == bitCount
  {
    StreamLength(code);
    Stream(code)[8 * |code| - bitCount..]
  }

  function BitTimes(info: CodeInfo, bits: seq<bool>): (times: seq<nat>)
    ensures |times| == 2 * |bits|
  {
    if bits == [] then []
    else
      var t := if bits[|bits| - 1] then info.one else info.zero;
      BitTimes(info, bits[..|bits| - 1]) + [t.0, t.1]
  }

  function HeaderTimes(info: CodeInfo): seq<nat> { if info.header.0 != 0 then [info.header.0, info.header.1] else [] }

  function CodeTimes(info: CodeInfo, bits: seq<bool>, again: bool): seq<nat> {
    if again && info.repeatCode != [] then info.repeatCode
    else HeaderTimes(info) + BitTimes(info, bits) + [info.trail]
  }

  // ----- taking the last length away again

  /** As many bytes as the length takes, and its time. */
  function Remove(p: Packed, us: nat): Packed
    requires |p.data| >= 2
  {
    Packed(Ok, p.data[..|p.data| - (if us > 1270 then 2 else 1)], p.time - us)
  }

  lemma LastPut(capacity: nat, times: seq<nat>, us: nat)
    requires PutAll(capacity, times + [us]).status == Ok
    ensures us <= LONGEST
    ensures var p := PutAll(capacity, times);
      p.status == Ok && PutAll(capacity, times + [us]) == Packed(Ok, p.data + PackOne(us), p.time + us)
  {
    hide PackOne;
    var all := times + [us];
    assert all[..|all| - 1] == times && all[|all| - 1] == us;
    assert PutAll(capacity, all) == Put(PutAll(capacity, times), capacity, us);
  }

  lemma {:induction false} PutSize(capacity: nat, times: seq<nat>)
    requires PutAll(capacity, times).status == Ok
    ensures |PutAll(capacity, times).data| >= |times|
  {
    hide PackOne;
    if times != [] {
      PutSize(capacity, times[..|times| - 1]);
      assert times == times[..|times| - 1] + [times[|times| - 1]];
      LastPut(capacity, times[..|times| - 1], times[|times| - 1]);
    }
  }

  /** Taking away length us leaves what was there before the last length just when us is the last length. */
  lemma RemoveLastIff(capacity: nat, times: seq<nat>, last: nat, us: nat)
    requires PutAll(capacity, times + [last]).status == Ok && times != []
    ensures var p := PutAll(capacity, times + [last]);
      |p.data| >= 2 && (Remove(p, us) == PutAll(capacity, times) <==> us == last)
  {
    hide PutAll;
    LastPut(capacity, times, last);
    PutSize(capacity, times);
    var p, q := PutAll(capacity, times + [last]), PutAll(capacity, times);
    assert |p.data| == |q.data| + |PackOne(last)|;
    if us == last { assert (q.data + PackOne(last))[..|q.data|] == q.data; }
  }

  // ----- decoding: which lengths there are

  /** Room for four different lengths; 0 is an empty place. */
  type Slots = s: seq<nat> | |s| == 5 witness [0, 0, 0, 0, 0]

  predicate Fits(s: Slots, k: nat, t: nat)
    requires k < 5
  {
    s[k] == t || s[k] == 0
  }

  datatype Count = Count(slots: Slots, n: nat)

  function Larger(a: nat, b: nat): nat { if a < b then b else a }

  /** COUNT_TIMES for the four places; None if all hold other lengths. */
  function Note(c: Count, t: nat): Option<Count> {
    if Fits(c.slots, 0, t) then Some(Count(c.slots[0 := t], Larger(c.n, 1)))
    else if Fits(c.slots, 1, t) then Some(Count(c.slots[1 := t], Larger(c.n, 2)))
    else if Fits(c.slots, 2, t) then Some(Count(c.slots[2 := t], Larger(c.n, 3)))
    else if Fits(c.slots, 3, t) then Some(Count(c.slots[3 := t], Larger(c.n, 4)))
    else None
  }

  const NONE: Count := Count([0, 0, 0, 0, 0], 0)

  /** The lengths at even places, the pulses, and at odd places, the spaces, among the first i. */
  function Counted(data: seq<nat>, i: nat): Option<(Count, Count)>
    requires i <= |data|
  {
    if i == 0 then Some((NONE, NONE))
    else
      match Counted(data, i - 1)
      case None => None
      case Some((highs, lows)) =>
        if (i - 1) % 2 == 0 then
          match Note(highs, data[i - 1]) case None => None case Some(c) => Some((c, lows))
        else
          match Note(lows, data[i - 1]) case None => None case Some(c) => Some((highs, c))
  }

  /** Lengths up to a place, all different and none 0, and zeros behind them. */
  predicate Filled(c: Count) {
    c.n <= 4 && (forall i :: 0 <= i < 5 ==> (c.slots[i] != 0 <==> i < c.n))
    && forall i, j :: 0 <= i < j < c.n ==> c.slots[i] != c.slots[j]
  }

  /** One more length: it is among the places already, or takes the next one, or there is none left. */
  lemma NoteExact(c: Count, t: nat)
    requires Filled(c) && t > 0
    ensures var s := c.slots[..c.n];
      && (t in s ==> Note(c, t) == Some(c))
      && (t !in s && c.n == 4 ==> Note(c, t) == None)
      && (t !in s && c.n < 4 ==>
            Note(c, t).Some? && var d := Note(c, t).value; Filled(d) && d.n == c.n + 1 && d.slots[..d.n] == s + [t])
  {
    hide Larger;
    var s := c.slots[..c.n];
    assert forall k :: 0 <= k < c.n ==> s[k] == c.slots[k];
    NoteAt(c, t);
  }

  lemma NoteAt(c: Count, t: nat)
    requires Filled(c) && t > 0
    ensures forall k :: 0 <= k < c.n && c.slots[k] == t ==> Note(c, t) == Some(c)
    ensures (forall k :: 0 <= k < c.n ==> c.slots[k] != t) ==>
      Note(c, t) == if c.n == 4 then None else Some(Count(c.slots[c.n := t], c.n + 1))
  {
    assert forall k :: 0 <= k < 5 && c.slots[k] == t ==> c.slots[k := t] == c.slots;
  }

  /** The lengths at places of one kind among the first i: even places for the pulses, odd ones for the spaces. */
  function LengthsAt(data: seq<nat>, i: nat, place: nat): set<nat>
    requires i <= |data|
  {
    set k | 0 <= k < i && k % 2 == place :: data[k]
  }

  function SetOf(s: seq<nat>): set<nat> { set x | x in s }

  /** The places hold just the lengths in the set. */
  predicate Lists(c: Count, lengths: set<nat>) {
    Filled(c) && |lengths| == c.n && SetOf(c.slots[..c.n]) == lengths
  }

  lemma SetOfMore(s: seq<nat>, t: nat)
    ensures SetOf(s + [t]) == SetOf(s) + {t}
    ensures t in s <==> t in SetOf(s)
  {
  }

  lemma ListsMore(c: Count, lengths: set<nat>, t: nat)
    requires Lists(c, lengths) && t > 0
    ensures match Note(c, t)
      case None => |lengths + {t}| > 4
      case Some(d) => Lists(d, lengths + {t})
  {
    hide Note, SetOf;
    NoteExact(c, t);
    SetOfMore(c.slots[..c.n], t);
    if t in lengths { assert lengths + {t} == lengths; } else { assert |lengths + {t}| == |lengths| + 1; }
  }

  lemma LengthsMore(data: seq<nat>, i: nat, place: nat)
    requires i < |data|
    ensures LengthsAt(data, i + 1, place) ==
      if i % 2 == place then LengthsAt(data, i, place) + {data[i]} else LengthsAt(data, i, place)
  {
  }

  lemma CountedMore(data: seq<nat>, i: nat, highs: Count, lows: Count)
    requires i < |data| && data[i] > 0 && Counted(data, i) == Some((highs, lows))
    requires Lists(highs, LengthsAt(data, i, 0)) && Lists(lows, LengthsAt(data, i, 1))
    ensures match Counted(data, i + 1)
      case None => |LengthsAt(data, i + 1, 0)| > 4 || |LengthsAt(data, i + 1, 1)| > 4
      case Some((h, l)) => Lists(h, LengthsAt(data, i + 1, 0)) && Lists(l, LengthsAt(data, i + 1, 1))
  {
    LengthsMore(data, i, 0);
    LengthsMore(data, i, 1);
    var place := i % 2;
    ListsMore(if place == 0 then highs else lows, LengthsAt(data, i, place), data[i]);
    hide LengthsAt, Lists, Note;
  }

  /**
   * Counting lists the different lengths of the pulses and of the spaces, and fails just when there are more than four
   * of one of them.
   */
  lemma {:induction false} CountedExact(data: seq<nat>, i: nat)
    requires i <= |data| && forall k :: 0 <= k < |data| ==> data[k] > 0
    ensures match Counted(data, i)
      case None => |LengthsAt(data, i, 0)| > 4 || |LengthsAt(data, i, 1)| > 4
      case Some((highs, lows)) => Lists(highs, LengthsAt(data, i, 0)) && Lists(lows, LengthsAt(data, i, 1))
  {
    if i == 0 {
      assert LengthsAt(data, 0, 0) == LengthsAt(data, 0, 1) == {};
    } else {
      CountedExact(data, i - 1);
      match Counted(data, i - 1)
      case None => StillMany(data, i - 1);
      case Some((highs, lows)) => CountedMore(data, i - 1, highs, lows);
    }
  }

  lemma StillMany(data: seq<nat>, i: nat)
    requires i < |data| && (|LengthsAt(data, i, 0)| > 4 || |LengthsAt(data, i, 1)| > 4)
    ensures |LengthsAt(data, i + 1, 0)| > 4 || |LengthsAt(data, i + 1, 1)| > 4
  {
    LengthsMore(data, i, 0);
    LengthsMore(data, i, 1);
    hide LengthsAt;
    Grown(LengthsAt(data, i, 0), data[i]);
    Grown(LengthsAt(data, i, 1), data[i]);
  }

  lemma Grown(s: set<nat>, x: nat)
    ensures |s + {x}| >= |s|
  {
    if x in s { assert s + {x} == s; }
  }

  /** ORDER_TIMES */
  function Order(s: Slots, k: nat): Slots
    requires k < 4
  {
    if s[k + 1] != 0 && s[k + 1] < s[k] then s[k := s[k + 1]][k + 1 := s[k]] else s
  }

  function Pass(s: Slots): Slots { Order(Order(Order(Order(s, 0), 1), 2), 3) }

  function Sorted(s: Slots, passes: nat): Slots {
    if passes == 0 then s else Pass(Sorted(s, passes - 1))
  }

  predicate Leading(s: Slots, n: nat) { n <= 4 && forall i :: 0 <= i < 5 ==> (s[i] != 0 <==> i < n) }

  predicate Different(s: Slots, n: nat)
    requires n <= 4
  {
    forall i, j :: 0 <= i < j < n ==> s[i] != s[j]
  }

  /** The last m of n places are in order, and not below the others. */
  predicate Bubbled(s: Slots, n: nat, m: nat)
    requires n <= 4
  {
    forall i, j :: 0 <= i < j < n && j + m >= n ==> s[i] <= s[j]
  }

  /** The longest of the lengths not yet in order has been carried along to place k, or as far as it goes. */
  predicate CarriedTo(s: Slots, n: nat, m: nat, k: nat)
    requires k <= 4
  {
    m >= n || (var top := Least(k, n - 1 - m); forall i :: 0 <= i < top ==> s[i] <= s[top])
  }

  lemma OrderCarries(s: Slots, n: nat, m: nat, k: nat)
    requires k < 4 && Leading(s, n) && Bubbled(s, n, m) && CarriedTo(s, n, m, k)
    ensures var t := Order(s, k); Leading(t, n) && Bubbled(t, n, m) && CarriedTo(t, n, m, k + 1)
  {
  }

  lemma OrderKeeps(s: Slots, n: nat, k: nat)
    requires k < 4 && Leading(s, n)
    ensures multiset(Order(s, k)) == multiset(s) && (Different(s, n) ==> Different(Order(s, k), n))
  {
  }

  lemma PassBubbles(s: Slots, n: nat, m: nat)
    requires Leading(s, n) && Bubbled(s, n, m)
    ensures Leading(Pass(s), n) && Bubbled(Pass(s), n, m + 1) && multiset(Pass(s)) == multiset(s)
    ensures Different(s, n) ==> Different(Pass(s), n)
  {
    hide Order, Leading, Different;
    var s1 := Order(s, 0);
    var s2 := Order(s1, 1);
    var s3 := Order(s2, 2);
    OrderCarries(s, n, m, 0);
    OrderCarries(s1, n, m, 1);
    OrderCarries(s2, n, m, 2);
    OrderCarries(s3, n, m, 3);
    OrderKeeps(s, n, 0);
    OrderKeeps(s1, n, 1);
    OrderKeeps(s2, n, 2);
    OrderKeeps(s3, n, 3);
  }

  /** The five rounds put the lengths in ascending order and leave the zeros behind them. */
  lemma {:induction false} SortedExact(s: Slots, n: nat, passes: nat)
    requires Leading(s, n)
    ensures var r := Sorted(s, passes); Leading(r, n) && multiset(r) == multiset(s) && Bubbled(r, n, passes)
    ensures var r := Sorted(s, passes); passes >= n ==> forall i, j :: 0 <= i < j < n ==> r[i] <= r[j]
    ensures Different(s, n) ==> Different(Sorted(s, passes), n)
  {
    hide Pass, Leading, Different;
    if passes > 0 {
      SortedExact(s, n, passes - 1);
      PassBubbles(Sorted(s, passes - 1), n, passes - 1);
    }
  }

  // ----- decoding: the encoding

  /** How far lengths may be apart: in 17ths and 23rds for close ones, in 19ths and 21sts for multiples. */
  lemma ShapeTolerance(a: nat, b: nat)
    ensures Close(a, b) <==> 17 * a < 23 * b && 17 * b < 23 * a
    ensures Multiple(a, 2, b) <==> 19 * a < 42 * b && 38 * b < 21 * a
    ensures Multiple(a, 3, b) <==> 19 * a < 63 * b && 57 * b < 21 * a
  {
    hide Close, Multiple;
    CloseTolerance(a, b);
    DoubleTolerance(a, b);
    TripleTolerance(a, b);
  }

  lemma CloseTolerance(a: nat, b: nat)
    ensures Close(a, b) <==> 17 * a < 23 * b && 17 * b < 23 * a
  {
    hide Pdiff;
    if a + b > 0 { PdiffBelow(a as real, b as real, 0.3); }
  }

  lemma DoubleTolerance(a: nat, b: nat)
    ensures Multiple(a, 2, b) <==> 19 * a < 42 * b && 38 * b < 21 * a
  {
    hide Pdiff;
    if a > 0 { PdiffBelow(a as real / 2.0, b as real, 0.1); }
  }

  lemma TripleTolerance(a: nat, b: nat)
    ensures Multiple(a, 3, b) <==> 19 * a < 63 * b && 57 * b < 21 * a
  {
    hide Pdiff;
    if a > 0 { PdiffBelow(a as real / 3.0, b as real, 0.1); }
  }

  /** a is n times b, within a tenth. */
  predicate Multiple(a: nat, n: nat, b: nat) { n > 0 && a > 0 && Pdiff(a as real / n as real, b as real) < 0.1 }

  predicate BiphaseShaped(highs: Slots, highcount: nat, lows: Slots, lowcount: nat) {
    && Close(highs[0], lows[0])
    && (|| (highcount == 1 && lowcount == 1)
        || (highcount == 1 && lowcount >= 2 && Multiple(lows[1], 2, lows[0]))
        || (highcount >= 2 && lowcount == 1 && Multiple(highs[1], 2, highs[0]))
        || (highcount >= 2 && lowcount >= 2 && Close(highs[1], lows[1])
            && Multiple(highs[1], 2, highs[0]) && Multiple(lows[1], 2, lows[0])))
  }

  predicate Rc6Shaped(highs: Slots, highcount: nat, lows: Slots, lowcount: nat) {
    || (highcount == 3 && lowcount == 1 && Close(highs[1], lows[0]) && Multiple(highs[2], 3, highs[0]))
    || (highcount == 2 && lowcount == 3 && Close(highs[0], lows[0]) && Close(highs[1], lows[2])
        && Multiple(lows[1], 2, lows[0]) && Multiple(lows[2], 3, lows[0]))
    || (highcount == 3 && lowcount == 2 && Close(highs[2], lows[1]) && Close(highs[1], lows[0])
        && Multiple(highs[1], 2, highs[0]) && Multiple(highs[2], 2, highs[1]))
  }

  // ----- decoding: the bits

  /** Every n-th length from the given place on: is it the one of a 1? */
  function BitsAt(data: seq<nat>, place: nat, n: nat, one: nat): (bits: seq<bool>)
    requires place < 2 && (n > 0 ==> 2 * (n - 1) + place < |data|)
    ensures |bits| == n
  {
    seq(n, b requires 0 <= b < n => data[2 * b + place] == one)
  }

  function ByteCount(bits: nat): nat { bits / 8 + (if bits % 8 != 0 then 1 else 0) }

  lemma ByteCountFits(bits: nat)
    ensures bits <= 8 * ByteCount(bits) < bits + 8
  {
  }

  /** The bytes whose last bits these are; the bits before them are clear. */
  predicate HoldsBits(bytes: seq<Word>, bits: seq<bool>) {
    && Bytes(bytes) && |bytes| == ByteCount(|bits|) && |bits| <= 8 * |bytes| && SentBits(bytes, |bits|) == bits
    && forall k :: 0 <= k < 8 * |bytes| - |bits| ==> !bytes[k / 8][7 - k % 8]
  }

  datatype Decoded = Unexpected | Overrun | Biphase(kind: Kind, bits: seq<bool>, pulse: nat)
    | Space(bits: seq<bool>, one: (nat, nat), zero: (nat, nat), trail: nat)
    | Pulse(bits: seq<bool>, one: (nat, nat), zero: (nat, nat))

  /** Codes shorter than four bits, or too long for the caller's array, are refused. */
  predicate SizeOk(bits: nat, outlength: nat) { outlength >= ByteCount(bits) && bits >= 4 }

  lemma ShapedPositive(highs: Slots, highcount: nat, lows: Slots, lowcount: nat)
    requires BiphaseShaped(highs, highcount, lows, lowcount) || Rc6Shaped(highs, highcount, lows, lowcount)
    ensures ShortPulse(highs[0], lows[0]) > 0
  {
    forall a: nat, b: nat | Close(a, b) ensures a > 0 && b > 0 { ClosePositive(a, b); }
    forall a: nat, n: nat, b: nat | Multiple(a, n, b) ensures b > 0 { MultiplePositive(a, n, b); }
  }

  lemma ClosePositive(a: nat, b: nat)
    requires Close(a, b)
    ensures a > 0 && b > 0
  {
    hide Pdiff;
    CloseReals(a as real, b as real);
  }

  lemma CloseReals(x: real, y: real)
    requires x >= 0.0 && y >= 0.0 && x + y > 0.0 && Pdiff(x, y) < 0.3
    ensures x > 0.0 && y > 0.0
  {
    hide Pdiff;
    PdiffBelow(x, y, 0.3);
    var far := if x > y then x - y else y - x;
    assert far < 0.15 * (x + y);
  }

  lemma MultiplePositive(a: nat, n: nat, b: nat)
    requires Multiple(a, n, b)
    ensures b > 0
  {
    hide Pdiff;
    var q := a as real / n as real;
    QuotientAtMost(a as real, n as real, 0.0);
    CloseReals(q, b as real);
  }

  /** decode_data. Overrun says that there are more bits than decode_temp has room for. */
  function Decode(data: seq<nat>, outlength: nat): Decoded
  {
    match Counted(data, |data|)
    case None => Unexpected
    case Some((highCount, lowCount)) =>
      var highs, lows := Sorted(highCount.slots, 5), Sorted(lowCount.slots, 5);
      if highCount.n == 0 || lowCount.n == 0 then Unexpected
      else if BiphaseShaped(highs, highCount.n, lows, lowCount.n)
              || Rc6Shaped(highs, highCount.n, lows, lowCount.n) then
        ShapedPositive(highs, highCount.n, lows, lowCount.n);
        var pulse := ShortPulse(highs[0], lows[0]);
        match Unpack(data, pulse, !BiphaseShaped(highs, highCount.n, lows, lowCount.n))
        case Refused => Plain(data, outlength, highs, highCount.n, lows, lowCount.n)
        case Overlong => Overrun
        case Bits(kind, bits) => if SizeOk(|bits|, outlength) then Biphase(kind, bits, pulse) else Unexpected
      else Plain(data, outlength, highs, highCount.n, lows, lowCount.n)
  }

  /** What is not bi-phase: a bit is told by the length of its space, or of its pulse. */
  function Plain(data: seq<nat>, outlength: nat, highs: Slots, highcount: nat, lows: Slots, lowcount: nat): Decoded
    requires data != []
  {
    if highcount == 1 && lowcount == 2 then
      var (zero, one) := if lows[1] > lows[0] then (lows[0], lows[1]) else (lows[1], lows[0]);
      var bits := BitsAt(data, 1, |data| / 2, one);
      if |bits| > ROOM then Overrun
      else if !SizeOk(|bits|, outlength) then Unexpected
      else Space(bits, (highs[0], one), (highs[0], zero), data[|data| - 1])
    else if highcount == 2 && lowcount == 1 then
      var (zero, one) := if highs[1] > highs[0] then (highs[0], highs[1]) else (highs[1], highs[0]);
      var bits := BitsAt(data, 0, (|data| + 1) / 2, one);
      if |bits| > ROOM then Overrun
      else if !SizeOk(|bits|, outlength) then Unexpected
      else Pulse(bits, (one, lows[0]), (zero, lows[0]))
    else Unexpected
  }

  lemma NothingCounted(data: seq<nat>)
    ensures |data| == 0 ==> Counted(data, |data|) == Some((NONE, NONE))
  {
  }
}
