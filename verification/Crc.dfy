/** The CRC of the tag formats (ITU-T V.41, generator x^16 + x^12 + x^5 + 1). */
module Crc {
  import opened Words

  type Register = w: Word | |w| == 16 witness ZeroWord(16)
  type Byte = w: Word | |w| == 8 witness ZeroWord(8)

  function ZeroWord(n: nat): (w: Word)
    ensures |w| == n
  {
    seq(n, _ => false)
  }

  const Zero: Register := ZeroWord(16)

  function Mask(n: nat): Register { FromNat(n, 16) }

  /** An unsigned char promoted to 16 bits. */
  function Promote(x: Byte): Register { x + ZeroWord(8) }

  /** The library's update of the register with one byte, shift by shift. */
  function Update(crc: Register, x: Byte): Register {
    var c0: Register := Or(Shr(crc, 8), Shl(crc, 8));
    var c1: Register := Xor(c0, Promote(x));
    var c2: Register := Xor(c1, Shr(And(c1, Mask(0xff)), 4));
    var c3: Register := Xor(c2, Shl(c2, 12));
    Xor(c3, Shl(And(c3, Mask(0xff)), 5))
  }

  /** One step of long division by the generator: shift in one message bit, subtract if a one falls out. */
  function Step(crc: Register, bit: bool): Register {
    if crc[15] != bit then Xor(Shl(crc, 1), Mask(0x1021)) else Shl(crc, 1)
  }

  function Divide(crc: Register, bits: seq<bool>): Register
    decreases |bits|
  {
    if bits == [] then crc else Divide(Step(crc, bits[0]), bits[1..])
  }

  lemma GeneratorBits()
    ensures forall k :: 0 <= k < 16 ==> Mask(0x1021)[k] == (k == 0 || k == 5 || k == 12)
  {
    forall k | 0 <= k < 16 ensures Mask(0x1021)[k] == (k == 0 || k == 5 || k == 12) {
      DigitAppend(1, 0x21, 12, k);
      DigitAppend(1, 1, 5, k);
      DigitOne(k);
      DigitOne(k - if k >= 12 then 12 else if k >= 5 then 5 else 0);
    }
  }

  lemma StepBits(c: Register, bit: bool)
    ensures forall k :: 0 <= k < 16 ==>
      Step(c, bit)[k] == ((k > 0 && c[k - 1]) != ((k == 0 || k == 5 || k == 12) && c[15] != bit))
  {
    GeneratorBits();
  }

  lemma StepInjective(c: Register, d: Register, bit: bool)
    requires Step(c, bit) == Step(d, bit)
    ensures c == d
  {
    StepBits(c, bit);
    StepBits(d, bit);
    assert Step(c, bit)[0] == Step(d, bit)[0];
    forall k | 0 <= k < 15 ensures c[k] == d[k] {
      assert Step(c, bit)[k + 1] == Step(d, bit)[k + 1];
    }
  }

  function Feed(crc: Register, x: Byte, n: nat): Register
    requires n <= 8
  {
    if n == 0 then crc else Step(Feed(crc, x, n - 1), x[8 - n])
  }

  /** The eight bits that fall out of the division of one byte, the first in position 7. */
  function Quotient(c: Register, x: Byte, k: nat): bool
    requires k < 8
  {
    (c[8 + k] != x[k]) != (k < 4 && c[12 + k] != x[4 + k])
  }

  /** Bit k of the register after dividing the first m bits of x. */
  function Remainder(c: Register, x: Byte, m: nat, k: nat): bool
    requires m <= 8 && k < 16
  {
    ((k >= m && c[k - m]) != (k < m && Quotient(c, x, 8 - m + k)))
    != ((5 <= k < 5 + m && Quotient(c, x, 3 - m + k)) != (12 <= k < 12 + m && Quotient(c, x, k - m - 4)))
  }

  lemma {:induction false} FeedBits(c: Register, x: Byte, m: nat)
    requires m <= 8
    ensures forall k :: 0 <= k < 16 ==> Feed(c, x, m)[k] == Remainder(c, x, m, k)
  {
    if m > 0 {
      var r := Feed(c, x, m - 1);
      FeedBits(c, x, m - 1);
      StepBits(r, x[8 - m]);
      assert r[15] == Remainder(c, x, m - 1, 15);
      assert (r[15] != x[8 - m]) == Quotient(c, x, 8 - m);
      forall k | 0 < k < 16 ensures Feed(c, x, m)[k] == Remainder(c, x, m, k) {
        assert r[k - 1] == Remainder(c, x, m - 1, k - 1);
      }
    }
  }

  /** Bit k before the last two shifts are folded in. */
  function Halfway(c: Register, x: Byte, k: nat): bool
    requires k < 16
  {
    if k < 8 then Quotient(c, x, k) else c[k - 8]
  }

  lemma HalfwayBits(c: Register, x: Byte)
    ensures var c0: Register := Or(Shr(c, 8), Shl(c, 8)); var c1: Register := Xor(c0, Promote(x));
      forall k :: 0 <= k < 16 ==> Xor(c1, Shr(And(c1, Mask(0xff)), 4))[k] == Halfway(c, x, k)
  {
    ByteMaskBits();
  }

  lemma UpdateBits(c: Register, x: Byte)
    ensures forall k :: 0 <= k < 16 ==> Update(c, x)[k] == Remainder(c, x, 8, k)
  {
    HalfwayBits(c, x);
    ByteMaskBits();
    hide Quotient;
  }

  /** The shift-and-fold update is eight steps of bitwise division. */
  lemma UpdateIsDivision(crc: Register, x: Byte)
    ensures Update(crc, x) == Feed(crc, x, 8)
  {
    FeedBits(crc, x, 8);
    UpdateBits(crc, x);
    forall k | 0 <= k < 16 ensures Update(crc, x)[k] == Feed(crc, x, 8)[k] {}
  }

  lemma ByteMaskBits()
    ensures forall k :: 0 <= k < 16 ==> Mask(0xff)[k] == (k < 8)
  {
    RunMask(0xff, 0, 8, 16);
  }

  // ----- whole messages

  function UpdateAll(crc: Register, bytes: seq<Byte>): Register
    decreases |bytes|
  {
    if bytes == [] then crc else UpdateAll(Update(crc, bytes[0]), bytes[1..])
  }

  lemma UpdateOne(crc: Register, bytes: seq<Byte>, i: nat)
    requires i < |bytes|
    ensures UpdateAll(crc, bytes[i..]) == UpdateAll(Update(crc, bytes[i]), bytes[i + 1..])
  {
    hide Update;
    assert bytes[i..][1..] == bytes[i + 1..];
  }

  lemma UpdateNone(crc: Register, bytes: seq<Byte>)
    ensures UpdateAll(crc, bytes[|bytes|..]) == crc && bytes[0..] == bytes
  {
  }

  /** The loop every codec runs over its bytes. */
  method ComputeCrc(bytes: seq<Byte>) returns (crc: Register)
    ensures crc == UpdateAll(Zero, bytes)
  {
    hide Update, UpdateAll;
    crc := Zero;
    UpdateNone(crc, bytes);
    var i := 0;
    while i < |bytes|
      invariant 0 <= i <= |bytes|
      invariant UpdateAll(crc, bytes[i..]) == UpdateAll(Zero, bytes)
    {
      UpdateOne(crc, bytes, i);
      crc := Update(crc, bytes[i]);
      i := i + 1;
    }
    UpdateNone(crc, bytes);
  }

  /** The message as it is sent: bytes in order, most significant bit first. */
  function Bits(bytes: seq<Byte>): (bits: seq<bool>)
    ensures |bits| == 8 * |bytes|
    ensures forall i :: 0 <= i < |bits| ==> bits[i] == bytes[i / 8][7 - i % 8]
  {
    seq(8 * |bytes|, i requires 0 <= i < 8 * |bytes| => bytes[i / 8][7 - i % 8])
  }

  lemma {:induction false} DivideAppend(crc: Register, a: seq<bool>, b: seq<bool>)
    ensures Divide(crc, a + b) == Divide(Divide(crc, a), b)
    decreases |a|
  {
    if a == [] {
      assert a + b == b;
    } else {
      assert (a + b)[1..] == a[1..] + b;
      DivideAppend(Step(crc, a[0]), a[1..], b);
    }
  }

  lemma DivideOne(crc: Register, bit: bool)
    ensures Divide(crc, [bit]) == Step(crc, bit)
  {
    assert [bit][1..] == [];
  }

  lemma MsbPrefix(x: Byte, n: nat)
    requires 0 < n <= 8
    ensures |Msb(x)| == 8 && Msb(x)[..n] == Msb(x)[..n - 1] + [x[8 - n]]
  {
  }

  lemma FeedOne(crc: Register, x: Byte, n: nat)
    requires 0 < n <= 8
    ensures Feed(crc, x, n) == Step(Feed(crc, x, n - 1), x[8 - n])
  {
    hide Step;
  }

  lemma {:induction false} FeedIsDivide(crc: Register, x: Byte, n: nat)
    requires n <= 8
    ensures Feed(crc, x, n) == Divide(crc, Msb(x)[..n])
  {
    if n > 0 {
      hide Step, Divide, Msb;
      FeedIsDivide(crc, x, n - 1);
      MsbPrefix(x, n);
      DivideAppend(crc, Msb(x)[..n - 1], [x[8 - n]]);
      DivideOne(Feed(crc, x, n - 1), x[8 - n]);
      FeedOne(crc, x, n);
    }
  }

  lemma BitsCons(bytes: seq<Byte>)
    requires bytes != []
    ensures Bits(bytes) == Msb(bytes[0]) + Bits(bytes[1..])
  {
    forall i | 0 <= i < |Bits(bytes)| ensures Bits(bytes)[i] == (Msb(bytes[0]) + Bits(bytes[1..]))[i] {
      if i >= 8 {
        assert (i - 8) / 8 == i / 8 - 1 && (i - 8) % 8 == i % 8;
      }
    }
  }

  /** Over any message the library's CRC is the remainder of the message polynomial. */
  lemma {:induction false} UpdateAllIsDivision(crc: Register, bytes: seq<Byte>)
    ensures UpdateAll(crc, bytes) == Divide(crc, Bits(bytes))
    decreases |bytes|
  {
    if bytes != [] {
      var x := bytes[0];
      UpdateIsDivision(crc, x);
      FeedIsDivide(crc, x, 8);
      assert Msb(x)[..8] == Msb(x);
      UpdateAllIsDivision(Update(crc, x), bytes[1..]);
      BitsCons(bytes);
      DivideAppend(crc, Msb(x), Bits(bytes[1..]));
    }
  }

  lemma XorTail(a: seq<bool>, b: seq<bool>)
    requires 0 < |a| == |b|
    ensures Xor(a, b)[1..] == Xor(a[1..], b[1..])
  {
    forall k | 0 <= k < |a| - 1 ensures Xor(a, b)[1..][k] == Xor(a[1..], b[1..])[k] {}
  }

  lemma StepLinear(c: Register, d: Register, x: bool, y: bool)
    ensures Step(Xor(c, d), x != y) == Xor(Step(c, x), Step(d, y))
  {
    hide Step;
    StepBits(c, x);
    StepBits(d, y);
    StepBits(Xor(c, d), x != y);
    var s, t := Step(Xor(c, d), x != y), Xor(Step(c, x), Step(d, y));
    forall k | 0 <= k < 16 ensures s[k] == t[k] {}
  }

  /** The CRC is linear: the CRC of a sum of messages is the sum of their CRCs. */
  lemma {:induction false} DivideLinear(c: Register, d: Register, a: seq<bool>, b: seq<bool>)
    requires |a| == |b|
    ensures Divide(Xor(c, d), Xor(a, b)) == Xor(Divide(c, a), Divide(d, b))
    decreases |a|
  {
    if a != [] {
      hide Step;
      StepLinear(c, d, a[0], b[0]);
      assert Xor(a, b)[0] == (a[0] != b[0]);
      XorTail(a, b);
      DivideLinear(Step(c, a[0]), Step(d, b[0]), a[1..], b[1..]);
    }
  }

  // ----- burst detection

  /** Message bits added into the top of the register before they are shifted out. */
  function Inject(crc: Register, b: seq<bool>): Register
    requires |b| <= 16
  {
    seq(16, k requires 0 <= k < 16 => if k >= 16 - |b| then crc[k] != b[15 - k] else crc[k])
  }

  function Zeros(n: nat): seq<bool> { seq(n, _ => false) }

  lemma StepInjected(crc: Register, b: seq<bool>)
    requires 0 < |b| <= 16
    ensures Step(Inject(crc, b), false) == Inject(Step(crc, b[0]), b[1..])
  {
    hide Step;
    StepBits(crc, b[0]);
    StepBits(Inject(crc, b), false);
    var s, t := Step(Inject(crc, b), false), Inject(Step(crc, b[0]), b[1..]);
    assert Inject(crc, b)[15] == (crc[15] != b[0]);
    forall k | 0 <= k < 16 ensures s[k] == t[k] {
      if 0 < k && k >= 16 - (|b| - 1) { assert b[1..][15 - k] == b[15 - (k - 1)]; }
    }
  }

  lemma {:induction false} DivideInjected(crc: Register, b: seq<bool>)
    requires |b| <= 16
    ensures Divide(crc, b) == Divide(Inject(crc, b), Zeros(|b|))
    decreases |b|
  {
    if b == [] {
      assert Inject(crc, b) == crc;
    } else {
      hide Step, Inject;
      StepInjected(crc, b);
      assert Zeros(|b|)[1..] == Zeros(|b| - 1);
      DivideInjected(Step(crc, b[0]), b[1..]);
    }
  }

  lemma {:induction false} DivideInjective(c: Register, d: Register, bits: seq<bool>)
    requires c != d
    ensures Divide(c, bits) != Divide(d, bits)
    decreases |bits|
  {
    if bits != [] {
      hide Step;
      if Step(c, bits[0]) == Step(d, bits[0]) { StepInjective(c, d, bits[0]); }
      DivideInjective(Step(c, bits[0]), Step(d, bits[0]), bits[1..]);
    }
  }

  /** Two messages that differ, but only inside 16 consecutive bits, have different CRCs. */
  lemma BurstDetected(crc: Register, pre: seq<bool>, u: seq<bool>, v: seq<bool>, post: seq<bool>)
    requires |u| == |v| <= 16 && u != v
    ensures Divide(crc, pre + u + post) != Divide(crc, pre + v + post)
  {
    hide Divide, Step;
    var c := Divide(crc, pre);
    DivideAppend(crc, pre + u, post);
    DivideAppend(crc, pre, u);
    DivideAppend(crc, pre + v, post);
    DivideAppend(crc, pre, v);
    DivideInjected(c, u);
    DivideInjected(c, v);
    var i :| 0 <= i < |u| && u[i] != v[i];
    assert Inject(c, u)[15 - i] != Inject(c, v)[15 - i];
    DivideInjective(Inject(c, u), Inject(c, v), Zeros(|u|));
    DivideInjective(Divide(c, u), Divide(c, v), post);
  }
}
