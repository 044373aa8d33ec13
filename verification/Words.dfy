/** C integers as bit words, and the little arithmetic the tag codecs need about them. */
module Words {
  import opened Modulo

  /** A C integer of |w| bits, least significant bit first. */
  type Word = seq<bool>

  /** Bit k of n. */
  function Digit(n: nat, k: nat): bool {
    if k == 0 then n % 2 == 1 else Digit(n / 2, k - 1)
  }

  function FromNat(n: nat, width: nat): (w: Word)
    ensures |w| == width
  {
    seq(width, k requires 0 <= k => Digit(n, k))
  }

  function ToNat(w: Word): nat {
    if w == [] then 0 else (if w[0] then 1 else 0) + 2 * ToNat(w[1..])
  }

  function Pow2(k: nat): nat
    ensures Pow2(k) > 0
  {
    if k == 0 then 1 else 2 * Pow2(k - 1)
  }

  lemma {:induction false} PowAdd(a: nat, b: nat)
    ensures Pow2(a + b) == Pow2(a) * Pow2(b)
  {
    if a > 0 {
      PowAdd(a - 1, b);
      assert Pow2(a + b) == 2 * (Pow2(a - 1) * Pow2(b));
    }
  }

  lemma PowersOfTwo()
    ensures Pow2(4) == 16 && Pow2(8) == 0x100 && Pow2(9) == 0x200 && Pow2(16) == 0x10000
    ensures Pow2(19) == 0x80000 && Pow2(23) == 0x800000 && Pow2(32) == 0x100000000
  {
    assert Pow2(8) == 0x100;
    PowAdd(8, 8);
    PowAdd(16, 3);
    PowAdd(16, 7);
    PowAdd(16, 16);
  }

  /** Two's complement conversion of a C integer to a word of the given width. */
  function FromInt(n: int, width: nat): (w: Word)
    ensures |w| == width
  {
    FromNat(n % Pow2(width), width)
  }

  function And(x: Word, y: Word): Word
    requires |x| == |y|
  {
    seq(|x|, k requires 0 <= k < |x| => x[k] && y[k])
  }

  function Or(x: Word, y: Word): Word
    requires |x| == |y|
  {
    seq(|x|, k requires 0 <= k < |x| => x[k] || y[k])
  }

  function Xor(x: Word, y: Word): Word
    requires |x| == |y|
  {
    seq(|x|, k requires 0 <= k < |x| => x[k] != y[k])
  }

  function Shl(x: Word, n: nat): Word {
    seq(|x|, k requires 0 <= k < |x| => k >= n && x[k - n])
  }

  function Shr(x: Word, n: nat): Word {
    seq(|x|, k requires 0 <= k < |x| => k + n < |x| && x[k + n])
  }

  /** The right shift of a signed integer: the sign bit is copied in. */
  function Sar(x: Word, n: nat): Word
    requires 0 < |x|
  {
    seq(|x|, k requires 0 <= k < |x| => if k + n < |x| then x[k + n] else x[|x| - 1])
  }

  /** w |= bit << k */
  function OrBit(w: Word, k: nat, bit: bool): (r: Word)
    requires k < |w|
    ensures |r| == |w|
  {
    w[k := w[k] || bit]
  }

  /** The order in which a block leaves the tag: most significant bit first. */
  function Msb(w: Word): seq<bool> {
    seq(|w|, k requires 0 <= k < |w| => w[|w| - 1 - k])
  }

  lemma MsbMsb(w: Word)
    ensures Msb(Msb(w)) == w
  {
  }

  // ----- numbers and their bits

  lemma {:induction false} ToNatFromNat(n: nat, width: nat)
    requires n < Pow2(width)
    ensures ToNat(FromNat(n, width)) == n
  {
    if width > 0 {
      ToNatFromNat(n / 2, width - 1);
      assert FromNat(n, width)[1..] == FromNat(n / 2, width - 1);
    }
  }

  lemma {:induction false} ToNatBound(w: Word)
    ensures ToNat(w) < Pow2(|w|)
  {
    if w != [] { ToNatBound(w[1..]); }
  }

  lemma {:induction false} ToNatAppend(a: Word, b: Word)
    ensures ToNat(a + b) == ToNat(a) + Pow2(|a|) * ToNat(b)
  {
    if a == [] {
      assert a + b == b;
    } else {
      assert (a + b)[1..] == a[1..] + b;
      ToNatAppend(a[1..], b);
      Double(ToNat(a[1..]), Pow2(|a| - 1), ToNat(b));
    }
  }

  lemma Double(t: nat, p: nat, n: nat)
    ensures 2 * (t + p * n) == 2 * t + (2 * p) * n
  {
  }

  lemma {:induction false} FromNatToNat(w: Word)
    ensures FromNat(ToNat(w), |w|) == w
  {
    if w != [] {
      var n := ToNat(w);
      FromNatToNat(w[1..]);
      assert n / 2 == ToNat(w[1..]) && (n % 2 == 1) == w[0];
      forall k | 0 <= k < |w| ensures FromNat(n, |w|)[k] == w[k] {
        if k > 0 {
          assert FromNat(ToNat(w[1..]), |w| - 1)[k - 1] == w[1..][k - 1];
        }
      }
    }
  }

  lemma {:induction false} DigitAppend(hi: nat, lo: nat, m: nat, k: nat)
    requires lo < Pow2(m)
    ensures Digit(hi * Pow2(m) + lo, k) == if k < m then Digit(lo, k) else Digit(hi, k - m)
  {
    if m > 0 {
      var p := Pow2(m - 1);
      var n := hi * Pow2(m) + lo;
      assert hi * Pow2(m) == 2 * (hi * p);
      assert n % 2 == lo % 2 && n / 2 == hi * p + lo / 2;
      if k > 0 {
        DigitAppend(hi, lo / 2, m - 1, k - 1);
      }
    }
  }

  lemma {:induction false} DigitZero(k: nat)
    ensures !Digit(0, k)
  {
    if k > 0 { DigitZero(k - 1); }
  }

  lemma DigitBeyond(n: nat, m: nat, k: nat)
    requires n < Pow2(m) && m <= k
    ensures !Digit(n, k)
  {
    DigitAppend(0, n, m, k);
    DigitZero(k - m);
  }

  lemma DigitOne(k: nat)
    ensures Digit(1, k) == (k == 0)
  {
    if k > 0 { DigitZero(k - 1); }
  }

  lemma {:induction false} DigitOnes(m: nat, k: nat)
    ensures Digit(Pow2(m) - 1, k) == (k < m)
  {
    if m == 0 {
      DigitZero(k);
    } else if k > 0 {
      assert (Pow2(m) - 1) / 2 == Pow2(m - 1) - 1;
      DigitOnes(m - 1, k - 1);
    }
  }

  lemma DigitOfInt(n: nat, k: nat)
    requires k < 64
    ensures FromInt(n, 64)[k] == Digit(n, k)
  {
    hide Digit, Pow2;
    var q, r := Divided(n, Pow2(64));
    DigitAppend(q, r, 64, k);
  }

  /** The bits of a run mask: ones in [lo, lo + len), zeros elsewhere. */
  lemma RunMask(n: nat, lo: nat, len: nat, width: nat)
    requires n == (Pow2(len) - 1) * Pow2(lo)
    ensures forall k :: 0 <= k < width ==> FromNat(n, width)[k] == (lo <= k < lo + len)
  {
    forall k | 0 <= k < width ensures FromNat(n, width)[k] == (lo <= k < lo + len) {
      DigitAppend(Pow2(len) - 1, 0, lo, k);
      DigitZero(k);
      if k >= lo { DigitOnes(len, k - lo); }
    }
  }

  /** A bit pattern of the given width, repeated: the comb and stripe constants of the codecs. */
  function Repeat(block: nat, width: nat, times: nat): nat {
    if times == 0 then 0 else Repeat(block, width, times - 1) * Pow2(width) + block
  }

  lemma RepeatStep(block: nat, width: nat, times: nat, k: nat)
    requires block < Pow2(width) && 0 < times
    ensures Digit(Repeat(block, width, times), k) ==
      if k < width then Digit(block, k) else Digit(Repeat(block, width, times - 1), k - width)
  {
    DigitAppend(Repeat(block, width, times - 1), block, width, k);
  }

  /** Bit r of copy q. */
  lemma {:induction false} RepeatAt(block: nat, width: nat, times: nat, q: nat, r: nat)
    requires block < Pow2(width) && r < width
    ensures Digit(Repeat(block, width, times), q * width + r) == (q < times && Digit(block, r))
  {
    hide Digit, Pow2;
    if times == 0 {
      DigitZero(q * width + r);
    } else {
      hide Repeat;
      RepeatStep(block, width, times, q * width + r);
      if q > 0 {
        Distribute(q - 1, 1, width);
        RepeatAt(block, width, times - 1, q - 1, r);
      }
    }
  }

  lemma RepeatBits(block: nat, width: nat, times: nat, k: nat)
    requires block < Pow2(width) && 0 < width
    ensures Digit(Repeat(block, width, times), k) == (k / width < times && Digit(block, k % width))
  {
    hide Digit, Pow2, Repeat;
    var q, r := Divided(k, width);
    RepeatAt(block, width, times, q, r);
    ModuloUnique(q, k, r, width);
  }
}
