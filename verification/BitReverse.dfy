/** The 64-bit bit reversal of the FDX-B encoder: six mask-and-shift exchanges. */
module BitReverse {
  import opened Modulo
  import opened Words

  /** Exchange neighbouring groups of g bits: ((x & hi) >> g) | ((x & lo) << g). */
  function Exchange(x: Word, hi: nat, lo: nat, g: nat): (y: Word)
    requires |x| == 64
    ensures |y| == 64
  {
    Or(Shr(And(x, FromNat(hi, 64)), g), Shl(And(x, FromNat(lo, 64)), g))
  }

  lemma StripeBits(hi: nat, lo: nat, g: nat, w: nat, times: nat, k: nat)
    requires 0 < g && w == 2 * g
    requires lo == Repeat(Pow2(g) - 1, w, times) && hi == Repeat((Pow2(g) - 1) * Pow2(g), w, times)
    ensures Digit(lo, k) == (k / w < times && k % w < g)
    ensures Digit(hi, k) == (k / w < times && g <= k % w)
  {
    hide Repeat, Digit, Pow2;
    PowAdd(g, g);
    var p, j := Pow2(g), k % w;
    MulMonotone(p - 1, p, p);
    MulMonotone(1, p, p);
    RepeatBits(p - 1, w, times, k);
    RepeatBits((p - 1) * p, w, times, k);
    DigitOnes(g, j);
    DigitAppend(p - 1, 0, g, j);
    DigitZero(j);
    if j >= g { DigitOnes(g, j - g); }
  }

  /** reverse, as the library computes it. */
  function Reverse(x: Word): (y: Word)
    requires |x| == 64
    ensures |y| == 64
  {
    var x1 := Exchange(x, 0xaaaaaaaaaaaaaaaa, 0x5555555555555555, 1);
    var x2 := Exchange(x1, 0xcccccccccccccccc, 0x3333333333333333, 2);
    var x4 := Exchange(x2, 0xf0f0f0f0f0f0f0f0, 0x0f0f0f0f0f0f0f0f, 4);
    var x8 := Exchange(x4, 0xff00ff00ff00ff00, 0x00ff00ff00ff00ff, 8);
    var x16 := Exchange(x8, 0xffff0000ffff0000, 0x0000ffff0000ffff, 16);
    Or(Shr(x16, 32), Shl(x16, 32))
  }

  // the stripe constants, as repeated patterns

  /** The masks of one exchange select the upper and the lower group of each pair of groups of g bits. */
  predicate PairMasks(hi: nat, lo: nat, g: nat, w: nat) {
    w > 0 && forall k :: 0 <= k < 64 ==> Digit(lo, k) == (k % w < g) && Digit(hi, k) == (k % w >= g)
  }

  /** Twice as many copies are the copies twice. */
  lemma RepeatTwice(block: nat, width: nat, times: nat)
    ensures Repeat(block, width, 2 * times) ==
      Repeat(block, width, times) * Pow2(width * times) + Repeat(block, width, times)
  {
    RepeatMore(block, width, times, times);
  }

  lemma {:induction false} RepeatMore(block: nat, width: nat, m: nat, n: nat)
    ensures Repeat(block, width, m + n) == Repeat(block, width, m) * Pow2(width * n) + Repeat(block, width, n)
  {
    hide Pow2;
    if n == 0 {
      assert width * 0 == 0 && Pow2(0) == 1 by { PowZero(); }
      assert Repeat(block, width, m) * 1 == Repeat(block, width, m);
    } else {
      var a, b, p, w := Repeat(block, width, m), Repeat(block, width, n - 1), Pow2(width * (n - 1)), Pow2(width);
      RepeatMore(block, width, m, n - 1);
      assert width * n == width * (n - 1) + width;
      PowAdd(width * (n - 1), width);
      Expand(a, b, p, w);
    }
  }

  lemma PowZero()
    ensures Pow2(0) == 1
  {
  }

  lemma Expand(a: nat, b: nat, p: nat, w: nat)
    ensures (a * p + b) * w == a * (p * w) + b * w
  {
  }

  lemma Stripes1Half()
    ensures Repeat(0x1, 2, 16) == 0x55555555 && Repeat(0x2, 2, 16) == 0xaaaaaaaa
  {
    assert Repeat(0x1, 2, 8) == 0x5555 && Repeat(0x2, 2, 8) == 0xaaaa;
  }

  lemma Stripes1()
    ensures Repeat(0x1, 2, 32) == 0x5555555555555555 && Repeat(0x2, 2, 32) == 0xaaaaaaaaaaaaaaaa
  {
    hide Repeat, Pow2;
    Stripes1Half();
    PowersOfTwo();
    RepeatTwice(0x1, 2, 16);
    RepeatTwice(0x2, 2, 16);
  }

  lemma Masks1()
    ensures PairMasks(0xaaaaaaaaaaaaaaaa, 0x5555555555555555, 1, 2)
  {
    hide Repeat;
    Stripes1();
    forall k | 0 <= k < 64
      ensures Digit(0x5555555555555555, k) == (k % 2 < 1) && Digit(0xaaaaaaaaaaaaaaaa, k) == (k % 2 >= 1)
    {
      StripeBits(0xaaaaaaaaaaaaaaaa, 0x5555555555555555, 1, 2, 32, k);
    }
  }

  lemma Stripes2()
    ensures Repeat(0x3, 4, 16) == 0x3333333333333333 && Repeat(0xc, 4, 16) == 0xcccccccccccccccc
  {
    assert Repeat(0x3, 4, 8) == 0x33333333 && Repeat(0xc, 4, 8) == 0xcccccccc;
    assert Repeat(0x3, 4, 16) == 0x3333333333333333 && Repeat(0xc, 4, 16) == 0xcccccccccccccccc;
  }

  lemma Masks2()
    ensures PairMasks(0xcccccccccccccccc, 0x3333333333333333, 2, 4)
  {
    hide Repeat;
    Stripes2();
    forall k | 0 <= k < 64
      ensures Digit(0x3333333333333333, k) == (k % 4 < 2) && Digit(0xcccccccccccccccc, k) == (k % 4 >= 2)
    {
      StripeBits(0xcccccccccccccccc, 0x3333333333333333, 2, 4, 16, k);
    }
  }

  lemma Stripes4()
    ensures Repeat(0xf, 8, 8) == 0xf0f0f0f0f0f0f0f && Repeat(0xf0, 8, 8) == 0xf0f0f0f0f0f0f0f0
  {
    assert Repeat(0xf, 8, 8) == 0xf0f0f0f0f0f0f0f && Repeat(0xf0, 8, 8) == 0xf0f0f0f0f0f0f0f0;
  }

  lemma Masks4()
    ensures PairMasks(0xf0f0f0f0f0f0f0f0, 0x0f0f0f0f0f0f0f0f, 4, 8)
  {
    hide Repeat;
    Stripes4();
    forall k | 0 <= k < 64
      ensures Digit(0x0f0f0f0f0f0f0f0f, k) == (k % 8 < 4) && Digit(0xf0f0f0f0f0f0f0f0, k) == (k % 8 >= 4)
    {
      StripeBits(0xf0f0f0f0f0f0f0f0, 0x0f0f0f0f0f0f0f0f, 4, 8, 8, k);
    }
  }

  lemma Masks8()
    ensures PairMasks(0xff00ff00ff00ff00, 0x00ff00ff00ff00ff, 8, 16)
  {
    assert Pow2(8) == 0x100 && Pow2(16) == 0x10000;
    assert Repeat(0xff, 16, 4) == 0xff00ff00ff00ff && Repeat(0xff00, 16, 4) == 0xff00ff00ff00ff00;
    forall k | 0 <= k < 64
      ensures Digit(0x00ff00ff00ff00ff, k) == (k % 16 < 8) && Digit(0xff00ff00ff00ff00, k) == (k % 16 >= 8)
    {
      StripeBits(0xff00ff00ff00ff00, 0x00ff00ff00ff00ff, 8, 16, 4, k);
    }
  }

  lemma Masks16()
    ensures PairMasks(0xffff0000ffff0000, 0x0000ffff0000ffff, 16, 32)
  {
    PowersOfTwo();
    assert Repeat(0xffff, 32, 2) == 0xffff0000ffff && Repeat(0xffff0000, 32, 2) == 0xffff0000ffff0000;
    forall k | 0 <= k < 64
      ensures Digit(0x0000ffff0000ffff, k) == (k % 32 < 16) && Digit(0xffff0000ffff0000, k) == (k % 32 >= 16)
    {
      StripeBits(0xffff0000ffff0000, 0x0000ffff0000ffff, 16, 32, 2, k);
    }
  }

  /** Position k mirrored within its group of n. */
  function Mirror(k: nat, n: nat): int
    requires n > 0
  {
    k + n - 1 - 2 * (k % n)
  }

  predicate MirroredIn(x: Word, y: Word, n: nat)
    requires |x| == |y| == 64 && n > 0
  {
    forall k :: 0 <= k < 64 ==> 0 <= Mirror(k, n) < 64 && y[k] == x[Mirror(k, n)]
  }

  predicate GroupSize(g: nat) { g == 1 || g == 2 || g == 4 || g == 8 || g == 16 }

  /** The bit that an exchange of groups of g moves to position k. */
  function Partner(k: nat, g: nat): int
    requires g > 0
  {
    if k % (2 * g) < g then k + g else k - g
  }

  /** Position k seen as pair q, place r within it. */
  lemma PairPlaces(k: nat, g: nat)
    requires g > 0
    ensures var r := k % (2 * g);
      && k % g == (if r < g then r else r - g)
      && (k + g) % (2 * g) == (if r < g then r + g else r - g)
      && (k >= g ==> (k - g) % (2 * g) == (if r < g then r + g else r - g))
  {
    var q, r := k / (2 * g), k % (2 * g);
    assert k == q * (2 * g) + r;
    HalfPlace(k, g, q, r);
    UpperPlace(k, g, q, r);
    if k >= g { ShiftModulo(k + g, 2 * g); }
  }

  lemma HalfPlace(k: nat, g: nat, q: nat, r: nat)
    requires 0 < g && r < 2 * g && k == q * (2 * g) + r
    ensures k % g == if r < g then r else r - g
  {
    assert q * (2 * g) == (2 * q) * g && (2 * q + 1) * g == (2 * q) * g + g;
    if r < g { ModuloUnique(2 * q, k, r, g); } else { ModuloUnique(2 * q + 1, k, r - g, g); }
  }

  lemma UpperPlace(k: nat, g: nat, q: nat, r: nat)
    requires 0 < g && r < 2 * g && k == q * (2 * g) + r
    ensures (k + g) % (2 * g) == if r < g then r + g else r - g
  {
    assert (q + 1) * (2 * g) == q * (2 * g) + 2 * g;
    if r < g { ModuloUnique(q, k + g, r + g, 2 * g); } else { ModuloUnique(q + 1, k + g, r - g, 2 * g); }
  }

  /** The pairs tile the word. */
  lemma PairFits(k: nat, g: nat)
    requires k < 64 && GroupSize(g)
    ensures 0 <= k - k % (2 * g) && k - k % (2 * g) + 2 * g <= 64
  {
    if g == 1 {
      assert k - k % 2 + 2 <= 64;
    } else if g == 2 {
      assert k - k % 4 + 4 <= 64;
    } else if g == 4 {
      assert k - k % 8 + 8 <= 64;
    } else if g == 8 {
      assert k - k % 16 + 16 <= 64;
    } else {
      assert k - k % 32 + 32 <= 64;
    }
  }

  lemma PartnerMirrors(k: nat, g: nat)
    requires k < 64 && GroupSize(g)
    ensures 0 <= Partner(k, g) < 64 && 0 <= Mirror(Partner(k, g), g) == Mirror(k, 2 * g) < 64
  {
    hide GroupSize;
    assert g > 0 by { PositiveSize(g); }
    PairPlaces(k, g);
    PairFits(k, g);
    PairPlaces(Partner(k, g), g);
  }

  lemma PositiveSize(g: nat)
    requires GroupSize(g)
    ensures g > 0
  {
  }

  lemma ExchangeAt(y: Word, hi: nat, lo: nat, g: nat, k: nat)
    requires |y| == 64 && k < 64
    ensures Exchange(y, hi, lo, g)[k] ==
      ((k + g < 64 && y[k + g] && Digit(hi, k + g)) || (k >= g && y[k - g] && Digit(lo, k - g)))
  {
    hide Digit;
  }

  lemma MaskAt(hi: nat, lo: nat, g: nat, k: int)
    requires g > 0 && PairMasks(hi, lo, g, 2 * g) && 0 <= k < 64
    ensures Digit(lo, k) == (k % (2 * g) < g) && Digit(hi, k) == (k % (2 * g) >= g)
  {
    hide Digit;
  }

  lemma ExchangeBit(y: Word, hi: nat, lo: nat, g: nat, k: nat)
    requires |y| == 64 && GroupSize(g) && PairMasks(hi, lo, g, 2 * g) && k < 64
    ensures 0 <= Partner(k, g) < 64 && Exchange(y, hi, lo, g)[k] == y[Partner(k, g)]
  {
    hide Exchange, Digit, PairMasks, GroupSize, Mirror;
    assert g > 0 by { PositiveSize(g); }
    PartnerMirrors(k, g);
    PairPlaces(k, g);
    ExchangeAt(y, hi, lo, g, k);
    if k + g < 64 { MaskAt(hi, lo, g, k + g); }
    if k >= g { MaskAt(hi, lo, g, k - g); }
  }

  /** Exchanging neighbouring groups of g turns groups mirrored in g into groups mirrored in 2g. */
  lemma ExchangeMirrors(x: Word, y: Word, hi: nat, lo: nat, g: nat)
    requires |x| == |y| == 64 && GroupSize(g) && MirroredIn(x, y, g) && PairMasks(hi, lo, g, 2 * g)
    ensures MirroredIn(x, Exchange(y, hi, lo, g), 2 * g)
  {
    hide Exchange, Mirror, Partner, PairMasks;
    forall k | 0 <= k < 64
      ensures 0 <= Mirror(k, 2 * g) < 64 && Exchange(y, hi, lo, g)[k] == x[Mirror(k, 2 * g)]
    {
      ExchangeBit(y, hi, lo, g, k);
      PartnerMirrors(k, g);
    }
  }

  /** The six mask-and-shift exchanges put bit k where bit 63 - k was. */
  lemma ReverseMirrors(x: Word)
    requires |x| == 64
    ensures Reverse(x) == Msb(x)
  {
    hide Exchange, PairMasks, MirroredIn;
    Masks1();
    Masks2();
    Masks4();
    Masks8();
    Masks16();
    UnitMirror(x);
    var x1 := Exchange(x, 0xaaaaaaaaaaaaaaaa, 0x5555555555555555, 1);
    ExchangeMirrors(x, x, 0xaaaaaaaaaaaaaaaa, 0x5555555555555555, 1);
    var x2 := Exchange(x1, 0xcccccccccccccccc, 0x3333333333333333, 2);
    ExchangeMirrors(x, x1, 0xcccccccccccccccc, 0x3333333333333333, 2);
    var x4 := Exchange(x2, 0xf0f0f0f0f0f0f0f0, 0x0f0f0f0f0f0f0f0f, 4);
    ExchangeMirrors(x, x2, 0xf0f0f0f0f0f0f0f0, 0x0f0f0f0f0f0f0f0f, 4);
    var x8 := Exchange(x4, 0xff00ff00ff00ff00, 0x00ff00ff00ff00ff, 8);
    ExchangeMirrors(x, x4, 0xff00ff00ff00ff00, 0x00ff00ff00ff00ff, 8);
    var x16 := Exchange(x8, 0xffff0000ffff0000, 0x0000ffff0000ffff, 16);
    ExchangeMirrors(x, x8, 0xffff0000ffff0000, 0x0000ffff0000ffff, 16);
    SwapMirrors(x, x16);
    assert Reverse(x) == Or(Shr(x16, 32), Shl(x16, 32));
  }

  lemma UnitMirror(x: Word)
    requires |x| == 64
    ensures MirroredIn(x, x, 1)
  {
  }

  lemma SwapMirrors(x: Word, y: Word)
    requires |x| == |y| == 64 && MirroredIn(x, y, 32)
    ensures |Shr(y, 32)| == |Shl(y, 32)| && Or(Shr(y, 32), Shl(y, 32)) == Msb(x)
  {
    hide Mirror, Or, Shr, Shl;
    SwapLength(y);
    forall k | 0 <= k < 64 ensures Or(Shr(y, 32), Shl(y, 32))[k] == x[63 - k] {
      var j := if k < 32 then k + 32 else k - 32;
      SwapBit(y, k);
      MirrorHalves(j);
      assert y[j] == x[Mirror(j, 32)];
    }
  }

  lemma SwapLength(y: Word)
    requires |y| == 64
    ensures |Shr(y, 32)| == |Shl(y, 32)| == |Or(Shr(y, 32), Shl(y, 32))| == 64
  {
  }

  lemma SwapBit(y: Word, k: nat)
    requires |y| == 64 && k < 64
    ensures |Shr(y, 32)| == |Shl(y, 32)| == |Or(Shr(y, 32), Shl(y, 32))| == 64
    ensures Or(Shr(y, 32), Shl(y, 32))[k] == y[if k < 32 then k + 32 else k - 32]
  {
  }

  lemma MirrorHalves(j: nat)
    requires j < 64
    ensures Mirror(j, 32) == if j < 32 then 31 - j else 95 - j
  {
  }
}
