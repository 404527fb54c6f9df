/**
 Restoring division of nuc.fs: um/mod on a 32-bit dividend in sixteen unrolled steps, and m*slash-mod on
 a 48-bit product in a loop of thirty-two. Both compare with the signed >=, which decides the
 divisors they are good for.
 */
module Division {
  import opened Words

  /** The largest divisor that both divisions are exact for. */
  const LARGEST: Word := 16384

  /** The dividend as it is shifted: the cells below the high one as one number, and the high one. */
  datatype Parts = Parts(low: nat, high: Word)

  /**
   One step: shift the whole to the left, and if the high cell is then not less than the divisor as
   a signed number, subtract the divisor there and set the bit that came in below. The cells below
   the high one hold numbers up to twice half.
   */
  function Restoring(half: nat, d: Word, s: Parts): Parts {
    var high := Wrap(2 * s.high + (if s.low >= half then 1 else 0));
    var low := if s.low >= half then 2 * (s.low - half) else 2 * s.low;
    if Signed(high) >= Signed(d) then Parts(low + 1, Wrap(high - d)) else Parts(low, high)
  }

  function Steps(half: nat, n: nat, d: Word, s: Parts): Parts
    decreases n
  {
    if n == 0 then s else Steps(half, n - 1, d, Restoring(half, d, s))
  }

  lemma {:induction false} StepsAdd(half: nat, a: nat, b: nat, d: Word, s: Parts)
    ensures Steps(half, a + b, d, s) == Steps(half, b, d, Steps(half, a, d, s))
    decreases a
  {
    if a > 0 {
      StepsAdd(half, a - 1, b, d, Restoring(half, d, s));
    }
  }

  // ---------------------------------------------------------------- exactness

  /** All cells as one number, where those below the high one hold numbers up to m. */
  function Whole(m: nat, s: Parts): nat {
    m * s.high + s.low
  }

  lemma Shifted(m: nat, high: int, c: nat)
    requires c <= 1
    ensures m * (2 * high + c) == 2 * (m * high) + (if c == 1 then m else 0)
  {
  }

  /** A step doubles the whole and takes off one multiple if it sets the bit. */
  lemma StepWhole(half: nat, m: nat, d: Word, s: Parts) returns (b: nat)
    requires 0 < half && m == 2 * half && s.low < m && s.high < d <= LARGEST
    ensures b <= 1 && Restoring(half, d, s).high < d && Restoring(half, d, s).low < m
    ensures Whole(m, Restoring(half, d, s)) == 2 * Whole(m, s) - (if b == 1 then m * d - 1 else 0)
  {
    var c := if s.low >= half then 1 else 0;
    var high := 2 * s.high + c;
    b := if high >= d then 1 else 0;
    assert Restoring(half, d, s) == Parts(2 * s.low - (if c == 1 then m else 0) + b, high - (if b == 1 then d else 0));
    Shifted(m, s.high, c);
    Lowered(m, high, d);
  }

  lemma Lowered(m: nat, high: int, d: int)
    ensures m * (high - d) == m * high - m * d
  {
  }

  /** After n steps, for the bits q set on the way. */
  lemma {:induction false} StepsWhole(half: nat, m: nat, n: nat, d: Word, s: Parts) returns (q: nat)
    requires 0 < half && m == 2 * half && s.low < m && s.high < d <= LARGEST
    ensures q < Pow2(n)
    ensures var r := Steps(half, n, d, s);
      r.high < d && r.low < m && Whole(m, r) == Pow2(n) * Whole(m, s) - (m * d - 1) * q
    decreases n
  {
    if n == 0 {
      q := 0;
    } else {
      var b := StepWhole(half, m, d, s);
      var next := Restoring(half, d, s);
      var rest := StepsWhole(half, m, n - 1, d, next);
      q := (if b == 1 then Pow2(n - 1) else 0) + rest;
      Doubling(Pow2(n - 1), Whole(m, s), m * d - 1, b, rest, Whole(m, next));
    }
  }

  lemma Doubling(p: nat, v: nat, k: int, b: nat, rest: nat, w: nat)
    requires b <= 1 && w == 2 * v - (if b == 1 then k else 0)
    ensures p * w - k * rest == (2 * p) * v - k * ((if b == 1 then p else 0) + rest)
  {
  }

  /** As many steps as there are bits below the high cell leave quotient and remainder. */
  lemma DividesExactly(half: nat, m: nat, n: nat, d: Word, s: Parts)
    requires 0 < half && Pow2(n) == m == 2 * half && s.low < m && s.high < d <= LARGEST
    ensures var r := Steps(half, n, d, s);
      r.low * d + r.high == Whole(m, s) && r.high < d && r.low < m
  {
    var q := StepsWhole(half, m, n, d, s);
    var r := Steps(half, n, d, s);
    FinalParts(m, r.high, r.low, Whole(m, s), d, q);
  }

  lemma FinalParts(m: nat, high: nat, low: nat, whole: nat, d: nat, q: nat)
    requires low < m && q < m && m * high + low == m * whole - (m * d - 1) * q
    ensures low * d + high == whole
  {
    Regrouped(m, whole, d, q);
    SameParts(m, high, low, whole - d * q, q);
  }

  lemma Regrouped(m: nat, whole: nat, d: nat, q: nat)
    ensures m * whole - (m * d - 1) * q == m * (whole - d * q) + q
  {
  }

  lemma SameParts(m: nat, a: int, b: nat, x: int, y: nat)
    requires b < m && y < m && m * a + b == m * x + y
    ensures a == x && b == y
  {
    assert m * (a - x) == y - b by {
      assert m * (a - x) == m * a - m * x;
    }
    if a - x >= 1 {
      AtLeast(a - x, m);
    } else if a - x <= -1 {
      AtMost(a - x, m);
    }
  }

  // ---------------------------------------------------------------- um/mod

  /** um/mod as a function: quotient below, remainder above. */
  function UmModOf(lo: Word, hi: Word, d: Word): Parts {
    Steps(0x8000, 16, d, Parts(lo, hi))
  }

  /** divstep */
  method DivStep(divisor: Word, dq: Word, hi: Word) returns (dq': Word, hi': Word)
    ensures Parts(dq', hi') == Restoring(0x8000, divisor, Parts(dq, hi))
  {
    WrapSum(hi, hi, 0);
    WrapSum(hi, hi, 1);
    hi' := Wrap(2 * hi);
    if Signed(dq) < 0 {
      WrapSum(hi', 0, 1);
      hi' := Wrap(hi' + 1);
    }
    WrapSum(dq, dq, 0);
    dq' := Wrap(2 * dq);
    if Signed(hi') >= Signed(divisor) {
      hi' := Wrap(hi' - divisor);
      WrapSum(dq', 0, 1);
      dq' := Wrap(dq' + 1);
    }
  }

  method FourSteps(divisor: Word, dq: Word, hi: Word) returns (dq': Word, hi': Word)
    ensures Parts(dq', hi') == Steps(0x8000, 4, divisor, Parts(dq, hi))
  {
    dq', hi' := DivStep(divisor, dq, hi);
    dq', hi' := DivStep(divisor, dq', hi');
    ghost var two := Parts(dq', hi');
    assert two == Steps(0x8000, 2, divisor, Parts(dq, hi));
    dq', hi' := DivStep(divisor, dq', hi');
    dq', hi' := DivStep(divisor, dq', hi');
    assert Parts(dq', hi') == Steps(0x8000, 2, divisor, two);
    StepsAdd(0x8000, 2, 2, divisor, Parts(dq, hi));
  }

  method UmMod(lo: Word, hi: Word, d: Word) returns (rem: Word, quot: Word)
    ensures Parts(quot, rem) == UmModOf(lo, hi, d)
  {
    ghost var s := Parts(lo, hi);
    quot, rem := FourSteps(d, lo, hi);
    quot, rem := FourSteps(d, quot, rem);
    StepsAdd(0x8000, 4, 4, d, s);
    quot, rem := FourSteps(d, quot, rem);
    StepsAdd(0x8000, 8, 4, d, s);
    quot, rem := FourSteps(d, quot, rem);
    StepsAdd(0x8000, 12, 4, d, s);
  }

  /** What a division must give. */
  predicate Divides(quotient: nat, remainder: nat, n: nat, d: nat) {
    quotient * d + remainder == n && remainder < d
  }

  predicate Exact(lo: Word, hi: Word, d: Word) {
    Divides(UmModOf(lo, hi, d).low, UmModOf(lo, hi, d).high, 0x1_0000 * hi + lo, d)
  }

  lemma UmModExact(lo: Word, hi: Word, d: Word)
    requires hi < d <= LARGEST
    ensures Exact(lo, hi, d) && UmModOf(lo, hi, d).low < 0x1_0000
  {
    WordPow2();
    DividesExactly(0x8000, 0x1_0000, 16, d, Parts(lo, hi));
  }

  /** Nothing but shifts: the divisor is above all signed numbers that come up. */
  lemma {:induction false} ZeroSteps(half: nat, n: nat, d: Word)
    requires half > 0 && 0 < d < 0x8000
    ensures Steps(half, n, d, Parts(0, 0)) == Parts(0, 0)
  {
    if n > 0 {
      ZeroSteps(half, n - 1, d);
    }
  }

  /** A bit that was set stays set on its way up. */
  lemma {:induction false} BitStays(half: nat, n: nat, k: nat, d: Word, s: Parts)
    requires Pow2(n + k) == half && Pow2(k) <= s.low < 2 * Pow2(k)
    ensures Steps(half, n, d, s).low >= half
    decreases n
  {
    if n > 0 {
      PowRises(k + 1, n + k);
      BitStays(half, n - 1, k + 1, d, Restoring(half, d, s));
    }
  }

  lemma {:induction false} PowRises(a: nat, b: nat)
    requires a <= b
    ensures Pow2(a) <= Pow2(b)
    decreases b
  {
    if a < b {
      PowRises(a, b - 1);
    }
  }

  /** The high cell reaches 32768, is taken for negative, and is shifted out. */
  lemma HighLost(half: nat, n: nat, d: Word)
    requires half > 0 && n >= 2 && LARGEST < d < 0x8000
    ensures Steps(half, n, d, Parts(0, 16384)) == Parts(0, 0)
  {
    assert Restoring(half, d, Parts(0, 16384)) == Parts(0, 0x8000);
    assert Restoring(half, d, Parts(0, 0x8000)) == Parts(0, 0);
    assert Steps(half, n, d, Parts(0, 16384)) == Steps(half, n - 1, d, Parts(0, 0x8000));
    assert Steps(half, n - 1, d, Parts(0, 0x8000)) == Steps(half, n - 2, d, Parts(0, 0));
    ZeroSteps(half, n - 2, d);
  }

  /** A divisor that is itself taken for negative goes into zero. */
  lemma ZeroDivided(half: nat, n: nat, d: Word)
    requires Pow2(n) == half && d >= 0x8000
    ensures Steps(half, n + 1, d, Parts(0, 0)).low >= half
  {
    var one := Restoring(half, d, Parts(0, 0));
    assert one.low == 1 && Pow2(0) == 1;
    BitStays(half, n, 0, d, one);
  }

  /**
   um/mod is exact on every dividend whose high cell is below the divisor if and only if the divisor
   is at most 16384. Above that a shifted high cell can reach 32768, which >= takes for negative.
   */
  lemma UmModExactIff(d: Word)
    requires d > 0
    ensures (forall lo: Word, hi: Word :: hi < d ==> Exact(lo, hi, d)) <==> d <= LARGEST
  {
    if d <= LARGEST {
      forall lo: Word, hi: Word | hi < d
        ensures Exact(lo, hi, d)
      {
        UmModExact(lo, hi, d);
      }
    } else {
      UmModWrong(d);
      assert !Exact(0, 16384, d) || !Exact(0, 0, d);
    }
  }

  lemma UmModWrong(d: Word)
    requires d > LARGEST
    ensures d < 0x8000 ==> !Exact(0, 16384, d)
    ensures d >= 0x8000 ==> !Exact(0, 0, d)
  {
    if d < 0x8000 {
      HighLost(0x8000, 16, d);
    } else {
      Pow15();
      ZeroDivided(0x8000, 15, d);
      Nonzero(UmModOf(0, 0, d).low, UmModOf(0, 0, d).high, d);
    }
  }

  lemma Pow15()
    ensures Pow2(15) == 0x8000
  {
    WordPow2();
    assert Pow2(16) == 2 * Pow2(15);
  }

  // ---------------------------------------------------------------- double cells

  /** A double-cell number, low cell first. */
  function Double(lo: Word, hi: Word): nat {
    lo + 0x1_0000 * hi
  }

  lemma WrapSum(a: Word, b: Word, c: nat)
    requires c <= 1
    ensures Wrap(a + b + c) == if a + b + c >= 0x1_0000 then a + b + c - 0x1_0000 else a + b + c
  {
  }

  lemma DoubleMod(x: nat)
    requires x < 0x2_0000_0000
    ensures x % 0x1_0000_0000 == if x >= 0x1_0000_0000 then x - 0x1_0000_0000 else x
  {
  }

  /** d+ carries from the low cells when their sum is below the augend. */
  method DPlus(alo: Word, ahi: Word, blo: Word, bhi: Word) returns (lo: Word, hi: Word)
    ensures Double(lo, hi) == (Double(alo, ahi) + Double(blo, bhi)) % 0x1_0000_0000
  {
    hi := Wrap(bhi + ahi);
    lo := Wrap(alo + blo);
    WrapSum(alo, blo, 0);
    WrapSum(bhi, ahi, 0);
    DoubleMod(Double(alo, ahi) + Double(blo, bhi));
    if lo < alo {
      WrapSum(hi, 0, 1);
      hi := Wrap(hi + 1);
    }
  }

  /** um*, the hardware multiplier: an unsigned product in two cells. */
  method UmStar(a: Word, b: Word) returns (lo: Word, hi: Word)
    ensures Double(lo, hi) == a * b
  {
    ProductBound(a, b);
    lo, hi := (a * b) % 0x1_0000, (a * b) / 0x1_0000;
  }

  lemma NotNegative(a: nat, b: nat)
    ensures a * b >= 0
  {
  }

  lemma ProductBound(a: Word, b: Word)
    ensures 0 <= a * b <= 0xFFFF * 0xFFFF
  {
    NotNegative(a, b);
    NotNegative(a, 0xFFFF - b);
    Distribute(0xFFFF, b, a);
    assert a * (0xFFFF - b) == (0xFFFF - b) * a && a * b == b * a;
  }

  // ---------------------------------------------------------------- m*slash-mod

  /** t2*: three cells shifted to the left. */
  method TripleShift(l: Word, m: Word, h: Word) returns (l': Word, m': Word, h': Word)
    ensures h' == Wrap(2 * h + (if Double(l, m) >= 0x8000_0000 then 1 else 0))
    ensures l' % 2 == 0
    ensures Double(l', m') == 2 * (if Double(l, m) >= 0x8000_0000 then Double(l, m) - 0x8000_0000 else Double(l, m))
  {
    l', m' := DPlus(l, m, l, m);
    DoubleMod(2 * Double(l, m));
    WrapSum(h, h, 0);
    WrapSum(h, h, 1);
    h' := Wrap(2 * h);
    if Signed(m) < 0 {
      WrapSum(h', 0, 1);
      h' := Wrap(h' + 1);
    }
  }

  /** The body of the loop. */
  method TripleStep(l: Word, m: Word, h: Word, divisor: Word) returns (l': Word, m': Word, h': Word)
    ensures Parts(Double(l', m'), h') == Restoring(0x8000_0000, divisor, Parts(Double(l, m), h))
  {
    l', m', h' := TripleShift(l, m, h);
    ghost var low, high := Double(l', m'), h';
    ShiftedParts(Double(l, m), h, divisor, low, high);
    if Signed(h') >= Signed(divisor) {
      h' := Wrap(h' - divisor);
      LowBit(l', m');
      l' := Wrap(l' + 1);
    }
  }

  lemma ShiftedParts(before: nat, h: Word, divisor: Word, low: nat, high: Word)
    requires low == 2 * (if before >= 0x8000_0000 then before - 0x8000_0000 else before)
    requires high == Wrap(2 * h + (if before >= 0x8000_0000 then 1 else 0))
    ensures Restoring(0x8000_0000, divisor, Parts(before, h))
            == if Signed(high) >= Signed(divisor) then Parts(low + 1, Wrap(high - divisor)) else Parts(low, high)
  {
  }

  /** There is room for the bit: the lowest cell is even. */
  lemma LowBit(l: Word, m: Word)
    requires l % 2 == 0
    ensures Double(Wrap(l + 1), m) == Double(l, m) + 1
  {
    WrapSum(l, 0, 1);
  }

  /** The product of a double cell and a single one, in three cells. */
  method TripleProduct(dlo: Word, dhi: Word, m: Word) returns (l: Word, mid: Word, h: Word)
    ensures Whole(0x1_0000_0000, Parts(Double(l, mid), h)) == Double(dlo, dhi) * m
  {
    var h0, h1 := UmStar(dhi, m);
    var l0, l1 := UmStar(dlo, m);
    ProductBound(dhi, m);
    l := l0;
    mid, h := DPlus(h0, h1, l1, 0);
    ProductParts(dlo, dhi, m, l0, l1, h0, h1);
    ThreeCells(l, mid, h, Double(h0, h1) + l1);
  }

  lemma ThreeCells(l: Word, mid: Word, h: Word, upper: nat)
    requires upper < 0x1_0000_0000 && Double(mid, h) == upper
    ensures Whole(0x1_0000_0000, Parts(Double(l, mid), h)) == l + 0x1_0000 * upper
  {
  }

  lemma ProductParts(dlo: Word, dhi: Word, m: Word, l0: Word, l1: Word, h0: Word, h1: Word)
    requires Double(l0, l1) == dlo * m && Double(h0, h1) == dhi * m
    ensures Double(dlo, dhi) * m == l0 + 0x1_0000 * (l1 + Double(h0, h1))
    ensures Double(h0, h1) + l1 < 0x1_0000_0000
  {
  }

  /** m*slash-mod as a function of the product in three cells. */
  function MStarOf(product: Parts, divisor: Word): Parts {
    Steps(0x8000_0000, 32, divisor, product)
  }

  /** The product of a double cell and a single one, split at its high cell. */
  function Product(dlo: Word, dhi: Word, m: Word): (p: Parts)
    ensures Whole(0x1_0000_0000, p) == Double(dlo, dhi) * m && p.low < 0x1_0000_0000
  {
    var n := Double(dlo, dhi) * m;
    TripleBound(dlo, dhi, m);
    Parts(n % 0x1_0000_0000, n / 0x1_0000_0000)
  }

  lemma TripleBound(dlo: Word, dhi: Word, m: Word)
    ensures 0 <= Double(dlo, dhi) * m < 0x1_0000_0000_0000
  {
  }

  /** m*slash-mod: quotient in two cells and remainder, of a double cell times m over the divisor. */
  method MStarSlashMod(dlo: Word, dhi: Word, m: Word, divisor: Word) returns (qlo: Word, qhi: Word, rem: Word)
    ensures Parts(Double(qlo, qhi), rem) == MStarOf(Product(dlo, dhi, m), divisor)
  {
    qlo, qhi, rem := TripleProduct(dlo, dhi, m);
    ghost var s := Product(dlo, dhi, m);
    SameParts(0x1_0000_0000, rem, Double(qlo, qhi), s.high, s.low);
    var i := 0;
    while i < 32
      invariant 0 <= i <= 32 && Parts(Double(qlo, qhi), rem) == Steps(0x8000_0000, i, divisor, s)
    {
      OneMore(0x8000_0000, i, divisor, s);
      qlo, qhi, rem := TripleStep(qlo, qhi, rem, divisor);
      i := i + 1;
    }
  }

  lemma OneMore(half: nat, i: nat, d: Word, s: Parts)
    ensures Steps(half, i + 1, d, s) == Restoring(half, d, Steps(half, i, d, s))
  {
    StepsAdd(half, i, 1, d, s);
    var t := Steps(half, i, d, s);
    assert Steps(half, 1, d, t) == Steps(half, 0, d, Restoring(half, d, t));
  }

  predicate MStarFits(dlo: Word, dhi: Word, m: Word, divisor: Word) {
    Product(dlo, dhi, m).high < divisor
  }

  predicate MStarGood(dlo: Word, dhi: Word, m: Word, divisor: Word) {
    LongExact(Product(dlo, dhi, m), divisor)
  }

  predicate LongExact(p: Parts, divisor: Word) {
    Divides(MStarOf(p, divisor).low, MStarOf(p, divisor).high, Whole(0x1_0000_0000, p), divisor)
  }

  /** Exact quotient and remainder of the 48-bit product, when its high cell is below the divisor. */
  lemma MStarExact(dlo: Word, dhi: Word, m: Word, divisor: Word)
    requires MStarFits(dlo, dhi, m, divisor) && divisor <= LARGEST
    ensures MStarGood(dlo, dhi, m, divisor) && MStarOf(Product(dlo, dhi, m), divisor).low < 0x1_0000_0000
  {
    Pow32();
    DividesExactly(0x8000_0000, 0x1_0000_0000, 32, divisor, Product(dlo, dhi, m));
  }

  predicate MStarAlways(divisor: Word) {
    forall dlo: Word, dhi: Word, m: Word :: MStarFits(dlo, dhi, m, divisor) ==> MStarGood(dlo, dhi, m, divisor)
  }

  /** The bound on the divisor is the same as for um/mod, and is as sharp. */
  lemma MStarExactIff(divisor: Word)
    requires divisor > 0
    ensures MStarAlways(divisor) <==> divisor <= LARGEST
  {
    if divisor <= LARGEST {
      forall dlo: Word, dhi: Word, m: Word | MStarFits(dlo, dhi, m, divisor)
        ensures MStarGood(dlo, dhi, m, divisor)
      {
        MStarExact(dlo, dhi, m, divisor);
      }
    } else if divisor < 0x8000 {
      MStarLost(divisor);
    } else {
      MStarZero(divisor);
    }
  }

  lemma ProductIs(dlo: Word, dhi: Word, m: Word, p: Parts)
    requires p.low < 0x1_0000_0000 && Whole(0x1_0000_0000, p) == Double(dlo, dhi) * m
    ensures Product(dlo, dhi, m) == p
  {
    var q := Product(dlo, dhi, m);
    SameParts(0x1_0000_0000, p.high, p.low, q.high, q.low);
  }

  lemma MStarLost(divisor: Word)
    requires LARGEST < divisor < 0x8000
    ensures MStarFits(0, 0x8000, 0x8000, divisor) && !MStarGood(0, 0x8000, 0x8000, divisor)
  {
    ProductIs(0, 0x8000, 0x8000, Parts(0, 16384));
    HighLost(0x8000_0000, 32, divisor);
  }

  lemma MStarZero(divisor: Word)
    requires divisor >= 0x8000
    ensures MStarFits(0, 0, 0, divisor) && !MStarGood(0, 0, 0, divisor)
  {
    ProductIs(0, 0, 0, Parts(0, 0));
    ZeroNotExact(Product(0, 0, 0), divisor);
  }

  lemma ZeroNotExact(p: Parts, divisor: Word)
    requires divisor >= 0x8000 && p == Parts(0, 0)
    ensures !LongExact(p, divisor)
  {
    ZeroLong(divisor);
    Nonzero(MStarOf(p, divisor).low, MStarOf(p, divisor).high, divisor);
  }

  lemma ZeroLong(divisor: Word)
    requires divisor >= 0x8000
    ensures MStarOf(Parts(0, 0), divisor).low > 0
  {
    Pow31();
    ZeroDivided(0x8000_0000, 31, divisor);
  }

  lemma Pow31()
    ensures Pow2(31) == 0x8000_0000
  {
    Pow32();
    assert Pow2(32) == 2 * Pow2(31);
  }

  lemma Nonzero(quotient: nat, remainder: nat, d: nat)
    requires quotient > 0 && d > 0
    ensures !Divides(quotient, remainder, 0, d)
  {
  }

  lemma Pow32()
    ensures Pow2(32) == 0x1_0000_0000
  {
    WordPow2();
    PowAdd(16, 16);
  }

  lemma {:induction false} PowAdd(a: nat, b: nat)
    ensures Pow2(a + b) == Pow2(a) * Pow2(b)
  {
    if a > 0 {
      PowAdd(a - 1, b);
      assert Pow2(a) * Pow2(b) == 2 * (Pow2(a - 1) * Pow2(b));
    }
  }
}
