/**
 Sixteen-bit words as integers, with the bitwise operations written out bit by bit and the laws
 that the rest of the project needs about them.
 */
module Words {

  type Word = n: int | 0 <= n < 0x1_0000

  function Wrap(n: int): Word {
    n % 0x1_0000
  }

  /** The value of a word read as two's complement. */
  function Signed(w: Word): int {
    if w >= 0x8000 then w - 0x1_0000 else w
  }

  /** The Forth flags: all ones or all zeros. */
  function Flag(b: bool): Word {
    if b then 0xFFFF else 0
  }

  function Not(a: Word): Word {
    0xFFFF - a
  }

  function And(a: nat, b: nat): nat {
    if a == 0 then 0 else 2 * And(a / 2, b / 2) + (if a % 2 == 1 && b % 2 == 1 then 1 else 0)
  }

  function Or(a: nat, b: nat): nat
    decreases a + b
  {
    if a == 0 then b else if b == 0 then a
    else 2 * Or(a / 2, b / 2) + (if a % 2 == 1 || b % 2 == 1 then 1 else 0)
  }

  function Xor(a: nat, b: nat): nat
    decreases a + b
  {
    if a == 0 then b else if b == 0 then a
    else 2 * Xor(a / 2, b / 2) + (if a % 2 != b % 2 then 1 else 0)
  }

  function Pow2(n: nat): (p: nat)
    ensures p > 0
  {
    if n == 0 then 1 else 2 * Pow2(n - 1)
  }

  lemma {:induction false} AndBound(a: nat, b: nat)
    ensures And(a, b) <= a
  {
    if a != 0 {
      AndBound(a / 2, b / 2);
    }
  }

  lemma {:induction false} OrXorBound(a: nat, b: nat, n: nat)
    requires a < Pow2(n) && b < Pow2(n)
    ensures Or(a, b) < Pow2(n) && Xor(a, b) < Pow2(n)
  {
    if a != 0 && b != 0 {
      OrXorBound(a / 2, b / 2, n - 1);
    }
  }

  lemma WordPow2()
    ensures Pow2(16) == 0x1_0000
  {
    assert Pow2(8) == 256;
    assert Pow2(12) == 4096;
  }

  lemma EvenMultiple(a: nat, n: nat)
    requires n > 0 && a % Pow2(n) == 0
    ensures a % 2 == 0
  {
    var p, q := Pow2(n - 1), a / Pow2(n);
    DivModIdentity(a, Pow2(n));
    assert q * (2 * p) == 2 * (q * p);
  }

  /** One place of a disjunction. */
  lemma OrPlace(a: nat, b: nat)
    requires a % 2 == 0 && Or(a / 2, b / 2) == a / 2 + b / 2
    ensures Or(a, b) == a + b
  {
  }

  /** Bits or'ed onto zeros add up. */
  lemma {:induction false} OrLow(a: nat, b: nat, n: nat)
    requires a % Pow2(n) == 0 && b < Pow2(n)
    ensures Or(a, b) == a + b
  {
    if a != 0 && b != 0 {
      EvenMultiple(a, n);
      HalfMultiple(a, n);
      OrLow(a / 2, b / 2, n - 1);
      OrPlace(a, b);
    }
  }

  lemma HalfMultiple(a: nat, n: nat)
    requires n > 0 && a % Pow2(n) == 0
    ensures (a / 2) % Pow2(n - 1) == 0
  {
    var p, q := Pow2(n - 1), a / Pow2(n);
    assert a == q * (2 * p) == 2 * (q * p);
    MultipleMod(q, p);
  }

  lemma {:induction false} MultipleMod(q: nat, p: nat)
    requires p > 0
    ensures (q * p) % p == 0
  {
    if q > 0 {
      MultipleMod(q - 1, p);
      assert q * p == (q - 1) * p + p;
      AddModulus((q - 1) * p, p);
    }
  }

  lemma AddModulus(a: nat, p: nat)
    requires p > 0
    ensures (a + p) % p == a % p
  {
    var q, r := a / p, a % p;
    assert a + p == (q + 1) * p + r;
    ModUnique(a + p, q + 1, r, p);
  }

  lemma ModUnique(a: nat, q: nat, r: nat, p: nat)
    requires 0 <= r < p && a == q * p + r
    ensures a % p == r && a / p == q
  {
    var d := q - a / p;
    DivModIdentity(a, p);
    Distribute(q, a / p, p);
    if d >= 1 {
      AtLeast(d, p);
    } else if d <= -1 {
      AtMost(d, p);
    }
  }

  lemma DivModIdentity(a: nat, p: nat)
    requires p > 0
    ensures a == (a / p) * p + a % p && 0 <= a % p < p
  {
  }

  lemma Distribute(x: int, y: int, p: int)
    ensures (x - y) * p == x * p - y * p
  {
  }

  lemma TimesAtLeast(d: nat, p: nat)
    requires p >= 1
    ensures d * p >= d
  {
  }

  lemma AtMost(d: int, p: int)
    requires d <= -1 && p >= 0
    ensures d * p <= -p
  {
  }

  lemma AtLeast(d: int, p: int)
    requires d >= 1 && p >= 0
    ensures d * p >= p
  {
  }

  /** Masking with ones in the low n places keeps the low n bits. */
  lemma {:induction false} AndLow(a: nat, n: nat)
    ensures And(a, Pow2(n) - 1) == a % Pow2(n)
  {
    if a != 0 {
      if n == 0 {
        AndZero(a);
      } else {
        AndLow(a / 2, n - 1);
        ModDouble(a, Pow2(n - 1));
      }
    }
  }

  lemma ModDouble(a: nat, p: nat)
    requires p > 0
    ensures a % (2 * p) == 2 * ((a / 2) % p) + a % 2
    ensures (2 * p - 1) / 2 == p - 1 && (2 * p - 1) % 2 == 1
  {
    var h := a / 2;
    DivModIdentity(h, p);
    var q, r := h / p, h % p;
    assert a == 2 * h + a % 2 == 2 * (q * p) + 2 * r + a % 2;
    assert q * (2 * p) == 2 * (q * p);
    ModUnique(a, q, 2 * r + a % 2, 2 * p);
  }

  lemma {:induction false} AndZero(a: nat)
    ensures And(a, 0) == 0
  {
    if a != 0 {
      AndZero(a / 2);
    }
  }

  lemma HalfQuotient(a: nat, p: nat)
    requires p > 0
    ensures a / (2 * p) == (a / 2) / p
  {
    var h := a / 2;
    var q, r := h / p, h % p;
    DivModIdentity(h, p);
    assert a == 2 * h + a % 2 && q * (2 * p) == 2 * (q * p);
    ModUnique(a, q, 2 * r + a % 2, 2 * p);
  }

  // ---------------------------------------------------------------- the single bits

  predicate BitAt(a: nat, i: nat) {
    (a / Pow2(i)) % 2 == 1
  }

  lemma BitZero(a: nat)
    ensures BitAt(a, 0) <==> a % 2 == 1
  {
    assert Pow2(0) == 1;
  }

  lemma BitAbove(a: nat, i: nat)
    requires i > 0
    ensures BitAt(a, i) <==> BitAt(a / 2, i - 1)
  {
    HalfQuotient(a, Pow2(i - 1));
  }

  lemma AndHalves(a: nat, b: nat)
    ensures And(a, b) / 2 == And(a / 2, b / 2) && (And(a, b) % 2 == 1 <==> a % 2 == 1 && b % 2 == 1)
  {
  }

  lemma {:induction false} AndAt(a: nat, b: nat, i: nat)
    ensures BitAt(And(a, b), i) <==> BitAt(a, i) && BitAt(b, i)
    decreases i
  {
    AndHalves(a, b);
    if i == 0 {
      BitZero(a);
      BitZero(b);
      BitZero(And(a, b));
    } else {
      BitAbove(a, i);
      BitAbove(b, i);
      BitAbove(And(a, b), i);
      AndAt(a / 2, b / 2, i - 1);
    }
  }

  lemma OrHalves(a: nat, b: nat)
    ensures Or(a, b) / 2 == Or(a / 2, b / 2) && (Or(a, b) % 2 == 1 <==> a % 2 == 1 || b % 2 == 1)
  {
  }

  lemma {:induction false} OrAt(a: nat, b: nat, i: nat)
    ensures BitAt(Or(a, b), i) <==> BitAt(a, i) || BitAt(b, i)
    decreases i
  {
    OrHalves(a, b);
    if i == 0 {
      BitZero(a);
      BitZero(b);
      BitZero(Or(a, b));
    } else {
      BitAbove(a, i);
      BitAbove(b, i);
      BitAbove(Or(a, b), i);
      OrAt(a / 2, b / 2, i - 1);
    }
  }

  lemma XorHalves(a: nat, b: nat)
    ensures Xor(a, b) / 2 == Xor(a / 2, b / 2) && (Xor(a, b) % 2 == 1 <==> a % 2 != b % 2)
  {
  }

  lemma {:induction false} XorAt(a: nat, b: nat, i: nat)
    ensures BitAt(Xor(a, b), i) <==> BitAt(a, i) != BitAt(b, i)
    decreases i
  {
    XorHalves(a, b);
    if i == 0 {
      BitZero(a);
      BitZero(b);
      BitZero(Xor(a, b));
    } else {
      BitAbove(a, i);
      BitAbove(b, i);
      BitAbove(Xor(a, b), i);
      XorAt(a / 2, b / 2, i - 1);
    }
  }

  lemma {:induction false} NotAt(a: nat, i: nat, n: nat)
    requires a < Pow2(n) && i < n
    ensures BitAt(Pow2(n) - 1 - a, i) <==> !BitAt(a, i)
    decreases i
  {
    var p := Pow2(n - 1);
    var c := 2 * p - 1 - a;
    assert c % 2 == 1 - a % 2 && c / 2 == p - 1 - a / 2;
    if i == 0 {
      BitZero(a);
      BitZero(c);
    } else {
      BitAbove(a, i);
      BitAbove(c, i);
      NotAt(a / 2, i - 1, n - 1);
    }
  }

  lemma {:induction false} OrSelf(a: nat)
    ensures Or(a, a) == a
  {
    if a > 0 {
      OrSelf(a / 2);
    }
  }

  /** The next number always has a bit of its own. */
  lemma {:induction false} OrNext(a: nat)
    ensures Or(a + 1, a) != a
  {
    if a % 2 == 1 {
      OrHalves(a + 1, a);
      assert (a + 1) / 2 == a / 2 + 1;
      OrNext(a / 2);
    } else {
      OrHalves(a + 1, a);
    }
  }

  /** Exclusive or with all ones is the complement. */
  lemma {:induction false} XorOnes(a: nat, n: nat)
    requires a < Pow2(n)
    ensures Xor(a, Pow2(n) - 1) == Pow2(n) - 1 - a
  {
    if n > 0 && a > 0 {
      var p := Pow2(n - 1);
      XorOnes(a / 2, n - 1);
      assert (2 * p - 1) / 2 == p - 1 && (2 * p - 1) % 2 == 1;
    }
  }
}
