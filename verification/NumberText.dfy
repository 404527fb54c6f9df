/**
 Numeric output and input of nuc.fs: <# #S #> writes the digits of a double-cell number backwards into
 the pad, >number reads digits back.
 */
module NumberText {
  import opened Words
  import opened Division

  const PAD_CHARS := 84

  predicate IsBase(b: Word) {
    2 <= b <= 36
  }

  // ---------------------------------------------------------------- characters

  /** DIGIT */
  function Digit(u: Word): Word {
    Wrap(u + (if 9 < Signed(u) then 7 else 0) + 48)
  }

  /** The cell that DIGIT? makes of a character; the gap between 9 and A becomes all ones. */
  function DigitValue(c: Word): Word {
    var u := Wrap(c - 48);
    if 9 < Signed(u) then (if Signed(u) - 7 < 10 then 0xFFFF else u - 7) else u
  }

  predicate IsDigit(c: Word, b: Word) {
    DigitValue(c) < b
  }

  /** The digits are 0 to 9 and then the capital letters. */
  lemma DigitIs(u: Word)
    requires u < 36
    ensures Digit(u) as char == "0123456789ABCDEFGHIJKLMNOPQRSTUVWXYZ"[u]
  {
  }

  /** And only they are read: digits below the base, and letters. */
  lemma IsDigitIff(c: Word, b: Word)
    requires IsBase(b)
    ensures IsDigit(c, b) <==> ('0' as int <= c <= '9' as int && c - '0' as int < b) || ('A' as int <= c && c - 'A' as int + 10 < b)
  {
  }

  lemma DigitBack(u: Word, b: Word)
    requires IsBase(b) && u < b
    ensures DigitValue(Digit(u)) == u && IsDigit(Digit(u), b)
  {
  }

  // ---------------------------------------------------------------- what is written and read

  /** The digits of n, most significant first. */
  function TextOf(n: nat, b: Word): seq<Word>
    requires IsBase(b)
  {
    if n < b then [Digit(n)] else TextOf(n / b, b) + [Digit(n % b)]
  }

  /** One more digit: only the low cell of what was read before is kept. */
  function Joined(v: nat, digit: nat, b: Word): nat {
    (v % 0x1_0000) * b + digit
  }

  /** What has been read when no digit is left in front, and the text from there on. */
  function Reading(v: nat, text: seq<Word>, b: Word): (nat, seq<Word>)
    decreases |text|
  {
    if text == [] || !IsDigit(text[0], b) then (v, text)
    else Reading(Joined(v, DigitValue(text[0]), b), text[1..], b)
  }

  lemma {:induction false} ReadingAppend(v: nat, text: seq<Word>, c: Word, b: Word)
    requires Reading(v, text, b).1 == [] && IsDigit(c, b)
    ensures Reading(v, text + [c], b) == (Joined(Reading(v, text, b).0, DigitValue(c), b), [])
    decreases |text|
  {
    if text == [] {
      assert [c][1..] == [];
      assert text + [c] == [c];
    } else {
      assert (text + [c])[1..] == text[1..] + [c];
      ReadingAppend(Joined(v, DigitValue(text[0]), b), text[1..], c, b);
    }
  }

  /** What reading gives back of a number that was written. */
  function Back(n: nat, b: Word): nat
    requires IsBase(b)
  {
    Reading(0, TextOf(n, b), b).0
  }

  /** All characters of a number are read, with those of the quotient read before the last. */
  lemma {:induction false} ReadsAll(n: nat, b: Word)
    requires IsBase(b)
    ensures Reading(0, TextOf(n, b), b).1 == []
    ensures Back(n, b) == if n < b then n else Joined(Back(n / b, b), n % b, b)
    decreases n
  {
    if n < b {
      DigitBack(n, b);
      ReadingAppend(0, [], Digit(n), b);
      assert [] + [Digit(n)] == [Digit(n)];
      JoinedZero(n, b);
    } else {
      ReadsAll(n / b, b);
      DigitBack(n % b, b);
      ReadingAppend(0, TextOf(n / b, b), Digit(n % b), b);
    }
  }

  lemma JoinedZero(digit: nat, b: Word)
    ensures Joined(0, digit, b) == digit
  {
  }

  lemma JoinedIs(q: nat, r: nat, b: Word)
    requires q < 0x1_0000
    ensures Joined(q, r, b) == q * b + r
  {
  }

  lemma JoinedExact(n: nat, b: Word)
    requires b > 0 && n / b < 0x1_0000
    ensures Joined(n / b, n % b, b) == n
  {
    DivModIdentity(n, b);
    JoinedIs(n / b, n % b, b);
  }

  lemma JoinedLess(v: nat, n: nat, b: Word)
    requires b > 0 && n / b >= 0x1_0000
    ensures Joined(v, n % b, b) < n
  {
    DivModIdentity(n, b);
    var k := n / b - v % 0x1_0000;
    TimesPositive(k, b);
    Distribute(n / b, v % 0x1_0000, b);
  }

  lemma TimesPositive(k: nat, b: nat)
    requires k > 0 && b > 0
    ensures k * b > 0
  {
  }

  lemma QuotientSmaller(n: nat, b: Word)
    requires IsBase(b) && n < 0x1_0000
    ensures n / b < 0x1_0000
  {
  }

  lemma ReadBackMore(n: nat, b: Word, q: nat)
    requires IsBase(b) && b <= n && q == n / b < 0x1_0000 && Back(q, b) == q
    ensures Back(n, b) == n
  {
    ReadsAll(n, b);
    JoinedExact(n, b);
  }

  /** Numbers whose quotient by the base fits in a cell are read back. */
  lemma {:induction false} ReadBack(n: nat, b: Word)
    requires IsBase(b) && n / b < 0x1_0000
    ensures Back(n, b) == n
    decreases n
  {
    if n < b {
      ReadsAll(n, b);
    } else {
      var q := n / b;
      QuotientSmaller(q, b);
      QuotientLess(n, b);
      ReadBack(q, b);
      ReadBackMore(n, b, q);
    }
  }

  /**
   >number gives back the number that <# #S #> wrote, and uses up the text, if and only if the number
   without its last digit fits in one cell.
   */
  lemma RoundTripIff(n: nat, b: Word)
    requires IsBase(b)
    ensures Reading(0, TextOf(n, b), b).1 == []
    ensures Reading(0, TextOf(n, b), b).0 == n <==> n / b < 0x1_0000
  {
    ReadsAll(n, b);
    if n / b < 0x1_0000 {
      ReadBack(n, b);
    } else {
      JoinedLess(Back(n / b, b), n, b);
    }
  }

  /** The pad is long enough for any double-cell number. */
  lemma {:induction false} TextLength(n: nat, b: Word, k: nat)
    requires IsBase(b) && n < Pow2(k)
    ensures 1 <= |TextOf(n, b)| <= k + 1
    decreases k
  {
    if n >= b {
      HalfBound(n, b, Pow2(k - 1));
      TextLength(n / b, b, k - 1);
    }
  }

  lemma NotEmpty(n: nat, b: Word)
    requires IsBase(b)
    ensures |TextOf(n, b)| > 0
  {
  }

  lemma HalfBound(n: nat, b: nat, p: nat)
    requires b >= 2 && n < 2 * p
    ensures n / b < p
  {
  }

  // ---------------------------------------------------------------- the words

  class Numeric {
    const pad: array<Word>
    var hld: nat
    var base: Word

    predicate Valid()
      reads this
    {
      pad.Length == PAD_CHARS && hld <= PAD_CHARS && IsBase(base)
    }

    /** The text held so far. */
    ghost function Held(): seq<Word>
      requires Valid()
      reads this, pad
    {
      pad[hld..]
    }

    constructor (radix: Word)
      requires IsBase(radix)
      ensures Valid() && base == radix && fresh(pad)
    {
      pad := new Word[PAD_CHARS](_ => 0);
      hld, base := PAD_CHARS, radix;
    }

    /** <# */
    method LessSharp()
      requires Valid()
      modifies this`hld
      ensures Valid() && Held() == []
    {
      hld := PAD_CHARS;
    }

    method Hold(c: Word)
      requires Valid() && hld > 0
      modifies this`hld, pad
      ensures Valid() && hld == old(hld) - 1 && Held() == [c] + old(Held())
    {
      hld := hld - 1;
      pad[hld] := c;
    }

    /** # divides both cells by the base and holds the remainder as a digit. */
    method Sharp(lo: Word, hi: Word) returns (lo': Word, hi': Word)
      requires Valid() && hld > 0
      modifies this`hld, pad
      ensures Valid() && hld == old(hld) - 1
      ensures Double(lo', hi') == Double(lo, hi) / base
      ensures Held() == [Digit(Double(lo, hi) % base)] + old(Held())
    {
      var r, q := UmMod(hi, 0, base);
      UmModExact(hi, 0, base);
      hi' := q;
      r, q := UmMod(lo, r, base);
      UmModExact(lo, UmModOf(hi, 0, base).high, base);
      lo' := q;
      LongDivision(lo, hi, base, lo', hi', r);
      Hold(Digit(r));
    }

    /** #S goes on until nothing is left. */
    method SharpS(lo: Word, hi: Word)
      requires Valid() && hld > 32
      modifies this`hld, pad
      ensures Valid() && Held() == TextOf(Double(lo, hi), base) + old(Held())
    {
      Pow32();
      ghost var n, held := Double(lo, hi), Held();
      TextLength(n, base, 32);
      var l, h := Sharp(lo, hi);
      OneDigit(n, Double(l, h), base, held, Held());
      while l != 0 || h != 0
        invariant Valid() && base == old(base)
        invariant hld >= |Rest(Double(l, h), base)| && TextOf(n, base) + held == Rest(Double(l, h), base) + Held()
        decreases Double(l, h)
      {
        ghost var m, before := Double(l, h), Held();
        NotEmpty(m, base);
        l, h := Sharp(l, h);
        OneDigit(m, Double(l, h), base, before, Held());
      }
      assert [] + Held() == Held();
    }
  }

  /** The digits that are still to be written. */
  function Rest(m: nat, b: Word): seq<Word>
    requires IsBase(b)
  {
    if m == 0 then [] else TextOf(m, b)
  }

  lemma QuotientLess(m: nat, b: Word)
    requires IsBase(b) && m > 0
    ensures m / b < m
  {
  }

  /** Dividing high cell and then low cell with the remainder divides the whole. */
  lemma LongDivision(lo: Word, hi: Word, d: Word, qlo: Word, qhi: Word, r: Word)
    requires d > 0 && r < d
    requires exists x: nat :: qhi * d + x == hi && x < d && qlo * d + r == 0x1_0000 * x + lo
    ensures Double(lo, hi) / d == Double(qlo, qhi) && Double(lo, hi) % d == r
  {
    var x: nat :| qhi * d + x == hi && x < d && qlo * d + r == 0x1_0000 * x + lo;
    assert (qlo + 0x1_0000 * qhi) * d == qlo * d + 0x1_0000 * (qhi * d);
    ModUnique(Double(lo, hi), Double(qlo, qhi), r, d);
  }

  lemma OneDigit(n: nat, q: nat, b: Word, before: seq<Word>, after: seq<Word>)
    requires IsBase(b) && q == n / b && after == [Digit(n % b)] + before
    ensures TextOf(n, b) + before == Rest(q, b) + after && |TextOf(n, b)| == |Rest(q, b)| + 1
    ensures n > 0 ==> q < n
  {
    DivModIdentity(n, b);
    if n < b {
      ModUnique(n, 0, n, b);
    }
    if n > 0 {
      QuotientLess(n, b);
    }
  }

  /** The high cell is dropped, the low one multiplied, and the digit added. */
  method AddDigit(lo: Word, hi: Word, digit: Word, base: Word) returns (lo': Word, hi': Word)
    requires IsBase(base) && digit < base
    ensures Double(lo', hi') == Joined(Double(lo, hi), digit, base)
  {
    LowCell(lo, hi);
    SmallProduct(lo, base);
    var plo, phi := UmStar(lo, base);
    lo', hi' := DPlus(digit, 0, plo, phi);
  }

  /**
   >number calls itself behind every digit, and each call holds a return cell until the text is used up: deepest is how
   many are held at most, when there are so many at first.
   */
  method ToNumber(lo: Word, hi: Word, text: seq<Word>, base: Word, held: nat)
    returns (lo': Word, hi': Word, rest: seq<Word>, deepest: nat)
    requires IsBase(base)
    ensures (Double(lo', hi'), rest) == Reading(Double(lo, hi), text, base)
    ensures deepest == held + DigitsIn(text, base)
    decreases |text|
  {
    lo', hi', rest, deepest := lo, hi, text, held;
    while rest != [] && IsDigit(rest[0], base)
      invariant |rest| <= |text| && Reading(Double(lo', hi'), rest, base) == Reading(Double(lo, hi), text, base)
      invariant if rest == text then deepest == held
                else (rest == [] || !IsDigit(rest[0], base)) && deepest == held + DigitsIn(text, base)
      decreases |rest|
    {
      lo', hi' := AddDigit(lo', hi', DigitValue(rest[0]), base);
      ReadingStops(Double(lo', hi'), rest[1..], base);
      lo', hi', rest, deepest := ToNumber(lo', hi', rest[1..], base, held + 1);
    }
  }

  /** How many digits the text begins with. */
  function DigitsIn(text: seq<Word>, b: Word): nat {
    if text == [] || !IsDigit(text[0], b) then 0 else 1 + DigitsIn(text[1..], b)
  }

  /** What is left begins with no digit. */
  lemma {:induction false} ReadingStops(v: nat, text: seq<Word>, b: Word)
    ensures var rest := Reading(v, text, b).1;
      |rest| <= |text| && (rest == [] || !IsDigit(rest[0], b))
    decreases |text|
  {
    if text != [] && IsDigit(text[0], b) {
      ReadingStops(Joined(v, DigitValue(text[0]), b), text[1..], b);
    }
  }

  lemma {:induction false} DigitsAppend(text: seq<Word>, c: Word, b: Word)
    requires DigitsIn(text, b) == |text| && IsDigit(c, b)
    ensures DigitsIn(text + [c], b) == |text| + 1
    decreases |text|
  {
    if text == [] {
      assert (text + [c])[1..] == [];
    } else {
      assert (text + [c])[1..] == text[1..] + [c];
      DigitsAppend(text[1..], c, b);
    }
  }

  /** A number that was written takes one more return cell for each of its digits when it is read. */
  lemma {:induction false} DepthOfText(n: nat, b: Word)
    requires IsBase(b)
    ensures DigitsIn(TextOf(n, b), b) == |TextOf(n, b)|
    decreases n
  {
    if n < b {
      DigitBack(n, b);
    } else {
      QuotientLess(n, b);
      DepthOfText(n / b, b);
      DigitBack(n % b, b);
      DigitsAppend(TextOf(n / b, b), Digit(n % b), b);
    }
  }

  /** In base 2 that is as many as the number has bits, so that 32 cells are not enough for all double-cell numbers. */
  lemma {:induction false} BinaryDepth(n: nat, k: nat)
    requires k > 0
    ensures |TextOf(n, 2)| <= k <==> n < Pow2(k)
    decreases k
  {
    if n >= 2 {
      if k == 1 {
        NotEmpty(n / 2, 2);
        assert Pow2(1) == 2 * Pow2(0);
      } else {
        BinaryDepth(n / 2, k - 1);
      }
    } else {
      assert Pow2(k) == 2 * Pow2(k - 1);
    }
  }

  function Pow3(n: nat): nat {
    if n == 0 then 1 else 3 * Pow3(n - 1)
  }

  lemma {:induction false} OtherDepth(n: nat, b: Word, k: nat)
    requires 3 <= b <= 36 && k > 0 && n < Pow3(k)
    ensures |TextOf(n, b)| <= k
    decreases k
  {
    if n >= b {
      ThirdBound(n, b, Pow3(k - 1));
      assert k > 1 by {
        assert Pow3(1) == 3 * Pow3(0);
      }
      OtherDepth(n / b, b, k - 1);
    }
  }

  lemma ThirdBound(n: nat, b: nat, p: nat)
    requires b >= 3 && n < 3 * p
    ensures n / b < p
  {
  }

  /** In every other base 21 are enough. */
  lemma OtherBasesFit(n: nat, b: Word)
    requires 3 <= b <= 36 && n < 0x1_0000_0000
    ensures DigitsIn(TextOf(n, b), b) <= 21
  {
    assert Pow3(21) >= 0x1_0000_0000 by {
      assert Pow3(7) == 2187;
      assert Pow3(14) == 4782969;
    }
    OtherDepth(n, b, 21);
    DepthOfText(n, b);
  }

  lemma LowCell(lo: Word, hi: Word)
    ensures Double(lo, hi) % 0x1_0000 == lo
  {
  }

  lemma SmallProduct(a: Word, b: Word)
    requires IsBase(b)
    ensures 0 <= a * b + b < 0x1_0000_0000
  {
  }

  /** A number written and read again, with the text in the pad in between. */
  method WriteAndRead(lo: Word, hi: Word, base: Word) returns (lo': Word, hi': Word, rest: seq<Word>, deepest: nat)
    requires IsBase(base)
    ensures rest == [] && (lo' == lo && hi' == hi <==> Double(lo, hi) / base < 0x1_0000)
    ensures base > 2 ==> deepest <= 21
  {
    var n := new Numeric(base);
    n.LessSharp();
    n.SharpS(lo, hi);
    ghost var m := Double(lo, hi);
    var text := n.pad[n.hld..];
    assert text == TextOf(m, base);
    RoundTripIff(m, base);
    lo', hi', rest, deepest := ToNumber(0, 0, text, base, 0);
    SameDouble(lo, hi, lo', hi');
    if base > 2 {
      OtherBasesFit(m, base);
    }
  }

  lemma SameDouble(a: Word, b: Word, c: Word, d: Word)
    ensures Double(a, b) == Double(c, d) <==> a == c && b == d
  {
  }
}
