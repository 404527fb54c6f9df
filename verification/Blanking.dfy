/**
 The search for blanking times in setMode of mt9v.cpp: one loop over the horizontal blanking, with the
 vertical blanking computed by rounding, finds the best pair of all. Clock ticks are integers, and the
 test of the peak data rate is multiplied out.
 */
module Blanking {

  const INT_MAX := 0x7FFF_FFFF
  const EXTRA_TICS := 4
  const MIN_HBLANK := 100
  const END_HBLANK := 1023
  const MIN_VBLANK := 40
  const MAX_VBLANK := 3000

  /** round of a quotient: to the nearest integer, and away from zero from halfway. */
  function RoundedQuotient(n: int, d: nat): int
    requires d > 0
  {
    if n >= 0 then (2 * n + d) / (2 * d) else -((-2 * n + d) / (2 * d))
  }

  function Clamp(v: int): int {
    if v < MIN_VBLANK then MIN_VBLANK else if v > MAX_VBLANK then MAX_VBLANK else v
  }

  function Abs(n: int): nat {
    if n < 0 then -n else n
  }

  /** How far a frame of these many ticks is from the target. */
  function Error(x: int, y: int, target: int, hblank: int, vblank: int): nat {
    Abs((x + hblank) * (vblank + y) + EXTRA_TICS - target)
  }

  /** The packets of one line, within its time, do not exceed 90 million bits a second. */
  predicate RateFits(x: int, packet: int, hblank: int) {
    128 * packet <= 90 * (x + hblank)
  }

  /** The vertical blanking that the loop tries. */
  function Tried(x: int, y: int, target: int, hblank: int): int
    requires x + hblank > 0
  {
    Clamp(RoundedQuotient(target - EXTRA_TICS, x + hblank) - y)
  }

  predicate Allowed(x: int, packet: int, hblank: int, vblank: int) {
    MIN_HBLANK <= hblank < END_HBLANK && MIN_VBLANK <= vblank <= MAX_VBLANK && RateFits(x, packet, hblank)
  }

  // ---------------------------------------------------------------- one line length

  /** The rounded quotient is within half a divisor. */
  lemma RoundedClose(n: int, d: int)
    requires d > 0
    ensures -d <= 2 * (d * RoundedQuotient(n, d) - n) <= d
  {
  }

  /** Going further from the nearest multiple only gets further away. */
  lemma FurtherOff(d: int, n: int, m: int, near: int, far: int)
    requires d > 0 && -d <= 2 * (d * m - n) <= d
    requires m <= near <= far || far <= near <= m
    ensures Abs(d * near - n) <= Abs(d * far - n)
  {
    Multiples(d, m, near);
    Multiples(d, near, far);
    Multiples(d, near, m);
    Multiples(d, far, near);
  }

  lemma Multiples(d: int, a: int, b: int)
    requires d > 0
    ensures a < b ==> d * a + d <= d * b
    ensures a == b ==> d * a == d * b
  {
    if a < b {
      var k := b - a;
      assert d * b == d * a + d * k;
      assert d * k >= d by {
        assert d * (k - 1) >= 0;
        assert d * k == d * (k - 1) + d;
      }
    }
  }

  /** For one horizontal blanking no vertical blanking in range does better than the one tried. */
  lemma TriedIsBest(x: int, y: int, target: int, hblank: int, vblank: int)
    requires x + hblank > 0 && MIN_VBLANK <= vblank <= MAX_VBLANK
    ensures Error(x, y, target, hblank, Tried(x, y, target, hblank)) <= Error(x, y, target, hblank, vblank)
  {
    var d, n := x + hblank, target - EXTRA_TICS;
    var m := RoundedQuotient(n, d);
    RoundedClose(n, d);
    FurtherOff(d, n, m, Tried(x, y, target, hblank) + y, vblank + y);
  }

  /** Halfway is rounded up, so that a longer vertical blanking is further off. */
  lemma LongerIsWorse(x: int, y: int, target: int, hblank: int, vblank: int)
    requires x + hblank > 0 && y > 0 && Tried(x, y, target, hblank) < vblank <= MAX_VBLANK
    ensures Error(x, y, target, hblank, Tried(x, y, target, hblank)) < Error(x, y, target, hblank, vblank)
  {
    var d, n := x + hblank, target - EXTRA_TICS;
    var m, near := RoundedQuotient(n, d), Tried(x, y, target, hblank) + y;
    RoundedClose(n, d);
    NotBelowZero(n, d);
    Multiples(d, near, vblank + y);
    Multiples(d, m, near);
    assert near >= m;
    assert n < 0 ==> near > m;
  }

  lemma NotBelowZero(n: int, d: int)
    requires d > 0
    ensures n < 0 ==> RoundedQuotient(n, d) <= 0
    ensures n >= 0 ==> 2 * (d * RoundedQuotient(n, d) - n) > -d
  {
    if n >= 0 {
      var k := 2 * n + d;
      var q := k / (2 * d);
      assert k == (2 * d) * q + k % (2 * d);
      assert (2 * d) * q == 2 * (d * q);
    }
  }

  // ---------------------------------------------------------------- the whole search

  datatype Choice =
    | BadBinning
    | BadResolution
    | BadOffset
    | NotFound
    | Chosen(hblank: int, vblank: int, startx: int, starty: int)

  /** 1, 2 or 4 pixels to one. */
  function Scale(bin: int): int {
    if bin == 0 then 1 else if bin == 1 then 2 else 4
  }

  /** Each step of binning doubles what the imager reads for a pixel, as a shift by one place does. */
  lemma ScaleDoubles(bin: int)
    requires 0 <= bin <= 2
    ensures Scale(bin) == if bin == 0 then 1 else 2 * Scale(bin - 1)
  {
  }

  predicate GoodBinning(binx: int, biny: int) {
    0 <= binx <= 2 && 0 <= biny <= 2
  }

  predicate GoodResolution(x: int, y: int) {
    1 <= x <= 752 && 1 <= y <= 480
  }

  predicate GoodOffset(x: int, y: int, xoffset: int, yoffset: int) {
    1 <= 57 + xoffset && 57 + xoffset + x <= 753 && 4 <= 4 + yoffset && 4 + yoffset + y <= 484
  }

  /** The longest line has room for its packet, so that the search always finds something. */
  lemma LongestFits(x: int, scale: int, width: int)
    requires 1 <= x <= 752 && width * scale == x && 1 <= scale
    ensures RateFits(x, 70 + width, END_HBLANK - 1)
  {
  }

  lemma Area(h: int, v: int, hmax: int, vmax: int)
    requires 0 <= h <= hmax && 0 <= v <= vmax
    ensures 0 <= h * v <= hmax * vmax
  {
  }

  /** The target is an int, and so is its distance from the longest frame that is tried for a negative one. */
  predicate Measurable(x: int, y: int, target: int) {
    target <= INT_MAX && (x + END_HBLANK - 1) * (y + MIN_VBLANK) + EXTRA_TICS - target < INT_MAX
  }

  /** For a negative target the shortest vertical blanking is tried. */
  lemma NegativeTarget(x: int, y: int, target: int, hblank: int)
    requires GoodResolution(x, y) && hblank >= MIN_HBLANK && target < 0
    ensures Tried(x, y, target, hblank) == MIN_VBLANK
  {
  }

  /** The distance of what is tried from the target stays below the value that the search starts from. */
  lemma ErrorBound(x: int, y: int, target: int, hblank: int)
    requires GoodResolution(x, y) && Measurable(x, y, target) && MIN_HBLANK <= hblank < END_HBLANK
    ensures Error(x, y, target, hblank, Tried(x, y, target, hblank)) < INT_MAX
  {
    var v := Tried(x, y, target, hblank);
    Area(x + hblank, v + y, 1774, 3480);
    if target < 0 {
      NegativeTarget(x, y, target, hblank);
      Area(x + hblank, v + y, x + END_HBLANK - 1, y + MIN_VBLANK);
    }
  }

  /** One tick further, the longest line comes to the value that the search starts from, and is never taken. */
  lemma NotMeasured(x: int, y: int, target: int)
    requires GoodResolution(x, y) && target < 0
    requires (x + END_HBLANK - 1) * (y + MIN_VBLANK) + EXTRA_TICS - target >= INT_MAX
    ensures Error(x, y, target, END_HBLANK - 1, Tried(x, y, target, END_HBLANK - 1)) >= INT_MAX
  {
    NegativeTarget(x, y, target, END_HBLANK - 1);
    Area(x + END_HBLANK - 1, y + MIN_VBLANK, 1774, 520);
  }

  /** The pair is the best of all allowed ones with a shorter line than end, and the first of its kind. */
  ghost predicate BestBelow(x: int, y: int, target: int, packet: int, hblank: int, vblank: int, end: int) {
    && Allowed(x, packet, hblank, vblank) && hblank < end
    && (forall h, v :: Allowed(x, packet, h, v) && h < end ==>
          Error(x, y, target, hblank, vblank) <= Error(x, y, target, h, v))
    && (forall h, v :: Allowed(x, packet, h, v) && h < hblank ==>
          Error(x, y, target, hblank, vblank) < Error(x, y, target, h, v))
    && (forall v :: vblank < v <= MAX_VBLANK ==>
          Error(x, y, target, hblank, vblank) < Error(x, y, target, hblank, v))
  }

  ghost predicate NoneBelow(x: int, packet: int, end: int) {
    forall h :: MIN_HBLANK <= h < end ==> !RateFits(x, packet, h)
  }

  /** One more line length: the better of the best so far and the one tried now. */
  lemma NextLine(x: int, y: int, target: int, packet: int, hb: int, vb: int, h: int)
    requires GoodResolution(x, y) && MIN_HBLANK <= h < END_HBLANK
    requires BestBelow(x, y, target, packet, hb, vb, h)
    ensures var v := Tried(x, y, target, h);
      if RateFits(x, packet, h) && Error(x, y, target, h, v) < Error(x, y, target, hb, vb)
      then BestBelow(x, y, target, packet, h, v, h + 1) else BestBelow(x, y, target, packet, hb, vb, h + 1)
  {
    forall u | MIN_VBLANK <= u <= MAX_VBLANK
      ensures Error(x, y, target, h, Tried(x, y, target, h)) <= Error(x, y, target, h, u)
    {
      TriedIsBest(x, y, target, h, u);
    }
    forall u | Tried(x, y, target, h) < u <= MAX_VBLANK
      ensures Error(x, y, target, h, Tried(x, y, target, h)) < Error(x, y, target, h, u)
    {
      LongerIsWorse(x, y, target, h, u);
    }
  }

  lemma FirstLine(x: int, y: int, target: int, packet: int, h: int)
    requires GoodResolution(x, y) && MIN_HBLANK <= h < END_HBLANK && NoneBelow(x, packet, h)
    requires RateFits(x, packet, h)
    ensures BestBelow(x, y, target, packet, h, Tried(x, y, target, h), h + 1)
  {
    forall u | MIN_VBLANK <= u <= MAX_VBLANK
      ensures Error(x, y, target, h, Tried(x, y, target, h)) <= Error(x, y, target, h, u)
    {
      TriedIsBest(x, y, target, h, u);
    }
    forall u | Tried(x, y, target, h) < u <= MAX_VBLANK
      ensures Error(x, y, target, h, Tried(x, y, target, h)) < Error(x, y, target, h, u)
    {
      LongerIsWorse(x, y, target, h, u);
    }
  }

  /** The loop of setMode. */
  method Search(x: int, y: int, target: int, packet: int) returns (besthblank: int, bestvblank: int, besterror: int)
    requires GoodResolution(x, y) && Measurable(x, y, target)
    ensures besterror == INT_MAX ==> NoneBelow(x, packet, END_HBLANK)
    ensures besterror != INT_MAX ==>
      BestBelow(x, y, target, packet, besthblank, bestvblank, END_HBLANK)
      && besterror == Error(x, y, target, besthblank, bestvblank)
  {
    besthblank, bestvblank, besterror := 0, 0, INT_MAX;
    var hblank := MIN_HBLANK;
    while hblank < END_HBLANK
      invariant MIN_HBLANK <= hblank <= END_HBLANK
      invariant besterror == INT_MAX ==> NoneBelow(x, packet, hblank)
      invariant besterror != INT_MAX ==>
        BestBelow(x, y, target, packet, besthblank, bestvblank, hblank)
        && besterror == Error(x, y, target, besthblank, bestvblank)
    {
      var htics := x + hblank;
      var vblank := RoundedQuotient(target - EXTRA_TICS, htics) - y;
      if vblank < MIN_VBLANK {
        vblank := MIN_VBLANK;
      }
      if vblank > MAX_VBLANK {
        vblank := MAX_VBLANK;
      }
      var vtics := vblank + y;
      var tics := htics * vtics + EXTRA_TICS;
      var err := Abs(tics - target);
      ErrorBound(x, y, target, hblank);
      if besterror == INT_MAX {
        if RateFits(x, packet, hblank) {
          FirstLine(x, y, target, packet, hblank);
        }
      } else {
        NextLine(x, y, target, packet, besthblank, bestvblank, hblank);
      }
      if 128 * packet <= 90 * htics && err < besterror {
        besterror, bestvblank, besthblank := err, vblank, hblank;
      }
      hblank := hblank + 1;
    }
  }

  /** What the sensor allows and the network carries: eight bits a byte at 16 MHz, and 90 million bits a second. */
  predicate Possible(x: int, packet: int, h: int, v: int) {
    100 <= h <= 1022 && 40 <= v <= 3000 && 8 * packet * 16_000_000 <= 90_000_000 * (x + h)
  }

  /** Clock ticks of a frame, and how far they are from the target. */
  function TicksOff(x: int, y: int, target: int, h: int, v: int): int {
    var ticks := (x + h) * (y + v) + 4;
    if ticks >= target then ticks - target else target - ticks
  }

  /** No possible pair comes closer to the target; with a shorter line or a longer vertical blanking, none comes as close. */
  ghost predicate BestMode(x: int, y: int, target: int, packet: int, hblank: int, vblank: int) {
    && Possible(x, packet, hblank, vblank)
    && (forall h, v :: Possible(x, packet, h, v) ==> TicksOff(x, y, target, hblank, vblank) <= TicksOff(x, y, target, h, v))
    && (forall h, v :: Possible(x, packet, h, v) && h < hblank ==>
          TicksOff(x, y, target, hblank, vblank) < TicksOff(x, y, target, h, v))
    && (forall v :: Possible(x, packet, hblank, v) && v > vblank ==>
          TicksOff(x, y, target, hblank, vblank) < TicksOff(x, y, target, hblank, v))
  }

  lemma SamePair(x: int, y: int, target: int, packet: int, h: int, v: int)
    ensures Allowed(x, packet, h, v) <==> Possible(x, packet, h, v)
    ensures Error(x, y, target, h, v) == TicksOff(x, y, target, h, v)
  {
  }

  lemma BestIsBest(x: int, y: int, target: int, packet: int, hblank: int, vblank: int)
    requires BestBelow(x, y, target, packet, hblank, vblank, END_HBLANK)
    ensures BestMode(x, y, target, packet, hblank, vblank)
  {
    SamePair(x, y, target, packet, hblank, vblank);
    forall h, v | Possible(x, packet, h, v)
      ensures TicksOff(x, y, target, hblank, vblank) <= TicksOff(x, y, target, h, v)
      ensures h < hblank || (h == hblank && v > vblank) ==> TicksOff(x, y, target, hblank, vblank) < TicksOff(x, y, target, h, v)
    {
      SamePair(x, y, target, packet, h, v);
    }
  }

  /** setMode up to its first register write; the target comes from the frame rate. */
  method SetMode(width: int, height: int, binx: int, biny: int, target: int, xoffset: int, yoffset: int)
    returns (c: Choice)
    requires GoodBinning(binx, biny) && GoodResolution(width * Scale(binx), height * Scale(biny)) ==>
      Measurable(width * Scale(binx), height * Scale(biny), target)
    ensures c.BadBinning? <==> !GoodBinning(binx, biny)
    ensures GoodBinning(binx, biny) ==>
      var x, y := width * Scale(binx), height * Scale(biny);
      && (c.BadResolution? <==> !GoodResolution(x, y))
      && (c.BadOffset? <==> GoodResolution(x, y) && !GoodOffset(x, y, xoffset, yoffset))
      && (c.Chosen? <==> GoodResolution(x, y) && GoodOffset(x, y, xoffset, yoffset))
      && (c.Chosen? ==> BestMode(x, y, target, 70 + width, c.hblank, c.vblank)
                        && c.startx == 57 + xoffset && c.starty == 4 + yoffset)
    ensures !c.NotFound?
  {
    if binx < 0 || binx > 2 || biny < 0 || biny > 2 {
      return BadBinning;
    }
    var x, y := width * Scale(binx), height * Scale(biny);
    if x < 1 || x > 752 || y < 1 || y > 480 {
      return BadResolution;
    }
    var startx, starty := 57 + xoffset, 4 + yoffset;
    if startx < 1 || startx + x > 752 + 1 || starty < 4 || starty + y > 480 + 4 {
      return BadOffset;
    }
    var hblank, vblank, error := Search(x, y, target, 70 + width);
    LongestFits(x, Scale(binx), width);
    assert RateFits(x, 70 + width, END_HBLANK - 1);
    if error == INT_MAX {
      return NotFound;
    }
    BestIsBest(x, y, target, 70 + width, hblank, vblank);
    c := Chosen(hblank, vblank, startx, starty);
  }
}
