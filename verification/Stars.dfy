/** The arithmetic of the star control (CosmosDistrib.swift:513-528, 814-875, 905-982), over exact reals. */
module Stars {

  datatype FillMode = Full | Half | Precise

  // ----- ratings -----

  /** round(), which rounds halves away from zero. */
  function Round(x: real): int {
    if x >= 0.0 then (x + 0.5).Floor else -((-x + 0.5).Floor)
  }

  function RoundFillLevel(level: real, mode: FillMode): real {
    match mode
    case Full => Round(level) as real
    case Half => Round(level * 2.0) as real / 2.0
    case Precise => level
  }

  function StarFillLevel(remainder: real, mode: FillMode): real {
    RoundFillLevel(if remainder > 1.0 then 1.0 else if remainder < 0.0 then 0.0 else remainder, mode)
  }

  function Min(a: real, b: real): real { if a < b then a else b }

  function Max(a: real, b: real): real { if a > b then a else b }

  /** displayedRatingFromPreciseRating before it is cut to the number of stars. */
  function Rounded(precise: real, mode: FillMode): real {
    var whole := precise.Floor as real;
    whole + StarFillLevel(precise - whole, mode)
  }

  /** displayedRatingFromPreciseRating */
  function DisplayedRating(precise: real, mode: FillMode, totalStars: nat): real {
    Max(0.0, Min(totalStars as real, Rounded(precise, mode)))
  }

  /** numberOfFilledStars */
  function NumberOfFilledStars(rating: real, totalStars: nat): real {
    if rating > totalStars as real then totalStars as real else if rating < 0.0 then 0.0 else rating
  }

  /** A fill level is between empty and full, goes up with the remainder, and is that of the ends at the ends. */
  lemma FillLevels(a: real, b: real, mode: FillMode)
    requires a <= b
    ensures 0.0 <= StarFillLevel(a, mode) <= StarFillLevel(b, mode) <= 1.0
    ensures a <= 0.0 ==> StarFillLevel(a, mode) == 0.0
    ensures b >= 1.0 ==> StarFillLevel(b, mode) == 1.0
  {
  }

  function Distance(a: real, b: real): real { if a < b then b - a else a - b }

  /** No whole number is nearer than the rounded one; if another is as near, it is the one nearer to zero. */
  lemma RoundNearest(x: real, n: int)
    ensures Distance(Round(x) as real, x) <= Distance(n as real, x)
    ensures n != Round(x) && Distance(n as real, x) == Distance(Round(x) as real, x) ==>
              Distance(n as real, 0.0) < Distance(Round(x) as real, 0.0)
  {
    var r := Round(x);
    assert Distance(r as real, x) <= 0.5;
    if n > r { assert n as real >= r as real + 1.0; } else if n < r { assert n as real <= r as real - 1.0; }
  }

  /** r is n parts of a star, and as near to x as parts of that size can be; the middle goes up. */
  predicate NearestPart(r: real, x: real, n: int, size: real) { r == n as real * size && -size < 2.0 * (r - x) <= size }

  /** The rating that is shown, before it is cut, is the nearest whole number, the nearest half, or the rating itself;
      what lies in the middle is rounded up. */
  lemma RoundedNearest(x: real, mode: FillMode)
    ensures mode == Full ==> exists n :: NearestPart(Rounded(x, mode), x, n, 1.0)
    ensures mode == Half ==> exists n :: NearestPart(Rounded(x, mode), x, n, 0.5)
    ensures mode == Precise ==> Rounded(x, mode) == x
  {
    var whole, rest := x.Floor, x - x.Floor as real;
    if mode == Full {
      assert NearestPart(Rounded(x, mode), x, whole + Round(rest), 1.0);
    } else if mode == Half {
      assert NearestPart(Rounded(x, mode), x, 2 * whole + Round(rest * 2.0), 0.5);
    }
  }

  // ----- the star loop -----

  function Sum(s: seq<real>): real {
    if s == [] then 0.0 else Sum(s[..|s|-1]) + s[|s|-1]
  }

  /** What the loop of createStarLayers has filled after k stars. */
  lemma {:induction false} LevelsSum(rating: real, mode: FillMode, levels: seq<real>)
    requires rating >= 0.0 && forall i :: 0 <= i < |levels| ==> levels[i] == StarFillLevel(rating - i as real, mode)
    ensures Sum(levels) == if rating.Floor < |levels| then Rounded(rating, mode) else |levels| as real
  {
    if levels != [] {
      var n := |levels| - 1;
      LevelsSum(rating, mode, levels[..n]);
      FillLevels(rating - n as real, rating - n as real, mode);
    }
  }

  lemma {:induction false} SumReversed(s: seq<real>, t: seq<real>)
    requires |s| == |t| && forall i :: 0 <= i < |s| ==> t[i] == s[|s| - 1 - i]
    ensures Sum(s) == Sum(t)
  {
    if s != [] {
      var n := |s| - 1;
      SumReversed(s[..n], t[1..]);
      SumFromFront(t);
    }
  }

  lemma {:induction false} SumFromFront(t: seq<real>)
    requires t != []
    ensures Sum(t) == t[0] + Sum(t[1..])
  {
    var n := |t| - 1;
    if n > 0 {
      SumFromFront(t[..n]);
      assert t[..n][1..] == t[1..][..n - 1];
    }
  }

  /** The rating that is cut to the number of stars before the loop gives the one that is rounded and then cut. */
  lemma CutThenRounded(rating: real, mode: FillMode, totalStars: nat)
    ensures var r := NumberOfFilledStars(rating, totalStars);
            DisplayedRating(rating, mode, totalStars)
            == if r.Floor < totalStars then Rounded(r, mode) else totalStars as real
  {
    var whole := rating.Floor as real;
    FillLevels(rating - whole, rating - whole, mode);
    FillLevels(0.0, 0.0, mode);
  }

  /** The loop of createStarLayers, down to the fill level of each layer.  For every rating and fill mode the levels
      add up to the displayed rating. */
  method CreateStarLayers(rating: real, mode: FillMode, totalStars: nat, isRightToLeft: bool)
    returns (levels: seq<real>)
    ensures |levels| == totalStars && forall i :: 0 <= i < |levels| ==> 0.0 <= levels[i] <= 1.0
    ensures Sum(levels) == DisplayedRating(rating, mode, totalStars)
    ensures forall i, j :: 0 <= i < j < totalStars ==>
              if isRightToLeft then levels[i] <= levels[j] else levels[i] >= levels[j]
  {
    var start := NumberOfFilledStars(rating, totalStars);
    var remainder := start;
    levels := [];
    for k := 0 to totalStars
      invariant |levels| == k && remainder == start - k as real
      invariant forall i :: 0 <= i < k ==> levels[i] == StarFillLevel(start - i as real, mode)
    {
      levels := levels + [StarFillLevel(remainder, mode)];
      remainder := remainder - 1.0;
    }
    LevelsSum(start, mode, levels);
    CutThenRounded(rating, mode, totalStars);
    forall i, j | 0 <= i <= j < totalStars ensures 0.0 <= levels[j] <= levels[i] <= 1.0 {
      FillLevels(start - j as real, start - i as real, mode);
    }
    if isRightToLeft {
      ghost var before := levels;
      levels := Reversed(levels);
      SumReversed(before, levels);
    }
  }

  function Reversed(s: seq<real>): (r: seq<real>)
    ensures |r| == |s| && forall i :: 0 <= i < |s| ==> r[i] == s[|s| - 1 - i]
  {
    if s == [] then [] else Reversed(s[1..]) + [s[0]]
  }

  // ----- touch -----

  datatype Settings = Settings(mode: FillMode, totalStars: nat, starSize: real, starMargin: real, minTouchRating: real)

  /** Stars have a width, and a margin that is negative does not use it up. */
  predicate Sensible(s: Settings) { s.starSize > 0.0 && s.starSize + s.starMargin > 0.0 }

  /** The part of a star that lies before `rest`. */
  function InStar(rest: real, size: real): real
    requires size > 0.0
  {
    if rest > size then 1.0 else rest / size
  }

  /** The rating at `rest` past the start of star number `whole`. */
  function Spread(whole: int, rest: real, size: real): real
    requires size > 0.0
  {
    whole as real + InStar(rest, size)
  }

  /** The rating at a position if there were stars without end, each `size` wide and `width` with its margin. */
  function Endless(position: real, size: real, width: real): real
    requires size > 0.0 && width > 0.0
  {
    if position < 0.0 then 0.0
    else
      var whole := (position / width).Floor;
      Spread(whole, position - whole as real * width, size)
  }

  /** preciseRating */
  function PreciseRating(position: real, s: Settings): real
    requires Sensible(s)
  {
    if position >= 0.0 && (position / (s.starSize + s.starMargin)).Floor > s.totalStars then s.totalStars as real
    else Endless(position, s.starSize, s.starSize + s.starMargin)
  }

  function Bias(mode: FillMode): real {
    match mode
    case Half => 0.20
    case Full => 0.45
    case Precise => 0.0
  }

  /** touchRating */
  function TouchRating(position: real, s: Settings): real
    requires Sensible(s)
  {
    Max(s.minTouchRating, DisplayedRating(PreciseRating(position, s) + Bias(s.mode), s.mode, s.totalStars))
  }

  lemma Quotient(p: real, w: real)
    requires p >= 0.0 && w > 0.0
    ensures var k := (p / w).Floor; k >= 0 && 0.0 <= p - k as real * w
  {
    Cancel(p, w);
    Divide(0.0, p, w);
    Scale((p / w).Floor as real, p / w, w);
  }

  lemma Cancel(p: real, w: real)
    requires w > 0.0
    ensures p / w * w == p
  {
  }

  lemma Scale(a: real, b: real, w: real)
    requires a <= b && w > 0.0
    ensures a * w <= b * w
  {
  }

  lemma Divide(a: real, b: real, w: real)
    requires a <= b && w > 0.0
    ensures a / w <= b / w
  {
  }

  lemma Fraction(r: real, t: real, size: real)
    requires 0.0 <= r <= t <= size && size > 0.0
    ensures 0.0 <= r / size <= t / size <= 1.0
  {
    Divide(0.0, r, size);
    Divide(r, t, size);
    Divide(t, size, size);
  }

  lemma InStarMonotone(r: real, t: real, size: real)
    requires 0.0 <= r <= t && size > 0.0
    ensures 0.0 <= InStar(r, size) <= InStar(t, size) <= 1.0
  {
    if t <= size {
      Fraction(r, t, size);
    } else if r <= size {
      Fraction(r, r, size);
    }
  }

  lemma SpreadMonotone(j: int, r: real, k: int, t: real, size: real)
    requires size > 0.0 && 0.0 <= r && 0.0 <= t && (j < k || (j == k && r <= t))
    ensures j as real <= Spread(j, r, size) <= Spread(k, t, size) <= k as real + 1.0
  {
    InStarMonotone(r, r, size);
    InStarMonotone(t, t, size);
    if j == k { InStarMonotone(r, t, size); }
  }

  /** Two positions, as whole stars and what is left. */
  lemma Places(p: real, q: real, width: real) returns (j: int, r: real, k: int, t: real)
    requires 0.0 <= p <= q && width > 0.0
    ensures j == (p / width).Floor && r == p - j as real * width && k == (q / width).Floor && t == q - k as real * width
    ensures 0 <= j && 0.0 <= r && 0.0 <= t && (j < k || (j == k && r <= t))
  {
    Quotient(p, width);
    Quotient(q, width);
    Divide(p, q, width);
    j, k := (p / width).Floor, (q / width).Floor;
    r, t := p - j as real * width, q - k as real * width;
  }

  lemma EndlessOrdered(p: real, q: real, size: real, width: real)
    requires size > 0.0 && width > 0.0 && 0.0 <= p <= q
    ensures Endless(p, size, width) <= Endless(q, size, width)
  {
    var j, r, k, t := Places(p, q, width);
    assert Spread(j, r, size) <= Spread(k, t, size) by { SpreadMonotone(j, r, k, t, size); }
    assert Endless(p, size, width) == Spread(j, r, size);
    assert Endless(q, size, width) == Spread(k, t, size);
  }

  lemma EndlessMonotone(p: real, q: real, size: real, width: real)
    requires size > 0.0 && width > 0.0 && p <= q
    ensures Endless(p, size, width) <= Endless(q, size, width)
  {
    if p >= 0.0 {
      EndlessOrdered(p, q, size, width);
    } else if q >= 0.0 {
      EndlessBetween(q, size, width);
    }
  }

  lemma EndlessBetween(p: real, size: real, width: real)
    requires size > 0.0 && width > 0.0 && p >= 0.0
    ensures var k := (p / width).Floor; 0 <= k && k as real <= Endless(p, size, width) <= k as real + 1.0
  {
    var j, r, k, t := Places(p, p, width);
    SpreadMonotone(j, r, k, t, size);
  }

  lemma RoundedMonotone(x: real, y: real, mode: FillMode)
    requires x <= y
    ensures Rounded(x, mode) <= Rounded(y, mode)
  {
    var a, b := x - x.Floor as real, y - y.Floor as real;
    FillLevels(a, a, mode);
    FillLevels(b, b, mode);
    if x.Floor == y.Floor { FillLevels(a, b, mode); }
  }

  lemma DisplayedMonotone(x: real, y: real, mode: FillMode, totalStars: nat)
    requires x <= y
    ensures 0.0 <= DisplayedRating(x, mode, totalStars) <= DisplayedRating(y, mode, totalStars) <= totalStars as real
  {
    RoundedMonotone(x, y, mode);
  }

  /** Past the last star the rating is that of all stars, whichever way it was cut. */
  lemma CutsAgree(p: real, s: Settings)
    requires Sensible(s)
    ensures DisplayedRating(PreciseRating(p, s) + Bias(s.mode), s.mode, s.totalStars)
         == DisplayedRating(Endless(p, s.starSize, s.starSize + s.starMargin) + Bias(s.mode), s.mode, s.totalStars)
  {
    var e, n := Endless(p, s.starSize, s.starSize + s.starMargin), s.totalStars as real;
    if PreciseRating(p, s) != e {
      EndlessBetween(p, s.starSize, s.starSize + s.starMargin);
      RoundedMonotone(n, n + Bias(s.mode), s.mode);
      RoundedMonotone(n, e + Bias(s.mode), s.mode);
      FillLevels(0.0, 0.0, s.mode);
    }
  }

  /** The touch rating goes up with the position and stays between the least touch rating and the number of stars (or
      the least touch rating, if that is more). */
  lemma TouchMonotone(p: real, q: real, s: Settings)
    requires Sensible(s) && p <= q
    ensures TouchRating(p, s) <= TouchRating(q, s)
    ensures s.minTouchRating <= TouchRating(p, s) <= Max(s.minTouchRating, s.totalStars as real)
  {
    var size, width := s.starSize, s.starSize + s.starMargin;
    CutsAgree(p, s);
    CutsAgree(q, s);
    EndlessMonotone(p, q, size, width);
    DisplayedMonotone(Endless(p, size, width) + Bias(s.mode), Endless(q, size, width) + Bias(s.mode), s.mode,
                      s.totalStars);
  }

  /** The first position of a star, and the first one after it, among stars `width` apart. */
  lemma StarAt(p: real, width: real, n: nat)
    requires p >= 0.0 && width > 0.0
    ensures (p / width).Floor > n <==> p >= (n + 1) as real * width
    ensures (p / width).Floor >= n <==> p >= n as real * width
  {
    Times(p, width, n as real);
    Times(p, width, (n + 1) as real);
  }

  lemma Times(p: real, width: real, x: real)
    requires width > 0.0
    ensures p / width >= x <==> p >= x * width
  {
    Cancel(p, width);
    if p / width >= x {
      Scale(x, p / width, width);
    } else {
      assert (x - p / width) * width > 0.0;
    }
  }

  lemma InStarStarts(rest: real, size: real)
    requires rest >= 0.0 && size > 0.0
    ensures InStar(rest, size) > 0.0 <==> rest > 0.0
  {
    if 0.0 < rest <= size {
      Cancel(rest, size);
      if rest / size <= 0.0 { Scale(rest / size, 0.0, size); }
    }
  }

  /** The endless rating exceeds n exactly behind the start of star n + 1. */
  lemma EndlessExceeds(p: real, size: real, width: real, n: nat, start: real)
    requires size > 0.0 && width > 0.0 && start == n as real * width
    ensures Endless(p, size, width) > n as real <==> p > start
  {
    assert start >= 0.0 by { Scale(0.0, n as real, width); }
    if p >= 0.0 {
      StarAt(p, width, n);
      EndlessBetween(p, size, width);
      var k := (p / width).Floor;
      if k == n {
        InStarStarts(p - start, size);
        assert Endless(p, size, width) == n as real + InStar(p - start, size);
      } else if k > n {
        var past := p - k as real * width;
        Quotient(p, width);
        Next(n, k, width);
        SpreadMonotone(k, past, k, past, size);
      }
    }
  }

  lemma Next(n: nat, k: int, width: real)
    requires n < k && width > 0.0
    ensures n as real * width < k as real * width
  {
    Scale((n + 1) as real, k as real, width);
  }

  lemma CutIff(p: real, width: real, n: nat, end: real)
    requires width > 0.0 && end == (n + 1) as real * width
    ensures p >= 0.0 && (p / width).Floor > n <==> p >= end
  {
    assert end >= 0.0 by { Scale(0.0, (n + 1) as real, width); }
    if p >= 0.0 { StarAt(p, width, n); }
  }

  /** The precise rating is the endless one up to the star that would follow the last one, and then all stars. */
  lemma PreciseCases(p: real, s: Settings, width: real, end: real)
    requires Sensible(s) && width == s.starSize + s.starMargin
    requires p >= 0.0 && (p / width).Floor > s.totalStars <==> p >= end
    ensures PreciseRating(p, s) == if p >= end then s.totalStars as real else Endless(p, s.starSize, width)
  {
  }

  lemma Compared(p: real, q: real, a: real, b: real, e: real, f: real, n: real, start: real, end: real)
    requires p <= q && e <= f && (e > n <==> p > start) && start <= end
    requires a == (if p >= end then n else e) && b == if q >= end then n else f
    ensures a > n <==> start < p < end
    ensures a <= b <==> !(start < p < end <= q)
  {
  }

  /** Where the precise rating is that of the endless stars, and where that exceeds the number of stars. */
  lemma PreciseSides(p: real, s: Settings, width: real, start: real, end: real)
    requires Sensible(s) && width == s.starSize + s.starMargin
    requires start == s.totalStars as real * width && end == (s.totalStars + 1) as real * width
    ensures PreciseRating(p, s) == if p >= end then s.totalStars as real else Endless(p, s.starSize, width)
    ensures Endless(p, s.starSize, width) > s.totalStars as real <==> p > start
    ensures start <= end
  {
    CutIff(p, width, s.totalStars, end);
    PreciseCases(p, s, width, end);
    EndlessExceeds(p, s.starSize, width, s.totalStars, start);
    Scale(s.totalStars as real, (s.totalStars + 1) as real, width);
  }

  lemma PreciseBetween(p: real, q: real, s: Settings, width: real, start: real, end: real)
    requires Sensible(s) && p <= q && width == s.starSize + s.starMargin
    requires start == s.totalStars as real * width && end == (s.totalStars + 1) as real * width
    ensures PreciseRating(p, s) > s.totalStars as real <==> start < p < end
    ensures PreciseRating(p, s) <= PreciseRating(q, s) <==> !(start < p < end <= q)
  {
    var e, f := Endless(p, s.starSize, width), Endless(q, s.starSize, width);
    PreciseSides(p, s, width, start, end);
    PreciseSides(q, s, width, start, end);
    EndlessMonotone(p, q, s.starSize, width);
    Compared(p, q, PreciseRating(p, s), PreciseRating(q, s), e, f, s.totalStars as real, start, end);
  }

  /** Where the star starts that has k stars before it. */
  function StarStart(s: Settings, k: nat): real { k as real * (s.starSize + s.starMargin) }

  /** The precise rating exceeds the number of stars exactly between the start of the star that would follow the last
      one and its end, and it goes up from p to q unless p lies there and q behind. */
  lemma PreciseMonotoneIff(p: real, q: real, s: Settings)
    requires Sensible(s) && p <= q
    ensures PreciseRating(p, s) > s.totalStars as real <==>
              StarStart(s, s.totalStars) < p < StarStart(s, s.totalStars + 1)
    ensures PreciseRating(p, s) <= PreciseRating(q, s) <==>
              !(StarStart(s, s.totalStars) < p < StarStart(s, s.totalStars + 1) <= q)
  {
    var n := s.totalStars;
    PreciseBetween(p, q, s, s.starSize + s.starMargin, StarStart(s, n), StarStart(s, n + 1));
  }

  /** The precise rating itself is not monotone: just past the last star it exceeds the number of stars, and further
      on it drops back. */
  lemma PreciseDropsBack()
    ensures var s := Settings(Precise, 5, 20.0, 5.0, 0.0);
            PreciseRating(145.0, s) == 6.0 && PreciseRating(150.0, s) == 5.0
  {
    assert (145.0 / 25.0).Floor == 5 && (150.0 / 25.0).Floor == 6;
  }

  /** Where the precise rating is cut, it would exceed the number of stars; where it is not, it does so by one at most.
      PreciseMonotoneIff says where. */
  lemma PreciseWithinStars(p: real, s: Settings)
    requires Sensible(s)
    ensures var e := Endless(p, s.starSize, s.starSize + s.starMargin);
            PreciseRating(p, s) == e || e > s.totalStars as real
    ensures PreciseRating(p, s) <= s.totalStars as real + 1.0
  {
    if p >= 0.0 { EndlessBetween(p, s.starSize, s.starSize + s.starMargin); }
  }

  lemma WholeStars(p: real, width: real, k: nat, rest: real)
    requires width > 0.0 && 0.0 <= rest < width && p == k as real * width + rest
    ensures p >= 0.0 && (p / width).Floor == k
  {
    assert k as real * width >= 0.0 by { Scale(0.0, k as real, width); }
    assert (k + 1) as real * width == k as real * width + width;
    StarAt(p, width, k);
  }

  lemma EndlessAt(p: real, size: real, width: real, k: nat, rest: real)
    requires size > 0.0 && width > 0.0 && p >= 0.0 && (p / width).Floor == k && rest == p - k as real * width
    ensures Endless(p, size, width) == k as real + if rest > size then 1.0 else rest / size
  {
  }

  lemma PreciseAt(p: real, s: Settings, width: real, k: nat, rest: real)
    requires Sensible(s) && k <= s.totalStars && 0.0 <= rest < width && width == s.starSize + s.starMargin
    requires p == k as real * width + rest
    ensures PreciseRating(p, s) == k as real + if rest > s.starSize then 1.0 else rest / s.starSize
  {
    WholeStars(p, width, k, rest);
    EndlessAt(p, s.starSize, width, k, rest);
  }

  /** The precise rating of a position in star k, or in the margin behind it: the stars in front and the part of the
      star that lies before it, which is all of it in the margin. */
  lemma PreciseInStar(s: Settings, k: nat, rest: real)
    requires Sensible(s) && k <= s.totalStars && 0.0 <= rest < s.starSize + s.starMargin
    ensures PreciseRating(StarStart(s, k) + rest, s) ==
              k as real + if rest > s.starSize then 1.0 else rest / s.starSize
  {
    PreciseAt(StarStart(s, k) + rest, s, s.starSize + s.starMargin, k, rest);
  }

  /** The whole or half stars that a touch at the part x of star k selects. */
  function Selected(mode: FillMode, k: nat, x: real): real {
    match mode
    case Full => if x < 0.05 then k as real else k as real + 1.0
    case Half => if x < 0.05 then k as real else if x < 0.55 then k as real + 0.5 else k as real + 1.0
    case Precise => k as real + x
  }

  lemma SelectedRounds(mode: FillMode, k: nat, x: real)
    requires 0.0 <= x <= 1.0
    ensures x < 1.0 ==> Rounded(k as real + x + Bias(mode), mode) == Selected(mode, k, x)
    ensures x == 1.0 ==> Rounded(k as real + x + Bias(mode), mode) == k as real + 1.0
  {
    var y := k as real + x + Bias(mode);
    if x + Bias(mode) < 1.0 {
      assert y.Floor == k;
    } else {
      assert y.Floor == k + 1;
    }
  }

  /** A touch in the first twentieth of a star does not select it; one further on selects it, or its half up to
      eleven twentieths if halves are shown. */
  lemma TouchSelects(s: Settings, k: nat, rest: real)
    requires Sensible(s) && k < s.totalStars && 0.0 <= rest < s.starSize + s.starMargin
    ensures var x := if rest > s.starSize then 1.0 else rest / s.starSize;
            TouchRating(StarStart(s, k) + rest, s) == Max(s.minTouchRating, Selected(s.mode, k, x))
  {
    var x := if rest > s.starSize then 1.0 else rest / s.starSize;
    PreciseInStar(s, k, rest);
    if rest <= s.starSize { Fraction(rest, rest, s.starSize); }
    SelectedRounds(s.mode, k, x);
  }
}
