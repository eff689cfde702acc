/** Template matching with scale reduction and mapping of the best offset back to the centre
    of the match in the original source (src/cv.rs). Images are modelled by their dimensions;
    the normalised cross-correlation and the search for its maximum are an abstract function. */
module Cv {
  import opened Structs

  /** Neither dimension of the searched source may exceed this after reduction. */
  const MATCH_SIZE_THRESHOLD: U32 := 500

  /** An image (or its grayscale copy, which has the same dimensions), by its dimensions only. */
  datatype ImageSize = ImageSize(width: U32, height: U32)

  /** What the extremum search over the correlation grid of a (source, template) pair
      reports: the top-left offset of the best placement, in the coordinates of the searched
      source, and the correlation there. */
  datatype Extremes = Extremes(maxValueLocation: (U32, U32), maxValue: real)

  /** The correlation grid and its extremum for a source and a template of the given sizes. */
  type Search = (ImageSize, ImageSize) -> Extremes

  /** `MatchResult`: the centre of the best match in source coordinates and its score. */
  datatype MatchResult = MatchResult(pos: Point, correlation: real)

  /** The loop condition fails: both dimensions are at most the threshold. */
  predicate Fits(d: ImageSize)
  {
    d.width <= MATCH_SIZE_THRESHOLD && d.height <= MATCH_SIZE_THRESHOLD
  }

  /** One resize of the loop: both dimensions floor-halved. */
  function Halve(d: ImageSize): ImageSize
  {
    ImageSize(d.width / 2, d.height / 2)
  }

  /** `Halve` applied `k` times. */
  function HalveTimes(d: ImageSize, k: nat): ImageSize
  {
    if k == 0 then d else Halve(HalveTimes(d, k - 1))
  }

  /** Both dimensions divided once, with floor, by `n`. */
  function DivideBy(d: ImageSize, n: nat): ImageSize
    requires n > 0
  {
    ImageSize(d.width / n, d.height / n)
  }

  function Pow2(k: nat): (p: nat)
    ensures p >= 1
  {
    if k == 0 then 1 else 2 * Pow2(k - 1)
  }

  /** How many times the loop halves a source of size `d`: the number of halvings
      before the first one that fits. */
  function ScaleExponent(d: ImageSize): (k: nat)
    ensures k == 0 <==> Fits(d)
    decreases d.width + d.height
  {
    if Fits(d) then 0 else 1 + ScaleExponent(Halve(d))
  }

  /** The final value of `scale` for a source of size `d`. The ensures only names the value;
      the proved fact is the `U32` result type, which `ScaleFitsU32` establishes: the
      doubling `scale *= 2` never overflows. */
  function Scale(d: ImageSize): (s: U32)
    ensures s == Pow2(ScaleExponent(d))
  {
    ScaleFitsU32(d);
    Pow2(ScaleExponent(d))
  }

  /** The sizes the correlation search is run on. */
  function Reduced(d: ImageSize, source: ImageSize): ImageSize
  {
    HalveTimes(d, ScaleExponent(source))
  }

  /** Maps one coordinate of the best offset back to the original source and moves it from
      the corner of the template to its centre, with `u32` arithmetic. */
  function CenterOf(loc: U32, scale: U32, templateDim: U32): U32
  {
    Wrap(loc * scale + templateDim / 2)
  }

  /** What `cv_match_template_center` returns for a source, a template and the search. */
  function CenterMatch(source: ImageSize, template: ImageSize, search: Search): MatchResult
  {
    var best := search(Reduced(source, source), Reduced(template, source));
    var scale := Scale(source);
    MatchResult(
      New(CenterOf(best.maxValueLocation.0, scale, template.width),
          CenterOf(best.maxValueLocation.1, scale, template.height)),
      best.maxValue)
  }

  /** `cv_match_template_center`: halve source and template until the source fits, doubling
      `scale` each time, search the reduced pair, and map the best offset back to the centre
      of the template in original coordinates. */
  method MatchTemplateCenter(source: ImageSize, template: ImageSize, search: Search)
    returns (r: MatchResult)
    ensures r == CenterMatch(source, template, search)
  {
    var templateWidth := template.width;
    var templateHeight := template.height;
    var sourceGrayscale := source;
    var templateGrayscale := template;
    var scale: U32 := 1;
    ghost var k: nat := 0;
    while sourceGrayscale.width > MATCH_SIZE_THRESHOLD || sourceGrayscale.height > MATCH_SIZE_THRESHOLD
      invariant scale == Pow2(k)
      invariant sourceGrayscale == HalveTimes(source, k)
      invariant templateGrayscale == HalveTimes(template, k)
      invariant ScaleExponent(source) == k + ScaleExponent(sourceGrayscale)
      decreases sourceGrayscale.width + sourceGrayscale.height
    {
      ScaleFitsU32(source);
      Pow2Monotone(k + 1, ScaleExponent(source));
      sourceGrayscale := ImageSize(sourceGrayscale.width / 2, sourceGrayscale.height / 2);
      templateGrayscale := ImageSize(templateGrayscale.width / 2, templateGrayscale.height / 2);
      scale := scale * 2;
      k := k + 1;
    }
    var best := search(sourceGrayscale, templateGrayscale);
    var x := CenterOf(best.maxValueLocation.0, scale, templateWidth);
    var y := CenterOf(best.maxValueLocation.1, scale, templateHeight);
    r := MatchResult(New(x, y), best.maxValue);
  }

  // ---------------------------------------------------------------------------------------
  // Arithmetic helpers

  lemma Pow2Monotone(i: nat, j: nat)
    requires i <= j
    ensures Pow2(i) <= Pow2(j)
    decreases j
  {
    if i < j {
      Pow2Monotone(i, j - 1);
    }
  }

  /** Floor division by `m` has a unique quotient. */
  lemma DivUnique(a: nat, m: nat, q: nat, r: nat)
    requires m > 0 && r < m && a == q * m + r
    ensures a / m == q
  {
    var q0, r0 := a / m, a % m;
    assert a == q0 * m + r0;
    assert (q0 - q) * m == r - r0;
    MulSign(q0 - q, m);
  }

  lemma MulSign(x: int, m: int)
    requires m >= 0
    ensures x >= 1 ==> x * m >= m
    ensures x <= -1 ==> x * m <= -m
  {
  }

  /** Halving a floor quotient is dividing by twice the divisor. */
  lemma DivHalf(a: nat, p: nat)
    requires p > 0
    ensures (a / p) / 2 == a / (2 * p)
  {
    var q, r := a / p, a % p;
    var q2, b := q / 2, q % 2;
    assert a == q * p + r;
    assert q == 2 * q2 + b;
    assert q * p == q2 * (2 * p) + b * p;
    assert b * p + r < 2 * p by {
      if b == 1 {
        assert b * p == p;
      } else {
        assert b * p == 0;
      }
    }
    DivUnique(a, 2 * p, q2, b * p + r);
  }

  /** Dividing by a larger number gives a smaller quotient. */
  lemma DivAntitone(a: nat, d: nat, e: nat)
    requires 0 < d <= e
    ensures a / e <= a / d
  {
    var q := a / e;
    MulMonotone(q, d, e);
    QuotientBelow(a, e, q);
    QuotientAtLeast(a, d, q);
  }

  lemma MulMonotone(x: nat, d: nat, e: nat)
    requires d <= e
    ensures x * d <= x * e
  {
  }

  lemma QuotientBelow(a: nat, e: nat, q: nat)
    requires e > 0 && q == a / e
    ensures q * e <= a
  {
  }

  /** A multiple of `d` that does not exceed `a` has a factor at most `a / d`. */
  lemma QuotientAtLeast(a: nat, d: nat, q: nat)
    requires d > 0 && q * d <= a
    ensures q <= a / d
  {
    var p := a / d;
    assert a == p * d + a % d;
    assert (q - p) * d == q * d - p * d;
    MulSign(q - p, d);
  }

  /** A quotient above the threshold bounds the dividend from below. */
  lemma QuotientAbove(a: nat, s: nat)
    requires s > 0 && a / s > 500
    ensures a >= 501 * s
  {
    assert a == (a / s) * s + a % s;
    assert (a / s) * s >= 501 * s;
  }

  lemma HalveTimesShift(d: ImageSize, k: nat)
    ensures HalveTimes(d, k + 1) == HalveTimes(Halve(d), k)
    decreases k
  {
    if k > 0 {
      HalveTimesShift(d, k - 1);
    }
  }

  // ---------------------------------------------------------------------------------------
  // Properties of the reduction

  /** Repeated floor-halving equals one floor division by the accumulated power of two;
      this holds for the template as well as the source (src/cv.rs:37-49). */
  lemma {:induction false} HalvingIsDivision(d: ImageSize, k: nat)
    ensures HalveTimes(d, k) == DivideBy(d, Pow2(k))
  {
    if k > 0 {
      HalvingIsDivision(d, k - 1);
      DivHalf(d.width, Pow2(k - 1));
      DivHalf(d.height, Pow2(k - 1));
    }
  }

  /** After the loop, both source dimensions are at most the threshold. */
  lemma {:induction false} ReducedSourceFits(source: ImageSize)
    ensures Fits(Reduced(source, source))
    decreases source.width + source.height
  {
    if !Fits(source) {
      ReducedSourceFits(Halve(source));
      HalveTimesShift(source, ScaleExponent(Halve(source)));
    }
  }

  /** The loop stops at the first fit: every smaller number of halvings leaves a dimension
      above the threshold. */
  lemma {:induction false} ScaleIsMinimal(source: ImageSize, j: nat)
    requires j < ScaleExponent(source)
    ensures !Fits(HalveTimes(source, j))
    decreases source.width + source.height
  {
    if j > 0 {
      ScaleIsMinimal(Halve(source), j - 1);
      HalveTimesShift(source, j - 1);
    }
  }

  /** No positive divisor up to `scale / 2` brings the source within the threshold: in
      particular not `scale / 2` itself, so `scale` is the smallest power of two that does. */
  lemma NoSmallerDivisorFits(source: ImageSize, n: nat)
    requires 0 < n <= Scale(source) / 2
    ensures !Fits(DivideBy(source, n))
  {
    var k := ScaleExponent(source);
    assert k > 0;
    var half := Pow2(k - 1);
    assert Scale(source) / 2 == half;
    ScaleIsMinimal(source, k - 1);
    HalvingIsDivision(source, k - 1);
    DivAntitone(source.width, n, half);
    DivAntitone(source.height, n, half);
  }

  /** `scale` never overflows `u32`: when it exceeds one it is below a 250th of the larger
      source dimension. */
  lemma ScaleFitsU32(source: ImageSize)
    ensures Pow2(ScaleExponent(source)) < U32_LIMIT
    ensures ScaleExponent(source) > 0 ==>
              Pow2(ScaleExponent(source)) * 250 < source.width ||
              Pow2(ScaleExponent(source)) * 250 < source.height
  {
    var k := ScaleExponent(source);
    if k > 0 {
      var half := Pow2(k - 1);
      LastHalvingTooLarge(source);
      assert DivideBy(source, half).width == source.width / half;
      DoubleBelow(source.width, source.height, half);
      assert Pow2(k) == 2 * half;
    }
  }

  /** One halving fewer than the loop performs leaves the source above the threshold. */
  lemma LastHalvingTooLarge(source: ImageSize)
    requires ScaleExponent(source) > 0
    ensures !Fits(DivideBy(source, Pow2(ScaleExponent(source) - 1)))
  {
    var k := ScaleExponent(source);
    ScaleIsMinimal(source, k - 1);
    HalvingIsDivision(source, k - 1);
  }

  /** If one of two `u32` dimensions divided by `half` exceeds the threshold, twice `half`
      still fits in `u32` and 250 times it is below that dimension. */
  lemma DoubleBelow(w: nat, h: nat, half: nat)
    requires half >= 1 && w < U32_LIMIT && h < U32_LIMIT
    requires w / half > 500 || h / half > 500
    ensures 2 * half < U32_LIMIT
    ensures (2 * half) * 250 < w || (2 * half) * 250 < h
  {
    if w / half > 500 {
      QuotientAbove(w, half);
    } else {
      QuotientAbove(h, half);
    }
  }

  // ---------------------------------------------------------------------------------------
  // Properties of the mapping back

  /** The source is reduced exactly when it does not fit; a fitting source is searched as is,
      with `scale == 1` (src/cv.rs:33). */
  lemma NoReductionWhenFits(source: ImageSize, template: ImageSize)
    ensures Scale(source) == 1 <==> Fits(source)
    ensures Fits(source) ==> Reduced(source, source) == source && Reduced(template, source) == template
  {
  }

  /** When the reported offset lies within the searched source and the source is below 2^31
      in that dimension, the mapping does not wrap: the reported coordinate is the offset
      scaled back plus half the ORIGINAL template dimension, the centre of the template
      placed at the scaled-back offset. The template's own size is not constrained. */
  lemma CenterOfPlacement(loc: U32, scale: U32, reducedDim: nat, sourceDim: U32, templateDim: U32)
    requires scale > 0 && reducedDim == sourceDim / scale
    requires loc <= reducedDim && sourceDim < 0x8000_0000
    ensures CenterOf(loc, scale, templateDim) == loc * scale + templateDim / 2
    ensures templateDim > 0 ==>
              loc * scale <= CenterOf(loc, scale, templateDim) < loc * scale + templateDim
    ensures var left := CenterOf(loc, scale, templateDim) - loc * scale;
            var right := loc * scale + templateDim - 1 - CenterOf(loc, scale, templateDim);
            templateDim > 0 ==> left == right || left == right + 1
  {
    MulMonotone(scale, loc, reducedDim);
    QuotientBelow(sourceDim, scale, reducedDim);
    assert loc * scale <= sourceDim;
  }

  /** The full mapping of `cv_match_template_center` (src/cv.rs:59-72): the returned score is
      the extremum's value unchanged, the search was run on the reduced pair, and the position
      is the centre of the original-size template placed at the scaled-back best offset. */
  lemma CenterMatchIsCentre(source: ImageSize, template: ImageSize, search: Search)
    requires var best := search(Reduced(source, source), Reduced(template, source));
             best.maxValueLocation.0 <= Reduced(source, source).width &&
             best.maxValueLocation.1 <= Reduced(source, source).height
    requires source.width < 0x8000_0000 && source.height < 0x8000_0000
    ensures var best := search(Reduced(source, source), Reduced(template, source));
            var r := CenterMatch(source, template, search);
            r.correlation == best.maxValue &&
            r.pos.x == best.maxValueLocation.0 * Scale(source) + template.width / 2 &&
            r.pos.y == best.maxValueLocation.1 * Scale(source) + template.height / 2
  {
    var best := search(Reduced(source, source), Reduced(template, source));
    var k := ScaleExponent(source);
    HalvingIsDivision(source, k);
    CenterOfPlacement(best.maxValueLocation.0, Scale(source), Reduced(source, source).width,
                      source.width, template.width);
    CenterOfPlacement(best.maxValueLocation.1, Scale(source), Reduced(source, source).height,
                      source.height, template.height);
  }

  /** Without reduction the position is the best offset plus half the template (src/cv.rs:33,
      src/cv.rs:59-60). */
  lemma UnscaledMatchIsOffsetPlusHalf(source: ImageSize, template: ImageSize, search: Search)
    requires Fits(source)
    requires var best := search(source, template);
             best.maxValueLocation.0 <= source.width && best.maxValueLocation.1 <= source.height
    ensures var best := search(source, template);
            var r := CenterMatch(source, template, search);
            r.correlation == best.maxValue &&
            r.pos == New(best.maxValueLocation.0 + template.width / 2,
                         best.maxValueLocation.1 + template.height / 2)
  {
  }
}
