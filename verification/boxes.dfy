/** Rectangles with real coordinates and how much they overlap. */
module Boxes {
  datatype Box = Box(x0: real, y0: real, x1: real, y1: real)

  function MaxR(a: real, b: real): real {
    if a >= b then a else b
  }

  function MinR(a: real, b: real): real {
    if a <= b then a else b
  }

  function AbsR(a: real): real {
    if a >= 0.0 then a else -a
  }

  // The share of the first box's area that lies in the second.
  function OverlapRatio(a: Box, b: Box): real {
    var left, top, right, bottom := MaxR(a.x0, b.x0), MaxR(a.y0, b.y0), MinR(a.x1, b.x1), MinR(a.y1, b.y1);
    if right < left || bottom < top then 0.0
    else
      var area := (a.x1 - a.x0) * (a.y1 - a.y0);
      if area == 0.0 then 0.0 else (right - left) * (bottom - top) / area
  }

  // The overlap's share of the smaller box.
  function OverlapInMinBoxRatio(a: Box, b: Box): real {
    var left, top, right, bottom := MaxR(a.x0, b.x0), MaxR(a.y0, b.y0), MinR(a.x1, b.x1), MinR(a.y1, b.y1);
    if right < left || bottom < top then 0.0
    else
      var area := MinR((a.x1 - a.x0) * (a.y1 - a.y0), (b.y1 - b.y0) * (b.x1 - b.x0));
      if area == 0.0 then 0.0 else (right - left) * (bottom - top) / area
  }

  function FormulaNumberRatio(a: Box, b: Box): real {
    MaxR(OverlapRatio(a, b), OverlapInMinBoxRatio(a, b))
  }

  // Some height lies within both boxes.
  ghost predicate SharesHeight(a: Box, b: Box) {
    MaxR(a.y0, b.y0) <= MinR(a.y1, b.y1)
  }

  // A ratio is positive exactly for boxes whose overlap has an area.
  lemma PositiveRatio(a: Box, b: Box)
    ensures OverlapRatio(a, b) > 0.0 <==> MaxR(a.x0, b.x0) < MinR(a.x1, b.x1) && MaxR(a.y0, b.y0) < MinR(a.y1, b.y1)
    ensures OverlapRatio(a, b) >= 0.0
    ensures OverlapRatio(a, b) <= 1.0
  {
    var w, h := MinR(a.x1, b.x1) - MaxR(a.x0, b.x0), MinR(a.y1, b.y1) - MaxR(a.y0, b.y0);
    var aw, ah := a.x1 - a.x0, a.y1 - a.y0;
    assert aw >= w && ah >= h;
    if w >= 0.0 && h >= 0.0 {
      ProductBetween(w, h, aw, ah);
      RatioIs(a, b, w * h, aw * ah);
      if aw * ah != 0.0 {
        QuotientBetween(w * h, aw * ah);
      }
    }
  }

  lemma RatioIs(a: Box, b: Box, overlap: real, area: real)
    requires MaxR(a.x0, b.x0) <= MinR(a.x1, b.x1) && MaxR(a.y0, b.y0) <= MinR(a.y1, b.y1)
    requires overlap == (MinR(a.x1, b.x1) - MaxR(a.x0, b.x0)) * (MinR(a.y1, b.y1) - MaxR(a.y0, b.y0))
    requires area == (a.x1 - a.x0) * (a.y1 - a.y0)
    ensures OverlapRatio(a, b) == if area == 0.0 then 0.0 else overlap / area
  {
  }

  lemma ProductBetween(w: real, h: real, aw: real, ah: real)
    requires 0.0 <= w <= aw && 0.0 <= h <= ah
    ensures 0.0 <= w * h <= aw * ah
    ensures w * h > 0.0 <==> w > 0.0 && h > 0.0
  {
    assert w * h <= aw * h <= aw * ah;
  }

  lemma QuotientBetween(x: real, y: real)
    requires 0.0 <= x <= y && y > 0.0
    ensures 0.0 <= x / y <= 1.0 && (x / y > 0.0 <==> x > 0.0)
  {
    assert x == x / y * y;
  }

  // Width times height of what two boxes share.
  function SharedArea(a: Box, b: Box): real {
    MaxR(0.0, MinR(a.x1, b.x1) - MaxR(a.x0, b.x0)) * MaxR(0.0, MinR(a.y1, b.y1) - MaxR(a.y0, b.y0))
  }

  function AreaOf(a: Box): real {
    (a.x1 - a.x0) * (a.y1 - a.y0)
  }

  lemma SharedIs(a: Box, b: Box)
    ensures var left, top, right, bottom := MaxR(a.x0, b.x0), MaxR(a.y0, b.y0), MinR(a.x1, b.x1), MinR(a.y1, b.y1);
      SharedArea(a, b) == if right < left || bottom < top then 0.0 else (right - left) * (bottom - top)
    ensures SharedArea(a, b) >= 0.0
  {
    var w, h := MinR(a.x1, b.x1) - MaxR(a.x0, b.x0), MinR(a.y1, b.y1) - MaxR(a.y0, b.y0);
    ClampedProduct(w, h);
    hide MinR, MaxR;
  }

  lemma ClampedProduct(w: real, h: real)
    ensures MaxR(0.0, w) * MaxR(0.0, h) == if w < 0.0 || h < 0.0 then 0.0 else w * h
    ensures MaxR(0.0, w) * MaxR(0.0, h) >= 0.0
  {
    var x, y := MaxR(0.0, w), MaxR(0.0, h);
    if w < 0.0 || h < 0.0 {
      ZeroProduct(x, y);
    } else {
      SameProduct(x, y, w, h);
      if w == 0.0 || h == 0.0 {
        ZeroProduct(w, h);
      } else {
        PositiveProduct(w, h);
      }
    }
  }

  lemma ZeroProduct(x: real, y: real)
    requires x == 0.0 || y == 0.0
    ensures x * y == 0.0
  {
  }

  lemma PositiveProduct(x: real, y: real)
    requires x > 0.0 && y > 0.0
    ensures x * y > 0.0
  {
  }

  lemma QuotientTimes(x: real, y: real)
    requires y > 0.0
    ensures x / y * y == x
  {
  }

  lemma AreaPositive(a: Box)
    requires a.x0 < a.x1 && a.y0 < a.y1
    ensures AreaOf(a) > 0.0
  {
    PositiveProduct(a.x1 - a.x0, a.y1 - a.y0);
  }

  // For boxes with an area the ratios are the shared area over the first box's, over the smaller
  // box's, and over the smaller box's again, which the larger of the two is.
  lemma RatiosAreShares(a: Box, b: Box)
    requires a.x0 < a.x1 && a.y0 < a.y1 && b.x0 < b.x1 && b.y0 < b.y1
    ensures OverlapRatio(a, b) * AreaOf(a) == SharedArea(a, b)
    ensures OverlapInMinBoxRatio(a, b) * MinR(AreaOf(a), AreaOf(b)) == SharedArea(a, b)
    ensures FormulaNumberRatio(a, b) == OverlapInMinBoxRatio(a, b)
  {
    hide SharedArea, OverlapRatio, OverlapInMinBoxRatio, AreaOf;
    AreaPositive(a);
    AreaPositive(b);
    SharedIs(a, b);
    FirstShare(a, b);
    SmallerShare(a, b);
    var shared, area, small := SharedArea(a, b), AreaOf(a), MinR(AreaOf(a), AreaOf(b));
    QuotientTimes(shared, area);
    QuotientTimes(shared, small);
    SmallerDivisor(shared, area, small);
  }

  lemma FirstShare(a: Box, b: Box)
    requires AreaOf(a) > 0.0
    ensures OverlapRatio(a, b) == SharedArea(a, b) / AreaOf(a)
  {
    hide SharedArea;
    SharedIs(a, b);
  }

  lemma SmallerShare(a: Box, b: Box)
    requires AreaOf(a) > 0.0 && AreaOf(b) > 0.0
    ensures OverlapInMinBoxRatio(a, b) == SharedArea(a, b) / MinR(AreaOf(a), AreaOf(b))
  {
    hide SharedArea;
    SharedIs(a, b);
    SwappedFactors(b.y1 - b.y0, b.x1 - b.x0);
  }

  lemma SwappedFactors(x: real, y: real)
    ensures x * y == y * x
  {
  }

  lemma SmallerDivisor(x: real, a: real, b: real)
    requires x >= 0.0 && a >= b > 0.0
    ensures x / a <= x / b
  {
    var p, q := x / a, x / b;
    QuotientTimes(x, a);
    QuotientTimes(x, b);
    if p > q {
      ProductsOrdered(p, q, a, b);
      assert false;
    }
  }

  lemma ProductsOrdered(p: real, q: real, a: real, b: real)
    requires p > q && a >= b > 0.0
    ensures p * a > q * b || p * a < 0.0
  {
    PositiveProduct(p - q, b);
    if p >= 0.0 {
      assert p * (a - b) >= 0.0;
    } else {
      PositiveProduct(-p, a);
    }
  }

  lemma SameProduct(x: real, y: real, z: real, w: real)
    requires x == z && y == w
    ensures x * y == z * w
  {
  }
}
