/** Points and axis-aligned rectangles over exact reals.

    `Contains` and `Intersect` are the semantics of the rendering library's `Rect::contains`
    and `Rect::intersect`, whose code is not part of this model; they are stated here as
    assumptions:
    - `contains(p)` holds iff `x <= p.x < x + w` and `y <= p.y < y + h` (half-open);
    - `intersect(o)` computes left/top as the larger origin and right/bottom as the smaller
      far edge, and is `None` exactly when `right < left` or `bottom < top`.
    Using `real` rather than `f32` makes halving exact, so the four quadrants of a rectangle
    tile it exactly. */
module Geometry {
  import opened Options

  datatype Vec2 = Vec2(x: real, y: real)

  datatype Rect = Rect(x: real, y: real, w: real, h: real)

  function Add(a: Vec2, b: Vec2): Vec2 {
    Vec2(a.x + b.x, a.y + b.y)
  }

  function Abs(r: real): real {
    if r < 0.0 then -r else r
  }

  /** Squared Euclidean distance, as `Vec2::distance_squared`. */
  function DistSq(a: Vec2, b: Vec2): (d: real)
    ensures d >= 0.0
  {
    (a.x - b.x) * (a.x - b.x) + (a.y - b.y) * (a.y - b.y)
  }

  predicate Contains(r: Rect, p: Vec2) {
    r.x <= p.x < r.x + r.w && r.y <= p.y < r.y + r.h
  }

  function Min(a: real, b: real): real {
    if a <= b then a else b
  }

  function Max(a: real, b: real): real {
    if a <= b then b else a
  }

  /** `Rect::intersect`: the overlap rectangle, or `None` when the rectangles are apart.
      Touching edges give a zero-width overlap, which is `Some`. */
  function Intersect(a: Rect, b: Rect): (r: Option<Rect>)
    ensures forall p :: Contains(a, p) && Contains(b, p) ==> r.Some?
    ensures r.Some? ==> forall p :: Contains(r.value, p) <==> Contains(a, p) && Contains(b, p)
  {
    var left := Max(a.x, b.x);
    var top := Max(a.y, b.y);
    var right := Min(a.x + a.w, b.x + b.w);
    var bottom := Min(a.y + a.h, b.y + b.h);
    if right < left || bottom < top then None
    else Some(Rect(left, top, right - left, bottom - top))
  }

  // The four quadrants built by `QuadTreeChildren::new` (src/simulation.rs:334-376).

  function NW(b: Rect): Rect {
    Rect(b.x, b.y, b.w / 2.0, b.h / 2.0)
  }

  function NE(b: Rect): Rect {
    Rect(b.x + b.w / 2.0, b.y, b.w / 2.0, b.h / 2.0)
  }

  function SW(b: Rect): Rect {
    Rect(b.x, b.y + b.h / 2.0, b.w / 2.0, b.h / 2.0)
  }

  function SE(b: Rect): Rect {
    Rect(b.x + b.w / 2.0, b.y + b.h / 2.0, b.w / 2.0, b.h / 2.0)
  }

  function Indicator(b: bool): nat {
    if b then 1 else 0
  }

  /** How many of the four quadrants of `b` contain `p`. */
  function QuadrantsContaining(b: Rect, p: Vec2): nat {
    Indicator(Contains(NW(b), p)) + Indicator(Contains(NE(b), p))
    + Indicator(Contains(SW(b), p)) + Indicator(Contains(SE(b), p))
  }

  /** The quadrants tile their parent: a point of the parent lies in exactly one quadrant,
      and a point outside the parent lies in none. */
  lemma QuadrantsTile(b: Rect, p: Vec2)
    ensures Contains(b, p) <==> QuadrantsContaining(b, p) == 1
    ensures QuadrantsContaining(b, p) <= 1
    ensures Contains(NW(b), p) || Contains(NE(b), p) || Contains(SW(b), p) || Contains(SE(b), p)
            ==> Contains(b, p)
  {
  }

  lemma MulMono(u: real, v: real, a: real)
    requires u <= v && a > 0.0
    ensures u * a <= v * a
  {
  }

  lemma MulStrict(u: real, v: real, a: real)
    requires u < v && a > 0.0
    ensures u * a < v * a
  {
  }

  lemma SquareNonneg(a: real)
    ensures a * a >= 0.0
  {
    if a > 0.0 {
      MulMono(0.0, a, a);
    } else if a < 0.0 {
      MulMono(0.0, -a, -a);
      assert (-a) * (-a) == a * a;
    }
  }

  lemma MulAdd(u: real, v: real, a: real)
    ensures u * a + v * a == (u + v) * a
  {
  }

  lemma MulSucc(u: real, a: real)
    ensures (u + 1.0) * a == u * a + a
  {
  }

  lemma DivMul(x: real, a: real)
    requires a > 0.0
    ensures (x / a) * a == x
  {
  }

  /** Scaling back a lower bound on the quotient `x / a`. */
  lemma QuotientAbove(x: real, a: real, k: real)
    requires a > 0.0 && k <= x / a
    ensures k * a <= x
  {
    MulMono(k, x / a, a);
    DivMul(x, a);
  }

  /** Scaling back an upper bound on the quotient `x / a`. */
  lemma QuotientBelow(x: real, a: real, v: real)
    requires a > 0.0 && x / a < v
    ensures x < v * a
  {
    MulStrict(x / a, v, a);
    DivMul(x, a);
  }

  /** Two multiples `j * a` and `k * a` of a positive `a` that leave remainders in `[0, a)`
      below the same `x` are less than one `a` apart. */
  lemma MultipleGap(x: real, a: real, r: real, r0: real, k: real, j: real)
    requires a > 0.0
    requires 0.0 <= r < a && 0.0 <= r0 < a
    requires x - r == j * a && x - r0 == k * a
    ensures k < j + 1.0
  {
    if k >= j + 1.0 {
      MulMono(j + 1.0, k, a);
      MulSucc(j, a);
    }
  }

  /** Shifting `x` by `k` copies of `a` moves its distance to `x - f * a` by the same copies. */
  lemma ShiftedMultiple(x: real, a: real, f: int, k: int, y: real, r: real)
    requires y == x + (k as real) * a && r == x - (f as real) * a
    ensures y - r == ((f + k) as real) * a
  {
    MulAdd(f as real, k as real, a);
    assert (f as real) + (k as real) == (f + k) as real;
  }

  /** The whole number of moduli `|m|` that fit below `x` (floor division). */
  function FloorDiv(x: real, m: real): (k: int)
    requires m != 0.0
    ensures (k as real) * Abs(m) <= x < (k as real) * Abs(m) + Abs(m)
  {
    var a := Abs(m);
    var k := (x / a).Floor;
    QuotientAbove(x, a, k as real);
    QuotientBelow(x, a, k as real + 1.0);
    MulSucc(k as real, a);
    k
  }

  /** `f32::rem_euclid` over the reals: the representative of `x` modulo `|m|` in `[0, |m|)`.
      A zero modulus gives NaN in the source and is excluded here. */
  function RemEuclid(x: real, m: real): (r: real)
    requires m != 0.0
    ensures 0.0 <= r < Abs(m)
  {
    x - (FloorDiv(x, m) as real) * Abs(m)
  }

  /** The representative is unique: any `r` in `[0, |m|)` that differs from `x` by a whole
      number `j` of moduli is `RemEuclid(x, m)`. */
  lemma RemEuclidUnique(x: real, m: real, r: real, j: int)
    requires m != 0.0
    requires 0.0 <= r < Abs(m)
    requires x - r == (j as real) * Abs(m)
    ensures RemEuclid(x, m) == r
  {
    var a := Abs(m);
    var k := FloorDiv(x, m);
    var r0 := RemEuclid(x, m);
    MultipleGap(x, a, r, r0, k as real, j as real);
    MultipleGap(x, a, r0, r, j as real, k as real);
    assert k == j;
  }

  /** Wrapping is periodic: shifting by a whole number of moduli does not change it. */
  lemma RemEuclidPeriodic(x: real, m: real, k: int)
    requires m != 0.0
    ensures RemEuclid(x + (k as real) * Abs(m), m) == RemEuclid(x, m)
  {
    var f := FloorDiv(x, m);
    var r := RemEuclid(x, m);
    ShiftedMultiple(x, Abs(m), f, k, x + (k as real) * Abs(m), r);
    RemEuclidUnique(x + (k as real) * Abs(m), m, r, f + k);
  }

  /** One modulus up or down: the linear instances of `RemEuclidPeriodic`. */
  lemma RemEuclidShift(x: real, m: real)
    requires m != 0.0
    ensures RemEuclid(x + Abs(m), m) == RemEuclid(x, m)
    ensures RemEuclid(x - Abs(m), m) == RemEuclid(x, m)
  {
    RemEuclidPeriodic(x, m, 1);
    RemEuclidPeriodic(x, m, -1);
  }

  /** A value already in `[0, |m|)` is its own representative. */
  lemma RemEuclidIdentity(x: real, m: real)
    requires m != 0.0 && 0.0 <= x < Abs(m)
    ensures RemEuclid(x, m) == x
  {
    RemEuclidUnique(x, m, x, 0);
  }
}
