/** The luminance-to-opacity/density mapping (main.py,
    `luminance_to_alpha_and_density`): darker cells get a more opaque glyph
    and a higher chance of receiving one. */
module Mapper {
  import opened Basics

  /** `(alpha, density)`: the glyph opacity and the placement probability.
      The density is deliberately not clamped; above 1 a glyph is certain. */
  datatype Mapped = Mapped(alpha: int, density: real)

  /** Normalised darkness `1 - lum / 255`: 0 for white, 1 for black. */
  function Darkness(lum: real): real {
    1.0 - lum / 255.0
  }

  /** `luminance_to_alpha_and_density(lum, base_alpha, alpha_boost_dark, density_scale)`:
      alpha is truncated with `int()` and clamped to [0, 255]; density is left unclamped. */
  function AlphaDensity(lum: real, baseAlpha: int, alphaBoostDark: int, densityScale: real): (m: Mapped)
    ensures 0 <= m.alpha <= 255
  {
    var dark := Darkness(lum);
    Mapped(Opacity(baseAlpha, dark * alphaBoostDark as real), dark * densityScale)
  }

  /** `max(0, min(255, int(base_alpha + boost)))`, where `boost` is the
      darkness-weighted share of `alpha_boost_dark`. Once clamped at 0,
      truncation toward zero and the floor agree (see `OpacityTruncates`),
      so the floor is used here. */
  function Opacity(baseAlpha: int, boost: real): int {
    Clamp(0, 255, (baseAlpha as real + boost).Floor)
  }

  /** The clamped floor is exactly the clamped `int()` of the source. */
  lemma OpacityTruncates(baseAlpha: int, boost: real)
    ensures Opacity(baseAlpha, boost) == Clamp(0, 255, Trunc(baseAlpha as real + boost))
  {
    var v := baseAlpha as real + boost;
    if v < 0.0 {
      TruncBounds(v);
    }
  }

  lemma OpacityMonotone(baseAlpha: int, boost: real, boost': real)
    requires boost <= boost'
    ensures Opacity(baseAlpha, boost) <= Opacity(baseAlpha, boost')
  {
  }

  lemma OpacityDarkerMonotone(baseAlpha: int, alphaBoostDark: int, dark: real, dark': real)
    requires dark <= dark' && 0 <= alphaBoostDark
    ensures Opacity(baseAlpha, dark * alphaBoostDark as real) <= Opacity(baseAlpha, dark' * alphaBoostDark as real)
  {
    ScaleMonotone(dark, dark', alphaBoostDark as real);
    OpacityMonotone(baseAlpha, dark * alphaBoostDark as real, dark' * alphaBoostDark as real);
  }

  lemma AlphaIsOpacity(lum: real, baseAlpha: int, alphaBoostDark: int, densityScale: real)
    ensures AlphaDensity(lum, baseAlpha, alphaBoostDark, densityScale).alpha
         == Opacity(baseAlpha, Darkness(lum) * alphaBoostDark as real)
  {
  }

  /** Black (luminance 0) gets the full boost and the full density scale. */
  lemma AtBlack(baseAlpha: int, alphaBoostDark: int, densityScale: real)
    ensures AlphaDensity(0.0, baseAlpha, alphaBoostDark, densityScale)
         == Mapped(Clamp(0, 255, baseAlpha + alphaBoostDark), densityScale)
  {
    assert Darkness(0.0) == 1.0;
    TruncWhole(baseAlpha + alphaBoostDark);
  }

  /** White (luminance 255) gets only the base alpha and density 0. */
  lemma AtWhite(baseAlpha: int, alphaBoostDark: int, densityScale: real)
    ensures AlphaDensity(255.0, baseAlpha, alphaBoostDark, densityScale)
         == Mapped(Clamp(0, 255, baseAlpha), 0.0)
  {
    assert Darkness(255.0) == 0.0;
    TruncWhole(baseAlpha);
  }

  /** Darker luminance never gives a smaller alpha or a smaller density,
      provided the boost and the scale are not negative. */
  lemma DarkerIsDenser(lum: real, lum': real, baseAlpha: int, alphaBoostDark: int, densityScale: real)
    requires lum <= lum' && 0 <= alphaBoostDark && 0.0 <= densityScale
    ensures AlphaDensity(lum', baseAlpha, alphaBoostDark, densityScale).alpha
         <= AlphaDensity(lum, baseAlpha, alphaBoostDark, densityScale).alpha
    ensures AlphaDensity(lum', baseAlpha, alphaBoostDark, densityScale).density
         <= AlphaDensity(lum, baseAlpha, alphaBoostDark, densityScale).density
  {
    DarkerAlpha(lum, lum', baseAlpha, alphaBoostDark, densityScale);
    DarkerDensity(lum, lum', baseAlpha, alphaBoostDark, densityScale);
  }

  lemma DarkerAlpha(lum: real, lum': real, baseAlpha: int, alphaBoostDark: int, densityScale: real)
    requires lum <= lum' && 0 <= alphaBoostDark
    ensures AlphaDensity(lum', baseAlpha, alphaBoostDark, densityScale).alpha
         <= AlphaDensity(lum, baseAlpha, alphaBoostDark, densityScale).alpha
  {
    var d, d' := Darkness(lum), Darkness(lum');
    DarknessMonotone(lum, lum');
    assert d' <= d;
    OpacityDarkerMonotone(baseAlpha, alphaBoostDark, d', d);
    var o, o' := Opacity(baseAlpha, d * alphaBoostDark as real), Opacity(baseAlpha, d' * alphaBoostDark as real);
    assert o' <= o;
    AlphaIsOpacity(lum, baseAlpha, alphaBoostDark, densityScale);
    AlphaIsOpacity(lum', baseAlpha, alphaBoostDark, densityScale);
    var a, a' := AlphaDensity(lum, baseAlpha, alphaBoostDark, densityScale).alpha, AlphaDensity(lum', baseAlpha, alphaBoostDark, densityScale).alpha;
    assert a == o;
    assert a' == o';
  }

  lemma DarkerDensity(lum: real, lum': real, baseAlpha: int, alphaBoostDark: int, densityScale: real)
    requires lum <= lum' && 0.0 <= densityScale
    ensures AlphaDensity(lum', baseAlpha, alphaBoostDark, densityScale).density
         <= AlphaDensity(lum, baseAlpha, alphaBoostDark, densityScale).density
  {
    DarknessMonotone(lum, lum');
    ScaleMonotone(Darkness(lum'), Darkness(lum), densityScale);
  }

  lemma DarknessMonotone(lum: real, lum': real)
    requires lum <= lum'
    ensures Darkness(lum') <= Darkness(lum)
  {
  }

  lemma ScaleMonotone(a: real, b: real, k: real)
    requires a <= b && 0.0 <= k
    ensures a * k <= b * k
  {
    assert b * k - a * k == (b - a) * k;
  }

  /** Density exceeds the scale only for luminances below black, and is
      never negative for luminances up to white with a non-negative scale. */
  lemma DensityRange(lum: real, baseAlpha: int, alphaBoostDark: int, densityScale: real)
    requires 0.0 <= lum <= 255.0 && 0.0 <= densityScale
    ensures 0.0 <= AlphaDensity(lum, baseAlpha, alphaBoostDark, densityScale).density <= densityScale
  {
    var d := Darkness(lum);
    assert 0.0 <= d <= 1.0;
    ScaleMonotone(0.0, d, densityScale);
    ScaleMonotone(d, 1.0, densityScale);
    assert 1.0 * densityScale == densityScale;
    assert AlphaDensity(lum, baseAlpha, alphaBoostDark, densityScale).density == d * densityScale;
    assert d * densityScale <= densityScale;
  }
}
