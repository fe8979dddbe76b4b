/** `getRatingStars`: the row of star glyphs drawn on a product card. The
    rating is a whole number of tenths of a star; `Math.floor` and the
    JavaScript remainder `%` (which keeps the sign of the dividend) are
    written out for negative ratings too. */
module RatingStars {

  /** The three glyphs: `fas fa-star`, `fas fa-star-half-alt`, `far fa-star`. */
  datatype Glyph = Full | Half | Empty

  /** `Math.floor(rating)`: the largest whole number of stars not above the
      rating. */
  function FullStars(ratingTenths: int): (n: int)
    ensures n * 10 <= ratingTenths < n * 10 + 10
  {
    ratingTenths / 10
  }

  /** `rating % 1` in tenths: the remainder truncated toward zero, so it has
      the sign of the rating and the rating minus it is a whole number of
      stars. */
  function FractionTenths(ratingTenths: int): (f: int)
    ensures -10 < f < 10
    ensures ratingTenths >= 0 ==> f >= 0
    ensures ratingTenths < 0 ==> f <= 0
    ensures (ratingTenths - f) % 10 == 0
  {
    if ratingTenths >= 0 then ratingTenths % 10 else -((-ratingTenths) % 10)
  }

  /** `rating % 1 >= 0.5`: there is a half star exactly when the rating is
      not negative and its tenths digit is 5 or more; a negative rating never
      gets one. */
  predicate HasHalfStar(ratingTenths: int): (b: bool)
    ensures b <==> ratingTenths >= 0 && ratingTenths % 10 >= 5
  {
    FractionTenths(ratingTenths) >= 5
  }

  /** `5 - fullStars - (hasHalfStar ? 1 : 0)`. It is negative from 5.5 up
      and above five below zero, so it is a count from 0 to 5 exactly for
      ratings from 0.0 to 5.4. */
  function EmptyStars(ratingTenths: int): (e: int)
    ensures e >= 0 <==> ratingTenths <= 54
    ensures e <= 5 <==> ratingTenths >= 0
  {
    5 - FullStars(ratingTenths) - (if HasHalfStar(ratingTenths) then 1 else 0)
  }

  /** `n` copies of `g`; none when `n` is not positive, as a counting loop
      `for (i = 0; i < n; i++)` runs no times. */
  function Repeat(g: Glyph, n: int): (r: seq<Glyph>)
    ensures |r| == if n > 0 then n else 0
    ensures forall k :: 0 <= k < |r| ==> r[k] == g
  {
    if n <= 0 then [] else Repeat(g, n - 1) + [g]
  }

  function Max0(n: int): nat {
    if n > 0 then n else 0
  }

  /** The glyph row: the full stars, then the half star if there is one, then
      the empty stars: as many glyphs as the three counts, clamped at zero,
      add up to; StarsLayout says which glyph sits where. */
  function Stars(ratingTenths: int): (r: seq<Glyph>)
    ensures |r| == Max0(FullStars(ratingTenths)) + (if HasHalfStar(ratingTenths) then 1 else 0) + Max0(EmptyStars(ratingTenths))
  {
    Repeat(Full, FullStars(ratingTenths))
    + (if HasHalfStar(ratingTenths) then [Half] else [])
    + Repeat(Empty, EmptyStars(ratingTenths))
  }

  /** The row is `floor(rating)` full glyphs, one half glyph iff the
      fractional part is at least one half, then the empty glyphs, in that
      order. */
  lemma StarsLayout(ratingTenths: int, k: nat)
    requires k < |Stars(ratingTenths)|
    ensures var full := if FullStars(ratingTenths) > 0 then FullStars(ratingTenths) else 0;
            var half := if HasHalfStar(ratingTenths) then 1 else 0;
            Stars(ratingTenths)[k] == if k < full then Full else if k < full + half then Half else Empty
  {
    var full := Repeat(Full, FullStars(ratingTenths));
    var half := if HasHalfStar(ratingTenths) then [Half] else [];
    var empty := Repeat(Empty, EmptyStars(ratingTenths));
    var s := Stars(ratingTenths);
    assert s == full + half + empty;
    if k < |full| {
      assert s[k] == full[k];
    } else if k < |full| + |half| {
      assert s[k] == half[k - |full|];
    } else {
      assert s[k] == empty[k - |full| - |half|];
    }
  }

  /** The row has exactly five glyphs precisely for ratings from 0.0 to 5.4:
      from 5.5 up the half star (or the sixth full star) makes six or more,
      and below zero the empty stars number six or more. */
  lemma FiveGlyphsExactly(ratingTenths: int)
    ensures |Stars(ratingTenths)| == 5 <==> 0 <= ratingTenths <= 54
  {
  }

  /** Ratings 4.5, 4.2, 5.0 and 0.0. */
  lemma StarsExamples()
    ensures Stars(45) == [Full, Full, Full, Full, Half]
    ensures Stars(42) == [Full, Full, Full, Full, Empty]
    ensures Stars(50) == [Full, Full, Full, Full, Full]
    ensures Stars(0) == [Empty, Empty, Empty, Empty, Empty]
  {
    assert FullStars(45) == 4 && HasHalfStar(45) && EmptyStars(45) == 0;
    assert FullStars(42) == 4 && !HasHalfStar(42) && EmptyStars(42) == 1;
    assert FullStars(50) == 5 && !HasHalfStar(50) && EmptyStars(50) == 0;
    assert FullStars(0) == 0 && !HasHalfStar(0) && EmptyStars(0) == 5;
    RepeatFour(Full);
    RepeatFive(Full);
    RepeatFive(Empty);
  }

  lemma RepeatFour(g: Glyph)
    ensures Repeat(g, 4) == [g, g, g, g]
  {
  }

  lemma RepeatFive(g: Glyph)
    ensures Repeat(g, 5) == [g, g, g, g, g]
  {
    RepeatFour(g);
  }

  /** `getRatingStars(rating)`: two counting loops around an optional half
      star, appending to the accumulated row. */
  method GetRatingStars(ratingTenths: int) returns (stars: seq<Glyph>)
    ensures stars == Stars(ratingTenths)
  {
    stars := [];
    var fullStars := FullStars(ratingTenths);
    var hasHalfStar := HasHalfStar(ratingTenths);
    var i := 0;
    while i < fullStars
      invariant 0 <= i <= if fullStars > 0 then fullStars else 0
      invariant stars == Repeat(Full, i)
    {
      stars := stars + [Full];
      i := i + 1;
    }
    assert stars == Repeat(Full, fullStars);
    if hasHalfStar {
      stars := stars + [Half];
    }
    var prefix := stars;
    var emptyStars := 5 - fullStars - (if hasHalfStar then 1 else 0);
    i := 0;
    while i < emptyStars
      invariant 0 <= i <= if emptyStars > 0 then emptyStars else 0
      invariant stars == prefix + Repeat(Empty, i)
    {
      stars := stars + [Empty];
      i := i + 1;
    }
    assert stars == Stars(ratingTenths) by {
      assert prefix == Repeat(Full, fullStars) + (if hasHalfStar then [Half] else []);
      assert emptyStars == EmptyStars(ratingTenths);
    }
  }
}
