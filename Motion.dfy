/**
 * The cursor's motion: exponential smoothing of the palm position toward the
 * pixel the hand points at.
 */
module Motion {

  /** Weight of the previous position in each smoothing step (lower is more responsive). */
  const Smoothing: real := 0.2

  /** r lies on the closed segment between a and b. */
  predicate Between(r: real, a: real, b: real) {
    (a <= r <= b) || (b <= r <= a)
  }

  function Abs(x: real): real {
    if x < 0.0 then -x else x
  }

  lemma NonNegativeProduct(x: real, y: real)
    requires x >= 0.0 && y >= 0.0
    ensures x * y >= 0.0
  {
  }

  // ---------------------------------------------------------------------
  // Exponential smoothing
  // ---------------------------------------------------------------------

  /**
   * One smoothing step: the new position is a weighted mean of the previous
   * position and the target. Its offset from the target is the previous
   * offset scaled by s, and for a weight in [0, 1] it never leaves the segment
   * between the previous position and the target.
   */
  function Smooth(prev: real, target: real, s: real): (r: real)
    ensures r - target == s * (prev - target)
    ensures 0.0 <= s <= 1.0 ==> Between(r, prev, target)
  {
    SmoothFacts(prev, target, s);
    prev * s + target * (1.0 - s)
  }

  lemma SmoothFacts(prev: real, target: real, s: real)
    ensures prev * s + target * (1.0 - s) - target == s * (prev - target)
    ensures 0.0 <= s <= 1.0 ==> Between(prev * s + target * (1.0 - s), prev, target)
  {
    var d := prev - target;
    assert prev * s + target * (1.0 - s) - target == s * d;
    if 0.0 <= s <= 1.0 {
      // s * d and (1 - s) * d share the sign of d, and d = s * d + (1 - s) * d
      assert d - s * d == (1.0 - s) * d;
      if d >= 0.0 {
        NonNegativeProduct(s, d);
        NonNegativeProduct(1.0 - s, d);
      } else {
        NonNegativeProduct(s, -d);
        NonNegativeProduct(1.0 - s, -d);
        assert s * (-d) == -(s * d);
        assert (1.0 - s) * (-d) == -((1.0 - s) * d);
      }
    }
  }

  /** s raised to the n-th power. */
  function Pow(s: real, n: nat): real {
    if n == 0 then 1.0 else s * Pow(s, n - 1)
  }

  /** The position after n frames that all aim at the same target. */
  function Repeat(prev: real, target: real, s: real, n: nat): real {
    if n == 0 then prev else Smooth(Repeat(prev, target, s, n - 1), target, s)
  }

  /** Under a constant target the offset shrinks geometrically: by the factor s per frame. */
  lemma {:induction false} RepeatOffset(prev: real, target: real, s: real, n: nat)
    ensures Repeat(prev, target, s, n) - target == Pow(s, n) * (prev - target)
  {
    if n > 0 {
      RepeatOffset(prev, target, s, n - 1);
      var d := prev - target;
      assert Repeat(prev, target, s, n) - target
          == s * (Repeat(prev, target, s, n - 1) - target);
      assert s * (Pow(s, n - 1) * d) == (s * Pow(s, n - 1)) * d;
    }
  }

  /** For a weight in [0, 1] the shrink factor after n frames is in [0, 1] and does not grow. */
  lemma {:induction false} PowBounds(s: real, n: nat)
    requires 0.0 <= s <= 1.0
    ensures 0.0 <= Pow(s, n) <= 1.0
    ensures Pow(s, n + 1) <= Pow(s, n)
  {
    if n > 0 {
      PowBounds(s, n - 1);
      var q := Pow(s, n - 1);
      NonNegativeProduct(s, q);
      NonNegativeProduct(1.0 - s, q);
      assert q - s * q == (1.0 - s) * q;
    }
    var p := Pow(s, n);
    NonNegativeProduct(1.0 - s, p);
    assert p - s * p == (1.0 - s) * p;
  }

  /**
   * Under a constant target and a weight in [0, 1], every frame moves the
   * position toward the target without overshooting it, so the position
   * stays between its start and the target and its distance to the target
   * never grows.
   */
  lemma {:induction false} RepeatApproaches(prev: real, target: real, s: real, n: nat)
    requires 0.0 <= s <= 1.0
    ensures Between(Repeat(prev, target, s, n), prev, target)
    ensures Between(Repeat(prev, target, s, n + 1), Repeat(prev, target, s, n), target)
    ensures Abs(Repeat(prev, target, s, n + 1) - target) <= Abs(Repeat(prev, target, s, n) - target)
  {
    if n > 0 {
      RepeatApproaches(prev, target, s, n - 1);
    }
  }

  /** Smoothing toward an on-screen target keeps an on-screen position on screen. */
  lemma SmoothStaysWithin(prev: real, target: real, s: real, lo: real, hi: real)
    requires 0.0 <= s <= 1.0
    requires lo <= prev <= hi && lo <= target <= hi
    ensures lo <= Smooth(prev, target, s) <= hi
  {
  }
}
