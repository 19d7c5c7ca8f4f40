/**
  The level formula of the leveling system: experience points map to a level
  by `level = 1 + floor(sqrt(xp / 100))`, and a level maps back to the least
  experience that reaches it, `(level - 1)^2 * 100`.

  The source evaluates the square root in floating point; here it is the exact
  integer root, "the largest k with 100 * k * k <= xp".
*/
module LevelFormula {

  /** Integer square root: the largest r with r * r <= n. */
  function Root(n: nat): (r: nat)
    ensures r * r <= n < (r + 1) * (r + 1)
  {
    if n < 4 then
      if n == 0 then 0 else 1
    else
      var s := Root(n / 4);
      RootStep(n, s);
      if (2 * s + 1) * (2 * s + 1) <= n then 2 * s + 1 else 2 * s
  }

  /** Doubling the root of n / 4 brackets the root of n. */
  lemma RootStep(n: nat, s: nat)
    requires s * s <= n / 4 < (s + 1) * (s + 1)
    ensures (2 * s) * (2 * s) <= n < (2 * s + 2) * (2 * s + 2)
  {
    var q := n / 4;
    var a, b := s * s, (s + 1) * (s + 1);
    assert (2 * s) * (2 * s) == 4 * a;
    assert (2 * s + 2) * (2 * s + 2) == 4 * b;
    assert 4 * q <= n < 4 * q + 4;
  }

  /** Scaling the root of xp / 100 to hundreds brackets xp. */
  lemma HundredStep(xp: nat, k: nat)
    requires k * k <= xp / 100 < (k + 1) * (k + 1)
    ensures 100 * (k * k) <= xp < 100 * ((k + 1) * (k + 1))
  {
    var q := xp / 100;
    assert 100 * q <= xp < 100 * q + 100;
  }

  /** The level reached with `xp` experience points; negative experience is level 1. */
  function CalculateLevel(xp: int): (r: int)
    ensures r >= 1
    ensures xp < 0 ==> r == 1
    ensures xp >= 0 ==> 100 * ((r - 1) * (r - 1)) <= xp < 100 * (r * r)
  {
    if xp < 0 then 1
    else
      var k := Root(xp / 100);
      HundredStep(xp, k);
      1 + k
  }

  /** The least experience that reaches `level`; levels 1 and below need none. */
  function XpForLevel(level: int): (r: int)
    ensures r >= 0
    ensures r == 0 <==> level <= 1
  {
    if level <= 1 then 0 else (level - 1) * (level - 1) * 100
  }

  lemma SquareMonotone(p: int, q: int)
    requires 0 <= p <= q
    ensures p * p <= q * q
  {
    assert p * p <= p * q;
    assert p * q <= q * q;
  }

  /** Squares of non-negative numbers are ordered as the numbers are. */
  lemma SquareOrder(p: int, q: int)
    requires 0 <= p && 0 <= q
    ensures p * p < q * q <==> p < q
  {
    if p < q {
      SquareMonotone(p + 1, q);
    } else {
      SquareMonotone(q, p);
    }
  }

  /** More experience never means a lower level. */
  lemma {:induction false} LevelMonotone(x: int, y: int)
    requires x <= y
    ensures CalculateLevel(x) <= CalculateLevel(y)
  {
    if x >= 0 {
      var a, b := CalculateLevel(x), CalculateLevel(y);
      if a > b {
        SquareMonotone(b, a - 1);
        assert false;
      }
    }
  }

  /** The threshold of a level is exactly enough to reach that level. */
  lemma {:induction false} LevelOfThreshold(level: int)
    requires level >= 1
    ensures CalculateLevel(XpForLevel(level)) == level
  {
    var m := level - 1;
    var x := XpForLevel(level);
    var mm := m * m;
    assert x == 100 * mm;
    var r := CalculateLevel(x);
    var lo, hi := (r - 1) * (r - 1), r * r;
    assert 100 * lo <= 100 * mm < 100 * hi;
    SquareOrder(m, r - 1);
    SquareOrder(m, r);
  }

  /** Every non-negative experience lies between the threshold of its level and the next. */
  lemma {:induction false} ThresholdBracket(xp: int)
    requires xp >= 0
    ensures XpForLevel(CalculateLevel(xp)) <= xp < XpForLevel(CalculateLevel(xp) + 1)
  {
    var r := CalculateLevel(xp);
    assert XpForLevel(r + 1) == 100 * (r * r);
  }

  /** Thresholds grow strictly from level 1 upward. */
  lemma {:induction false} ThresholdIncreasing(level: int)
    requires level >= 1
    ensures XpForLevel(level) < XpForLevel(level + 1)
    ensures XpForLevel(level + 1) - XpForLevel(level) == (2 * level - 1) * 100
  {
    assert XpForLevel(level + 1) == level * level * 100;
  }

  lemma {:induction false} ThresholdMonotone(a: int, b: int)
    requires a <= b
    ensures XpForLevel(a) <= XpForLevel(b)
  {
    if a > 1 {
      SquareMonotone(a - 1, b - 1);
    }
  }

  /**
    With experience that is already at `level`, the level is exceeded exactly
    when the experience reaches the next level's threshold.
  */
  lemma {:induction false} LevelExceededIff(level: int, xp: int)
    requires level >= 1
    ensures CalculateLevel(xp) > level <==> xp >= XpForLevel(level + 1)
  {
    if xp >= XpForLevel(level + 1) {
      LevelMonotone(XpForLevel(level + 1), xp);
      LevelOfThreshold(level + 1);
    }
    if CalculateLevel(xp) > level {
      assert xp >= 0;
      ThresholdBracket(xp);
      ThresholdMonotone(level + 1, CalculateLevel(xp));
    }
  }

  /** The thresholds listed in the formula's documentation. */
  lemma DocumentedThresholds()
    ensures XpForLevel(2) == 100 && CalculateLevel(100) == 2 && CalculateLevel(99) == 1
    ensures XpForLevel(3) == 400 && CalculateLevel(400) == 3
    ensures XpForLevel(5) == 1600 && CalculateLevel(1600) == 5
    ensures XpForLevel(10) == 8100 && CalculateLevel(8100) == 10
  {
    LevelOfThreshold(2);
    LevelOfThreshold(3);
    LevelOfThreshold(5);
    LevelOfThreshold(10);
  }
}
