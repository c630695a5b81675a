/** One rendered position of the wand tip and the linear fade that decides
    how strongly it is drawn. Times are integer milliseconds; opacity is an
    exact real. */
module Trail {

  /** A point of the decaying trail. Its position and creation time never
      change after construction; only its age is recomputed, as a side
      effect of every prune. */
  class TrailPoint {
    const x: real
    const y: real
    const timestamp: int
    var age: int

    constructor (x: real, y: real, timestamp: int)
      ensures this.x == x && this.y == y && this.timestamp == timestamp
      ensures age == 0
    {
      this.x := x;
      this.y := y;
      this.timestamp := timestamp;
      age := 0;
    }

    /** Recomputes the age at `currentTime` and reports whether the point
        is still younger than the trail length. */
    method Update(currentTime: int, trailLength: int) returns (alive: bool)
      modifies this
      ensures age == currentTime - timestamp
      ensures alive == Alive(this, currentTime, trailLength)
    {
      age := currentTime - timestamp;
      alive := age < trailLength;
    }

    /** The opacity of the point at its last recomputed age. */
    function GetOpacity(trailLength: int): (r: real)
      reads this
      requires trailLength > 0
      ensures r >= 0.0
      ensures r == 0.0 <==> age >= trailLength
      ensures 0 <= age ==> r <= 1.0
    {
      Opacity(age, trailLength)
    }
  }

  /** A point survives a prune at `now` when its age is below `ttl`. */
  predicate Alive(p: TrailPoint, now: int, ttl: int)
  {
    now - p.timestamp < ttl
  }

  /** Linear fade: full opacity at age 0, none from age `trailLength` on,
      and never negative. A point from the future (negative age) is drawn
      with an opacity above 1. */
  function Opacity(age: int, trailLength: int): (r: real)
    requires trailLength > 0
    ensures r >= 0.0
    ensures r == 0.0 <==> age >= trailLength
    ensures r > 0.0 && r <= 1.0 <==> 0 <= age < trailLength
    ensures r > 1.0 <==> age < 0
  {
    var fade := 1.0 - (age as real) / (trailLength as real);
    FadeSign(age, trailLength);
    if fade > 0.0 then fade else 0.0
  }

  /** How the unclamped fade compares with 0 and 1. */
  lemma FadeSign(age: int, trailLength: int)
    requires trailLength > 0
    ensures 1.0 - (age as real) / (trailLength as real) > 0.0 <==> age < trailLength
    ensures 1.0 - (age as real) / (trailLength as real) <= 1.0 <==> age >= 0
  {
    var t := trailLength as real;
    var q := (age as real) / t;
    assert q * t == age as real;
    if age < trailLength {
      assert (1.0 - q) * t == t - age as real;
    } else {
      assert (q - 1.0) * t == age as real - t;
    }
    if age >= 0 {
      assert q * t >= 0.0;
    } else {
      assert (0.0 - q) * t == 0.0 - age as real;
    }
  }

  /** Halfway through its life a point is drawn at half opacity. */
  lemma OpacityHalfway(age: int, trailLength: int)
    requires trailLength > 0 && 2 * age == trailLength
    ensures Opacity(age, trailLength) == 0.5
  {
    var t := trailLength as real;
    assert t == 2.0 * (age as real);
    assert (age as real) / t == 0.5;
  }

  /** The fade never brightens as a point ages. */
  lemma OpacityNonIncreasing(a: int, b: int, trailLength: int)
    requires trailLength > 0 && a <= b
    ensures Opacity(b, trailLength) <= Opacity(a, trailLength)
  {
    var t := trailLength as real;
    assert (a as real) / t <= (b as real) / t by {
      assert (b as real) / t - (a as real) / t == ((b - a) as real) / t;
    }
  }
}
