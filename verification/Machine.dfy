/** The 32-bit signed arithmetic the touch panel code relies on. */
module Machine {

  const INT_MAX: int := 0x7FFF_FFFF
  const TWO_32: int := 0x1_0000_0000

  /** The value of `n` after two's-complement reduction to a 32-bit `int`. */
  function ToInt32(n: int): (r: int)
    ensures -INT_MAX - 1 <= r <= INT_MAX
    ensures (n - r) % TWO_32 == 0
  {
    var m := n % TWO_32;
    if m <= INT_MAX then m else m - TWO_32
  }

  /** C's division by two: it truncates toward zero. */
  function Half(w: int): (h: int)
    ensures w >= 0 ==> w - 1 <= 2 * h <= w
    ensures w <= 0 ==> w <= 2 * h <= w + 1
  {
    if w >= 0 then w / 2 else -((-w) / 2)
  }

  /** The squared distance the matching loop computes, in 32-bit arithmetic throughout. */
  function Distance(x: int, y: int, px: int, py: int): (d: int)
    ensures -INT_MAX - 1 <= d < INT_MAX
  {
    var dx := ToInt32(x - px);
    var dy := ToInt32(y - py);
    NeverTheSentinel(dx, dy);
    ToInt32(dx * dx + dy * dy)
  }

  lemma SquareModFour(a: int)
    ensures exists k :: a * a == 4 * k || a * a == 4 * k + 1
  {
    var h := a / 2;
    if a % 2 == 0 {
      assert a * a == 4 * (h * h) by { assert a == 2 * h; }
    } else {
      assert a * a == 4 * (h * h + h) + 1 by { assert a == 2 * h + 1; }
    }
  }

  /** No reduced sum of two squares is INT_MAX: the latter is 3 modulo 4, the former never is. */
  lemma NeverTheSentinel(dx: int, dy: int)
    ensures ToInt32(dx * dx + dy * dy) != INT_MAX
  {
    SquareModFour(dx);
    SquareModFour(dy);
    var k :| dx * dx == 4 * k || dx * dx == 4 * k + 1;
    var l :| dy * dy == 4 * l || dy * dy == 4 * l + 1;
    var s := dx * dx + dy * dy;
    assert s == 4 * (k + l) || s == 4 * (k + l) + 1 || s == 4 * (k + l) + 2;
  }

  lemma SquareWraps(a: int, b: int)
    requires (a - b) % TWO_32 == 0
    ensures (a * a - b * b) % TWO_32 == 0
  {
    var k := (a - b) / TWO_32;
    assert a - b == k * TWO_32;
    assert a * a - b * b == (k * (a + b)) * TWO_32 by {
      assert a * a - b * b == (a - b) * (a + b);
      assert (k * TWO_32) * (a + b) == (k * (a + b)) * TWO_32;
    }
    MultipleWraps(k * (a + b));
  }

  lemma MultipleWraps(k: int)
    ensures (k * TWO_32) % TWO_32 == 0
  {}

  /** Whatever overflows, the computed distance differs from the true one by a multiple of 2^32. */
  lemma DistanceWraps(x: int, y: int, px: int, py: int)
    ensures ((x - px) * (x - px) + (y - py) * (y - py) - Distance(x, y, px, py)) % TWO_32 == 0
  {
    var dx, dy := ToInt32(x - px), ToInt32(y - py);
    SquareWraps(x - px, dx);
    SquareWraps(y - py, dy);
    SumWraps((x - px) * (x - px), dx * dx, (y - py) * (y - py), dy * dy);
  }

  lemma SumWraps(a: int, b: int, c: int, d: int)
    requires (a - b) % TWO_32 == 0 && (c - d) % TWO_32 == 0
    ensures (a + c - ToInt32(b + d)) % TWO_32 == 0
  {}

  predicate InRange(n: int, bound: nat) {
    0 <= n <= bound
  }

  lemma SquareBound(a: int, bound: nat)
    requires -(bound as int) <= a <= bound
    ensures 0 <= a * a <= bound * bound
  {
    var m: nat := if a >= 0 then a else -a;
    assert a * a == m * m;
    assert m * m <= bound * m <= bound * bound;
  }

  /** The exact range on which the 32-bit distance is the true one. */
  lemma DistanceIsExactUpTo32767(bound: nat)
    ensures bound <= 32767 <==>
            forall x, y, px, py ::
              InRange(x, bound) && InRange(y, bound) && InRange(px, bound) && InRange(py, bound) ==>
                Distance(x, y, px, py) == (x - px) * (x - px) + (y - py) * (y - py)
  {
    if bound <= 32767 {
      forall x, y, px, py |
        InRange(x, bound) && InRange(y, bound) && InRange(px, bound) && InRange(py, bound)
        ensures Distance(x, y, px, py) == (x - px) * (x - px) + (y - py) * (y - py)
      {
        SquareBound(x - px, 32767);
        SquareBound(y - py, 32767);
      }
    } else {
      var c := 32768;
      assert InRange(c, bound) && InRange(0, bound);
      assert Distance(c, c, 0, 0) != (c - 0) * (c - 0) + (c - 0) * (c - 0);
    }
  }
}
