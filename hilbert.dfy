/**
 * The Hilbert curve of `HilbertCurve` in src/main.rs: a bijection between a
 * linear index in [0, 4^order) and a point of the 2^order by 2^order grid.
 *
 * The bit operations of the source are written over natural numbers:
 * `(x & 2^b) > 0` is `TestBit(x, b)`, `v & 1` is `v % 2` and `^` is `Xor`.
 * `CurvePoint` and `CurveIndex` are the two directions as recursions on the
 * order, most significant base-4 digit first; the methods `ValueToPoint` and
 * `PointToValue` are the loops of the source, proved equal to them.
 */
module Hilbert {
  import opened Outcomes
  import opened Arith

  /** A grid coordinate (`Pos2<usize>`). */
  datatype Pos = Pos(x: nat, y: nat)

  /** A curve over the grid of side `2^order`; the order is fixed at construction. */
  datatype Curve = Curve(order: nat)

  /** `2_usize.pow(k)`. */
  function Pow2(k: nat): (p: nat)
    ensures p >= 1
  {
    if k == 0 then 1 else 2 * Pow2(k - 1)
  }

  /** The number of cells of the grid of side `2^k`. */
  function Pow4(k: nat): (p: nat)
    ensures p >= 1
  {
    if k == 0 then 1 else 4 * Pow4(k - 1)
  }

  /** Bitwise exclusive or of two natural numbers (the `^` operator). */
  function Xor(a: nat, b: nat): nat
    decreases a + b
  {
    if a == 0 then b
    else if b == 0 then a
    else 2 * Xor(a / 2, b / 2) + (if a % 2 == b % 2 then 0 else 1)
  }

  /** `((x & 2^b) > 0) as usize`. */
  function TestBit(x: nat, b: nat): nat
  {
    (x / Pow2(b)) % 2
  }

  /** The two bits `(rx, ry)` that `value_to_point` reads from the running value:
      `rx = (value / 2) & 1` and `ry = (value ^ rx) & 1`. */
  function DigitCheck(value: nat): (check: Pos)
    ensures check.x < 2 && check.y < 2
  {
    var rx := (value / 2) % 2;
    Pos(rx, Xor(value, rx) % 2)
  }

  /** The base-4 digit `(3 * rx) ^ ry` that `point_to_value` adds per level. */
  function Quadrant(check: Pos): nat
  {
    Xor(3 * check.x, check.y)
  }

  /** `rotate`: in the lower half (`check.y == 0`) reflect both coordinates
      inside `value` when `check.x == 1`, then swap them. The reflection is
      `value - 1 - coord`, which must not underflow. */
  function Rotate(pos: Pos, check: Pos, value: nat): (r: Pos)
    requires check.y == 0 && check.x == 1 ==> pos.x < value && pos.y < value
    ensures pos.x < value && pos.y < value ==> r.x < value && r.y < value
  {
    if check.y != 0 then pos
    else if check.x == 1 then Pos(value - 1 - pos.y, value - 1 - pos.x)
    else Pos(pos.y, pos.x)
  }

  /** The point of index `v` on the curve of the given order. The top digit of
      `v` picks the quadrant; the rest is the point on the curve one order
      lower, rotated into that quadrant. */
  function CurvePoint(order: nat, v: nat): (p: Pos)
    requires v < Pow4(order)
    ensures p.x < Pow2(order) && p.y < Pow2(order)
  {
    if order == 0 then Pos(0, 0)
    else
      var s := Pow2(order - 1);
      var check := DigitCheck(v / Pow4(order - 1));
      var r := Rotate(CurvePoint(order - 1, v % Pow4(order - 1)), check, s);
      PlaceBound(order, r, check);
      Place(r, check, s)
  }

  /** A point of the `s` by `s` grid moved into the quadrant `check` of the
      grid twice that size. */
  function Place(r: Pos, check: Pos, s: nat): Pos
  {
    MulMonotone(0, check.x, s);
    MulMonotone(0, check.y, s);
    Pos(r.x + s * check.x, r.y + s * check.y)
  }

  /** Moving a point of the lower-order grid into a quadrant keeps it on the grid. */
  lemma PlaceBound(order: nat, r: Pos, check: Pos)
    requires order >= 1 && r.x < Pow2(order - 1) && r.y < Pow2(order - 1)
    requires check.x < 2 && check.y < 2
    ensures var p := Place(r, check, Pow2(order - 1));
            p.x < Pow2(order) && p.y < Pow2(order)
  {
    var s := Pow2(order - 1);
    assert Pow2(order) == 2 * s;
    MulMonotone(check.x, 1, s);
    MulMonotone(check.y, 1, s);
  }

  /** The index of point `p` on the curve of the given order. The top bits of
      the coordinates pick the quadrant and its digit; the low bits, rotated
      back, give the index on the curve one order lower. */
  function CurveIndex(order: nat, p: Pos): (v: nat)
    requires p.x < Pow2(order) && p.y < Pow2(order)
    ensures v < Pow4(order)
  {
    if order == 0 then 0
    else
      var k := order - 1;
      var s := Pow2(k);
      var check := Pos(TestBit(p.x, k), TestBit(p.y, k));
      var rest := CurveIndex(k, Rotate(LowBits(p, k), check, s));
      LevelBound(p, order, rest);
      s * s * Quadrant(check) + rest
  }

  /** The coordinates modulo `2^k`: their low `k` bits. */
  function LowBits(p: Pos, k: nat): (r: Pos)
    ensures r.x < Pow2(k) && r.y < Pow2(k)
  {
    Pos(p.x % Pow2(k), p.y % Pow2(k))
  }

  /** The digit a level adds keeps the index below `4^order`. */
  lemma LevelBound(p: Pos, order: nat, rest: nat)
    requires order >= 1 && p.x < Pow2(order) && p.y < Pow2(order) && rest < Pow4(order - 1)
    ensures var s := Pow2(order - 1);
            var q := Quadrant(Pos(TestBit(p.x, order - 1), TestBit(p.y, order - 1)));
            0 <= s * s * q && s * s * q + rest < Pow4(order)
  {
    var k := order - 1;
    var check := Pos(TestBit(p.x, k), TestBit(p.y, k));
    TopBit(p.x, k);
    TopBit(p.y, k);
    QuadrantTable(check);
    AddDigit(Pow2(k), Quadrant(check), rest, k);
  }

  /** The floor of the base-2 logarithm, the order `HilbertCurve::new` computes. */
  function Log2(n: nat): (k: nat)
    requires n >= 1
    ensures Pow2(k) <= n < Pow2(k + 1)
  {
    if n == 1 then 0 else 1 + Log2(n / 2)
  }

  /** The sizes a curve can cover exactly: the side of a 2^k by 2^k grid. */
  ghost predicate IsPowerOfTwo(n: nat)
  {
    exists k: nat :: Pow2(k) == n
  }

  /** `HilbertCurve::new`: count the halvings of `size` down to zero, then take
      one off. The check `current != 0` after the loop can never fire, so every
      size of at least one is accepted with order floor(log2 size); a size of 0
      would underflow `order -= 1`. */
  method New(size: nat) returns (curve: Curve)
    requires size >= 1
    ensures curve.order == Log2(size)
    ensures Pow2(curve.order) <= size < Pow2(curve.order + 1)
  {
    var order: nat := 0;
    var current: nat := size;
    while current > 0
      invariant current > 0 ==> order + Log2(current) == Log2(size)
      invariant current == 0 ==> order == Log2(size) + 1
      decreases current
    {
      current := current / 2;
      order := order + 1;
    }
    order := order - 1;
    if current != 0 {
      assert false;
    }
    curve := Curve(order);
  }

  /** `HilbertCurve::new` with the power-of-two check it evidently intends:
      sizes that are not a power of two (including 0) are rejected. */
  method NewChecked(size: nat) returns (r: Result<Curve>)
    ensures r.Ok? <==> IsPowerOfTwo(size)
    ensures r.Ok? ==> Pow2(r.value.order) == size && r.value.order == Log2(size)
    ensures r.Err? ==> r.error == InvalidDimensions
  {
    if size == 0 {
      forall k: nat ensures Pow2(k) != 0 { }
      return Err(InvalidDimensions);
    }
    var curve := New(size);
    if Pow2(curve.order) != size {
      forall k: nat ensures Pow2(k) != size {
        if Pow2(k) == size {
          PowerOfTwoOrder(size, k);
        }
      }
      return Err(InvalidDimensions);
    }
    return Ok(curve);
  }

  /** `value_to_point`: for `s = 2^k`, k ascending, read two bits of the running
      value, rotate the point built so far inside `s`, move it into the quadrant
      and shift the value by two bits. Only the low `2 * order` bits of the
      index are read. */
  method ValueToPoint(curve: Curve, value: nat) returns (pos: Pos)
    ensures pos == CurvePoint(curve.order, value % Pow4(curve.order))
    ensures pos.x < Pow2(curve.order) && pos.y < Pow2(curve.order)
  {
    pos := Pos(0, 0);
    var v := value;
    var k: nat := 0;
    while k < curve.order
      invariant k <= curve.order
      invariant v == value / Pow4(k)
      invariant pos == CurvePoint(k, value % Pow4(k))
    {
      var s := Pow2(k);
      var check := DigitCheck(v);
      ValuePointStep(value, k);
      pos := Rotate(pos, check, s);
      pos := Place(pos, check, s);
      v := v / 4;
      k := k + 1;
    }
  }

  /** `point_to_value`: for `s = 2^k`, k descending, read bit k of both
      coordinates, rotate the whole point inside `n = 2^order` and add
      `s * s * ((3 * rx) ^ ry)`. */
  method PointToValue(curve: Curve, pos: Pos) returns (value: nat)
    requires pos.x < Pow2(curve.order) && pos.y < Pow2(curve.order)
    ensures value == CurveIndex(curve.order, pos)
    ensures value < Pow4(curve.order)
  {
    var n := Pow2(curve.order);
    var p := pos;
    var k: nat := curve.order;
    value := 0;
    ModBelow(pos.x, n);
    ModBelow(pos.y, n);
    while k > 0
      invariant k <= curve.order
      invariant p.x < n && p.y < n
      invariant value + CurveIndex(k, LowBits(p, k)) == CurveIndex(curve.order, pos)
    {
      var s := Pow2(k - 1);
      var check := Pos(TestBit(p.x, k - 1), TestBit(p.y, k - 1));
      PointValueStep(curve.order, k, p);
      p := Rotate(p, check, n);
      value := value + s * s * Quadrant(check);
      k := k - 1;
    }
  }

  // ---------------------------------------------------------------------
  // Properties of the curve

  /** `rotate` undoes itself for the same check bits. */
  lemma RotateInvolution(pos: Pos, check: Pos, value: nat)
    requires pos.x < value && pos.y < value
    ensures Rotate(Rotate(pos, check, value), check, value) == pos
  {
  }

  /** The digit table `{0 -> (0,0), 1 -> (0,1), 2 -> (1,1), 3 -> (1,0)}`:
      `DigitCheck` and `Quadrant` are inverse on digits and bit pairs. */
  lemma QuadrantTable(check: Pos)
    requires check.x < 2 && check.y < 2
    ensures Quadrant(check) < 4 && DigitCheck(Quadrant(check)) == check
  {
    assert Xor(3, 1) == 2 * Xor(1, 0) + 0;
    assert Xor(2, 1) == 2 * Xor(1, 0) + 1;
    assert Xor(3, 0) == 3 && Xor(0, 1) == 1 && Xor(0, 0) == 0;
  }

  lemma DigitTable(d: nat)
    requires d < 4
    ensures DigitCheck(d).x < 2 && DigitCheck(d).y < 2 && Quadrant(DigitCheck(d)) == d
  {
    assert Xor(3, 1) == 2 * Xor(1, 0) + 0;
    assert Xor(2, 1) == 2 * Xor(1, 0) + 1;
    assert Xor(3, 0) == 3 && Xor(0, 1) == 1 && Xor(0, 0) == 0 && Xor(1, 0) == 1;
  }

  /** The lowest bit of `a ^ b` is the exclusive or of their lowest bits. */
  lemma XorLowBit(a: nat, b: nat)
    ensures Xor(a, b) % 2 == (if a % 2 == b % 2 then 0 else 1)
  {
  }

  /** `DigitCheck` reads only the lowest base-4 digit of its argument. */
  lemma DigitCheckLowDigit(v: nat)
    ensures DigitCheck(v) == DigitCheck(v % 4)
  {
    var rx := (v / 2) % 2;
    assert rx == ((v % 4) / 2) % 2;
    XorLowBit(v, rx);
    XorLowBit(v % 4, rx);
  }

  /** A coordinate below `2^(b+1)` is its top bit times `2^b` plus the bits below. */
  lemma TopBit(x: nat, b: nat)
    requires x < Pow2(b + 1)
    ensures TestBit(x, b) < 2 && TestBit(x, b) == x / Pow2(b)
    ensures x == Pow2(b) * TestBit(x, b) + x % Pow2(b)
  {
    var s := Pow2(b);
    DivMod(x, s);
    if x / s >= 2 {
      MulMonotone(2, x / s, s);
    }
    ModBelow(x / s, 2);
  }

  lemma Pow4Square(k: nat)
    ensures Pow4(k) == Pow2(k) * Pow2(k)
  {
    if k > 0 {
      Pow4Square(k - 1);
    }
  }

  /** Adding a digit below 4 in front of an index below `4^k` stays below `4^(k+1)`. */
  lemma AddDigit(s: nat, digit: nat, low: nat, k: nat)
    requires s == Pow2(k) && digit < 4 && low < Pow4(k)
    ensures s * s * digit + low < Pow4(k + 1)
    ensures (s * s * digit + low) / Pow4(k) == digit && (s * s * digit + low) % Pow4(k) == low
  {
    Pow4Square(k);
    MulMonotone(digit, 3, Pow4(k));
    assert s * s * digit == digit * Pow4(k);
    DivModUnique(s * s * digit + low, Pow4(k), digit, low);
  }

  lemma Pow2Monotone(a: nat, b: nat)
    ensures a <= b ==> Pow2(a) <= Pow2(b)
    decreases b
  {
    if a < b {
      Pow2Monotone(a, b - 1);
    }
  }

  /** The order of a power of two is its logarithm. */
  lemma PowerOfTwoOrder(n: nat, k: nat)
    requires Pow2(k) == n
    ensures n >= 1 && Log2(n) == k
  {
    var j := Log2(n);
    Pow2Monotone(j + 1, k);
    Pow2Monotone(k + 1, j);
  }

  /** `Pow2(order)` is a multiple of every smaller power of two. */
  lemma Pow2Divides(b: nat, order: nat)
    requires b <= order
    ensures Pow2(order) % Pow2(b) == 0
  {
    var q := Pow2Quotient(b, order);
    DivModUnique(Pow2(order), Pow2(b), q, 0);
  }

  lemma Pow2Quotient(b: nat, order: nat) returns (q: nat)
    requires b <= order
    ensures Pow2(order) == q * Pow2(b)
    decreases order
  {
    if b == order {
      q := 1;
    } else {
      q := Pow2Quotient(b, order - 1);
      q := 2 * q;
    }
  }

  /** One iteration of `value_to_point`: from the point of the low `2k` bits to
      the point of the low `2k + 2` bits. */
  lemma ValuePointStep(value: nat, k: nat)
    ensures (value / Pow4(k)) / 4 == value / Pow4(k + 1)
    ensures var check := DigitCheck(value / Pow4(k));
            var r := Rotate(CurvePoint(k, value % Pow4(k)), check, Pow2(k));
            CurvePoint(k + 1, value % Pow4(k + 1)) == Place(r, check, Pow2(k))
  {
    var w := value % Pow4(k + 1);
    SplitMod(value, Pow4(k), 4);
    DigitCheckLowDigit(value / Pow4(k));
    assert w / Pow4(k) == (value / Pow4(k)) % 4;
    assert w % Pow4(k) == value % Pow4(k);
  }

  /** Taking a coordinate and its rotation inside a multiple `n` of `s` modulo
      `s` commutes with the rotation inside `s`. */
  lemma RotateMod(p: Pos, check: Pos, n: nat, s: nat)
    requires s > 0 && n % s == 0 && p.x < n && p.y < n
    ensures var r := Rotate(p, check, n);
            Rotate(Pos(p.x % s, p.y % s), check, s) == Pos(r.x % s, r.y % s)
  {
    if check.y == 0 && check.x == 1 {
      ReflectMod(n, s, p.x);
      ReflectMod(n, s, p.y);
    }
  }

  /** Dropping the bits from `k` up keeps bit `k - 1` and the bits below it. */
  lemma LowBitsKeep(x: nat, k: nat)
    requires k >= 1
    ensures TestBit(x % Pow2(k), k - 1) == TestBit(x, k - 1)
    ensures (x % Pow2(k)) % Pow2(k - 1) == x % Pow2(k - 1)
  {
    var s := Pow2(k - 1);
    assert Pow2(k) == 2 * s;
    SplitMod(x, s, 2);
    ModBelow((x / s) % 2, 2);
  }

  /** One iteration of `point_to_value` at bit `k - 1`, with the rotation
      inside `n = 2^order`, adds the same digit and leaves the same rest as one
      level of `CurveIndex` on the low `k` bits. */
  lemma PointValueStep(order: nat, k: nat, p: Pos)
    requires 1 <= k <= order && p.x < Pow2(order) && p.y < Pow2(order)
    ensures var s := Pow2(k - 1);
            var check := Pos(TestBit(p.x, k - 1), TestBit(p.y, k - 1));
            var r := Rotate(p, check, Pow2(order));
            0 <= s * s * Quadrant(check)
            && CurveIndex(k, LowBits(p, k)) == s * s * Quadrant(check) + CurveIndex(k - 1, LowBits(r, k - 1))
  {
    var s := Pow2(k - 1);
    var n := Pow2(order);
    var check := Pos(TestBit(p.x, k - 1), TestBit(p.y, k - 1));
    var m := LowBits(p, k);
    LowBitsKeep(p.x, k);
    LowBitsKeep(p.y, k);
    assert LowBits(m, k - 1) == LowBits(p, k - 1);
    Pow2Divides(k - 1, order);
    RotateMod(p, check, n, s);
    MulMonotone(0, s * s, Quadrant(check));
  }

  /** The defining round trip (the test `inverse_hilbert`): the index of the
      point of `v` is `v`. */
  lemma {:induction false} PointOfIndexRoundTrip(order: nat, v: nat)
    requires v < Pow4(order)
    ensures CurveIndex(order, CurvePoint(order, v)) == v
  {
    if order > 0 {
      var k := order - 1;
      var s := Pow2(k);
      var digit, low := v / Pow4(k), v % Pow4(k);
      var check := DigitCheck(digit);
      var inner := CurvePoint(k, low);
      var r := Rotate(inner, check, s);
      var p := CurvePoint(order, v);
      assert CurveIndex(order, p) == s * s * Quadrant(check) + CurveIndex(k, Rotate(r, check, s)) by {
        PointTopBits(order, v);
      }
      assert Rotate(r, check, s) == inner by {
        RotateInvolution(inner, check, s);
      }
      assert CurveIndex(k, inner) == low by {
        PointOfIndexRoundTrip(k, low);
      }
      DigitSplit(v, k);
    }
  }

  /** The top bits of the point of `v` are the bits of its top digit and its
      low bits are the rotated point of the lower digits. */
  lemma PointTopBits(order: nat, v: nat)
    requires order >= 1 && v < Pow4(order)
    ensures var k := order - 1;
            var check := DigitCheck(v / Pow4(k));
            var p := CurvePoint(order, v);
            TestBit(p.x, k) == check.x && TestBit(p.y, k) == check.y
            && LowBits(p, k) == Rotate(CurvePoint(k, v % Pow4(k)), check, Pow2(k))
  {
    var k := order - 1;
    var s := Pow2(k);
    var check := DigitCheck(v / Pow4(k));
    var r := Rotate(CurvePoint(k, v % Pow4(k)), check, s);
    var p := CurvePoint(order, v);
    assert p == Place(r, check, s);
    DivModUnique(p.x, s, check.x, r.x);
    DivModUnique(p.y, s, check.y, r.y);
    ModBelow(check.x, 2);
    ModBelow(check.y, 2);
  }

  /** An index below `4^(k+1)` is its top digit times `2^k * 2^k` plus the rest,
      and the top digit is the digit the bits of its check encode. */
  lemma DigitSplit(v: nat, k: nat)
    requires v < Pow4(k + 1)
    ensures v / Pow4(k) < 4
    ensures v == Pow2(k) * Pow2(k) * Quadrant(DigitCheck(v / Pow4(k))) + v % Pow4(k)
  {
    var digit := v / Pow4(k);
    DivMod(v, Pow4(k));
    if digit >= 4 {
      MulMonotone(4, digit, Pow4(k));
    }
    DigitTable(digit);
    Pow4Square(k);
  }

  /** The other direction: the point of the index of `p` is `p`, so the curve
      is a bijection between [0, 4^order) and the grid. */
  lemma {:induction false} IndexOfPointRoundTrip(order: nat, p: Pos)
    requires p.x < Pow2(order) && p.y < Pow2(order)
    ensures CurvePoint(order, CurveIndex(order, p)) == p
  {
    if order > 0 {
      var k := order - 1;
      var s := Pow2(k);
      var check := Pos(TestBit(p.x, k), TestBit(p.y, k));
      var lowP := LowBits(p, k);
      var low := Rotate(lowP, check, s);
      var v := CurveIndex(order, p);
      assert v / Pow4(k) == Quadrant(check) && v % Pow4(k) == CurveIndex(k, low) by {
        IndexTopDigit(order, p);
      }
      assert DigitCheck(Quadrant(check)) == check by {
        IndexTopDigit(order, p);
      }
      assert CurvePoint(k, CurveIndex(k, low)) == low by {
        IndexOfPointRoundTrip(k, low);
      }
      assert Rotate(low, check, s) == lowP by {
        RotateInvolution(lowP, check, s);
      }
      assert Place(lowP, check, s) == p by {
        PlaceTopBits(order, p);
      }
    }
  }

  /** The top digit of the index of `p` encodes the top bits of `p`, and the
      lower digits are the index of the rotated low bits. */
  lemma IndexTopDigit(order: nat, p: Pos)
    requires order >= 1 && p.x < Pow2(order) && p.y < Pow2(order)
    ensures var k := order - 1;
            var check := Pos(TestBit(p.x, k), TestBit(p.y, k));
            var v := CurveIndex(order, p);
            v / Pow4(k) == Quadrant(check) && DigitCheck(Quadrant(check)) == check
            && v % Pow4(k) == CurveIndex(k, Rotate(LowBits(p, k), check, Pow2(k)))
  {
    var k := order - 1;
    var check := Pos(TestBit(p.x, k), TestBit(p.y, k));
    var rest := CurveIndex(k, Rotate(LowBits(p, k), check, Pow2(k)));
    TopBit(p.x, k);
    TopBit(p.y, k);
    QuadrantTable(check);
    AddDigit(Pow2(k), Quadrant(check), rest, k);
  }

  /** A point is its low bits placed in the quadrant its top bits name. */
  lemma PlaceTopBits(order: nat, p: Pos)
    requires order >= 1 && p.x < Pow2(order) && p.y < Pow2(order)
    ensures var k := order - 1;
            Place(LowBits(p, k), Pos(TestBit(p.x, k), TestBit(p.y, k)), Pow2(k)) == p
  {
    TopBit(p.x, order - 1);
    TopBit(p.y, order - 1);
  }

  /** A power of two is its own largest power-of-two floor: the order `new`
      computes for it is its exact exponent. */
  lemma PowerOfTwoLog(n: nat)
    requires IsPowerOfTwo(n)
    ensures n >= 1 && Pow2(Log2(n)) == n
  {
    var k: nat :| Pow2(k) == n;
    PowerOfTwoOrder(n, k);
  }
}
