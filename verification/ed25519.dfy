/**
 Ed25519 (RFC 8032) on unbounded integers: modular powers, the group of the curve in extended coordinates,
 the byte forms of integers and points, and signatures.
 */
module Ed25519 {
  import opened Bytes
  import opened Results

  /** x = X/Z, y = Y/Z, T = XY/Z. */
  datatype Point = Point(x: int, y: int, z: int, t: int)

  /** The numbers that the algorithms work with: the field, the order of the base point, the curve, a root of -1, and
      the base point. The theorems hold for any such numbers that meet their hypotheses; `ED25519` holds those of the
      source. */
  datatype Curve = Curve(p: nat, l: nat, d: nat, sqrtM1: nat, base: Point)
  {
    predicate Valid() {
      p > 1 && l > 0 && l <= Pow256(32) && Extended(this, base)
    }
  }

  const IDENTITY := Point(0, 1, 1, 0)

  const ED25519 := Curve(
    0x7FFFFFFF_FFFFFFFF_FFFFFFFF_FFFFFFFF_FFFFFFFF_FFFFFFFF_FFFFFFFF_FFFFFFED,
    0x10000000_00000000_00000000_00000000_00000000_00000000_00000000_00000000 + 27742317777372353535851937790883648493,
    37095705934669439343138083508754565189542113879843219016388785533085940283555,
    19681161376707505956807079304988542015446066515923890162744021073123829784752,
    Point(15112221349535400772501151409588531511454012693041857206046113283949847762202,
          46316835694926478169428394003475163141307993866256225615783033603165251855960,
          1,
          46827403850823179245072216630277197565144205554125654976674165829533817101731))

  // ----- Arithmetic modulo m -----

  /** The remainder of the source language has the sign of the dividend. */
  function Rem(a: int, m: nat): int
    requires m > 0
  {
    if a >= 0 then a % m else -((-a) % m)
  }

  function Mod(a: int, m: nat): (r: int)
    requires m > 0
    ensures r == a % m
  {
    var result := Rem(a, m);
    if a < 0 then
      var q := (-a) / m;
      assert a == m * (-q) + result by { assert m * (-q) == -(m * q); }
      if result < 0 then
        assert m * (-q - 1) == m * (-q) - m;
        ModUnique(a, m, -q - 1, result + m);
        result + m
      else
        ModUnique(a, m, -q, 0);
        result
    else
      result
  }

  function Pow(b: int, e: nat): int {
    if e == 0 then 1 else b * Pow(b, e - 1)
  }

  predicate Cong(a: int, b: int, m: nat)
    requires m > 0
  {
    a % m == b % m
  }

  lemma CongByDifference(a: int, b: int, k: int, m: nat)
    requires m > 0 && a == b + m * k
    ensures Cong(a, b, m)
  {
    var q, r := b / m, b % m;
    assert a == m * (q + k) + r by { assert m * (q + k) == m * q + m * k; }
    ModUnique(a, m, q + k, r);
  }

  /** The quotient by which two congruent numbers differ. */
  function Quotient(a: int, b: int, m: nat): (k: int)
    requires m > 0 && Cong(a, b, m)
    ensures a == b + m * k
  {
    assert a == m * (a / m) + a % m && b == m * (b / m) + b % m;
    assert m * (a / m - b / m) == m * (a / m) - m * (b / m);
    a / m - b / m
  }

  lemma CongMul(a: int, a': int, b: int, b': int, m: nat)
    requires m > 0 && Cong(a, a', m) && Cong(b, b', m)
    ensures Cong(a * b, a' * b', m)
  {
    var i, j := Quotient(a, a', m), Quotient(b, b', m);
    calc {
      a * b;
      (a' + m * i) * (b' + m * j);
      a' * b' + a' * (m * j) + (m * i) * b' + (m * i) * (m * j);
      {
        assert a' * (m * j) == m * (a' * j) && (m * i) * b' == m * (i * b');
        assert (m * i) * (m * j) == m * (i * (m * j));
      }
      a' * b' + m * (a' * j) + m * (i * b') + m * (i * (m * j));
      { assert m * (a' * j + i * b' + i * (m * j)) == m * (a' * j) + m * (i * b') + m * (i * (m * j)); }
      a' * b' + m * (a' * j + i * b' + i * (m * j));
    }
    CongByDifference(a * b, a' * b', a' * j + i * b' + i * (m * j), m);
  }

  lemma CongAdd(a: int, a': int, b: int, b': int, m: nat)
    requires m > 0 && Cong(a, a', m) && Cong(b, b', m)
    ensures Cong(a + b, a' + b', m) && Cong(a - b, a' - b', m)
  {
    var i, j := Quotient(a, a', m), Quotient(b, b', m);
    assert m * (i + j) == m * i + m * j && m * (i - j) == m * i - m * j;
    CongByDifference(a + b, a' + b', i + j, m);
    CongByDifference(a - b, a' - b', i - j, m);
  }

  lemma CongMod(a: int, m: nat)
    requires m > 0
    ensures Cong(a % m, a, m) && Cong(a, a % m, m)
  {
    ModUnique(a % m, m, 0, a % m);
  }

  lemma {:induction false} PowAdd(b: int, m: nat, n: nat)
    ensures Pow(b, m + n) == Pow(b, m) * Pow(b, n)
    decreases m
  {
    if m > 0 {
      PowAdd(b, m - 1, n);
      assert b * (Pow(b, m - 1) * Pow(b, n)) == (b * Pow(b, m - 1)) * Pow(b, n);
    }
  }

  lemma {:induction false} PowCong(a: int, b: int, e: nat, m: nat)
    requires m > 0 && Cong(a, b, m)
    ensures Cong(Pow(a, e), Pow(b, e), m)
    decreases e
  {
    if e > 0 {
      PowCong(a, b, e - 1, m);
      CongMul(a, b, Pow(a, e - 1), Pow(b, e - 1), m);
    }
  }

  lemma {:induction false} PowSquare(b: int, e: nat)
    ensures Pow(b * b, e) == Pow(b, 2 * e)
    decreases e
  {
    if e > 0 {
      PowSquare(b, e - 1);
      PowAdd(b, 2, 2 * (e - 1));
      assert Pow(b, 2) == b * Pow(b, 1) && Pow(b, 1) == b * Pow(b, 0);
    }
  }

  /** Square and multiply. A power that is not positive gives 1, also when the modulus is 1. */
  method ModPow(base: int, exponent: int, modulus: nat) returns (result: int)
    requires modulus > 0
    ensures result == if exponent <= 0 then 1 else Pow(base, exponent) % modulus
  {
    result := 1;
    var b := Rem(base, modulus);
    if b < 0 {
      b := b + modulus;
    }
    assert b == Mod(base, modulus);
    CongMod(base, modulus);
    var e := exponent;
    if exponent > 0 {
      PowCong(b, base, exponent, modulus);
    }
    while e > 0
      invariant e <= exponent || e == exponent
      invariant exponent > 0 ==> e >= 0 && Cong(result * Pow(b, e), Pow(base, exponent), modulus)
      invariant exponent > 0 && e < exponent ==> e > 0 || 0 <= result < modulus
      invariant exponent <= 0 ==> result == 1 && e == exponent
    {
      ghost var e0, r0, b0 := e, result, b;
      var half := e / 2;
      Halve(b, e);
      if e % 2 == 1 {
        CongMod(r0 * b0, modulus);
        result := result * b % modulus;
      }
      CongMod(b0 * b0, modulus);
      PowCong(b0 * b0 % modulus, b0 * b0, half, modulus);
      b := b * b % modulus;
      e := half;
      PowerStep(r0, b0, e0, result, b, modulus);
    }
    if exponent > 0 {
      ModUnique(result, modulus, 0, result);
    }
  }

  lemma Halve(b: int, e: nat)
    requires e > 0
    ensures Pow(b, e) == (if e % 2 == 1 then b else 1) * Pow(b * b, e / 2)
  {
    PowSquare(b, e / 2);
  }

  lemma PowerStep(r0: int, b0: int, e0: nat, r: int, b: int, m: nat)
    requires m > 0 && e0 > 0
    requires Cong(Pow(b, e0 / 2), Pow(b0 * b0, e0 / 2), m)
    requires Cong(r, if e0 % 2 == 1 then r0 * b0 else r0, m)
    ensures Cong(r * Pow(b, e0 / 2), r0 * Pow(b0, e0), m)
  {
    Halve(b0, e0);
    var p := Pow(b0 * b0, e0 / 2);
    CongMul(r, if e0 % 2 == 1 then r0 * b0 else r0, Pow(b, e0 / 2), p, m);
    if e0 % 2 == 1 {
      assert r0 * b0 * p == r0 * (b0 * p);
    } else {
      assert r0 * (1 * p) == r0 * p;
    }
  }

  // ----- The curve -----

  /**
   The coordinates agree with each other, and the point is on -x^2 + y^2 = 1 + D x^2 y^2 (RFC 8032, section 5.1.4).
   */
  predicate Extended(c: Curve, p: Point)
    requires c.p > 1
  {
    && 0 <= p.x < c.p && 0 <= p.y < c.p && 0 <= p.z < c.p && 0 <= p.t < c.p
    && OnQuadrics(p.x, p.y, p.z, p.t, c.d, c.p)
  }

  predicate OnQuadrics(x: int, y: int, z: int, t: int, d: int, m: nat)
    requires m > 0
  {
    && Cong(x * y, z * t, m)
    && Cong(y * y - x * x, z * z + d * (t * t), m)
  }

  function PointAdd(c: Curve, p: Point, q: Point): Point
    requires c.p > 1
  {
    var a := Mod((p.y - p.x) * (q.y - q.x), c.p);
    var b := Mod((p.y + p.x) * (q.y + q.x), c.p);
    var cc := Mod(p.t * 2 * c.d * q.t, c.p);
    var dd := Mod(p.z * 2 * q.z, c.p);
    var e, f, g, h := b - a, dd - cc, dd + cc, b + a;
    Point(Mod(e * f, c.p), Mod(g * h, c.p), Mod(f * g, c.p), Mod(e * h, c.p))
  }

  // Polynomial identities.

  lemma Squares(a: int, b: int)
    ensures (a - b) * (a - b) == a * a + b * b - 2 * (a * b)
    ensures (a + b) * (a + b) == a * a + b * b + 2 * (a * b)
    ensures (a - b) * (a + b) == a * a - b * b
  {
  }

  lemma Shuffle(a: int, b: int, c: int, d: int)
    ensures (a * b) * (c * d) == (a * c) * (b * d)
  {
  }

  lemma DifferenceOfSquares(x1: int, y1: int, x2: int, y2: int)
    ensures (y1 * y2 + x1 * x2) * (y1 * y2 + x1 * x2) - (x1 * y2 + y1 * x2) * (x1 * y2 + y1 * x2)
         == (y1 * y1 - x1 * x1) * (y2 * y2 - x2 * x2)
    ensures (y1 * y2 + x1 * x2) * (y1 * y2 + x1 * x2) + (x1 * y2 + y1 * x2) * (x1 * y2 + y1 * x2)
         == (y1 * y1 + x1 * x1) * (y2 * y2 + x2 * x2) + 4 * ((x1 * y1) * (x2 * y2))
  {
    var a, b, c, d, w := x1 * x1, y1 * y1, x2 * x2, y2 * y2, (x1 * y1) * (x2 * y2);
    SquareOfSum(y1, y2, x1, x2);
    SquareOfSum(x1, y2, y1, x2);
    assert (y1 * x1) * (y2 * x2) == w && (x1 * y1) * (y2 * x2) == w by {
      assert y1 * x1 == x1 * y1 && y2 * x2 == x2 * y2;
    }
    assert (b - a) * (d - c) == b * d - b * c - a * d + a * c;
    assert (b + a) * (d + c) == b * d + b * c + a * d + a * c;
  }

  lemma SquareOfSum(a: int, b: int, c: int, d: int)
    ensures (a * b + c * d) * (a * b + c * d) == (a * a) * (b * b) + (c * c) * (d * d) + 2 * ((a * c) * (b * d))
  {
    Squares(a * b, c * d);
    Shuffle(a, b, a, b);
    Shuffle(c, d, c, d);
    Shuffle(a, b, c, d);
  }

  lemma CrossProduct(x1: int, y1: int, x2: int, y2: int)
    ensures (x1 * y2 + y1 * x2) * (y1 * y2 + x1 * x2)
         == (x1 * y1) * (y2 * y2 + x2 * x2) + (x2 * y2) * (y1 * y1 + x1 * x1)
  {
  }

  lemma CrossSquare(u1: int, u2: int, m1: int, m2: int)
    ensures (u1 * m2 + u2 * m1) * (u1 * m2 + u2 * m1)
         == (u1 * u1) * (m2 * m2) + (u2 * u2) * (m1 * m1) + 2 * ((u1 * u2) * (m1 * m2))
  {
  }

  lemma Balance(a: int, b: int, c: int, e: int)
    ensures (a * c + b * e) * ((a + b) * (c + e))
         == (a * c - b * e) * (a * c - b * e) + a * b * ((c + e) * (c + e)) + c * e * ((a + b) * (a + b))
  {
  }

  /** The squares and the product of f and g. */
  lemma Denominators(z1: int, z2: int, t1: int, t2: int, d: int)
    ensures var f, g := z1 * z2 - d * (t1 * t2), z1 * z2 + d * (t1 * t2);
      var a, b, c, e, w := z1 * z1, d * (t1 * t1), z2 * z2, d * (t2 * t2), (z1 * t1) * (z2 * t2);
      && f * f == a * c + b * e - 2 * (d * w)
      && g * g == a * c + b * e + 2 * (d * w)
      && f * g == a * c - b * e
  {
    var zz, tt := z1 * z2, t1 * t2;
    Squares(zz, d * tt);
    Shuffle(z1, z2, z1, z2);
    Shuffle(z1, z2, t1, t2);
    assert zz * (d * tt) == d * (zz * tt);
    Shuffle(d, tt, d, tt);
    Shuffle(t1, t2, t1, t2);
    Shuffle(d, t1 * t1, d, t2 * t2);
  }

  /** The heart of the addition law: with the halved intermediate values, the sum satisfies the curve equation. */
  lemma SumOnCurve(x1: int, y1: int, z1: int, t1: int, x2: int, y2: int, z2: int, t2: int, d: int, m: nat)
    requires m > 0 && OnQuadrics(x1, y1, z1, t1, d, m) && OnQuadrics(x2, y2, z2, t2, d, m)
    ensures var e, h := x1 * y2 + y1 * x2, y1 * y2 + x1 * x2;
      var f, g := z1 * z2 - d * (t1 * t2), z1 * z2 + d * (t1 * t2);
      Cong((g * g) * (h * h) - (e * e) * (f * f), (f * g) * (f * g) + d * ((e * h) * (e * h)), m)
  {
    var e, h := x1 * y2 + y1 * x2, y1 * y2 + x1 * x2;
    var f, g := z1 * z2 - d * (t1 * t2), z1 * z2 + d * (t1 * t2);
    var u1, u2, p1, p2 := z1 * t1, z2 * t2, x1 * y1, x2 * y2;
    var s1, s2 := z1 * z1 + d * (t1 * t1), z2 * z2 + d * (t2 * t2);
    var n1, n2 := y1 * y1 - x1 * x1, y2 * y2 - x2 * x2;
    var m1, m2 := y1 * y1 + x1 * x1, y2 * y2 + x2 * x2;
    var w, mm := u1 * u2, m1 * m2;
    // e, h
    DifferenceOfSquares(x1, y1, x2, y2);
    CongMul(n1, s1, n2, s2, m);
    CongMul(p1, u1, p2, u2, m);
    CongMul(4, 4, p1 * p2, w, m);
    CongAdd(mm, mm, 4 * (p1 * p2), 4 * w, m);
    CongAdd(n1 * n2, s1 * s2, mm + 4 * (p1 * p2), mm + 4 * w, m);
    assert Cong(h * h - e * e, s1 * s2, m) && Cong(2 * (h * h), s1 * s2 + (mm + 4 * w), m);
    // left-hand side
    Denominators(z1, z2, t1, t2, d);
    var dw := d * w;
    assert (g * g) * (h * h) - (e * e) * (f * f) == (f * f) * (h * h - e * e) + (2 * dw) * (2 * (h * h)) by {
      assert g * g == f * f + 4 * dw;
      LeftSide(f * f, dw, h * h, e * e);
    }
    CongMul(f * f, f * f, h * h - e * e, s1 * s2, m);
    CongMul(2 * dw, 2 * dw, 2 * (h * h), s1 * s2 + (mm + 4 * w), m);
    CongAdd((f * f) * (h * h - e * e), (f * f) * (s1 * s2), (2 * dw) * (2 * (h * h)),
      (2 * dw) * (s1 * s2 + (mm + 4 * w)), m);
    // right-hand side
    CrossProduct(x1, y1, x2, y2);
    CongMul(p1, u1, m2, m2, m);
    CongMul(p2, u2, m1, m1, m);
    CongAdd(p1 * m2, u1 * m2, p2 * m1, u2 * m1, m);
    var q := u1 * m2 + u2 * m1;
    CongMul(e * h, q, e * h, q, m);
    CrossSquare(u1, u2, m1, m2);
    SumSquared(x1, y1, u1, s1, m);
    SumSquared(x2, y2, u2, s2, m);
    var r1, r2 := s1 * s1 + 4 * (u1 * u1), s2 * s2 + 4 * (u2 * u2);
    CongMul(u1 * u1, u1 * u1, m2 * m2, r2, m);
    CongMul(u2 * u2, u2 * u2, m1 * m1, r1, m);
    CongAdd((u1 * u1) * (m2 * m2), (u1 * u1) * r2, (u2 * u2) * (m1 * m1), (u2 * u2) * r1, m);
    CongAdd((u1 * u1) * (m2 * m2) + (u2 * u2) * (m1 * m1), (u1 * u1) * r2 + (u2 * u2) * r1, 2 * (w * mm),
      2 * (w * mm), m);
    var q2 := (u1 * u1) * r2 + (u2 * u2) * r1 + 2 * (w * mm);
    CongMul(d, d, (e * h) * (e * h), q2, m);
    CongAdd((f * g) * (f * g), (f * g) * (f * g), d * ((e * h) * (e * h)), d * q2, m);
    // both sides meet
    SidesMeet(z1 * z1, t1 * t1, z2 * z2, t2 * t2, u1, u2, mm, d, z1, t1, z2, t2);
  }

  lemma LeftSide(ff: int, dw: int, hh: int, ee: int)
    ensures (ff + 4 * dw) * hh - ee * ff == ff * (hh - ee) + (2 * dw) * (2 * hh)
  {
  }

  /** (x^2 + y^2)^2, on the curve. */
  lemma SumSquared(x: int, y: int, u: int, s: int, m: nat)
    requires m > 0 && Cong(x * y, u, m) && Cong(y * y - x * x, s, m)
    ensures Cong((y * y + x * x) * (y * y + x * x), s * s + 4 * (u * u), m)
  {
    var n, p := y * y - x * x, x * y;
    CongMul(n, s, n, s, m);
    CongMul(p, u, p, u, m);
    CongMul(4, 4, p * p, u * u, m);
    CongAdd(n * n, s * s, 4 * (p * p), 4 * (u * u), m);
    Squares(y * y, x * x);
    Shuffle(x, y, x, y);
  }

  lemma SidesMeet(a: int, tt1: int, c: int, tt2: int, u1: int, u2: int, mm: int, d: int, z1: int, t1: int, z2: int,
      t2: int)
    requires a == z1 * z1 && tt1 == t1 * t1 && c == z2 * z2 && tt2 == t2 * t2 && u1 == z1 * t1 && u2 == z2 * t2
    ensures var b, e, w := d * tt1, d * tt2, u1 * u2;
      var s1, s2, dw := a + b, c + e, d * w;
      var ff, fg := a * c + b * e - 2 * dw, a * c - b * e;
      var q2 := (u1 * u1) * (s2 * s2 + 4 * (u2 * u2)) + (u2 * u2) * (s1 * s1 + 4 * (u1 * u1)) + 2 * (w * mm);
      ff * (s1 * s2) + (2 * dw) * (s1 * s2 + (mm + 4 * w)) == fg * fg + d * q2
  {
    var b, e, w := d * tt1, d * tt2, u1 * u2;
    var s1, s2, dw := a + b, c + e, d * w;
    var fg := a * c - b * e;
    Shuffle(z1, t1, z1, t1);
    Shuffle(z2, t2, z2, t2);
    Shuffle(u1, u2, u1, u2);
    Balance(a, b, c, e);
    var v1, v2, ss1, ss2 := u1 * u1, u2 * u2, s1 * s1, s2 * s2;
    assert d * v1 == a * b && d * v2 == c * e;
    LeftSum(a * c + b * e, dw, s1 * s2, mm, w);
    RightSum(d, v1, v2, ss1, ss2, w * mm);
    assert v1 * v2 == w * w;
    assert d * (v1 * v2) == dw * w && d * (w * mm) == dw * mm;
    assert (d * v1) * ss2 == a * b * ss2 && (d * v2) * ss1 == c * e * ss1;
  }

  lemma LeftSum(k: int, dw: int, ss: int, mm: int, w: int)
    ensures (k - 2 * dw) * ss + (2 * dw) * (ss + (mm + 4 * w)) == k * ss + 2 * (dw * mm) + 8 * (dw * w)
  {
  }

  lemma RightSum(d: int, v1: int, v2: int, ss1: int, ss2: int, wm: int)
    ensures d * (v1 * (ss2 + 4 * v2) + v2 * (ss1 + 4 * v1) + 2 * wm)
         == (d * v1) * ss2 + (d * v2) * ss1 + 8 * (d * (v1 * v2)) + 2 * (d * wm)
  {
  }

  /** A coordinate of the sum, as the code computes it and as the halved intermediate values give it. */
  lemma Coordinate(u: int, v: int, r: int, s: int, m: nat)
    requires m > 0 && Cong(u, 2 * r, m) && Cong(v, 2 * s, m)
    ensures Cong(u * v % m, 4 * (r * s), m)
    ensures Cong((u * v % m) * (u * v % m), 16 * ((r * s) * (r * s)), m)
  {
    CongMul(u, 2 * r, v, 2 * s, m);
    Shuffle(2, r, 2, s);
    CongMod(u * v, m);
    Squared(u * v % m, r * s, m);
  }

  lemma Squared(w: int, k: int, m: nat)
    requires m > 0 && Cong(w, 4 * k, m)
    ensures Cong(w * w, 16 * (k * k), m)
  {
    CongMul(w, 4 * k, w, 4 * k, m);
    Shuffle(4, k, 4, k);
  }

  lemma Intermediates(p: Point, q: Point, d: nat, m: nat)
    requires m > 0
    ensures var a, b := Mod((p.y - p.x) * (q.y - q.x), m), Mod((p.y + p.x) * (q.y + q.x), m);
      var cc, dd := Mod(p.t * 2 * d * q.t, m), Mod(p.z * 2 * q.z, m);
      && Cong(b - a, 2 * (p.x * q.y + p.y * q.x), m)
      && Cong(b + a, 2 * (p.y * q.y + p.x * q.x), m)
      && Cong(dd - cc, 2 * (p.z * q.z - d * (p.t * q.t)), m)
      && Cong(dd + cc, 2 * (p.z * q.z + d * (p.t * q.t)), m)
  {
    hide Mod, Cong;
    BothWays((p.y - p.x) * (q.y - q.x), (p.y + p.x) * (q.y + q.x), m);
    Products(p.x, p.y, q.x, q.y);
    BothWays(p.t * 2 * d * q.t, p.z * 2 * q.z, m);
    Reorder(p.t, d, q.t);
    Reorder(p.z, 1, q.z);
  }

  lemma BothWays(a: int, b: int, m: nat)
    requires m > 0
    ensures Cong(Mod(b, m) - Mod(a, m), b - a, m) && Cong(Mod(b, m) + Mod(a, m), b + a, m)
  {
    CongMod(a, m);
    CongMod(b, m);
    CongAdd(Mod(b, m), b, Mod(a, m), a, m);
  }

  lemma Products(x: int, y: int, x': int, y': int)
    ensures (y + x) * (y' + x') - (y - x) * (y' - x') == 2 * (x * y' + y * x')
    ensures (y + x) * (y' + x') + (y - x) * (y' - x') == 2 * (y * y' + x * x')
  {
  }

  lemma Reorder(a: int, d: int, b: int)
    ensures a * 2 * d * b == 2 * (d * (a * b))
  {
  }

  /** The sum of two points of the curve is a point of the curve, and its coordinates agree. */
  lemma PointAddExtended(c: Curve, p: Point, q: Point)
    requires c.p > 1 && Extended(c, p) && Extended(c, q)
    ensures Extended(c, PointAdd(c, p, q))
  {
    hide OnQuadrics, Mod;
    var a, b := Mod((p.y - p.x) * (q.y - q.x), c.p), Mod((p.y + p.x) * (q.y + q.x), c.p);
    var cc, dd := Mod(p.t * 2 * c.d * q.t, c.p), Mod(p.z * 2 * q.z, c.p);
    var e, h := p.x * q.y + p.y * q.x, p.y * q.y + p.x * q.x;
    var f, g := p.z * q.z - c.d * (p.t * q.t), p.z * q.z + c.d * (p.t * q.t);
    Intermediates(p, q, c.d, c.p);
    SumOnCurve(p.x, p.y, p.z, p.t, q.x, q.y, q.z, q.t, c.d, c.p);
    SumIsExtended(b - a, dd - cc, dd + cc, b + a, e, f, g, h, c.d, c.p);
  }

  lemma SumIsExtended(e': int, f': int, g': int, h': int, e: int, f: int, g: int, h: int, d: nat, m: nat)
    requires m > 0 && Cong(e', 2 * e, m) && Cong(f', 2 * f, m) && Cong(g', 2 * g, m) && Cong(h', 2 * h, m)
    requires Cong((g * g) * (h * h) - (e * e) * (f * f), (f * g) * (f * g) + d * ((e * h) * (e * h)), m)
    ensures OnQuadrics(e' * f' % m, g' * h' % m, f' * g' % m, e' * h' % m, d, m)
  {
    Coordinate(e', f', e, f, m);
    Coordinate(g', h', g, h, m);
    Coordinate(f', g', f, g, m);
    Coordinate(e', h', e, h, m);
    var x, y, z, t := e' * f' % m, g' * h' % m, f' * g' % m, e' * h' % m;
    // x y = z t
    CongMul(x, 4 * (e * f), y, 4 * (g * h), m);
    CongMul(z, 4 * (f * g), t, 4 * (e * h), m);
    Shuffle(4, e * f, 4, g * h);
    Shuffle(4, f * g, 4, e * h);
    Shuffle(e, f, h, g);
    Shuffle(f, g, e, h);
    assert (e * f) * (g * h) == (f * g) * (e * h) by { assert (e * f) * (h * g) == (e * h) * (f * g); }
    // y^2 - x^2 = z^2 + d t^2
    CongAdd(y * y, 16 * ((g * h) * (g * h)), x * x, 16 * ((e * f) * (e * f)), m);
    CongMul(d, d, t * t, 16 * ((e * h) * (e * h)), m);
    CongAdd(z * z, 16 * ((f * g) * (f * g)), d * (t * t), d * (16 * ((e * h) * (e * h))), m);
    Shuffle(g, h, g, h);
    Shuffle(e, f, e, f);
    var left, right := (g * g) * (h * h) - (e * e) * (f * f), (f * g) * (f * g) + d * ((e * h) * (e * h));
    CongMul(16, 16, left, right, m);
    assert 16 * left == 16 * ((g * h) * (g * h)) - 16 * ((e * f) * (e * f));
    Reorder16((f * g) * (f * g), d, (e * h) * (e * h));
  }

  lemma Reorder16(a: int, d: int, b: int)
    ensures 16 * (a + d * b) == 16 * a + d * (16 * b)
  {
  }

  lemma IdentityExtended(c: Curve)
    requires c.p > 1
    ensures Extended(c, IDENTITY)
  {
  }

  /**
   The numbers of the source: -121665/121666, a square root of -1, T = XY of the base point, and the base point on the
   curve.
   */
  lemma Constants()
    ensures ED25519.d < ED25519.p && (ED25519.d * 121666 + 121665) % ED25519.p == 0
    ensures ED25519.sqrtM1 < ED25519.p && (ED25519.sqrtM1 * ED25519.sqrtM1 + 1) % ED25519.p == 0
    ensures ED25519.base.x * ED25519.base.y % ED25519.p == ED25519.base.t
    ensures ED25519.Valid()
    ensures ED25519.p == SIGN_BIT - 19 && ED25519.p % 8 == 5 && (ED25519.d + 1) % ED25519.p != 0
    ensures ED25519.base.z == 1 && 5 * ED25519.base.y % ED25519.p == 4 && ED25519.base.x % 2 == 0
  {
    hide Pow256;
    Pow256Values();
    assert Pow256(32) == 0x1_0000_0000_0000_0000_0000_0000_0000_0000_0000_0000_0000_0000_0000_0000_0000_0000 by {
      Pow256Sum(8, 8);
      Pow256Sum(16, 16);
    }
  }

  lemma {:induction false} Pow256Sum(a: nat, b: nat)
    ensures Pow256(a + b) == Pow256(a) * Pow256(b)
    decreases a
  {
    if a > 0 {
      Pow256Sum(a - 1, b);
      assert 0x100 * (Pow256(a - 1) * Pow256(b)) == (0x100 * Pow256(a - 1)) * Pow256(b);
    }
  }

  // ----- Multiplication by a scalar -----

  /** What the loop computes from its three variables. */
  function MulFrom(c: Curve, result: Point, addend: Point, s: nat): Point
    requires c.p > 1
    decreases s
  {
    if s == 0 then result
    else MulFrom(c, if s % 2 == 1 then PointAdd(c, result, addend) else result, PointAdd(c, addend, addend), s / 2)
  }

  function Mul(c: Curve, scalar: nat, p: Point): Point
    requires c.p > 1
  {
    MulFrom(c, IDENTITY, p, scalar)
  }

  /** Double and add. Every point on the way is on the curve, if `p` is. */
  method PointMul(c: Curve, scalar: nat, p: Point) returns (result: Point)
    requires c.p > 1
    ensures result == Mul(c, scalar, p)
    ensures Extended(c, p) ==> Extended(c, result)
  {
    hide PointAdd, Extended;
    result := IDENTITY;
    var addend := p;
    var s := scalar;
    IdentityExtended(c);
    while s > 0
      invariant MulFrom(c, result, addend, s) == Mul(c, scalar, p)
      invariant Extended(c, p) ==> Extended(c, result) && Extended(c, addend)
      decreases s
    {
      if Extended(c, p) {
        PointAddExtended(c, result, addend);
        PointAddExtended(c, addend, addend);
      }
      if s % 2 == 1 {
        result := PointAdd(c, result, addend);
      }
      addend := PointAdd(c, addend, addend);
      s := s / 2;
    }
  }

  // ----- Bytes -----

  method BytesToBigIntLE(data: seq<byte>) returns (result: nat)
    ensures result == FromLE(data)
  {
    result := 0;
    var i := |data| - 1;
    assert data[|data|..] == [];
    while i >= 0
      invariant -1 <= i < |data|
      invariant result == FromLE(data[i + 1..])
    {
      assert data[i..][1..] == data[i + 1..];
      result := result * 0x100 + data[i];
      i := i - 1;
    }
    assert data[0..] == data;
  }

  method BigIntToBytes32LE(value: nat) returns (result: seq<byte>)
    ensures result == LE(value, 32)
  {
    var bytes := new byte[32];
    var v := value;
    LEBegins(value, 32);
    hide LE;
    assert bytes[..0] + LE(v, 32) == LE(v, 32);
    for i := 0 to 32
      invariant bytes[..i] + LE(v, 32 - i) == LE(value, 32)
    {
      ghost var was := bytes[..i];
      bytes[i] := v % 0x100;
      assert bytes[..i + 1] == was + [v % 0x100];
      LEBegins(v, 32 - i);
      ConcatAssoc(was, [v % 0x100], LE(v / 0x100, 32 - i - 1));
      v := v / 0x100;
    }
    assert |LE(v, 0)| == 0 && bytes[..32] + [] == bytes[..32];
    result := bytes[..32];
  }

  lemma LEBegins(v: nat, k: nat)
    requires k > 0
    ensures LE(v, k) == [v % 0x100] + LE(v / 0x100, k - 1)
  {
  }

  // ----- Points as bytes -----

  function PowMod(b: int, e: int, m: nat): int
    requires m > 0
  {
    if e <= 0 then 1 else Pow(b, e) % m
  }

  /** y, with the lowest bit of x in the highest bit. */
  function Encode(c: Curve, p: Point): (s: seq<byte>)
    requires c.p > 1
    ensures |s| == 32
  {
    var zInv := PowMod(p.z, c.p - 2, c.p);
    var s := LE(Mod(p.y * zInv, c.p), 32);
    if Mod(p.x * zInv, c.p) % 2 == 1 then s[31 := SetTop(s[31])] else s
  }

  function SetTop(b: byte): byte {
    if b < 0x80 then b + 0x80 else b
  }

  const SIGN_BIT: nat := 0x80000000_00000000_00000000_00000000_00000000_00000000_00000000_00000000

  function ClearSign(y: nat): nat {
    y % SIGN_BIT
  }

  /** The candidate for x: u v^3 (u v^7)^((p-5)/8). */
  function Candidate(c: Curve, u: int, v: int): (x: int)
    requires c.p > 1
    ensures 0 <= x < c.p
  {
    var v3 := Mod(v * v * v, c.p);
    var v7 := Mod(v3 * v3 * v, c.p);
    Mod(u * v3 * PowMod(Mod(u * v7, c.p), (c.p - 5) / 8, c.p), c.p)
  }

  function Decode(c: Curve, data: seq<byte>): Option<Point>
    requires c.p > 1
  {
    if |data| != 32 then None else DecodeY(c, ClearSign(FromLE(data)), data[31] / 0x80)
  }

  /** x is recovered from y by x^2 = (y^2 - 1) / (d y^2 + 1), and its sign. */
  function DecodeY(c: Curve, y: nat, xSign: nat): Option<Point>
    requires c.p > 1
  {
    if y >= c.p then None
    else
      var y2 := Mod(y * y, c.p);
      var u := Mod(y2 - 1, c.p);
      var v := Mod(c.d * y2 + 1, c.p);
      var x0 := Candidate(c, u, v);
      var vx2 := Mod(v * x0 * x0, c.p);
      if vx2 != Mod(-u, c.p) && vx2 != u then None
      else
        var x1 := if vx2 == Mod(-u, c.p) then Mod(x0 * c.sqrtM1, c.p) else x0;
        if x1 == 0 && xSign == 1 then None
        else
          var x := if x1 % 2 != xSign then c.p - x1 else x1;
          Some(Point(x, y, 1, Mod(x * y, c.p)))
  }

  /** Whatever bytes are decoded, the point is on the curve, and its x has the parity that was asked for. */
  lemma DecodedIsExtended(c: Curve, y: nat, xSign: nat)
    requires c.p > 1 && xSign <= 1 && Cong(c.sqrtM1 * c.sqrtM1, -1, c.p)
    ensures DecodeY(c, y, xSign).Some? ==>
      var point := DecodeY(c, y, xSign).value;
      Extended(c, point) && point.y == y && point.z == 1 && (c.p % 2 == 1 ==> point.x % 2 == xSign)
  {
    hide Candidate, Mod, Cong;
    if DecodeY(c, y, xSign).Some? {
      var m := c.p;
      var u, v := Mod(Mod(y * y, m) - 1, m), Mod(c.d * Mod(y * y, m) + 1, m);
      var x0 := Candidate(c, u, v);
      var point := DecodeY(c, y, xSign).value;
      Fraction(c.d, y, m);
      var x1 := if Mod(v * x0 * x0, m) == Mod(-u, m) then Mod(x0 * c.sqrtM1, m) else x0;
      RootChosen(v, x0, u, c.sqrtM1, m);
      SignChosen(x1, if x1 % 2 != xSign then m - x1 else x1, v, u, m);
      RootOnCurve(point.x, y, u, v, point.t, c.d, m);
      Quadrics(point.x, y, point.t, c.d, m);
      if m % 2 == 1 {
        Parity(m, x1, xSign);
      }
    }
  }

  lemma Parity(m: nat, x: int, sign: nat)
    requires m % 2 == 1 && sign <= 1
    ensures (if x % 2 != sign then m - x else x) % 2 == sign
  {
  }

  lemma Quadrics(x: int, y: int, t: int, d: int, m: nat)
    requires m > 0 && t == Mod(x * y, m) && Cong(y * y - x * x, 1 + d * (t * t), m)
    ensures OnQuadrics(x, y, 1, t, d, m)
  {
    CongMod(x * y, m);
  }

  lemma Fraction(d: nat, y: nat, m: nat)
    requires m > 0
    ensures Cong(Mod(Mod(y * y, m) - 1, m), y * y - 1, m)
    ensures Cong(Mod(d * Mod(y * y, m) + 1, m), d * (y * y) + 1, m)
  {
    var yy, y2 := y * y, Mod(y * y, m);
    CongMod(yy, m);
    CongAdd(y2, yy, 1, 1, m);
    CongMod(y2 - 1, m);
    CongMul(d, d, y2, yy, m);
    CongAdd(d * y2, d * yy, 1, 1, m);
    CongMod(d * y2 + 1, m);
  }

  /** The candidate, or the candidate times the root of -1, is a root of u/v. */
  lemma RootChosen(v: int, x0: int, u: int, root: int, m: nat)
    requires m > 0 && Cong(root * root, -1, m)
    requires Mod(v * x0 * x0, m) == Mod(-u, m) || Mod(v * x0 * x0, m) == u
    ensures var x1 := if Mod(v * x0 * x0, m) == Mod(-u, m) then Mod(x0 * root, m) else x0;
      Cong(v * (x1 * x1), u, m)
  {
    var w := x0 * x0;
    assert v * x0 * x0 == v * w;
    CongMod(v * w, m);
    if Mod(v * w, m) == Mod(-u, m) {
      assert Cong(v * w, -u, m);
      RootOfMinus(v, x0, u, root, m);
    }
  }

  lemma SignChosen(x1: int, x: int, v: int, u: int, m: nat)
    requires m > 0 && (x == x1 || x == m - x1) && Cong(v * (x1 * x1), u, m)
    ensures Cong(v * (x * x), u, m)
  {
    if x != x1 {
      Squares(m, x1);
      assert m * (m - 2 * x1) == m * m - 2 * (m * x1);
      CongByDifference(x * x, x1 * x1, m - 2 * x1, m);
      CongMul(v, v, x * x, x1 * x1, m);
    }
  }

  lemma RootOfMinus(v: int, x: int, u: int, root: int, m: nat)
    requires m > 0 && Cong(v * (x * x), -u, m) && Cong(root * root, -1, m)
    ensures Cong(v * ((x * root % m) * (x * root % m)), u, m)
  {
    hide Cong;
    var r, xx, rr := x * root % m, x * x, root * root;
    CongMod(x * root, m);
    CongMul(r, x * root, r, x * root, m);
    Shuffle(x, root, x, root);
    CongMul(v, v, r * r, xx * rr, m);
    assert v * (xx * rr) == (v * xx) * rr;
    CongMul(v * xx, -u, rr, -1, m);
    assert (-u) * (-1) == u;
    CongTrans(v * (r * r), v * (xx * rr), u, m);
  }

  lemma CongTrans(a: int, b: int, c: int, m: nat)
    requires m > 0 && Cong(a, b, m) && Cong(b, c, m)
    ensures Cong(a, c, m) && Cong(c, a, m)
  {
  }

  lemma RootOnCurve(x: int, y: int, u: int, v: int, t: int, d: int, m: nat)
    requires m > 0 && Cong(v * (x * x), u, m) && Cong(u, y * y - 1, m) && Cong(v, d * (y * y) + 1, m)
      && t == Mod(x * y, m)
    ensures Cong(y * y - x * x, 1 + d * (t * t), m)
  {
    var xx, yy, tt := x * x, y * y, t * t;
    CongMod(x * y, m);
    CongMul(x * y, t, x * y, t, m);
    Shuffle(x, y, x, y);
    CongMul(d, d, xx * yy, tt, m);
    CongMul(v, d * yy + 1, xx, xx, m);
    PlusOneTimes(d, xx, yy);
    LastStep(v * xx, d * (xx * yy), xx, yy, u, d * tt, m);
  }

  lemma PlusOneTimes(d: int, xx: int, yy: int)
    ensures (d * yy + 1) * xx == d * (xx * yy) + xx
  {
  }

  lemma LastStep(vxx: int, k: int, xx: int, yy: int, u: int, dtt: int, m: nat)
    requires m > 0 && Cong(vxx, k + xx, m) && Cong(vxx, u, m) && Cong(u, yy - 1, m) && Cong(k, dtt, m)
    ensures Cong(yy - xx, 1 + dtt, m)
  {
    CongAdd(k + xx, yy - 1, xx, xx, m);
    CongAdd(k, dtt, 1, 1, m);
    CongAdd(k + xx - xx, yy - 1 - xx, 1, 1, m);
  }

  method EncodePoint(c: Curve, p: Point) returns (result: seq<byte>)
    requires c.p > 1
    ensures result == Encode(c, p)
  {
    hide Pow, LE, Mod;
    var zInv := ModPow(p.z, c.p - 2, c.p);
    var xAffine := Mod(p.x * zInv, c.p);
    var yAffine := Mod(p.y * zInv, c.p);
    result := BigIntToBytes32LE(yAffine);
    if xAffine % 2 == 1 {
      result := result[31 := SetTop(result[31])];
    }
  }

  method DecodePoint(c: Curve, data: seq<byte>) returns (point: Option<Point>)
    requires c.p > 1
    ensures point == Decode(c, data)
  {
    if |data| != 32 {
      return None;
    }
    var xSign := data[31] / 0x80;
    var y := BytesToBigIntLE(data);
    y := ClearSign(y);
    if y >= c.p {
      return None;
    }
    var y2 := Mod(y * y, c.p);
    var u := Mod(y2 - 1, c.p);
    var v := Mod(c.d * y2 + 1, c.p);
    var v3 := Mod(v * v * v, c.p);
    var v7 := Mod(v3 * v3 * v, c.p);
    var root := ModPow(Mod(u * v7, c.p), (c.p - 5) / 8, c.p);
    var x := Mod(u * v3 * root, c.p);
    assert x == Candidate(c, u, v);
    var vx2 := Mod(v * x * x, c.p);
    if vx2 == Mod(-u, c.p) {
      x := Mod(x * c.sqrtM1, c.p);
    } else if vx2 != u {
      return None;
    }
    if x == 0 && xSign == 1 {
      return None;
    }
    if x % 2 != xSign {
      x := c.p - x;
    }
    return Some(Point(x, y, 1, Mod(x * y, c.p)));
  }

  // ----- Signatures -----

  type Hash = seq<byte> -> seq<byte>

  ghost predicate Is512(sha: Hash) {
    forall data: seq<byte> :: |sha(data)| == 64
  }

  /** The first half of the hash, clamped, is the secret scalar (RFC 8032, section 5.1.5). */
  function Clamp(az: seq<byte>): nat
    requires |az| == 64
  {
    FromLE([az[0] - az[0] % 8] + az[1..31] + [az[31] % 0x40 + 0x40])
  }

  function Hashed(c: Curve, sha: Hash, data: seq<byte>): nat
    requires c.l > 0
  {
    Mod(FromLE(sha(data)), c.l)
  }

  function PublicKey(c: Curve, sha: Hash, seed: seq<byte>): (s: seq<byte>)
    requires c.Valid() && |sha(seed)| == 64
    ensures |s| == 32
  {
    Encode(c, Mul(c, Clamp(sha(seed)), c.base))
  }

  function Sign(c: Curve, sha: Hash, seed: seq<byte>, message: seq<byte>): (s: seq<byte>)
    requires c.Valid() && |sha(seed)| == 64
    ensures |s| == 64
  {
    var scalar, publicKey := Clamp(sha(seed)), PublicKey(c, sha, seed);
    var r := Hashed(c, sha, sha(seed)[32..] + message);
    var rPoint := Encode(c, Mul(c, r, c.base));
    var k := Hashed(c, sha, rPoint + publicKey + message);
    rPoint + LE(Mod(r + k * scalar, c.l), 32)
  }

  predicate Verify(c: Curve, sha: Hash, publicKey: seq<byte>, message: seq<byte>, signature: seq<byte>)
    requires c.Valid()
  {
    && |signature| == 64 && |publicKey| == 32
    && var rBytes, s := signature[..32], FromLE(signature[32..]);
    && s < c.l
    && var aPoint, rPoint := Decode(c, publicKey), Decode(c, rBytes);
    && aPoint.Some? && rPoint.Some?
    && var k := Hashed(c, sha, rBytes + publicKey + message);
    Encode(c, Mul(c, s, c.base)) == Encode(c, PointAdd(c, rPoint.value, Mul(c, k, aPoint.value)))
  }

  method Ed25519Sign(c: Curve, sha: Hash, seed: seq<byte>, message: seq<byte>) returns (signature: seq<byte>)
    requires c.Valid() && Is512(sha)
    ensures signature == Sign(c, sha, seed, message)
  {
    hide Mul, Encode, FromLE, LE, Clamp, Hashed, Mod;
    var az := sha(seed);
    assert |az| == 64;
    var scalar := BytesToBigIntLE([az[0] - az[0] % 8] + az[1..31] + [az[31] % 0x40 + 0x40]);
    assert scalar == Clamp(az) by {
      ClampIs(az);
    }
    var point := PointMul(c, scalar, c.base);
    var publicKey := EncodePoint(c, point);
    var n := BytesToBigIntLE(sha(az[32..] + message));
    var r := Mod(n, c.l);
    HashedIs(c, sha, az[32..] + message);
    point := PointMul(c, r, c.base);
    var rPoint := EncodePoint(c, point);
    n := BytesToBigIntLE(sha(rPoint + publicKey + message));
    var k := Mod(n, c.l);
    HashedIs(c, sha, rPoint + publicKey + message);
    var s := BigIntToBytes32LE(Mod(r + k * scalar, c.l));
    signature := rPoint + s;
  }

  lemma ClampIs(az: seq<byte>)
    requires |az| == 64
    ensures Clamp(az) == FromLE([az[0] - az[0] % 8] + az[1..31] + [az[31] % 0x40 + 0x40])
  {
  }

  lemma HashedIs(c: Curve, sha: Hash, data: seq<byte>)
    requires c.Valid()
    ensures Hashed(c, sha, data) == Mod(FromLE(sha(data)), c.l)
  {
  }

  method Ed25519Verify(c: Curve, sha: Hash, publicKey: seq<byte>, message: seq<byte>, signature: seq<byte>)
    returns (ok: bool)
    requires c.Valid()
    ensures ok == Verify(c, sha, publicKey, message, signature)
  {
    hide Mul, Encode, Decode, PointAdd, FromLE, Mod, Hashed;
    if |signature| != 64 || |publicKey| != 32 {
      return false;
    }
    var rBytes := signature[..32];
    var s := BytesToBigIntLE(signature[32..]);
    if s >= c.l {
      return false;
    }
    var aPoint := DecodePoint(c, publicKey);
    var rPoint := DecodePoint(c, rBytes);
    if aPoint.None? || rPoint.None? {
      return false;
    }
    var n := BytesToBigIntLE(sha(rBytes + publicKey + message));
    var k := Mod(n, c.l);
    HashedIs(c, sha, rBytes + publicKey + message);
    var sB := PointMul(c, s, c.base);
    var lhs := EncodePoint(c, sB);
    var kA := PointMul(c, k, aPoint.value);
    var rhs := EncodePoint(c, PointAdd(c, rPoint.value, kA));
    ok := true;
    for i := 0 to 32
      invariant ok == (lhs[..i] == rhs[..i])
    {
      assert lhs[..i + 1] == lhs[..i] + [lhs[i]] && rhs[..i + 1] == rhs[..i] + [rhs[i]];
      ok := ok && lhs[i] == rhs[i];
    }
    assert lhs[..32] == lhs && rhs[..32] == rhs;
  }
}
