/**
 Why the signatures of `Ed25519` verify: the field and the curve as mathematics, what a point of the program stands for,
 that decoding undoes encoding, and the equations of a signature in the group of the curve.
 */
module Ed25519Laws {
  import opened Bytes
  import opened Results
  import opened Ed25519

  // ----- The field and the curve, as mathematics -----

  /** What is taken for granted of the prime: no zero divisors, and Fermat's little theorem. */
  ghost predicate FieldLaws(c: Curve)
    requires c.p > 1
  {
    && c.p % 8 == 5 && c.p < SIGN_BIT && Cong(c.sqrtM1 * c.sqrtM1, -1, c.p) && (c.d + 1) % c.p != 0
    && Domain(c.p) && Fermat(c.p)
  }

  ghost predicate Domain(m: nat)
    requires m > 0
  {
    forall a: int, b: int :: (a * b) % m == 0 ==> a % m == 0 || b % m == 0
  }

  ghost predicate Fermat(m: nat)
    requires m > 0
  {
    forall a: int :: a % m != 0 ==> Pow(a, m - 1) % m == 1
  }

  /** A point of the curve by its two coordinates. */
  datatype Affine = Affine(x: int, y: int)

  predicate OnCurve(c: Curve, a: Affine)
    requires c.p > 1
  {
    && 0 <= a.x < c.p && 0 <= a.y < c.p
    && Cong(a.y * a.y - a.x * a.x, 1 + c.d * ((a.x * a.y) * (a.x * a.y)), c.p)
  }

  /** The addition law: the quotients of RFC 8032, section 5.1.4, without the division. */
  predicate IsSum(c: Curve, a: Affine, b: Affine, s: Affine)
    requires c.p > 1
  {
    var k := c.d * ((a.x * a.y) * (b.x * b.y));
    && Cong(s.x * (1 + k), a.x * b.y + a.y * b.x, c.p)
    && Cong(s.y * (1 - k), a.y * b.y + a.x * b.x, c.p)
  }

  /** An abstract group, and the element that a point stands for. */
  datatype Group<!G(!new)> = Group(zero: G, add: (G, G) -> G, value: Affine -> G)

  ghost function Times<G(!new)>(g: Group<G>, n: nat, a: G): G {
    if n == 0 then g.zero else g.add(a, Times(g, n - 1, a))
  }

  ghost predicate Abelian<G(!new)>(g: Group<G>) {
    && (forall a, b :: g.add(a, b) == g.add(b, a))
    && (forall a, b, d :: g.add(g.add(a, b), d) == g.add(a, g.add(b, d)))
    && (forall a :: g.add(g.zero, a) == a)
  }

  /**
   The mathematics of the curve that is taken for granted: its points are a group under the addition law, whose
   denominators are never zero, and the order of the base point. Nothing of it speaks of the program.
   */
  ghost predicate CurveLaws<G(!new)>(c: Curve, g: Group<G>)
    requires c.Valid()
  {
    && FieldLaws(c) && Abelian(g) && Complete(c) && AddsAs(c, g) && Faithful(c, g)
    && g.value(Affine(0, 1)) == g.zero && c.base.z == 1
    && Times(g, c.l, g.value(Affine(c.base.x, c.base.y))) == g.zero
  }

  ghost predicate Complete(c: Curve)
    requires c.p > 1
  {
    forall a, b :: OnCurve(c, a) && OnCurve(c, b) ==>
      var k := c.d * ((a.x * a.y) * (b.x * b.y)); (1 + k) % c.p != 0 && (1 - k) % c.p != 0
  }

  ghost predicate AddsAs<G(!new)>(c: Curve, g: Group<G>)
    requires c.p > 1
  {
    forall a, b, s :: OnCurve(c, a) && OnCurve(c, b) && OnCurve(c, s) && IsSum(c, a, b, s) ==>
      g.value(s) == g.add(g.value(a), g.value(b))
  }

  ghost predicate Faithful<G(!new)>(c: Curve, g: Group<G>)
    requires c.p > 1
  {
    forall a, b :: OnCurve(c, a) && OnCurve(c, b) && g.value(a) == g.value(b) ==> a == b
  }

  lemma NoDivisors(a: int, b: int, m: nat)
    requires m > 0 && Domain(m)
    ensures a % m != 0 && b % m != 0 ==> (a * b) % m != 0
  {
  }

  lemma Cancel(w: int, a: int, b: int, m: nat)
    requires m > 0 && Domain(m) && w % m != 0 && Cong(w * a, w * b, m)
    ensures Cong(a, b, m)
  {
    hide Domain;
    NoDivisors(w, a - b, m);
    CongAdd(w * a, w * b, w * b, w * b, m);
    assert w * a - w * b == w * (a - b) && w * b - w * b == 0;
    assert 0 % m == 0 by { ModUnique(0, m, 0, 0); }
    assert (a - b) % m == 0;
    CongAdd(a - b, 0, b, b, m);
  }

  lemma Inverse(c: Curve, z: int)
    requires c.p > 1 && FieldLaws(c) && z % c.p != 0
    ensures Cong(z * PowMod(z, c.p - 2, c.p), 1, c.p)
  {
    var m := c.p;
    CongMod(Pow(z, m - 2), m);
    CongMul(z, z, PowMod(z, m - 2, m), Pow(z, m - 2), m);
    assert z * Pow(z, m - 2) == Pow(z, m - 1);
    ModUnique(1, m, 0, 1);
  }

  // ----- A point and its two coordinates -----

  predicate Proper(c: Curve, p: Point)
    requires c.p > 1
  {
    Extended(c, p) && p.z != 0
  }

  function AffineOf(c: Curve, p: Point): (a: Affine)
    requires c.p > 1
    ensures 0 <= a.x < c.p && 0 <= a.y < c.p
  {
    var zInv := PowMod(p.z, c.p - 2, c.p);
    Affine(Mod(p.x * zInv, c.p), Mod(p.y * zInv, c.p))
  }

  /** Dividing by z: the two coordinates times z are x and y, and their product times z is t. */
  lemma AffineMeans(c: Curve, p: Point)
    requires c.p > 1 && FieldLaws(c) && Proper(c, p)
    ensures var a := AffineOf(c, p);
      p.z % c.p != 0 && Cong(p.z * a.x, p.x, c.p) && Cong(p.z * a.y, p.y, c.p) && Cong(p.z * (a.x * a.y), p.t, c.p)
  {
    var m, z, a := c.p, p.z, AffineOf(c, p);
    var zi := PowMod(z, m - 2, m);
    ProperMeans(c, p);
    Inverse(c, z);
    hide Domain, Fermat, PowMod, Mod, Extended;
    assert a == Affine(Mod(p.x * zi, m), Mod(p.y * zi, m));
    Divided(z, zi, p.x, m);
    Divided(z, zi, p.y, m);
    hide AffineOf, Cong;
    ThirdCoordinate(z, a.x, a.y, p.x, p.y, p.t, m);
  }

  lemma ProperMeans(c: Curve, p: Point)
    requires c.p > 1 && Proper(c, p)
    ensures p.z % c.p != 0 && OnQuadrics(p.x, p.y, p.z, p.t, c.d, c.p) && 0 <= p.x < c.p && 0 <= p.y < c.p
  {
    ModUnique(p.z, c.p, 0, p.z);
  }

  lemma ThirdCoordinate(z: int, a: int, b: int, x: int, y: int, t: int, m: nat)
    requires m > 0 && Domain(m) && z % m != 0 && Cong(z * a, x, m) && Cong(z * b, y, m) && Cong(x * y, z * t, m)
    ensures Cong(z * (a * b), t, m)
  {
    CongMul(z * a, x, z * b, y, m);
    Shuffle(z, a, z, b);
    assert (z * z) * (a * b) == z * (z * (a * b));
    Cancel(z, z * (a * b), t, m);
  }

  lemma Divided(z: int, zi: int, x: int, m: nat)
    requires m > 0 && Cong(z * zi, 1, m)
    ensures Cong(z * Mod(x * zi, m), x, m)
  {
    CongMod(x * zi, m);
    CongMul(z, z, Mod(x * zi, m), x * zi, m);
    CongMul(x, x, z * zi, 1, m);
    assert z * (x * zi) == x * (z * zi);
  }

  lemma AffineOnCurve(c: Curve, p: Point)
    requires c.p > 1 && FieldLaws(c) && Proper(c, p)
    ensures OnCurve(c, AffineOf(c, p))
  {
    hide AffineOf, Fermat, Domain, Cong, Extended;
    var m, z, a := c.p, p.z, AffineOf(c, p);
    AffineMeans(c, p);
    ProperMeans(c, p);
    DividedOnCurve(z, a.x, a.y, p.x, p.y, p.t, c.d, m);
  }

  lemma DividedOnCurve(z: int, a: int, b: int, x: int, y: int, t: int, d: int, m: nat)
    requires m > 0 && Domain(m) && z % m != 0 && Cong(z * a, x, m) && Cong(z * b, y, m) && Cong(z * (a * b), t, m)
    requires Cong(y * y - x * x, z * z + d * (t * t), m)
    ensures Cong(b * b - a * a, 1 + d * ((a * b) * (a * b)), m)
  {
    hide Domain;
    var xy := a * b;
    CongMul(z * a, x, z * a, x, m);
    CongMul(z * b, y, z * b, y, m);
    CongMul(z * xy, t, z * xy, t, m);
    CongMul(d, d, (z * xy) * (z * xy), t * t, m);
    CongAdd((z * b) * (z * b), y * y, (z * a) * (z * a), x * x, m);
    CongAdd(z * z, z * z, d * ((z * xy) * (z * xy)), d * (t * t), m);
    Scaled(z, a, b, d, xy);
    NoDivisors(z, z, m);
    Cancel(z * z, b * b - a * a, 1 + d * (xy * xy), m);
  }

  lemma Scaled(z: int, x: int, y: int, d: int, t: int)
    ensures (z * y) * (z * y) - (z * x) * (z * x) == (z * z) * (y * y - x * x)
    ensures z * z + d * ((z * t) * (z * t)) == (z * z) * (1 + d * (t * t))
  {
    Shuffle(z, y, z, y);
    Shuffle(z, x, z, x);
    Shuffle(z, t, z, t);
    assert d * ((z * z) * (t * t)) == (z * z) * (d * (t * t));
    assert (z * z) * (1 + d * (t * t)) == z * z + (z * z) * (d * (t * t));
    assert (z * z) * (y * y - x * x) == (z * z) * (y * y) - (z * z) * (x * x);
  }

  /** The sum of two points, by its two coordinates, is what the addition law says. */
  lemma PointAddIsSum(c: Curve, p: Point, q: Point)
    requires c.p > 1 && FieldLaws(c) && Complete(c) && Proper(c, p) && Proper(c, q)
    ensures Proper(c, PointAdd(c, p, q)) && IsSum(c, AffineOf(c, p), AffineOf(c, q), AffineOf(c, PointAdd(c, p, q)))
  {
    hide AffineOf, PointAdd, Fermat, Domain, Complete, Extended, OnCurve, Cong, Mod;
    var m, a, b, r := c.p, AffineOf(c, p), AffineOf(c, q), PointAdd(c, p, q);
    ProperMeans(c, p);
    ProperMeans(c, q);
    var e, h := p.x * q.y + p.y * q.x, p.y * q.y + p.x * q.x;
    var f, g := p.z * q.z - c.d * (p.t * q.t), p.z * q.z + c.d * (p.t * q.t);
    var w, k := p.z * q.z, c.d * ((a.x * a.y) * (b.x * b.y));
    AffineMeans(c, p);
    AffineMeans(c, q);
    AffineOnCurve(c, p);
    AffineOnCurve(c, q);
    PointAddExtended(c, p, q);
    SumCoordinates(c, p, q);
    Halves(p, q, a, b, c.d, m);
    CompleteFor(c, a, b);
    SumNotZero(w, k, f, g, p.z, q.z, r.z, m);
    AffineMeans(c, r);
    var s := AffineOf(c, r);
    SumOfQuotients(r.x, r.z, s.x, e, f, g, w, a.x * b.y + a.y * b.x, 1 + k, m);
    SumOfQuotients(r.y, r.z, s.y, h, g, f, w, a.y * b.y + a.x * b.x, 1 - k, m);
  }

  lemma FourNotZero(m: nat)
    requires m % 8 == 5
    ensures 4 % m != 0
  {
    assert m >= 5;
    ModUnique(4, m, 0, 4);
  }

  lemma CompleteFor(c: Curve, a: Affine, b: Affine)
    requires c.p > 1 && Complete(c) && OnCurve(c, a) && OnCurve(c, b)
    ensures var k := c.d * ((a.x * a.y) * (b.x * b.y)); (1 + k) % c.p != 0 && (1 - k) % c.p != 0
  {
    hide OnCurve;
  }

  lemma SumNotZero(w: int, k: int, f: int, g: int, z1: int, z2: int, z: int, m: nat)
    requires m % 8 == 5 && Domain(m) && z1 % m != 0 && z2 % m != 0 && w == z1 * z2
    requires (1 + k) % m != 0 && (1 - k) % m != 0 && Cong(f, w * (1 - k), m) && Cong(g, w * (1 + k), m)
    requires Cong(z, 4 * (f * g), m)
    ensures w % m != 0 && z % m != 0 && z != 0
  {
    hide Domain;
    NoDivisors(z1, z2, m);
    NoDivisors(w, 1 - k, m);
    NoDivisors(w, 1 + k, m);
    NoDivisors(f, g, m);
    FourNotZero(m);
    NoDivisors(4, f * g, m);
    ModUnique(0, m, 0, 0);
  }

  /** The coordinates of the sum, up to the common factor 4. */
  lemma SumCoordinates(c: Curve, p: Point, q: Point)
    requires c.p > 1
    ensures var r := PointAdd(c, p, q);
      var e, h := p.x * q.y + p.y * q.x, p.y * q.y + p.x * q.x;
      var f, g := p.z * q.z - c.d * (p.t * q.t), p.z * q.z + c.d * (p.t * q.t);
      && Cong(r.x, 4 * (e * f), c.p) && Cong(r.y, 4 * (h * g), c.p)
      && Cong(r.z, 4 * (f * g), c.p) && Cong(r.z, 4 * (g * f), c.p)
  {
    var m := c.p;
    var a, b := Mod((p.y - p.x) * (q.y - q.x), m), Mod((p.y + p.x) * (q.y + q.x), m);
    var cc, dd := Mod(p.t * 2 * c.d * q.t, m), Mod(p.z * 2 * q.z, m);
    var e, h := p.x * q.y + p.y * q.x, p.y * q.y + p.x * q.x;
    var f, g := p.z * q.z - c.d * (p.t * q.t), p.z * q.z + c.d * (p.t * q.t);
    hide Cong;
    Intermediates(p, q, c.d, m);
    hide Mod;
    FourCoordinates(b - a, dd - cc, dd + cc, b + a, e, f, g, h, m);
  }

  lemma FourCoordinates(e': int, f': int, g': int, h': int, e: int, f: int, g: int, h: int, m: nat)
    requires m > 0 && Cong(e', 2 * e, m) && Cong(f', 2 * f, m) && Cong(g', 2 * g, m) && Cong(h', 2 * h, m)
    ensures Cong(Mod(e' * f', m), 4 * (e * f), m) && Cong(Mod(g' * h', m), 4 * (h * g), m)
    ensures Cong(Mod(f' * g', m), 4 * (f * g), m) && Cong(Mod(f' * g', m), 4 * (g * f), m)
  {
    hide Cong;
    Coordinate(e', f', e, f, m);
    Coordinate(g', h', g, h, m);
    Coordinate(f', g', f, g, m);
    assert g * h == h * g && f * g == g * f;
  }

  /** The halved intermediate values, by the coordinates of the two points. */
  lemma Halves(p: Point, q: Point, a: Affine, b: Affine, d: nat, m: nat)
    requires m > 0 && Cong(p.z * a.x, p.x, m) && Cong(p.z * a.y, p.y, m) && Cong(p.z * (a.x * a.y), p.t, m)
    requires Cong(q.z * b.x, q.x, m) && Cong(q.z * b.y, q.y, m) && Cong(q.z * (b.x * b.y), q.t, m)
    ensures var w, k := p.z * q.z, d * ((a.x * a.y) * (b.x * b.y));
      && Cong(p.x * q.y + p.y * q.x, w * (a.x * b.y + a.y * b.x), m)
      && Cong(p.y * q.y + p.x * q.x, w * (a.y * b.y + a.x * b.x), m)
      && Cong(p.z * q.z - d * (p.t * q.t), w * (1 - k), m)
      && Cong(p.z * q.z + d * (p.t * q.t), w * (1 + k), m)
  {
    var w, tt := p.z * q.z, (a.x * a.y) * (b.x * b.y);
    Times2(p.z, q.z, a.x, b.y, p.x, q.y, m);
    Times2(p.z, q.z, a.y, b.x, p.y, q.x, m);
    Times2(p.z, q.z, a.y, b.y, p.y, q.y, m);
    Times2(p.z, q.z, a.x, b.x, p.x, q.x, m);
    Times2(p.z, q.z, a.x * a.y, b.x * b.y, p.t, q.t, m);
    CongAdd(p.x * q.y, w * (a.x * b.y), p.y * q.x, w * (a.y * b.x), m);
    CongAdd(p.y * q.y, w * (a.y * b.y), p.x * q.x, w * (a.x * b.x), m);
    CongMul(d, d, p.t * q.t, w * tt, m);
    CongAdd(w, w, d * (p.t * q.t), d * (w * tt), m);
    Spread(w, a.x * b.y, a.y * b.x);
    Spread(w, a.y * b.y, a.x * b.x);
    Spread(w, 1, d * tt);
    assert d * (w * tt) == w * (d * tt);
  }

  lemma Times2(z: int, z': int, a: int, b: int, x: int, y: int, m: nat)
    requires m > 0 && Cong(z * a, x, m) && Cong(z' * b, y, m)
    ensures Cong(x * y, (z * z') * (a * b), m)
  {
    CongMul(z * a, x, z' * b, y, m);
    Shuffle(z, a, z', b);
  }

  lemma Spread(w: int, a: int, b: int)
    ensures w * (a + b) == w * a + w * b && w * (a - b) == w * a - w * b
  {
  }

  /** X/Z, with X = 4ef and Z = 4fg, is the quotient of e by g. */
  lemma SumOfQuotients(x: int, z: int, s: int, e: int, f: int, g: int, w: int, num: int, den: int, m: nat)
    requires m > 0 && Domain(m) && z % m != 0 && w % m != 0
    requires Cong(z * s, x, m) && Cong(x, 4 * (e * f), m) && Cong(z, 4 * (f * g), m)
    requires Cong(e, w * num, m) && Cong(g, w * den, m)
    ensures Cong(s * den, num, m)
  {
    hide Domain, Cong;
    var k, j := 4 * (e * f), 4 * (f * g);
    CongTrans(z * s, x, k, m);
    CongMul(z * s, k, g, g, m) by { CongSame(g, m); }
    CongMul(z, j, e, e, m) by { CongSame(e, m); }
    Exchange(e, f, g);
    assert (z * s) * g == z * (s * g);
    CongTrans(z * e, j * e, z * (s * g), m) by { CongSame(0, m); CongBack(z * (s * g), k * g, m); }
    Cancel(z, s * g, e, m) by { CongBack(z * e, z * (s * g), m); }
    CongMul(s, s, g, w * den, m) by { CongSame(s, m); }
    assert s * (w * den) == w * (s * den);
    CongBack(s * g, w * (s * den), m);
    CongTrans(w * (s * den), s * g, e, m);
    CongTrans(w * (s * den), e, w * num, m);
    Cancel(w, s * den, num, m);
  }

  lemma Exchange(e: int, f: int, g: int)
    ensures (4 * (e * f)) * g == (4 * (f * g)) * e
  {
    assert (e * f) * g == (f * g) * e;
  }

  lemma CongSame(a: int, m: nat)
    requires m > 0
    ensures Cong(a, a, m)
  {
  }

  lemma CongBack(a: int, b: int, m: nat)
    requires m > 0 && Cong(a, b, m)
    ensures Cong(b, a, m)
  {
  }

  // ----- Decoding undoes encoding -----

  /** The 32 bytes of a number, with one more bit at the top. */
  lemma TopBit(n: nat, odd: bool)
    requires n < SIGN_BIT
    ensures var s := LE(n, 32);
      var t := if odd then s[31 := SetTop(s[31])] else s;
      FromLE(t) == (if odd then n + SIGN_BIT else n) && t[31] / 0x80 == (if odd then 1 else 0)
  {
    hide LE, FromLE, Pow256;
    var s := LE(n, 32);
    SignBitIs();
    LERoundTrip(n, 32) by { assert Pow256(32) == 2 * SIGN_BIT; }
    LastByte(s);
    assert Pow256(31) * 0x80 == SIGN_BIT;
    assert s[31] < 0x80;
    if odd {
      var t := s[31 := s[31] + 0x80];
      assert t[..31] == s[..31];
      LastByte(t);
    }
  }

  lemma SignBitIs()
    ensures Pow256(32) == 2 * SIGN_BIT && Pow256(31) * 0x80 == SIGN_BIT
  {
    hide Pow256;
    Pow256Values();
    Pow256Sum(8, 8);
    Pow256Sum(16, 16);
    Pow256Sum(1, 31);
  }

  lemma {:induction false} FromLESum(s: seq<byte>, t: seq<byte>)
    ensures FromLE(s + t) == FromLE(s) + Pow256(|s|) * FromLE(t)
    decreases |s|
  {
    hide FromLE, Pow256;
    if s == [] {
      assert s + t == t && FromLE([]) == 0 && Pow256(0) == 1 by { EmptyIsZero(); }
    } else {
      var rest := s[1..];
      assert (s + t)[1..] == rest + t;
      FromLEBegins(s);
      FromLEBegins(s + t);
      FromLESum(rest, t);
      Carry(s[0], FromLE(rest), Pow256(|rest|), FromLE(t));
    }
  }

  lemma Carry(b: int, r: int, w: int, n: int)
    ensures b + 0x100 * (r + w * n) == b + 0x100 * r + (0x100 * w) * n
  {
  }

  lemma EmptyIsZero()
    ensures FromLE([]) == 0 && Pow256(0) == 1
  {
  }

  lemma FromLEBegins(s: seq<byte>)
    requires s != []
    ensures FromLE(s) == s[0] + 0x100 * FromLE(s[1..]) && Pow256(|s|) == 0x100 * Pow256(|s[1..]|)
  {
  }

  /** The number of 32 bytes by its last byte. */
  lemma LastByte(s: seq<byte>)
    requires |s| == 32
    ensures FromLE(s) == FromLE(s[..31]) + Pow256(31) * s[31] && FromLE(s[..31]) < Pow256(31)
    ensures FromLE(s) >= SIGN_BIT <==> s[31] >= 0x80
  {
    hide FromLE, Pow256;
    assert s == s[..31] + [s[31]];
    FromLESum(s[..31], [s[31]]);
    FromLEUnroll([s[31]]);
    SignBitIs();
    if s[31] >= 0x80 {
      MulMonotone(Pow256(31), 0x80, s[31]);
    } else {
      MulMonotone(Pow256(31), s[31], 0x7F);
    }
  }

  /** The bytes of a point are y and, in the highest bit, the parity of x (RFC 8032, section 5.1.2). */
  lemma EncodedMeans(c: Curve, p: Point)
    requires 1 < c.p < SIGN_BIT
    ensures var a := AffineOf(c, p);
      var s := Encode(c, p);
      FromLE(s) == a.y + (if a.x % 2 == 1 then SIGN_BIT else 0) && s[31] / 0x80 == a.x % 2
  {
    hide LE, FromLE, AffineOf, Encode;
    var a := AffineOf(c, p);
    EncodeIsOfCoordinates(c, p);
    TopBit(a.y, a.x % 2 == 1);
  }

  /** The point of the two coordinates comes back from its bytes. */
  lemma DecodeUndoesEncode(c: Curve, p: Point)
    requires c.p > 1 && FieldLaws(c) && Proper(c, p)
    ensures var a := AffineOf(c, p);
      var q := Point(a.x, a.y, 1, Mod(a.x * a.y, c.p));
      Decode(c, Encode(c, p)) == Some(q) && Proper(c, q) && AffineOf(c, q) == a
  {
    hide FromLE, AffineOf, Encode, DecodeY, Domain, Fermat, Extended, Mod, OnCurve;
    var a := AffineOf(c, p);
    AffineOnCurve(c, p);
    EncodedMeans(c, p);
    SignCleared(a.y, a.x % 2 == 1);
    hide ClearSign;
    RootFound(c, a);
    OverOne(c, Point(a.x, a.y, 1, Mod(a.x * a.y, c.p)));
    DecodedIsExtended(c, a.y, a.x % 2);
  }

  lemma SignCleared(y: nat, odd: bool)
    requires y < SIGN_BIT
    ensures ClearSign(if odd then y + SIGN_BIT else y) == y
  {
  }

  /** From y and the parity of x, x is found. */
  lemma RootFound(c: Curve, a: Affine)
    requires c.p > 1 && FieldLaws(c) && OnCurve(c, a)
    ensures DecodeY(c, a.y, a.x % 2) == Some(Point(a.x, a.y, 1, Mod(a.x * a.y, c.p)))
  {
    hide Fermat, Candidate, Mod, Cong;
    var m := c.p;
    var y2 := Mod(a.y * a.y, m);
    var u, v := Mod(y2 - 1, m), Mod(c.d * y2 + 1, m);
    var x0 := Candidate(c, u, v);
    var vx2 := Mod(v * x0 * x0, m);
    Fraction(c.d, a.y, m);
    FractionOfRoot(c, a, u, v);
    CandidateIsRoot(c, a.x, u, v);
    assert vx2 == Mod(-u, m) || vx2 == u;
    var x1 := if vx2 == Mod(-u, m) then Mod(x0 * c.sqrtM1, m) else x0;
    RootChosen(v, x0, u, c.sqrtM1, m);
    TwoRoots(x1, a.x, u, v, m);
  }

  /** u/v is the square of x, and v is not zero. */
  lemma FractionOfRoot(c: Curve, a: Affine, u: int, v: int)
    requires c.p > 1 && FieldLaws(c) && OnCurve(c, a)
    requires Cong(u, a.y * a.y - 1, c.p) && Cong(v, c.d * (a.y * a.y) + 1, c.p)
    ensures Cong(u, v * (a.x * a.x), c.p) && v % c.p != 0
  {
    hide Fermat, Domain;
    var m, xx, yy, tt := c.p, a.x * a.x, a.y * a.y, (a.x * a.y) * (a.x * a.y);
    Shuffle(a.x, a.y, a.x, a.y);
    CongMul(v, c.d * yy + 1, xx, xx, m);
    PlusOneTimes(c.d, xx, yy);
    CongAdd(yy - xx, 1 + c.d * tt, xx - 1, xx - 1, m);
    if v % m == 0 {
      CongMod(0, m);
      ModUnique(0, m, 0, 0);
      CongMul(v, 0, xx, xx, m);
      CongAdd(yy - 1, 0, 1, 1, m);
      CongMul(c.d, c.d, yy, 1, m);
      CongAdd(c.d * yy, c.d, 1, 1, m);
      assert false;
    }
  }

  /** The candidate squared, times v, is u or -u. */
  lemma CandidateIsRoot(c: Curve, x: int, u: int, v: int)
    requires c.p > 1 && FieldLaws(c) && 0 <= u < c.p
    requires Cong(u, v * (x * x), c.p) && v % c.p != 0
    ensures var r := Mod(v * Candidate(c, u, v) * Candidate(c, u, v), c.p); r == u || r == Mod(-u, c.p)
  {
    hide Fermat, Domain, Candidate, Pow;
    var m, x0 := c.p, Candidate(c, u, v);
    var e, w, q := (m - 5) / 8, u * SeventhPower(v), x * FourthPower(v);
    var h := Pow(w, 2 * e + 1);
    AtLeastFive(m);
    CandidateSquared(c, u, v);
    LeftProduct(v, x0);
    ModUnique(u, m, 0, u);
    if x % m == 0 {
      ZeroSquare(x, u, v, m);
      ZeroTimes(h, m);
    } else {
      PowerIsSquare(x, u, v, m);
      PowCong(w, q * q, 2 * e + 1, m);
      PowSquare(q, 2 * e + 1);
      NotZeroPower(x, v, m);
      SignOfPower(q, 2 * (2 * e + 1), m);
      OneOrMinusOne(u, h, Pow(q, 2 * (2 * e + 1)), m);
    }
  }

  lemma AtLeastFive(m: nat)
    requires m % 8 == 5
    ensures m >= 5 && 2 * (2 * (2 * ((m - 5) / 8) + 1)) == m - 1
  {
    var k := m / 8;
    assert m == 8 * k + 5;
    assert (m - 5) / 8 == k;
  }

  lemma LeftProduct(v: int, x: int)
    ensures v * x * x == v * (x * x)
  {
  }

  lemma ZeroSquare(x: int, u: int, v: int, m: nat)
    requires m > 0 && x % m == 0 && 0 <= u < m && Cong(u, v * (x * x), m)
    ensures u == 0
  {
    ModUnique(0, m, 0, 0);
    CongMul(x, 0, x, 0, m);
    CongMul(v, v, x * x, 0, m);
    ModUnique(u, m, 0, u);
  }

  lemma ZeroTimes(h: int, m: nat)
    requires m > 0
    ensures (0 * h) % m == 0
  {
    ModUnique(0, m, 0, 0);
  }

  lemma OneOrMinusOne(u: int, h: int, n: int, m: nat)
    requires m > 0 && Cong(h, n, m) && (Cong(n, 1, m) || Cong(n, -1, m))
    ensures Cong(u * h, u, m) || Cong(u * h, -u, m)
  {
    if Cong(n, 1, m) {
      CongMul(u, u, h, 1, m);
    } else {
      CongMul(u, u, h, -1, m);
    }
  }

  function FourthPower(v: int): int {
    (v * v) * (v * v)
  }

  function SeventhPower(v: int): int {
    (v * v * v) * (v * v * v) * v
  }

  /** v (u v^3 w^e)^2 = u w^(2e+1), with w = u v^7. */
  lemma CandidateSquared(c: Curve, u: int, v: int)
    requires c.p >= 5
    ensures var x0, w := Candidate(c, u, v), u * SeventhPower(v);
      Cong(v * (x0 * x0), u * Pow(w, 2 * ((c.p - 5) / 8) + 1), c.p)
  {
    var m, e := c.p, (c.p - 5) / 8;
    var w, k := u * SeventhPower(v), Pow(u * SeventhPower(v), e);
    CandidateIs(c, u, v);
    hide Candidate, SeventhPower, Pow;
    var x0, b := Candidate(c, u, v), u * (v * v * v);
    CongMul(x0, b * k, x0, b * k, m);
    CongMul(v, v, x0 * x0, (b * k) * (b * k), m);
    Shuffle(b, k, b, k);
    PowAdd(w, e, e);
    PowAdd(w, 1, 2 * e);
    assert Pow(w, 1) == w by { PowerOfOne(w); }
    ThirdSeventh(u, v);
    assert v * ((b * b) * (k * k)) == (v * (b * b)) * (k * k);
    assert (u * w) * (k * k) == u * (w * (k * k));
  }

  lemma PowerOfOne(w: int)
    ensures Pow(w, 1) == w
  {
    assert Pow(w, 0) == 1;
  }

  lemma ThirdSeventh(u: int, v: int)
    ensures v * ((u * (v * v * v)) * (u * (v * v * v))) == u * (u * SeventhPower(v))
  {
    var t := v * v * v;
    Shuffle(u, t, u, t);
    assert v * ((u * u) * (t * t)) == (u * u) * ((t * t) * v);
    assert (u * u) * ((t * t) * v) == u * (u * ((t * t) * v));
  }

  /** The candidate without the reductions in between. */
  lemma CandidateIs(c: Curve, u: int, v: int)
    requires c.p >= 5
    ensures Cong(Candidate(c, u, v), u * (v * v * v) * Pow(u * SeventhPower(v), (c.p - 5) / 8), c.p)
  {
    hide Pow, Mod;
    var m, e, t := c.p, (c.p - 5) / 8, v * v * v;
    var v3 := Mod(t, m);
    var v7 := Mod(v3 * v3 * v, m);
    var w := u * SeventhPower(v);
    CongMod(t, m);
    CongMul(v3, t, v3, t, m);
    CongMul(v3 * v3, t * t, v, v, m);
    CongMod(v3 * v3 * v, m);
    CongMul(u, u, v7, t * t * v, m);
    CongMod(u * v7, m);
    var root := PowMod(Mod(u * v7, m), e, m);
    RootPower(Mod(u * v7, m), w, e, m);
    CongMul(u, u, v3, t, m);
    CongMul(u * v3, u * t, root, Pow(w, e), m);
    CongMod(u * v3 * root, m);
  }

  lemma RootPower(a: int, w: int, e: nat, m: nat)
    requires m > 1 && Cong(a, w, m)
    ensures Cong(PowMod(a, e, m), Pow(w, e), m)
  {
    if e > 0 {
      PowCong(a, w, e, m);
      CongMod(Pow(a, e), m);
    }
  }

  /** u v^7 is the square of x v^4. */
  lemma PowerIsSquare(x: int, u: int, v: int, m: nat)
    requires m > 0 && Cong(u, v * (x * x), m)
    ensures var q := x * FourthPower(v); Cong(u * SeventhPower(v), q * q, m)
  {
    CongMul(u, v * (x * x), SeventhPower(v), SeventhPower(v), m);
    EighthPower(x, v);
  }

  lemma EighthPower(x: int, v: int)
    ensures var q := x * FourthPower(v); (v * (x * x)) * SeventhPower(v) == q * q
  {
    var f, t := FourthPower(v), v * v * v;
    Shuffle(x, f, x, f);
    assert f == t * v by { assert (v * v) * (v * v) == (v * v * v) * v; }
    Shuffle(t, v, t, v);
    assert (v * (x * x)) * ((t * t) * v) == (x * x) * ((t * t) * (v * v));
  }

  lemma NotZeroPower(x: int, v: int, m: nat)
    requires m > 0 && Domain(m) && x % m != 0 && v % m != 0
    ensures (x * FourthPower(v)) % m != 0
  {
    hide Domain;
    NoDivisors(v, v, m);
    NoDivisors(v * v, v * v, m);
    NoDivisors(x, FourthPower(v), m);
  }

  /** A power whose square is 1 by Fermat is 1 or -1. */
  lemma SignOfPower(q: int, n: nat, m: nat)
    requires m > 1 && Domain(m) && Fermat(m) && q % m != 0 && 2 * n == m - 1
    ensures Cong(Pow(q, n), 1, m) || Cong(Pow(q, n), -1, m)
  {
    var h := Pow(q, n);
    PowAdd(q, n, n);
    assert Pow(q, m - 1) == h * h;
    hide Pow, Fermat, Domain;
    ModUnique(1, m, 0, 1);
    RootOfOne(h, m);
  }

  lemma RootOfOne(h: int, m: nat)
    requires m > 1 && Domain(m) && Cong(h * h, 1, m)
    ensures Cong(h, 1, m) || Cong(h, -1, m)
  {
    hide Domain;
    CongAdd(h * h, 1, 1, 1, m);
    Squares(h, 1);
    ModUnique(0, m, 0, 0);
    NoDivisors(h - 1, h + 1, m);
    if (h - 1) % m == 0 {
      CongAdd(h - 1, 0, 1, 1, m);
    } else {
      CongAdd(h + 1, 0, 1, 1, m);
    }
  }

  /** Of the two roots of u/v the parity tells which is meant. */
  lemma TwoRoots(x1: int, x: int, u: int, v: int, m: nat)
    requires m > 1 && m % 2 == 1 && Domain(m) && v % m != 0 && 0 <= x < m && 0 <= x1 < m
    requires Cong(v * (x1 * x1), u, m) && Cong(u, v * (x * x), m)
    ensures !(x1 == 0 && x % 2 == 1) && (if x1 % 2 != x % 2 then m - x1 else x1) == x
  {
    hide Domain;
    Cancel(v, x1 * x1, x * x, m);
    CongAdd(x1 * x1, x * x, x * x, x * x, m);
    Squares(x1, x);
    ModUnique(0, m, 0, 0);
    NoDivisors(x1 - x, x1 + x, m);
    if (x1 - x) % m == 0 {
      if x1 < x {
        ModUnique(x1 - x, m, -1, x1 - x + m);
      } else {
        ModUnique(x1 - x, m, 0, x1 - x);
      }
    } else {
      if x1 + x < m {
        ModUnique(x1 + x, m, 0, x1 + x);
      } else {
        ModUnique(x1 + x, m, 1, x1 + x - m);
      }
    }
  }

  /** What is decoded is a point of the curve, and encodes to the same bytes: every point has one encoding. */
  lemma EncodeUndoesDecode(c: Curve, data: seq<byte>)
    requires c.p > 1 && c.p % 2 == 1 && c.p < SIGN_BIT && Cong(c.sqrtM1 * c.sqrtM1, -1, c.p)
    ensures Decode(c, data).Some? ==>
      Proper(c, Decode(c, data).value) && Encode(c, Decode(c, data).value) == data
  {
    hide FromLE, AffineOf, Encode, DecodeY, Extended, Cong;
    if Decode(c, data).Some? {
      var point := Decode(c, data).value;
      var y := ClearSign(FromLE(data));
      DecodedIsExtended(c, y, data[31] / 0x80);
      assert Proper(c, point) by { ProperIs(c, point); }
      OverOne(c, point) by { ProperIs(c, point); }
      EncodedMeans(c, point);
      LastByte(data);
      SignBitIs();
      assert FromLE(Encode(c, point)) == FromLE(data);
      LEofFromLE(data);
      LEofFromLE(Encode(c, point));
    }
  }

  lemma ProperIs(c: Curve, p: Point)
    requires c.p > 1 && Extended(c, p)
    ensures 0 <= p.x < c.p && 0 <= p.y < c.p && (p.z != 0 ==> Proper(c, p))
  {
  }

  // ----- Why signatures verify -----

  /** The element that a point stands for. */
  ghost function Val<G(!new)>(c: Curve, g: Group<G>, p: Point): G
    requires c.p > 1
  {
    g.value(AffineOf(c, p))
  }

  lemma Swap<G(!new)>(g: Group<G>, a: G, b: G)
    requires Abelian(g)
    ensures g.add(a, b) == g.add(b, a)
  {
  }

  lemma Regroup<G(!new)>(g: Group<G>, a: G, b: G, d: G)
    requires Abelian(g)
    ensures g.add(g.add(a, b), d) == g.add(a, g.add(b, d))
  {
  }

  lemma Unit<G(!new)>(g: Group<G>, a: G)
    requires Abelian(g)
    ensures g.add(g.zero, a) == a && g.add(a, g.zero) == a
  {
    Swap(g, a, g.zero);
  }

  lemma {:induction false} TimesAdd<G(!new)>(g: Group<G>, m: nat, n: nat, a: G)
    requires Abelian(g)
    ensures Times(g, m + n, a) == g.add(Times(g, m, a), Times(g, n, a))
    decreases m
  {
    hide Abelian;
    if m > 0 {
      TimesAdd(g, m - 1, n, a);
      Regroup(g, a, Times(g, m - 1, a), Times(g, n, a));
    } else {
      Unit(g, Times(g, n, a));
    }
  }

  lemma {:induction false} TimesZero<G(!new)>(g: Group<G>, n: nat)
    requires Abelian(g)
    ensures Times(g, n, g.zero) == g.zero
    decreases n
  {
    hide Abelian;
    if n > 0 {
      TimesZero(g, n - 1);
      Unit(g, g.zero);
    }
  }

  lemma {:induction false} TimesTimes<G(!new)>(g: Group<G>, m: nat, n: nat, a: G)
    requires Abelian(g)
    ensures Times(g, m * n, a) == Times(g, m, Times(g, n, a))
    decreases m
  {
    hide Abelian;
    if m > 0 {
      var rest := (m - 1) * n;
      assert m * n == n + rest;
      TimesTimes(g, m - 1, n, a);
      TimesAdd(g, n, rest, a);
    } else {
      assert m * n == 0;
    }
  }

  lemma TimesMod<G(!new)>(g: Group<G>, n: nat, l: nat, a: G)
    requires Abelian(g) && l > 0 && Times(g, l, a) == g.zero
    ensures Times(g, n % l, a) == Times(g, n, a)
  {
    hide Abelian, Times;
    var q, r := n / l, n % l;
    assert n == q * l + r && q * l >= 0;
    TimesAdd(g, q * l, r, a);
    TimesTimes(g, q, l, a);
    TimesZero(g, q);
    Unit(g, Times(g, r, a));
  }

  lemma {:induction false} TimesDouble<G(!new)>(g: Group<G>, n: nat, a: G)
    requires Abelian(g)
    ensures Times(g, n, g.add(a, a)) == Times(g, 2 * n, a)
    decreases n
  {
    hide Abelian;
    if n > 0 {
      TimesDouble(g, n - 1, a);
      assert Times(g, 2 * n, a) == g.add(a, Times(g, 2 * n - 1, a));
      assert Times(g, 2 * n - 1, a) == g.add(a, Times(g, 2 * n - 2, a));
      Regroup(g, a, a, Times(g, 2 * n - 2, a));
    }
  }

  lemma SumValue<G(!new)>(c: Curve, g: Group<G>, p: Point, q: Point)
    requires c.Valid() && CurveLaws(c, g) && Proper(c, p) && Proper(c, q)
    ensures Proper(c, PointAdd(c, p, q)) && Val(c, g, PointAdd(c, p, q)) == g.add(Val(c, g, p), Val(c, g, q))
  {
    hide PointAdd, AffineOf, OnCurve, IsSum, Proper, Domain, Fermat, Abelian, Faithful, Complete;
    var sum := PointAdd(c, p, q);
    PointAddIsSum(c, p, q);
    AffineOnCurve(c, p);
    AffineOnCurve(c, q);
    AffineOnCurve(c, sum);
  }

  lemma LawsAreAbelian<G(!new)>(c: Curve, g: Group<G>)
    requires c.Valid() && CurveLaws(c, g)
    ensures Abelian(g) && Val(c, g, IDENTITY) == g.zero && Times(g, c.l, Val(c, g, c.base)) == g.zero
    ensures Proper(c, IDENTITY) && Proper(c, c.base)
  {
    hide Times, Domain, Fermat, Abelian, Faithful, Complete, AddsAs;
    IdentityExtended(c);
    OverOne(c, IDENTITY);
    OverOne(c, c.base);
  }

  /** With z = 1 the coordinates are x and y themselves. */
  lemma OverOne(c: Curve, p: Point)
    requires c.p > 1 && 0 <= p.x < c.p && 0 <= p.y < c.p && p.z == 1
    ensures AffineOf(c, p) == Affine(p.x, p.y)
  {
    var zInv := PowMod(1, c.p - 2, c.p);
    PowOne(c.p - 2);
    ModUnique(1, c.p, 0, 1);
    assert zInv == 1;
    ModUnique(p.x, c.p, 0, p.x);
    ModUnique(p.y, c.p, 0, p.y);
  }

  lemma {:induction false} PowOne(e: int)
    ensures e >= 0 ==> Pow(1, e) == 1
  {
    if e > 0 {
      PowOne(e - 1);
    }
  }

  /** Double-and-add gives the multiple of the point. */
  lemma {:induction false} MulFromValue<G(!new)>(c: Curve, g: Group<G>, result: Point, addend: Point, s: nat)
    requires c.Valid() && CurveLaws(c, g) && Proper(c, result) && Proper(c, addend)
    ensures Proper(c, MulFrom(c, result, addend, s))
    ensures Val(c, g, MulFrom(c, result, addend, s)) == g.add(Val(c, g, result), Times(g, s, Val(c, g, addend)))
    decreases s
  {
    hide PointAdd, Extended, CurveLaws, Abelian, Proper, Val;
    LawsAreAbelian(c, g);
    var a := Val(c, g, addend);
    if s == 0 {
      Unit(g, Val(c, g, result));
    } else {
      SumValue(c, g, result, addend);
      SumValue(c, g, addend, addend);
      MulFromValue(c, g, if s % 2 == 1 then PointAdd(c, result, addend) else result, PointAdd(c, addend, addend),
        s / 2);
      TimesDouble(g, s / 2, a);
      if s % 2 == 1 {
        Regroup(g, Val(c, g, result), a, Times(g, s - 1, a));
      }
    }
  }

  lemma MulValue<G(!new)>(c: Curve, g: Group<G>, p: Point, s: nat)
    requires c.Valid() && CurveLaws(c, g) && Proper(c, p)
    ensures Proper(c, Mul(c, s, p)) && Val(c, g, Mul(c, s, p)) == Times(g, s, Val(c, g, p))
  {
    hide Extended, CurveLaws, Abelian, Proper, Val, PointAdd;
    LawsAreAbelian(c, g);
    MulFromValue(c, g, IDENTITY, p, s);
    Unit(g, Times(g, s, Val(c, g, p)));
  }

  lemma DecodedValue<G(!new)>(c: Curve, g: Group<G>, p: Point)
    requires c.Valid() && CurveLaws(c, g) && Proper(c, p)
    ensures var d := Decode(c, Encode(c, p)); d.Some? && Proper(c, d.value) && Val(c, g, d.value) == Val(c, g, p)
  {
    hide PointAdd, Extended, Encode, Decode, Abelian, AffineOf, Faithful, AddsAs, Complete, Domain, Fermat;
    DecodeUndoesEncode(c, p);
  }

  /** Points of the same value have the same coordinates, and the encoding is that of the coordinates. */
  lemma SameEncoding<G(!new)>(c: Curve, g: Group<G>, p: Point, q: Point)
    requires c.Valid() && CurveLaws(c, g) && Proper(c, p) && Proper(c, q) && Val(c, g, p) == Val(c, g, q)
    ensures Encode(c, p) == Encode(c, q)
  {
    hide Extended, LE, Abelian, AffineOf, AddsAs, Complete, Domain, Fermat, OnCurve, SetTop;
    AffineOnCurve(c, p);
    AffineOnCurve(c, q);
    EncodeIsOfCoordinates(c, p);
    EncodeIsOfCoordinates(c, q);
  }

  lemma EncodeIsOfCoordinates(c: Curve, p: Point)
    requires c.p > 1
    ensures var a := AffineOf(c, p);
      var s := LE(a.y, 32);
      Encode(c, p) == if a.x % 2 == 1 then s[31 := SetTop(s[31])] else s
  {
    hide LE, PowMod, Mod, SetTop;
  }

  /** Every signature verifies: for every seed of any length, and every message. */
  lemma SignatureVerifies<G(!new)>(c: Curve, g: Group<G>, sha: Hash, seed: seq<byte>, message: seq<byte>)
    requires c.Valid() && CurveLaws(c, g) && Is512(sha)
    ensures Verify(c, sha, PublicKey(c, sha, seed), message, Sign(c, sha, seed, message))
  {
    hide PointAdd, Extended, Encode, Decode, Mul, CurveLaws, FromLE, LE, Clamp, Mod, Val;
    var scalar, publicKey := Clamp(sha(seed)), PublicKey(c, sha, seed);
    var r := Hashed(c, sha, sha(seed)[32..] + message);
    var rBytes := Encode(c, Mul(c, r, c.base));
    var k := Hashed(c, sha, rBytes + publicKey + message);
    var s := Mod(r + k * scalar, c.l);
    var signature := Sign(c, sha, seed, message);
    assert signature == rBytes + LE(s, 32) && signature[..32] == rBytes && signature[32..] == LE(s, 32);
    LERoundTrip(s, 32);
    EquationHolds(c, g, scalar, r, k);
  }

  /** The verification equation, on the group. */
  lemma EquationHolds<G(!new)>(c: Curve, g: Group<G>, scalar: nat, r: nat, k: nat)
    requires c.Valid() && CurveLaws(c, g)
    ensures var aPoint, rPoint := Decode(c, Encode(c, Mul(c, scalar, c.base))), Decode(c, Encode(c, Mul(c, r, c.base)));
      && aPoint.Some? && rPoint.Some?
      && Encode(c, Mul(c, (r + k * scalar) % c.l, c.base)) ==
           Encode(c, PointAdd(c, rPoint.value, Mul(c, k, aPoint.value)))
  {
    hide PointAdd, Extended, Encode, Decode, Mul, CurveLaws, Abelian, Proper, Times, Val;
    LawsAreAbelian(c, g);
    var b, ks := Val(c, g, c.base), k * scalar;
    var aMul, rMul := Mul(c, scalar, c.base), Mul(c, r, c.base);
    MulValue(c, g, c.base, scalar);
    MulValue(c, g, c.base, r);
    DecodedValue(c, g, aMul);
    DecodedValue(c, g, rMul);
    var aPoint, rPoint := Decode(c, Encode(c, aMul)).value, Decode(c, Encode(c, rMul)).value;
    MulValue(c, g, aPoint, k);
    var kA := Mul(c, k, aPoint);
    SumValue(c, g, rPoint, kA);
    TimesTimes(g, k, scalar, b);
    TimesAdd(g, r, ks, b);
    TimesMod(g, r + ks, c.l, b);
    MulValue(c, g, c.base, (r + ks) % c.l);
    SameEncoding(c, g, Mul(c, (r + ks) % c.l, c.base), PointAdd(c, rPoint, kA));
  }

  // ----- What the bytes of a signature are -----

  const TOP_BIT: nat := 0x40000000_00000000_00000000_00000000_00000000_00000000_00000000_00000000

  /** The secret scalar is the first half of the hash with its three low bits and its two high bits replaced. */
  lemma ClampMeans(az: seq<byte>)
    requires |az| == 64
    ensures var n := FromLE(az[..32]); Clamp(az) == n % TOP_BIT - n % 8 + TOP_BIT
    ensures Clamp(az) % 8 == 0 && TOP_BIT <= Clamp(az) < 2 * TOP_BIT
  {
    hide FromLE, Pow256;
    var s := az[..32];
    var t := [s[0] - s[0] % 8] + az[1..31] + [s[31] % 0x40 + 0x40];
    assert t[..31] == [t[0]] + az[1..31] && s[..31] == [s[0]] + az[1..31];
    LastByte(s);
    LastByte(t);
    FirstByte(s[..31]);
    FirstByte(t[..31]);
    assert s[..31][1..] == az[1..31] && t[..31][1..] == az[1..31];
    SignBitIs();
    ClampBits(s[0], FromLE(az[1..31]), s[31], Pow256(31));
  }

  lemma FirstByte(s: seq<byte>)
    requires |s| == 31
    ensures FromLE(s) == s[0] + 0x100 * FromLE(s[1..])
  {
  }

  lemma ClampBits(low: byte, mid: nat, high: byte, w: nat)
    requires w * 0x40 == TOP_BIT && low + 0x100 * mid < w
    ensures var n, k := low + 0x100 * mid + w * high, low - low % 8 + 0x100 * mid + w * (high % 0x40 + 0x40);
      k == n % TOP_BIT - n % 8 + TOP_BIT && k % 8 == 0 && TOP_BIT <= k < 2 * TOP_BIT
  {
    var n, q, r := low + 0x100 * mid + w * high, high / 0x40, high % 0x40;
    Spread(w, r, 0x40);
    assert w * high == TOP_BIT * q + w * r by { assert high == 0x40 * q + r; ByParts(w, q, r); }
    MulMonotone(w, r, 0x3F);
    MulMonotone(w, 0, r);
    ModUnique(n, TOP_BIT, q, low + 0x100 * mid + w * r);
    LowBits(low, mid, high, w);
    LowBits(low - low % 8, mid, r + 0x40, w);
  }

  lemma LowBits(low: byte, mid: nat, high: byte, w: nat)
    requires w * 0x40 == TOP_BIT
    ensures (low + 0x100 * mid + w * high) % 8 == low % 8
  {
    var v := TOP_BIT / 0x200;
    assert w == 8 * v;
    assert (8 * v) * high == 8 * (v * high);
    ModUnique(low + 0x100 * mid + w * high, 8, low / 8 + 0x20 * mid + v * high, low % 8);
  }

  lemma ByParts(w: nat, q: int, r: int)
    ensures w * (0x40 * q + r) == (w * 0x40) * q + w * r
  {
  }

  /**
   The bytes of a signature and of a public key, by the hash alone (RFC 8032, sections 5.1.5 and 5.1.6): the key
   stands for a times the base point, the first half for r times it, with r the hash of the prefix and the message, and
   the second half is (r + k a) modulo the order, with k the hash of the first half, the key, and the message.
   */
  lemma SignatureMeans<G(!new)>(c: Curve, g: Group<G>, sha: Hash, seed: seq<byte>, message: seq<byte>)
    requires c.Valid() && CurveLaws(c, g) && Is512(sha)
    ensures var az, key, signature := sha(seed), PublicKey(c, sha, seed), Sign(c, sha, seed, message);
      var n, r := FromLE(az[..32]), FromLE(sha(az[32..] + message));
      var a, k := n % TOP_BIT - n % 8 + TOP_BIT, FromLE(sha(signature[..32] + key + message));
      var aPoint, rPoint := Decode(c, key), Decode(c, signature[..32]);
      && aPoint.Some? && Val(c, g, aPoint.value) == Times(g, a, Val(c, g, c.base))
      && rPoint.Some? && Val(c, g, rPoint.value) == Times(g, r, Val(c, g, c.base))
      && FromLE(signature[32..]) == (r + k * a) % c.l
  {
    hide PointAdd, Extended, Encode, Decode, Mul, CurveLaws, FromLE, LE, Clamp, Mod, Val, Times, Abelian, Proper,
      Pow256;
    var az, key, signature := sha(seed), PublicKey(c, sha, seed), Sign(c, sha, seed, message);
    var a, r := Clamp(az), Hashed(c, sha, az[32..] + message);
    var rBytes := Encode(c, Mul(c, r, c.base));
    var k := Hashed(c, sha, rBytes + key + message);
    var s := Mod(r + k * a, c.l);
    assert signature == rBytes + LE(s, 32) && signature[..32] == rBytes && signature[32..] == LE(s, 32);
    ClampMeans(az);
    LERoundTrip(s, 32);
    LawsAreAbelian(c, g);
    EncodedMultiple(c, g, a);
    EncodedMultiple(c, g, r);
    var rFull, kFull := FromLE(sha(az[32..] + message)), FromLE(sha(rBytes + key + message));
    TimesMod(g, rFull, c.l, Val(c, g, c.base));
    ReducedSum(rFull, kFull, a, c.l);
  }

  lemma EncodedMultiple<G(!new)>(c: Curve, g: Group<G>, n: nat)
    requires c.Valid() && CurveLaws(c, g)
    ensures var point := Decode(c, Encode(c, Mul(c, n, c.base)));
      point.Some? && Proper(c, point.value) && Val(c, g, point.value) == Times(g, n, Val(c, g, c.base))
  {
    hide PointAdd, Extended, Encode, Decode, Mul, CurveLaws, Val, Times, Abelian, Proper;
    LawsAreAbelian(c, g);
    MulValue(c, g, c.base, n);
    DecodedValue(c, g, Mul(c, n, c.base));
  }

  lemma ReducedSum(r: int, k: int, a: int, l: nat)
    requires l > 0
    ensures Mod(Mod(r, l) + Mod(k, l) * a, l) == (r + k * a) % l
  {
    CongMod(r, l);
    CongMod(k, l);
    CongMul(Mod(k, l), k, a, a, l);
    CongAdd(Mod(r, l), r, Mod(k, l) * a, k * a, l);
  }

  /**
   What is verified, as an equation between elements of the group (RFC 8032, section 5.1.7): s times the base point is
   the sum of the point of the first half and k times the point of the key.
   */
  lemma VerifyMeans<G(!new)>(c: Curve, g: Group<G>, sha: Hash, key: seq<byte>, message: seq<byte>, signature: seq<byte>)
    requires c.Valid() && CurveLaws(c, g)
    ensures Verify(c, sha, key, message, signature) <==>
      && |signature| == 64 && |key| == 32 && FromLE(signature[32..]) < c.l
      && Decode(c, key).Some? && Decode(c, signature[..32]).Some?
      && var k := FromLE(sha(signature[..32] + key + message)) % c.l;
         Times(g, FromLE(signature[32..]), Val(c, g, c.base)) ==
           g.add(Val(c, g, Decode(c, signature[..32]).value), Times(g, k, Val(c, g, Decode(c, key).value)))
  {
    hide PointAdd, Extended, Encode, Decode, Mul, CurveLaws, FromLE, Mod, Val, Times, Abelian, Proper;
    if && |signature| == 64 && |key| == 32 && Decode(c, key).Some? && Decode(c, signature[..32]).Some? {
      var s, k := FromLE(signature[32..]), Hashed(c, sha, signature[..32] + key + message);
      var aPoint, rPoint := Decode(c, key).value, Decode(c, signature[..32]).value;
      LawsAreAbelian(c, g);
      DecodedIsProper(c, g, key);
      DecodedIsProper(c, g, signature[..32]);
      MulValue(c, g, c.base, s);
      MulValue(c, g, aPoint, k);
      SumValue(c, g, rPoint, Mul(c, k, aPoint));
      EncodesAlike(c, g, Mul(c, s, c.base), PointAdd(c, rPoint, Mul(c, k, aPoint)));
    }
  }

  lemma DecodedIsProper<G(!new)>(c: Curve, g: Group<G>, data: seq<byte>)
    requires c.Valid() && CurveLaws(c, g)
    ensures Decode(c, data).Some? ==> Proper(c, Decode(c, data).value)
  {
    hide Decode, FieldLaws, Abelian, Complete, AddsAs, Faithful, Extended, Proper;
    FieldIsOdd(c);
    EncodeUndoesDecode(c, data);
  }

  lemma FieldIsOdd(c: Curve)
    requires c.p > 1 && FieldLaws(c)
    ensures c.p % 2 == 1 && c.p < SIGN_BIT && Cong(c.sqrtM1 * c.sqrtM1, -1, c.p)
  {
    hide Domain, Fermat, Cong;
  }

  /** Two points have the same bytes if and only if they stand for the same element. */
  lemma EncodesAlike<G(!new)>(c: Curve, g: Group<G>, p: Point, q: Point)
    requires c.Valid() && CurveLaws(c, g) && Proper(c, p) && Proper(c, q)
    ensures Encode(c, p) == Encode(c, q) <==> Val(c, g, p) == Val(c, g, q)
  {
    hide PointAdd, Extended, Encode, Decode, CurveLaws, Val, Proper;
    if Val(c, g, p) == Val(c, g, q) {
      SameEncoding(c, g, p, q);
    }
    if Encode(c, p) == Encode(c, q) {
      DecodedValue(c, g, p);
      DecodedValue(c, g, q);
    }
  }
}
