/** Positions of the plane and their distance, compared through squares. */
module PlaneGeometry {

  datatype Spot = Spot(x: real, y: real)

  /** Two positions are at most r apart. */
  predicate Near(a: Spot, b: Spot, r: real) {
    r >= 0.0 && (a.x - b.x) * (a.x - b.x) + (a.y - b.y) * (a.y - b.y) <= r * r
  }

  lemma ProductGrows(a: real, a': real, b: real, b': real)
    requires 0.0 <= a <= a' && 0.0 <= b <= b'
    ensures a * b <= a' * b'
  {
    assert a * b <= a' * b;
    assert a' * b <= a' * b';
  }

  lemma SquareOrder(u: real, v: real)
    requires v >= 0.0 && u * u <= v * v
    ensures -v <= u <= v
  {
    if u > v {
      SquareGrows(v, u);
    } else if u < -v {
      assert (-u) * (-u) == u * u;
      SquareGrows(v, -u);
    }
  }

  lemma SquareGrows(v: real, u: real)
    requires 0.0 <= v < u
    ensures v * v < u * u
  {
    assert u * u - v * v == (u - v) * (u + v);
    Positive(u - v, u + v);
  }

  lemma Positive(a: real, b: real)
    requires a > 0.0 && b > 0.0
    ensures a * b > 0.0
  {
  }

  lemma SumSquared(a: real, b: real)
    ensures (a + b) * (a + b) == a * a + 2.0 * (a * b) + b * b
  {
  }

  lemma Lagrange(u: real, v: real, w: real, z: real)
    ensures (u * w + v * z) * (u * w + v * z) + (u * z - v * w) * (u * z - v * w) == (u * u + v * v) * (w * w + z * z)
  {
  }

  /** The product of two vectors is at most that of their lengths. */
  lemma InnerProduct(u: real, v: real, w: real, z: real, r: real, t: real)
    requires r >= 0.0 && t >= 0.0 && u * u + v * v <= r * r && w * w + z * z <= t * t
    ensures u * w + v * z <= r * t
  {
    var p, q := u * w + v * z, u * z - v * w;
    Lagrange(u, v, w, z);
    ProductGrows(u * u + v * v, r * r, w * w + z * z, t * t);
    assert q * q >= 0.0;
    SquaredProduct(r, t);
    SquareOrder(p, r * t);
  }

  lemma SquaredProduct(r: real, t: real)
    requires r >= 0.0 && t >= 0.0
    ensures (r * r) * (t * t) == (r * t) * (r * t) && r * t >= 0.0
  {
    assert (r * r) * (t * t) == r * (r * (t * t)) == r * (t * (r * t));
  }

  /** The triangle inequality. */
  lemma NearThrough(a: Spot, p: Spot, b: Spot, r: real, t: real)
    requires Near(a, p, r) && Near(p, b, t)
    ensures Near(a, b, r + t)
  {
    var u, v, w, z := a.x - p.x, a.y - p.y, p.x - b.x, p.y - b.y;
    InnerProduct(u, v, w, z, r, t);
    SumSquared(u, w);
    SumSquared(v, z);
    SumSquared(r, t);
    assert a.x - b.x == u + w && a.y - b.y == v + z;
  }

  /** Between two positions there is one that divides their distance as wanted. */
  lemma Between(a: Spot, b: Spot, r: real, t: real) returns (p: Spot)
    requires r >= 0.0 && t >= 0.0 && Near(a, b, r + t)
    ensures Near(a, p, r) && Near(p, b, t)
  {
    var s, dx, dy := r + t, b.x - a.x, b.y - a.y;
    if s == 0.0 {
      p := a;
    } else {
      var k := r / s;
      p := Along(a, b, k);
      Shares(r, t, k);
      OnTheWay(a, b, k, s);
      OnTheWay(b, a, 1.0 - k, s);
      SameAlong(a, b, k);
      NearAlike(a, b, s);
      NearAlike(b, p, t);
    }
  }

  /** The position that has done the part k of the way from a to b. */
  function Along(a: Spot, b: Spot, k: real): Spot {
    Spot(a.x + k * (b.x - a.x), a.y + k * (b.y - a.y))
  }

  lemma Shares(r: real, t: real, k: real)
    requires r >= 0.0 && t >= 0.0 && r + t != 0.0 && k == r / (r + t)
    ensures k * (r + t) == r && (1.0 - k) * (r + t) == t
  {
  }

  lemma SameAlong(a: Spot, b: Spot, k: real)
    ensures Along(a, b, k) == Along(b, a, 1.0 - k)
  {
    Parts(a.x, b.x, k);
    Parts(a.y, b.y, k);
  }

  lemma Parts(u: real, v: real, k: real)
    ensures u + k * (v - u) == v + (1.0 - k) * (u - v)
  {
  }

  lemma OnTheWay(a: Spot, b: Spot, k: real, s: real)
    requires (Near(a, b, s) || Near(b, a, s)) && k * s >= 0.0
    ensures Near(a, Along(a, b, k), k * s)
  {
    var dx, dy := a.x - b.x, a.y - b.y;
    NearAlike(a, b, s);
    ScaledSquares(dx, dy, k, s);
    Scaled(a.x, b.x, k);
    Scaled(a.y, b.y, k);
  }

  lemma Scaled(u: real, v: real, k: real)
    ensures u - (u + k * (v - u)) == k * (u - v)
  {
  }

  lemma ScaledSquares(dx: real, dy: real, k: real, s: real)
    requires dx * dx + dy * dy <= s * s
    ensures (k * dx) * (k * dx) + (k * dy) * (k * dy) <= (k * s) * (k * s)
  {
    SquareOfProduct(k, dx);
    SquareOfProduct(k, dy);
    SquareOfProduct(k, s);
    assert k * k >= 0.0;
    assert (k * k) * (dx * dx + dy * dy) <= (k * k) * (s * s);
  }

  lemma SquareOfProduct(k: real, d: real)
    ensures (k * d) * (k * d) == (k * k) * (d * d)
  {
    assert (k * d) * (k * d) == k * (d * (k * d)) == k * (k * (d * d));
  }

  lemma NearAlike(a: Spot, b: Spot, r: real)
    ensures Near(a, b, r) == Near(b, a, r)
  {
    var u, v := a.x - b.x, a.y - b.y;
    assert (-u) * (-u) == u * u && (-v) * (-v) == v * v;
  }

  /** Two balls meet exactly if their centres are no further apart than their radii together. */
  lemma NearIffMeet(a: Spot, b: Spot, r: real, t: real)
    requires r >= 0.0 && t >= 0.0
    ensures Near(a, b, r + t) <==> exists p :: Near(a, p, r) && Near(p, b, t)
  {
    if Near(a, b, r + t) {
      var p := Between(a, b, r, t);
    }
    if p :| Near(a, p, r) && Near(p, b, t) {
      NearThrough(a, p, b, r, t);
    }
  }
}
