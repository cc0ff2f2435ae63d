/** Exact 3-vector arithmetic over the reals, and the corner-truncation
    formula of the Chaikin3D pass. Floating point is not modelled: a
    coordinate is a triple of `real`, so the compensation between the base
    ratio and the special ratio can be proved exactly. */
module Geometry {

  datatype Vec3 = Vec3(x: real, y: real, z: real)

  function Add(a: Vec3, b: Vec3): Vec3 {
    Vec3(a.x + b.x, a.y + b.y, a.z + b.z)
  }

  /** `matrix.vector_from_points(from, to)`: the vector from `from` to `to`. */
  function Sub(to: Vec3, from: Vec3): Vec3 {
    Vec3(to.x - from.x, to.y - from.y, to.z - from.z)
  }

  function Scale(k: real, a: Vec3): Vec3 {
    Vec3(k * a.x, k * a.y, k * a.z)
  }

  function SqNorm(a: Vec3): real {
    a.x * a.x + a.y * a.y + a.z * a.z
  }

  /** Squared Euclidean distance; it orders points exactly as the distance
      (its square root) does, so a running minimum over it selects the same
      node. */
  function SqDist(a: Vec3, b: Vec3): real {
    SqNorm(Sub(a, b))
  }

  /** The truncation point `partner + ratio * (current - partner)`. */
  function Cut(partner: Vec3, current: Vec3, ratio: real): Vec3 {
    Add(partner, Scale(ratio, Sub(current, partner)))
  }

  /** Ratio for a partner that is an input node of the pass: (n - 1) / n. */
  function BaseRatio(n: real): real
    requires n != 0.0
  {
    (n - 1.0) / n
  }

  /** Ratio for a partner already replaced by a truncation node in the same
      pass: (n - 2) / (n - 1). */
  function SpecialRatio(n: real): real
    requires n != 1.0
  {
    (n - 2.0) / (n - 1.0)
  }

  /** One coordinate of the two cuts of an edge between `p` (processed
      first) and `v` (processed second). */
  lemma CutsOfOneCoordinate(p: real, v: real, n: real)
    requires n != 0.0 && n != 1.0
    ensures v + ((n - 1.0) / n) * (p - v) == p + (1.0 / n) * (v - p)
    ensures var c := v + ((n - 1.0) / n) * (p - v);
            c + ((n - 2.0) / (n - 1.0)) * (v - c) == v + (1.0 / n) * (p - v)
  {
    var c := v + ((n - 1.0) / n) * (p - v);
    assert (n - 1.0) / n == 1.0 - 1.0 / n;
    assert c == p + (1.0 / n) * (v - p);
    assert v - c == ((n - 1.0) / n) * (v - p);
    assert ((n - 2.0) / (n - 1.0)) * ((n - 1.0) / n) == (n - 2.0) / n;
    calc {
      c + ((n - 2.0) / (n - 1.0)) * (v - c);
      c + ((n - 2.0) / (n - 1.0)) * (((n - 1.0) / n) * (v - p));
      c + (((n - 2.0) / (n - 1.0)) * ((n - 1.0) / n)) * (v - p);
      c + ((n - 2.0) / n) * (v - p);
      p + ((1.0 / n) + (n - 2.0) / n) * (v - p);
      { assert (1.0 / n) + (n - 2.0) / n == 1.0 - 1.0 / n; }
      v + (1.0 / n) * (p - v);
    }
  }

  /** The compensation the special ratio exists for. When the edge p-v is
      cut first from p's side (partner v is still an input node: base
      ratio) and then from v's side (partner is now p's truncation node:
      special ratio), each cut lands at 1/n of the edge from its own
      endpoint. */
  lemma TwoCutsOfOneEdge(p: Vec3, v: Vec3, n: real)
    requires n != 0.0 && n != 1.0
    ensures Cut(v, p, BaseRatio(n)) == Add(p, Scale(1.0 / n, Sub(v, p)))
    ensures Cut(Cut(v, p, BaseRatio(n)), v, SpecialRatio(n)) == Add(v, Scale(1.0 / n, Sub(p, v)))
  {
    CutsOfOneCoordinate(p.x, v.x, n);
    CutsOfOneCoordinate(p.y, v.y, n);
    CutsOfOneCoordinate(p.z, v.z, n);
  }

  lemma SqNormScale(k: real, a: Vec3)
    ensures SqNorm(Scale(k, a)) == k * k * SqNorm(a)
  {
    calc {
      SqNorm(Scale(k, a));
      (k * a.x) * (k * a.x) + (k * a.y) * (k * a.y) + (k * a.z) * (k * a.z);
      { assert (k * a.x) * (k * a.x) == k * k * (a.x * a.x);
        assert (k * a.y) * (k * a.y) == k * k * (a.y * a.y);
        assert (k * a.z) * (k * a.z) == k * k * (a.z * a.z); }
      k * k * SqNorm(a);
    }
  }

  /** Distance form of the compensation: both cuts of an edge are at
      squared distance |edge|^2 / n^2 from their own endpoint. */
  lemma TwoCutsDistance(p: Vec3, v: Vec3, n: real)
    requires n != 0.0 && n != 1.0
    ensures SqDist(Cut(v, p, BaseRatio(n)), p) == SqDist(v, p) / (n * n)
    ensures SqDist(Cut(Cut(v, p, BaseRatio(n)), v, SpecialRatio(n)), v) == SqDist(p, v) / (n * n)
  {
    TwoCutsOfOneEdge(p, v, n);
    var d1 := Sub(v, p);
    var d2 := Sub(p, v);
    assert Sub(Add(p, Scale(1.0 / n, d1)), p) == Scale(1.0 / n, d1);
    assert Sub(Add(v, Scale(1.0 / n, d2)), v) == Scale(1.0 / n, d2);
    SqNormScale(1.0 / n, d1);
    SqNormScale(1.0 / n, d2);
    assert (1.0 / n) * (1.0 / n) == 1.0 / (n * n);
  }
}
