/**
 Renderer::PerPixel, kept abstract where it is floating-point shading and
 exact where it is the ray/sphere miss test. The ray starts at (0, 0, 1.5)
 and points through the normalised pixel coordinate at depth -1; the sphere
 has radius 0.5 and sits at the origin. The sky gradient and the lit colour
 of a hit are supplied as functions of the coordinate.
 */
module Shading {
  import opened Color

  datatype Vec3 = Vec3(x: real, y: real, z: real)

  /** A pixel position mapped to [-1, 1) and corrected for the aspect ratio. */
  datatype Coord = Coord(x: real, y: real)

  datatype Rgb = Rgb(r: real, g: real, b: real)

  /**
   The colour formulas PerPixel uses, left uninterpreted: the sky colour of a
   ray that misses and the lit colour of a ray that hits.
   */
  datatype Shaders = Shaders(sky: Coord -> Rgb, lit: Coord -> Rgb)

  function Dot(u: Vec3, v: Vec3): real { u.x * v.x + u.y * v.y + u.z * v.z }

  function Scale(k: real, v: Vec3): Vec3 { Vec3(k * v.x, k * v.y, k * v.z) }

  const RayOrigin: Vec3 := Vec3(0.0, 0.0, 1.5)

  const SphereRadius: real := 0.5

  /** The point origin + t * dir of the line through origin along dir. */
  function PointAt(origin: Vec3, dir: Vec3, t: real): Vec3 {
    Vec3(origin.x + t * dir.x, origin.y + t * dir.y, origin.z + t * dir.z)
  }

  /** The point lies strictly outside the sphere of this radius centred at the origin. */
  predicate Outside(p: Vec3, radius: real) { Dot(p, p) > radius * radius }

  /** The parameter t of the point of the line nearest the centre of the sphere. */
  function Nearest(origin: Vec3, dir: Vec3): real {
    if Dot(dir, dir) == 0.0 then 0.0 else -Dot(origin, dir) / Dot(dir, dir)
  }

  /**
   The discriminant b^2 - 4ac of the ray/sphere quadratic for a sphere at the
   origin, with a = dir.dir, b = 2 origin.dir and c = origin.origin - r^2.
   For a direction of positive length it is negative exactly when the whole
   line stays outside the sphere; when it is not negative, the point of the
   line nearest the centre lies in or on the sphere.
   */
  function Discriminant(origin: Vec3, dir: Vec3, radius: real): (d: real)
    ensures 0.0 < Dot(dir, dir) ==> (d < 0.0 <==> forall t :: Outside(PointAt(origin, dir, t), radius))
    ensures 0.0 < Dot(dir, dir) && 0.0 <= d ==> !Outside(PointAt(origin, dir, Nearest(origin, dir)), radius)
  {
    var a := Dot(dir, dir);
    var b := 2.0 * Dot(origin, dir);
    var c := Dot(origin, origin) - radius * radius;
    if 0.0 < a then DiscriminantSign(origin, dir, radius, a, b, c); QuadraticDiscriminant(a, b, c)
    else QuadraticDiscriminant(a, b, c)
  }

  /** b^2 - 4ac of the quadratic a t^2 + b t + c. */
  function QuadraticDiscriminant(a: real, b: real, c: real): real { b * b - 4.0 * a * c }

  /** |origin + t dir|^2 - r^2 is the quadratic a t^2 + b t + c of the discriminant. */
  lemma PointAtQuadratic(origin: Vec3, dir: Vec3, radius: real, t: real)
    ensures Dot(PointAt(origin, dir, t), PointAt(origin, dir, t)) - radius * radius ==
      Dot(dir, dir) * t * t + 2.0 * Dot(origin, dir) * t + (Dot(origin, origin) - radius * radius)
  {
  }

  /** A quadratic with a > 0 and a negative discriminant is positive everywhere. */
  lemma QuadraticPositive(a: real, b: real, c: real, t: real)
    requires 0.0 < a && b * b - 4.0 * a * c < 0.0
    ensures a * t * t + b * t + c > 0.0
  {
    var e, q := 2.0 * a * t + b, a * t * t + b * t + c;
    assert 4.0 * a * q == e * e - (b * b - 4.0 * a * c);
    SquareNonNegative(e);
    SignUnderPositive(a, q);
  }

  /** At its vertex t = -b / 2a, a quadratic with a > 0 takes the value -(b^2 - 4ac) / 4a. */
  lemma QuadraticAtVertex(a: real, b: real, c: real)
    requires 0.0 < a && 0.0 <= b * b - 4.0 * a * c
    ensures var t := -b / (2.0 * a); a * t * t + b * t + c <= 0.0
  {
    var t := -b / (2.0 * a);
    var q := a * t * t + b * t + c;
    assert 2.0 * a * t == -b;
    assert 4.0 * a * q == (2.0 * a * t) * (2.0 * a * t) + 2.0 * b * (2.0 * a * t) + 4.0 * a * c;
    assert 4.0 * a * q == -(b * b - 4.0 * a * c);
    SignUnderPositive(a, q);
  }

  lemma SquareNonNegative(e: real)
    ensures e * e >= 0.0
  {
    if e < 0.0 {
      assert e * e == (-e) * (-e);
    }
  }

  /** Multiplying by a positive 4a keeps the sign. */
  lemma SignUnderPositive(a: real, q: real)
    requires 0.0 < a
    ensures q > 0.0 <==> 4.0 * a * q > 0.0
  {
    if q > 0.0 {
      assert a * q > 0.0;
    } else {
      assert a * q <= 0.0;
    }
  }

  /** The sign of b^2 - 4ac decides whether the line along dir meets the sphere. */
  lemma DiscriminantSign(origin: Vec3, dir: Vec3, radius: real, a: real, b: real, c: real)
    requires a == Dot(dir, dir) && b == 2.0 * Dot(origin, dir) && c == Dot(origin, origin) - radius * radius
    requires 0.0 < a
    ensures QuadraticDiscriminant(a, b, c) < 0.0 ==> forall t :: Outside(PointAt(origin, dir, t), radius)
    ensures 0.0 <= QuadraticDiscriminant(a, b, c) ==> !Outside(PointAt(origin, dir, Nearest(origin, dir)), radius)
  {
    forall t
      ensures b * b - 4.0 * a * c < 0.0 ==> Outside(PointAt(origin, dir, t), radius)
    {
      PointAtQuadratic(origin, dir, radius, t);
      if b * b - 4.0 * a * c < 0.0 {
        QuadraticPositive(a, b, c, t);
      }
    }
    if 0.0 <= b * b - 4.0 * a * c {
      var t := Nearest(origin, dir);
      assert t == -b / (2.0 * a);
      PointAtQuadratic(origin, dir, radius, t);
      QuadraticAtVertex(a, b, c);
    }
  }

  /** Scaling the direction by k scales the discriminant by k^2. */
  lemma DiscriminantScales(origin: Vec3, dir: Vec3, radius: real, k: real)
    ensures Discriminant(origin, Scale(k, dir), radius) == k * k * Discriminant(origin, dir, radius)
  {
    var d := Scale(k, dir);
    var a, b, c := Dot(dir, dir), 2.0 * Dot(origin, dir), Dot(origin, origin) - radius * radius;
    assert Dot(d, d) == k * k * a;
    assert 2.0 * Dot(origin, d) == k * b;
    assert Discriminant(origin, d, radius) == QuadraticDiscriminant(k * k * a, k * b, c);
    ScaledQuadratic(a, b, c, k);
  }

  /** Replacing a by k^2 a and b by k b multiplies b^2 - 4ac by k^2. */
  lemma ScaledQuadratic(a: real, b: real, c: real, k: real)
    ensures QuadraticDiscriminant(k * k * a, k * b, c) == k * k * QuadraticDiscriminant(a, b, c)
  {
  }

  /** Multiplying by a positive square keeps the sign. */
  lemma SignUnderSquare(k: real, d: real, e: real)
    requires 0.0 < k && e == k * k * d
    ensures e < 0.0 <==> d < 0.0
  {
    if d < 0.0 {
      assert k * d < 0.0;
      assert k * (k * d) < 0.0;
    } else {
      assert k * d >= 0.0;
      assert k * (k * d) >= 0.0;
    }
  }

  /**
   The sign of the discriminant does not depend on the length of the
   direction, so the miss test on glm::normalize(dir) (a positive multiple of
   dir) gives the same answer as the test on dir itself.
   */
  lemma MissTestScaleInvariant(origin: Vec3, dir: Vec3, radius: real, k: real)
    requires 0.0 < k
    ensures Discriminant(origin, Scale(k, dir), radius) < 0.0 <==> Discriminant(origin, dir, radius) < 0.0
  {
    DiscriminantScales(origin, dir, radius, k);
    SignUnderSquare(k, Discriminant(origin, dir, radius), Discriminant(origin, Scale(k, dir), radius));
  }

  /**
   The ray direction (coord.x, coord.y, -1) before it is normalised. Its
   squared length is at least 1, so glm::normalize never divides by zero, and
   it points down the z axis, from the camera towards the sphere.
   */
  function RayDirection(coord: Coord): (d: Vec3)
    ensures 1.0 <= Dot(d, d)
    ensures d.z < 0.0
  {
    Vec3(coord.x, coord.y, -1.0)
  }

  /** The nearest point of the ray's line lies ahead of the camera, not behind it. */
  lemma NearestIsAhead(coord: Coord)
    ensures 0.0 <= Nearest(RayOrigin, RayDirection(coord))
  {
    var d := RayDirection(coord);
    assert Dot(RayOrigin, d) == -1.5;
  }

  /**
   The miss test: the discriminant is negative. It holds exactly when no point
   of the ray from the camera, t >= 0, lies in or on the sphere.
   */
  function Misses(coord: Coord): (m: bool)
    ensures m <==> forall t :: 0.0 <= t ==> Outside(PointAt(RayOrigin, RayDirection(coord), t), SphereRadius)
  {
    NearestIsAhead(coord);
    Discriminant(RayOrigin, RayDirection(coord), SphereRadius) < 0.0
  }

  /**
   For this ray origin and radius the discriminant is 1 - 8 (x^2 + y^2), so a
   ray misses exactly when its coordinate lies outside the disc x^2 + y^2 <= 1/8.
   */
  lemma MissIffOutsideDisc(coord: Coord)
    ensures Misses(coord) <==> coord.x * coord.x + coord.y * coord.y > 0.125
  {
    var d := RayDirection(coord);
    assert Dot(d, d) == coord.x * coord.x + coord.y * coord.y + 1.0;
    assert Dot(RayOrigin, d) == -1.5;
    assert Discriminant(RayOrigin, d, SphereRadius) == 1.0 - 8.0 * (coord.x * coord.x + coord.y * coord.y);
  }

  function Opaque(c: Rgb): Rgba { Rgba(c.r, c.g, c.b, 1.0) }

  /**
   Renderer::PerPixel: the sky colour when the ray misses the sphere and the
   lit colour otherwise, in both cases with alpha 1.
   */
  function PerPixel(coord: Coord, shaders: Shaders): (c: Rgba)
    ensures c.a == 1.0
    ensures Misses(coord) ==> c == Opaque(shaders.sky(coord))
    ensures !Misses(coord) ==> c == Opaque(shaders.lit(coord))
  {
    var a := Dot(RayDirection(coord), RayDirection(coord));
    var b := 2.0 * Dot(RayOrigin, RayDirection(coord));
    var c := Dot(RayOrigin, RayOrigin) - SphereRadius * SphereRadius;
    var discriminant := b * b - 4.0 * a * c;
    if discriminant < 0.0 then Opaque(shaders.sky(coord)) else Opaque(shaders.lit(coord))
  }

  /** A coordinate far enough from the centre always shows the sky. */
  lemma PerPixelOutsideDiscIsSky(coord: Coord, shaders: Shaders)
    requires coord.x * coord.x + coord.y * coord.y > 0.125
    ensures PerPixel(coord, shaders) == Opaque(shaders.sky(coord))
  {
    MissIffOutsideDisc(coord);
  }
}
