/** The field elements of `magnetic_field` (ahrs/utils/wmm.py:832-849): the rotation of
    the geocentric components into the geodetic frame (equation 17 of the WMM report),
    the intensities H and F, inclination I and declination D (equation 19), and the
    grivation GV (equation 1). The square root behind np.linalg.norm and the arctangent
    behind np.arctan2 (with the conversion to degrees) are parameters. */
module Elements {
  import opened Legendre

  datatype Vector = Vector(x: real, y: real, z: real)

  function NormSq(v: Vector): real {
    v.x * v.x + v.y * v.y + v.z * v.z
  }

  /** Equation 17: X and Z turned by psi = phi' - phi, with Y unchanged. */
  function ToGeodetic(p: Vector, sinPsi: real, cosPsi: real): Vector {
    Vector(p.x * cosPsi - p.z * sinPsi, p.y, p.x * sinPsi + p.z * cosPsi)
  }

  /** The rotation keeps the total intensity. */
  lemma RotationKeepsIntensity(p: Vector, sinPsi: real, cosPsi: real)
    requires sinPsi * sinPsi + cosPsi * cosPsi == 1.0
    ensures NormSq(ToGeodetic(p, sinPsi, cosPsi)) == NormSq(p)
  {
    var v := ToGeodetic(p, sinPsi, cosPsi);
    assert v.x * v.x + v.z * v.z == (p.x * p.x + p.z * p.z) * (sinPsi * sinPsi + cosPsi * cosPsi);
  }

  /** Turning back by -psi restores the geocentric components. */
  lemma RotationUndone(p: Vector, sinPsi: real, cosPsi: real)
    requires sinPsi * sinPsi + cosPsi * cosPsi == 1.0
    ensures ToGeodetic(ToGeodetic(p, sinPsi, cosPsi), -sinPsi, cosPsi) == p
  {
    var v := ToGeodetic(p, sinPsi, cosPsi);
    assert v.x * cosPsi + v.z * sinPsi == p.x * (sinPsi * sinPsi + cosPsi * cosPsi);
    assert -v.x * sinPsi + v.z * cosPsi == p.z * (sinPsi * sinPsi + cosPsi * cosPsi);
  }

  /** The eight elements of `magnetic_elements`. */
  datatype Field = Field(X: real, Y: real, Z: real, H: real, F: real, I: real, D: real, GV: real)

  /** Grivation (equation 1): the declination, less the longitude north of 55 degrees
      latitude and plus the longitude south of -55 degrees. */
  function Grivation(d: real, latitude: real, longitude: real): real {
    var gv := d;
    var gv := if latitude > 55.0 then gv - longitude else gv;
    if latitude < -55.0 then gv + longitude else gv
  }

  /** The three latitude bands: exactly one rule applies, and between the bands GV = D. */
  lemma GrivationBands(d: real, latitude: real, longitude: real)
    ensures latitude > 55.0 ==> Grivation(d, latitude, longitude) == d - longitude
    ensures latitude < -55.0 ==> Grivation(d, latitude, longitude) == d + longitude
    ensures -55.0 <= latitude <= 55.0 ==> Grivation(d, latitude, longitude) == d
    ensures (if latitude > 55.0 then 1 else 0) + (if latitude < -55.0 then 1 else 0)
      + (if -55.0 <= latitude <= 55.0 then 1 else 0) == 1
  {
  }

  /** The declination is recovered from the grivation at the same place. */
  function DeclinationOf(gv: real, latitude: real, longitude: real): real {
    if latitude > 55.0 then gv + longitude else if latitude < -55.0 then gv - longitude else gv
  }

  lemma GrivationInvertible(d: real, latitude: real, longitude: real)
    ensures DeclinationOf(Grivation(d, latitude, longitude), latitude, longitude) == d
  {
  }

  /** Mirroring the place through the Earth's centre leaves the grivation unchanged. */
  lemma GrivationMirrors(d: real, latitude: real, longitude: real)
    ensures Grivation(d, -latitude, -longitude) == Grivation(d, latitude, longitude)
  {
  }

  /** H = |(X, Y)|, F = |(H, Z)|, I = atan2(Z, H), D = atan2(Y, X) in degrees, and GV. */
  function ElementsOf(root: real -> real, atan2: (real, real) -> real, v: Vector, latitude: real, longitude: real)
    : (f: Field)
    ensures f.X == v.x && f.Y == v.y && f.Z == v.z
    ensures IsSqrt(root) ==> 0.0 <= f.H <= f.F && f.H * f.H == v.x * v.x + v.y * v.y && f.F * f.F == NormSq(v)
    ensures f.GV == Grivation(f.D, latitude, longitude)
  {
    var h := root(v.x * v.x + v.y * v.y);
    var f := root(h * h + v.z * v.z);
    IntensitiesOrdered(root, v, h, f);
    var d := atan2(v.y, v.x);
    Field(v.x, v.y, v.z, h, f, atan2(v.z, h), d, Grivation(d, latitude, longitude))
  }

  /** With a true square root, 0 <= H <= F, H^2 = X^2 + Y^2 and F^2 = X^2 + Y^2 + Z^2. */
  lemma IntensitiesOrdered(root: real -> real, v: Vector, h: real, f: real)
    requires h == root(v.x * v.x + v.y * v.y) && f == root(h * h + v.z * v.z)
    ensures IsSqrt(root) ==> 0.0 <= h <= f && h * h == v.x * v.x + v.y * v.y && f * f == NormSq(v)
  {
    if IsSqrt(root) {
      var a := v.x * v.x + v.y * v.y;
      assert 0.0 <= a && 0.0 <= v.z * v.z;
      assert 0.0 <= h && h * h == a;
      RootMonotone(root, h * h, h * h + v.z * v.z);
      RootOfSquare(root, h);
      assert f * f == h * h + v.z * v.z;
    }
  }

  /** The root of h*h, for h >= 0, is h. */
  lemma RootOfSquare(root: real -> real, h: real)
    requires IsSqrt(root) && 0.0 <= h
    ensures root(h * h) == h
  {
    var r := root(h * h);
    assert 0.0 <= r && r * r == h * h;
    if r < h {
      SquareGrows(r, h);
    } else if r > h {
      SquareGrows(h, r);
    }
  }

  /** The root of the larger of two non-negative numbers is the larger root. */
  lemma RootMonotone(root: real -> real, a: real, b: real)
    requires IsSqrt(root) && 0.0 <= a <= b
    ensures root(a) <= root(b)
  {
    var x, y := root(a), root(b);
    assert 0.0 <= x && 0.0 <= y && x * x == a && y * y == b;
    if x > y {
      SquareGrows(y, x);
    }
  }

  /** Squaring is strictly increasing on the non-negative reals. */
  lemma SquareGrows(a: real, b: real)
    requires 0.0 <= a < b
    ensures a * a < b * b
  {
    assert a * (b - a) >= 0.0;
    assert b * (b - a) > 0.0;
  }
}
