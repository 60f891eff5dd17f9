/**
 * GLWidget3D.cpp: normalizeObjectSize, which moves and scales the polygon
 * buffer so that the model's bounding box is centred on the origin and its
 * longest side has length 1.
 *
 * The buffer is a vector of polygons, each a vector of vertices. The outer
 * vector is an array here (its length never changes); each polygon is a
 * sequence that the method reassigns when it rewrites a position.
 */
module GLWidget3D {
  import opened Glm

  /** FLT_MAX, the largest finite 32-bit float: the start value of minPt, and negated of maxPt. */
  const FloatMax: real := 340282346638528859811704183484516925440.0

  datatype Color = Color(r: real, g: real, b: real, a: real)

  /** One vertex of an emitted polygon. */
  datatype Vertex = Vertex(position: Vec3, normal: Vec3, color: Color)

  /** std::min and std::max. */
  function Min(a: real, b: real): real {
    if b < a then b else a
  }

  function Max(a: real, b: real): real {
    if a < b then b else a
  }

  /** The positions of a polygon's vertices, in order. */
  function PolygonPositions(poly: seq<Vertex>): (ps: seq<Vec3>)
    ensures |ps| == |poly|
    ensures forall j :: 0 <= j < |poly| ==> ps[j] == poly[j].position
  {
    seq(|poly|, j requires 0 <= j < |poly| => poly[j].position)
  }

  /** Every vertex position of the buffer, in the order the nested loops visit them. */
  function Positions(buf: seq<seq<Vertex>>): seq<Vec3> {
    if buf == [] then [] else Positions(buf[..|buf| - 1]) + PolygonPositions(buf[|buf| - 1])
  }

  /** The value minPt's component along a reaches after visiting ps. */
  function Lowest(ps: seq<Vec3>, a: Axis): real {
    if ps == [] then FloatMax else Min(Lowest(ps[..|ps| - 1], a), ps[|ps| - 1].At(a))
  }

  /** The value maxPt's component along a reaches after visiting ps. */
  function Highest(ps: seq<Vec3>, a: Axis): real {
    if ps == [] then -FloatMax else Max(Highest(ps[..|ps| - 1], a), ps[|ps| - 1].At(a))
  }

  function BoxMin(ps: seq<Vec3>): (lo: Vec3)
    ensures forall a: Axis :: lo.At(a) == Lowest(ps, a)
  {
    Vec3(Lowest(ps, X), Lowest(ps, Y), Lowest(ps, Z))
  }

  function BoxMax(ps: seq<Vec3>): (hi: Vec3)
    ensures forall a: Axis :: hi.At(a) == Highest(ps, a)
  {
    Vec3(Highest(ps, X), Highest(ps, Y), Highest(ps, Z))
  }

  /** `(maxPt + minPt) * 0.5f`: the point halfway between the corners. */
  function Center(lo: Vec3, hi: Vec3): (c: Vec3)
    ensures Sub(c, lo) == Sub(hi, c)
  {
    Scale(Add(hi, lo), 0.5)
  }

  /** The largest of the three extents of the box. */
  function Size(lo: Vec3, hi: Vec3): (s: real)
    ensures forall a: Axis :: hi.At(a) - lo.At(a) <= s
    ensures exists a: Axis :: hi.At(a) - lo.At(a) == s
  {
    var s := Max(hi.x - lo.x, Max(hi.y - lo.y, hi.z - lo.z));
    assert hi.At(X) - lo.At(X) <= s && hi.At(Y) - lo.At(Y) <= s && hi.At(Z) - lo.At(Z) <= s;
    assert hi.At(X) - lo.At(X) == s || hi.At(Y) - lo.At(Y) == s || hi.At(Z) - lo.At(Z) == s;
    s
  }

  /** The size the method divides by, for a whole buffer. */
  function BufferSize(buf: seq<seq<Vertex>>): real {
    Size(BoxMin(Positions(buf)), BoxMax(Positions(buf)))
  }

  /** Every position moved by -center and scaled by scale; everything else kept. */
  function Rescaled(buf: seq<seq<Vertex>>, center: Vec3, scale: real): (r: seq<seq<Vertex>>)
    ensures |r| == |buf|
    ensures forall i :: 0 <= i < |buf| ==> |r[i]| == |buf[i]|
    ensures forall i, j :: 0 <= i < |buf| && 0 <= j < |buf[i]| ==>
      r[i][j].normal == buf[i][j].normal && r[i][j].color == buf[i][j].color &&
      r[i][j].position == Scale(Sub(buf[i][j].position, center), scale)
  {
    seq(|buf|, i requires 0 <= i < |buf| => RescalePolygon(buf[i], center, scale))
  }

  function RescalePolygon(poly: seq<Vertex>, center: Vec3, scale: real): seq<Vertex> {
    seq(|poly|, j requires 0 <= j < |poly| =>
      poly[j].(position := Scale(Sub(poly[j].position, center), scale)))
  }

  /** The buffer normalizeObjectSize leaves behind. */
  function Normalized(buf: seq<seq<Vertex>>): (r: seq<seq<Vertex>>)
    requires BufferSize(buf) != 0.0
    ensures |r| == |buf|
    ensures forall i :: 0 <= i < |buf| ==> |r[i]| == |buf[i]|
    ensures forall i, j :: 0 <= i < |buf| && 0 <= j < |buf[i]| ==>
      r[i][j].normal == buf[i][j].normal && r[i][j].color == buf[i][j].color
  {
    var lo, hi := BoxMin(Positions(buf)), BoxMax(Positions(buf));
    Rescaled(buf, Center(lo, hi), 1.0 / Size(lo, hi))
  }

  /** Visiting one more position updates each corner component with std::min / std::max. */
  lemma BoxStep(ps: seq<Vec3>, p: Vec3)
    ensures BoxMin(ps + [p]) == Vec3(Min(BoxMin(ps).x, p.x), Min(BoxMin(ps).y, p.y), Min(BoxMin(ps).z, p.z))
    ensures BoxMax(ps + [p]) == Vec3(Max(BoxMax(ps).x, p.x), Max(BoxMax(ps).y, p.y), Max(BoxMax(ps).z, p.z))
  {
    assert (ps + [p])[..|ps|] == ps;
  }

  /** The positions visited so far, after one more vertex of the current polygon. */
  lemma VisitStep(seen: seq<Vec3>, poly: seq<Vertex>, j: nat)
    requires j < |poly|
    ensures seen + PolygonPositions(poly[..j + 1]) == seen + PolygonPositions(poly[..j]) + [poly[j].position]
  {
    assert PolygonPositions(poly[..j + 1]) == PolygonPositions(poly[..j]) + [poly[j].position];
  }

  /** Positions over one more polygon. */
  lemma PositionsStep(buf: seq<seq<Vertex>>)
    requires buf != []
    ensures Positions(buf) == Positions(buf[..|buf| - 1]) + PolygonPositions(buf[|buf| - 1])
  {
  }

  /**
   * The first nested loop of normalizeObjectSize: minPt and maxPt over
   * every vertex position, starting from FLT_MAX and -FLT_MAX.
   */
  method ComputeBounds(vertices: array<seq<Vertex>>) returns (minPt: Vec3, maxPt: Vec3)
    ensures minPt == BoxMin(Positions(vertices[..]))
    ensures maxPt == BoxMax(Positions(vertices[..]))
  {
    minPt := Vec3(FloatMax, FloatMax, FloatMax);
    maxPt := Neg(minPt);
    for i := 0 to vertices.Length
      invariant minPt == BoxMin(Positions(vertices[..i]))
      invariant maxPt == BoxMax(Positions(vertices[..i]))
    {
      ghost var seen := Positions(vertices[..i]);
      var poly := vertices[i];
      assert seen + PolygonPositions(poly[..0]) == seen;
      for j := 0 to |vertices[i]|
        invariant minPt == BoxMin(seen + PolygonPositions(poly[..j]))
        invariant maxPt == BoxMax(seen + PolygonPositions(poly[..j]))
      {
        var p := poly[j].position;
        ghost var ps := seen + PolygonPositions(poly[..j]);
        VisitStep(seen, poly, j);
        BoxStep(ps, p);
        minPt := minPt.(x := Min(minPt.x, p.x));
        minPt := minPt.(y := Min(minPt.y, p.y));
        minPt := minPt.(z := Min(minPt.z, p.z));
        maxPt := maxPt.(x := Max(maxPt.x, p.x));
        maxPt := maxPt.(y := Max(maxPt.y, p.y));
        maxPt := maxPt.(z := Max(maxPt.z, p.z));
        assert minPt == BoxMin(ps + [p]) && maxPt == BoxMax(ps + [p]);
      }
      assert poly[..|poly|] == poly;
      PositionsStep(vertices[..i + 1]);
      assert vertices[..i + 1][..i] == vertices[..i];
    }
    assert vertices[..vertices.Length] == vertices[..];
  }

  /**
   * A polygon whose first j vertices have been rescaled: its length, its
   * vertex j still as it was, and rescaling that vertex in place extends
   * the rescaled prefix by one.
   */
  lemma RescaledPrefix(poly: seq<Vertex>, center: Vec3, scale: real, j: nat)
    requires j <= |poly|
    ensures var r := RescalePolygon(poly, center, scale);
      |r[..j] + poly[j..]| == |poly| &&
      (j == 0 ==> r[..j] + poly[j..] == poly) &&
      (j == |poly| ==> r[..j] + poly[j..] == r) &&
      (j < |poly| ==>
        (r[..j] + poly[j..])[j] == poly[j] &&
        (r[..j] + poly[j..])[j := poly[j].(position := Scale(Sub(poly[j].position, center), scale))] ==
        r[..j + 1] + poly[j + 1..])
  {
    var r := RescalePolygon(poly, center, scale);
    if j == 0 {
      assert r[..j] + poly[j..] == poly;
    }
    if j == |poly| {
      assert r[..j] + poly[j..] == r;
    }
  }

  /**
   * The inner loop of the rescale: polygon i is rewritten one vertex at a
   * time; the other polygons are untouched.
   */
  method RescaleInPlace(vertices: array<seq<Vertex>>, i: nat, center: Vec3, scale: real)
    requires i < vertices.Length
    modifies vertices
    ensures vertices[..] == old(vertices[..])[i := RescalePolygon(old(vertices[i]), center, scale)]
  {
    ghost var poly := vertices[i];
    RescaledPrefix(poly, center, scale, 0);
    for j := 0 to |vertices[i]|
      invariant vertices[..] == old(vertices[..])[i := RescalePolygon(poly, center, scale)[..j] + poly[j..]]
    {
      RescaledPrefix(poly, center, scale, j);
      var v := vertices[i][j];
      vertices[i] := vertices[i][j := v.(position := Scale(Sub(v.position, center), scale))];
    }
    RescaledPrefix(poly, center, scale, |poly|);
  }

  /**
   * GLWidget3D::normalizeObjectSize. The source divides by the size, so a
   * size of zero (every vertex at one point) is excluded; an empty buffer
   * has a negative size (-2 * FLT_MAX over reals, -inf in float) and is
   * left as it is.
   */
  method NormalizeObjectSize(vertices: array<seq<Vertex>>)
    requires BufferSize(vertices[..]) != 0.0
    modifies vertices
    ensures vertices[..] == Normalized(old(vertices[..]))
  {
    var minPt, maxPt := ComputeBounds(vertices);
    var center := Center(minPt, maxPt);
    var size := Size(minPt, maxPt);
    var scale := 1.0 / size;
    ghost var before := vertices[..];
    for i := 0 to vertices.Length
      invariant forall k :: 0 <= k < i ==> vertices[k] == RescalePolygon(before[k], center, scale)
      invariant forall k :: i <= k < vertices.Length ==> vertices[k] == before[k]
    {
      RescaleInPlace(vertices, i, center, scale);
    }
    assert vertices[..] == Normalized(before);
  }

  // ---------------------------------------------------------------------
  // Properties
  // ---------------------------------------------------------------------

  /** Every coordinate is a finite 32-bit float. */
  ghost predicate FiniteCoordinates(buf: seq<seq<Vertex>>) {
    forall i, j, a: Axis :: 0 <= i < |buf| && 0 <= j < |buf[i]| ==>
      -FloatMax <= buf[i][j].position.At(a) <= FloatMax
  }

  /** Each vertex's position occurs in Positions. */
  lemma {:induction false} PositionListed(buf: seq<seq<Vertex>>, i: nat, j: nat)
    requires i < |buf| && j < |buf[i]|
    ensures buf[i][j].position in Positions(buf)
  {
    var init := buf[..|buf| - 1];
    if i < |buf| - 1 {
      PositionListed(init, i, j);
    } else {
      assert PolygonPositions(buf[i])[j] == buf[i][j].position;
    }
  }

  /** Each entry of Positions is the position of some vertex. */
  lemma {:induction false} PositionOrigin(buf: seq<seq<Vertex>>, k: nat)
    requires k < |Positions(buf)|
    ensures exists i, j :: 0 <= i < |buf| && 0 <= j < |buf[i]| && buf[i][j].position == Positions(buf)[k]
  {
    var init := buf[..|buf| - 1];
    var n := |Positions(init)|;
    if k < n {
      PositionOrigin(init, k);
      var i, j :| 0 <= i < |init| && 0 <= j < |init[i]| && init[i][j].position == Positions(init)[k];
      assert buf[i][j].position == Positions(buf)[k];
    } else {
      var i, j := |buf| - 1, k - n;
      assert buf[i][j].position == Positions(buf)[k];
    }
  }

  /**
   * When no coordinate exceeds FLT_MAX, minPt is exactly the least
   * coordinate along each axis over a non-empty buffer: no larger than any,
   * and equal to one.
   */
  lemma {:induction false} LowestIsMinimum(ps: seq<Vec3>, a: Axis)
    requires ps != []
    requires forall k :: 0 <= k < |ps| ==> ps[k].At(a) <= FloatMax
    ensures forall k :: 0 <= k < |ps| ==> Lowest(ps, a) <= ps[k].At(a)
    ensures exists k :: 0 <= k < |ps| && Lowest(ps, a) == ps[k].At(a)
  {
    var init := ps[..|ps| - 1];
    if init == [] {
      assert Lowest(ps, a) == ps[0].At(a);
    } else {
      LowestIsMinimum(init, a);
      var k0 :| 0 <= k0 < |init| && Lowest(init, a) == init[k0].At(a);
      if Lowest(ps, a) == Lowest(init, a) {
        assert Lowest(ps, a) == ps[k0].At(a);
      } else {
        assert Lowest(ps, a) == ps[|ps| - 1].At(a);
      }
    }
  }

  /** Likewise maxPt is exactly the greatest coordinate along each axis. */
  lemma {:induction false} HighestIsMaximum(ps: seq<Vec3>, a: Axis)
    requires ps != []
    requires forall k :: 0 <= k < |ps| ==> -FloatMax <= ps[k].At(a)
    ensures forall k :: 0 <= k < |ps| ==> ps[k].At(a) <= Highest(ps, a)
    ensures exists k :: 0 <= k < |ps| && Highest(ps, a) == ps[k].At(a)
  {
    var init := ps[..|ps| - 1];
    if init == [] {
      assert Highest(ps, a) == ps[0].At(a);
    } else {
      HighestIsMaximum(init, a);
      var k0 :| 0 <= k0 < |init| && Highest(init, a) == init[k0].At(a);
      if Highest(ps, a) == Highest(init, a) {
        assert Highest(ps, a) == ps[k0].At(a);
      } else {
        assert Highest(ps, a) == ps[|ps| - 1].At(a);
      }
    }
  }

  /** Every vertex position lies within the box the first loop computes. */
  lemma InsideBox(buf: seq<seq<Vertex>>, i: nat, j: nat, a: Axis)
    requires FiniteCoordinates(buf)
    requires i < |buf| && j < |buf[i]|
    ensures Lowest(Positions(buf), a) <= buf[i][j].position.At(a) <= Highest(Positions(buf), a)
  {
    var ps := Positions(buf);
    PositionListed(buf, i, j);
    forall k | 0 <= k < |ps|
      ensures -FloatMax <= ps[k].At(a) <= FloatMax
    {
      PositionOrigin(buf, k);
    }
    LowestIsMinimum(ps, a);
    HighestIsMaximum(ps, a);
  }

  lemma ScaleSubAt(p: Vec3, c: Vec3, s: real, a: Axis)
    ensures Scale(Sub(p, c), s).At(a) == (p.At(a) - c.At(a)) * s
  {
    match a
    case X =>
    case Y =>
    case Z =>
  }

  lemma CenterAt(lo: Vec3, hi: Vec3, a: Axis)
    ensures Center(lo, hi).At(a) == (hi.At(a) + lo.At(a)) * 0.5
  {
    match a
    case X =>
    case Y =>
    case Z =>
  }

  lemma Reciprocal(size: real, s: real)
    requires size != 0.0 && s == 1.0 / size
    ensures s * size == 1.0
  {
  }

  lemma MulNonNegative(x: real, y: real)
    requires x >= 0.0 && y >= 0.0
    ensures x * y >= 0.0
  {
  }

  /**
   * The arithmetic behind the rescale: an offset d with |2d| <= w <= size,
   * multiplied by s = 1/size, lies in [-0.5, 0.5], reaching an end exactly
   * when w == size and d is at an end of its range.
   */
  lemma ScaledIntoUnit(d: real, w: real, size: real, s: real)
    requires size > 0.0 && s * size == 1.0
    requires 0.0 <= w <= size && -w <= 2.0 * d <= w
    ensures -0.5 <= d * s <= 0.5
    ensures w == size && 2.0 * d == -w ==> d * s == -0.5
    ensures w == size && 2.0 * d == w ==> d * s == 0.5
  {
    assert s > 0.0;
    MulNonNegative(size - 2.0 * d, s);
    MulNonNegative(size + 2.0 * d, s);
  }

  /**
   * Rescaling about the middle c of a box no side of which is longer than
   * size, by s = 1/size, puts every coordinate of a point in the box into
   * [-0.5, 0.5]; the two ends of a side of length exactly size go to -0.5
   * and 0.5.
   */
  lemma RescaledCoordinate(buf: seq<seq<Vertex>>, i: nat, j: nat, a: Axis, lo: Vec3, hi: Vec3, c: Vec3, size: real, s: real)
    requires i < |buf| && j < |buf[i]|
    requires size > 0.0 && s * size == 1.0
    requires hi.At(a) - lo.At(a) <= size && c.At(a) == (hi.At(a) + lo.At(a)) * 0.5
    requires lo.At(a) <= buf[i][j].position.At(a) <= hi.At(a)
    ensures -0.5 <= Rescaled(buf, c, s)[i][j].position.At(a) <= 0.5
    ensures hi.At(a) - lo.At(a) == size && buf[i][j].position.At(a) == lo.At(a) ==>
      Rescaled(buf, c, s)[i][j].position.At(a) == -0.5
    ensures hi.At(a) - lo.At(a) == size && buf[i][j].position.At(a) == hi.At(a) ==>
      Rescaled(buf, c, s)[i][j].position.At(a) == 0.5
  {
    var p := buf[i][j].position;
    ScaleSubAt(p, c, s, a);
    ScaledIntoUnit(p.At(a) - c.At(a), hi.At(a) - lo.At(a), size, s);
  }

  /** RescaledCoordinate for every vertex and axis of a buffer inside the box. */
  lemma RescaledFitsUnitCube(buf: seq<seq<Vertex>>, lo: Vec3, hi: Vec3, c: Vec3, size: real, s: real)
    requires size > 0.0 && s * size == 1.0
    requires forall a: Axis :: hi.At(a) - lo.At(a) <= size && c.At(a) == (hi.At(a) + lo.At(a)) * 0.5
    requires forall i, j, a: Axis :: 0 <= i < |buf| && 0 <= j < |buf[i]| ==>
      lo.At(a) <= buf[i][j].position.At(a) <= hi.At(a)
    ensures forall i, j, a: Axis :: 0 <= i < |buf| && 0 <= j < |buf[i]| ==>
      -0.5 <= Rescaled(buf, c, s)[i][j].position.At(a) <= 0.5
  {
    forall i, j, a: Axis | 0 <= i < |buf| && 0 <= j < |buf[i]|
      ensures -0.5 <= Rescaled(buf, c, s)[i][j].position.At(a) <= 0.5
    {
      RescaledCoordinate(buf, i, j, a, lo, hi, c, size, s);
    }
  }

  /**
   * After normalisation every coordinate lies in [-0.5, 0.5]: the model
   * fits the unit cube centred on the origin.
   */
  lemma NormalizedFitsUnitCube(buf: seq<seq<Vertex>>)
    requires FiniteCoordinates(buf) && BufferSize(buf) > 0.0
    ensures forall i, j, a: Axis :: 0 <= i < |buf| && 0 <= j < |buf[i]| ==>
      -0.5 <= Normalized(buf)[i][j].position.At(a) <= 0.5
  {
    var lo, hi := BoxMin(Positions(buf)), BoxMax(Positions(buf));
    var c, size := Center(lo, hi), Size(lo, hi);
    var s := 1.0 / size;
    Reciprocal(size, s);
    forall a: Axis
      ensures hi.At(a) - lo.At(a) <= size && c.At(a) == (hi.At(a) + lo.At(a)) * 0.5
    {
      CenterAt(lo, hi, a);
    }
    forall i, j, a: Axis | 0 <= i < |buf| && 0 <= j < |buf[i]|
      ensures lo.At(a) <= buf[i][j].position.At(a) <= hi.At(a)
    {
      InsideBox(buf, i, j, a);
    }
    RescaledFitsUnitCube(buf, lo, hi, c, size, s);
  }

  /** Some vertex of buf has coordinate v along a. */
  ghost predicate Attains(buf: seq<seq<Vertex>>, a: Axis, v: real) {
    exists i, j :: 0 <= i < |buf| && 0 <= j < |buf[i]| && buf[i][j].position.At(a) == v
  }

  /** Over a buffer with some vertex, minPt and maxPt are coordinates of vertices. */
  lemma BoxAttained(buf: seq<seq<Vertex>>, a: Axis)
    requires FiniteCoordinates(buf) && Positions(buf) != []
    ensures Attains(buf, a, Lowest(Positions(buf), a))
    ensures Attains(buf, a, Highest(Positions(buf), a))
  {
    var ps := Positions(buf);
    forall k | 0 <= k < |ps|
      ensures -FloatMax <= ps[k].At(a) <= FloatMax
    {
      PositionOrigin(buf, k);
    }
    LowestIsMinimum(ps, a);
    HighestIsMaximum(ps, a);
    var kl :| 0 <= kl < |ps| && Lowest(ps, a) == ps[kl].At(a);
    var kh :| 0 <= kh < |ps| && Highest(ps, a) == ps[kh].At(a);
    PositionOrigin(buf, kl);
    PositionOrigin(buf, kh);
  }

  /** RescaledCoordinate at the two ends of a side of length size. */
  lemma RescaledSpansSide(buf: seq<seq<Vertex>>, a: Axis, lo: Vec3, hi: Vec3, c: Vec3, size: real, s: real)
    requires size > 0.0 && s * size == 1.0
    requires hi.At(a) - lo.At(a) == size && c.At(a) == (hi.At(a) + lo.At(a)) * 0.5
    requires Attains(buf, a, lo.At(a)) && Attains(buf, a, hi.At(a))
    ensures Attains(Rescaled(buf, c, s), a, -0.5) && Attains(Rescaled(buf, c, s), a, 0.5)
  {
    var il, jl :| 0 <= il < |buf| && 0 <= jl < |buf[il]| && buf[il][jl].position.At(a) == lo.At(a);
    var ih, jh :| 0 <= ih < |buf| && 0 <= jh < |buf[ih]| && buf[ih][jh].position.At(a) == hi.At(a);
    RescaledCoordinate(buf, il, jl, a, lo, hi, c, size, s);
    RescaledCoordinate(buf, ih, jh, a, lo, hi, c, size, s);
  }

  /** The empty buffer's box has negative size, so a positive size means some vertex. */
  lemma NonEmptyWhenSized(buf: seq<seq<Vertex>>)
    requires BufferSize(buf) > 0.0
    ensures Positions(buf) != []
  {
  }

  /**
   * Along every axis of maximal extent the normalized model touches both
   * faces of the unit cube: some vertex lies at -0.5 and some at 0.5.
   */
  lemma NormalizedSpansLongestAxis(buf: seq<seq<Vertex>>)
    requires FiniteCoordinates(buf) && BufferSize(buf) > 0.0
    ensures forall a: Axis :: BoxMax(Positions(buf)).At(a) - BoxMin(Positions(buf)).At(a) == BufferSize(buf) ==>
      Attains(Normalized(buf), a, -0.5) && Attains(Normalized(buf), a, 0.5)
  {
    forall a: Axis | BoxMax(Positions(buf)).At(a) - BoxMin(Positions(buf)).At(a) == BufferSize(buf)
      ensures Attains(Normalized(buf), a, -0.5) && Attains(Normalized(buf), a, 0.5)
    {
      LongestAxisSpans(buf, a);
    }
  }

  /** NormalizedSpansLongestAxis for one axis of maximal extent. */
  lemma LongestAxisSpans(buf: seq<seq<Vertex>>, a: Axis)
    requires FiniteCoordinates(buf) && BufferSize(buf) > 0.0
    requires BoxMax(Positions(buf)).At(a) - BoxMin(Positions(buf)).At(a) == BufferSize(buf)
    ensures Attains(Normalized(buf), a, -0.5) && Attains(Normalized(buf), a, 0.5)
  {
    var ps := Positions(buf);
    var lo, hi := BoxMin(ps), BoxMax(ps);
    var c, size := Center(lo, hi), Size(lo, hi);
    var s := 1.0 / size;
    assert Attains(Rescaled(buf, c, s), a, -0.5) && Attains(Rescaled(buf, c, s), a, 0.5) by {
      Reciprocal(size, s);
      CenterAt(lo, hi, a);
      NonEmptyWhenSized(buf);
      BoxAttained(buf, a);
      RescaledSpansSide(buf, a, lo, hi, c, size, s);
    }
    assert Normalized(buf) == Rescaled(buf, c, s);
  }

  /** An empty buffer (no geometry was generated) is accepted and left empty. */
  lemma EmptyBufferUnchanged()
    ensures BufferSize([]) != 0.0 && Normalized([]) == []
  {
  }
}
