/**
 * Utils.cpp: decimal snapping (round1 / round2, scalar and vec3) and the
 * guard and vertex clean-up of union_polygons.
 *
 * The exact 2D boolean union (CGAL's join on the projected polygons, with
 * the projection into the plane of the first polygon and the lift back to
 * 3D) is a parameter of UnionPolygons: an oracle that either fails or
 * yields the outer boundary of the union, already lifted to 3D.
 */
module Utils {
  import opened Glm

  datatype Option<T> = None | Some(value: T)

  function Abs(x: real): real {
    if x < 0.0 then -x else x
  }

  // ---------------------------------------------------------------------
  // Decimal snapping
  // ---------------------------------------------------------------------

  /** C++'s `(int)` conversion of a floating-point value: truncation toward zero. */
  function Trunc(x: real): (n: int)
    ensures x >= 0.0 ==> 0 <= n && n as real <= x < n as real + 1.0
    ensures x < 0.0 ==> n <= 0 && n as real - 1.0 < x <= n as real
  {
    if x >= 0.0 then x.Floor else -((-x).Floor)
  }

  /**
   * Reference definition: n is x rounded to the nearest integer, an exact
   * tie going to the integer farther from zero.
   */
  ghost predicate RoundsHalfAway(x: real, n: int) {
    Abs(n as real - x) <= 0.5 && (Abs(n as real - x) == 0.5 ==> Abs(n as real) > Abs(x))
  }

  /** At most one integer rounds x to the nearest, halves away from zero. */
  lemma RoundsHalfAwayUnique(x: real, m: int, n: int)
    requires RoundsHalfAway(x, m) && RoundsHalfAway(x, n)
    ensures m == n
  {
  }

  /**
   * Reference definition of snapping to the grid of multiples of 1/steps:
   * r lies on the grid, and r * steps is v * steps rounded to the nearest
   * integer, halves away from zero.
   */
  ghost predicate SnapsTo(v: real, steps: real, r: real) {
    (r * steps).Floor as real == r * steps && RoundsHalfAway(v * steps, (r * steps).Floor)
  }

  /** utils::round1: v to the nearest multiple of 0.1, halves away from zero. */
  function Round1(val: real): (r: real)
    ensures SnapsTo(val, 10.0, r)
    ensures Abs(r - val) <= 0.05
  {
    if val >= 0.0 then
      Trunc(val * 10.0 + 0.5) as real * 0.1
    else
      Trunc(val * 10.0 - 0.5) as real * 0.1
  }

  /** utils::round2: v to the nearest multiple of 0.01, halves away from zero. */
  function Round2(val: real): (r: real)
    ensures SnapsTo(val, 100.0, r)
    ensures Abs(r - val) <= 0.005
  {
    if val >= 0.0 then
      Trunc(val * 100.0 + 0.5) as real * 0.01
    else
      Trunc(val * 100.0 - 0.5) as real * 0.01
  }

  /** Snapping to a grid of 0.1 or 0.01 commutes with negation. */
  lemma {:induction false} Round1Odd(v: real)
    ensures Round1(-v) == -Round1(v)
  {
    var r := Round1(v);
    var n := (r * 10.0).Floor;
    assert ((-r) * 10.0).Floor == -n;
    assert SnapsTo(-v, 10.0, -r);
    var s := Round1(-v);
    RoundsHalfAwayUnique(-v * 10.0, (s * 10.0).Floor, -n);
  }

  lemma {:induction false} Round2Odd(v: real)
    ensures Round2(-v) == -Round2(v)
  {
    var r := Round2(v);
    var n := (r * 100.0).Floor;
    assert ((-r) * 100.0).Floor == -n;
    assert SnapsTo(-v, 100.0, -r);
    var s := Round2(-v);
    RoundsHalfAwayUnique(-v * 100.0, (s * 100.0).Floor, -n);
  }

  /** A value already on the 0.1 grid is left where it is. */
  lemma {:induction false} Round1Idempotent(v: real)
    ensures Round1(Round1(v)) == Round1(v)
  {
    var r := Round1(v);
    var n := (r * 10.0).Floor;
    assert RoundsHalfAway(r * 10.0, n);
    var s := Round1(r);
    RoundsHalfAwayUnique(r * 10.0, (s * 10.0).Floor, n);
  }

  lemma {:induction false} Round2Idempotent(v: real)
    ensures Round2(Round2(v)) == Round2(v)
  {
    var r := Round2(v);
    var n := (r * 100.0).Floor;
    assert RoundsHalfAway(r * 100.0, n);
    var s := Round2(r);
    RoundsHalfAwayUnique(r * 100.0, (s * 100.0).Floor, n);
  }

  /** Worked values, including a negative tie, which goes away from zero. */
  lemma Round1Examples()
    ensures Round1(0.34) == 0.3 && Round1(0.36) == 0.4
    ensures Round1(0.35) == 0.4 && Round1(-0.35) == -0.4 && Round1(-0.34) == -0.3
  {
  }

  /** The vec3 overload of round1: each component snapped on its own. */
  function Round1Vec(v: Vec3): (r: Vec3)
    ensures forall a: Axis :: r.At(a) == Round1(v.At(a))
    ensures forall a: Axis :: Abs(r.At(a) - v.At(a)) <= 0.05
  {
    Vec3(Round1(v.x), Round1(v.y), Round1(v.z))
  }

  /** The vec3 overload of round2. */
  function Round2Vec(v: Vec3): (r: Vec3)
    ensures forall a: Axis :: r.At(a) == Round2(v.At(a))
    ensures forall a: Axis :: Abs(r.At(a) - v.At(a)) <= 0.005
  {
    Vec3(Round2(v.x), Round2(v.y), Round2(v.z))
  }

  lemma {:induction false} Round1VecProperties(v: Vec3)
    ensures Round1Vec(Round1Vec(v)) == Round1Vec(v)
    ensures Round1Vec(Neg(v)) == Neg(Round1Vec(v))
  {
    Round1Idempotent(v.x); Round1Idempotent(v.y); Round1Idempotent(v.z);
    Round1Odd(v.x); Round1Odd(v.y); Round1Odd(v.z);
  }

  lemma {:induction false} Round2VecProperties(v: Vec3)
    ensures Round2Vec(Round2Vec(v)) == Round2Vec(v)
    ensures Round2Vec(Neg(v)) == Neg(Round2Vec(v))
  {
    Round2Idempotent(v.x); Round2Idempotent(v.y); Round2Idempotent(v.z);
    Round2Odd(v.x); Round2Odd(v.y); Round2Odd(v.z);
  }

  // ---------------------------------------------------------------------
  // Clean-up of the union boundary
  // ---------------------------------------------------------------------

  /** `glm::length(a - b) < 0.1`, compared squared. */
  predicate TooClose(a: Vec3, b: Vec3): (r: bool)
    ensures a == b ==> r
  {
    LengthSq(Sub(a, b)) < 0.01
  }

  /**
   * `glm::dot(glm::normalize(u), glm::normalize(w)) > 0.99`, squared: the
   * cosine of the angle between u and w exceeds 0.99. A zero vector makes
   * glm's comparison false (NaN), and this one too, since its dot is 0.
   */
  predicate AlmostCollinear(u: Vec3, w: Vec3): (r: bool)
    ensures r ==> u != Vec3(0.0, 0.0, 0.0) && w != Vec3(0.0, 0.0, 0.0)
  {
    Dot(u, w) > 0.0 && Dot(u, w) * Dot(u, w) > 0.9801 * (LengthSq(u) * LengthSq(w))
  }

  /**
   * One pass of the clean-up loop: the kept vertices after boundary vertex
   * number k, p, has been considered. A vertex within 0.1 of the last kept
   * one is skipped; one that continues the last kept edge almost straight
   * replaces the last kept vertex; any other is appended. The replacement
   * test needs two kept vertices (see Findings in README.md).
   */
  function KeepStep(kept: seq<Vec3>, k: nat, p: Vec3): (r: seq<Vec3>)
    requires k > 0 ==> kept != []
    ensures r != [] && |kept| <= |r| <= |kept| + 1
    ensures kept != [] ==> kept[..|kept| - 1] <= r
    ensures r == kept || r[|r| - 1] == p
    ensures r == kept <==> (k > 0 && TooClose(kept[|kept| - 1], p))
    ensures |r| == |kept| + 1 ==> r[..|kept|] == kept
    ensures |r| == |kept| && r != kept <==>
      (k > 1 && !TooClose(kept[|kept| - 1], p) && 2 <= |kept| &&
       AlmostCollinear(Sub(kept[|kept| - 1], kept[|kept| - 2]), Sub(p, kept[|kept| - 1])))
  {
    if k > 0 && TooClose(kept[|kept| - 1], p) then
      kept
    else if k > 1 && 2 <= |kept|
         && AlmostCollinear(Sub(kept[|kept| - 1], kept[|kept| - 2]), Sub(p, kept[|kept| - 1])) then
      kept[..|kept| - 1] + [p]
    else
      kept + [p]
  }

  /** The kept vertices once the loop has run over every vertex of b. */
  function Kept(b: seq<Vec3>): (r: seq<Vec3>)
    ensures |r| <= |b|
    ensures b != [] ==> r != [] && r[0] == b[0]
  {
    if b == [] then [] else KeepStep(Kept(b[..|b| - 1]), |b| - 1, b[|b| - 1])
  }

  /**
   * The wrap-around pass: the last kept vertex goes when more than three
   * remain and it lies almost straight between its predecessor and the
   * first vertex.
   */
  function DropClosingVertex(kept: seq<Vec3>): (r: seq<Vec3>)
    ensures r <= kept
    ensures r == kept || (3 < |kept| && |r| == |kept| - 1)
    ensures r != kept <==>
      (3 < |kept| &&
       AlmostCollinear(Sub(kept[|kept| - 1], kept[|kept| - 2]), Sub(kept[0], kept[|kept| - 1])))
  {
    if 3 < |kept|
       && AlmostCollinear(Sub(kept[|kept| - 1], kept[|kept| - 2]), Sub(kept[0], kept[|kept| - 1])) then
      kept[..|kept| - 1]
    else
      kept
  }

  /** The polygon union_polygons returns for the union boundary b. */
  function Cleanup(b: seq<Vec3>): (r: seq<Vec3>)
    ensures |r| <= |b|
    ensures b != [] ==> r != [] && r[0] == b[0]
  {
    DropClosingVertex(Kept(b))
  }

  /** No two consecutive vertices of s are within 0.1 of each other. */
  ghost predicate Spaced(s: seq<Vec3>) {
    forall i :: 0 <= i < |s| - 1 ==> !TooClose(s[i], s[i + 1])
  }

  /** s is t with some vertices removed, the rest in their order. */
  predicate IsSubsequence(s: seq<Vec3>, t: seq<Vec3>)
    decreases |t|
  {
    if s == [] then true
    else if t == [] then false
    else if s[|s| - 1] == t[|t| - 1] then IsSubsequence(s[..|s| - 1], t[..|t| - 1])
    else IsSubsequence(s, t[..|t| - 1])
  }

  lemma {:induction false} SubsequenceExtend(s: seq<Vec3>, t: seq<Vec3>, p: Vec3)
    requires IsSubsequence(s, t)
    ensures IsSubsequence(s, t + [p])
    decreases |t|, 1
  {
    assert (t + [p])[..|t|] == t;
    if s != [] && s[|s| - 1] == p {
      SubsequenceDropLast(s, t);
    }
  }

  lemma {:induction false} SubsequenceDropLast(s: seq<Vec3>, t: seq<Vec3>)
    requires s != [] && IsSubsequence(s, t)
    ensures IsSubsequence(s[..|s| - 1], t)
    decreases |t|, 0
  {
    var t' := t[..|t| - 1];
    assert t == t' + [t[|t| - 1]];
    if s[|s| - 1] == t[|t| - 1] {
      SubsequenceExtend(s[..|s| - 1], t', t[|t| - 1]);
    } else {
      SubsequenceDropLast(s, t');
      SubsequenceExtend(s[..|s| - 1], t', t[|t| - 1]);
    }
  }

  /** Replacing the last kept vertex keeps the new one at least 0.1 from its predecessor. */
  lemma ReplacementKeepsSpacing(a: Vec3, b: Vec3, p: Vec3)
    requires !TooClose(b, p) && AlmostCollinear(Sub(b, a), Sub(p, b))
    ensures !TooClose(a, p)
  {
    var u, w := Sub(b, a), Sub(p, b);
    LengthSqOfSum(u, w);
    assert Add(u, w) == Sub(p, a);
    assert LengthSq(Sub(a, p)) == LengthSq(Sub(p, a));
    assert LengthSq(Sub(b, p)) == LengthSq(w);
  }

  /** One step keeps the kept vertices a subsequence of the boundary seen so far. */
  lemma KeepStepSubsequence(kept: seq<Vec3>, b: seq<Vec3>, p: Vec3)
    requires |b| > 0 ==> kept != []
    requires IsSubsequence(kept, b)
    ensures IsSubsequence(KeepStep(kept, |b|, p), b + [p])
  {
    var r := KeepStep(kept, |b|, p);
    assert (b + [p])[..|b|] == b;
    if r == kept {
      SubsequenceExtend(kept, b, p);
    } else if |r| == |kept| {
      SubsequenceDropLast(kept, b);
      assert r == kept[..|kept| - 1] + [p];
      assert r[..|r| - 1] == kept[..|kept| - 1];
    } else {
      assert r == kept + [p];
      assert r[..|r| - 1] == kept;
    }
  }

  /** One step keeps consecutive kept vertices at least 0.1 apart. */
  lemma KeepStepSpaced(kept: seq<Vec3>, k: nat, p: Vec3)
    requires k > 0 ==> kept != []
    requires k == 0 ==> kept == []
    requires Spaced(kept)
    ensures Spaced(KeepStep(kept, k, p))
  {
    var r := KeepStep(kept, k, p);
    var n := |kept|;
    if r != kept {
      assert r[..|r| - 1] == kept[..|r| - 1];
      if |r| == n {
        ReplacementKeepsSpacing(kept[n - 2], kept[n - 1], p);
        assert !TooClose(r[n - 2], r[n - 1]);
      } else if n > 0 {
        assert !TooClose(kept[n - 1], p);
        assert LengthSq(Sub(kept[n - 1], p)) == LengthSq(Sub(p, kept[n - 1]));
        assert !TooClose(r[n - 1], r[n]);
      }
      forall i | 0 <= i < |r| - 1
        ensures !TooClose(r[i], r[i + 1])
      {
        if i + 1 < |r| - 1 {
          assert r[i] == kept[i] && r[i + 1] == kept[i + 1];
        }
      }
    }
  }

  /** The clean-up loop only drops and never reorders boundary vertices. */
  lemma {:induction false} KeptSubsequence(b: seq<Vec3>)
    ensures IsSubsequence(Kept(b), b)
  {
    if b != [] {
      var b', p := b[..|b| - 1], b[|b| - 1];
      KeptSubsequence(b');
      KeepStepSubsequence(Kept(b'), b', p);
      assert b == b' + [p];
    }
  }

  /** The clean-up loop leaves no two consecutive kept vertices within 0.1 of each other. */
  lemma {:induction false} KeptSpaced(b: seq<Vec3>)
    ensures Spaced(Kept(b))
  {
    if b != [] {
      var b' := b[..|b| - 1];
      KeptSpaced(b');
      KeepStepSpaced(Kept(b'), |b'|, b[|b| - 1]);
    }
  }

  /**
   * What union_polygons returns for a boundary b: at most one vertex per
   * boundary vertex, the first boundary vertex first, the others a
   * subsequence of b, and no two consecutive vertices within 0.1.
   */
  lemma {:induction false} CleanupProperties(b: seq<Vec3>)
    ensures |Cleanup(b)| <= |b|
    ensures b != [] ==> Cleanup(b) != [] && Cleanup(b)[0] == b[0]
    ensures IsSubsequence(Cleanup(b), b)
    ensures Spaced(Cleanup(b))
  {
    KeptSubsequence(b);
    KeptSpaced(b);
    var kept := Kept(b);
    if Cleanup(b) != kept {
      SubsequenceDropLast(kept, b);
    }
  }

  /** Kept over one more boundary vertex is one more KeepStep. */
  lemma KeptPrefix(b: seq<Vec3>, k: nat)
    requires k < |b|
    ensures Kept(b[..k + 1]) == KeepStep(Kept(b[..k]), k, b[k])
  {
    assert b[..k + 1][..k] == b[..k];
  }

  /** Overwriting the last element is dropping it and appending the new one. */
  lemma ReplaceLast(s: seq<Vec3>, p: Vec3)
    requires s != []
    ensures s[|s| - 1 := p] == s[..|s| - 1] + [p]
  {
  }

  /**
   * The body of the output-building loop for boundary vertex number k, p2:
   * skip it, overwrite the last kept vertex with it, or append it.
   */
  method KeepVertex(unionPolygon: seq<Vec3>, k: nat, p2: Vec3) returns (next: seq<Vec3>)
    requires k > 0 ==> unionPolygon != []
    ensures next == KeepStep(unionPolygon, k, p2)
  {
    next := unionPolygon;
    if k > 0 && TooClose(next[|next| - 1], p2) {
      return;
    }
    var n := |next|;
    if k > 1 && 2 <= n && AlmostCollinear(Sub(next[n - 1], next[n - 2]), Sub(p2, next[n - 1])) {
      ReplaceLast(next, p2);
      next := next[n - 1 := p2];
    } else {
      next := next + [p2];
    }
  }

  /** The output-building loop of union_polygons over the union boundary. */
  method KeepVertices(boundary: seq<Vec3>) returns (unionPolygon: seq<Vec3>)
    ensures unionPolygon == Kept(boundary)
  {
    unionPolygon := [];
    for k := 0 to |boundary|
      invariant unionPolygon == Kept(boundary[..k])
    {
      KeptPrefix(boundary, k);
      unionPolygon := KeepVertex(unionPolygon, k, boundary[k]);
    }
    assert boundary[..|boundary|] == boundary;
  }

  /**
   * utils::union_polygons. The result starts empty; polygons with fewer than
   * three vertices are refused before the union is attempted; a failed join
   * leaves it empty; otherwise it is the cleaned-up union boundary.
   */
  method UnionPolygons(polygon1: seq<Vec3>, polygon2: seq<Vec3>, join: (seq<Vec3>, seq<Vec3>) -> Option<seq<Vec3>>)
    returns (ok: bool, unionPolygon: seq<Vec3>)
    ensures ok <==> 3 <= |polygon1| && 3 <= |polygon2| && join(polygon1, polygon2).Some?
    ensures !ok ==> unionPolygon == []
    ensures ok ==> unionPolygon == Cleanup(join(polygon1, polygon2).value)
  {
    unionPolygon := [];
    if |polygon1| < 3 || |polygon2| < 3 {
      return false, unionPolygon;
    }
    var joined := join(polygon1, polygon2);
    if joined.None? {
      return false, unionPolygon;
    }
    unionPolygon := KeepVertices(joined.value);
    var n := |unionPolygon|;
    if 3 < n && AlmostCollinear(Sub(unionPolygon[n - 1], unionPolygon[n - 2]), Sub(unionPolygon[0], unionPolygon[n - 1])) {
      unionPolygon := unionPolygon[..n - 1];
    }
    return true, unionPolygon;
  }

  // ---------------------------------------------------------------------
  // Finding: the replacement test as written at Utils.cpp line 60
  // ---------------------------------------------------------------------

  /**
   * As written, the replacement test reads `union_polygon[size() - 2]`
   * whenever k > 1 and the vertex is not skipped. This holds when that
   * index is -1, i.e. only one vertex has been kept.
   */
  predicate SecondLastReadOutOfRange(kept: seq<Vec3>, k: nat, p: Vec3)
    requires k > 0 ==> kept != []
  {
    k > 1 && !TooClose(kept[|kept| - 1], p) && |kept| - 2 < 0
  }

  /**
   * A boundary whose second vertex is within 0.1 of the first, and whose
   * third is not, drives the as-written test out of range at k = 2. (For
   * k < 2 the as-written and corrected steps agree.) The corrected step
   * keeps vertices 0 and 2.
   */
  lemma SkippedSecondVertexReadsOutOfRange(b: seq<Vec3>)
    requires 3 <= |b| && TooClose(b[0], b[1]) && !TooClose(b[0], b[2])
    ensures Kept(b[..2]) == [b[0]]
    ensures SecondLastReadOutOfRange(Kept(b[..2]), 2, b[2])
    ensures Kept(b[..3]) == [b[0], b[2]]
  {
    KeptPrefix(b, 0);
    assert b[..0] == [];
    assert Kept(b[..1]) == [b[0]];
    KeptPrefix(b, 1);
    assert Kept(b[..2]) == [b[0]];
    KeptPrefix(b, 2);
  }

  /**
   * A concrete boundary of that kind: the origin, (0.05, 0, 0) and (1, 0, 0).
   */
  lemma SkippedSecondVertexExample()
    ensures var b := [Vec3(0.0, 0.0, 0.0), Vec3(0.05, 0.0, 0.0), Vec3(1.0, 0.0, 0.0)];
      SecondLastReadOutOfRange(Kept(b[..2]), 2, b[2]) && Kept(b) == [b[0], b[2]]
  {
    var v0, v1, v2 := Vec3(0.0, 0.0, 0.0), Vec3(0.05, 0.0, 0.0), Vec3(1.0, 0.0, 0.0);
    var b := [v0, v1, v2];
    assert b[0] == v0 && b[1] == v1 && b[2] == v2;
    assert TooClose(v0, v1) by {
      assert Sub(v0, v1) == Vec3(-0.05, 0.0, 0.0);
    }
    assert !TooClose(v0, v2) by {
      assert Sub(v0, v2) == Vec3(-1.0, 0.0, 0.0);
    }
    SkippedSecondVertexReadsOutOfRange(b);
    assert b[..3] == b;
  }
}
