/**
 * Two routines of mkmap/mkmap1.py: `ipon`, the crossing-parity test of a
 * point against a closed polygon, and `grmap`, the weighted gather that
 * interpolates values of grid 1 onto the points of grid 2. Coordinates and
 * values are exact reals.
 */
module Mkmap {

  // ---------------------------------------------------------------------
  // ipon

  /** The vertex tolerance `1.0E-8`. */
  const Tol: real := 0.00000001

  function Abs(r: real): real {
    if r < 0.0 then -r else r
  }

  /** The coordinates relative to the query point (`x = x - xp`). */
  function Shift(s: seq<real>, c: real): (r: seq<real>)
    ensures |r| == |s| && forall i :: 0 <= i < |s| ==> r[i] == s[i] - c
  {
    seq(|s|, i requires 0 <= i < |s| => s[i] - c)
  }

  /** What one edge contributes: the point is on it, the edge passes below it, or neither. */
  datatype EdgeCase = Hit | Below | Miss

  /**
   * Edge `i`, from vertex `i` to vertex `i + 1`, in coordinates relative to
   * the point: a vertex within the tolerance is a hit; an edge that
   * straddles the vertical through the point counts when it passes under
   * the point and is a hit when it passes through it.
   */
  function Edge(dx: seq<real>, dy: seq<real>, i: nat): EdgeCase
    requires |dx| == |dy| && i + 1 < |dx|
  {
    var x0, y0, x1, y1 := dx[i], dy[i], dx[i + 1], dy[i + 1];
    if Abs(x0) < Tol && Abs(y0) < Tol then Hit
    else if (x0 < 0.0 && x1 >= 0.0) || (x1 < 0.0 && x0 >= 0.0) then
      if y0 < 0.0 && y1 < 0.0 then Below
      else if (y0 <= 0.0 && y1 >= 0.0) || (y1 <= 0.0 && y0 >= 0.0) then
        var ysn := CrossHeight(x0, y0, x1, y1);
        if ysn < 0.0 then Below
        else if ysn <= 0.0 then Hit
        else Miss
      else Miss
    else Miss
  }

  /** `ysn`: the height, relative to the point, at which the edge crosses the vertical through the point. */
  function CrossHeight(x0: real, y0: real, x1: real, y1: real): real
    requires x1 != x0
  {
    (y0 * x1 - x0 * y1) / (x1 - x0)
  }

  /** The scan's state: stopped on the edge, or still going with a count of crossings below the point. */
  datatype Scan = OnEdge | Under(count: nat)

  /** The loop of `ipon` over the first `k` edges. */
  function ScanSpec(dx: seq<real>, dy: seq<real>, k: nat): Scan
    requires |dx| == |dy| && (k == 0 || k < |dx|)
    decreases k
  {
    if k == 0 then Under(0)
    else
      match ScanSpec(dx, dy, k - 1)
      case OnEdge => OnEdge
      case Under(c) =>
        match Edge(dx, dy, k - 1)
        case Hit => OnEdge
        case Below => Under(c + 1)
        case Miss => Under(c)
  }

  /** The number of edges examined: one fewer than the points, the last point closing the polygon. */
  function EdgeCount(n: nat): nat {
    if n == 0 then 0 else n - 1
  }

  /** `ipon`: `-1` outside, `0` on the boundary, `1` inside. */
  function Inpout(x: seq<real>, y: seq<real>, xp: real, yp: real): (r: int)
    requires |x| == |y|
    ensures r == -1 || r == 0 || r == 1
  {
    match ScanSpec(Shift(x, xp), Shift(y, yp), EdgeCount(|x|))
    case OnEdge => 0
    case Under(c) => if c % 2 == 0 then -1 else 1
  }

  /** `ipon` over arrays, with its early returns. */
  method Ipon(x: array<real>, y: array<real>, xp: real, yp: real) returns (r: int)
    requires x.Length == y.Length
    ensures r == Inpout(x[..], y[..], xp, yp)
  {
    ghost var dx := Shift(x[..], xp);
    ghost var dy := Shift(y[..], yp);
    ghost var k := EdgeCount(x.Length);
    var n := x.Length - 1;
    var nunder: nat := 0;
    var i := 0;
    while i < n
      invariant 0 <= i && (i == 0 || i <= n)
      invariant ScanSpec(dx, dy, i) == Under(nunder)
    {
      var x0, y0, x1, y1 := x[i] - xp, y[i] - yp, x[i + 1] - xp, y[i + 1] - yp;
      assert x0 == dx[i] && y0 == dy[i] && x1 == dx[i + 1] && y1 == dy[i + 1];
      if Abs(x0) < Tol && Abs(y0) < Tol {
        StopsOnHit(dx, dy, i, k);
        return 0;
      } else if (x0 < 0.0 && x1 >= 0.0) || (x1 < 0.0 && x0 >= 0.0) {
        if y0 < 0.0 && y1 < 0.0 {
          nunder := nunder + 1;
        } else if (y0 <= 0.0 && y1 >= 0.0) || (y1 <= 0.0 && y0 >= 0.0) {
          var ysn := CrossHeight(x0, y0, x1, y1);
          if ysn < 0.0 {
            nunder := nunder + 1;
          } else if ysn <= 0.0 {
            StopsOnHit(dx, dy, i, k);
            return 0;
          }
        }
      }
      i := i + 1;
    }
    assert i == k;
    r := if nunder % 2 == 0 then -1 else 1;
  }

  /** The number of edges among the first `k` that pass below the point. */
  function Crossings(dx: seq<real>, dy: seq<real>, k: nat): nat
    requires |dx| == |dy| && (k == 0 || k < |dx|)
    decreases k
  {
    if k == 0 then 0
    else Crossings(dx, dy, k - 1) + (if Edge(dx, dy, k - 1) == Below then 1 else 0)
  }

  predicate HasHit(dx: seq<real>, dy: seq<real>, k: nat)
    requires |dx| == |dy| && (k == 0 || k < |dx|)
  {
    exists i :: 0 <= i < k && Edge(dx, dy, i) == Hit
  }

  /** The early-exit loop is "count every crossing, unless some edge is hit". */
  lemma {:induction false} ScanCounts(dx: seq<real>, dy: seq<real>, k: nat)
    requires |dx| == |dy| && (k == 0 || k < |dx|)
    ensures ScanSpec(dx, dy, k) == if HasHit(dx, dy, k) then OnEdge else Under(Crossings(dx, dy, k))
    decreases k
  {
    if k > 0 {
      ScanCounts(dx, dy, k - 1);
      assert HasHit(dx, dy, k) <==> HasHit(dx, dy, k - 1) || Edge(dx, dy, k - 1) == Hit;
    }
  }

  /** A hit on edge `i` ends the scan on the edge, whatever the later edges are. */
  lemma StopsOnHit(dx: seq<real>, dy: seq<real>, i: nat, k: nat)
    requires |dx| == |dy| && i < k < |dx| && Edge(dx, dy, i) == Hit
    ensures ScanSpec(dx, dy, k) == OnEdge
  {
    ScanCounts(dx, dy, k);
  }

  /**
   * `ipon` answers `0` exactly when one of the examined edges is hit, and
   * otherwise tells inside from outside by the parity of the crossings
   * below the point.
   */
  lemma IponParity(x: seq<real>, y: seq<real>, xp: real, yp: real)
    requires |x| == |y|
    ensures var dx, dy, k := Shift(x, xp), Shift(y, yp), EdgeCount(|x|);
      && (Inpout(x, y, xp, yp) == 0 <==> HasHit(dx, dy, k))
      && (!HasHit(dx, dy, k) ==> Inpout(x, y, xp, yp) == if Crossings(dx, dy, k) % 2 == 0 then -1 else 1)
  {
    ScanCounts(Shift(x, xp), Shift(y, yp), EdgeCount(|x|));
  }

  /** A vertex (other than the closing one) within the tolerance of the point puts the point on the boundary. */
  lemma VertexOnBoundary(x: seq<real>, y: seq<real>, xp: real, yp: real, i: nat)
    requires |x| == |y| && i + 1 < |x|
    requires Abs(x[i] - xp) < Tol && Abs(y[i] - yp) < Tol
    ensures Inpout(x, y, xp, yp) == 0
  {
    var dx, dy := Shift(x, xp), Shift(y, yp);
    assert Edge(dx, dy, i) == Hit;
    StopsOnHit(dx, dy, i, EdgeCount(|x|));
  }

  /** A point with every vertex at least the tolerance to its right is outside. */
  lemma {:induction false} LeftOfPolygon(x: seq<real>, y: seq<real>, xp: real, yp: real)
    requires |x| == |y|
    requires forall i :: 0 <= i < |x| ==> x[i] - xp >= Tol
    ensures Inpout(x, y, xp, yp) == -1
  {
    NothingCrossed(Shift(x, xp), Shift(y, yp), EdgeCount(|x|));
  }

  /** A point with every vertex at least the tolerance to its left is outside. */
  lemma {:induction false} RightOfPolygon(x: seq<real>, y: seq<real>, xp: real, yp: real)
    requires |x| == |y|
    requires forall i :: 0 <= i < |x| ==> x[i] - xp <= -Tol
    ensures Inpout(x, y, xp, yp) == -1
  {
    NothingCrossed(Shift(x, xp), Shift(y, yp), EdgeCount(|x|));
  }

  /** With every vertex clear of the vertical through the point and on one side of it, the scan counts nothing. */
  lemma {:induction false} NothingCrossed(dx: seq<real>, dy: seq<real>, k: nat)
    requires |dx| == |dy| && (k == 0 || k < |dx|)
    requires (forall i :: 0 <= i < |dx| ==> dx[i] >= Tol) || (forall i :: 0 <= i < |dx| ==> dx[i] <= -Tol)
    ensures ScanSpec(dx, dy, k) == Under(0)
    decreases k
  {
    if k > 0 {
      NothingCrossed(dx, dy, k - 1);
      assert Edge(dx, dy, k - 1) == Miss;
    }
  }

  function Translate(s: seq<real>, c: real): (r: seq<real>)
    ensures |r| == |s| && forall i :: 0 <= i < |s| ==> r[i] == s[i] + c
  {
    seq(|s|, i requires 0 <= i < |s| => s[i] + c)
  }

  /** Moving the polygon and the point together does not change the answer. */
  lemma TranslationInvariant(x: seq<real>, y: seq<real>, xp: real, yp: real, a: real, b: real)
    requires |x| == |y|
    ensures Inpout(Translate(x, a), Translate(y, b), xp + a, yp + b) == Inpout(x, y, xp, yp)
  {
    assert Shift(Translate(x, a), xp + a) == Shift(x, xp);
    assert Shift(Translate(y, b), yp + b) == Shift(y, yp);
  }

  /** A polygon of fewer than two points has no edge, so every point is outside it. */
  lemma NoEdgeOutside(x: seq<real>, y: seq<real>, xp: real, yp: real)
    requires |x| == |y| && |x| <= 1
    ensures Inpout(x, y, xp, yp) == -1
  {
  }

  /** The closed unit square. */
  function SquareX(): seq<real> { [0.0, 1.0, 1.0, 0.0, 0.0] }
  function SquareY(): seq<real> { [0.0, 0.0, 1.0, 1.0, 0.0] }

  /** The centre of the unit square is inside: only its lower side passes below the point. */
  lemma SquareCentreInside()
    ensures Inpout(SquareX(), SquareY(), 0.5, 0.5) == 1
  {
    var dx: seq<real> := [-0.5, 0.5, 0.5, -0.5, -0.5];
    var dy: seq<real> := [-0.5, -0.5, 0.5, 0.5, -0.5];
    assert Shift(SquareX(), 0.5) == dx && Shift(SquareY(), 0.5) == dy;
    assert Edge(dx, dy, 0) == Below;
    assert Edge(dx, dy, 1) == Miss;
    assert Edge(dx, dy, 2) == Miss;
    assert Edge(dx, dy, 3) == Miss;
    assert ScanSpec(dx, dy, 2) == Under(1);
    assert ScanSpec(dx, dy, 4) == Under(1);
  }

  /** A point to the right of the unit square is outside. */
  lemma SquareRightOutside()
    ensures Inpout(SquareX(), SquareY(), 2.0, 0.5) == -1
  {
    RightOfPolygon(SquareX(), SquareY(), 2.0, 0.5);
  }

  /** A point on the lower side of the unit square is on the boundary. */
  lemma SquareLowerSideBoundary()
    ensures Inpout(SquareX(), SquareY(), 0.5, 0.0) == 0
  {
    var dx, dy := Shift(SquareX(), 0.5), Shift(SquareY(), 0.0);
    assert dx[0] == -0.5 && dx[1] == 0.5 && dy[0] == 0.0 && dy[1] == 0.0;
    assert Edge(dx, dy, 0) == Hit;
    StopsOnHit(dx, dy, 0, 4);
  }

  // ---------------------------------------------------------------------
  // grmap

  /** `k / a < b` and `k % a < a` for an index below `a * b`. */
  lemma DivBound(k: int, a: int, b: int)
    requires 0 <= a && 0 <= b && 0 <= k < a * b
    ensures a > 0 && 0 <= k % a < a && 0 <= k / a < b
  {
    PositiveFactor(a, b);
    if k / a >= b {
      MulMono(a, b, k / a);
      assert false;
    }
  }

  lemma PositiveFactor(a: int, b: int)
    requires 0 <= a && 0 <= b && a * b > 0
    ensures a > 0
  {
  }

  lemma MulMono(a: int, b: int, c: int)
    requires a > 0 && b <= c
    ensures a * b <= a * c
  {
    assert a * c - a * b == a * (c - b);
  }

  /** Entry `k` of `f1.transpose().flatten()`: grid 1 read column by column. */
  function ColumnMajor(f1: array2<real>, k: int): real
    reads f1
    requires 0 <= k < f1.Length0 * f1.Length1
  {
    DivBound(k, f1.Length0, f1.Length1);
    f1[k % f1.Length0, k / f1.Length0]
  }

  /** A NumPy index into `n` entries: a negative one counts from the end. */
  function Wrap(i: int, n: int): int {
    if i < 0 then i + n else i
  }

  /** Every index `grmap` uses is in range: otherwise NumPy raises `IndexError`. */
  predicate Gatherable(f1: array2<real>, f2: array<real>, iref: array2<int>, w: array2<real>)
    reads f1, iref
  {
    && (iref.Length1 > 0 ==> iref.Length0 > 0)
    && forall i2 :: 0 <= i2 < iref.Length1 && iref[0, i2] > 0 ==>
         && i2 < f2.Length && iref.Length0 <= w.Length0 && i2 < w.Length1
         && forall ip :: 0 <= ip < iref.Length0 ==>
              -(f1.Length0 * f1.Length1) <= iref[ip, i2] < f1.Length0 * f1.Length1
  }

  /** `Σ_{ip < np} w[ip, i2] * f1flat[iref[ip, i2]]`, added in the order of the loop. */
  function Gather(f1: array2<real>, iref: array2<int>, w: array2<real>, i2: int, np: nat): real
    reads f1, iref, w
    requires 0 <= i2 < iref.Length1 && np <= iref.Length0 && np <= w.Length0 && i2 < w.Length1
    requires forall ip :: 0 <= ip < np ==> -(f1.Length0 * f1.Length1) <= iref[ip, i2] < f1.Length0 * f1.Length1
    decreases np
  {
    if np == 0 then 0.0
    else Gather(f1, iref, w, i2, np - 1)
         + w[np - 1, i2] * ColumnMajor(f1, Wrap(iref[np - 1, i2], f1.Length0 * f1.Length1))
  }

  /** The value `grmap` leaves at position `i2`. */
  function Mapped(f1: array2<real>, f2: array<real>, iref: array2<int>, w: array2<real>, i2: int): real
    reads f1, f2, iref, w
    requires Gatherable(f1, f2, iref, w) && 0 <= i2 < f2.Length
  {
    if i2 < iref.Length1 && iref[0, i2] > 0 then Gather(f1, iref, w, i2, iref.Length0) else f2[i2]
  }

  /**
   * `grmap`: a copy of `f2` in which every point of grid 2 with a first
   * reference index above zero gets the weighted sum of its grid-1
   * values; every other point keeps its old value.
   */
  method Grmap(f1: array2<real>, f2: array<real>, iref: array2<int>, w: array2<real>) returns (r: array<real>)
    requires Gatherable(f1, f2, iref, w)
    ensures fresh(r)
    ensures r.Length == f2.Length
    ensures forall i2 :: 0 <= i2 < r.Length ==> r[i2] == Mapped(f1, f2, iref, w, i2)
  {
    r := new real[f2.Length];
    forall i | 0 <= i < f2.Length {
      r[i] := f2[i];
    }
    var n2 := iref.Length1;
    var i2 := 0;
    while i2 < n2
      invariant 0 <= i2 <= n2
      invariant forall j :: 0 <= j < i2 && j < r.Length ==> r[j] == Mapped(f1, f2, iref, w, j)
      invariant forall j :: i2 <= j < r.Length ==> r[j] == f2[j]
    {
      var i := iref[0, i2];
      if i > 0 {
        var sum := WeightedSum(f1, iref, w, i2);
        r[i2] := sum;
      }
      i2 := i2 + 1;
    }
  }

  /** The inner loop of `grmap`: the weighted sum over the `Np` reference points of one grid-2 point. */
  method WeightedSum(f1: array2<real>, iref: array2<int>, w: array2<real>, i2: int) returns (sum: real)
    requires 0 <= i2 < iref.Length1 && iref.Length0 <= w.Length0 && i2 < w.Length1
    requires forall ip :: 0 <= ip < iref.Length0 ==> -(f1.Length0 * f1.Length1) <= iref[ip, i2] < f1.Length0 * f1.Length1
    ensures sum == Gather(f1, iref, w, i2, iref.Length0)
  {
    var n1 := f1.Length0 * f1.Length1;
    sum := 0.0;
    var ip := 0;
    while ip < iref.Length0
      invariant 0 <= ip <= iref.Length0
      invariant sum == Gather(f1, iref, w, i2, ip)
    {
      var i1 := iref[ip, i2];
      sum := sum + w[ip, i2] * ColumnMajor(f1, Wrap(i1, n1));
      ip := ip + 1;
    }
  }

  /** Position `(i, j)` of grid 1 is entry `j * rows + i` of the column-major reading. */
  lemma ColumnMajorIndex(f1: array2<real>, i: int, j: int)
    requires 0 <= i < f1.Length0 && 0 <= j < f1.Length1
    ensures 0 <= j * f1.Length0 + i < f1.Length0 * f1.Length1
    ensures ColumnMajor(f1, j * f1.Length0 + i) == f1[i, j]
  {
    var a, b := f1.Length0, f1.Length1;
    var k := j * a + i;
    MulMono(a, j + 1, b);
    assert k < (j + 1) * a;
    DivBound(k, a, b);
    DivMod(k, a, j, i);
  }

  lemma DivMod(k: int, a: int, q: int, m: int)
    requires a > 0 && 0 <= m < a && k == q * a + m
    ensures k / a == q && k % a == m
  {
    var q', m' := k / a, k % a;
    assert k == q' * a + m';
    assert (q - q') * a == m' - m;
    ZeroMultiple(q - q', a, m' - m);
  }

  /** A multiple of `a` strictly between `-a` and `a` is zero. */
  lemma ZeroMultiple(d: int, a: int, e: int)
    requires a > 0 && d * a == e && -a < e < a
    ensures d == 0
  {
    if d >= 1 {
      MulMono(a, 1, d);
      assert false;
    }
    if d <= -1 {
      MulMono(a, d, -1);
      assert false;
    }
  }

  /** The sum of the weights a grid-2 point gives its grid-1 points. */
  function WeightSum(iref: array2<int>, w: array2<real>, i2: int, np: nat): real
    reads w
    requires 0 <= i2 < w.Length1 && np <= w.Length0
    decreases np
  {
    if np == 0 then 0.0 else WeightSum(iref, w, i2, np - 1) + w[np - 1, i2]
  }

  /**
   * On a constant grid 1 the gather is the constant times the weights'
   * sum: weights that sum to one reproduce the constant.
   */
  lemma {:induction false} GatherConstant(f1: array2<real>, iref: array2<int>, w: array2<real>, i2: int, np: nat, c: real)
    requires 0 <= i2 < iref.Length1 && np <= iref.Length0 && np <= w.Length0 && i2 < w.Length1
    requires forall ip :: 0 <= ip < np ==> -(f1.Length0 * f1.Length1) <= iref[ip, i2] < f1.Length0 * f1.Length1
    requires forall i, j :: 0 <= i < f1.Length0 && 0 <= j < f1.Length1 ==> f1[i, j] == c
    ensures Gather(f1, iref, w, i2, np) == c * WeightSum(iref, w, i2, np)
    decreases np
  {
    if np > 0 {
      GatherConstant(f1, iref, w, i2, np - 1, c);
      var k := Wrap(iref[np - 1, i2], f1.Length0 * f1.Length1);
      DivBound(k, f1.Length0, f1.Length1);
      assert ColumnMajor(f1, k) == c;
    }
  }

  /** An interpolated point of a constant grid 1 with weights summing to one takes the constant. */
  lemma ConstantReproduced(f1: array2<real>, f2: array<real>, iref: array2<int>, w: array2<real>, i2: int, c: real)
    requires Gatherable(f1, f2, iref, w) && 0 <= i2 < f2.Length
    requires forall i, j :: 0 <= i < f1.Length0 && 0 <= j < f1.Length1 ==> f1[i, j] == c
    requires i2 < iref.Length1 && iref[0, i2] > 0 && WeightSum(iref, w, i2, iref.Length0) == 1.0
    ensures Mapped(f1, f2, iref, w, i2) == c
  {
    GatherConstant(f1, iref, w, i2, iref.Length0, c);
  }
}
