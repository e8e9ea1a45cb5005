/** The page geometry of the editor in codepaper.js: where a tick box may
    sit, how a dragged box snaps to its neighbours, how the two position
    markers (QR codes) move on their grid, and where they start.  Lengths
    are millimetres; tick-box coordinates are exact reals, marker
    coordinates integers, and the marker (QR code) size s is a positive
    integer. */
module LayoutGeometry {
  import opened Options
  import opened Decimal
  import opened Text

  /** TICKBOX_SNAP_DISTANCE: a dragged box snaps to a neighbour strictly
      closer than this. */
  const SnapDistance: real := 3.0
  /** TICKBOX_STROKE_WIDTH; half of the stroke lies outside the box. */
  const StrokeWidth: real := 0.5
  const StrokeCorrection: real := StrokeWidth / 2.0

  function Abs(v: real): real { if v < 0.0 then -v else v }
  function MaxReal(a: real, b: real): real { if a >= b then a else b }
  function MinReal(a: real, b: real): real { if a <= b then a else b }

  /** JavaScript's Math.round: the nearest integer, halves rounding up. */
  function RoundHalfUp(q: real): (r: int)
    ensures -0.5 < r as real - q <= 0.5
  {
    (q + 0.5).Floor
  }

  /** The largest top-left coordinate a box of boxSize may take on a page
      of length paper, keeping its stroke on the page. */
  function EdgeHigh(paper: real, boxSize: real): real
  {
    paper - boxSize - StrokeCorrection
  }

  /** The edge clamp of addTickBox, of a drag and of an arrow-key nudge:
      Math.max with the low edge, then Math.min with the high edge, so the
      high edge wins when the page is too small for the box. */
  function ClampToEdges(v: real, paper: real, boxSize: real): (r: real)
    ensures r <= EdgeHigh(paper, boxSize)
    ensures StrokeCorrection <= EdgeHigh(paper, boxSize) ==> StrokeCorrection <= r
    ensures StrokeCorrection <= v <= EdgeHigh(paper, boxSize) ==> r == v
    ensures r == v || r == StrokeCorrection || r == EdgeHigh(paper, boxSize)
    ensures v <= StrokeCorrection ==> r == MinReal(StrokeCorrection, EdgeHigh(paper, boxSize))
    ensures EdgeHigh(paper, boxSize) <= v ==> r == EdgeHigh(paper, boxSize)
  {
    MinReal(MaxReal(v, StrokeCorrection), EdgeHigh(paper, boxSize))
  }

  datatype Point = Point(x: real, y: real)

  /** True when a box of boxSize at top-left p lies on the page, its stroke
      included. */
  predicate OnPage(p: Point, boxSize: real, paperWidth: real, paperHeight: real)
  {
    0.0 <= p.x - StrokeCorrection && p.x + boxSize + StrokeCorrection <= paperWidth &&
    0.0 <= p.y - StrokeCorrection && p.y + boxSize + StrokeCorrection <= paperHeight
  }

  /** addTickBox: the top-left corner of a box asked to be centred on
      (cx, cy).  The box is on the page whenever the page can hold it, and
      is centred on the requested point wherever no edge interferes. */
  function TickBoxTopLeft(cx: real, cy: real, paperWidth: real, paperHeight: real, boxSize: real): (p: Point)
    ensures (StrokeCorrection <= EdgeHigh(paperWidth, boxSize) &&
             StrokeCorrection <= EdgeHigh(paperHeight, boxSize)) ==> OnPage(p, boxSize, paperWidth, paperHeight)
    ensures StrokeCorrection <= cx - boxSize / 2.0 <= EdgeHigh(paperWidth, boxSize) ==>
            p.x + boxSize / 2.0 == cx
    ensures StrokeCorrection <= cy - boxSize / 2.0 <= EdgeHigh(paperHeight, boxSize) ==>
            p.y + boxSize / 2.0 == cy
  {
    Point(ClampToEdges(cx - boxSize / 2.0, paperWidth, boxSize),
          ClampToEdges(cy - boxSize / 2.0, paperHeight, boxSize))
  }

  predicate Near(v: real, w: real) { Abs(v - w) < SnapDistance }

  /** The index of the first entry of snaps near v, if any. */
  function FirstNear(snaps: seq<real>, v: real): (i: Option<nat>)
    ensures i.None? <==> forall k :: 0 <= k < |snaps| ==> !Near(v, snaps[k])
    ensures i.Some? ==> i.value < |snaps| && Near(v, snaps[i.value]) &&
                        forall k :: 0 <= k < i.value ==> !Near(v, snaps[k])
  {
    if |snaps| == 0 then None
    else if Near(v, snaps[0]) then Some(0)
    else match FirstNear(snaps[1..], v)
      case None => None
      case Some(k) => Some(k + 1)
  }

  /** The snap of one axis during a drag: the first near entry in list
      order, or v itself. */
  function SnapTo(snaps: seq<real>, v: real): real
  {
    match FirstNear(snaps, v)
    case None => v
    case Some(i) => snaps[i]
  }

  /** The for loop of handleMouseMove, stopping at the first near entry. */
  method SnapAxis(snaps: seq<real>, v: real) returns (r: real)
    ensures r == SnapTo(snaps, v)
    ensures r == v || exists i :: 0 <= i < |snaps| && r == snaps[i] && Near(v, r)
  {
    r := v;
    var i := 0;
    while i < |snaps|
      invariant 0 <= i <= |snaps|
      invariant forall k :: 0 <= k < i ==> !Near(v, snaps[k])
      invariant r == v
    {
      if Near(v, snaps[i]) {
        r := snaps[i];
        assert FirstNear(snaps, v) == Some(i);
        return;
      }
      i := i + 1;
    }
  }

  /** Where a dragged box goes: pointer minus grab offset, snapped per
      axis, then clamped to the edges like a new box. */
  function DraggedTickBox(snapXs: seq<real>, snapYs: seq<real>, x: real, y: real,
                          paperWidth: real, paperHeight: real, boxSize: real): (p: Point)
    ensures (StrokeCorrection <= EdgeHigh(paperWidth, boxSize) &&
             StrokeCorrection <= EdgeHigh(paperHeight, boxSize)) ==> OnPage(p, boxSize, paperWidth, paperHeight)
  {
    Point(ClampToEdges(SnapTo(snapXs, x), paperWidth, boxSize),
          ClampToEdges(SnapTo(snapYs, y), paperHeight, boxSize))
  }

  /** Snapping twice is snapping once when the snap values are at least the
      snap distance apart. */
  lemma SnapSettles(snaps: seq<real>, v: real)
    requires forall i, j :: 0 <= i < j < |snaps| ==> !Near(snaps[i], snaps[j])
    ensures SnapTo(snaps, SnapTo(snaps, v)) == SnapTo(snaps, v)
  {
    var first := FirstNear(snaps, v);
    if first.Some? {
      var i := first.value;
      var r := snaps[i];
      assert Near(r, snaps[i]);
      var again := FirstNear(snaps, r);
      assert again.Some? && again.value <= i;
      if again.value < i {
        assert false;
      }
    }
  }

  /** Without that spacing a second drag step can move a snapped box on. */
  lemma SnapCanMoveOn()
    ensures SnapTo([1.5, 4.0], 5.5) == 4.0
    ensures SnapTo([1.5, 4.0], 4.0) == 1.5
  {
    assert FirstNear([4.0], 5.5) == Some(0);
    assert FirstNear([1.5, 4.0], 5.5) == Some(1);
    assert FirstNear([1.5, 4.0], 4.0) == Some(0);
  }

  /** Math.floor(length / s): how many whole marker cells fit. */
  function Cells(length: real, s: int): (n: int)
    requires s > 0
    ensures (n * s) as real <= length < ((n + 1) * s) as real
  {
    var q := length / s as real;
    var n := q.Floor;
    MultiplyBounds(n, q, s);
    n
  }

  lemma MultiplyBounds(n: int, q: real, s: int)
    requires s > 0 && n as real <= q < n as real + 1.0
    ensures (n * s) as real <= q * s as real < ((n + 1) * s) as real
  {
    RealProductMonotone(n as real, q, s as real);
    RealProductMonotone(q, n as real + 1.0, s as real);
    assert (n * s) as real == n as real * s as real;
    assert ((n + 1) * s) as real == (n as real + 1.0) * s as real;
  }

  lemma RealProductMonotone(a: real, b: real, c: real)
    requires c > 0.0
    ensures a <= b ==> a * c <= b * c
    ensures a < b ==> a * c < b * c
  {
  }

  lemma CancelFactor(a: real, b: real, c: real)
    requires c > 0.0 && a * c == b * c
    ensures a == b
  {
    RealProductMonotone(a, b, c);
    RealProductMonotone(b, a, c);
  }

  /** Multiples of s are closed under adding multiples of s. */
  lemma ProductIsMultiple(q: int, s: int)
    requires s > 0
    ensures (q * s) % s == 0
  {
    var t := q * s;
    var d, m := t / s, t % s;
    assert t == d * s + m;
    assert (q - d) * s == m;
    if q - d >= 1 {
      assert false;
    } else if q - d <= -1 {
      assert false;
    }
  }

  lemma QuotientBounds(x: int, d: int, q: int)
    requires d > 0 && q * d <= x < (q + 1) * d
    ensures q as real <= x as real / d as real < (q + 1) as real
  {
    var t := x as real / d as real;
    assert t * d as real == x as real;
  }

  /** Math.round(n / s) for integers: (2n + s) div 2s. */
  lemma RoundedQuotient(n: int, s: int)
    requires s > 0
    ensures RoundHalfUp(n as real / s as real) == (2 * n + s) / (2 * s)
  {
    var x := 2 * n + s;
    var q := x / (2 * s);
    assert x == q * (2 * s) + x % (2 * s);
    QuotientBounds(x, 2 * s, q);
    var t := n as real / s as real;
    assert t * s as real == n as real;
    assert (t + 0.5) * (2 * s) as real == x as real;
    assert x as real / (2 * s) as real * (2 * s) as real == x as real;
    CancelFactor(t + 0.5, x as real / (2 * s) as real, (2 * s) as real);
  }

  /** The marker drag's Math.round(n / s) * s: the multiple of s nearest to
      n, a half cell rounding up. */
  function RoundToMultiple(n: int, s: int): (r: int)
    requires s > 0
    ensures r % s == 0
    ensures -s < 2 * (r - n) <= s
  {
    var q := RoundHalfUp(n as real / s as real);
    RoundedQuotient(n, s);
    var x := 2 * n + s;
    assert x == q * (2 * s) + x % (2 * s);
    ProductIsMultiple(q, s);
    q * s
  }

  /** No other multiple of s is as near: RoundToMultiple picks the multiple
      with -s < 2 (m - n) <= s, of which there is one. */
  lemma RoundToMultipleIsNearest(n: int, s: int, m: int)
    requires s > 0 && m % s == 0 && -s < 2 * (m - n) <= s
    ensures RoundToMultiple(n, s) == m
  {
    var r := RoundToMultiple(n, s);
    assert -s < r - m < s;
    var a, b := r / s, m / s;
    assert r == s * a && m == s * b;
    assert r - m == s * (a - b);
    SmallMultipleIsZero(a - b, s);
  }

  lemma SmallMultipleIsZero(k: int, s: int)
    requires s > 0 && -s < s * k < s
    ensures k == 0
  {
    if k >= 1 {
      MulAtLeast(k, s, 1);
    } else if k <= -1 {
      MulAtLeast(-k, s, 1);
    }
  }

  lemma MulAtLeast(k: int, s: int, j: int)
    requires s > 0 && k >= j
    ensures s * k >= s * j
  {
    assert s * k - s * j == s * (k - j);
  }

  function ClampInt(v: int, lo: int, hi: int): (r: int)
    ensures r <= hi
    ensures lo <= hi ==> lo <= r
    ensures lo <= v <= hi ==> r == v
    ensures r == v || r == lo || r == hi
    ensures v < lo ==> r == (if lo <= hi then lo else hi)
    ensures hi < v ==> r == hi
  {
    if v < lo then (if lo <= hi then lo else hi) else if v <= hi then v else hi
  }

  datatype Marker = LeftMarker | RightMarker

  /** A safe-area rectangle, by its corners as Raphael's bounding box gives
      them. */
  datatype Area = Area(x: int, y: int, x2: int, y2: int)

  /** handleQRMouseDown: the rectangle the selected marker's top-left may
      range over while the other marker is at (otherX, otherY).  The left
      marker stays left of and below the right one, the right marker right
      of and above the left one, each a clear cell away. */
  function SafeArea(selected: Marker, otherX: int, otherY: int, paperWidth: real, paperHeight: real,
                    s: int): (a: Area)
    requires s > 0
    ensures selected == LeftMarker ==>
      a.x == 0 && a.x2 - s == otherX - 2 * s && a.y == otherY + 2 * s && a.y2 - s == Cells(paperHeight, s) * s - s
    ensures selected == RightMarker ==>
      a.x == otherX + 2 * s && a.x2 - s == Cells(paperWidth, s) * s - s && a.y == 0 && a.y2 - s == otherY - 2 * s
  {
    if selected == LeftMarker then
      var y := otherY + 2 * s;
      Area(0, y, 0 + (otherX - s), y + (Cells(paperHeight, s) * s - otherY - 2 * s))
    else
      var x := otherX + 2 * s;
      Area(x, 0, x + (Cells(paperWidth, s) * s - otherX - 2 * s), 0 + (otherY - s))
  }

  /** handleMouseMove for a marker: the pointer less the grab offset,
      rounded to the grid, then clamped into the safe area. */
  function DraggedMarker(x: int, y: int, area: Area, s: int): (p: (int, int))
    requires s > 0
    ensures area.x <= area.x2 - s ==> area.x <= p.0 <= area.x2 - s
    ensures area.y <= area.y2 - s ==> area.y <= p.1 <= area.y2 - s
  {
    (ClampInt(RoundToMultiple(x, s), area.x, area.x2 - s),
     ClampInt(RoundToMultiple(y, s), area.y, area.y2 - s))
  }

  /** A dragged left marker keeps a clear cell to the left of and below the
      right marker, and both stay on the grid. */
  lemma LeftMarkerKeepsApart(x: int, y: int, rightX: int, rightY: int, paperWidth: real, paperHeight: real, s: int)
    requires s > 0
    requires 0 <= rightX - 2 * s && rightY + 2 * s <= Cells(paperHeight, s) * s - s
    ensures var p := DraggedMarker(x, y, SafeArea(LeftMarker, rightX, rightY, paperWidth, paperHeight, s), s);
      0 <= p.0 <= rightX - 2 * s && rightY + 2 * s <= p.1 <= Cells(paperHeight, s) * s - s &&
      (rightX % s == 0 && rightY % s == 0 ==> p.0 % s == 0 && p.1 % s == 0)
  {
    var a := SafeArea(LeftMarker, rightX, rightY, paperWidth, paperHeight, s);
    if rightX % s == 0 && rightY % s == 0 {
      var cells := Cells(paperHeight, s);
      ProductIsMultiple(cells, s);
      MultipleShift(cells * s, -1, s);
      MultipleShift(rightX, -2, s);
      MultipleShift(rightY, 2, s);
      ProductIsMultiple(0, s);
      DraggedMarkerOnGrid(x, y, a, s);
    }
  }

  /** A dragged right marker keeps a clear cell to the right of and above
      the left marker, and both stay on the grid. */
  lemma RightMarkerKeepsApart(x: int, y: int, leftX: int, leftY: int, paperWidth: real, paperHeight: real, s: int)
    requires s > 0
    requires leftX + 2 * s <= Cells(paperWidth, s) * s - s && 0 <= leftY - 2 * s
    ensures var p := DraggedMarker(x, y, SafeArea(RightMarker, leftX, leftY, paperWidth, paperHeight, s), s);
      leftX + 2 * s <= p.0 <= Cells(paperWidth, s) * s - s && 0 <= p.1 <= leftY - 2 * s &&
      (leftX % s == 0 && leftY % s == 0 ==> p.0 % s == 0 && p.1 % s == 0)
  {
    var a := SafeArea(RightMarker, leftX, leftY, paperWidth, paperHeight, s);
    if leftX % s == 0 && leftY % s == 0 {
      var cells := Cells(paperWidth, s);
      ProductIsMultiple(cells, s);
      MultipleShift(cells * s, -1, s);
      MultipleShift(leftX, 2, s);
      MultipleShift(leftY, -2, s);
      ProductIsMultiple(0, s);
      DraggedMarkerOnGrid(x, y, a, s);
    }
  }

  /** Clamping a grid position between grid bounds stays on the grid. */
  lemma DraggedMarkerOnGrid(x: int, y: int, a: Area, s: int)
    requires s > 0 && a.x % s == 0 && (a.x2 - s) % s == 0 && a.y % s == 0 && (a.y2 - s) % s == 0
    ensures DraggedMarker(x, y, a, s).0 % s == 0 && DraggedMarker(x, y, a, s).1 % s == 0
  {
    ClampKeepsMultiple(RoundToMultiple(x, s), a.x, a.x2 - s, s);
    ClampKeepsMultiple(RoundToMultiple(y, s), a.y, a.y2 - s, s);
  }

  lemma MultipleShift(m: int, k: int, s: int)
    requires s > 0 && m % s == 0
    ensures (m + k * s) % s == 0
  {
    var d := m / s;
    assert m == d * s + m % s;
    assert m + k * s == (d + k) * s;
    ProductIsMultiple(d + k, s);
  }

  lemma ClampKeepsMultiple(v: int, lo: int, hi: int, s: int)
    requires s > 0 && v % s == 0 && lo % s == 0 && hi % s == 0
    ensures ClampInt(v, lo, hi) % s == 0
  {
  }

  /** addQRCodes without saved positions: the left marker at the bottom-left
      grid cell, the right marker at the top-right one. */
  function DefaultLeftMarker(paperHeight: real, s: int): (int, int)
    requires s > 0
  {
    (0, s * (Cells(paperHeight, s) - 1))
  }

  function DefaultRightMarker(paperWidth: real, s: int): (int, int)
    requires s > 0
  {
    (s * (Cells(paperWidth, s) - 1), 0)
  }

  /** The grid counts the right marker's code carries, worked out from the
      two markers' positions (JavaScript division, so possibly fractional). */
  function PositionCounts(leftX: int, leftY: int, rightX: int, rightY: int, s: int): (counts: (real, real))
    requires s > 0
  {
    ((rightX - leftX) as real / s as real + 1.0, (leftY - rightY) as real / s as real + 1.0)
  }

  /** For the default placement the counts from the positions are the
      counts of whole cells that fit, the values a new page's code shows. */
  lemma DefaultCountsAreCells(paperWidth: real, paperHeight: real, s: int)
    requires s > 0
    ensures var l, r := DefaultLeftMarker(paperHeight, s), DefaultRightMarker(paperWidth, s);
      PositionCounts(l.0, l.1, r.0, r.1, s) == (Cells(paperWidth, s) as real, Cells(paperHeight, s) as real)
  {
    ScaledQuotient(Cells(paperWidth, s) - 1, s);
    ScaledQuotient(Cells(paperHeight, s) - 1, s);
  }

  lemma ScaledQuotient(k: int, s: int)
    requires s > 0
    ensures (s * k - 0) as real / s as real + 1.0 == (k + 1) as real
  {
    var sr, kr := s as real, k as real;
    assert (s * k - 0) as real == sr * kr;
    assert sr * kr / sr == kr;
  }

  /** On a page at least three cells each way, each default marker lies in
      the safe area the other one gives it. */
  lemma DefaultPlacementIsSafe(paperWidth: real, paperHeight: real, s: int)
    requires s > 0 && Cells(paperWidth, s) >= 3 && Cells(paperHeight, s) >= 3
    ensures var l, r := DefaultLeftMarker(paperHeight, s), DefaultRightMarker(paperWidth, s);
      var leftArea := SafeArea(LeftMarker, r.0, r.1, paperWidth, paperHeight, s);
      var rightArea := SafeArea(RightMarker, l.0, l.1, paperWidth, paperHeight, s);
      leftArea.x <= l.0 <= leftArea.x2 - s && leftArea.y <= l.1 <= leftArea.y2 - s &&
      rightArea.x <= r.0 <= rightArea.x2 - s && rightArea.y <= r.1 <= rightArea.y2 - s
  {
    var cw, ch := Cells(paperWidth, s), Cells(paperHeight, s);
    assert s * (cw - 1) == cw * s - s && s * (ch - 1) == ch * s - s;
    MulAtLeast(cw - 1, s, 2);
    MulAtLeast(ch - 1, s, 2);
  }

  /** getDimensionCodeString: "{numX}x{numY}". */
  function DimensionCode(numX: int, numY: int): string
  {
    IntToString(numX) + "x" + IntToString(numY)
  }

  /** Reading a dimension code back: two integers around the first 'x'. */
  function ParseDimensionCode(code: string): Option<(int, int)>
  {
    match IndexOf(code, 'x')
    case None => None
    case Some(i) =>
      match (ParseInt(code[..i]), ParseInt(code[i + 1..]))
      case (Some(x), Some(y)) => Some((x, y))
      case _ => None
  }

  /** The code a marker carries gives back the counts it was made from. */
  lemma DimensionCodeRoundTrip(numX: int, numY: int)
    ensures ParseDimensionCode(DimensionCode(numX, numY)) == Some((numX, numY))
  {
    var a, b := IntToString(numX), IntToString(numY);
    var code := DimensionCode(numX, numY);
    NumberHasNoSeparator(numX);
    IntRoundTrip(numX);
    IntRoundTrip(numY);
    PiecesOf(a, 'x', b);
    assert code[..|a|] == a;
    assert code[|a| + 1..] == b;
  }

  /** The decimal text of a natural is digits only: no sign, no 'x'. */
  lemma DigitsHaveNoSeparator(n: nat)
    ensures '-' !in NatToString(n) && 'x' !in NatToString(n)
  {
    var s := NatToString(n);
    assert forall i :: 0 <= i < |s| ==> IsDigit(s[i]);
  }

  /** The 'x' that separates the two counts of a dimension code never
      occurs inside a count. */
  lemma NumberHasNoSeparator(n: int)
    ensures 'x' !in IntToString(n)
    ensures forall i :: 0 < i < |IntToString(n)| ==> IsDigit(IntToString(n)[i])
  {
    DigitsHaveNoSeparator(if n < 0 then -n else n);
  }
}
