/** Logical positions (row, byte column) and the row-major order on them
    (display.c's point utilities), plus the clamp `resize` applies to the
    cursor after the terminal size changes. */
module Points {

  datatype Point = Point(r: int, c: int)

  /** Row-major order, stated directly on the pair of coordinates. */
  predicate Before(p: Point, q: Point) {
    p.r < q.r || (p.r == q.r && p.c < q.c)
  }

  function PointEqual(p1: Point, p2: Point): (b: bool)
    ensures b <==> p1 == p2
  {
    p1.r == p2.r && p1.c == p2.c
  }

  function PointGreater(p1: Point, p2: Point): (b: bool)
    ensures b <==> Before(p2, p1)
  {
    if p1.r > p2.r then true
    else if p1.r < p2.r then false
    else p1.c > p2.c
  }

  function PointLess(p1: Point, p2: Point): (b: bool)
    ensures b <==> Before(p1, p2)
  {
    if p1.r < p2.r then true
    else if p1.r > p2.r then false
    else p1.c < p2.c
  }

  /** Exactly one of less, equal and greater holds for any two points, and
      less is greater with the arguments swapped. */
  lemma Trichotomy(p: Point, q: Point)
    ensures PointLess(p, q) == PointGreater(q, p)
    ensures PointLess(p, q) || PointEqual(p, q) || PointGreater(p, q)
    ensures !(PointLess(p, q) && PointEqual(p, q))
    ensures !(PointLess(p, q) && PointGreater(p, q))
    ensures !(PointEqual(p, q) && PointGreater(p, q))
  {
  }

  lemma LessTransitive(p: Point, q: Point, s: Point)
    requires PointLess(p, q) && PointLess(q, s)
    ensures PointLess(p, s)
  {
  }

  /** `maxPoint`: the greater point; on a tie, the second. */
  function MaxPoint(p1: Point, p2: Point): (m: Point)
    ensures m == p1 || m == p2
    ensures !PointLess(m, p1) && !PointLess(m, p2)
  {
    if PointGreater(p1, p2) then p1 else p2
  }

  /** `minPoint`: the lesser point; on a tie, the second. */
  function MinPoint(p1: Point, p2: Point): (m: Point)
    ensures m == p1 || m == p2
    ensures !PointGreater(m, p1) && !PointGreater(m, p2)
  {
    if PointLess(p1, p2) then p1 else p2
  }

  /** The cursor clamp in `resize`: `maxPoint(minPoint(cursor, (ws_row, ws_col)), (0, 0))`.
      The window size fields are unsigned, hence non-negative. */
  function ResizeClamp(cursor: Point, wsRow: int, wsCol: int): (p: Point)
    requires 0 <= wsRow && 0 <= wsCol
    ensures !PointLess(p, Point(0, 0))
    ensures !PointGreater(p, Point(wsRow, wsCol))
    ensures p == cursor || p == Point(0, 0) || p == Point(wsRow, wsCol)
    ensures !PointLess(cursor, Point(0, 0)) && !PointGreater(cursor, Point(wsRow, wsCol)) ==> p == cursor
  {
    MaxPoint(MinPoint(cursor, Point(wsRow, wsCol)), Point(0, 0))
  }
}
