/** `search` in display.c: a row-major substring search that starts just after
    a point and wraps around to the top of the document. `strnstr` is modelled
    as a plain substring search over the row's recorded bytes. */
module Search {
  import opened Bytes
  import opened RowStore
  import opened Points

  /** `needle` occurs in `hay` at offset `i`. */
  predicate MatchAt(hay: seq<byte>, i: int, needle: seq<byte>) {
    0 <= i && i + |needle| <= |hay| && hay[i..i + |needle|] == needle
  }

  /** `strnstr(hay + from, needle, |hay| - from)`: the offset of the first
      occurrence at or after `from`, or -1 (a NULL result). */
  function FindFrom(hay: seq<byte>, needle: seq<byte>, from: int): (k: int)
    requires 0 <= from <= |hay|
    ensures k == -1 || (from <= k && MatchAt(hay, k, needle))
    ensures k == -1 ==> forall i :: from <= i ==> !MatchAt(hay, i, needle)
    ensures k != -1 ==> forall i :: from <= i < k ==> !MatchAt(hay, i, needle)
    decreases |hay| - from
  {
    if from + |needle| > |hay| then -1
    else if hay[from..from + |needle|] == needle then from
    else FindFrom(hay, needle, from + 1)
  }

  /** `needle` occurs in the document at point `q`. */
  predicate Occurs(rows: seq<Row>, q: Point, needle: seq<byte>)
    requires AllValid(rows)
  {
    0 <= q.r < |rows| && MatchAt(Content(rows[q.r]), q.c, needle)
  }

  /** `p` is the first occurrence in row-major order at or after `s`. */
  ghost predicate FirstFrom(rows: seq<Row>, needle: seq<byte>, s: Point, p: Point)
    requires AllValid(rows)
  {
    && Occurs(rows, p, needle)
    && !PointLess(p, s)
    && forall q :: Occurs(rows, q, needle) && !PointLess(q, s) ==> !PointLess(q, p)
  }

  /** No occurrence lies at or after `s`. */
  ghost predicate NoneFrom(rows: seq<Row>, needle: seq<byte>, s: Point)
    requires AllValid(rows)
  {
    forall q :: Occurs(rows, q, needle) ==> PointLess(q, s)
  }

  /** The row loop of `search`: row `i` from column `col`, every later row
      from column 0. */
  function SearchRows(rows: seq<Row>, needle: seq<byte>, i: int, col: int): (res: (bool, Point))
    requires AllValid(rows)
    requires 0 <= i && (i < |rows| ==> 0 <= col <= rows[i].len)
    ensures res.0 ==> FirstFrom(rows, needle, Point(i, col), res.1)
    ensures !res.0 ==> NoneFrom(rows, needle, Point(i, col))
    decreases |rows| - i
  {
    if i >= |rows| then (false, Point(0, 0))
    else
      var k := FindFrom(Content(rows[i]), needle, col);
      if k != -1 then (true, Point(i, k))
      else SearchRows(rows, needle, i + 1, 0)
  }

  /** What `search` needs: the start row is not negative and, when it exists,
      the column after the start lies inside it (`strnstr` is given the length
      `len - (start.c + 1)`). */
  predicate SearchDefined(rows: seq<Row>, start: Point) {
    0 <= start.r && (start.r < |rows| ==> -1 <= start.c < rows[start.r].len)
  }

  /** `search(start, needle)`: the first occurrence after `start` in row-major
      order; failing that the first occurrence in the document; failing that
      `start` itself. */
  function Search(rows: seq<Row>, start: Point, needle: seq<byte>): (p: Point)
    requires AllValid(rows) && SearchDefined(rows, start)
    requires NoNul(needle) // the needle is a C string
    ensures var after := Point(start.r, start.c + 1);
      || FirstFrom(rows, needle, after, p)
      || (NoneFrom(rows, needle, after) && FirstFrom(rows, needle, Point(0, 0), p))
      || (NoneFrom(rows, needle, Point(0, 0)) && p == start)
  {
    var first := SearchRows(rows, needle, start.r, start.c + 1);
    if first.0 then first.1
    else
      var again := SearchRows(rows, needle, 0, 0);
      if again.0 then again.1 else start
  }

  /** A needle that occurs somewhere is always found, at one of its occurrences. */
  lemma SearchFindsOccurrence(rows: seq<Row>, start: Point, needle: seq<byte>, q: Point)
    requires AllValid(rows) && SearchDefined(rows, start) && NoNul(needle)
    requires Occurs(rows, q, needle)
    ensures Occurs(rows, Search(rows, start, needle), needle)
  {
  }
}
