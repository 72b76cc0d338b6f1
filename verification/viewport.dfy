/** The viewport mapper of display.c: how many visual rows a document row
    takes when wrapped, the largest point the screen shows from `toprow`, and
    the scroll loop that follows the cursor. Only row lengths matter here
    (wide glyphs are not measured, as the source's own comment admits). */
module Viewport {
  import opened Bytes
  import opened RowStore
  import opened Points
  import opened Screen

  /** Visual rows charged to a row of `len` bytes: `len/maxc + (len%maxc != 0) + (len == 0)`. */
  function Height(len: int, maxc: int): int
    requires 0 <= len && 1 <= maxc
  {
    len / maxc + (if len % maxc != 0 then 1 else 0) + (if len == 0 then 1 else 0)
  }

  /** An empty row takes one visual row; any other row takes the ceiling of
      `len / maxc`. */
  lemma HeightIsCeiling(len: int, maxc: int)
    requires 0 <= len && 1 <= maxc
    ensures len == 0 ==> Height(len, maxc) == 1
    ensures len > 0 ==> (Height(len, maxc) - 1) * maxc < len <= Height(len, maxc) * maxc
    ensures 1 <= Height(len, maxc)
  {
    var q, m := len / maxc, len % maxc;
    assert len == q * maxc + m;
    assert q >= 0;
    if len > 0 && m != 0 {
      assert Height(len, maxc) == q + 1;
      assert (q + 1) * maxc == q * maxc + maxc;
    }
    if len > 0 && m == 0 {
      assert q != 0;
      assert (q - 1) * maxc == q * maxc - maxc;
    }
  }

  /** Visual rows charged to rows `lo .. hi - 1`. */
  function SumHeights(rows: seq<Row>, lo: int, hi: int, maxc: int): int
    requires 0 <= lo && hi <= |rows| && 1 <= maxc
    decreases hi - lo
  {
    if lo >= hi then 0 else Height(rows[lo].len, maxc) + SumHeights(rows, lo + 1, hi, maxc)
  }

  /** The loop of `getLargestDisplayedPoint` from row `r` with next visual row
      `v`: returns the row after the last one scanned and the visual row after it. */
  function Scan(rows: seq<Row>, r: int, v: int, maxr: int, maxc: int): (res: (int, int))
    requires 0 <= r <= |rows| && 1 <= maxc
    ensures && r <= res.0 <= |rows|
            && (r < |rows| && v < maxr ==> r < res.0)
            && res.1 == v + SumHeights(rows, r, res.0, maxc)
            && (res.0 == |rows| || maxr <= res.1)
            && forall k :: r <= k < res.0 ==> v + SumHeights(rows, r, k, maxc) < maxr
    decreases |rows| - r
  {
    if r < |rows| && v < maxr then Scan(rows, r + 1, v + Height(rows[r].len, maxc), maxr, maxc)
    else (r, v)
  }

  /** What `getLargestDisplayedPoint` needs so that it reads no uninitialised
      length and divides by a non-zero width. */
  predicate LargestDefined(d: Display) {
    0 <= d.toprow < |Rows(d)| && 2 <= MaxR(d) && 1 <= MaxC(d)
  }

  /** Visual rows by which the last scanned row overflows the screen (`extra`). */
  function Overflow(d: Display): int
    requires LargestDefined(d)
  {
    Max(Scan(Rows(d), d.toprow, 1, MaxR(d), MaxC(d)).1 - MaxR(d), 0)
  }

  /** `getLargestDisplayedPoint` exactly as written, including the truncation
      `len -= len % maxc - (extra - 1) * maxc`. */
  function LargestDisplayedPointAsWritten(d: Display): (p: Point)
    requires LargestDefined(d)
    ensures d.toprow <= p.r < |Rows(d)|
    ensures Overflow(d) == 0 ==> p.c == Rows(d)[p.r].len
    // the row is the last one scanned, as in the intended version, and the
    // two agree whenever nothing overflows
    ensures p.r == LargestDisplayedPoint(d).r
    ensures Overflow(d) == 0 ==> p == LargestDisplayedPoint(d)
  {
    var (r, vr) := Scan(Rows(d), d.toprow, 1, MaxR(d), MaxC(d));
    var len := Rows(d)[r - 1].len;
    var extra := Max(vr - MaxR(d), 0);
    Point(r - 1, if extra != 0 then len - (len % MaxC(d) - (extra - 1) * MaxC(d)) else len)
  }

  /** As written, a last row that overflows the screen by two or more visual
      rows is reported with a column past its own end. */
  lemma AsWrittenOvershoots(d: Display)
    requires LargestDefined(d) && 2 <= Overflow(d)
    ensures var p := LargestDisplayedPointAsWritten(d);
            p.c > Rows(d)[p.r].len
  {
    var maxc := MaxC(d);
    var p := LargestDisplayedPointAsWritten(d);
    var len := Rows(d)[p.r].len;
    var extra := Overflow(d);
    assert p.c == len - len % maxc + (extra - 1) * maxc;
    MulAtLeast(extra - 1, maxc);
  }

  /** One row of 35 bytes on a screen of two rows and a wrap width of 10: the
      as-written point is column 50, the row ends at 35, and the first visual
      row shows bytes 0 .. 9, the last of them byte 9. */
  lemma AsWrittenExample()
    ensures var e := Editor(0, 0, 0, [], VIEW, [Row(seq(35, _ => 97), 35)], false, [], CommandRow(Row([NUL], 0), 0));
            var d := Display(e, Point(0, 0), 0, 2, 12, 1, VIEW, CommandRow(Row([NUL], 0), 0), []);
            && LargestDisplayedPointAsWritten(d) == Point(0, 50)
            && LargestDisplayedPoint(d) == Point(0, 9)
  {
    var e := Editor(0, 0, 0, [], VIEW, [Row(seq(35, _ => 97), 35)], false, [], CommandRow(Row([NUL], 0), 0));
    var d := Display(e, Point(0, 0), 0, 2, 12, 1, VIEW, CommandRow(Row([NUL], 0), 0), []);
    assert Scan(Rows(d), 1, 5, 2, 10) == (1, 5);
    assert Scan(Rows(d), 0, 1, 2, 10) == (1, 5);
  }

  /** As written, a last row that overflows by exactly one visual row is
      reported with the first byte of its hidden subline, one past the last
      byte shown, or with its full length when it ends on a subline boundary. */
  lemma AsWrittenOneOver(d: Display)
    requires LargestDefined(d) && Overflow(d) == 1
    ensures var p := LargestDisplayedPointAsWritten(d);
            var len := Rows(d)[p.r].len;
            && (len % MaxC(d) != 0 ==> p.c == LargestDisplayedPoint(d).c + 1)
            && (len % MaxC(d) == 0 ==> p.c == len)
  {
    var maxc := MaxC(d);
    var p := LargestDisplayedPointAsWritten(d);
    var len := Rows(d)[p.r].len;
    var q := LargestDisplayedPoint(d);
    assert p.c == len - len % maxc;
    if len % maxc != 0 {
      assert q.c == (Height(len, maxc) - 1) * maxc - 1;
      assert Height(len, maxc) == len / maxc + 1;
      assert len == len / maxc * maxc + len % maxc;
    }
  }

  /** One row of 3 bytes on a screen of two rows and a wrap width of 2, the
      cursor on byte 2: that byte is on visual row 2, under the status bar,
      yet the as-written point (0, 2) does not put the cursor past it, so
      the scroll loop leaves the cursor hidden. The intended point (0, 1)
      does. */
  lemma AsWrittenOneOverExample()
    ensures var cmd := CommandRow(Row([NUL], 0), 0);
      var e := Editor(0, 0, 0, [], VIEW, [Row([97, 97, 97, NUL], 3)], false, [], cmd);
      var d := Display(e, Point(0, 2), 0, 2, 4, 1, VIEW, cmd, []);
      && Overflow(d) == 1
      && LargestDisplayedPointAsWritten(d) == Point(0, 2)
      && LargestDisplayedPoint(d) == Point(0, 1)
      && !PointGreater(GetBoundedCursor(d), LargestDisplayedPointAsWritten(d))
      && PointGreater(GetBoundedCursor(d), LargestDisplayedPoint(d))
  {
    var cmd := CommandRow(Row([NUL], 0), 0);
    var e := Editor(0, 0, 0, [], VIEW, [Row([97, 97, 97, NUL], 3)], false, [], cmd);
    var d := Display(e, Point(0, 2), 0, 2, 4, 1, VIEW, cmd, []);
    assert Scan(Rows(d), 1, 3, 2, 2) == (1, 3);
    assert Scan(Rows(d), 0, 1, 2, 2) == (1, 3);
  }

  /** `getLargestDisplayedPoint` with the truncation it evidently intends: an
      overflowing last row is reported with the last byte its visible
      sublines hold, `(Height - extra) * maxc - 1`.

      The point is on the last row the scan reached; that row starts on
      screen; the scan stopped at the end of the document or with the screen
      full. A row that fits is reported with its full length; an overflowing
      one with the byte in the last column of the last visual row above the
      status bar. */
  predicate LargestSpec(d: Display, p: Point)
    requires LargestDefined(d)
  {
    && d.toprow <= p.r < |Rows(d)|
    && 1 + SumHeights(Rows(d), d.toprow, p.r, MaxC(d)) < MaxR(d)
    && (p.r + 1 == |Rows(d)| || MaxR(d) <= 1 + SumHeights(Rows(d), d.toprow, p.r + 1, MaxC(d)))
    && (1 + SumHeights(Rows(d), d.toprow, p.r + 1, MaxC(d)) <= MaxR(d) ==> p.c == Rows(d)[p.r].len)
    && (MaxR(d) < 1 + SumHeights(Rows(d), d.toprow, p.r + 1, MaxC(d)) ==>
         && 0 <= p.c < Rows(d)[p.r].len
         && p.c % MaxC(d) == MaxC(d) - 1
         && 1 + SumHeights(Rows(d), d.toprow, p.r, MaxC(d)) + p.c / MaxC(d) == MaxR(d) - 1)
  }

  function LargestDisplayedPoint(d: Display): (p: Point)
    requires LargestDefined(d)
    ensures LargestSpec(d, p)
  {
    var (r, vr) := Scan(Rows(d), d.toprow, 1, MaxR(d), MaxC(d));
    var len := Rows(d)[r - 1].len;
    var extra := Max(vr - MaxR(d), 0);
    var p := Point(r - 1, if extra != 0 then (Height(len, MaxC(d)) - extra) * MaxC(d) - 1 else len);
    LargestFacts(d, r, vr, p);
    p
  }

  lemma SumHeightsSplit(rows: seq<Row>, lo: int, mid: int, hi: int, maxc: int)
    requires 0 <= lo <= mid <= hi <= |rows| && 1 <= maxc
    ensures SumHeights(rows, lo, hi, maxc) == SumHeights(rows, lo, mid, maxc) + SumHeights(rows, mid, hi, maxc)
    decreases mid - lo
  {
    if lo < mid {
      SumHeightsSplit(rows, lo + 1, mid, hi, maxc);
    }
  }

  lemma LargestFacts(d: Display, r: int, vr: int, p: Point)
    requires LargestDefined(d)
    requires (r, vr) == Scan(Rows(d), d.toprow, 1, MaxR(d), MaxC(d))
    requires var len := Rows(d)[r - 1].len;
             var extra := Max(vr - MaxR(d), 0);
             p == Point(r - 1, if extra != 0 then (Height(len, MaxC(d)) - extra) * MaxC(d) - 1 else len)
    ensures LargestSpec(d, p)
  {
    var rows, maxr, maxc := Rows(d), MaxR(d), MaxC(d);
    var last := r - 1;
    var len := rows[last].len;
    var h := Height(len, maxc);
    var v0 := 1 + SumHeights(rows, d.toprow, last, maxc);
    SumHeightsSplit(rows, d.toprow, last, r, maxc);
    assert vr == v0 + h;
    HeightIsCeiling(len, maxc);
    assert v0 < maxr;
    if maxr < vr {
      TruncatedColumn(len, maxc, vr - maxr);
    }
  }

  /** Arithmetic of the intended truncation: cutting `extra` of the row's
      sublines, at least one being left, leaves a whole number of sublines
      strictly inside the row, whose last byte ends a subline. */
  lemma TruncatedColumn(len: int, maxc: int, extra: int)
    requires 0 <= len && 1 <= maxc && 1 <= extra < Height(len, maxc)
    ensures var k := Height(len, maxc) - extra;
            && 0 < k * maxc < len
            && (k * maxc) % maxc == 0
            && (k * maxc) / maxc == k
            && (k * maxc - 1) % maxc == maxc - 1
            && (k * maxc - 1) / maxc == k - 1
  {
    var h := Height(len, maxc);
    var k := h - extra;
    HeightIsCeiling(len, maxc);
    assert len > 0;
    assert k * maxc <= (h - 1) * maxc by {
      assert (h - 1) * maxc == k * maxc + (h - 1 - k) * maxc;
      assert (h - 1 - k) * maxc >= 0;
    }
    MulAtLeast(k, maxc);
    DivExact(k, maxc);
    assert k * maxc - 1 == (k - 1) * maxc + (maxc - 1);
    DivModUnique(k * maxc - 1, maxc, k - 1, maxc - 1);
  }

  lemma MulAtLeast(a: int, m: int)
    requires 1 <= a && 1 <= m
    ensures a * m >= m
  {
    assert a * m == (a - 1) * m + m;
  }

  /** Euclidean division is determined by quotient and remainder. */
  lemma DivModUnique(x: int, m: int, q: int, r: int)
    requires 1 <= m && 0 <= r < m && x == q * m + r
    ensures x / m == q && x % m == r
  {
    var q', r' := x / m, x % m;
    assert (q - q') * m == r' - r;
    if q > q' {
      MulAtLeast(q - q', m);
    } else if q < q' {
      assert (q' - q) * m == r - r';
      MulAtLeast(q' - q, m);
    }
  }

  lemma DivExact(k: int, m: int)
    requires 0 <= k && 1 <= m
    ensures (k * m) / m == k && (k * m) % m == 0
  {
    DivModUnique(k * m, m, k, 0);
  }

  /** `getBoundedCursor`: the cursor with its column clamped to its row's length. */
  function GetBoundedCursor(d: Display): (p: Point)
    requires 0 <= d.cursor.r < |Rows(d)|
    ensures p.r == d.cursor.r
    ensures p.c <= Rows(d)[p.r].len && p.c <= d.cursor.c
    ensures p.c == d.cursor.c || p.c == Rows(d)[p.r].len
  {
    Point(d.cursor.r, Min(d.cursor.c, Rows(d)[d.cursor.r].len))
  }

  /** Bounding is idempotent and never moves the cursor forward. */
  lemma BoundedCursorStable(d: Display)
    requires 0 <= d.cursor.r < |Rows(d)|
    ensures GetBoundedCursor(d.(cursor := GetBoundedCursor(d))) == GetBoundedCursor(d)
    ensures !PointGreater(GetBoundedCursor(d), d.cursor)
  {
  }

  /** What the scroll loop of `adjustToprow` needs: the cursor's row exists,
      the screen has a content row and a non-zero width, and some `toprow`
      from the current one on, before the end of the document, is one where
      the loop stops. Without one the loop pushes `toprow` to `numrows`,
      where `getLargestDisplayedPoint` reads a length it never set. */
  predicate ScrollDefined(d: Display) {
    && 0 <= d.cursor.r < |Rows(d)|
    && 2 <= MaxR(d) && 1 <= MaxC(d)
    && exists t :: 0 <= d.toprow <= t < |Rows(d)|
         && !PointGreater(GetBoundedCursor(d), LargestDisplayedPointAsWritten(d.(toprow := t)))
  }

  /** From a `toprow` below the cursor's row the fold is on a later row, so
      the scroll loop stops there at the latest. */
  lemma StopsBelowCursorRow(d: Display, t: int)
    requires 0 <= d.cursor.r < |Rows(d)| && 2 <= MaxR(d) && 1 <= MaxC(d) && d.cursor.r < t
    ensures t < |Rows(d)| ==>
      !PointGreater(GetBoundedCursor(d), LargestDisplayedPointAsWritten(d.(toprow := t)))
  {
  }

  /** `adjustToprow` as written: a cursor above the screen snaps `toprow` to
      its row; otherwise `toprow` moves down one row at a time until the
      bounded cursor is not past the point `getLargestDisplayedPoint` reports,
      and stops at the first such row. The loop is `ScrollFrom`. */
  method AdjustToprow(d: Display) returns (d': Display)
    requires 0 <= d.toprow
    requires d.toprow <= d.cursor.r ==> ScrollDefined(d)
    ensures d' == d.(toprow := d'.toprow)
    ensures d.cursor.r < d.toprow ==> d'.toprow == d.cursor.r
    ensures d.toprow <= d.cursor.r ==>
      && d.toprow <= d'.toprow <= d.cursor.r + 1
      && d'.toprow < |Rows(d)|
      && !PointGreater(GetBoundedCursor(d), LargestDisplayedPointAsWritten(d'))
      && forall t :: d.toprow <= t < d'.toprow ==>
           PointGreater(GetBoundedCursor(d), LargestDisplayedPointAsWritten(d.(toprow := t)))
  {
    if d.cursor.r < d.toprow {
      return d.(toprow := d.cursor.r);
    }
    ghost var stop :| 0 <= d.toprow <= stop < |Rows(d)|
      && !PointGreater(GetBoundedCursor(d), LargestDisplayedPointAsWritten(d.(toprow := stop)));
    StopsBelowCursorRow(d, d.cursor.r + 1);
    ghost var bound := if stop <= d.cursor.r + 1 then stop else d.cursor.r + 1;
    var t := ScrollFrom(d, d.toprow, bound);
    d' := d.(toprow := t);
  }

  /** The `while` loop of `adjustToprow` from `toprow` t: the first row from
      t on where the bounded cursor is not past the as-written fold. `stop`
      is some such row; it bounds the loop. */
  function ScrollFrom(d: Display, t: int, ghost stop: int): (t': int)
    requires 0 <= d.cursor.r < |Rows(d)| && 2 <= MaxR(d) && 1 <= MaxC(d)
    requires 0 <= t <= stop < |Rows(d)|
    requires !PointGreater(GetBoundedCursor(d), LargestDisplayedPointAsWritten(d.(toprow := stop)))
    ensures t <= t' <= stop
    ensures !PointGreater(GetBoundedCursor(d), LargestDisplayedPointAsWritten(d.(toprow := t')))
    ensures forall k :: t <= k < t' ==>
      PointGreater(GetBoundedCursor(d), LargestDisplayedPointAsWritten(d.(toprow := k)))
    decreases stop - t
  {
    if PointGreater(GetBoundedCursor(d), LargestDisplayedPointAsWritten(d.(toprow := t)))
    then ScrollFrom(d, t + 1, stop) else t
  }

  /** The scroll loop's precondition with the intended fold. */
  predicate ScrollDefinedIntended(d: Display) {
    && 0 <= d.cursor.r < |Rows(d)|
    && 2 <= MaxR(d) && 1 <= MaxC(d)
    && (d.cursor.r + 1 < |Rows(d)|
        || !PointGreater(GetBoundedCursor(d), LargestDisplayedPoint(d.(toprow := d.cursor.r))))
  }

  /** `adjustToprow` scrolling on the intended fold: it stops at the first
      `toprow` whose screen shows the bounded cursor. */
  method AdjustToprowIntended(d: Display) returns (d': Display)
    requires 0 <= d.toprow
    requires d.toprow <= d.cursor.r ==> ScrollDefinedIntended(d)
    ensures d' == d.(toprow := d'.toprow)
    ensures d.cursor.r < d.toprow ==> d'.toprow == d.cursor.r
    ensures d.toprow <= d.cursor.r ==>
      && d.toprow <= d'.toprow <= d.cursor.r + 1
      && d'.toprow < |Rows(d)|
      && !PointGreater(GetBoundedCursor(d), LargestDisplayedPoint(d'))
      && forall t :: d.toprow <= t < d'.toprow ==>
           PointGreater(GetBoundedCursor(d), LargestDisplayedPoint(d.(toprow := t)))
  {
    if d.cursor.r < d.toprow {
      return d.(toprow := d.cursor.r);
    }
    var t := d.toprow;
    while PointGreater(GetBoundedCursor(d), LargestDisplayedPoint(d.(toprow := t)))
      invariant d.toprow <= t <= d.cursor.r + 1 && t < |Rows(d)|
      invariant forall k :: d.toprow <= k < t ==>
        PointGreater(GetBoundedCursor(d), LargestDisplayedPoint(d.(toprow := k)))
      decreases |Rows(d)| - t
    {
      t := t + 1;
    }
    d' := d.(toprow := t);
  }

  /** Rows of 5, 35 and 0 bytes on a screen of three rows and a wrap width of
      10, the cursor on byte 15 of the middle row, `toprow` 0. Byte 15 lies on
      the second subline of the middle row, which is below the screen. */
  function ScrollExample(): Display {
    var rows := [Row(seq(5, _ => 97), 5), Row(seq(35, _ => 97), 35), Row(EmptyText, 0)];
    var cmd := CommandRow(Row([NUL], 0), 0);
    Display(Editor(0, 0, 0, [], VIEW, rows, false, [], cmd), Point(1, 15), 0, 3, 12, 1, VIEW, cmd, [])
  }

  /** The folds on the example: as written (1, 50) from `toprow` 0, which
      does not hide the cursor; intended (1, 9) from `toprow` 0, which does,
      and (1, 19) from `toprow` 1, which does not. */
  lemma ScrollExampleFolds()
    ensures var d := ScrollExample();
      && GetBoundedCursor(d) == Point(1, 15)
      && LargestDisplayedPointAsWritten(d) == Point(1, 50)
      && LargestDisplayedPoint(d) == Point(1, 9)
      && LargestDisplayedPoint(d.(toprow := 1)) == Point(1, 19)
  {
    var d := ScrollExample();
    var rows := Rows(d);
    assert Scan(rows, 2, 6, 3, 10) == (2, 6);
    assert Scan(rows, 1, 2, 3, 10) == (2, 6);
    assert Scan(rows, 0, 1, 3, 10) == (2, 6);
    assert Scan(rows, 2, 5, 3, 10) == (2, 5);
    assert Scan(rows, 1, 1, 3, 10) == (2, 5);
  }

  /** Both scroll loops are defined on the example: the as-written one
      stops at `toprow` 0, and the intended one's fold from the cursor's row
      is not before the cursor. */
  lemma ScrollExampleDefined()
    ensures ScrollDefined(ScrollExample()) && ScrollDefinedIntended(ScrollExample())
  {
    var d := ScrollExample();
    ScrollExampleFolds();
    assert d.(toprow := 0) == d;
    assert !PointGreater(GetBoundedCursor(d), LargestDisplayedPointAsWritten(d.(toprow := 0)));
  }

  /** On the example the scroll loop as written stops at once: `toprow`
      stays 0, with byte 15 of the cursor's row on the hidden visual row 3. */
  method AsWrittenScrollStays(d: Display) returns (d': Display)
    requires d == ScrollExample()
    ensures d' == d && d'.toprow == 0
  {
    ScrollExampleFolds();
    ScrollExampleDefined();
    assert d.(toprow := 0) == d;
    var stop := LargestDisplayedPointAsWritten(d.(toprow := 0));
    d' := AdjustToprow(d);
  }

  /** On the example the intended scroll loop moves `toprow` to 1, the
      cursor's own row. */
  method IntendedScrollMoves(d: Display) returns (d': Display)
    requires d == ScrollExample()
    ensures d' == d.(toprow := 1) && d'.toprow == d.cursor.r
  {
    ScrollExampleFolds();
    ScrollExampleDefined();
    assert d.(toprow := 0) == d;
    var first, second := LargestDisplayedPoint(d.(toprow := 0)), LargestDisplayedPoint(d.(toprow := 1));
    d' := AdjustToprowIntended(d);
  }

  /** Rows of 5 and 25 bytes on a screen of three rows and a wrap width of
      10, the cursor on byte 23 of the last row, `toprow` 0. Byte 23 is on
      visual row 4, below the screen. */
  function StopsEarlyExample(): Display {
    var cmd := CommandRow(Row([NUL], 0), 0);
    var rows := [Row(seq(5, _ => 97), 5), Row(seq(25, _ => 97), 25)];
    Display(Editor(0, 0, 0, [], VIEW, rows, false, [], cmd), Point(1, 23), 0, 3, 12, 1, VIEW, cmd, [])
  }

  /** The as-written fold from `toprow` 0 is (1, 30), which the cursor is not
      past; from `toprow` 1 it would be (1, 20), which it is past. The loop
      is defined here only because it stops at 0. */
  lemma ScrollStopsEarlyExample()
    ensures var d := StopsEarlyExample();
      && LargestDisplayedPointAsWritten(d) == Point(1, 30)
      && !PointGreater(GetBoundedCursor(d), LargestDisplayedPointAsWritten(d))
      && LargestDisplayedPointAsWritten(d.(toprow := 1)) == Point(1, 20)
      && PointGreater(GetBoundedCursor(d), LargestDisplayedPointAsWritten(d.(toprow := 1)))
      && ScrollDefined(d)
  {
    var d := StopsEarlyExample();
    var rows := Rows(d);
    assert Scan(rows, 2, 5, 3, 10) == (2, 5);
    assert Scan(rows, 1, 2, 3, 10) == (2, 5);
    assert Scan(rows, 0, 1, 3, 10) == (2, 5);
    assert Scan(rows, 2, 4, 3, 10) == (2, 4);
    assert Scan(rows, 1, 1, 3, 10) == (2, 4);
    assert d.(toprow := 0) == d;
  }

  /** On that example the scroll loop as written leaves `toprow` at 0. */
  method AsWrittenStopsEarly(d: Display) returns (d': Display)
    requires d == StopsEarlyExample()
    ensures d' == d && d'.toprow == 0
  {
    ScrollStopsEarlyExample();
    assert d.(toprow := 0) == d;
    var stop := LargestDisplayedPointAsWritten(d.(toprow := 0));
    d' := AdjustToprow(d);
  }

  /** One row of 15 bytes on a screen of two rows and a wrap width of 10,
      the cursor on byte 14: the row's second subline is below the screen, so
      the scroll loop as written would move `toprow` past the last row. */
  lemma ScrollPastLastExample()
    ensures var cmd := CommandRow(Row([NUL], 0), 0);
      var e := Editor(0, 0, 0, [], VIEW, [Row(seq(15, _ => 97), 15)], false, [], cmd);
      var d := Display(e, Point(0, 14), 0, 2, 12, 1, VIEW, cmd, []);
      && LargestDisplayedPointAsWritten(d) == Point(0, 10)
      && PointGreater(GetBoundedCursor(d), LargestDisplayedPointAsWritten(d))
      && !ScrollDefined(d)
  {
    var cmd := CommandRow(Row([NUL], 0), 0);
    var e := Editor(0, 0, 0, [], VIEW, [Row(seq(15, _ => 97), 15)], false, [], cmd);
    var d := Display(e, Point(0, 14), 0, 2, 12, 1, VIEW, cmd, []);
    assert Scan(Rows(d), 1, 3, 2, 10) == (1, 3);
    assert Scan(Rows(d), 0, 1, 2, 10) == (1, 3);
    assert d.(toprow := 0) == d;
  }
}
