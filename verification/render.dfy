/** `printEditorContents` in display.c: one frame of the text area, built as
    a sequence of terminal tokens. Rows are drawn from `toprow` with a line
    number gutter, wrapped at `maxc` columns, tabs drawn as two spaces; the
    visual rows left over get a `~`; the terminal cursor goes last to where
    the logical cursor was drawn (or to the command line). */
module Render {
  import opened Bytes
  import opened RowStore
  import opened Points
  import opened Screen
  import opened Terminal
  import opened Viewport

  predicate NoTab(s: seq<byte>) {
    forall i :: 0 <= i < |s| ==> s[i] != TAB
  }

  /** What is written for one byte of a row: a tab becomes two spaces. */
  function Glyph(b: byte): (g: seq<byte>)
    ensures NoTab(g)
    ensures b == TAB ==> g == [SPACE, SPACE]
    ensures b != TAB ==> g == [b]
  {
    if b == TAB then [SPACE, SPACE] else [b]
  }

  /** The bytes written for a run of row bytes. */
  function Expand(s: seq<byte>): (t: seq<byte>)
    ensures NoTab(t)
    ensures NoTab(s) ==> t == s
    ensures |s| <= |t| <= 2 * |s|
  {
    if |s| == 0 then []
    else
      assert NoTab(s) ==> NoTab(s[1..]);
      Glyph(s[0]) + Expand(s[1..])
  }

  /** A token that may appear between the hide and the show of a frame: a
      move to a visual row in `lo .. hi - 1`, an erase, a colour change, or
      text without a tab. */
  predicate BodyToken(t: Token, lo: int, hi: int) {
    match t
    case Hide => false
    case Show => false
    case Move(row, _) => lo <= row < hi
    case Text(bytes) => NoTab(bytes)
    case _ => true
  }

  predicate Body(toks: seq<Token>, lo: int, hi: int) {
    forall i :: 0 <= i < |toks| ==> BodyToken(toks[i], lo, hi)
  }

  lemma BodyConcat(a: seq<Token>, b: seq<Token>, lo: int, hi: int)
    requires Body(a, lo, hi) && Body(b, lo, hi)
    ensures Body(a + b, lo, hi)
  {
    forall i | 0 <= i < |a + b|
      ensures BodyToken((a + b)[i], lo, hi)
    {
      if i < |a| {
        assert (a + b)[i] == a[i];
      } else {
        assert (a + b)[i] == b[i - |a|];
      }
    }
  }

  lemma BodyWiden(toks: seq<Token>, lo: int, hi: int, lo': int)
    requires Body(toks, lo, hi) && lo' <= lo
    ensures Body(toks, lo', hi)
  {
    forall i | 0 <= i < |toks|
      ensures BodyToken(toks[i], lo', hi)
    {
      assert BodyToken(toks[i], lo, hi);
    }
  }

  /** A terminal position inside the text area: a content row at or below
      `lo`, a column right of the gutter and within the wrap width. */
  predicate OnText(d: Display, p: Point, lo: int) {
    lo <= p.r < MaxR(d) && d.coloff + 1 <= p.c <= d.coloff + MaxC(d)
  }

  /** Where the cursor may be drawn: in the text area and, on an empty row,
      right after the gutter. */
  predicate CursorSpot(d: Display, p: Point, lo: int)
    requires AllValid(Rows(d))
  {
    && 0 <= d.cursor.r < |Rows(d)|
    && OnText(d, p, lo)
    && (Rows(d)[d.cursor.r].len == 0 ==> p.c == d.coloff + 1)
  }

  /** The cursor-finding step for byte `c` of row `r`, drawn at visual row
      `vr` with its last cell at visual column `vc`; `save.r == -1` means not
      found yet. Both `%` operands are non-negative, so C's `%` agrees. */
  function FindCursor(d: Display, row: seq<byte>, r: int, c: int, cw: int, vc: int, vr: int, save: Point): (p: Point)
    requires 1 <= MaxC(d) && cw - 1 <= vc
    // a cursor already found is kept; otherwise it is found only on its own
    // row, at its own byte or at the last one, on the byte's visual row and
    // inside the text area
    ensures save.r != -1 || d.cursor.r != r ==> p == save
    ensures p != save ==>
      && (c == d.cursor.c || c == |row| - 1)
      && p.r == vr && d.coloff + 1 <= p.c <= d.coloff + MaxC(d)
    ensures save.r == -1 && d.cursor.r == r && (c == d.cursor.c || c == |row| - 1) ==> p.r == vr
  {
    if save.r == -1 && d.cursor.r == r then
      if c == d.cursor.c then Point(vr, (vc - cw + 1) % MaxC(d) + d.coloff + 1)
      else if c == |row| - 1 then Point(vr, (vc + 1) % MaxC(d) + d.coloff + 1)
      else save
    else save
  }

  /** Where byte `c` of a row goes: its width `cw` (a tab takes two cells),
      whether it starts a new visual row, and the visual column and row it
      ends on. `vc` is the column the previous byte ended on. */
  datatype Place = Place(cw: int, wrap: bool, vc: int, vr: int)

  function PlaceByte(d: Display, b: byte, c: int, vc: int, vr: int): (p: Place)
    requires 1 <= MaxC(d) && -1 <= vc
    ensures p.cw == if b == TAB then 2 else 1
    ensures vc + p.cw <= p.vc
    ensures p.vr == if p.wrap then vr + 1 else vr
    ensures p.wrap ==> c != 0
  {
    var cw := if b == TAB then 2 else 1;
    var vc1 := vc + cw;
    var wrap := c != 0 && vc1 % MaxC(d) < cw;
    Place(cw, wrap, if wrap then vc1 + cw - 1 - vc1 % MaxC(d) else vc1, if wrap then vr + 1 else vr)
  }

  /** State after the character loop: tokens written, the visual row, the
      saved cursor, and the first byte not drawn. */
  datatype CharsOut = CharsOut(toks: seq<Token>, vr: int, save: Point, next: int)

  /** The tokens for one drawn byte: the subline change if it wraps, then its glyph. */
  function ByteTokens(d: Display, b: byte, p: Place): (h: seq<Token>)
    ensures TextOf(h) == Glyph(b)
  {
    var pre := if p.wrap then [EraseEol, Move(p.vr, d.coloff + 1), EraseSol] else [];
    TextOfConcat(pre, [Text(Glyph(b))]);
    NoTextOf(pre);
    assert TextOf([Text(Glyph(b))]) == Glyph(b) + TextOf([]);
    pre + [Text(Glyph(b))]
  }

  /** A byte's tokens move only to its own visual row, and only when it wraps. */
  lemma HeadBody(d: Display, b: byte, p: Place, lo: int, hi: int)
    requires p.wrap ==> lo <= p.vr < hi
    ensures Body(ByteTokens(d, b, p), lo, hi)
  {
    var h := ByteTokens(d, b, p);
    if p.wrap {
      assert h == [EraseEol, Move(p.vr, d.coloff + 1), EraseSol, Text(Glyph(b))];
    } else {
      assert h == [Text(Glyph(b))];
    }
  }

  /** The character loop of `printEditorContents` for row `r` (its bytes in
      `row`) from byte `c`, visual column `vc`, visual row `vr`. */
  function Chars(d: Display, row: seq<byte>, r: int, c: int, vc: int, vr: int, save: Point): (o: CharsOut)
    requires 1 <= MaxC(d) && 0 <= c <= |row| && -1 <= vc
    ensures c <= o.next <= |row| && vr <= o.vr
    decreases |row| - c
  {
    if c >= |row| || vr >= MaxR(d) then CharsOut([], vr, save, c)
    else
      var p := PlaceByte(d, row[c], c, vc, vr);
      if p.wrap && p.vr >= MaxR(d) then CharsOut([], p.vr, save, c)
      else
        var rest := Chars(d, row, r, c + 1, p.vc, p.vr, FindCursor(d, row, r, c, p.cw, p.vc, p.vr, save));
        CharsOut(ByteTokens(d, row[c], p) + rest.toks, rest.vr, rest.save, rest.next)
  }

  /** The character loop stops early only when the screen is full; every move
      it writes goes to a visual row below `vr` on screen; and it saves the
      cursor only for the cursor's row, on a visual row on screen. */
  lemma {:induction false} CharsFacts(d: Display, row: seq<byte>, r: int, c: int, vc: int, vr: int, save: Point)
    requires 1 <= MaxC(d) && 0 <= c <= |row| && -1 <= vc
    ensures var o := Chars(d, row, r, c, vc, vr, save);
      && (vr < MaxR(d) ==> o.vr <= MaxR(d))
      && (o.next < |row| ==> MaxR(d) <= o.vr)
      && Body(o.toks, vr + 1, MaxR(d))
      && (o.save == save || (save.r == -1 && d.cursor.r == r && c < |row| && OnText(d, o.save, vr)))
    decreases |row| - c
  {
    if c < |row| && vr < MaxR(d) {
      var p := PlaceByte(d, row[c], c, vc, vr);
      if !(p.wrap && p.vr >= MaxR(d)) {
        var save1 := FindCursor(d, row, r, c, p.cw, p.vc, p.vr, save);
        var rest := Chars(d, row, r, c + 1, p.vc, p.vr, save1);
        var head := ByteTokens(d, row[c], p);
        var o := Chars(d, row, r, c, vc, vr, save);
        assert o == CharsOut(head + rest.toks, rest.vr, rest.save, rest.next);
        CharsFacts(d, row, r, c + 1, p.vc, p.vr, save1);
        HeadBody(d, row[c], p, vr + 1, MaxR(d));
        BodyWiden(rest.toks, p.vr + 1, MaxR(d), vr + 1);
        BodyConcat(head, rest.toks, vr + 1, MaxR(d));
      }
    }
  }

  /** The character loop writes exactly the expansion of the bytes it draws. */
  lemma {:induction false} CharsText(d: Display, row: seq<byte>, r: int, c: int, vc: int, vr: int, save: Point)
    requires 1 <= MaxC(d) && 0 <= c <= |row| && -1 <= vc
    ensures var o := Chars(d, row, r, c, vc, vr, save);
      TextOf(o.toks) == Expand(row[c..o.next])
    decreases |row| - c
  {
    if c < |row| && vr < MaxR(d) {
      var p := PlaceByte(d, row[c], c, vc, vr);
      if !(p.wrap && p.vr >= MaxR(d)) {
        var save1 := FindCursor(d, row, r, c, p.cw, p.vc, p.vr, save);
        var rest := Chars(d, row, r, c + 1, p.vc, p.vr, save1);
        var head := ByteTokens(d, row[c], p);
        var o := Chars(d, row, r, c, vc, vr, save);
        assert o == CharsOut(head + rest.toks, rest.vr, rest.save, rest.next);
        CharsText(d, row, r, c + 1, p.vc, p.vr, save1);
        TextOfConcat(head, rest.toks);
        var s := row[c..o.next];
        assert s[0] == row[c] && s[1..] == row[c + 1..rest.next];
        assert Expand(s) == Glyph(row[c]) + Expand(row[c + 1..rest.next]);
      }
    }
  }

  /** The bytes a `LineNumber(n, coloff)` token stands for: the gutter
      `sprintf("%*d ", coloff - 1, n)` cut to its first `coloff` bytes. */
  function Gutter(n: nat, coloff: int): (g: seq<byte>)
    requires 1 <= coloff
    ensures |g| == coloff
    ensures NoTab(g)
    ensures |Decimal(n)| < coloff ==> g == PadDecimal(n, coloff - 1) + [SPACE]
    ensures coloff <= |Decimal(n)| ==> g == Decimal(n)[..coloff]
  {
    var p := PadDecimal(n, coloff - 1);
    var s := p + [SPACE];
    forall i | 0 <= i < |s|
      ensures s[i] == SPACE || IsDigit(s[i])
    {
      var k := |p| - |Decimal(n)|;
      if k <= i < |p| {
        assert s[i] == p[k..][i - k] == Decimal(n)[i - k];
      }
    }
    s[..coloff]
  }

  predicate FrameDefined(d: Display) {
    0 <= d.toprow && AllValid(Rows(d)) && 1 <= MaxC(d) && 1 <= d.coloff
  }

  /** State after the row loop: tokens written, the next visual row, the
      saved cursor, and the first row not drawn. */
  datatype RowsOut = RowsOut(toks: seq<Token>, vr: int, save: Point, next: int)

  /** The tokens that open row `r` at visual row `vr`: the move to the
      start of the line and the coloured line number. */
  function RowHead(d: Display, r: nat, vr: int): (h: seq<Token>)
    ensures |h| == 4 && h[0] == Move(vr, 0) && h[2] == LineNumber(r + 1, d.coloff)
    ensures forall i :: 1 <= i < |h| ==> !h[i].Move? && !h[i].Text?
    ensures Body(h, vr, vr + 1)
  {
    [Move(vr, 0), SetColor, LineNumber(r + 1, d.coloff), ResetColor]
  }

  /** The saved cursor on reaching row `r` of `len` bytes at visual row
      `vr`: the cursor on an empty row is put right after the gutter. */
  function EmptyRowSave(d: Display, r: int, len: int, vr: int, save: Point): (p: Point)
    ensures len == 0 && d.cursor.r == r ==> p.r == vr && p.c == d.coloff + 1
    ensures !(len == 0 && d.cursor.r == r) ==> p == save
  {
    if len == 0 && d.cursor.r == r then Point(vr, d.coloff + 1) else save
  }

  /** The row loop of `printEditorContents` from row `r` at visual row `vr`. */
  function RowsFrom(d: Display, r: int, vr: int, save: Point): (o: RowsOut)
    requires FrameDefined(d) && 0 <= r
    ensures vr <= o.vr && r <= o.next
    decreases |Rows(d)| - r
  {
    if !(vr < MaxR(d) && r < |Rows(d)|) then RowsOut([], vr, save, r)
    else
      var row := Content(Rows(d)[r]);
      var co := Chars(d, row, r, 0, -1, vr, EmptyRowSave(d, r, |row|, vr, save));
      var rest := RowsFrom(d, r + 1, co.vr + 1, co.save);
      RowsOut(RowHead(d, r, vr) + co.toks + [EraseEol] + rest.toks, rest.vr, rest.save, rest.next)
  }

  /** The row loop stops before the last row only when the screen is full;
      every move it writes goes to a visual row from `vr` on screen; and the
      cursor it saves is on screen, for the cursor's row. */
  lemma {:induction false} RowsFacts(d: Display, r: int, vr: int, save: Point)
    requires FrameDefined(d) && 0 <= r
    ensures var o := RowsFrom(d, r, vr, save);
      && (o.next < |Rows(d)| ==> MaxR(d) <= o.vr)
      && Body(o.toks, vr, MaxR(d))
      && (o.save == save || (r <= d.cursor.r && CursorSpot(d, o.save, vr)))
    decreases |Rows(d)| - r
  {
    if vr < MaxR(d) && r < |Rows(d)| {
      var row := Content(Rows(d)[r]);
      var co := Chars(d, row, r, 0, -1, vr, EmptyRowSave(d, r, |row|, vr, save));
      var rest := RowsFrom(d, r + 1, co.vr + 1, co.save);
      var o := RowsFrom(d, r, vr, save);
      assert o == RowsOut(RowHead(d, r, vr) + co.toks + [EraseEol] + rest.toks, rest.vr, rest.save, rest.next);
      RowsFacts(d, r + 1, co.vr + 1, co.save);
      RowStepFacts(d, r, vr, save, co, rest.toks, rest.save);
    }
  }

  /** One turn of the row loop, unfolded. */
  lemma RowsStep(d: Display, r: int, vr: int, save: Point)
    requires FrameDefined(d) && 0 <= r < |Rows(d)| && vr < MaxR(d)
    ensures var row := Content(Rows(d)[r]);
      var co := Chars(d, row, r, 0, -1, vr, EmptyRowSave(d, r, |row|, vr, save));
      var rest := RowsFrom(d, r + 1, co.vr + 1, co.save);
      var o := RowsFrom(d, r, vr, save);
      && o.toks == RowHead(d, r, vr) + co.toks + [EraseEol] + rest.toks
      && o.vr == rest.vr && o.save == rest.save && o.next == rest.next
  {
  }

  /** The facts one turn of the row loop adds to those of the turns after it. */
  lemma RowStepFacts(d: Display, r: int, vr: int, save: Point, co: CharsOut, toks: seq<Token>, save': Point)
    requires FrameDefined(d) && 0 <= r < |Rows(d)| && vr < MaxR(d)
    requires co == Chars(d, Content(Rows(d)[r]), r, 0, -1, vr, EmptyRowSave(d, r, |Content(Rows(d)[r])|, vr, save))
    requires Body(toks, co.vr + 1, MaxR(d))
    requires save' == co.save || (r + 1 <= d.cursor.r && CursorSpot(d, save', co.vr + 1))
    ensures Body(RowHead(d, r, vr) + co.toks + [EraseEol] + toks, vr, MaxR(d))
    ensures save' == save || (r <= d.cursor.r && CursorSpot(d, save', vr))
  {
    var row := Content(Rows(d)[r]);
    CharsFacts(d, row, r, 0, -1, vr, EmptyRowSave(d, r, |row|, vr, save));
    RowStepBody(d, r, vr, co.toks, co.vr, toks);
    RowStepSave(d, r, vr, save, co);
  }

  lemma RowStepBody(d: Display, r: nat, vr: int, ctoks: seq<Token>, cvr: int, toks: seq<Token>)
    requires 1 <= d.coloff && vr < MaxR(d) && vr <= cvr
    requires Body(ctoks, vr + 1, MaxR(d)) && Body(toks, cvr + 1, MaxR(d))
    ensures Body(RowHead(d, r, vr) + ctoks + [EraseEol] + toks, vr, MaxR(d))
  {
    var head := RowHead(d, r, vr);
    BodyWiden(head, vr, vr + 1, vr);
    assert Body(head, vr, MaxR(d));
    BodyWiden(ctoks, vr + 1, MaxR(d), vr);
    BodyWiden(toks, cvr + 1, MaxR(d), vr);
    BodyConcat(head, ctoks, vr, MaxR(d));
    BodyConcat(head + ctoks, [EraseEol], vr, MaxR(d));
    BodyConcat(head + ctoks + [EraseEol], toks, vr, MaxR(d));
  }

  lemma RowStepSave(d: Display, r: int, vr: int, save: Point, co: CharsOut)
    requires FrameDefined(d) && 0 <= r < |Rows(d)| && vr < MaxR(d)
    requires var row := Content(Rows(d)[r]); var save1 := EmptyRowSave(d, r, |row|, vr, save);
      co.save == save1 || (save1.r == -1 && d.cursor.r == r && 0 < |row| && OnText(d, co.save, vr))
    ensures co.save == save || (d.cursor.r == r && CursorSpot(d, co.save, vr))
  {
    assert |Content(Rows(d)[r])| == Rows(d)[r].len;
  }

  /** Token `i` of the blank-line run starting at visual row `v`. */
  function TildeAt(v: int, i: int): Token {
    if i % 3 == 0 then Move(v + i / 3, 0)
    else if i % 3 == 1 then EraseEol
    else Text([TILDE, NUL])
  }

  /** The blank lines past the last row: visual rows `v .. maxr - 1` each get
      a `~` (with the NUL `szstr` copies). */
  function Tildes(v: int, maxr: int): (t: seq<Token>)
    ensures |t| == 3 * Max(maxr - v, 0)
    ensures forall i :: 0 <= i < |t| ==> t[i] == TildeAt(v, i)
    ensures Body(t, v, maxr)
    decreases maxr - v
  {
    if v >= maxr then []
    else
      var rest := Tildes(v + 1, maxr);
      var t := [Move(v, 0), EraseEol, Text([TILDE, NUL])] + rest;
      assert forall i :: 3 <= i < |t| ==> t[i] == rest[i - 3] && TildeAt(v + 1, i - 3) == TildeAt(v, i);
      BodyWiden(rest, v + 1, maxr, v);
      BodyConcat([Move(v, 0), EraseEol, Text([TILDE, NUL])], rest, v, maxr);
      t
  }

  /** Where the terminal cursor is put at the end of the frame. */
  function FinalMove(d: Display, save: Point): (t: Token)
    ensures t.Move?
    ensures d.mode == COMMAND ==> t.row == MaxR(d) && t.col == d.cmd.mcol + 1
    ensures d.mode != COMMAND ==> t.row == save.r && t.col == save.c
  {
    if d.mode == COMMAND then Move(MaxR(d), d.cmd.mcol + 1) else Move(save.r, save.c)
  }

  /** The cursor position before any row is drawn: row -1 means not found;
      the column is left uninitialised by the source and is 0 here. */
  const NotFound := Point(-1, 0)

  /** `printEditorContents`: the whole frame written to the terminal. */
  function PrintEditorContents(d: Display): (f: seq<Token>)
    requires FrameDefined(d)
    ensures 3 <= |f| && f[0] == Hide && f[|f| - 1] == Show
    ensures forall i :: 1 <= i < |f| - 2 ==> BodyToken(f[i], 1, MaxR(d))
    ensures d.mode == COMMAND ==> f[|f| - 2] == Move(MaxR(d), d.cmd.mcol + 1)
    ensures d.mode != COMMAND ==>
      || f[|f| - 2] == Move(-1, 0)
      || (f[|f| - 2].Move? && d.toprow <= d.cursor.r
          && CursorSpot(d, Point(f[|f| - 2].row, f[|f| - 2].col), 1))
  {
    var body := RowsFrom(d, d.toprow, 1, NotFound);
    RowsFacts(d, d.toprow, 1, NotFound);
    var mid := body.toks + Tildes(body.vr, MaxR(d));
    BodyWiden(Tildes(body.vr, MaxR(d)), body.vr, MaxR(d), 1);
    BodyConcat(body.toks, Tildes(body.vr, MaxR(d)), 1, MaxR(d));
    var f := [Hide] + mid + [FinalMove(d, body.save), Show];
    assert forall i :: 1 <= i < |f| - 2 ==> f[i] == mid[i - 1];
    f
  }

  /** The frame is the hidden cursor, the rows, the blank lines, the final
      move and the shown cursor, in that order. */
  lemma FrameShape(d: Display)
    requires FrameDefined(d)
    ensures var body := RowsFrom(d, d.toprow, 1, NotFound);
      PrintEditorContents(d)
        == [Hide] + body.toks + Tildes(body.vr, MaxR(d)) + [FinalMove(d, body.save), Show]
  {
  }

  /** The last move of the frame goes where the row loop left the cursor. */
  lemma FrameFinal(d: Display)
    requires FrameDefined(d)
    ensures var f := PrintEditorContents(d);
      f[|f| - 2] == FinalMove(d, RowsFrom(d, d.toprow, 1, NotFound).save)
  {
    var body := RowsFrom(d, d.toprow, 1, NotFound);
    FrameShape(d);
    LastButOne(Hide, body.toks, Tildes(body.vr, MaxR(d)), FinalMove(d, body.save), Show);
  }

  lemma LastButOne<T>(x: T, a: seq<T>, b: seq<T>, y: T, z: T)
    ensures var f := [x] + a + b + [y, z]; f[|f| - 2] == y
  {
  }

  // ---- Geometry of tab-free rows -------------------------------------------

  lemma DivStep(c: int, m: int)
    requires 1 <= c && 1 <= m
    ensures c % m == 0 ==> c / m == (c - 1) / m + 1
    ensures c % m != 0 ==> c / m == (c - 1) / m && c % m == (c - 1) % m + 1
  {
    var q, r := (c - 1) / m, (c - 1) % m;
    if r == m - 1 {
      DivModUnique(c, m, q + 1, 0);
    } else {
      DivModUnique(c, m, q, r + 1);
    }
  }

  lemma DivMono(a: int, b: int, m: int)
    requires 0 <= a <= b && 1 <= m
    ensures a / m <= b / m
    decreases b - a
  {
    if a < b {
      DivMono(a, b - 1, m);
      DivStep(b, m);
    }
  }

  /** A non-empty row is charged `(len - 1) / maxc + 1` visual rows. */
  lemma HeightOfNonEmpty(len: int, m: int)
    requires 1 <= len && 1 <= m
    ensures Height(len, m) == (len - 1) / m + 1
  {
    DivStep(len, m);
  }

  lemma {:induction false} SumHeightsAtLeast(rows: seq<Row>, lo: int, hi: int, m: int)
    requires 0 <= lo && hi <= |rows| && 1 <= m
    ensures lo < hi ==> 1 <= Height(rows[lo].len, m) <= SumHeights(rows, lo, hi, m)
    ensures 0 <= SumHeights(rows, lo, hi, m)
    decreases hi - lo
  {
    if lo < hi {
      HeightIsCeiling(rows[lo].len, m);
      SumHeightsAtLeast(rows, lo + 1, hi, m);
    }
  }

  /** Without tabs every byte is one cell wide: byte `c > 0`, after byte
      `c - 1` ended on visual column `c - 1`, ends on column `c` and on visual
      row `v + c / maxc`. */
  lemma PlaceTabFree(d: Display, b: byte, c: int, v: int)
    requires 1 <= MaxC(d) && b != TAB && 1 <= c
    ensures var p := PlaceByte(d, b, c, c - 1, v + (c - 1) / MaxC(d));
      p.cw == 1 && p.vc == c && p.vr == v + c / MaxC(d)
  {
    DivStep(c, MaxC(d));
  }

  /** Without tabs, byte `k` of a row is drawn on visual row `v + k / maxc`;
      from byte `c` on, the loop ends after the last byte on the visual row
      of that byte. */
  lemma {:induction false} CharsTabFree(d: Display, row: seq<byte>, r: int, c: int, v: int, vr: int, save: Point)
    requires 1 <= MaxC(d) && 1 <= c <= |row| && NoTab(row) && vr == v + (c - 1) / MaxC(d)
    requires v + (|row| - 1) / MaxC(d) < MaxR(d)
    ensures var o := Chars(d, row, r, c, c - 1, vr, save);
      o.next == |row| && o.vr == v + (|row| - 1) / MaxC(d)
    decreases |row| - c
  {
    if c < |row| {
      var m := MaxC(d);
      DivMono(c - 1, |row| - 1, m);
      DivMono(c, |row| - 1, m);
      PlaceTabFree(d, row[c], c, v);
      var p := PlaceByte(d, row[c], c, c - 1, vr);
      var save1 := FindCursor(d, row, r, c, p.cw, p.vc, p.vr, save);
      var rest := Chars(d, row, r, c + 1, p.vc, p.vr, save1);
      var o := Chars(d, row, r, c, c - 1, vr, save);
      assert o == CharsOut(ByteTokens(d, row[c], p) + rest.toks, rest.vr, rest.save, rest.next);
      assert p.vr == v + ((c + 1) - 1) / m;
      CharsTabFree(d, row, r, c + 1, v, p.vr, save1);
    }
  }

  /** A tab-free row that fits takes exactly `Height` visual rows on screen:
      the drawing loop and the viewport's measure agree. */
  lemma RowTabFree(d: Display, row: seq<byte>, r: int, v: int, save: Point)
    requires 1 <= MaxC(d) && NoTab(row)
    requires v + Height(|row|, MaxC(d)) - 1 < MaxR(d)
    ensures var o := Chars(d, row, r, 0, -1, v, save);
      o.next == |row| && o.vr == v + Height(|row|, MaxC(d)) - 1
  {
    if |row| > 0 {
      var m := MaxC(d);
      HeightOfNonEmpty(|row|, m);
      var p := PlaceByte(d, row[0], 0, -1, v);
      assert p.vc == 0 && p.vr == v && v + (1 - 1) / m == v;
      var save1 := FindCursor(d, row, r, 0, p.cw, p.vc, p.vr, save);
      var rest := Chars(d, row, r, 1, p.vc, p.vr, save1);
      assert Chars(d, row, r, 0, -1, v, save)
          == CharsOut(ByteTokens(d, row[0], p) + rest.toks, rest.vr, rest.save, rest.next);
      CharsTabFree(d, row, r, 1, v, v, save1);
    }
  }

  predicate TabFreeFrom(rows: seq<Row>, r: int)
    requires AllValid(rows)
  {
    forall k :: 0 <= r <= k < |rows| ==> NoTab(Content(rows[k]))
  }

  /** When the remaining tab-free rows fit on screen, the row loop draws them
      all and stops at the visual row the viewport's measure predicts. */
  lemma {:induction false} RowsTabFree(d: Display, r: int, v: int, save: Point)
    requires FrameDefined(d) && 0 <= r <= |Rows(d)| && TabFreeFrom(Rows(d), r)
    requires v + SumHeights(Rows(d), r, |Rows(d)|, MaxC(d)) <= MaxR(d)
    ensures var o := RowsFrom(d, r, v, save);
      o.next == |Rows(d)| && o.vr == v + SumHeights(Rows(d), r, |Rows(d)|, MaxC(d))
    decreases |Rows(d)| - r
  {
    if r < |Rows(d)| {
      var m := MaxC(d);
      var row := Content(Rows(d)[r]);
      var save1 := EmptyRowSave(d, r, |row|, v, save);
      var co := Chars(d, row, r, 0, -1, v, save1);
      var rest := RowsFrom(d, r + 1, co.vr + 1, co.save);
      var o := RowsFrom(d, r, v, save);
      SumHeightsAtLeast(Rows(d), r, |Rows(d)|, m);
      RowsStep(d, r, v, save);
      assert o.vr == rest.vr && o.next == rest.next;
      RowTabFree(d, row, r, v, save1);
      RowsTabFree(d, r + 1, co.vr + 1, co.save);
    }
  }

  /** When the document from `toprow` is tab-free and fits, the frame ends
      with one `~` line for each visual row below it. */
  lemma FrameTildes(d: Display)
    requires FrameDefined(d) && d.toprow <= |Rows(d)| && TabFreeFrom(Rows(d), d.toprow)
    requires 1 + SumHeights(Rows(d), d.toprow, |Rows(d)|, MaxC(d)) <= MaxR(d)
    ensures var f := PrintEditorContents(d);
      var v := 1 + SumHeights(Rows(d), d.toprow, |Rows(d)|, MaxC(d));
      var n := 3 * (MaxR(d) - v);
      && n + 3 <= |f|
      && f[|f| - 2 - n..|f| - 2] == Tildes(v, MaxR(d))
  {
    FrameBlank(d);
    RowsTabFree(d, d.toprow, 1, NotFound);
  }

  /** The frame's blank lines come just before its final move and show. */
  lemma FrameBlank(d: Display)
    requires FrameDefined(d)
    ensures var f := PrintEditorContents(d);
      var tl := Tildes(RowsFrom(d, d.toprow, 1, NotFound).vr, MaxR(d));
      |tl| + 3 <= |f| && f[|f| - 2 - |tl|..|f| - 2] == tl
  {
    var body := RowsFrom(d, d.toprow, 1, NotFound);
    FrameShape(d);
    MiddleSlice(Hide, body.toks, Tildes(body.vr, MaxR(d)), FinalMove(d, body.save), Show);
  }

  lemma MiddleSlice<T>(x: T, a: seq<T>, b: seq<T>, y: T, z: T)
    ensures var f := [x] + a + b + [y, z];
      |b| + 3 <= |f| && f[|f| - 2 - |b|..|f| - 2] == b
  {
    var f := [x] + a + b + [y, z];
    assert f[..|f| - 2] == [x] + a + b;
  }

  /** The byte the cursor is drawn at: the cursor's own byte, or the last one
      when the cursor is past the end of the row. */
  function CursorByte(d: Display, row: seq<byte>): int {
    if d.cursor.c < |row| then d.cursor.c else |row| - 1
  }

  /** The terminal column (after the gutter) the cursor is drawn at, for a
      tab-free row: its own byte's column, or `len % maxc` past the end. */
  function CursorColumn(d: Display, row: seq<byte>): int
    requires 1 <= MaxC(d)
  {
    (if d.cursor.c < |row| then d.cursor.c else |row|) % MaxC(d)
  }

  /** One step of a tab-free row on screen: byte `c` ends on column `c` of
      visual row `v + c / maxc`, and the saved cursor is what the rest of the
      loop leaves. */
  lemma TabFreeStep(d: Display, row: seq<byte>, r: int, c: int, v: int, save: Point)
    requires 1 <= MaxC(d) && NoTab(row) && 1 <= c < |row| && 0 <= v
    requires v + c / MaxC(d) < MaxR(d)
    ensures var m := MaxC(d);
      Chars(d, row, r, c, c - 1, v + (c - 1) / m, save).save
      == Chars(d, row, r, c + 1, c, v + c / m, FindCursor(d, row, r, c, 1, c, v + c / m, save)).save
  {
    var m := MaxC(d);
    DivMono(c - 1, c, m);
    PlaceTabFree(d, row[c], c, v);
    var p := PlaceByte(d, row[c], c, c - 1, v + (c - 1) / m);
    var save1 := FindCursor(d, row, r, c, p.cw, p.vc, p.vr, save);
    var rest := Chars(d, row, r, c + 1, p.vc, p.vr, save1);
    var o := Chars(d, row, r, c, c - 1, v + (c - 1) / m, save);
    assert o == CharsOut(ByteTokens(d, row[c], p) + rest.toks, rest.vr, rest.save, rest.next);
  }

  /** The cursor is found at byte `c` of a tab-free row exactly where the
      closed form puts it. */
  lemma TabFreeFound(d: Display, row: seq<byte>, r: int, c: int, v: int, save: Point)
    requires 1 <= MaxC(d) && d.cursor.r == r && save.r == -1 && 0 <= c < |row|
    requires c == CursorByte(d, row) && c <= d.cursor.c
    ensures FindCursor(d, row, r, c, 1, c, v + c / MaxC(d), save)
         == Point(v + CursorByte(d, row) / MaxC(d), CursorColumn(d, row) + d.coloff + 1)
  {
  }

  /** Once the cursor is saved, the rest of the loop keeps it. */
  lemma SavedKept(d: Display, row: seq<byte>, r: int, c: int, vc: int, vr: int, save: Point)
    requires 1 <= MaxC(d) && 0 <= c <= |row| && -1 <= vc && save.r != -1
    ensures Chars(d, row, r, c, vc, vr, save).save == save
  {
    CharsFacts(d, row, r, c, vc, vr, save);
  }

  /** Before the cursor's byte nothing is saved: drawing from byte `c` saves
      what drawing from the cursor's byte `k` saves. */
  lemma {:induction false} SkipToCursor(d: Display, row: seq<byte>, r: int, c: int, v: int, vr: int, save: Point, k: int, top: int)
    requires 1 <= MaxC(d) && NoTab(row) && d.cursor.r == r && save.r == -1 && 0 <= v
    requires k == CursorByte(d, row) && 1 <= c <= k && c <= d.cursor.c && vr == v + (c - 1) / MaxC(d)
    requires top == v + k / MaxC(d) && top < MaxR(d)
    ensures Chars(d, row, r, c, c - 1, vr, save).save == Chars(d, row, r, k, k - 1, v + (k - 1) / MaxC(d), save).save
    decreases k - c
  {
    if c < k {
      var m := MaxC(d);
      DivMono(c, k, m);
      TabFreeStep(d, row, r, c, v, save);
      var vr1 := v + c / m;
      assert FindCursor(d, row, r, c, 1, c, vr1, save) == save;
      assert vr1 == v + ((c + 1) - 1) / m;
      SkipToCursor(d, row, r, c + 1, v, vr1, save, k, top);
    }
  }

  lemma CharsCursorTabFree(d: Display, row: seq<byte>, r: int, v: int, save: Point)
    requires 1 <= MaxC(d) && NoTab(row) && d.cursor.r == r && save.r == -1 && 0 <= v
    requires 1 <= CursorByte(d, row) && CursorByte(d, row) <= d.cursor.c
    requires v + CursorByte(d, row) / MaxC(d) < MaxR(d)
    ensures Chars(d, row, r, 1, 0, v, save).save
         == Point(v + CursorByte(d, row) / MaxC(d), CursorColumn(d, row) + d.coloff + 1)
  {
    var m := MaxC(d);
    var k := CursorByte(d, row);
    assert v == v + (1 - 1) / m;
    SkipToCursor(d, row, r, 1, v, v, save, k, v + k / m);
    DivMono(k - 1, k, m);
    TabFreeStep(d, row, r, k, v, save);
    TabFreeFound(d, row, r, k, v, save);
    var found := FindCursor(d, row, r, k, 1, k, v + k / m, save);
    DivMono(0, k, m);
    assert found.r == v + k / m;
    SavedKept(d, row, r, k + 1, k, v + k / m, found);
  }

  /** In a tab-free row drawn from visual row `v`, the cursor lands on the
      visual row and column of its byte, or just past the last byte. */
  lemma RowCursorTabFree(d: Display, row: seq<byte>, r: int, v: int, save: Point)
    requires 1 <= MaxC(d) && NoTab(row) && d.cursor.r == r && save.r == -1 && 0 <= v
    requires 0 <= d.cursor.c && 1 <= |row|
    requires v + CursorByte(d, row) / MaxC(d) < MaxR(d)
    ensures Chars(d, row, r, 0, -1, v, save).save
         == Point(v + CursorByte(d, row) / MaxC(d), CursorColumn(d, row) + d.coloff + 1)
  {
    var m := MaxC(d);
    var p := PlaceByte(d, row[0], 0, -1, v);
    assert p.vc == 0 && p.vr == v && v + (1 - 1) / m == v;
    var save1 := FindCursor(d, row, r, 0, p.cw, p.vc, p.vr, save);
    var rest := Chars(d, row, r, 1, p.vc, p.vr, save1);
    var o := Chars(d, row, r, 0, -1, v, save);
    assert o == CharsOut(ByteTokens(d, row[0], p) + rest.toks, rest.vr, rest.save, rest.next);
    if d.cursor.c == 0 || |row| == 1 {
      assert save1 == Point(v + CursorByte(d, row) / m, CursorColumn(d, row) + d.coloff + 1);
      SavedKept(d, row, r, 1, p.vc, p.vr, save1);
    } else {
      CharsCursorTabFree(d, row, r, v, save1);
    }
  }

  /** When the cursor's row is the top row on screen and tab-free, the frame
      puts the terminal cursor where that row's layout places the cursor: on an
      empty row right after the gutter, otherwise at its byte's wrapped
      position (or just past the last byte). */
  lemma CursorOnTopRow(d: Display)
    requires FrameDefined(d) && d.mode != COMMAND && 2 <= MaxR(d)
    requires d.toprow == d.cursor.r < |Rows(d)| && 0 <= d.cursor.c
    requires NoTab(Content(Rows(d)[d.cursor.r]))
    requires 1 + CursorByte(d, Content(Rows(d)[d.cursor.r])) / MaxC(d) < MaxR(d)
    ensures var f := PrintEditorContents(d); var row := Content(Rows(d)[d.cursor.r]);
      f[|f| - 2] == if |row| == 0 then Move(1, d.coloff + 1)
                    else Move(1 + CursorByte(d, row) / MaxC(d), CursorColumn(d, row) + d.coloff + 1)
  {
    FrameFinal(d);
    TopRowSave(d);
  }

  /** The row loop started at the cursor's row leaves the cursor where that
      row's layout puts it. */
  lemma TopRowSave(d: Display)
    requires FrameDefined(d) && 2 <= MaxR(d)
    requires d.toprow == d.cursor.r < |Rows(d)| && 0 <= d.cursor.c
    requires NoTab(Content(Rows(d)[d.cursor.r]))
    requires 1 + CursorByte(d, Content(Rows(d)[d.cursor.r])) / MaxC(d) < MaxR(d)
    ensures var row := Content(Rows(d)[d.cursor.r]);
      RowsFrom(d, d.toprow, 1, NotFound).save
        == if |row| == 0 then Point(1, d.coloff + 1)
           else Point(1 + CursorByte(d, row) / MaxC(d), CursorColumn(d, row) + d.coloff + 1)
  {
    var r := d.cursor.r;
    var row := Content(Rows(d)[r]);
    var save1 := EmptyRowSave(d, r, |row|, 1, NotFound);
    var co := Chars(d, row, r, 0, -1, 1, save1);
    RowsStep(d, r, 1, NotFound);
    if |row| > 0 {
      RowCursorTabFree(d, row, r, 1, NotFound);
    }
    RowsFacts(d, r + 1, co.vr + 1, co.save);
  }


  // ---- The scroll example on screen ------------------------------------------

  /** In a tab-free row, when the cursor's byte `k` lies on a visual row at or
      under the status bar, drawing from byte `c <= k` saves no cursor: the
      loop stops before it reaches a byte that would. */
  lemma {:induction false} HiddenCursorSkipped(d: Display, row: seq<byte>, r: int, c: int, v: int, save: Point, k: int)
    requires 1 <= MaxC(d) && NoTab(row) && d.cursor.r == r && save.r == -1 && 0 <= v && 0 <= d.cursor.c
    requires k == CursorByte(d, row) && 1 <= c <= k && MaxR(d) <= v + k / MaxC(d)
    ensures Chars(d, row, r, c, c - 1, v + (c - 1) / MaxC(d), save).save == save
    decreases k - c
  {
    var m := MaxC(d);
    if v + c / m < MaxR(d) {
      TabFreeStep(d, row, r, c, v, save);
      assert FindCursor(d, row, r, c, 1, c, v + c / m, save) == save;
      assert v + c / m == v + ((c + 1) - 1) / m;
      HiddenCursorSkipped(d, row, r, c + 1, v, save, k);
    } else {
      PlaceTabFree(d, row[c], c, v);
    }
  }

  /** A tab-free row whose cursor byte lies under the status bar saves no
      cursor. */
  lemma HiddenCursorRow(d: Display, row: seq<byte>, r: int, v: int, save: Point)
    requires 1 <= MaxC(d) && NoTab(row) && d.cursor.r == r && save.r == -1 && 0 <= v && 0 <= d.cursor.c
    requires 1 <= CursorByte(d, row) && MaxR(d) <= v + CursorByte(d, row) / MaxC(d)
    ensures Chars(d, row, r, 0, -1, v, save).save == save
  {
    if v < MaxR(d) {
      var m := MaxC(d);
      var p := PlaceByte(d, row[0], 0, -1, v);
      assert p.vc == 0 && p.vr == v && v + (1 - 1) / m == v;
      assert 0 != d.cursor.c && 0 != |row| - 1;
      var save1 := FindCursor(d, row, r, 0, p.cw, p.vc, p.vr, save);
      var rest := Chars(d, row, r, 1, p.vc, p.vr, save1);
      assert Chars(d, row, r, 0, -1, v, save)
          == CharsOut(ByteTokens(d, row[0], p) + rest.toks, rest.vr, rest.save, rest.next);
      HiddenCursorSkipped(d, row, r, 1, v, save, CursorByte(d, row));
    }
  }

  lemma ExampleTabFree(n: nat)
    ensures NoTab(Content(Row(seq(n, _ => 97), n)))
  {
  }

  /** The row loop on the scroll example from `toprow` 0: the first row
      takes visual row 1, and the cursor's row, from visual row 2, saves no
      cursor. */
  lemma ExampleRowsSave(d: Display)
    requires FrameDefined(d) && |Rows(d)| == 3 && MaxR(d) == 3 && MaxC(d) == 10 && d.cursor == Point(1, 15)
    requires Rows(d)[0].len == 5 && NoTab(Content(Rows(d)[0]))
    requires Rows(d)[1].len == 35 && NoTab(Content(Rows(d)[1]))
    ensures RowsFrom(d, 0, 1, NotFound).save == NotFound
  {
    var row0, row1 := Content(Rows(d)[0]), Content(Rows(d)[1]);
    RowsStep(d, 0, 1, NotFound);
    var co0 := Chars(d, row0, 0, 0, -1, 1, NotFound);
    CharsFacts(d, row0, 0, 0, -1, 1, NotFound);
    RowTabFree(d, row0, 0, 1, NotFound);
    assert co0.vr == 1 && co0.save == NotFound;
    RowsStep(d, 1, 2, NotFound);
    assert CursorByte(d, row1) == 15;
    HiddenCursorRow(d, row1, 1, 2, NotFound);
    var co1 := Chars(d, row1, 1, 0, -1, 2, NotFound);
    assert RowsFrom(d, 2, co1.vr + 1, co1.save) == RowsOut([], co1.vr + 1, NotFound, 2);
  }

  /** The scroll example drawn from `toprow` 0, where the loop as written
      leaves it: byte 15 of the cursor's row would go on visual row 3, under
      the status bar, so no cursor is saved and the final move is to row -1. */
  lemma AsWrittenFrameHidesCursor()
    ensures var f := PrintEditorContents(ScrollExample()); f[|f| - 2] == Move(-1, 0)
  {
    var d := ScrollExample();
    ExampleTabFree(5);
    ExampleTabFree(35);
    FrameFinal(d);
    ExampleRowsSave(d);
  }

  /** The scroll example drawn from `toprow` 1, where the intended loop
      moves it: the cursor's row is on top and the cursor is drawn on visual
      row 2, at terminal column 7. */
  lemma IntendedFrameShowsCursor()
    ensures var f := PrintEditorContents(ScrollExample().(toprow := 1)); f[|f| - 2] == Move(2, 7)
  {
    var d := ScrollExample().(toprow := 1);
    ExampleTabFree(35);
    CursorOnTopRow(d);
  }
}
