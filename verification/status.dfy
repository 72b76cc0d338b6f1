/** `statusPrintMode` in display.c: appends the status line (mode tag, file
    name, row count, right-aligned cursor coordinates) to the status buffer,
    or the command line being typed in COMMAND mode. */
module Status {
  import opened Bytes
  import opened RowStore
  import opened Terminal
  import opened Screen

  const LETTER_L: byte := 76

  /** "VIEW — " with its NUL: `szstr` passes `sizeof`, which counts the
      terminator. The em dash is the UTF-8 sequence E2 80 94. */
  const ViewTag: seq<byte> := [86, 73, 69, 87, SPACE, 0xE2, 0x80, 0x94, SPACE, NUL]

  /** "INSERT — " with its NUL. */
  const InsertTag: seq<byte> := [73, 78, 83, 69, 82, 84, SPACE, 0xE2, 0x80, 0x94, SPACE, NUL]

  /** `asprintf(" %dL", numrows)`. */
  function RowCount(n: int): seq<byte> {
    [SPACE] + Decimal(n) + [LETTER_L]
  }

  /** `asprintf("%d, %d", r + 1, c + 1)`. */
  function Coords(r: int, c: int): seq<byte> {
    Decimal(r + 1) + [COMMA, SPACE] + Decimal(c + 1)
  }

  /** The mode tag: one text token in VIEW and INSERT mode, none otherwise. */
  function ModeTag(mode: Mode): (t: seq<Token>)
    ensures |t| == 1 <==> mode == VIEW || mode == INSERT
    ensures mode == VIEW <==> t == [Text(ViewTag)]
    ensures mode == INSERT <==> t == [Text(InsertTag)]
    ensures mode != VIEW && mode != INSERT ==> t == []
  {
    match mode
    case VIEW => [Text(ViewTag)]
    case INSERT => [Text(InsertTag)]
    case _ => []
  }

  function StatusPrintMode(d: Display, status: seq<Token>): (st: seq<Token>)
    requires Valid(d.cmd.cmd)
    requires NoNul(d.filename) // `strlen` stops at the first NUL
    ensures |status| < |st| && st[..|status|] == status
    ensures d.mode == COMMAND ==> |st| == |status| + 1 && st[|status|] == Text(Content(d.cmd.cmd))
    ensures d.mode != COMMAND ==>
      && |st| == |status| + |ModeTag(d.mode)| + 5
      && (d.mode == VIEW ==> st[|status|] == Text(ViewTag))
      && (d.mode == INSERT ==> st[|status|] == Text(InsertTag))
      && st[|st| - 5] == Text(d.filename)
      && st[|st| - 4] == Text(RowCount(|Rows(d)|))
      && st[|st| - 3] == EraseEol
      && st[|st| - 1] == Text(Coords(d.cursor.r, d.cursor.c))
      // the coordinates are written so that they end in the last column
      && st[|st| - 2] == Move(d.wsRow, d.wsCol - |Coords(d.cursor.r, d.cursor.c)|)
  {
    if d.mode == COMMAND then status + [Text(Content(d.cmd.cmd))]
    else
      var coords := Coords(d.cursor.r, d.cursor.c);
      var tail := [Text(d.filename), Text(RowCount(|Rows(d)|)), EraseEol,
                   Move(d.wsRow, d.wsCol - |coords|), Text(coords)];
      var st := status + ModeTag(d.mode) + tail;
      assert st[|st| - 5..] == tail;
      st
  }

  /** The coordinates text reads back as the 1-based cursor row and column. */
  lemma CoordsReadBack(r: int, c: int)
    ensures var t := Coords(r, c); var k := |Decimal(r + 1)|;
      && k + 2 <= |t|
      && t[k..k + 2] == [COMMA, SPACE]
      && IsDecimal(t[..k]) && DecimalValue(t[..k]) == r + 1
      && IsDecimal(t[k + 2..]) && DecimalValue(t[k + 2..]) == c + 1
  {
    var t := Coords(r, c);
    var k := |Decimal(r + 1)|;
    assert t[..k] == Decimal(r + 1);
    assert t[k + 2..] == Decimal(c + 1);
    DecimalRoundTrip(r + 1);
    DecimalRoundTrip(c + 1);
  }

  /** The row count reads back as the number of rows. */
  lemma RowCountReadBack(n: nat)
    ensures var t := RowCount(n);
      && t[0] == SPACE && t[|t| - 1] == LETTER_L
      && IsDecimal(t[1..|t| - 1]) && DecimalValue(t[1..|t| - 1]) == n
  {
    var t := RowCount(n);
    assert t[1..|t| - 1] == Decimal(n);
    DecimalRoundTrip(n);
  }
}
