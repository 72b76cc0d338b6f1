/** The display state display.c reads through its global `I`,
    made an explicit record. Its layout (display.h) is not part of this model;
    the fields are the ones display.c uses. */
module Screen {
  import opened Bytes
  import opened RowStore
  import opened Points

  datatype Display = Display(
    ed: Editor,          // the document; display.c reads `rowarray[r]->len` and `->text`
    cursor: Point,       // logical cursor, not yet bounded to its row
    toprow: int,         // first document row on screen
    wsRow: int,          // terminal rows (`ws.ws_row`)
    wsCol: int,          // terminal columns (`ws.ws_col`)
    coloff: int,         // gutter width
    mode: Mode,
    cmd: CommandRow,     // command line and its cursor column
    filename: seq<byte>) // without its NUL

  function Rows(d: Display): seq<Row> {
    d.ed.rows
  }

  /** Screen height `maxr`: visual rows 1 .. maxr - 1 show content. */
  function MaxR(d: Display): int {
    d.wsRow
  }

  /** Wrap width `maxc = ws_col - coloff - 1`. */
  function MaxC(d: Display): int {
    d.wsCol - d.coloff - 1
  }

  function Min(a: int, b: int): int {
    if a < b then a else b
  }

  function Max(a: int, b: int): int {
    if a > b then a else b
  }
}
