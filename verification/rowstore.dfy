/** The editor's document (editor.h) and the byte-level row operations of
    editor.c.

    A row is the C `erow` pair of a text buffer and a recorded length. `buf`
    holds the bytes of the row's allocation that have a defined value, `len`
    is the recorded length. The two do not always agree, because editor.c
    mixes two conventions for the terminating NUL:
    - `strdup("")` gives every new row the one-byte buffer [NUL]; rows that
      `newRow` appends record `len == 0` (the NUL lies past `len`), the row it
      inserts in the middle records `len == 1` (the NUL is counted);
    - `insertChar` reallocates the buffer to exactly the new length, so after
      it `|buf| == len`; the loader ends every newline-terminated line with
      an inserted NUL, and `splitRow` ends the upper half with one, so such
      rows count their NUL. The last line of a file without a final newline
      gets no NUL, and an empty file keeps the one row `Row([NUL], 0)`.
    `Terminated` names the shape of a loaded newline-terminated line: the
    buffer is exactly the counted bytes, the last one is NUL and no byte
    before it is. */
module RowStore {
  import opened Bytes

  datatype Mode = VIEW | INSERT | COMMAND | QUIT

  datatype Row = Row(buf: seq<byte>, len: nat)

  /** The command line typed in COMMAND mode and the cursor column in it. */
  datatype CommandRow = CommandRow(cmd: Row, mcol: int)

  /** The `editor` record; `numrows` is the length of `rows`. */
  datatype Editor = Editor(
    mr: int, mc: int,
    toprow: int,
    status: seq<byte>,
    mode: Mode,
    rows: seq<Row>,
    dirty: bool,
    filename: seq<byte>,
    command: CommandRow)

  /** Every recorded byte of the row has a defined value. */
  predicate Valid(r: Row) {
    r.len <= |r.buf|
  }

  predicate AllValid(rows: seq<Row>) {
    forall i :: 0 <= i < |rows| ==> Valid(rows[i])
  }

  /** The `len` bytes the row records. */
  function Content(r: Row): seq<byte>
    requires Valid(r)
  {
    r.buf[..r.len]
  }

  predicate NoNul(s: seq<byte>) {
    forall i :: 0 <= i < |s| ==> s[i] != NUL
  }

  predicate Terminated(r: Row) {
    && 1 <= r.len
    && |r.buf| == r.len
    && r.buf[r.len - 1] == NUL
    && NoNul(r.buf[..r.len - 1])
  }

  /** The buffer `strdup("")` returns. */
  const EmptyText: seq<byte> := [NUL]

  /** The index of the first NUL at or after `from`, or `|s|` when there is none. */
  function FirstNul(s: seq<byte>, from: nat): (j: nat)
    requires from <= |s|
    ensures from <= j <= |s|
    ensures j < |s| ==> s[j] == NUL
    ensures forall k :: from <= k < j ==> s[k] != NUL
    decreases |s| - from
  {
    if from == |s| then |s| else if s[from] == NUL then from else FirstNul(s, from + 1)
  }

  /** A C string starts at `from`: a NUL follows inside the defined bytes. */
  predicate HasNul(s: seq<byte>, from: int) {
    0 <= from <= |s| && FirstNul(s, from) < |s|
  }

  /** What `strdup(s + from)` copies: the bytes up to and including the first NUL. */
  function CStr(s: seq<byte>, from: int): (t: seq<byte>)
    requires HasNul(s, from)
    ensures 1 <= |t| && from + |t| <= |s|
    ensures t == s[from..from + |t|]
    ensures t[|t| - 1] == NUL && NoNul(t[..|t| - 1])
  {
    s[from..FirstNul(s, from) + 1]
  }

  lemma NoNulPrefix(s: seq<byte>, k: nat)
    requires k <= |s|
    requires forall i :: 0 <= i < k ==> s[i] != NUL
    ensures NoNul(s[..k])
  {
  }

  lemma FirstNulOfTerminated(s: seq<byte>, from: nat, k: nat)
    requires from <= k < |s| && s[k] == NUL
    requires forall i :: from <= i < k ==> s[i] != NUL
    ensures FirstNul(s, from) == k
  {
  }

  lemma CStrOfTerminated(r: Row, pos: nat)
    requires Terminated(r) && pos < r.len
    ensures HasNul(r.buf, pos) && CStr(r.buf, pos) == r.buf[pos..]
  {
    FirstNulOfTerminated(r.buf, pos, r.len - 1);
  }

  // ---------------------------------------------------------------- characters

  /** `insertChar`: refuses a position outside [0, len]; otherwise shifts the
      bytes at and after `pos` one place right and stores `c` at `pos`. */
  function InsertChar(row: Row, pos: int, c: byte): (res: (bool, Row))
    requires Valid(row)
    ensures res.0 <==> 0 <= pos <= row.len
    ensures !res.0 ==> res.1 == row
    ensures res.0 ==>
      && res.1.len == row.len + 1
      && |res.1.buf| == res.1.len
      && Content(res.1)[pos] == c
      && (forall i :: 0 <= i < pos ==> Content(res.1)[i] == Content(row)[i])
      && (forall i :: pos < i < res.1.len ==> Content(res.1)[i] == Content(row)[i - 1])
  {
    if pos < 0 || pos > row.len then (false, row)
    else (true, Row(row.buf[..pos] + [c] + row.buf[pos..row.len], row.len + 1))
  }

  /** `deleteChar`: refuses a position outside [0, len - 1]; otherwise the byte
      at `pos` is removed and the later bytes move one place left. */
  function DeleteChar(row: Row, pos: int): (res: (bool, Row))
    requires Valid(row)
    ensures res.0 <==> 0 <= pos < row.len
    ensures !res.0 ==> res.1 == row
    ensures res.0 ==>
      && Valid(res.1)
      && res.1.len == row.len - 1
      && |res.1.buf| - res.1.len == |row.buf| - row.len
      && (forall i :: 0 <= i < pos ==> Content(res.1)[i] == Content(row)[i])
      && (forall i :: pos <= i < res.1.len ==> Content(res.1)[i] == Content(row)[i + 1])
  {
    if pos < 0 || pos >= row.len then (false, row)
    else (true, Row(row.buf[..pos] + row.buf[pos + 1..], row.len - 1))
  }

  /** Inserting a byte and deleting it again gives back the row's bytes and
      length (the buffer keeps only the recorded bytes). */
  lemma InsertDeleteRoundTrip(row: Row, pos: int, c: byte)
    requires Valid(row) && 0 <= pos <= row.len
    ensures var ins := InsertChar(row, pos, c).1;
            var del := DeleteChar(ins, pos);
            && del.0
            && del.1 == Row(Content(row), row.len)
            && (|row.buf| == row.len ==> del.1 == row)
  {
    var ins := InsertChar(row, pos, c).1;
    assert ins.buf[..pos] + ins.buf[pos + 1..] == Content(row);
  }

  /** Deleting a byte and inserting the same byte at the same place gives back
      the row's bytes and length. */
  lemma DeleteInsertRoundTrip(row: Row, pos: int)
    requires Valid(row) && 0 <= pos < row.len
    ensures var del := DeleteChar(row, pos).1;
            var ins := InsertChar(del, pos, Content(row)[pos]);
            && ins.0
            && ins.1 == Row(Content(row), row.len)
  {
    var del := DeleteChar(row, pos).1;
    var ins := InsertChar(del, pos, Content(row)[pos]).1;
    assert ins.buf == Content(row);
  }

  /** Typing an ordinary byte before a loaded line's terminator keeps it a loaded line. */
  lemma InsertKeepsTerminated(row: Row, pos: int, c: byte)
    requires Terminated(row) && 0 <= pos < row.len && c != NUL
    ensures Terminated(InsertChar(row, pos, c).1)
  {
    var r := InsertChar(row, pos, c).1;
    forall i | 0 <= i < r.len - 1
      ensures r.buf[i] != NUL
    {
      assert Content(r)[i] == r.buf[i];
      if i > pos {
        assert Content(row)[i - 1] == row.buf[..row.len - 1][i - 1];
      } else if i < pos {
        assert Content(row)[i] == row.buf[..row.len - 1][i];
      }
    }
  }

  /** Typing into a row that `newRow` appended drops the NUL `strdup("")` gave
      it: the buffer is reallocated to the recorded length, which did not
      count the NUL, so no C string is left for a later `splitRow`. */
  lemma AppendedRowLosesNul(c: byte)
    requires c != NUL
    ensures var r := InsertChar(Row(EmptyText, 0), 0, c).1;
      && r == Row([c], 1)
      && !HasNul(r.buf, 0)
      && !SplitDefined(Editor(0, 0, 0, [], VIEW, [r], false, [], CommandRow(r, 0)), 0, 0)
  {
    var r := InsertChar(Row(EmptyText, 0), 0, c).1;
    assert FirstNul(r.buf, 1) == 1;
  }

  /** Deleting a byte other than a loaded line's terminator keeps it a loaded line. */
  lemma DeleteKeepsTerminated(row: Row, pos: int)
    requires Terminated(row) && 0 <= pos < row.len - 1
    ensures Terminated(DeleteChar(row, pos).1)
  {
    var r := DeleteChar(row, pos).1;
    assert Content(r)[r.len - 1] == Content(row)[row.len - 1];
    forall i | 0 <= i < r.len - 1
      ensures r.buf[i] != NUL
    {
      assert Content(r)[i] == r.buf[i];
      if i >= pos {
        assert Content(row)[i + 1] == row.buf[..row.len - 1][i + 1];
      } else {
        assert Content(row)[i] == row.buf[..row.len - 1][i];
      }
    }
  }

  // ---------------------------------------------------------------- rows

  /** `newRow`: past the end it appends `len 0` rows up to and including
      `rownum`; inside it inserts one `len 1` row at `rownum`. Either way the
      document becomes dirty and nothing else in the editor changes. */
  function NewRow(e: Editor, rownum: int): (e': Editor)
    requires 0 <= rownum
    ensures e' == e.(rows := e'.rows, dirty := true)
    ensures rownum >= |e.rows| ==>
      && |e'.rows| == rownum + 1
      && e'.rows[..|e.rows|] == e.rows
      && forall i :: |e.rows| <= i < |e'.rows| ==> e'.rows[i] == Row(EmptyText, 0)
    ensures rownum < |e.rows| ==>
      && |e'.rows| == |e.rows| + 1
      && e'.rows[rownum] == Row(EmptyText, 1)
      && (forall i :: 0 <= i < rownum ==> e'.rows[i] == e.rows[i])
      && (forall i :: rownum < i < |e'.rows| ==> e'.rows[i] == e.rows[i - 1])
  {
    if rownum >= |e.rows| then
      e.(rows := e.rows + seq(rownum + 1 - |e.rows|, _ => Row(EmptyText, 0)), dirty := true)
    else
      e.(rows := e.rows[..rownum] + [Row(EmptyText, 1)] + e.rows[rownum..], dirty := true)
  }

  /** `deleteRow`: removes row `rownum` and moves the later rows up by one.
      The bound check is disabled in the source, so the bound is a
      precondition. The dirty flag is left as it was. */
  function DeleteRow(e: Editor, rownum: int): (e': Editor)
    requires 0 <= rownum < |e.rows|
    ensures e' == e.(rows := e'.rows)
    ensures |e'.rows| == |e.rows| - 1
    ensures forall i :: 0 <= i < rownum ==> e'.rows[i] == e.rows[i]
    ensures forall i :: rownum <= i < |e'.rows| ==> e'.rows[i] == e.rows[i + 1]
  {
    e.(rows := e.rows[..rownum] + e.rows[rownum + 1..])
  }

  /** Inserting a row and deleting it again leaves only the dirty flag set. */
  lemma NewRowDeleteRowRoundTrip(e: Editor, rownum: int)
    requires 0 <= rownum <= |e.rows|
    ensures DeleteRow(NewRow(e, rownum), rownum) == e.(dirty := true)
  {
    var d := DeleteRow(NewRow(e, rownum), rownum);
    assert d.rows == e.rows;
  }

  /** The part of `splitRow`'s precondition the source leaves implicit: row
      `rownum` exists (its guard lets `rownum == numrows` through and then
      reads past the array) and, for an accepted `pos`, a NUL follows `pos`
      inside the buffer (for `strdup` and for the store of the new terminator). */
  predicate SplitDefined(e: Editor, rownum: int, pos: int) {
    && rownum != |e.rows|
    && (0 <= rownum < |e.rows| && 0 <= pos <= e.rows[rownum].len ==> HasNul(e.rows[rownum].buf, pos))
  }

  /** `splitRow`: with a valid row and `0 <= pos <= len`, inserts a new row
      below (through `newRow`) holding the C string at `pos` with length
      `len - pos`, and cuts the row itself to its first `pos` bytes followed by
      a NUL, with length `pos + 1`. Any other argument leaves the editor alone. */
  function SplitRow(e: Editor, rownum: int, pos: int): (e': Editor)
    requires SplitDefined(e, rownum, pos)
    ensures !(0 <= rownum < |e.rows| && 0 <= pos <= e.rows[rownum].len) ==> e' == e
    ensures 0 <= rownum < |e.rows| && 0 <= pos <= e.rows[rownum].len ==>
      && e' == e.(rows := e'.rows, dirty := true)
      && |e'.rows| == |e.rows| + 1
      && (forall i :: 0 <= i < rownum ==> e'.rows[i] == e.rows[i])
      && (forall i :: rownum + 1 < i < |e'.rows| ==> e'.rows[i] == e.rows[i - 1])
      && e'.rows[rownum] == Row(e.rows[rownum].buf[..pos] + [NUL], pos + 1)
      && e'.rows[rownum + 1] == Row(CStr(e.rows[rownum].buf, pos), e.rows[rownum].len - pos)
  {
    if rownum < 0 || rownum > |e.rows| then e
    else if pos < 0 || pos > e.rows[rownum].len then e
    else
      var e1 := NewRow(e, rownum + 1);
      var cur := e1.rows[rownum];
      var below := Row(CStr(cur.buf, pos), cur.len - pos);
      var above := Row(cur.buf[..pos] + [NUL], pos + 1);
      e1.(rows := e1.rows[rownum := above][rownum + 1 := below])
  }

  /** Splitting a loaded line before its terminator gives two loaded lines:
      the bytes before `pos` with a new terminator, and the bytes from `pos`. */
  lemma SplitTerminated(e: Editor, rownum: int, pos: int)
    requires 0 <= rownum < |e.rows| && Terminated(e.rows[rownum]) && 0 <= pos < e.rows[rownum].len
    ensures SplitDefined(e, rownum, pos)
    ensures var e' := SplitRow(e, rownum, pos);
            var r := e.rows[rownum];
            && Terminated(e'.rows[rownum]) && Terminated(e'.rows[rownum + 1])
            && Content(e'.rows[rownum]) == Content(r)[..pos] + [NUL]
            && Content(e'.rows[rownum + 1]) == Content(r)[pos..]
  {
    var r := e.rows[rownum];
    var body := r.buf[..r.len - 1];
    CStrOfTerminated(r, pos);
    var e' := SplitRow(e, rownum, pos);
    var up := r.buf[..pos] + [NUL];
    assert e'.rows[rownum] == Row(up, |up|);
    assert up[..|up| - 1] == body[..pos];
    NoNulSlice(body, 0, pos);
    TerminatedRow(up);
    var down := r.buf[pos..];
    assert e'.rows[rownum + 1] == Row(down, |down|);
    assert down[..|down| - 1] == body[pos..];
    NoNulSlice(body, pos, |body|);
    TerminatedRow(down);
  }

  lemma NoNulSlice(s: seq<byte>, a: int, b: int)
    requires NoNul(s) && 0 <= a <= b <= |s|
    ensures NoNul(s[a..b])
  {
    forall i | 0 <= i < b - a
      ensures s[a..b][i] != NUL
    {
      assert s[a..b][i] == s[a + i];
    }
  }

  /** A buffer that ends in its only NUL, recorded in full, is a loaded line. */
  lemma TerminatedRow(s: seq<byte>)
    requires 1 <= |s| && s[|s| - 1] == NUL && NoNul(s[..|s| - 1])
    ensures Terminated(Row(s, |s|)) && Content(Row(s, |s|)) == s
  {
  }

  /** The part of `delCatRow`'s precondition the source leaves implicit: both
      rows hold a C string, and `strcat` stays inside the buffer `realloc`
      sized to `top.len + bot.len`. */
  predicate CanJoin(top: Row, bot: Row) {
    && HasNul(top.buf, 0)
    && HasNul(bot.buf, 0)
    && FirstNul(top.buf, 0) + |CStr(bot.buf, 0)| <= top.len + bot.len
  }

  predicate JoinDefined(e: Editor, rownum: int) {
    1 <= rownum < |e.rows| ==> CanJoin(e.rows[rownum - 1], e.rows[rownum])
  }

  /** The bytes `realloc` keeps of the upper row when growing it to
      `top.len + bot.len`. */
  function KeptLen(top: Row, bot: Row): nat {
    if |top.buf| < top.len + bot.len then |top.buf| else top.len + bot.len
  }

  /** The upper row's buffer after `realloc` and `strcat`: its bytes before
      its first NUL, the lower row's C string written there, and whatever
      kept bytes of the upper row lie past that. */
  function JoinedBuf(top: Row, bot: Row): (b: seq<byte>)
    requires CanJoin(top, bot)
    ensures var k, s := FirstNul(top.buf, 0), CStr(bot.buf, 0);
      && |b| == (if k + |s| < KeptLen(top, bot) then KeptLen(top, bot) else k + |s|)
      && b[..k] == top.buf[..k]
      && b[k..k + |s|] == s
      && (forall i :: k + |s| <= i < |b| ==> b[i] == top.buf[i])
  {
    var k, s := FirstNul(top.buf, 0), CStr(bot.buf, 0);
    var kept := KeptLen(top, bot);
    var b := top.buf[..k] + s + (if k + |s| < kept then top.buf[k + |s|..kept] else []);
    assert b[..k] == top.buf[..k];
    assert b[k..k + |s|] == s;
    b
  }

  /** When the upper row's only NUL is its last counted byte, `strcat`
      overwrites everything `realloc` kept from it. */
  lemma JoinedBufAtEnd(top: Row, bot: Row)
    requires CanJoin(top, bot) && |top.buf| == top.len && FirstNul(top.buf, 0) == top.len - 1
    ensures JoinedBuf(top, bot) == top.buf[..top.len - 1] + CStr(bot.buf, 0)
  {
  }

  /** `delCatRow`: for `1 <= rownum < numrows`, appends the C string of row
      `rownum` to the C string of the row above in place, records the length
      `top.len + bot.len - 1`, and deletes row `rownum`. Outside that range the
      editor is unchanged. The dirty flag is left as it was. */
  function DelCatRow(e: Editor, rownum: int): (e': Editor)
    requires JoinDefined(e, rownum)
    ensures !(1 <= rownum < |e.rows|) ==> e' == e
    ensures 1 <= rownum < |e.rows| ==>
      var top := e.rows[rownum - 1];
      var bot := e.rows[rownum];
      && e' == e.(rows := e'.rows)
      && |e'.rows| == |e.rows| - 1
      && (forall i :: 0 <= i < rownum - 1 ==> e'.rows[i] == e.rows[i])
      && (forall i :: rownum <= i < |e'.rows| ==> e'.rows[i] == e.rows[i + 1])
      && e'.rows[rownum - 1] == Row(JoinedBuf(top, bot), top.len + bot.len - 1)
  {
    if rownum <= 0 || rownum >= |e.rows| then e
    else
      var top := e.rows[rownum - 1];
      var bot := e.rows[rownum];
      var joined := Row(JoinedBuf(top, bot), top.len + bot.len - 1);
      DeleteRow(e.(rows := e.rows[rownum - 1 := joined]), rownum)
  }

  /** An upper row with a NUL typed inside it: `strcat` writes the lower
      row's string after the first NUL and the old byte 3 stays, but the
      recorded length 5 reaches past the four bytes with a defined value. */
  lemma JoinEmbeddedNulExample()
    ensures var e := Editor(0, 0, 0, [], INSERT, [Row([97, NUL, 98, NUL], 4), Row([99, NUL], 2)], false, [],
                            CommandRow(Row([NUL], 0), 0));
      && JoinDefined(e, 1)
      && DelCatRow(e, 1).rows == [Row([97, 99, NUL, NUL], 5)]
      && !Valid(DelCatRow(e, 1).rows[0])
  {
    var top, bot := Row([97, NUL, 98, NUL], 4), Row([99, NUL], 2);
    assert FirstNul(top.buf, 1) == 1;
    assert FirstNul(bot.buf, 1) == 1 && FirstNul(bot.buf, 0) == 1;
    assert CStr(bot.buf, 0) == [99, NUL];
    assert JoinedBuf(top, bot) == [97, 99, NUL, NUL];
  }

  /** Joining two loaded lines gives a loaded line: the upper one without its
      terminator followed by the lower one. */
  lemma JoinTerminated(e: Editor, rownum: int)
    requires 1 <= rownum < |e.rows|
    requires Terminated(e.rows[rownum - 1]) && Terminated(e.rows[rownum])
    ensures JoinDefined(e, rownum)
    ensures var top := e.rows[rownum - 1];
            var joined := DelCatRow(e, rownum).rows[rownum - 1];
            && Terminated(joined)
            && Content(joined) == Content(top)[..top.len - 1] + Content(e.rows[rownum])
  {
    var top := e.rows[rownum - 1];
    var bot := e.rows[rownum];
    CStrOfTerminated(top, 0);
    CStrOfTerminated(bot, 0);
    FirstNulOfTerminated(top.buf, 0, top.len - 1);
    JoinedBufAtEnd(top, bot);
    var joined := DelCatRow(e, rownum).rows[rownum - 1];
    assert joined.buf == top.buf[..top.len - 1] + bot.buf;
    forall i | 0 <= i < joined.len - 1
      ensures joined.buf[i] != NUL
    {
      if i < top.len - 1 {
        assert joined.buf[i] == top.buf[..top.len - 1][i];
      } else {
        assert joined.buf[i] == bot.buf[..bot.len - 1][i - (top.len - 1)];
      }
    }
    NoNulPrefix(joined.buf, joined.len - 1);
  }

  /** `splitRow(i, p)` followed by `delCatRow(i + 1)` gives back the original
      loaded line and every other row; only the dirty flag is now set. */
  lemma SplitJoinRoundTrip(e: Editor, i: int, p: int)
    requires 0 <= i < |e.rows| && Terminated(e.rows[i]) && 0 <= p < e.rows[i].len
    ensures SplitDefined(e, i, p)
    ensures JoinDefined(SplitRow(e, i, p), i + 1)
    ensures DelCatRow(SplitRow(e, i, p), i + 1) == e.(dirty := true)
  {
    var r := e.rows[i];
    assert SplitDefined(e, i, p) by {
      CStrOfTerminated(r, p);
    }
    var s := SplitRow(e, i, p);
    assert JoinDefined(s, i + 1) && DelCatRow(s, i + 1).rows[i] == r by {
      SplitHalves(e, i, p);
      JoinHalves(s.rows[i], s.rows[i + 1], r, p);
    }
    var j := DelCatRow(s, i + 1);
    RowsSpliceBack(e.rows, s.rows, j.rows, i);
  }

  /** Inserting a row after `i` and then dropping it while restoring row `i`
      gives back the original rows. */
  lemma RowsSpliceBack(a: seq<Row>, s: seq<Row>, j: seq<Row>, i: int)
    requires 0 <= i < |a| && |s| == |a| + 1 && |j| == |a| && j[i] == a[i]
    requires forall k :: 0 <= k < i ==> s[k] == a[k]
    requires forall k :: i + 1 < k < |s| ==> s[k] == a[k - 1]
    requires forall k :: 0 <= k < i ==> j[k] == s[k]
    requires forall k :: i + 1 <= k < |j| ==> j[k] == s[k + 1]
    ensures j == a
  {
    forall k | 0 <= k < |a|
      ensures j[k] == a[k]
    {
      if k < i {
        assert j[k] == s[k];
      } else if k > i {
        assert j[k] == s[k + 1];
      }
    }
  }

  /** The two rows `splitRow` leaves for a loaded line. */
  lemma SplitHalves(e: Editor, i: int, p: int)
    requires 0 <= i < |e.rows| && Terminated(e.rows[i]) && 0 <= p < e.rows[i].len
    ensures SplitDefined(e, i, p)
    ensures var s := SplitRow(e, i, p); var r := e.rows[i];
      && s.rows[i] == Row(r.buf[..p] + [NUL], p + 1)
      && s.rows[i + 1] == Row(r.buf[p..], r.len - p)
  {
    CStrOfTerminated(e.rows[i], p);
  }

  /** Joining the two halves of a split loaded line gives the line back. */
  lemma JoinHalves(top: Row, bot: Row, r: Row, p: int)
    requires Terminated(r) && 0 <= p < r.len
    requires top == Row(r.buf[..p] + [NUL], p + 1) && bot == Row(r.buf[p..], r.len - p)
    ensures CanJoin(top, bot)
    ensures Row(JoinedBuf(top, bot), top.len + bot.len - 1) == r
  {
    var body := r.buf[..r.len - 1];
    assert top.buf[..p] == body[..p];
    NoNulSlice(body, 0, p);
    forall k | 0 <= k < p
      ensures top.buf[k] != NUL
    {
      assert top.buf[k] == top.buf[..p][k];
    }
    FirstNulOfTerminated(top.buf, 0, p);
    var down := r.buf[p..];
    assert down[..|down| - 1] == body[p..];
    NoNulSlice(body, p, |body|);
    TerminatedRow(down);
    CStrOfTerminated(Row(down, |down|), 0);
    JoinedBufAtEnd(top, bot);
    assert r.buf[..p] + down == r.buf;
  }

  /** The row `delCatRow` builds from two loaded lines, and the join point
      in it: the upper line's bytes before it, the lower line's C string at it. */
  lemma JoinedShape(e: Editor, i: int)
    requires 1 <= i < |e.rows| && Terminated(e.rows[i - 1]) && Terminated(e.rows[i])
    ensures JoinDefined(e, i)
    ensures var q := e.rows[i - 1].len - 1;
            var joined := DelCatRow(e, i).rows[i - 1];
            && joined == Row(e.rows[i - 1].buf[..q] + e.rows[i].buf, q + e.rows[i].len)
            && joined.buf[..q] + [NUL] == e.rows[i - 1].buf
            && HasNul(joined.buf, q)
            && CStr(joined.buf, q) == e.rows[i].buf
  {
    var top := e.rows[i - 1];
    var bot := e.rows[i];
    var q := top.len - 1;
    CStrOfTerminated(bot, 0);
    FirstNulOfTerminated(top.buf, 0, q);
    JoinedBufAtEnd(top, bot);
    assert JoinedBuf(top, bot) == top.buf[..q] + bot.buf;
    JoinPoint(top, bot, DelCatRow(e, i).rows[i - 1].buf);
  }

  /** In the upper line without its NUL followed by the lower line, the join
      point holds the upper line's NUL position and the lower line's C string. */
  lemma JoinPoint(top: Row, bot: Row, joined: seq<byte>)
    requires Terminated(top) && Terminated(bot) && joined == top.buf[..top.len - 1] + bot.buf
    ensures joined[..top.len - 1] + [NUL] == top.buf
    ensures HasNul(joined, top.len - 1) && CStr(joined, top.len - 1) == bot.buf
  {
    var q := top.len - 1;
    assert joined[..q] == top.buf[..q];
    assert top.buf == top.buf[..q] + [NUL];
    forall k | q <= k < q + bot.len - 1
      ensures joined[k] != NUL
    {
      assert joined[k] == bot.buf[..bot.len - 1][k - q];
    }
    FirstNulOfTerminated(joined, q, q + bot.len - 1);
    assert joined[q..] == bot.buf;
  }

  /** `delCatRow(i)` followed by `splitRow(i - 1, q)` at the join point gives
      back both loaded lines and every other row; only the dirty flag is now set. */
  lemma JoinSplitRoundTrip(e: Editor, i: int)
    requires 1 <= i < |e.rows| && Terminated(e.rows[i - 1]) && Terminated(e.rows[i])
    ensures JoinDefined(e, i)
    ensures SplitDefined(DelCatRow(e, i), i - 1, e.rows[i - 1].len - 1)
    ensures SplitRow(DelCatRow(e, i), i - 1, e.rows[i - 1].len - 1) == e.(dirty := true)
  {
    var top := e.rows[i - 1];
    var q := top.len - 1;
    JoinedShape(e, i);
    var j := DelCatRow(e, i);
    var s := SplitRow(j, i - 1, q);
    assert s.rows[i - 1] == e.rows[i - 1] by {
      assert s.rows[i - 1] == Row(j.rows[i - 1].buf[..q] + [NUL], q + 1);
    }
    assert s.rows[i] == e.rows[i] by {
      assert s.rows[i] == Row(CStr(j.rows[i - 1].buf, q), j.rows[i - 1].len - q);
    }
    RowsSpliceJoin(e.rows, j.rows, s.rows, i);
  }

  /** Dropping row `i` while rewriting row `i - 1`, then inserting a row after
      `i - 1` while restoring both, gives back the original rows. */
  lemma RowsSpliceJoin(a: seq<Row>, j: seq<Row>, s: seq<Row>, i: int)
    requires 1 <= i < |a| && |j| == |a| - 1 && |s| == |j| + 1
    requires s[i - 1] == a[i - 1] && s[i] == a[i]
    requires forall k :: 0 <= k < i - 1 ==> j[k] == a[k]
    requires forall k :: i <= k < |j| ==> j[k] == a[k + 1]
    requires forall k :: 0 <= k < i - 1 ==> s[k] == j[k]
    requires forall k :: i < k < |s| ==> s[k] == j[k - 1]
    ensures s == a
  {
    forall k | 0 <= k < |a|
      ensures s[k] == a[k]
    {
      if k < i - 1 {
        assert s[k] == j[k];
      } else if k > i {
        assert s[k] == j[k - 1];
      }
    }
  }
}
