/** The output side of display.c: the growable append buffer every frame is
    built in, and the terminal escape sequences written into it, kept as
    tokens rather than as their byte encodings. */
module Terminal {
  import opened Bytes

  /** `abAppend(ab, s, len)`: `grown` says whether the `realloc` succeeded.
      On success the first `len` bytes of `s` follow the old contents; on
      failure the buffer is left exactly as it was. */
  function AbAppend(ab: seq<byte>, s: seq<byte>, len: int, grown: bool): (ab': seq<byte>)
    requires 0 <= len <= |s|
    ensures grown ==> |ab'| == |ab| + len && ab'[..|ab|] == ab && ab'[|ab|..] == s[..len]
    ensures !grown ==> ab' == ab
  {
    if grown then ab + s[..len] else ab
  }

  /** Appending twice is appending the two pieces at once. */
  lemma AbAppendTwice(ab: seq<byte>, s: seq<byte>, n: nat, t: seq<byte>, m: nat)
    requires n <= |s| && m <= |t|
    ensures AbAppend(AbAppend(ab, s, n, true), t, m, true)
         == AbAppend(ab, s[..n] + t[..m], n + m, true)
  {
    var once := AbAppend(ab, s[..n] + t[..m], n + m, true);
    assert (s[..n] + t[..m])[..n + m] == s[..n] + t[..m];
    assert once == ab + s[..n] + t[..m];
  }

  /** One write to the frame buffer: an escape sequence or literal bytes. */
  datatype Token =
    | Hide                  // ESC [?25l
    | Show                  // ESC [?25h
    | Move(row: int, col: int) // ESC [row;colH
    | EraseEol              // ESC [K
    | EraseSol              // ESC [1K
    | SetColor              // gutter colour on
    | ResetColor            // colour off
    | LineNumber(n: nat, width: int) // the gutter field for line n, `width` bytes
    | Text(bytes: seq<byte>)

  /** The bytes of the `Text` tokens of a sequence, in order. */
  function TextOf(toks: seq<Token>): seq<byte> {
    if |toks| == 0 then []
    else (if toks[0].Text? then toks[0].bytes else []) + TextOf(toks[1..])
  }

  lemma {:induction false} TextOfConcat(a: seq<Token>, b: seq<Token>)
    ensures TextOf(a + b) == TextOf(a) + TextOf(b)
    decreases |a|
  {
    if |a| == 0 {
      assert a + b == b;
    } else {
      assert (a + b)[1..] == a[1..] + b;
      TextOfConcat(a[1..], b);
    }
  }

  /** Tokens that are all escape sequences contribute no text. */
  lemma {:induction false} NoTextOf(toks: seq<Token>)
    requires forall i :: 0 <= i < |toks| ==> !toks[i].Text?
    ensures TextOf(toks) == []
    decreases |toks|
  {
    if |toks| > 0 {
      NoTextOf(toks[1..]);
    }
  }
}
