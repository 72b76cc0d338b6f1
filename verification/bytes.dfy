/** Bytes as the editor stores them, the few byte constants the core compares
    against, and C's `%d` decimal formatting (used for line numbers, the row
    count and the cursor coordinates on the status line). */
module Bytes {

  type byte = x: int | 0 <= x < 256

  const NUL: byte := 0
  const TAB: byte := 9
  const SPACE: byte := 32
  const COMMA: byte := 44
  const MINUS: byte := 45
  const ZERO: byte := 48
  const TILDE: byte := 126

  predicate IsDigit(b: byte) {
    ZERO <= b < ZERO + 10
  }

  /** The decimal digits of `n`, most significant first, no leading zeros. */
  function Digits(n: nat): (s: seq<byte>)
    ensures 1 <= |s|
    ensures forall i :: 0 <= i < |s| ==> IsDigit(s[i])
    ensures |s| > 1 ==> s[0] != ZERO
    decreases n
  {
    if n < 10 then [ZERO + n] else Digits(n / 10) + [ZERO + n % 10]
  }

  /** What `printf("%d", n)` writes: an optional minus sign, then the digits. */
  function Decimal(n: int): (s: seq<byte>)
    ensures 1 <= |s|
    ensures n >= 0 ==> forall i :: 0 <= i < |s| ==> IsDigit(s[i])
    ensures n < 0 <==> s[0] == MINUS
  {
    if n < 0 then [MINUS] + Digits(-n) else Digits(n)
  }

  /** The value of a string of decimal digits (the reading direction of `Digits`). */
  function DigitsValue(s: seq<byte>): nat
    requires forall i :: 0 <= i < |s| ==> IsDigit(s[i])
  {
    if |s| == 0 then 0
    else
      assert IsDigit(s[|s| - 1]);
      DigitsValue(s[..|s| - 1]) * 10 + (s[|s| - 1] - ZERO) as nat
  }

  /** An optional minus sign followed by digits only. */
  predicate IsDecimal(s: seq<byte>) {
    && 1 <= |s|
    && (s[0] == MINUS ==> forall i :: 1 <= i < |s| ==> IsDigit(s[i]))
    && (s[0] != MINUS ==> forall i :: 0 <= i < |s| ==> IsDigit(s[i]))
  }

  /** The value an `atoi`-style reader gives to the output of `Decimal`. */
  function DecimalValue(s: seq<byte>): int
    requires IsDecimal(s)
  {
    if s[0] == MINUS then -(DigitsValue(s[1..]) as int) else DigitsValue(s)
  }

  lemma {:induction false} DigitsRoundTrip(n: nat)
    ensures DigitsValue(Digits(n)) == n
    decreases n
  {
    if n >= 10 {
      var s := Digits(n);
      assert s[..|s| - 1] == Digits(n / 10);
      DigitsRoundTrip(n / 10);
    }
  }

  /** Formatting with `%d` loses nothing: reading the text back gives `n`. */
  lemma DecimalRoundTrip(n: int)
    ensures IsDecimal(Decimal(n)) && DecimalValue(Decimal(n)) == n
  {
    if n < 0 {
      assert Decimal(n)[1..] == Digits(-n);
      DigitsRoundTrip(-n);
    } else {
      DigitsRoundTrip(n);
    }
  }

  /** `n` spaces. */
  function Spaces(n: int): (s: seq<byte>)
    ensures |s| == if n < 0 then 0 else n
    ensures forall i :: 0 <= i < |s| ==> s[i] == SPACE
  {
    if n <= 0 then [] else Spaces(n - 1) + [SPACE]
  }

  /** What `printf("%*d", width, n)` writes: `n` right-justified in `width` columns. */
  function PadDecimal(n: int, width: int): (s: seq<byte>)
    requires 0 <= width
    ensures |s| == if |Decimal(n)| < width then width else |Decimal(n)|
    ensures s[|s| - |Decimal(n)|..] == Decimal(n)
    ensures forall i :: 0 <= i < |s| - |Decimal(n)| ==> s[i] == SPACE
  {
    Spaces(width - |Decimal(n)|) + Decimal(n)
  }
}
