/**
 The few JavaScript built-ins the typing test relies on, stated on Dafny
 sequences: `Array.prototype.lastIndexOf`, `String(n)` for integers,
 `String.prototype.padStart`, `Math.floor(a / b)` and the remainder
 operator `%`, which truncates toward zero.
 */
module JsText {

  /** The index at which `lastIndexOf` starts its backward search, for an
      array of length `len` and the given `fromIndex` (a negative one counts
      from the end). */
  function SearchStart(len: nat, fromIndex: int): (k: int)
    ensures -1 <= k < len
    ensures 0 <= fromIndex < len ==> k == fromIndex
  {
    if fromIndex >= 0 then (if fromIndex < len then fromIndex else len - 1)
    else if len + fromIndex >= 0 then len + fromIndex
    else -1
  }

  /** The largest index `r <= k` with `s[r] == c`, or -1 when there is none. */
  function SearchDown(s: seq<char>, c: char, k: int): (r: int)
    requires -1 <= k < |s|
    ensures -1 <= r <= k
    ensures r >= 0 ==> s[r] == c
    ensures forall j :: r < j <= k ==> s[j] != c
    decreases k + 1
  {
    if k < 0 then -1
    else if s[k] == c then k
    else SearchDown(s, c, k - 1)
  }

  /** `s.lastIndexOf(c, fromIndex)`: the last occurrence of `c` at or before
      `fromIndex`, or -1. */
  function LastIndexOf(s: seq<char>, c: char, fromIndex: int): (r: int)
    ensures -1 <= r < |s|
    ensures r >= 0 ==> s[r] == c
    ensures fromIndex >= 0 ==> r <= fromIndex
    ensures fromIndex >= 0 ==> forall j :: r < j < |s| && j <= fromIndex ==> s[j] != c
    ensures fromIndex < 0 && r >= 0 ==> r <= |s| + fromIndex
    ensures fromIndex < 0 ==> forall j :: r < j <= |s| + fromIndex ==> s[j] != c
  {
    SearchDown(s, c, SearchStart(|s|, fromIndex))
  }

  /** Searching from a later index never finds an earlier occurrence. */
  lemma LastIndexOfMonotone(s: seq<char>, c: char, a: int, b: int)
    requires 0 <= a <= b
    ensures LastIndexOf(s, c, a) <= LastIndexOf(s, c, b)
  {
  }

  /** `lastIndexOf` finds something exactly when an occurrence lies at or
      before `fromIndex`. */
  lemma LastIndexOfFound(s: seq<char>, c: char, fromIndex: nat)
    ensures LastIndexOf(s, c, fromIndex) >= 0 <==>
            exists j :: 0 <= j < |s| && j <= fromIndex && s[j] == c
  {
    var r := LastIndexOf(s, c, fromIndex);
    if r >= 0 {
      assert s[r] == c;
    }
  }

  predicate IsDigit(ch: char) {
    '0' <= ch <= '9'
  }

  predicate AllDigits(s: string) {
    forall i :: 0 <= i < |s| ==> IsDigit(s[i])
  }

  function DigitChar(d: nat): (ch: char)
    requires d < 10
    ensures IsDigit(ch)
  {
    ('0' as int + d) as char
  }

  function DigitValue(ch: char): (d: nat)
    requires IsDigit(ch)
    ensures d < 10
  {
    ch as int - '0' as int
  }

  /** `String(n)` for a non-negative integer: its decimal digits, most
      significant first, with no leading zero. */
  function NatToString(n: nat): (s: string)
    ensures 1 <= |s|
    ensures forall i :: 0 <= i < |s| ==> IsDigit(s[i])
    ensures |s| == 1 <==> n < 10
    ensures n < 100 ==> |s| <= 2
    ensures |s| > 1 ==> s[0] != '0'
    decreases n
  {
    if n < 10 then [DigitChar(n)] else NatToString(n / 10) + [DigitChar(n % 10)]
  }

  /** `String(n)` for any integer. */
  function IntToString(n: int): (s: string)
    ensures n < 0 ==> |s| >= 2 && s[0] == '-' && s[1..] == NatToString(-n)
    ensures n >= 0 ==> s == NatToString(n)
  {
    if n < 0 then "-" + NatToString(-n) else NatToString(n)
  }

  /** The number a string of decimal digits denotes. */
  function DigitsValue(s: string): nat
    requires forall i :: 0 <= i < |s| ==> IsDigit(s[i])
  {
    if |s| == 0 then 0 else DigitsValue(s[..|s| - 1]) * 10 + DigitValue(s[|s| - 1])
  }

  /** Reading back the digits `String(n)` writes gives `n`. */
  lemma {:induction false} DigitsValueOfNatToString(n: nat)
    ensures DigitsValue(NatToString(n)) == n
    decreases n
  {
    var s := NatToString(n);
    if n >= 10 {
      DigitsValueOfNatToString(n / 10);
      assert s[..|s| - 1] == NatToString(n / 10);
    }
  }

  /** `s.padStart(targetLength, filler)` with a one-character filler. */
  function PadStart(s: string, targetLength: nat, filler: char): (r: string)
    ensures |r| == if |s| < targetLength then targetLength else |s|
    ensures r[|r| - |s|..] == s
    ensures forall i :: 0 <= i < |r| - |s| ==> r[i] == filler
  {
    if |s| >= targetLength then s else seq(targetLength - |s|, _ => filler) + s
  }

  /** `Math.floor(a / b)` for a positive divisor. */
  function FloorDiv(a: int, b: int): (q: int)
    requires b > 0
    ensures q * b <= a < q * b + b
  {
    a / b
  }

  /** `a % b` in JavaScript: the remainder takes the sign of the dividend. */
  function JsRemainder(a: int, b: int): (r: int)
    requires b > 0
    ensures a >= 0 ==> 0 <= r < b
    ensures a < 0 ==> -b < r <= 0
    ensures (if a >= 0 then r else -r) == (if a >= 0 then a else -a) % b
  {
    if a >= 0 then a % b else -((-a) % b)
  }
}
