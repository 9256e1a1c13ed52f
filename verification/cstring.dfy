/**
  Small helpers shared by the whole model: an optional value, and the view of a
  byte buffer that C code has through a `const char *` (NUL-terminated reads,
  digit and whitespace classes, ASCII case folding, fixed-width decimal text).
 */
module Wrappers {

  datatype Option<+T> = None | Some(value: T)

  datatype Result<+R, +E> = Ok(value: R) | Err(error: E)
}

module CString {

  const NUL: char := '\0'

  /** The character `*(s + i)` reads when the buffer holding `s` is followed by
      its NUL terminator: every position past the end reads NUL. */
  function At(s: string, i: int): (c: char)
    ensures 0 <= i < |s| ==> c == s[i]
    ensures (i < 0 || i >= |s|) ==> c == NUL
  {
    if 0 <= i < |s| then s[i] else NUL
  }

  /** `isdigit` in the C locale. */
  predicate IsDigit(c: char) {
    '0' <= c <= '9'
  }

  /** `isspace` in the C locale: space, tab, newline, vertical tab, form feed, return. */
  predicate IsSpace(c: char) {
    c == ' ' || '\t' <= c <= '\r'
  }

  predicate AllDigits(d: string) {
    forall i :: 0 <= i < |d| ==> IsDigit(d[i])
  }

  function DigitValue(c: char): (v: nat)
    requires IsDigit(c)
    ensures v < 10
  {
    (c as int - '0' as int) as nat
  }

  function DigitChar(v: nat): (c: char)
    requires v < 10
    ensures IsDigit(c) && DigitValue(c) == v
  {
    ('0' as int + v) as char
  }

  function Pow10(n: nat): (p: nat)
    ensures p >= 1
  {
    if n == 0 then 1 else 10 * Pow10(n - 1)
  }

  /** The value of a run of decimal digits, most significant first. */
  function DigitsValue(d: string): (v: nat)
    requires AllDigits(d)
    ensures v < Pow10(|d|)
  {
    if |d| == 0 then 0 else 10 * DigitsValue(d[..|d| - 1]) + DigitValue(d[|d| - 1])
  }

  /** `n` written in exactly `w` decimal digits, with leading zeros (`%0wd`). */
  function Digits(n: nat, w: nat): (d: string)
    requires n < Pow10(w)
    ensures |d| == w
    ensures AllDigits(d)
    ensures DigitsValue(d) == n
  {
    if w == 0 then ""
    else
      var head := Digits(n / 10, w - 1);
      var d := head + [DigitChar(n % 10)];
      assert d[..|d| - 1] == head;
      d
  }

  /** What C code sees of `s` as a string: everything before the first NUL. */
  function CStr(s: string): (r: string)
    ensures |r| <= |s| && r == s[..|r|]
    ensures forall i :: 0 <= i < |r| ==> r[i] != NUL
    ensures |r| < |s| ==> s[|r|] == NUL
  {
    if |s| == 0 || s[0] == NUL then "" else [s[0]] + CStr(s[1..])
  }

  /** `tolower` in the C locale. */
  function Lower(c: char): char {
    if 'A' <= c <= 'Z' then (c as int + 32) as char else c
  }

  /** `strncasecmp(s, lit, |lit|) == 0` for a literal without NUL characters. */
  predicate StartsWithCaseless(s: string, lit: string) {
    var z := CStr(s);
    |z| >= |lit| && forall i :: 0 <= i < |lit| ==> Lower(z[i]) == Lower(lit[i])
  }

  /** Euclidean quotient of naturals. */
  function Quot(a: nat, b: nat): (q: nat)
    requires b > 0
    ensures q * b <= a < q * b + b
  {
    a / b
  }

  lemma {:induction false} MulAtLeast(k: nat, b: nat)
    requires k >= 1
    ensures k * b >= b
    decreases k
  {
    if k > 1 {
      MulAtLeast(k - 1, b);
      assert k * b == (k - 1) * b + b;
    }
  }

  lemma DivExact(q: nat, b: nat, r: nat)
    requires 0 <= r < b
    ensures Quot(q * b + r, b) == q
  {
    var n := q * b + r;
    var x := Quot(n, b);
    if x < q {
      assert (q - x) * b == q * b - x * b;
      MulAtLeast(q - x, b);
    } else if x > q {
      assert (x - q) * b == x * b - q * b;
      MulAtLeast(x - q, b);
    }
  }

  lemma {:induction false} Pow10Add(a: nat, b: nat)
    ensures Pow10(a + b) == Pow10(a) * Pow10(b)
    decreases a
  {
    if a > 0 {
      Pow10Add(a - 1, b);
    }
  }

  lemma MulRearrange(v: nat, q: nat, p: nat)
    ensures (v * q) * (2 * p) == 2 * v * (p * q)
  {
  }

  lemma MulStrict(a: nat, b: nat, c: nat)
    requires a < b && c > 0
    ensures a * c < b * c
  {
    MulAtLeast(b - a, c);
    assert (b - a) * c == b * c - a * c;
  }
}
