/** The string functions of the Java platform that the core relies on:
    `Integer.toHexString`, the hexadecimal parse behind `Color.decode`,
    `String.toLowerCase`, `String.endsWith`, `String.strip` and
    `Integer.toString`. */
module Text {

  import opened Arith

  predicate IsHexDigit(c: char) {
    ('0' <= c <= '9') || ('a' <= c <= 'f') || ('A' <= c <= 'F')
  }

  predicate AllHex(s: string) {
    forall i | 0 <= i < |s| :: IsHexDigit(s[i])
  }

  function DigitValue(c: char): (v: nat)
    requires IsHexDigit(c)
    ensures v < 16
  {
    if '0' <= c <= '9' then c as int - '0' as int
    else if 'a' <= c <= 'f' then c as int - 'a' as int + 10
    else c as int - 'A' as int + 10
  }

  /** The lower-case digit `Integer.toHexString` writes for `d`. */
  function HexChar(d: nat): (c: char)
    requires d < 16
    ensures IsHexDigit(c) && DigitValue(c) == d
    ensures !('A' <= c <= 'Z')
  {
    if d < 10 then ('0' as int + d) as char else ('a' as int + d - 10) as char
  }

  function Pow16(k: nat): (r: nat)
    ensures r >= 1
  {
    if k == 0 then 1 else 16 * Pow16(k - 1)
  }

  /** Value of a string of hexadecimal digits, most significant digit first. */
  function HexValue(s: string): (v: nat)
    requires AllHex(s)
    ensures v < Pow16(|s|)
  {
    if |s| == 0 then 0 else 16 * HexValue(s[..|s| - 1]) + DigitValue(s[|s| - 1])
  }

  /** `Integer.toHexString` of a value read as unsigned: lower-case digits,
      no leading zeros, "0" for zero. Parsing the digits gives the value back. */
  function ToHex(n: nat): (s: string)
    ensures 1 <= |s|
    ensures forall i | 0 <= i < |s| :: IsHexDigit(s[i]) && !('A' <= s[i] <= 'Z')
    ensures HexValue(s) == n
    ensures n > 0 ==> s[0] != '0'
    decreases n
  {
    if n < 16 then [HexChar(n)] else ToHex(n / 16) + [HexChar(n % 16)]
  }

  /** A value with k significant hexadecimal digits is written with exactly k digits. */
  lemma {:induction false} ToHexLength(n: nat, k: nat)
    requires 1 <= k && n < Pow16(k)
    requires k == 1 || Pow16(k - 1) <= n
    ensures |ToHex(n)| == k
  {
    if k > 1 {
      ToHexLength(n / 16, k - 1);
    }
  }

  /** Distinct values have distinct hexadecimal strings. */
  lemma ToHexInjective(m: nat, n: nat)
    requires ToHex(m) == ToHex(n)
    ensures m == n
  {
  }

  lemma ModStep(a: nat, d: nat, p: nat)
    requires d < 16 && p >= 1
    ensures (16 * a + d) % (16 * p) == 16 * (a % p) + d
  {
    var q, m := a / p, a % p;
    assert a == q * p + m;
    assert 16 * a + d == q * (16 * p) + (16 * m + d);
    DivModUnique(16 * a + d, 16 * p, q, 16 * m + d);
  }

  /** Keeping the last k digits of a hexadecimal string keeps its value modulo 16^k. */
  lemma {:induction false} HexSuffixValue(s: string, k: nat)
    requires AllHex(s) && k <= |s|
    ensures AllHex(s[|s| - k..])
    ensures HexValue(s[|s| - k..]) == HexValue(s) % Pow16(k)
  {
    var u := s[|s| - k..];
    if k == 0 {
      assert u == [];
    } else {
      var t := s[..|s| - 1];
      HexSuffixValue(t, k - 1);
      assert u[..|u| - 1] == t[|t| - (k - 1)..];
      assert u[|u| - 1] == s[|s| - 1];
      ModStep(HexValue(t), DigitValue(s[|s| - 1]), Pow16(k - 1));
    }
  }

  /** The hexadecimal digits of `s` in order: what `replaceAll("[^A-Fa-f0-9]", "")` leaves. */
  function HexDigits(s: string): (d: string)
    ensures |d| <= |s|
    ensures AllHex(d)
    ensures forall c :: c in d <==> c in s && IsHexDigit(c)
    ensures AllHex(s) ==> d == s
  {
    if |s| == 0 then []
    else (if IsHexDigit(s[0]) then [s[0]] else []) + HexDigits(s[1..])
  }

  /** A single character is kept exactly when it is a hex digit. */
  lemma HexDigitsOne(c: char)
    ensures HexDigits([c]) == if IsHexDigit(c) then [c] else []
  {
    assert [c][1..] == [];
  }

  /** Filtering distributes over concatenation: together with `HexDigitsOne`
      this pins down the result as the hex digits of `s` in their original order. */
  lemma {:induction false} HexDigitsConcat(a: string, b: string)
    ensures HexDigits(a + b) == HexDigits(a) + HexDigits(b)
  {
    if |a| == 0 {
      assert a + b == b;
    } else {
      assert (a + b)[0] == a[0];
      assert (a + b)[1..] == a[1..] + b;
      HexDigitsConcat(a[1..], b);
    }
  }

  /** `Character.toLowerCase` restricted to the ASCII letters. */
  function LowerChar(c: char): char {
    if 'A' <= c <= 'Z' then (c as int + 32) as char else c
  }

  function Lower(s: string): string {
    seq(|s|, i requires 0 <= i < |s| => LowerChar(s[i]))
  }

  predicate EndsWith(s: string, suffix: string) {
    |suffix| <= |s| && s[|s| - |suffix|..] == suffix
  }

  /** `Character.isWhitespace`: the Unicode space, line and paragraph
      separators except the non-breaking ones, plus the ASCII controls
      TAB, LF, VT, FF, CR and FS, GS, RS, US. */
  predicate IsWhitespace(c: char) {
    || c == ' ' || ('\t' <= c <= '\r') || ('\U{001C}' <= c <= '\U{001F}')
    || c == '\U{1680}' || ('\U{2000}' <= c <= '\U{2006}') || ('\U{2008}' <= c <= '\U{200A}')
    || c == '\U{2028}' || c == '\U{2029}' || c == '\U{205F}' || c == '\U{3000}'
  }

  predicate AllWhitespace(s: string) {
    forall i | 0 <= i < |s| :: IsWhitespace(s[i])
  }

  function TrimStart(s: string): (r: string)
    ensures |r| <= |s| && r == s[|s| - |r|..]
    ensures |r| > 0 ==> !IsWhitespace(r[0])
    ensures AllWhitespace(s[..|s| - |r|])
  {
    if |s| > 0 && IsWhitespace(s[0]) then TrimStart(s[1..]) else s
  }

  function TrimEnd(s: string): (r: string)
    ensures |r| <= |s| && r == s[..|r|]
    ensures |r| > 0 ==> !IsWhitespace(r[|r| - 1])
    ensures AllWhitespace(s[|r|..])
  {
    if |s| > 0 && IsWhitespace(s[|s| - 1]) then TrimEnd(s[..|s| - 1]) else s
  }

  /** `r` sits at position i of `s` with only whitespace around it. */
  predicate SurroundedByWhitespace(s: string, r: string, i: nat) {
    i + |r| <= |s| && s[i..i + |r|] == r && AllWhitespace(s[..i]) && AllWhitespace(s[i + |r|..])
  }

  /** `String.strip`: the slice of `s` left after removing whitespace at both ends. */
  function Strip(s: string): (r: string)
    ensures |r| > 0 ==> !IsWhitespace(r[0]) && !IsWhitespace(r[|r| - 1])
    ensures exists i: nat :: SurroundedByWhitespace(s, r, i)
  {
    var t := TrimStart(s);
    var r := TrimEnd(t);
    var i := |s| - |t|;
    assert t == s[i..];
    assert r == t[..|r|];
    assert s[i..i + |r|] == r;
    assert s[i + |r|..] == t[|r|..];
    assert SurroundedByWhitespace(s, r, i);
    r
  }

  /** Decimal digits of a natural number, most significant first. */
  function DecimalDigits(n: nat): (s: string)
    ensures 1 <= |s|
    decreases n
  {
    if n < 10 then [('0' as int + n) as char]
    else DecimalDigits(n / 10) + [('0' as int + n % 10) as char]
  }

  /** `Integer.toString` / `StringBuilder.append(int)`. */
  function IntToString(i: int): string {
    if i < 0 then "-" + DecimalDigits(-i) else DecimalDigits(i)
  }
}
