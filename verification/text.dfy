/**
 * The string primitives the backend and the client rely on: Java's
 * `String.trim`, `String.equalsIgnoreCase`, the decimal rendering of an
 * integer (`String.valueOf`, a JavaScript template literal), JavaScript's
 * `parseInt`, and the roman numerals of the unit titles.
 */
module Text {
  import opened Base

  /** `String.trim` removes every char whose code is at most U+0020. */
  predicate IsTrimmable(c: char) {
    c <= ' '
  }

  /** How many trimmable chars `s` starts with. */
  function LeadingTrimmable(s: string): (n: nat)
    ensures n <= |s|
    ensures forall k :: 0 <= k < n ==> IsTrimmable(s[k])
    ensures n == |s| || !IsTrimmable(s[n])
  {
    if |s| > 0 && IsTrimmable(s[0]) then 1 + LeadingTrimmable(s[1..]) else 0
  }

  function TrimLeft(s: string): (r: string)
    ensures |r| <= |s| && r == s[|s| - |r|..]
    ensures forall k :: 0 <= k < |s| - |r| ==> IsTrimmable(s[k])
    ensures r == [] || !IsTrimmable(r[0])
  {
    s[LeadingTrimmable(s)..]
  }

  function TrimRight(s: string): (r: string)
    ensures |r| <= |s| && r == s[..|r|]
    ensures forall k :: |r| <= k < |s| ==> IsTrimmable(s[k])
    ensures r == [] || !IsTrimmable(r[|r| - 1])
  {
    if |s| > 0 && IsTrimmable(s[|s| - 1]) then TrimRight(s[..|s| - 1]) else s
  }

  /** Java's `s.trim()`: the longest infix of `s` that neither starts nor ends with a trimmable char. */
  function Trim(s: string): (r: string)
    ensures |r| <= |s|
    ensures r == [] || (!IsTrimmable(r[0]) && !IsTrimmable(r[|r| - 1]))
    ensures r == [] <==> forall k :: 0 <= k < |s| ==> IsTrimmable(s[k])
    ensures exists i, j :: && 0 <= i <= j <= |s| && r == s[i..j]
                           && (forall k :: 0 <= k < i ==> IsTrimmable(s[k]))
                           && (forall k :: j <= k < |s| ==> IsTrimmable(s[k]))
  {
    var l := TrimLeft(s);
    var r := TrimRight(l);
    var i := |s| - |l|;
    var j := i + |r|;
    assert r == s[i..j];
    assert forall k :: j <= k < |s| ==> s[k] == l[k - i];
    r
  }

  /** `s.trim().isEmpty()` */
  predicate IsBlank(s: string) {
    Trim(s) == []
  }

  /** Case folding of `equalsIgnoreCase`, on the ASCII letters. */
  function FoldCase(c: char): char {
    if 'A' <= c <= 'Z' then (c as int + 32) as char else c
  }

  /** Java's `a.equalsIgnoreCase(b)` for a non-null `b`. */
  predicate EqualsIgnoreCase(a: string, b: string) {
    |a| == |b| && forall i :: 0 <= i < |a| ==> FoldCase(a[i]) == FoldCase(b[i])
  }

  /** Java's `a.equalsIgnoreCase(b)` where `b` may be null: a null argument never matches. */
  predicate EqualsIgnoreCaseOrNull(a: string, b: Option<string>) {
    b.Some? && EqualsIgnoreCase(a, b.value)
  }

  predicate IsDigit(c: char) {
    '0' <= c <= '9'
  }

  function DigitChar(d: nat): (c: char)
    requires d < 10
    ensures IsDigit(c) && DigitValue(c) == d
  {
    ('0' as int + d) as char
  }

  function DigitValue(c: char): nat
    requires IsDigit(c)
  {
    c as int - '0' as int
  }

  predicate AllDigits(s: string) {
    forall k :: 0 <= k < |s| ==> IsDigit(s[k])
  }

  /** Decimal digits of a natural number, most significant first, without leading zeros. */
  function NatString(n: nat): (r: string)
    ensures |r| > 0 && AllDigits(r)
  {
    if n < 10 then [DigitChar(n)] else NatString(n / 10) + [DigitChar(n % 10)]
  }

  /** `String.valueOf(n)` in Java, `${n}` in JavaScript. */
  function IntString(n: int): string {
    if n < 0 then "-" + NatString(-n) else NatString(n)
  }

  /** The value of a run of decimal digits, read left to right. */
  function DigitsValue(ds: string): nat
    requires AllDigits(ds)
  {
    if |ds| == 0 then 0 else DigitsValue(ds[..|ds| - 1]) * 10 + DigitValue(ds[|ds| - 1])
  }

  /** The longest prefix of `s` made of decimal digits. */
  function DigitPrefix(s: string): (r: string)
    ensures |r| <= |s| && r == s[..|r|] && AllDigits(r)
    ensures |r| == |s| || !IsDigit(s[|r|])
  {
    if |s| > 0 && IsDigit(s[0]) then [s[0]] + DigitPrefix(s[1..]) else []
  }

  /**
   * JavaScript's `parseInt(s)` on decimal input: an optional sign followed by
   * the longest run of digits; anything after the run is ignored. `None`
   * stands for NaN, the result when no digit follows the sign.
   */
  function ParseInt(s: string): (r: Option<int>)
    ensures r.None? <==> DigitPrefix(if |s| > 0 && (s[0] == '-' || s[0] == '+') then s[1..] else s) == []
  {
    if |s| > 0 && (s[0] == '-' || s[0] == '+') then
      var ds := DigitPrefix(s[1..]);
      var v: int := DigitsValue(ds);
      if ds == [] then None else Some(if s[0] == '-' then -v else v)
    else
      var ds := DigitPrefix(s);
      if ds == [] then None else Some(DigitsValue(ds))
  }

  lemma {:induction false} DigitPrefixOfDigits(s: string)
    requires AllDigits(s)
    ensures DigitPrefix(s) == s
  {
    if |s| > 0 {
      DigitPrefixOfDigits(s[1..]);
      assert [s[0]] + s[1..] == s;
    }
  }

  lemma {:induction false} NatStringValue(n: nat)
    ensures DigitsValue(NatString(n)) == n
  {
    if n >= 10 {
      NatStringValue(n / 10);
      var ds := NatString(n);
      assert ds[..|ds| - 1] == NatString(n / 10);
    }
  }

  /** Rendering an integer in decimal and reading it back with `parseInt` gives the integer. */
  lemma ParseIntString(n: int)
    ensures ParseInt(IntString(n)) == Some(n)
  {
    var m: nat := if n < 0 then -n else n;
    var ds := NatString(m);
    DigitPrefixOfDigits(ds);
    NatStringValue(m);
    if n < 0 {
      assert IntString(n)[1..] == ds;
    } else {
      assert IntString(n) == ds;
      assert ds[0] != '-' && ds[0] != '+';
    }
  }

  /** The backend's `toRoman`: I to IV for the four unit numbers, plain decimal otherwise. */
  function ToRoman(n: int): (r: string)
    ensures 1 <= n <= 4 ==> |r| > 0 && forall k :: 0 <= k < |r| ==> r[k] in {'I', 'V'}
    ensures !(1 <= n <= 4) ==> ParseInt(r) == Some(n)
    ensures 1 <= n <= 4 ==> r == ["I", "II", "III", "IV"][n - 1]
    ensures !(1 <= n <= 4) ==> r == IntString(n)
  {
    ParseIntString(n);
    match n
    case 1 => "I"
    case 2 => "II"
    case 3 => "III"
    case 4 => "IV"
    case _ => IntString(n)
  }
}
