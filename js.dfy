/**
 * The JavaScript built-ins the app's rules rely on: `String.prototype.trim`,
 * `toLowerCase`, `startsWith`, `Math.round` of a ratio, and turning an integer
 * into its decimal text.
 */
module Js {

  /** The WhiteSpace and LineTerminator code points that `trim` removes. */
  predicate IsSpace(c: char) {
    c == ' ' || c == '\t' || c == '\n' || c == '\r' || c == '\U{000B}' || c == '\U{000C}'
    || c == '\U{00A0}' || c == '\U{1680}' || ('\U{2000}' <= c <= '\U{200A}')
    || c == '\U{2028}' || c == '\U{2029}' || c == '\U{202F}' || c == '\U{205F}'
    || c == '\U{3000}' || c == '\U{FEFF}'
  }

  /** `s` without its leading white space. */
  function TrimStart(s: string): (r: string)
    ensures |r| <= |s| && r == s[|s| - |r|..]
    ensures forall k :: 0 <= k < |s| - |r| ==> IsSpace(s[k])
    ensures r != [] ==> !IsSpace(r[0])
  {
    if s != [] && IsSpace(s[0]) then TrimStart(s[1..]) else s
  }

  /** `s` without its trailing white space. */
  function TrimEnd(s: string): (r: string)
    ensures |r| <= |s| && r == s[..|r|]
    ensures forall k :: |r| <= k < |s| ==> IsSpace(s[k])
    ensures r != [] ==> !IsSpace(r[|r| - 1])
  {
    if s != [] && IsSpace(s[|s| - 1]) then TrimEnd(s[..|s| - 1]) else s
  }

  /** `r` is the part of `s` that starts at index `k`. */
  predicate Infix(s: string, r: string, k: int) {
    0 <= k && k + |r| <= |s| && r == s[k..k + |r|]
  }

  /** `s.trim()`: the longest infix of `s` that starts and ends with a non-space. */
  function Trim(s: string): (r: string)
    ensures r != [] ==> !IsSpace(r[0]) && !IsSpace(r[|r| - 1])
    ensures var k := |s| - |TrimStart(s)|;
      && Infix(s, r, k)
      && (forall j :: 0 <= j < k ==> IsSpace(s[j]))
      && (forall j :: k + |r| <= j < |s| ==> IsSpace(s[j]))
  {
    var t := TrimStart(s);
    var r := TrimEnd(t);
    TrimInfix(s, t, r);
    assert r != [] ==> r[0] == t[0];
    r
  }

  lemma TrimInfix(s: string, t: string, r: string)
    requires |t| <= |s| && t == s[|s| - |t|..]
    requires |r| <= |t| && r == t[..|r|]
    requires forall j :: |r| <= j < |t| ==> IsSpace(t[j])
    ensures Infix(s, r, |s| - |t|)
    ensures forall j :: |s| - |t| + |r| <= j < |s| ==> IsSpace(s[j])
  {
    var k := |s| - |t|;
    forall j | k + |r| <= j < |s| ensures IsSpace(s[j]) {
      assert s[j] == t[j - k];
    }
  }

  /** Trimming a string that is all white space leaves the empty string. */
  lemma {:induction false} TrimBlank(s: string)
    requires AllSpace(s)
    ensures Trim(s) == []
  {
    if s != [] {
      TrimBlank(s[1..]);
    }
  }

  /** A string with a non-space at both ends is its own trim. */
  lemma TrimTrimmed(s: string)
    requires s != [] ==> !IsSpace(s[0]) && !IsSpace(s[|s| - 1])
    ensures Trim(s) == s
  {
  }

  /** All of `s` is white space. */
  predicate AllSpace(s: string) {
    forall k :: 0 <= k < |s| ==> IsSpace(s[k])
  }

  /** White space in front of a string is trimmed away again. */
  lemma {:induction false} TrimStartSkips(a: string, x: string)
    requires AllSpace(a)
    ensures TrimStart(a + x) == TrimStart(x)
  {
    if a == [] {
      assert a + x == x;
    } else {
      assert (a + x)[0] == a[0];
      assert (a + x)[1..] == a[1..] + x;
      TrimStartSkips(a[1..], x);
    }
  }

  /** White space behind a string is trimmed away again. */
  lemma {:induction false} TrimEndSkips(x: string, b: string)
    requires AllSpace(b)
    ensures TrimEnd(x + b) == TrimEnd(x)
  {
    if b == [] {
      assert x + b == x;
    } else {
      var n := |x + b|;
      assert (x + b)[n - 1] == b[|b| - 1];
      assert (x + b)[..n - 1] == x + b[..|b| - 1];
      TrimEndSkips(x, b[..|b| - 1]);
    }
  }

  /** Leading white space is cut the same way whatever is appended behind. */
  lemma {:induction false} TrimStartAppend(s: string, b: string)
    requires AllSpace(b)
    ensures TrimStart(s) != [] ==> TrimStart(s + b) == TrimStart(s) + b
    ensures TrimStart(s) == [] ==> TrimStart(s + b) == []
  {
    if s == [] {
      assert s + b == b;
    } else if IsSpace(s[0]) {
      assert (s + b)[0] == s[0];
      assert (s + b)[1..] == s[1..] + b;
      TrimStartAppend(s[1..], b);
    } else {
      assert (s + b)[0] == s[0];
    }
  }

  /** White space typed around a string does not change its trim. */
  lemma TrimSurrounded(a: string, s: string, b: string)
    requires AllSpace(a) && AllSpace(b)
    ensures Trim(a + s + b) == Trim(s)
  {
    TrimEndStartSurrounded(a, s, b);
    TrimUnfold(a + s + b);
    TrimUnfold(s);
  }

  lemma TrimEndStartSurrounded(a: string, s: string, b: string)
    requires AllSpace(a) && AllSpace(b)
    ensures TrimEnd(TrimStart(a + s + b)) == TrimEnd(TrimStart(s))
  {
    assert a + s + b == a + (s + b);
    TrimStartSkips(a, s + b);
    TrimStartAppend(s, b);
    if TrimStart(s) != [] {
      TrimEndSkips(TrimStart(s), b);
    }
  }

  lemma TrimUnfold(s: string)
    ensures Trim(s) == TrimEnd(TrimStart(s))
  {
  }

  /** `toLowerCase` on one code point: ASCII and Latin-1 capitals. */
  function LowerChar(c: char): (r: char)
    ensures 'A' <= c <= 'Z' ==> r as int == c as int + 32
    ensures '\U{00C0}' <= c <= '\U{00DE}' && c != '\U{00D7}' ==> r as int == c as int + 32
    ensures !('A' <= c <= 'Z') && !('\U{00C0}' <= c <= '\U{00DE}' && c != '\U{00D7}') ==> r == c
  {
    if 'A' <= c <= 'Z' || ('\U{00C0}' <= c <= '\U{00DE}' && c != '\U{00D7}') then
      (c as int + 32) as char
    else c
  }

  /** Lower-casing neither makes nor removes white space. */
  lemma LowerCharKeepsSpace(c: char)
    ensures IsSpace(LowerChar(c)) <==> IsSpace(c)
  {
  }

  function Lower(s: string): (r: string)
    ensures |r| == |s|
    ensures forall i :: 0 <= i < |s| ==> r[i] == LowerChar(s[i])
  {
    seq(|s|, i requires 0 <= i < |s| => LowerChar(s[i]))
  }

  /** Lower-casing twice is lower-casing once. */
  lemma LowerIdempotent(s: string)
    ensures Lower(Lower(s)) == Lower(s)
  {
  }

  /**
   * The `length` of a string: the number of UTF-16 code units, two for a
   * code point above U+FFFF.
   */
  function Utf16Length(s: string): (n: nat)
    ensures |s| <= n <= 2 * |s|
    ensures (forall k :: 0 <= k < |s| ==> s[k] as int <= 0xFFFF) ==> n == |s|
  {
    if s == [] then 0
    else (if s[0] as int <= 0xFFFF then 1 else 2) + Utf16Length(s[1..])
  }

  /** `a.startsWith(p)`. */
  predicate StartsWith(a: string, p: string) {
    |p| <= |a| && a[..|p|] == p
  }

  /**
   * `Math.round(n / d)` for a positive divisor: JavaScript rounds halves up,
   * so the result is the integer nearest to n / d, ties going up.
   */
  function RoundDiv(n: int, d: int): (r: int)
    requires d > 0
    ensures d * (2 * r - 1) <= 2 * n < d * (2 * r + 1)
  {
    (2 * n + d) / (2 * d)
  }

  /** `Math.round(part / whole * 100)`: a percentage. */
  function Percent(part: int, whole: int): (r: int)
    requires whole > 0
    ensures 0 <= part <= whole ==> 0 <= r <= 100
    ensures part == whole ==> r == 100
    ensures part == 0 ==> r == 0
  {
    PercentBounds(part, whole);
    RoundDiv(100 * part, whole)
  }

  lemma PercentBounds(part: int, whole: int)
    requires whole > 0
    ensures var r := RoundDiv(100 * part, whole);
      && (0 <= part <= whole ==> 0 <= r <= 100)
      && (part == whole ==> r == 100)
      && (part == 0 ==> r == 0)
  {
    var r := RoundDiv(100 * part, whole);
    if r < 0 {
      MulMonotone(whole, 2 * r + 1, -1);
    }
    if r > 100 {
      MulMonotone(whole, 201, 2 * r - 1);
    }
    if part == whole && r < 100 {
      MulMonotone(whole, 2 * r + 1, 199);
    }
    if part == 0 && r > 0 {
      MulMonotone(whole, 1, 2 * r - 1);
    }
  }

  lemma MulMonotone(a: int, b: int, c: int)
    requires a >= 0 && b <= c
    ensures a * b <= a * c
  {
  }

  function DigitChar(d: int): char
    requires 0 <= d < 10
  {
    "0123456789"[d]
  }

  /** The decimal digits of a natural number, without leading zeros. */
  function NatToString(n: nat): (r: string)
    ensures r != []
    ensures forall k :: 0 <= k < |r| ==> '0' <= r[k] <= '9'
    ensures r[0] == '0' ==> n == 0 && r == "0"
  {
    if n < 10 then [DigitChar(n)] else NatToString(n / 10) + [DigitChar(n % 10)]
  }

  /** `String(n)` for an integer. */
  function IntToString(n: int): (r: string)
    ensures r != []
    ensures n >= 0 ==> r == NatToString(n)
    ensures n < 0 ==> r == "-" + NatToString(-n)
  {
    if n < 0 then "-" + NatToString(-n) else NatToString(n)
  }

  /** Reads back a string of decimal digits. */
  function ParseNat(s: string): nat
    requires forall k :: 0 <= k < |s| ==> '0' <= s[k] <= '9'
  {
    if s == [] then 0 else 10 * ParseNat(s[..|s| - 1]) + (s[|s| - 1] as int - '0' as int)
  }

  /** Writing a number in decimal and reading it back gives the number. */
  lemma {:induction false} ParseNatToString(n: nat)
    ensures ParseNat(NatToString(n)) == n
  {
    var r := NatToString(n);
    if n >= 10 {
      ParseNatToString(n / 10);
      assert r[..|r| - 1] == NatToString(n / 10);
    }
  }
}
