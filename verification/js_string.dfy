/** The JavaScript string operations the pipeline uses, on strings of
    Unicode scalar values: trim, ASCII lower-casing, prefix tests, removal
    of non-digits, parseInt of a digit string, String() of an integer, and
    the default sort order (UTF-16 code units, section 7.2.13 of
    ECMA-262, IsLessThan on strings). */
module JsString {

  /** WhiteSpace and LineTerminator code points, which String.prototype.trim
      removes (sections 12.2 and 12.3 of ECMA-262; Zs listed by value). */
  predicate IsWhitespace(c: char) {
    var n := c as int;
    n == 0x09 || n == 0x0A || n == 0x0B || n == 0x0C || n == 0x0D || n == 0x20
    || n == 0xA0 || n == 0x1680 || (0x2000 <= n <= 0x200A) || n == 0x2028
    || n == 0x2029 || n == 0x202F || n == 0x205F || n == 0x3000 || n == 0xFEFF
  }

  predicate AllWhitespace(s: string) {
    forall i :: 0 <= i < |s| ==> IsWhitespace(s[i])
  }

  function TrimStart(s: string): (r: string)
    ensures |r| <= |s| && r == s[|s| - |r|..]
    ensures AllWhitespace(s[..|s| - |r|])
    ensures |r| > 0 ==> !IsWhitespace(r[0])
  {
    if |s| > 0 && IsWhitespace(s[0]) then TrimStart(s[1..]) else s
  }

  function TrimEnd(s: string): (r: string)
    ensures |r| <= |s| && r == s[..|r|]
    ensures AllWhitespace(s[|r|..])
    ensures |r| > 0 ==> !IsWhitespace(r[|r| - 1])
  {
    if |s| > 0 && IsWhitespace(s[|s| - 1]) then TrimEnd(s[..|s| - 1]) else s
  }

  /** String.prototype.trim: the longest middle slice that neither starts
      nor ends with white space. */
  function Trim(s: string): (r: string)
    ensures |r| > 0 ==> !IsWhitespace(r[0]) && !IsWhitespace(r[|r| - 1])
  {
    TrimEnd(TrimStart(s))
  }

  lemma {:induction false} TrimStartPadded(w: string, x: string)
    requires AllWhitespace(w)
    requires |x| > 0 ==> !IsWhitespace(x[0])
    ensures TrimStart(w + x) == x
    decreases |w|
  {
    if |w| > 0 {
      assert (w + x)[1..] == w[1..] + x;
      TrimStartPadded(w[1..], x);
    } else {
      assert w + x == x;
    }
  }

  lemma {:induction false} TrimEndPadded(x: string, w: string)
    requires AllWhitespace(w)
    requires |x| > 0 ==> !IsWhitespace(x[|x| - 1])
    ensures TrimEnd(x + w) == x
    decreases |w|
  {
    if |w| > 0 {
      assert (x + w)[..|x + w| - 1] == x + w[..|w| - 1];
      TrimEndPadded(x, w[..|w| - 1]);
    } else {
      assert x + w == x;
    }
  }

  /** Trim removes exactly the white-space padding around a text that has
      none of its own at either end. */
  lemma TrimPadded(w1: string, x: string, w2: string)
    requires AllWhitespace(w1) && AllWhitespace(w2)
    requires |x| > 0 ==> !IsWhitespace(x[0]) && !IsWhitespace(x[|x| - 1])
    ensures Trim(w1 + x + w2) == x
  {
    if |x| > 0 {
      assert w1 + x + w2 == w1 + (x + w2);
      assert (x + w2)[0] == x[0];
      TrimStartPadded(w1, x + w2);
      TrimEndPadded(x, w2);
    } else {
      assert w1 + x + w2 == w1 + w2;
      assert TrimStart(w1 + w2) == "" by {
        TrimStartEmpty(w1 + w2);
      }
    }
  }

  /** A text without white space at either end is its own trim. */
  lemma TrimUnpadded(s: string)
    requires |s| > 0 ==> !IsWhitespace(s[0]) && !IsWhitespace(s[|s| - 1])
    ensures Trim(s) == s
  {
    TrimPadded("", s, "");
    assert "" + s + "" == s;
  }

  lemma TrimStartEmpty(s: string)
    requires AllWhitespace(s)
    ensures TrimStart(s) == ""
  {
  }

  /** Trimming twice trims nothing more. */
  lemma TrimIdempotent(s: string)
    ensures Trim(Trim(s)) == Trim(s)
  {
    var t := Trim(s);
    assert t == "" + t + "";
    TrimPadded("", t, "");
  }

  function LowerChar(c: char): (l: char) {
    if 'A' <= c <= 'Z' then (c as int + 32) as char else c
  }

  /** String.prototype.toLowerCase restricted to the ASCII letters. */
  function ToLowerAscii(s: string): (r: string)
    ensures |r| == |s|
    ensures forall i :: 0 <= i < |s| ==> r[i] == LowerChar(s[i])
  {
    seq(|s|, i requires 0 <= i < |s| => LowerChar(s[i]))
  }

  /** A word of lower-case ASCII letters only. */
  predicate LowerAsciiWord(s: string) {
    forall i :: 0 <= i < |s| ==> 'a' <= s[i] <= 'z'
  }

  /** Such a word is unchanged by lower-casing and by trimming. */
  lemma LowerAsciiWordIsOwnText(s: string)
    requires LowerAsciiWord(s)
    ensures ToLowerAscii(s) == s
    ensures Trim(s) == s
  {
    LowerAsciiWordIsLower(s);
    LowerAsciiWordIsTrimmed(s);
  }

  lemma LowerAsciiWordIsLower(s: string)
    requires LowerAsciiWord(s)
    ensures ToLowerAscii(s) == s
  {
    assert forall i :: 0 <= i < |s| ==> ToLowerAscii(s)[i] == s[i];
  }

  lemma LowerAsciiWordIsTrimmed(s: string)
    requires LowerAsciiWord(s)
    ensures Trim(s) == s
  {
    if |s| > 0 {
      assert !IsWhitespace(s[0]);
      assert TrimStart(s) == s;
      assert !IsWhitespace(s[|s| - 1]);
      assert TrimEnd(s) == s;
    }
  }

  lemma ToLowerAsciiAppend(a: string, b: string)
    ensures ToLowerAscii(a + b) == ToLowerAscii(a) + ToLowerAscii(b)
  {
  }

  /** Lowering twice is lowering once. */
  lemma ToLowerAsciiIdempotent(s: string)
    ensures ToLowerAscii(ToLowerAscii(s)) == ToLowerAscii(s)
  {
    var l := ToLowerAscii(s);
    assert forall i :: 0 <= i < |l| ==> LowerChar(l[i]) == l[i];
  }

  /** White space has no upper-case letters to lower. */
  lemma ToLowerAsciiWhitespace(w: string)
    requires AllWhitespace(w)
    ensures ToLowerAscii(w) == w
  {
  }

  predicate StartsWith(s: string, prefix: string) {
    |prefix| <= |s| && s[..|prefix|] == prefix
  }

  lemma StartsWithSelf(s: string)
    ensures StartsWith(s, s)
  {
    assert s[..|s|] == s;
  }

  /** Text appended after a string keeps the string's prefixes. */
  lemma StartsWithAppend(s: string, prefix: string, t: string)
    requires StartsWith(s, prefix)
    ensures StartsWith(s + t, prefix)
  {
    assert (s + t)[..|prefix|] == s[..|prefix|];
  }

  predicate IsDigit(c: char) {
    '0' <= c <= '9'
  }

  predicate AllDigits(s: string) {
    forall i :: 0 <= i < |s| ==> IsDigit(s[i])
  }

  /** `s.replace(/\D/g, '')`: the digit characters of `s`, in order. */
  function KeepDigits(s: string): (r: string)
    ensures AllDigits(r)
    ensures |r| <= |s|
  {
    if |s| == 0 then ""
    else KeepDigits(s[..|s| - 1]) + (if IsDigit(s[|s| - 1]) then [s[|s| - 1]] else "")
  }

  lemma {:induction false} KeepDigitsAppend(a: string, b: string)
    ensures KeepDigits(a + b) == KeepDigits(a) + KeepDigits(b)
    decreases |b|
  {
    if |b| == 0 {
      assert a + b == a;
    } else {
      assert (a + b)[..|a + b| - 1] == a + b[..|b| - 1];
      KeepDigitsAppend(a, b[..|b| - 1]);
    }
  }

  predicate NoDigits(s: string) {
    forall i :: 0 <= i < |s| ==> !IsDigit(s[i])
  }

  lemma NoDigitsKept(s: string)
    requires NoDigits(s)
    ensures KeepDigits(s) == ""
  {
  }

  /** Digits between digit-free texts are exactly what is kept. */
  lemma KeepDigitsAround(before: string, digits: string, after: string)
    requires NoDigits(before) && AllDigits(digits) && NoDigits(after)
    ensures KeepDigits(before + digits + after) == digits
  {
    KeepDigitsAppend(before + digits, after);
    KeepDigitsAppend(before, digits);
    KeepDigitsOfDigits(digits);
    NoDigitsKept(before);
    NoDigitsKept(after);
  }

  /** A string of digits is left as it is. */
  lemma {:induction false} KeepDigitsOfDigits(s: string)
    requires AllDigits(s)
    ensures KeepDigits(s) == s
  {
    if |s| > 0 {
      KeepDigitsOfDigits(s[..|s| - 1]);
      assert s == s[..|s| - 1] + [s[|s| - 1]];
    }
  }

  /** The number a string of decimal digits denotes; the empty string
      gives 0, which is what `parseInt("") || 0` yields. */
  function DigitsValue(s: string): (n: nat)
    requires AllDigits(s)
  {
    if |s| == 0 then 0
    else DigitsValue(s[..|s| - 1]) * 10 + (s[|s| - 1] as int - '0' as int)
  }

  function DigitChar(d: nat): (c: char)
    requires d < 10
    ensures IsDigit(c) && c as int - '0' as int == d
  {
    ('0' as int + d) as char
  }

  /** String(n) for a non-negative integer: decimal, no leading zeros. */
  function NatToString(n: nat): (s: string)
    ensures AllDigits(s) && |s| > 0
    ensures |s| > 1 ==> s[0] != '0'
  {
    if n < 10 then [DigitChar(n)] else NatToString(n / 10) + [DigitChar(n % 10)]
  }

  /** String(n) for any integer. */
  function IntToString(n: int): (s: string) {
    if n < 0 then "-" + NatToString(-n) else NatToString(n)
  }

  /** Reading back the decimal text of a number gives the number. */
  lemma {:induction false} DigitsValueOfNatToString(n: nat)
    ensures DigitsValue(NatToString(n)) == n
  {
    if n >= 10 {
      var s := NatToString(n);
      assert s[..|s| - 1] == NatToString(n / 10);
      DigitsValueOfNatToString(n / 10);
    }
  }

  /** Where a character's UTF-16 encoding sorts: code points below U+D800
      are one unit below every surrogate, code points above U+FFFF start
      with a surrogate, code points U+E000..U+FFFF are one unit above every
      surrogate. */
  function Utf16Rank(c: char): (rank: int) {
    var n := c as int;
    if n < 0xD800 then n else if n < 0x1_0000 then n + 0x11_0000 else n
  }

  /** The default sort's string comparison: a is not after b in UTF-16
      code-unit order. */
  predicate CodeUnitLe(a: string, b: string) {
    if |a| == 0 then true
    else if |b| == 0 then false
    else if a[0] != b[0] then Utf16Rank(a[0]) < Utf16Rank(b[0])
    else CodeUnitLe(a[1..], b[1..])
  }

  lemma RankInjective(a: char, b: char)
    requires a != b
    ensures Utf16Rank(a) != Utf16Rank(b)
  {
  }

  lemma {:induction false} CodeUnitLeTotal(a: string, b: string)
    ensures CodeUnitLe(a, b) || CodeUnitLe(b, a)
  {
    if |a| > 0 && |b| > 0 {
      if a[0] != b[0] {
        RankInjective(a[0], b[0]);
      } else {
        CodeUnitLeTotal(a[1..], b[1..]);
      }
    }
  }

  lemma {:induction false} CodeUnitLeAntisymmetric(a: string, b: string)
    requires CodeUnitLe(a, b) && CodeUnitLe(b, a)
    ensures a == b
  {
    if |a| > 0 && |b| > 0 {
      if a[0] == b[0] {
        CodeUnitLeAntisymmetric(a[1..], b[1..]);
        assert a == [a[0]] + a[1..] && b == [b[0]] + b[1..];
      }
    }
  }

  lemma {:induction false} CodeUnitLeTransitive(a: string, b: string, c: string)
    requires CodeUnitLe(a, b) && CodeUnitLe(b, c)
    ensures CodeUnitLe(a, c)
  {
    if |a| > 0 && |b| > 0 && |c| > 0 {
      if a[0] == b[0] && b[0] == c[0] {
        CodeUnitLeTransitive(a[1..], b[1..], c[1..]);
      }
    }
  }

  /** The UTF-16 code units of one character. */
  function Utf16Units(c: char): (u: seq<int>)
    ensures 1 <= |u| <= 2
  {
    var n := c as int;
    if n < 0x1_0000 then [n]
    else [0xD800 + (n - 0x1_0000) / 0x400, 0xDC00 + (n - 0x1_0000) % 0x400]
  }

  /** The UTF-16 code units of a string, as JavaScript stores it. */
  function Utf16(s: string): (units: seq<int>) {
    if |s| == 0 then [] else Utf16Units(s[0]) + Utf16(s[1..])
  }

  /** Lexicographic order on code-unit sequences, a proper prefix first:
      the comparison IsLessThan performs on two strings. */
  predicate UnitsLe(a: seq<int>, b: seq<int>) {
    if |a| == 0 then true
    else if |b| == 0 then false
    else if a[0] != b[0] then a[0] < b[0]
    else UnitsLe(a[1..], b[1..])
  }

  lemma {:induction false} UnitsLeCommonPrefix(p: seq<int>, a: seq<int>, b: seq<int>)
    ensures UnitsLe(p + a, p + b) == UnitsLe(a, b)
    decreases |p|
  {
    if |p| > 0 {
      assert (p + a)[1..] == p[1..] + a;
      assert (p + b)[1..] == p[1..] + b;
      UnitsLeCommonPrefix(p[1..], a, b);
    } else {
      assert p + a == a && p + b == b;
    }
  }

  /** Two different characters' encodings first differ at a unit whose
      order agrees with their ranks. */
  lemma UnitsOfDistinctChars(x: char, y: char, a: seq<int>, b: seq<int>)
    requires x != y
    ensures UnitsLe(Utf16Units(x) + a, Utf16Units(y) + b) == (Utf16Rank(x) < Utf16Rank(y))
  {
    var ux, uy := Utf16Units(x), Utf16Units(y);
    var n, m := x as int, y as int;
    if n >= 0x1_0000 && m >= 0x1_0000 && ux[0] == uy[0] {
      assert (ux + a)[1..] == [ux[1]] + a;
      assert (uy + b)[1..] == [uy[1]] + b;
      assert (n - 0x1_0000) / 0x400 == (m - 0x1_0000) / 0x400;
      assert ux[1] != uy[1];
    }
  }

  /** The rank-wise comparison is the UTF-16 code-unit comparison. */
  lemma {:induction false} CodeUnitLeIsUtf16Order(a: string, b: string)
    ensures CodeUnitLe(a, b) == UnitsLe(Utf16(a), Utf16(b))
  {
    if |a| == 0 {
    } else if |b| == 0 {
      assert |Utf16(a)| > 0;
    } else if a[0] == b[0] {
      UnitsLeCommonPrefix(Utf16Units(a[0]), Utf16(a[1..]), Utf16(b[1..]));
      CodeUnitLeIsUtf16Order(a[1..], b[1..]);
    } else {
      UnitsOfDistinctChars(a[0], b[0], Utf16(a[1..]), Utf16(b[1..]));
    }
  }
}
