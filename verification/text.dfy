/** Text helpers shared by the reconciliation engine: whitespace stripping,
    ASCII case mapping, substring search, decimal rendering of naturals and the
    two-digit padding used by the claim-number formulas. Strings are `seq<char>`;
    only the ASCII subset of Python's and Excel's text rules is modelled. */
module Text {

  /** Python's `str.isspace` restricted to ASCII: the characters `str.strip()`
      removes and the regular expression class `\s` matches. */
  predicate IsSpace(c: char) {
    c == ' ' || c == '\t' || c == '\n' || c == '\r' || c == '\U{0B}' || c == '\U{0C}'
    || ('\U{1C}' <= c <= '\U{1F}')
  }

  predicate IsDigit(c: char) {
    '0' <= c <= '9'
  }

  predicate AllDigits(s: string) {
    forall i :: 0 <= i < |s| ==> IsDigit(s[i])
  }

  predicate AllSpace(s: string) {
    forall i :: 0 <= i < |s| ==> IsSpace(s[i])
  }

  /** Number of leading whitespace characters. */
  function LeadingSpace(s: string): (n: nat)
    ensures n <= |s|
    ensures forall i :: 0 <= i < n ==> IsSpace(s[i])
    ensures n == |s| || !IsSpace(s[n])
  {
    if |s| == 0 || !IsSpace(s[0]) then 0
    else
      var k := LeadingSpace(s[1..]);
      assert forall i :: 1 <= i < k + 1 ==> s[i] == s[1..][i - 1];
      1 + k
  }

  /** Number of trailing whitespace characters. */
  function TrailingSpace(s: string): (n: nat)
    ensures n <= |s|
    ensures forall i :: |s| - n <= i < |s| ==> IsSpace(s[i])
    ensures n == |s| || !IsSpace(s[|s| - n - 1])
  {
    if |s| == 0 || !IsSpace(s[|s| - 1]) then 0
    else
      var k := TrailingSpace(s[..|s| - 1]);
      assert forall i :: |s| - 1 - k <= i < |s| - 1 ==> s[i] == s[..|s| - 1][i];
      1 + k
  }

  /** `r` sits at offset `i` of `s` with only whitespace around it. */
  predicate StrippedAt(s: string, r: string, i: int) {
    0 <= i <= |s| - |r| && s[i..i + |r|] == r && AllSpace(s[..i]) && AllSpace(s[i + |r|..])
  }

  /** Python's `str.strip()`: the infix of `s` left after removing the
      whitespace at both ends. */
  function Strip(s: string): (r: string)
    ensures |r| <= |s|
    ensures r == [] || (!IsSpace(r[0]) && !IsSpace(r[|r| - 1]))
    ensures StrippedAt(s, r, LeadingSpace(s))
  {
    var a := LeadingSpace(s);
    var b := TrailingSpace(s[a..]);
    StripSlices(s, a, b);
    s[a..|s| - b]
  }

  /** The infix between the leading and the trailing whitespace. */
  lemma StripSlices(s: string, a: nat, b: nat)
    requires a == LeadingSpace(s) && b == TrailingSpace(s[a..])
    ensures a <= |s| - b
    ensures var r := s[a..|s| - b];
            (r == [] || (!IsSpace(r[0]) && !IsSpace(r[|r| - 1]))) && StrippedAt(s, r, a)
  {
    LeadingAllSpace(s, a);
    TrailingAllSpace(s, a, b);
    StripEnds(s, a, b);
  }

  lemma LeadingAllSpace(s: string, a: nat)
    requires a == LeadingSpace(s)
    ensures AllSpace(s[..a])
  {
    forall i | 0 <= i < a ensures IsSpace(s[..a][i]) {
      assert s[..a][i] == s[i];
    }
  }

  lemma TrailingAllSpace(s: string, a: nat, b: nat)
    requires a <= |s| && b == TrailingSpace(s[a..])
    ensures a <= |s| - b && AllSpace(s[|s| - b..])
  {
    var t := s[a..];
    var e := t[|t| - b..];
    assert s[|s| - b..] == e;
    forall i | 0 <= i < b ensures IsSpace(e[i]) {
      assert e[i] == t[|t| - b + i];
    }
  }

  lemma StripEnds(s: string, a: nat, b: nat)
    requires a == LeadingSpace(s) && b == TrailingSpace(s[a..])
    ensures a <= |s| - b
    ensures var r := s[a..|s| - b];
            r == [] || (!IsSpace(r[0]) && !IsSpace(r[|r| - 1]))
  {
    var t := s[a..];
    if a < |s| - b {
      assert s[a..|s| - b][0] == s[a];
      assert s[a..|s| - b][|s| - b - a - 1] == t[|t| - b - 1];
    }
  }

  /** A string without whitespace at either end is its own stripped form. */
  lemma StripClean(s: string)
    requires s == [] || (!IsSpace(s[0]) && !IsSpace(s[|s| - 1]))
    ensures Strip(s) == s
  {
    var a := LeadingSpace(s);
    assert a == 0;
    assert s[a..] == s;
    var b := TrailingSpace(s);
    assert b == 0;
  }

  /** Stripping is idempotent. */
  lemma StripIdempotent(s: string)
    ensures Strip(Strip(s)) == Strip(s)
  {
    StripClean(Strip(s));
  }

  function UpperChar(c: char): (u: char)
    ensures 'a' <= c <= 'z' ==> u != c && 'A' <= u <= 'Z' && u as int == c as int - 32
    ensures !('a' <= c <= 'z') ==> u == c
  {
    if 'a' <= c <= 'z' then (c as int - 'a' as int + 'A' as int) as char else c
  }

  function LowerChar(c: char): (l: char)
    ensures 'A' <= c <= 'Z' ==> l != c && 'a' <= l <= 'z' && l as int == c as int + 32
    ensures !('A' <= c <= 'Z') ==> l == c
  {
    if 'A' <= c <= 'Z' then (c as int - 'A' as int + 'a' as int) as char else c
  }

  /** Python's `str.upper()` on ASCII letters. */
  function Upper(s: string): (r: string)
    ensures |r| == |s|
    ensures forall i :: 0 <= i < |s| ==> r[i] == UpperChar(s[i])
  {
    seq(|s|, i requires 0 <= i < |s| => UpperChar(s[i]))
  }

  /** ASCII case folding to lower case, used for case-insensitive matching. */
  function Lower(s: string): (r: string)
    ensures |r| == |s|
    ensures forall i :: 0 <= i < |s| ==> r[i] == LowerChar(s[i])
  {
    seq(|s|, i requires 0 <= i < |s| => LowerChar(s[i]))
  }

  predicate IsPrefix(w: string, s: string) {
    |w| <= |s| && s[..|w|] == w
  }

  /** Python's `w in s` for strings: `w` occurs as a contiguous infix of `s`. */
  predicate Contains(s: string, w: string)
    decreases |s|
  {
    IsPrefix(w, s) || (|s| > 0 && Contains(s[1..], w))
  }

  /** `w` occurs in `s` at offset `i`. */
  predicate InfixAt(s: string, w: string, i: int) {
    0 <= i && i + |w| <= |s| && s[i..i + |w|] == w
  }

  /** `Contains` agrees with the positional definition of an infix. */
  lemma {:induction false} ContainsIff(s: string, w: string)
    ensures Contains(s, w) <==> exists i :: InfixAt(s, w, i)
    decreases |s|
  {
    if IsPrefix(w, s) {
      assert InfixAt(s, w, 0);
    } else if |s| > 0 {
      ContainsIff(s[1..], w);
      if Contains(s[1..], w) {
        var i :| InfixAt(s[1..], w, i);
        assert s[i + 1..i + 1 + |w|] == w;
        assert InfixAt(s, w, i + 1);
      }
      if exists i :: InfixAt(s, w, i) {
        var i :| InfixAt(s, w, i);
        assert i != 0;
        assert s[1..][i - 1..i - 1 + |w|] == w;
        assert InfixAt(s[1..], w, i - 1);
      }
    } else {
      assert |w| > 0;
    }
  }

  /** A word longer than the text does not occur in it. */
  lemma ContainsShorter(s: string, w: string)
    requires |s| < |w|
    ensures !Contains(s, w)
  {
    ContainsIff(s, w);
  }

  /** An infix of an infix is an infix. */
  lemma ContainsTransitive(s: string, w: string, v: string)
    requires Contains(s, w) && Contains(w, v)
    ensures Contains(s, v)
  {
    ContainsIff(s, w);
    ContainsIff(w, v);
    var i :| InfixAt(s, w, i);
    var j :| InfixAt(w, v, j);
    assert forall k :: 0 <= k < |v| ==> v[k] == w[j + k] == s[i + j + k];
    assert s[i + j..i + j + |v|] == v;
    assert InfixAt(s, v, i + j);
    ContainsIff(s, v);
  }

  /** `Contains(a + b + c, b)`: a string contains each of its infixes. */
  lemma ContainsMiddle(a: string, b: string, c: string)
    ensures Contains(a + b + c, b)
  {
    assert InfixAt(a + b + c, b, |a|);
    ContainsIff(a + b + c, b);
  }

  /** Python's `s.replace(x, "")` for a single character `x`. */
  function RemoveChar(s: string, x: char): (r: string)
    ensures |r| <= |s|
    ensures x !in r
    ensures forall c :: c != x ==> (c in r <==> c in s)
  {
    if |s| == 0 then []
    else (if s[0] == x then [] else [s[0]]) + RemoveChar(s[1..], x)
  }

  /** Removal works piecewise, so the characters it keeps stay in order. */
  lemma {:induction false} RemoveCharAppend(a: string, b: string, x: char)
    ensures RemoveChar(a + b, x) == RemoveChar(a, x) + RemoveChar(b, x)
  {
    if |a| > 0 {
      assert (a + b)[0] == a[0];
      assert (a + b)[1..] == a[1..] + b;
      RemoveCharAppend(a[1..], b, x);
    } else {
      assert a + b == b;
    }
  }

  /** One character is dropped when it is `x` and kept otherwise. */
  lemma RemoveCharOne(c: char, x: char)
    ensures RemoveChar([c], x) == if c == x then [] else [c]
  {
    assert [c][1..] == [];
  }

  /** Python's `sep.join(parts)`. */
  function Join(sep: string, parts: seq<string>): (r: string)
    ensures |parts| == 1 ==> r == parts[0]
    ensures |parts| == 0 ==> r == []
  {
    if |parts| == 0 then []
    else if |parts| == 1 then parts[0]
    else parts[0] + sep + Join(sep, parts[1..])
  }

  function DigitChar(d: nat): (c: char)
    requires d < 10
    ensures IsDigit(c)
  {
    ('0' as int + d) as char
  }

  function DigitValue(c: char): (d: nat)
    requires IsDigit(c)
    ensures d < 10 && DigitChar(d) == c
  {
    c as int - '0' as int
  }

  /** The value of a string of decimal digits (the empty string reads as 0). */
  function DigitsValue(s: string): nat
    requires AllDigits(s)
  {
    if |s| == 0 then 0 else 10 * DigitsValue(s[..|s| - 1]) + DigitValue(s[|s| - 1])
  }

  /** The decimal text of a natural number, as Python's `str` and Excel's `&`
      write it: no sign, no leading zero. */
  function NatToString(n: nat): (r: string)
    ensures |r| >= 1 && AllDigits(r)
    ensures (n < 10) <==> |r| == 1
    ensures 10 <= n < 100 ==> |r| == 2
  {
    if n < 10 then [DigitChar(n)]
    else NatToString(n / 10) + [DigitChar(n % 10)]
  }

  /** The numeral reads back as the number, and has no leading zero. */
  lemma {:induction false} NatToStringValue(n: nat)
    ensures DigitsValue(NatToString(n)) == n
    ensures |NatToString(n)| > 1 ==> NatToString(n)[0] != '0'
  {
    if n >= 10 {
      var p := NatToString(n / 10);
      var r := p + [DigitChar(n % 10)];
      assert r[..|r| - 1] == p;
      NatToStringValue(n / 10);
      assert r[0] == p[0];
      if |p| == 1 {
        assert n / 10 >= 1;
      }
    }
  }

  /** The decimal text of an integer with a leading '-' when negative. */
  function IntToString(i: int): (r: string)
    ensures i >= 0 ==> r == NatToString(i)
    ensures i < 0 ==> r == "-" + NatToString(-i)
  {
    if i < 0 then "-" + NatToString(-i) else NatToString(i)
  }

  /** Excel's `IF(LEN(n)=1,"0"&n,n)`: pad a one-digit number to two characters. */
  function Pad2(n: nat): (r: string)
    ensures AllDigits(r)
    ensures n < 100 ==> |r| == 2
    ensures n >= 10 ==> r == NatToString(n)
  {
    var s := NatToString(n);
    if |s| == 1 then "0" + s else s
  }

  /** The padded numeral still reads back as the number. */
  lemma Pad2Value(n: nat)
    ensures DigitsValue(Pad2(n)) == n
  {
    NatToStringValue(n);
    if n < 10 {
      var r := Pad2(n);
      assert r[..1] == "0";
    }
  }

  /** Excel's `RIGHT(text, k)`: the last `k` characters, or all of them. */
  function Right(s: string, k: nat): (r: string)
    ensures |r| == if |s| <= k then |s| else k
    ensures r == s[|s| - |r|..]
  {
    if |s| <= k then s else s[|s| - k..]
  }

  /** Excel's `RIGHT(YEAR(d), 2)`: the last two characters of the year's text. */
  function Year2(y: nat): string {
    Right(NatToString(y), 2)
  }

  lemma NatToStringLast(n: nat)
    requires n >= 10
    ensures NatToString(n) == NatToString(n / 10) + [DigitChar(n % 10)]
  {
  }

  /** The last two characters of a numeral of at least two digits are its
      tens and units digits. */
  lemma Right2OfNat(y: nat)
    requires y >= 10
    ensures Right(NatToString(y), 2) == [DigitChar((y / 10) % 10), DigitChar(y % 10)]
  {
    NatToStringLast(y);
    var p := NatToString(y / 10);
    if y / 10 >= 10 {
      NatToStringLast(y / 10);
      assert y / 10 / 10 == y / 100;
    } else {
      assert p == [DigitChar(y / 10)];
    }
  }

  lemma CenturyDigits(y: nat)
    ensures (y / 10) % 10 == (y % 100) / 10
    ensures y % 10 == (y % 100) % 10
  {
    var q := y / 100;
    var m := y % 100;
    assert y == 100 * q + m;
    assert y == 10 * (10 * q + m / 10) + m % 10;
  }

  lemma Pad2Digits(m: nat)
    requires m < 100
    ensures Pad2(m) == [DigitChar(m / 10), DigitChar(m % 10)]
  {
    if m >= 10 {
      NatToStringLast(m);
      assert NatToString(m / 10) == [DigitChar(m / 10)];
    }
  }

  /** For any year of at least two digits, `RIGHT(YEAR, 2)` is the two-digit
      padded year modulo 100: a two-character numeral whose value is `y % 100`. */
  lemma Year2IsPaddedCentury(y: nat)
    requires y >= 10
    ensures Year2(y) == Pad2(y % 100)
    ensures |Year2(y)| == 2 && AllDigits(Year2(y)) && DigitsValue(Year2(y)) == y % 100
  {
    Right2OfNat(y);
    Pad2Digits(y % 100);
    CenturyDigits(y);
    Pad2Value(y % 100);
  }
}
