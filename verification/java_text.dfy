/** The handful of java.lang.String and java.lang.Long operations the
    catalogue relies on: `trim`, `toLowerCase`, `contains`, `isEmpty` and
    decimal rendering of a long. */
module JavaText {

  /** Java's `trim()` removes every leading and trailing character whose
      code point is at most U+0020 (space and all ASCII control characters). */
  predicate IsTrimmed(c: char) {
    c <= ' '
  }

  /** Every character of `s` would be removed by `trim()`. */
  ghost predicate AllTrimmed(s: string) {
    forall k :: 0 <= k < |s| ==> IsTrimmed(s[k])
  }

  /** Number of leading characters `trim()` removes. */
  function LeadingTrimmed(s: string): (n: nat)
    ensures n <= |s|
    ensures forall k :: 0 <= k < n ==> IsTrimmed(s[k])
    ensures n < |s| ==> !IsTrimmed(s[n])
  {
    if |s| == 0 || !IsTrimmed(s[0]) then 0 else 1 + LeadingTrimmed(s[1..])
  }

  /** Number of trailing characters `trim()` removes. */
  function TrailingTrimmed(s: string): (n: nat)
    ensures n <= |s|
    ensures forall k :: |s| - n <= k < |s| ==> IsTrimmed(s[k])
    ensures n < |s| ==> !IsTrimmed(s[|s| - 1 - n])
  {
    if |s| == 0 || !IsTrimmed(s[|s| - 1]) then 0 else 1 + TrailingTrimmed(s[..|s| - 1])
  }

  /** `r` sits at position `i` of `s`, and everything before and after it in
      `s` is made of characters `trim()` removes. */
  ghost predicate TrimmedAt(s: string, r: string, i: int) {
    && 0 <= i && i + |r| <= |s|
    && s[i..i + |r|] == r
    && AllTrimmed(s[..i])
    && AllTrimmed(s[i + |r|..])
  }

  /** Neither end of `r` is a character `trim()` would remove. */
  ghost predicate TrimShape(r: string) {
    r != [] ==> !IsTrimmed(r[0]) && !IsTrimmed(r[|r| - 1])
  }

  /** Java's `String.trim()`: drop leading characters at most U+0020, then
      drop trailing ones from what remains. */
  function Trim(s: string): (r: string)
    ensures |r| <= |s|
    ensures r == [] <==> AllTrimmed(s)
    ensures TrimShape(r)
  {
    var a := LeadingTrimmed(s);
    var t := s[a..];
    var b := TrailingTrimmed(t);
    var r := t[..|t| - b];
    r
  }

  /** Where the trimmed string sits: right after the leading trimmable
      characters of `s`, with only trimmable characters after it. */
  lemma TrimLocated(s: string)
    ensures TrimmedAt(s, Trim(s), LeadingTrimmed(s))
  {
    var a := LeadingTrimmed(s);
    var t := s[a..];
    var b := TrailingTrimmed(t);
    var r := Trim(s);
    assert r == t[..|t| - b];
    assert s[a..a + |r|] == r;
    assert s[a + |r|..] == t[|t| - b..];
  }

  /** `trim()` has exactly one possible result: any infix with untrimmable ends
      surrounded only by trimmable characters is the trimmed string. */
  lemma TrimUnique(s: string, r: string, i: int)
    requires TrimmedAt(s, r, i) && TrimShape(r)
    ensures r == Trim(s)
  {
    var t := Trim(s);
    var a := LeadingTrimmed(s);
    TrimLocated(s);
    if r == [] {
      assert AllTrimmed(s) by {
        forall k | 0 <= k < |s| ensures IsTrimmed(s[k]) {
          if k < i { assert s[..i][k] == s[k]; } else { assert s[i..][k - i] == s[k]; }
        }
      }
    } else {
      assert s[i] == r[0];
      assert a == i;
      assert !AllTrimmed(s);
      assert |t| == |r|;
    }
  }

  /** Concatenating two strings of trimmable characters gives another. */
  lemma AllTrimmedConcat(x: string, y: string)
    requires AllTrimmed(x) && AllTrimmed(y)
    ensures AllTrimmed(x + y)
  {
    forall k | 0 <= k < |x + y| ensures IsTrimmed((x + y)[k]) {
      if k >= |x| { assert (x + y)[k] == y[k - |x|]; }
    }
  }

  /** Java's `s.trim().isEmpty()`. */
  predicate IsBlank(s: string) {
    Trim(s) == []
  }

  /** Padding a string on either side with characters `trim()` removes does
      not change what `trim()` returns. */
  lemma TrimIgnoresPadding(p: string, s: string, q: string)
    requires AllTrimmed(p) && AllTrimmed(q)
    ensures Trim(p + s + q) == Trim(s)
  {
    var u := p + s + q;
    var r := Trim(s);
    var i := LeadingTrimmed(s);
    TrimLocated(s);
    var j := |p| + i;
    assert u[..j] == p + s[..i];
    assert u[j + |r|..] == s[i + |r|..] + q;
    assert u[j..j + |r|] == s[i..i + |r|];
    AllTrimmedConcat(p, s[..i]);
    AllTrimmedConcat(s[i + |r|..], q);
    TrimUnique(u, r, j);
  }

  /** ASCII case mapping used as the model of `Character.toLowerCase`. */
  function LowerChar(c: char): (d: char)
    ensures 'A' <= c <= 'Z' ==> 'a' <= d <= 'z' && d as int - c as int == 32
    ensures !('A' <= c <= 'Z') ==> d == c
  {
    if 'A' <= c <= 'Z' then (c as int + 32) as char else c
  }

  /** Java's `toLowerCase()`, character by character, so lengths are kept. */
  function Lower(s: string): (r: string)
    ensures |r| == |s|
    ensures forall k :: 0 <= k < |s| ==> r[k] == LowerChar(s[k])
  {
    seq(|s|, k requires 0 <= k < |s| => LowerChar(s[k]))
  }

  /** Lower-casing never turns a trimmed character into a kept one or back. */
  lemma LowerKeepsTrimClass(c: char)
    ensures IsTrimmed(LowerChar(c)) <==> IsTrimmed(c)
  {
  }

  /** Lower-casing keeps every character of a trimmable string trimmable. */
  lemma LowerKeepsAllTrimmed(t: string)
    requires AllTrimmed(t)
    ensures AllTrimmed(Lower(t))
  {
    forall k | 0 <= k < |t| ensures IsTrimmed(Lower(t)[k]) { LowerKeepsTrimClass(t[k]); }
  }

  /** Lower-casing and trimming commute: `searchMovies` lower-cases the
      search term and then trims it; this is the same as trimming first. */
  lemma TrimLowerCommute(s: string)
    ensures Trim(Lower(s)) == Lower(Trim(s))
  {
    var l := Lower(s);
    var r := Trim(s);
    var i := LeadingTrimmed(s);
    TrimLocated(s);
    var lr := Lower(r);
    assert l[..i] == Lower(s[..i]);
    assert l[i..i + |r|] == lr;
    assert l[i + |r|..] == Lower(s[i + |r|..]);
    LowerKeepsAllTrimmed(s[..i]);
    LowerKeepsAllTrimmed(s[i + |r|..]);
    if r != [] {
      LowerKeepsTrimClass(r[0]);
      LowerKeepsTrimClass(r[|r| - 1]);
    }
    TrimUnique(l, lr, i);
  }

  /** `hay` starts with `needle`. */
  predicate StartsWith(hay: string, needle: string) {
    |needle| <= |hay| && hay[..|needle|] == needle
  }

  /** Java's `hay.contains(needle)`, as a left-to-right scan of the starting
      positions. */
  function Contains(hay: string, needle: string): bool
    decreases |hay|
  {
    if StartsWith(hay, needle) then true
    else if |hay| <= |needle| then false
    else Contains(hay[1..], needle)
  }

  /** `needle` occurs in `hay` starting at position `i`. */
  ghost predicate OccursAt(needle: string, hay: string, i: int) {
    0 <= i && i + |needle| <= |hay| && hay[i..i + |needle|] == needle
  }

  /** Reference meaning of substring containment: `needle` occurs at some
      position of `hay`. */
  ghost predicate OccursIn(needle: string, hay: string) {
    exists i :: OccursAt(needle, hay, i)
  }

  /** The scan finds an occurrence exactly when one exists. */
  lemma {:induction false} ContainsIffOccurs(hay: string, needle: string)
    ensures Contains(hay, needle) <==> OccursIn(needle, hay)
    decreases |hay|
  {
    if StartsWith(hay, needle) {
      assert OccursAt(needle, hay, 0);
    } else if |hay| <= |needle| {
      assert !OccursAt(needle, hay, 0);
    } else {
      ContainsIffOccurs(hay[1..], needle);
      if OccursIn(needle, hay) {
        var i :| OccursAt(needle, hay, i);
        assert i != 0;
        assert hay[1..][i - 1..i - 1 + |needle|] == hay[i..i + |needle|];
        assert OccursAt(needle, hay[1..], i - 1);
      }
      if OccursIn(needle, hay[1..]) {
        var i :| OccursAt(needle, hay[1..], i);
        assert hay[i + 1..i + 1 + |needle|] == hay[1..][i..i + |needle|];
        assert OccursAt(needle, hay, i + 1);
      }
    }
  }

  /** Decimal digit character for 0 <= d < 10. */
  function DigitChar(d: nat): (c: char)
    requires d < 10
    ensures '0' <= c <= '9'
    ensures c as int - '0' as int == d
  {
    ('0' as int + d) as char
  }

  /** Decimal digits of a non-negative number, most significant first, with
      no leading zeros (zero itself is "0"). */
  function Digits(n: nat): (r: string)
    ensures |r| >= 1
    ensures forall k :: 0 <= k < |r| ==> '0' <= r[k] <= '9'
    ensures |r| > 1 ==> r[0] != '0'
    decreases n
  {
    if n < 10 then [DigitChar(n)] else Digits(n / 10) + [DigitChar(n % 10)]
  }

  /** `Long.toString(n)`, also what string concatenation appends for a long:
      a minus sign for negatives followed by the digits of the magnitude. */
  function DecimalString(n: int): (r: string)
    ensures |r| >= 1
    ensures r[0] == '-' <==> n < 0
  {
    if n < 0 then "-" + Digits(-n) else Digits(n)
  }

  /** Value of a string of decimal digits. */
  function DigitsValue(s: string): int
    decreases |s|
  {
    if |s| == 0 then 0 else 10 * DigitsValue(s[..|s| - 1]) + (s[|s| - 1] as int - '0' as int)
  }

  /** `Long.parseLong` restricted to what `DecimalString` produces. */
  function ParseDecimal(s: string): int {
    if |s| > 0 && s[0] == '-' then -DigitsValue(s[1..]) else DigitsValue(s)
  }

  /** Reading the digits back gives the number. */
  lemma {:induction false} DigitsRoundTrip(n: nat)
    ensures DigitsValue(Digits(n)) == n
    decreases n
  {
    if n >= 10 {
      DigitsRoundTrip(n / 10);
      var d := Digits(n);
      assert d[..|d| - 1] == Digits(n / 10);
    }
  }

  /** The decimal rendering of a long can be read back: it names the number. */
  lemma DecimalRoundTrip(n: int)
    ensures ParseDecimal(DecimalString(n)) == n
  {
    var r := DecimalString(n);
    if n < 0 {
      var d := Digits(-n);
      assert r == "-" + d;
      assert r[1..] == d;
      DigitsRoundTrip(-n);
    } else {
      DigitsRoundTrip(n);
    }
  }
}
