/** The few Python string operations the scheduler relies on: `str.strip()`,
    `str.lower()`, `str.split(sep)` and `int(text)`. */
module Text {
  import opened Wrappers

  /** Python's `str.isspace()`: the characters `strip()` removes. */
  predicate IsSpace(c: char) {
    var n := c as int;
    (0x09 <= n <= 0x0D) || (0x1C <= n <= 0x20) || n == 0x85 || n == 0xA0 || n == 0x1680
    || (0x2000 <= n <= 0x200A) || n == 0x2028 || n == 0x2029 || n == 0x202F || n == 0x205F
    || n == 0x3000
  }

  /** U+001C..U+001F, the information separators: `isspace()` holds for them, but
      `int()` skips only the C-locale spaces among ASCII characters and rejects them. */
  predicate IsInfoSeparator(c: char) {
    0x1C <= c as int <= 0x1F
  }

  /** The whitespace `int()` ignores around a number. */
  predicate IsIntSpace(c: char) {
    IsSpace(c) && !IsInfoSeparator(c)
  }

  predicate NoInfoSeparator(s: string) {
    forall i | 0 <= i < |s| :: !IsInfoSeparator(s[i])
  }

  predicate IsDigit(c: char) {
    '0' <= c <= '9'
  }

  predicate AllDigits(s: string) {
    forall i | 0 <= i < |s| :: IsDigit(s[i])
  }

  /** The index of the first non-whitespace character at or after `i`, or `|s|`. */
  function SkipSpaces(s: string, i: nat): (k: nat)
    requires i <= |s|
    ensures i <= k <= |s|
    decreases |s| - i
  {
    if i < |s| && IsSpace(s[i]) then SkipSpaces(s, i + 1) else i
  }

  /** The end of `s[lo..j]` once trailing whitespace is dropped. */
  function SkipSpacesBack(s: string, lo: nat, j: nat): (k: nat)
    requires lo <= j <= |s|
    ensures lo <= k <= j
  {
    if lo < j && IsSpace(s[j - 1]) then SkipSpacesBack(s, lo, j - 1) else j
  }

  /** `s.strip()`: whitespace removed at both ends. */
  function Strip(s: string): string {
    var start := SkipSpaces(s, 0);
    s[start..SkipSpacesBack(s, start, |s|)]
  }

  lemma {:induction false} SkipSpacesSpec(s: string, i: nat)
    requires i <= |s|
    ensures forall k | i <= k < SkipSpaces(s, i) :: IsSpace(s[k])
    ensures SkipSpaces(s, i) < |s| ==> !IsSpace(s[SkipSpaces(s, i)])
    decreases |s| - i
  {
    if i < |s| && IsSpace(s[i]) {
      SkipSpacesSpec(s, i + 1);
    }
  }

  lemma {:induction false} SkipSpacesBackSpec(s: string, lo: nat, j: nat)
    requires lo <= j <= |s|
    ensures forall k | SkipSpacesBack(s, lo, j) <= k < j :: IsSpace(s[k])
    ensures lo < SkipSpacesBack(s, lo, j) ==> !IsSpace(s[SkipSpacesBack(s, lo, j) - 1])
  {
    if lo < j && IsSpace(s[j - 1]) {
      SkipSpacesBackSpec(s, lo, j - 1);
    }
  }

  /** What `strip()` promises: a slice of `s` that neither starts nor ends with
      whitespace, and everything cut away is whitespace. */
  lemma StripSpec(s: string)
    ensures var r := Strip(s);
      && |r| <= |s|
      && (forall c | c in r :: c in s)
      && (r != [] ==> !IsSpace(r[0]) && !IsSpace(r[|r| - 1]))
      && ((forall i | 0 <= i < |s| :: IsSpace(s[i])) <==> r == [])
    ensures exists a, b | 0 <= a <= b <= |s| ::
      && Strip(s) == s[a..b]
      && (forall k | 0 <= k < a :: IsSpace(s[k]))
      && (forall k | b <= k < |s| :: IsSpace(s[k]))
  {
    var start := SkipSpaces(s, 0);
    var end := SkipSpacesBack(s, start, |s|);
    SkipSpacesSpec(s, 0);
    SkipSpacesBackSpec(s, start, |s|);
    var r := Strip(s);
    assert r == s[start..end];
    assert r == [] ==> start == |s|;
    assert forall k | end <= k < |s| :: IsSpace(s[k]);
  }

  predicate AllSpace(s: string) {
    forall i | 0 <= i < |s| :: IsSpace(s[i])
  }

  lemma {:induction false} SkipSpacesOver(s: string, i: nat, j: nat)
    requires i <= j <= |s|
    requires forall k | i <= k < j :: IsSpace(s[k])
    requires j < |s| ==> !IsSpace(s[j])
    ensures SkipSpaces(s, i) == j
    decreases j - i
  {
    if i < j {
      SkipSpacesOver(s, i + 1, j);
    }
  }

  lemma {:induction false} SkipSpacesBackOver(s: string, lo: nat, j: nat, k: nat)
    requires lo <= k <= j <= |s|
    requires forall m | k <= m < j :: IsSpace(s[m])
    requires lo < k ==> !IsSpace(s[k - 1])
    ensures SkipSpacesBack(s, lo, j) == k
    decreases j - k
  {
    if k < j {
      SkipSpacesBackOver(s, lo, j - 1, k);
    }
  }

  /** `strip()` removes exactly the whitespace around a text that neither starts nor
      ends with whitespace. */
  lemma StripAround(lead: string, core: string, trail: string)
    requires AllSpace(lead) && AllSpace(trail)
    requires core != [] && !IsSpace(core[0]) && !IsSpace(core[|core| - 1])
    ensures Strip(lead + core + trail) == core
  {
    var s := lead + core + trail;
    var a, b := |lead|, |lead| + |core|;
    assert s[a] == core[0] && s[b - 1] == core[|core| - 1];
    assert forall k | 0 <= k < a :: s[k] == lead[k];
    assert forall k | b <= k < |s| :: s[k] == trail[k - b];
    SkipSpacesOver(s, 0, a);
    SkipSpacesBackOver(s, a, |s|, b);
    assert s[a..b] == core;
  }

  lemma StripIdempotent(s: string)
    ensures Strip(Strip(s)) == Strip(s)
  {
    var r := Strip(s);
    StripSpec(s);
    if r != [] {
      assert SkipSpaces(r, 0) == 0;
      assert SkipSpacesBack(r, 0, |r|) == |r|;
    }
  }

  /** Python `str.lower()` on one character, restricted to ASCII letters. */
  function LowerChar(c: char): char {
    if 'A' <= c <= 'Z' then (c as int + 32) as char else c
  }

  /** `s.lower()`, restricted to ASCII letters. */
  function Lower(s: string): string {
    seq(|s|, i requires 0 <= i < |s| => LowerChar(s[i]))
  }

  /** Lower-casing twice is lower-casing once. */
  lemma LowerIdempotent(s: string)
    ensures Lower(Lower(s)) == Lower(s)
  {
  }

  /** `lower()` changes exactly the ASCII capitals, each to its small letter, and
      keeps the length. */
  lemma LowerChangesOnlyCapitals(s: string)
    ensures |Lower(s)| == |s|
    ensures forall i | 0 <= i < |s| :: ('A' <= s[i] <= 'Z' <==> Lower(s)[i] != s[i])
    ensures forall i | 0 <= i < |s| && 'A' <= s[i] <= 'Z' ::
      'a' <= Lower(s)[i] <= 'z' && Lower(s)[i] as int - 'a' as int == s[i] as int - 'A' as int
  {
  }

  /** Rebuilds a string from its pieces by putting `sep` between them. */
  function Join(parts: seq<string>, sep: char): string
    requires |parts| >= 1
  {
    if |parts| == 1 then parts[0] else parts[0] + [sep] + Join(parts[1..], sep)
  }

  /** `s.split(sep)` with an explicit separator: an empty string gives `[""]`,
      and the pieces, joined back with `sep`, give `s` again. */
  function Split(s: string, sep: char): (parts: seq<string>)
    ensures |parts| >= 1
    ensures forall k | 0 <= k < |parts| :: sep !in parts[k]
    ensures Join(parts, sep) == s
  {
    if s == [] then [[]]
    else
      var rest := Split(s[1..], sep);
      if s[0] == sep then
        assert ([[]] + rest)[1..] == rest;
        [[]] + rest
      else
        var parts := [[s[0]] + rest[0]] + rest[1..];
        assert parts[1..] == rest[1..];
        assert s == [s[0]] + s[1..];
        parts
  }

  lemma {:induction false} SplitWithoutSeparator(s: string, sep: char)
    requires sep !in s
    ensures Split(s, sep) == [s]
  {
    if s != [] {
      SplitWithoutSeparator(s[1..], sep);
    }
  }

  /** Splitting at the first separator: the text before it is the first piece. */
  lemma {:induction false} SplitAtFirst(a: string, sep: char, b: string)
    requires sep !in a
    ensures Split(a + [sep] + b, sep) == [a] + Split(b, sep)
  {
    var s := a + [sep] + b;
    if a == [] {
      assert s == [sep] + b && s[1..] == b;
    } else {
      assert s[0] == a[0] && s[1..] == a[1..] + [sep] + b;
      SplitAtFirst(a[1..], sep, b);
      var rest := Split(s[1..], sep);
      assert rest == [a[1..]] + Split(b, sep);
      assert Split(s, sep) == [[a[0]] + rest[0]] + rest[1..];
      assert [a[0]] + a[1..] == a && rest[1..] == Split(b, sep);
    }
  }

  /** The value of a run of ASCII digits, most significant first. */
  function DigitsValue(s: string): nat
    requires AllDigits(s)
  {
    if s == [] then 0 else 10 * DigitsValue(s[..|s| - 1]) + (s[|s| - 1] as int - '0' as int)
  }

  predicate IsSign(c: char) {
    c == '+' || c == '-'
  }

  /** The text `int()` accepts once stripped: an optional sign, then at least one digit. */
  predicate IntLiteral(t: string) {
    |t| > 0 && AllDigits(t[1..]) && (IsDigit(t[0]) || (IsSign(t[0]) && |t| > 1))
  }

  /** `int()` on stripped text: an optional sign, then at least one digit. */
  function ParseLiteral(t: string): (r: Option<int>)
    ensures r.Some? <==> IntLiteral(t)
    ensures r.Some? ==> exists i | 0 <= i < |t| :: IsDigit(t[i])
    ensures AllDigits(t) && t != [] ==> r == Some(DigitsValue(t))
  {
    if |t| > 0 && IsSign(t[0]) then
      var body := t[1..];
      if |body| > 0 && AllDigits(body) then
        assert IsDigit(t[1]);
        var v: int := DigitsValue(body);
        Some(if t[0] == '-' then -v else v)
      else None
    else if |t| > 0 && AllDigits(t) then
      assert IsDigit(t[0]);
      Some(DigitsValue(t))
    else None
  }

  /** `int(s)`: surrounding whitespace, then an optional sign, then at least one digit.
      Any other text is a `ValueError`, here `None`. An information separator is
      neither whitespace to `int()` nor part of a number, so any text holding one fails;
      without them, the whitespace `int()` skips is exactly what `strip()` removes. */
  function ParseInt(s: string): (r: Option<int>)
    ensures r.Some? ==> exists i | 0 <= i < |s| :: IsDigit(s[i])
    ensures AllDigits(s) && s != [] ==> r == Some(DigitsValue(s))
    ensures r.Some? <==> NoInfoSeparator(s) && IntLiteral(Strip(s))
  {
    StripSpec(s);
    assert AllDigits(s) && s != [] ==>
      SkipSpaces(s, 0) == 0 && SkipSpacesBack(s, 0, |s|) == |s| && Strip(s) == s && NoInfoSeparator(s);
    if NoInfoSeparator(s) then ParseLiteral(Strip(s)) else None
  }

  /** `int("\x1c5")` is a `ValueError`, though `"\x1c5".strip()` is `"5"`. */
  lemma InfoSeparatorRejected()
    ensures ParseInt("\U{1c}5") == None
  {
    assert IsInfoSeparator("\U{1c}5"[0]);
  }

  /** An optionally signed run of digits: its ends are no whitespace, it holds no
      information separator, and it parses to the signed value of the digits. */
  lemma ParseSignedDigits(sign: string, digits: string)
    requires sign == "" || sign == "+" || sign == "-"
    requires digits != [] && AllDigits(digits)
    ensures var core := sign + digits;
      && core != [] && !IsSpace(core[0]) && !IsSpace(core[|core| - 1]) && NoInfoSeparator(core)
      && ParseLiteral(core) == Some(if sign == "-" then -(DigitsValue(digits) as int) else DigitsValue(digits))
  {
    var core := sign + digits;
    assert core[|core| - 1] == digits[|digits| - 1];
    assert IsDigit(digits[0]);
    if sign != "" {
      assert core[0] == sign[0] && core[1..] == digits;
    } else {
      assert core == digits;
    }
    forall i | 0 <= i < |core|
      ensures !IsInfoSeparator(core[i])
    {
      if i >= |sign| {
        assert core[i] == digits[i - |sign|];
      }
    }
  }

  /** The value `int()` gives: whitespace around an optionally signed run of digits
      is ignored, and a leading '-' negates. */
  lemma ParseIntLiteral(lead: string, sign: string, digits: string, trail: string)
    requires forall i | 0 <= i < |lead| :: IsIntSpace(lead[i])
    requires forall i | 0 <= i < |trail| :: IsIntSpace(trail[i])
    requires sign == "" || sign == "+" || sign == "-"
    requires digits != [] && AllDigits(digits)
    ensures ParseInt(lead + sign + digits + trail)
      == Some(if sign == "-" then -(DigitsValue(digits) as int) else DigitsValue(digits))
  {
    var core := sign + digits;
    var s := lead + core + trail;
    assert lead + sign + digits + trail == s;
    ParseSignedDigits(sign, digits);
    assert AllSpace(lead) && AllSpace(trail);
    StripAround(lead, core, trail);
    IntSpacesAround(lead, core, trail);
    ParseIntWithoutSeparator(s);
  }

  lemma ParseIntWithoutSeparator(s: string)
    requires NoInfoSeparator(s)
    ensures ParseInt(s) == ParseLiteral(Strip(s))
  {
  }

  lemma IntSpacesAround(lead: string, core: string, trail: string)
    requires forall i | 0 <= i < |lead| :: IsIntSpace(lead[i])
    requires forall i | 0 <= i < |trail| :: IsIntSpace(trail[i])
    requires NoInfoSeparator(core)
    ensures NoInfoSeparator(lead + core + trail)
  {
    var s := lead + core + trail;
    forall i | 0 <= i < |s|
      ensures !IsInfoSeparator(s[i])
    {
      if i < |lead| {
        assert s[i] == lead[i];
      } else if i < |lead| + |core| {
        assert s[i] == core[i - |lead|];
      } else {
        assert s[i] == trail[i - |lead| - |core|];
      }
    }
  }

  function DigitChar(d: nat): char
    requires d < 10
  {
    ('0' as int + d) as char
  }

  /** A number below 100 written with two digits, as in the "09" of "09:00". */
  function TwoDigits(n: nat): (r: string)
    requires n < 100
    ensures |r| == 2 && AllDigits(r)
  {
    [DigitChar(n / 10), DigitChar(n % 10)]
  }

  lemma ParseTwoDigits(n: nat)
    requires n < 100
    ensures ParseInt(TwoDigits(n)) == Some(n)
  {
    var s := TwoDigits(n);
    assert s[..1] == [s[0]] && s[..1][..0] == [];
    assert s[0] as int - '0' as int == n / 10;
    assert s[1] as int - '0' as int == n % 10;
    assert DigitsValue(s[..1]) == n / 10;
    assert DigitsValue(s) == 10 * (n / 10) + n % 10;
  }
}
