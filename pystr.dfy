/**
 * The Python `str` built-ins that the toolkit's modules rely on, stated over
 * Dafny strings (`seq<char>`): prefix and suffix tests, `strip`, `split` and
 * `join` on a one-character separator, character replacement, ASCII case
 * tests, decimal rendering of integers and the base-10 `int(...)` parser.
 */
module PyStr {

  /** The characters for which Python's `str.isspace()` holds. */
  const Whitespace: set<char> := {
    ' ', '\t', '\n', '\r', '\U{000B}', '\U{000C}',
    '\U{001C}', '\U{001D}', '\U{001E}', '\U{001F}',
    '\U{0085}', '\U{00A0}', '\U{1680}',
    '\U{2000}', '\U{2001}', '\U{2002}', '\U{2003}', '\U{2004}', '\U{2005}',
    '\U{2006}', '\U{2007}', '\U{2008}', '\U{2009}', '\U{200A}',
    '\U{2028}', '\U{2029}', '\U{202F}', '\U{205F}', '\U{3000}'
  }

  /** `s.startswith(p)` */
  predicate StartsWith(s: string, p: string) {
    |p| <= |s| && s[..|p|] == p
  }

  /** `s.endswith(p)` */
  predicate EndsWith(s: string, p: string) {
    |p| <= |s| && s[|s| - |p|..] == p
  }

  /** `s.endswith(tuple(ps))`: true when some member of `ps` is a suffix. */
  predicate EndsWithAny(s: string, ps: set<string>) {
    exists p :: p in ps && EndsWith(s, p)
  }

  /** Two suffixes of the same string: the shorter is a suffix of the longer. */
  lemma SuffixOfSuffix(s: string, a: string, b: string)
    requires EndsWith(s, a) && EndsWith(s, b) && |a| <= |b|
    ensures EndsWith(b, a)
  {
    assert b[|b| - |a|..] == s[|s| - |a|..];
  }

  /** Where `s.lstrip(cs)` starts, searching from `i`: the first index at or
      after `i` whose character is not in `cs` (or `|s|`). */
  function LeftEnd(s: string, cs: set<char>, i: nat): nat
    requires i <= |s|
    decreases |s| - i
  {
    if i < |s| && s[i] in cs then LeftEnd(s, cs, i + 1) else i
  }

  /** Where `rstrip` stops, searching down from `j` but not below `lo`. */
  function RightEnd(s: string, cs: set<char>, lo: nat, j: nat): nat
    requires lo <= j <= |s|
    decreases j
  {
    if lo < j && s[j - 1] in cs then RightEnd(s, cs, lo, j - 1) else j
  }

  /** `s.strip(cs)`: drop the longest prefix, then the longest suffix, made of
      characters in `cs`. */
  function Strip(s: string, cs: set<char>): string {
    var lo := LeftEnd(s, cs, 0);
    LeftEndProperties(s, cs, 0);
    RightEndProperties(s, cs, lo, |s|);
    s[lo..RightEnd(s, cs, lo, |s|)]
  }

  lemma {:induction false} LeftEndProperties(s: string, cs: set<char>, i: nat)
    requires i <= |s|
    ensures var l := LeftEnd(s, cs, i);
      i <= l <= |s| && (l == |s| || s[l] !in cs) && forall k :: i <= k < l ==> s[k] in cs
    decreases |s| - i
  {
    if i < |s| && s[i] in cs {
      LeftEndProperties(s, cs, i + 1);
    }
  }

  lemma {:induction false} RightEndProperties(s: string, cs: set<char>, lo: nat, j: nat)
    requires lo <= j <= |s|
    ensures var r := RightEnd(s, cs, lo, j);
      lo <= r <= j && (r == lo || s[r - 1] !in cs) && forall k :: r <= k < j ==> s[k] in cs
    decreases j
  {
    if lo < j && s[j - 1] in cs {
      RightEndProperties(s, cs, lo, j - 1);
    }
  }

  /** What `strip` leaves is a slice of the input that neither starts nor ends
      with a stripped character, everything cut off is a stripped character,
      and it is empty exactly when every character is stripped. */
  lemma StripProperties(s: string, cs: set<char>)
    ensures exists lo, hi :: (0 <= lo <= hi <= |s| && Strip(s, cs) == s[lo..hi] &&
                              (forall k :: 0 <= k < lo ==> s[k] in cs) &&
                              (forall k :: hi <= k < |s| ==> s[k] in cs))
    ensures var r := Strip(s, cs);
      |r| <= |s| &&
      (r == [] || (r[0] !in cs && r[|r| - 1] !in cs)) &&
      (r == [] <==> forall i :: 0 <= i < |s| ==> s[i] in cs)
  {
    var lo := LeftEnd(s, cs, 0);
    LeftEndProperties(s, cs, 0);
    var hi := RightEnd(s, cs, lo, |s|);
    RightEndProperties(s, cs, lo, |s|);
    var r := Strip(s, cs);
    assert r == s[lo..hi];
    if r == [] {
      assert lo == hi;
    } else {
      assert r[0] == s[lo] && r[|r| - 1] == s[hi - 1];
    }
  }

  /** `s.strip()` with no argument: Python whitespace. */
  function StripSpace(s: string): string {
    Strip(s, Whitespace)
  }

  /** Stripping the empty string gives the empty string. */
  lemma StripEmpty()
    ensures StripSpace("") == ""
  {
    assert LeftEnd("", Whitespace, 0) == 0;
  }

  /** A string whose two ends are not in `cs` is its own strip. */
  lemma StripUnchanged(s: string, cs: set<char>)
    requires s == [] || (s[0] !in cs && s[|s| - 1] !in cs)
    ensures Strip(s, cs) == s
  {
    if s != [] {
      assert LeftEnd(s, cs, 0) == 0;
      assert RightEnd(s, cs, 0, |s|) == |s|;
    }
  }

  /** Stripping a text followed by one stripped character, such as a line
      and its terminator, gives the text back. */
  lemma StripDropsLast(s: string, c: char, cs: set<char>)
    requires s != [] && s[0] !in cs && s[|s| - 1] !in cs && c in cs
    ensures Strip(s + [c], cs) == s
  {
    var t := s + [c];
    StripProperties(t, cs);
    var lo, hi :| 0 <= lo <= hi <= |t| && Strip(t, cs) == t[lo..hi] &&
      (forall k :: 0 <= k < lo ==> t[k] in cs) && (forall k :: hi <= k < |t| ==> t[k] in cs);
    assert t[0] == s[0] && t[|s| - 1] == s[|s| - 1] && t[|s|] == c;
    assert lo == 0 && |s| <= hi;
    assert hi == |s|;
    assert t[..|s|] == s;
  }

  /** Stripping removes a run of stripped characters on each side of a
      text that neither starts nor ends with one. */
  lemma StripPadded(s: string, c: char, cs: set<char>)
    requires s != [] && s[0] !in cs && s[|s| - 1] !in cs && c in cs
    ensures Strip([c] + s + [c], cs) == s
  {
    var t := [c] + s + [c];
    StripProperties(t, cs);
    var lo, hi :| 0 <= lo <= hi <= |t| && Strip(t, cs) == t[lo..hi] &&
      (forall k :: 0 <= k < lo ==> t[k] in cs) && (forall k :: hi <= k < |t| ==> t[k] in cs);
    assert t[0] == c && t[1] == s[0] && t[|s|] == s[|s| - 1] && t[|s| + 1] == c;
    assert 1 <= lo && hi <= |s| + 1;
    assert lo == 1 && hi == |s| + 1;
    assert t[1..|s| + 1] == s;
  }

  /** `s.replace(a, b)` for single characters `a` and `b`. */
  function ReplaceChar(s: string, a: char, b: char): (r: string)
    ensures |r| == |s|
    ensures forall i :: 0 <= i < |s| ==> r[i] == (if s[i] == a then b else s[i])
  {
    if s == [] then [] else [if s[0] == a then b else s[0]] + ReplaceChar(s[1..], a, b)
  }

  /** `sep.join(parts)`: the parts with one `sep` between neighbours. */
  function Join(parts: seq<string>, sep: char): string {
    if |parts| == 0 then ""
    else if |parts| == 1 then parts[0]
    else parts[0] + [sep] + Join(parts[1..], sep)
  }

  /** The first index at or after `i` holding `c`, or `|s|` if none does. */
  function FindFrom(s: string, c: char, i: nat): (r: nat)
    requires i <= |s|
    ensures i <= r <= |s| && (r < |s| ==> s[r] == c)
    ensures forall k :: i <= k < r ==> s[k] != c
    decreases |s| - i
  {
    if i == |s| || s[i] == c then i else FindFrom(s, c, i + 1)
  }

  /** `s.split(sep)` for a one-character separator: the text before the
      first `sep`, then the split of the text after it. */
  function Split(s: string, sep: char): seq<string>
    decreases |s|
  {
    var i := FindFrom(s, sep, 0);
    if i == |s| then [s] else [s[..i]] + Split(s[i + 1..], sep)
  }

  /** A split is never empty, no part holds the separator, and joining the
      parts gives the text back. */
  lemma {:induction false} SplitProperties(s: string, sep: char)
    ensures |Split(s, sep)| >= 1
    ensures forall k :: 0 <= k < |Split(s, sep)| ==> sep !in Split(s, sep)[k]
    ensures Join(Split(s, sep), sep) == s
    decreases |s|
  {
    var i := FindFrom(s, sep, 0);
    if i < |s| {
      var rest := s[i + 1..];
      SplitProperties(rest, sep);
      SplitStep(s, sep);
      JoinCons(s[..i], Split(rest, sep), sep);
    }
  }

  /** One step of `Split`: the part before the first `sep`, which holds no
      `sep`, then the split of the rest. */
  lemma SplitStep(s: string, sep: char)
    requires FindFrom(s, sep, 0) < |s|
    ensures var i := FindFrom(s, sep, 0);
      Split(s, sep) == [s[..i]] + Split(s[i + 1..], sep) &&
      sep !in s[..i] && s == s[..i] + [sep] + s[i + 1..]
  {
  }

  /** Joining a part onto a non-empty list of parts. */
  lemma JoinCons(a: string, parts: seq<string>, sep: char)
    requires |parts| >= 1
    ensures Join([a] + parts, sep) == a + [sep] + Join(parts, sep)
  {
    assert ([a] + parts)[1..] == parts;
  }

  /** Splitting a text whose first `sep` ends `a` cuts off `a`. */
  lemma SplitAt(a: string, b: string, sep: char)
    requires sep !in a
    ensures Split(a + [sep] + b, sep) == [a] + Split(b, sep)
  {
    var s := a + [sep] + b;
    assert forall k :: 0 <= k < |a| ==> s[k] == a[k] && a[k] != sep;
    assert s[|a|] == sep;
    assert FindFrom(s, sep, 0) == |a|;
    assert s[..|a|] == a && s[|a| + 1..] == b;
  }

  /** A text that starts with `sep` splits into an empty part, then the
      split of the rest. */
  lemma SplitLeading(b: string, sep: char)
    ensures Split([sep] + b, sep) == [[]] + Split(b, sep)
  {
    var s := [sep] + b;
    assert FindFrom(s, sep, 0) == 0;
    assert s[..0] == [] && s[1..] == b;
  }

  /** A text without `sep` splits into itself alone. */
  lemma SplitNone(a: string, sep: char)
    requires sep !in a
    ensures Split(a, sep) == [a]
  {
    assert FindFrom(a, sep, 0) == |a|;
  }

  /** `split` inverts `join` on parts that do not contain the separator. */
  lemma {:induction false} SplitJoin(parts: seq<string>, sep: char)
    requires |parts| >= 1
    requires forall k :: 0 <= k < |parts| ==> sep !in parts[k]
    ensures Split(Join(parts, sep), sep) == parts
  {
    if |parts| == 1 {
      SplitNone(parts[0], sep);
    } else {
      SplitJoin(parts[1..], sep);
      SplitAt(parts[0], Join(parts[1..], sep), sep);
      assert [parts[0]] + parts[1..] == parts;
    }
  }

  predicate IsAsciiUpper(c: char) { 'A' <= c <= 'Z' }
  predicate IsAsciiLower(c: char) { 'a' <= c <= 'z' }

  /** `s.islower()` with ASCII letters as the only cased characters:
      at least one cased character and none of them upper case. */
  predicate IsLower(s: string) {
    (exists i :: 0 <= i < |s| && IsAsciiLower(s[i])) &&
    (forall i :: 0 <= i < |s| ==> !IsAsciiUpper(s[i]))
  }

  function UpperChar(c: char): char {
    if IsAsciiLower(c) then (c as int - 32) as char else c
  }

  /** `s.upper()` on ASCII letters. */
  function Upper(s: string): (r: string)
    ensures |r| == |s|
    ensures forall i :: 0 <= i < |s| ==> r[i] == UpperChar(s[i])
  {
    if s == [] then [] else [UpperChar(s[0])] + Upper(s[1..])
  }

  lemma UpperIdempotent(s: string)
    ensures Upper(Upper(s)) == Upper(s)
  {
  }

  // ---------------------------------------------------------------------
  // Decimal rendering and parsing of integers
  // ---------------------------------------------------------------------

  predicate IsDigit(c: char) { '0' <= c <= '9' }

  function DigitChar(d: nat): char
    requires d < 10
  {
    ('0' as int + d) as char
  }

  /** `str(n)` for a natural number: its shortest decimal digits. */
  function Digits(n: nat): (r: string)
    ensures |r| >= 1
    ensures forall i :: 0 <= i < |r| ==> IsDigit(r[i])
    decreases n
  {
    if n < 10 then [DigitChar(n)] else Digits(n / 10) + [DigitChar(n % 10)]
  }

  /** `str(i)` for any integer. */
  function IntToString(i: int): string {
    if i < 0 then "-" + Digits(-i) else Digits(i)
  }

  /** The value of a run of digits read in base 10; any other character
      (an underscore, in the texts it is applied to) is skipped. */
  function DigitsValue(s: string): nat {
    if s == [] then 0
    else if !IsDigit(s[|s| - 1]) then DigitsValue(s[..|s| - 1])
    else 10 * DigitsValue(s[..|s| - 1]) + (s[|s| - 1] as int - '0' as int)
  }

  /** The body Python's `int()` accepts after the sign: digits, with single
      underscores allowed between two digits. */
  predicate DigitGroup(s: string) {
    |s| > 0 && IsDigit(s[0]) &&
    forall i :: 0 <= i < |s| ==>
      IsDigit(s[i]) || (s[i] == '_' && i + 1 < |s| && IsDigit(s[i + 1]))
  }

  /** Python's `int(s)` in base 10 on an already stripped string:
      `None` stands for the `ValueError` it raises. */
  function ParseInt(s: string): (r: Option<int>)
    ensures r.Some? <==>
      DigitGroup(s) ||
      (|s| > 0 && (s[0] == '+' || s[0] == '-') && DigitGroup(s[1..]))
  {
    if |s| > 0 && (s[0] == '+' || s[0] == '-') then
      var body := s[1..];
      if DigitGroup(body) then
        var v: int := DigitsValue(body);
        Some(if s[0] == '-' then -v else v)
      else None
    else if DigitGroup(s) then Some(DigitsValue(s))
    else None
  }

  lemma {:induction false} DigitsValueOfDigits(n: nat)
    ensures DigitsValue(Digits(n)) == n
    decreases n
  {
    var d := Digits(n);
    if n >= 10 {
      DigitsValueOfDigits(n / 10);
      assert d[..|d| - 1] == Digits(n / 10);
    }
  }

  /** `int(str(i)) == i`: the parser inverts the renderer. */
  lemma ParseIntToString(i: int)
    ensures ParseInt(IntToString(i)) == Some(i)
  {
    var n: nat := if i < 0 then -i else i;
    var d := Digits(n);
    DigitsValueOfDigits(n);
    assert DigitGroup(d);
    if i < 0 {
      var s := IntToString(i);
      assert s == "-" + d;
      assert s[1..] == d;
      assert s[0] == '-';
    } else {
      assert IntToString(i) == d;
      assert d[0] != '+' && d[0] != '-';
    }
  }

  /** Leading zeros do not change the value. */
  lemma {:induction false} DigitsValueLeadingZeros(z: nat, s: string)
    requires forall i :: 0 <= i < |s| ==> IsDigit(s[i])
    ensures forall i :: 0 <= i < |Zeros(z) + s| ==> IsDigit((Zeros(z) + s)[i])
    ensures DigitsValue(Zeros(z) + s) == DigitsValue(s)
    decreases |s|
  {
    var t := Zeros(z) + s;
    if s == [] {
      assert t == Zeros(z);
      ZerosValue(z);
    } else {
      assert t[..|t| - 1] == Zeros(z) + s[..|s| - 1];
      DigitsValueLeadingZeros(z, s[..|s| - 1]);
    }
  }

  lemma {:induction false} ZerosValue(z: nat)
    ensures DigitsValue(Zeros(z)) == 0
  {
    if z > 0 {
      var t := Zeros(z);
      assert t == Zeros(z - 1) + "0";
      assert t[..z - 1] == Zeros(z - 1);
      assert IsDigit(t[z - 1]) && t[z - 1] as int - '0' as int == 0;
      ZerosValue(z - 1);
    }
  }

  /** `z` copies of '0'. */
  function Zeros(z: nat): (r: string)
    ensures |r| == z && forall i :: 0 <= i < z ==> r[i] == '0'
  {
    if z == 0 then "" else Zeros(z - 1) + "0"
  }

  /** Python's `format(n, '03d')` generalised to width `w`: the decimal digits
      of `n`, padded on the left with zeros to at least `w` characters. */
  function ZeroPadded(n: nat, w: nat): (r: string)
    ensures |r| == if |Digits(n)| >= w then |Digits(n)| else w
    ensures forall i :: 0 <= i < |r| ==> IsDigit(r[i])
  {
    var d := Digits(n);
    if |d| >= w then d else Zeros(w - |d|) + d
  }

  /** The padded text still reads back as `n`, so distinct numbers give
      distinct padded texts. */
  lemma ZeroPaddedValue(n: nat, w: nat)
    ensures DigitsValue(ZeroPadded(n, w)) == n
  {
    DigitsValueOfDigits(n);
    var d := Digits(n);
    if |d| < w {
      DigitsValueLeadingZeros(w - |d|, d);
    }
  }

  datatype Option<+T> = None | Some(value: T)
}
