/**
 * The few Python string operations the configuration loader relies on:
 * `str.strip()`, `str.split(",")`, `int(str)` and `str(int)`.
 */
module Text {
  import opened Wrappers

  /** Python's `str.isspace()` for one character (the complete set of Unicode
      whitespace that Python recognises). */
  predicate IsSpace(c: char) {
    var n := c as int;
    (9 <= n <= 13) || (28 <= n <= 32) || n == 0x85 || n == 0xA0 || n == 0x1680
    || (0x2000 <= n <= 0x200A) || n == 0x2028 || n == 0x2029 || n == 0x202F
    || n == 0x205F || n == 0x3000
  }

  predicate IsDigit(c: char) {
    '0' <= c <= '9'
  }

  /** The first position at or after `k` that does not hold whitespace
      (`|s|` when there is none). */
  function SkipSpaces(s: string, k: nat): (n: nat)
    requires k <= |s|
    ensures k <= n <= |s|
    ensures forall i :: k <= i < n ==> IsSpace(s[i])
    ensures n < |s| ==> !IsSpace(s[n])
    decreases |s| - k
  {
    if k == |s| || !IsSpace(s[k]) then k else SkipSpaces(s, k + 1)
  }

  /** The end of `s[lo..e]` once its trailing whitespace is cut. */
  function BackSpaces(s: string, lo: nat, e: nat): (m: nat)
    requires lo <= e <= |s|
    ensures lo <= m <= e
    ensures forall i :: m <= i < e ==> IsSpace(s[i])
    ensures m > lo ==> !IsSpace(s[m - 1])
  {
    if e == lo || !IsSpace(s[e - 1]) then e else BackSpaces(s, lo, e - 1)
  }

  /** Where `Strip(s)` starts and ends in `s`. */
  function StripStart(s: string): nat {
    SkipSpaces(s, 0)
  }

  function StripEnd(s: string): (b: nat)
    ensures StripStart(s) <= b <= |s|
  {
    BackSpaces(s, StripStart(s), |s|)
  }

  /** `str.strip()`: the slice of `s` between its leading and its trailing
      whitespace; it neither starts nor ends with whitespace. */
  function Strip(s: string): (r: string)
    ensures var a, b := StripStart(s), StripEnd(s);
      && r == s[a..b]
      && (forall i :: 0 <= i < a ==> IsSpace(s[i]))
      && (forall i :: b <= i < |s| ==> IsSpace(s[i]))
    ensures r == [] || (!IsSpace(r[0]) && !IsSpace(r[|r| - 1]))
  {
    var a := StripStart(s);
    var b := StripEnd(s);
    assert b > a ==> !IsSpace(s[a]);
    s[a..b]
  }

  /** A string that starts and ends with a non-space is its own strip. */
  lemma {:induction false} StripKeeps(s: string)
    requires s == [] || (!IsSpace(s[0]) && !IsSpace(s[|s| - 1]))
    ensures Strip(s) == s
  {
    if s != [] {
      assert StripStart(s) == 0;
      assert StripEnd(s) == |s|;
    }
  }

  /** Every character of `s` is whitespace or survives in `Strip(s)`. */
  lemma {:induction false} StripCharacters(s: string)
    ensures forall i :: 0 <= i < |s| ==> IsSpace(s[i]) || s[i] in Strip(s)
  {
    var a, b := StripStart(s), StripEnd(s);
    var r := Strip(s);
    forall i | a <= i < b ensures s[i] in r {
      assert r[i - a] == s[i];
    }
  }

  /* ---------------------------------------------------------------- split */

  /** Python's `s.split(sep)` for a one-character separator: the pieces
      between separators, including empty ones; `""` splits to `[""]`. */
  function Split(s: string, sep: char): (r: seq<string>)
    ensures |r| >= 1
    ensures forall i :: 0 <= i < |r| ==> sep !in r[i]
  {
    if s == [] then [[]]
    else
      var rest := Split(s[1..], sep);
      if s[0] == sep then [[]] + rest
      else [[s[0]] + rest[0]] + rest[1..]
  }

  /** `sep.join(parts)`. */
  function Join(parts: seq<string>, sep: char): string {
    if |parts| == 0 then []
    else if |parts| == 1 then parts[0]
    else parts[0] + [sep] + Join(parts[1..], sep)
  }

  /** Splitting loses nothing: joining the pieces back gives the input. */
  lemma {:induction false} JoinSplit(s: string, sep: char)
    ensures Join(Split(s, sep), sep) == s
  {
    if s != [] {
      JoinSplit(s[1..], sep);
      var rest := Split(s[1..], sep);
      if s[0] == sep {
        assert Join([[]] + rest, sep) == [sep] + Join(rest, sep);
      } else if |rest| == 1 {
        assert Join([[s[0]] + rest[0]], sep) == [s[0]] + rest[0];
      } else {
        var r := [[s[0]] + rest[0]] + rest[1..];
        assert r[1..] == rest[1..];
        assert Join(r, sep) == [s[0]] + rest[0] + [sep] + Join(rest[1..], sep);
      }
    }
  }

  /** Joining separator-free pieces and splitting again gives the pieces. */
  lemma {:induction false} SplitJoin(parts: seq<string>, sep: char)
    requires |parts| >= 1
    requires forall i :: 0 <= i < |parts| ==> sep !in parts[i]
    ensures Split(Join(parts, sep), sep) == parts
  {
    if |parts| == 1 {
      SplitPiece(parts[0], sep);
    } else {
      SplitJoin(parts[1..], sep);
      SplitPrefix(parts[0], Join(parts[1..], sep), sep);
      assert [parts[0]] + parts[1..] == parts;
    }
  }

  /** A separator-free string is a single piece. */
  lemma {:induction false} SplitPiece(p: string, sep: char)
    requires sep !in p
    ensures Split(p, sep) == [p]
  {
    if p != [] {
      SplitPiece(p[1..], sep);
      assert [p[0]] + p[1..] == p;
    }
  }

  /** Splitting `p + sep + t`, with `p` free of separators, puts `p` first. */
  lemma {:induction false} SplitPrefix(p: string, t: string, sep: char)
    requires sep !in p
    ensures Split(p + [sep] + t, sep) == [p] + Split(t, sep)
  {
    if p == [] {
      assert ([] + [sep] + t)[1..] == t;
    } else {
      assert (p + [sep] + t)[1..] == p[1..] + [sep] + t;
      SplitPrefix(p[1..], t, sep);
      assert [p[0]] + p[1..] == p;
    }
  }

  /* ------------------------------------------------------------- integers */

  /** Python's decimal integer body: digits, with single underscores allowed
      between two digits (`1_000`); leading zeros are allowed. */
  predicate DigitGroups(s: string) {
    && s != []
    && DigitsOrUnderscores(s)
    && forall i :: 0 <= i < |s| && s[i] == '_' ==>
         0 < i < |s| - 1 && IsDigit(s[i - 1]) && IsDigit(s[i + 1])
  }

  predicate DigitsOrUnderscores(s: string) {
    forall i :: 0 <= i < |s| ==> IsDigit(s[i]) || s[i] == '_'
  }

  function DigitValue(c: char): nat
    requires IsDigit(c)
  {
    c as int - '0' as int
  }

  function DigitChar(d: nat): (c: char)
    requires d < 10
    ensures IsDigit(c) && DigitValue(c) == d
  {
    ('0' as int + d) as char
  }

  /** The number a digit body denotes; underscores are skipped. */
  function ValueOf(s: string): nat
    requires DigitsOrUnderscores(s)
  {
    if s == [] then 0
    else if s[|s| - 1] == '_' then ValueOf(s[..|s| - 1])
    else 10 * ValueOf(s[..|s| - 1]) + DigitValue(s[|s| - 1])
  }

  /** CPython's default limit on the number of digits `int()` converts and
      `str()` prints; beyond it both raise `ValueError`. */
  const MaxStrDigits := 4300

  /** The digits of a digit body: underscores do not count toward the limit. */
  function DigitCount(s: string): nat {
    if s == [] then 0
    else DigitCount(s[..|s| - 1]) + (if s[|s| - 1] == '_' then 0 else 1)
  }

  /** A digit body `int()` converts: well formed and within the digit limit. */
  predicate ValidBody(s: string) {
    DigitGroups(s) && DigitCount(s) <= MaxStrDigits
  }

  /** The information separators U+001C to U+001F. `str.isspace()` holds
      for them, but `int()` does not skip them: it maps non-ASCII whitespace
      to a space and then skips only ASCII tab, line feed, vertical tab, form
      feed, carriage return and space. As they cannot be part of a literal
      either, any one of them makes `int()` raise. */
  predicate IsInfoSeparator(c: char) {
    28 <= c as int <= 31
  }

  predicate HasInfoSeparator(s: string) {
    exists i :: 0 <= i < |s| && IsInfoSeparator(s[i])
  }

  /** Python's `int(s)` on a string in base 10: surrounding whitespace is
      ignored, one optional sign, then a digit body. `None` is the
      `ValueError` it raises. */
  function ParseInt(s: string): (r: Option<int>)
    ensures HasInfoSeparator(s) ==> r == None
    ensures var t := Strip(s);
      r.Some? <==> !HasInfoSeparator(s)
                   && (ValidBody(t) || (|t| > 0 && (t[0] == '+' || t[0] == '-') && ValidBody(t[1..])))
    ensures var t := Strip(s); !HasInfoSeparator(s) && ValidBody(t) ==> r == Some(ValueOf(t))
    ensures var t := Strip(s);
      !HasInfoSeparator(s) && |t| > 0 && t[0] == '-' && ValidBody(t[1..]) ==> r == Some(-(ValueOf(t[1..]) as int))
    ensures var t := Strip(s);
      !HasInfoSeparator(s) && |t| > 0 && t[0] == '+' && ValidBody(t[1..]) ==> r == Some(ValueOf(t[1..]))
  {
    if HasInfoSeparator(s) then None else ParseSigned(Strip(s))
  }

  /** A stripped literal: one optional sign, then a digit body. */
  function ParseSigned(t: string): Option<int> {
    if |t| > 0 && (t[0] == '+' || t[0] == '-') then
      var body := t[1..];
      if ValidBody(body) then Some(if t[0] == '-' then -(ValueOf(body) as int) else ValueOf(body))
      else None
    else if ValidBody(t) then Some(ValueOf(t))
    else None
  }

  /** Python's `str(n)` for a natural number. */
  function FormatNat(n: nat): (r: string)
    ensures |r| >= 1
    ensures forall i :: 0 <= i < |r| ==> IsDigit(r[i])
    ensures n >= 1 ==> r[0] != '0'
  {
    if n < 10 then [DigitChar(n)] else FormatNat(n / 10) + [DigitChar(n % 10)]
  }

  function Magnitude(n: int): nat {
    if n < 0 then -n else n
  }

  /** Python's `str(n)` for an integer: a minus sign exactly for a negative
      number, then its digits, with no leading zero. */
  function FormatInt(n: int): (r: string)
    ensures |r| >= 1 && (r[0] == '-' <==> n < 0)
    ensures var d := if n < 0 then r[1..] else r;
      d == FormatNat(Magnitude(n)) && d != [] && (d[0] == '0' ==> n == 0)
  {
    if n < 0 then "-" + FormatNat(-n) else FormatNat(n)
  }

  /** `str(n)` stays within the digit limit. */
  predicate Printable(n: int) {
    |FormatNat(Magnitude(n))| <= MaxStrDigits
  }

  lemma {:induction false} ValueOfFormatNat(n: nat)
    ensures ValueOf(FormatNat(n)) == n
  {
    var r := FormatNat(n);
    if n >= 10 {
      ValueOfFormatNat(n / 10);
      assert r[..|r| - 1] == FormatNat(n / 10);
    }
  }

  /** Without underscores every character is a digit that counts. */
  lemma {:induction false} DigitCountOfDigits(d: string)
    requires forall i :: 0 <= i < |d| ==> IsDigit(d[i])
    ensures DigitCount(d) == |d|
  {
    if d != [] {
      DigitCountOfDigits(d[..|d| - 1]);
    }
  }

  /** A non-empty run of digits is a valid digit body. */
  lemma DigitsAreGroups(d: string)
    requires |d| >= 1 && forall i :: 0 <= i < |d| ==> IsDigit(d[i])
    ensures DigitGroups(d)
  {
  }

  /** Parsing an unsigned digit body. */
  lemma ParseUnsigned(d: string)
    requires ValidBody(d) && IsDigit(d[|d| - 1])
    ensures ParseInt(d) == Some(ValueOf(d))
  {
    StripKeeps(d);
    NoSeparatorInBody(d);
  }

  /** Digits and underscores are no information separators. */
  lemma NoSeparatorInBody(d: string)
    requires DigitsOrUnderscores(d)
    ensures !HasInfoSeparator(d) && !HasInfoSeparator("-" + d)
  {
    var f := "-" + d;
    forall i | 0 <= i < |f| ensures !IsInfoSeparator(f[i]) {
      if i > 0 {
        assert f[i] == d[i - 1];
      }
    }
  }

  /** Parsing a minus-signed digit body. */
  lemma ParseNegative(d: string)
    requires ValidBody(d) && IsDigit(d[|d| - 1])
    ensures ParseInt("-" + d) == Some(-(ValueOf(d) as int))
  {
    var f := "-" + d;
    assert f[|f| - 1] == d[|d| - 1];
    StripKeeps(f);
    NegativeSigned(d);
    NoSeparatorInBody(d);
  }

  lemma NegativeSigned(d: string)
    requires ValidBody(d)
    ensures ParseSigned("-" + d) == Some(-(ValueOf(d) as int))
  {
    assert ("-" + d)[1..] == d;
  }

  /** `int(str(n)) == n`: the integer parser reads back every integer `str`
      prints. */
  lemma ParseFormat(n: int)
    requires Printable(n)
    ensures ParseInt(FormatInt(n)) == Some(n)
  {
    var d := FormatNat(Magnitude(n));
    ValueOfFormatNat(Magnitude(n));
    DigitsAreGroups(d);
    DigitCountOfDigits(d);
    if n < 0 {
      ParseNegative(d);
    } else {
      ParseUnsigned(d);
    }
  }

  /** A digit body over the limit is refused, signed or not, however
      well formed. */
  lemma LongBodyRefused(d: string)
    requires DigitGroups(d) && DigitCount(d) > MaxStrDigits
    ensures ParseInt(d) == None && ParseInt("-" + d) == None
  {
    NoSeparatorInBody(d);
    var f := "-" + d;
    assert f[|f| - 1] == d[|d| - 1];
    StripKeeps(d);
    StripKeeps(f);
    assert f[1..] == d;
  }

  /** A character that may occur in an integer literal after stripping. */
  predicate NumeralChar(c: char) {
    IsDigit(c) || c == '+' || c == '-' || c == '_'
  }

  /** A stripped text the parser accepts holds numeral characters only. */
  lemma {:induction false} AcceptedNumerals(t: string)
    requires (|t| > 0 && (t[0] == '+' || t[0] == '-') && DigitGroups(t[1..])) || DigitGroups(t)
    ensures forall k :: 0 <= k < |t| ==> NumeralChar(t[k])
  {
    forall k | 0 <= k < |t| ensures NumeralChar(t[k]) {
      if k > 0 && !DigitGroups(t) {
        assert t[1..][k - 1] == t[k];
      }
    }
  }

  /** Whatever the parser accepts is made of whitespace, digits, signs and
      underscores only: any other character makes `int()` raise. */
  lemma {:induction false} ParseIntCharacters(s: string)
    requires ParseInt(s).Some?
    ensures forall i :: 0 <= i < |s| ==> IsSpace(s[i]) || NumeralChar(s[i])
  {
    var t := Strip(s);
    StripCharacters(s);
    AcceptedNumerals(t);
  }

  /** A leading information separator is not skipped by `int()`, although
      `strip()` removes it. */
  lemma SeparatorNotSkipped()
    ensures Strip("\U{1C}15") == "15"
    ensures ParseInt("\U{1C}15") == None
  {
    var s := "\U{1C}15";
    assert IsInfoSeparator(s[0]);
    assert SkipSpaces(s, 1) == 1;
  }
}
