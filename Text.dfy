/** The pieces of the .NET base library that the modelled code relies on: white
    space, trimming, splitting and joining, Int32 parsing and printing, ordinal
    comparison, character replacement and case-insensitive keys. Strings are
    sequences of characters; C#'s `null` string is `None` where it matters. */
module Text {
  import opened Wrappers

  /** System.Int32. */
  type int32 = x: int | -0x8000_0000 <= x < 0x8000_0000

  /** char.IsWhiteSpace: the Unicode space, line and paragraph separators and
      the control characters U+0009-U+000D and U+0085. */
  predicate IsWhiteSpace(c: char) {
    || ('\t' <= c <= '\r') || c == ' ' || c == '\U{85}' || c == '\U{A0}' || c == '\U{1680}'
    || ('\U{2000}' <= c <= '\U{200A}') || c == '\U{2028}' || c == '\U{2029}'
    || c == '\U{202F}' || c == '\U{205F}' || c == '\U{3000}'
  }

  /** The white space int.Parse skips around a number (NumberStyles.Integer). */
  predicate IsNumberWhite(c: char) {
    ('\t' <= c <= '\r') || c == ' '
  }

  predicate IsDigit(c: char) {
    '0' <= c <= '9'
  }

  predicate AllDigits(s: string) {
    forall i | 0 <= i < |s| :: IsDigit(s[i])
  }

  // ---------------------------------------------------------------- trimming

  /** Drops the leading characters that satisfy `p`. */
  function TrimStartWhere(s: string, p: char -> bool): (r: string)
    ensures |r| <= |s| && r == s[|s| - |r|..]
    ensures r == [] || !p(r[0])
    ensures forall i | 0 <= i < |s| - |r| :: p(s[i])
  {
    if s == [] || !p(s[0]) then s else TrimStartWhere(s[1..], p)
  }

  /** Drops the trailing characters that satisfy `p`. */
  function TrimEndWhere(s: string, p: char -> bool): (r: string)
    ensures |r| <= |s| && r == s[..|r|]
    ensures r == [] || !p(r[|r| - 1])
    ensures forall i | |r| <= i < |s| :: p(s[i])
  {
    if s == [] || !p(s[|s| - 1]) then s else TrimEndWhere(s[..|s| - 1], p)
  }

  /** string.Trim(). */
  function Trim(s: string): string {
    TrimEndWhere(TrimStartWhere(s, IsWhiteSpace), IsWhiteSpace)
  }

  /** string.IsNullOrWhiteSpace. */
  predicate IsNullOrWhiteSpace(s: Option<string>) {
    s.None? || forall i | 0 <= i < |s.value| :: IsWhiteSpace(s.value[i])
  }

  lemma TrimStartWhereKeeps(s: string, p: char -> bool)
    requires s == [] || !p(s[0])
    ensures TrimStartWhere(s, p) == s
  {
  }

  lemma TrimEndWhereKeeps(s: string, p: char -> bool)
    requires s == [] || !p(s[|s| - 1])
    ensures TrimEndWhere(s, p) == s
  {
  }

  /** A string whose first and last characters are not white space is its own trim. */
  lemma TrimKeeps(s: string)
    requires s == [] || (!IsWhiteSpace(s[0]) && !IsWhiteSpace(s[|s| - 1]))
    ensures Trim(s) == s
  {
    TrimStartWhereKeeps(s, IsWhiteSpace);
    TrimEndWhereKeeps(s, IsWhiteSpace);
  }

  // ------------------------------------------------------ searching, splitting

  /** string.IndexOf(char), with -1 as `None`. */
  function IndexOf(s: string, c: char): (r: Option<nat>)
    ensures r.None? <==> c !in s
    ensures r.Some? ==> r.value < |s| && s[r.value] == c && c !in s[..r.value]
  {
    if s == [] then None
    else if s[0] == c then Some(0)
    else
      match IndexOf(s[1..], c)
      case None => None
      case Some(i) =>
        assert s[..i + 1] == [s[0]] + s[1..][..i];
        Some(i + 1)
  }

  lemma IndexOfJoined(a: string, c: char, b: string)
    requires c !in a
    ensures IndexOf(a + [c] + b, c) == Some(|a|)
  {
    var s := a + [c] + b;
    assert s[|a|] == c;
    assert s[..|a|] == a;
  }

  /** string.Split(c, 2): the text before the first `c` and the rest, or the
      whole string alone when there is no `c`. */
  function SplitOnce(s: string, c: char): (r: seq<string>)
    ensures 1 <= |r| <= 2
    ensures |r| == 1 <==> c !in s
    ensures |r| == 1 ==> r[0] == s
    ensures |r| == 2 ==> s == r[0] + [c] + r[1] && c !in r[0]
  {
    match IndexOf(s, c)
    case None => [s]
    case Some(i) =>
      assert s == s[..i] + [c] + s[i + 1..];
      [s[..i], s[i + 1..]]
  }

  /** string.Join(sep, parts). */
  function Join(sep: string, parts: seq<string>): string {
    if |parts| == 0 then ""
    else if |parts| == 1 then parts[0]
    else parts[0] + sep + Join(sep, parts[1..])
  }

  /** string.Split(c): every piece between occurrences of `c`, empty ones included. */
  function Split(s: string, c: char): (r: seq<string>)
    ensures |r| >= 1
    ensures forall k | 0 <= k < |r| :: c !in r[k]
    ensures r[0] == SplitOnce(s, c)[0]
    decreases |s|
  {
    match IndexOf(s, c)
    case None => [s]
    case Some(i) =>
      [s[..i]] + Split(s[i + 1..], c)
  }

  /** The second piece of string.Split(c) is the text after the first `c` up
      to the next one. */
  lemma SplitSecond(s: string, c: char)
    requires c in s
    ensures |Split(s, c)| >= 2
    ensures Split(s, c)[1] == SplitOnce(SplitOnce(s, c)[1], c)[0]
  {
    var parts := SplitOnce(s, c);
    SplitOnceJoined(parts[0], c, parts[1]);
    SplitOfJoined(parts[0], c, parts[1]);
  }

  /** A string without the separator splits into itself. */
  lemma SplitAbsent(s: string, c: char)
    requires c !in s
    ensures Split(s, c) == [s]
  {
  }

  lemma SplitOfJoined(a: string, c: char, b: string)
    requires c !in a
    ensures Split(a + [c] + b, c) == [a] + Split(b, c)
  {
    IndexOfJoined(a, c, b);
    var s := a + [c] + b;
    assert s[..|a|] == a;
    assert s[|a| + 1..] == b;
  }

  /** Splitting a join on a separator that no part contains gives the parts back. */
  lemma {:induction false} SplitJoin(parts: seq<string>, c: char)
    requires |parts| >= 1
    requires forall k | 0 <= k < |parts| :: c !in parts[k]
    ensures Split(Join([c], parts), c) == parts
  {
    if |parts| == 1 {
      assert c !in parts[0];
    } else {
      SplitJoin(parts[1..], c);
      SplitOfJoined(parts[0], c, Join([c], parts[1..]));
      assert parts == [parts[0]] + parts[1..];
    }
  }

  /** SplitOnce of a string with a known first separator. */
  lemma SplitOnceJoined(a: string, c: char, b: string)
    requires c !in a
    ensures SplitOnce(a + [c] + b, c) == [a, b]
  {
    IndexOfJoined(a, c, b);
    var s := a + [c] + b;
    assert s[..|a|] == a;
    assert s[|a| + 1..] == b;
  }

  // ------------------------------------------------------- Int32 and digits

  function DigitChar(d: nat): (c: char)
    requires d < 10
    ensures IsDigit(c)
  {
    ('0' as int + d) as char
  }

  function DigitValue(c: char): nat
    requires IsDigit(c)
  {
    c as int - '0' as int
  }

  /** The decimal digits of `n`, most significant first, without leading zeros. */
  function NatToString(n: nat): (r: string)
    ensures |r| >= 1 && AllDigits(r)
  {
    if n < 10 then [DigitChar(n)] else NatToString(n / 10) + [DigitChar(n % 10)]
  }

  /** Int32.ToString(): a `-` before the digits of a negative value. */
  function IntToString(n: int): string {
    if n < 0 then "-" + NatToString(-n) else NatToString(n)
  }

  /** The number a string of decimal digits denotes. */
  function DigitsValue(s: string): nat
    requires AllDigits(s)
  {
    if s == [] then 0 else DigitsValue(s[..|s| - 1]) * 10 + DigitValue(s[|s| - 1])
  }

  lemma {:induction false} DigitsValueOfNatToString(n: nat)
    ensures DigitsValue(NatToString(n)) == n
  {
    if n >= 10 {
      var s := NatToString(n);
      assert s[..|s| - 1] == NatToString(n / 10);
      DigitsValueOfNatToString(n / 10);
    }
  }

  /** The white space int.Parse skips at both ends. */
  function TrimNumberWhite(s: string): string {
    TrimEndWhere(TrimStartWhere(s, IsNumberWhite), IsNumberWhite)
  }

  /** The trimmed text int.Parse reads: an optional `+` or `-`, at least one
      decimal digit, and a value that fits in an Int32. */
  function ParseSignedDigits(t: string): (r: Result<int32>)
    ensures r.Err? ==> r.error == FormatException || r.error == OverflowException
  {
    var signed := |t| > 0 && (t[0] == '-' || t[0] == '+');
    var digits := if signed then t[1..] else t;
    if |digits| == 0 || !AllDigits(digits) then Err(FormatException)
    else
      var magnitude: int := DigitsValue(digits);
      var v: int := if signed && t[0] == '-' then -magnitude else magnitude;
      if -0x8000_0000 <= v < 0x8000_0000 then Ok(v) else Err(OverflowException)
  }

  /** int.Parse (NumberStyles.Integer): white space, an optional sign, decimal
      digits, white space; FormatException or OverflowException otherwise. */
  function ParseInt32(s: string): (r: Result<int32>)
    ensures r.Err? ==> r.error == FormatException || r.error == OverflowException
  {
    ParseSignedDigits(TrimNumberWhite(s))
  }

  /** Text without a digit is not a number. */
  lemma ParseInt32NoDigits(s: string)
    requires forall i | 0 <= i < |s| :: !IsDigit(s[i])
    ensures ParseInt32(s) == Err(FormatException)
  {
    var u := TrimStartWhere(s, IsNumberWhite);
    var t := TrimEndWhere(u, IsNumberWhite);
    assert t == TrimNumberWhite(s);
    if |t| > 0 {
      assert t[|t| - 1] == u[|t| - 1] == s[|s| - |u| + |t| - 1];
      var digits := if t[0] == '-' || t[0] == '+' then t[1..] else t;
      if |digits| > 0 {
        assert digits[|digits| - 1] == t[|t| - 1];
        assert !AllDigits(digits);
      }
    }
  }

  /** Printed integers carry no white space to trim. */
  lemma IntToStringTrimmed(n: int)
    ensures TrimNumberWhite(IntToString(n)) == IntToString(n)
  {
    var s := IntToString(n);
    var d := NatToString(if n < 0 then -n else n);
    assert s[|s| - 1] == d[|d| - 1];
    assert !IsNumberWhite(s[|s| - 1]);
    TrimStartWhereKeeps(s, IsNumberWhite);
    TrimEndWhereKeeps(s, IsNumberWhite);
  }

  lemma ParseInt32OfIntToString(n: int32)
    ensures ParseInt32(IntToString(n)) == Ok(n)
  {
    IntToStringTrimmed(n);
    var s := IntToString(n);
    var m: nat := if n < 0 then -(n as int) else n as int;
    DigitsValueOfNatToString(m);
    if n < 0 {
      assert s[1..] == NatToString(m);
    }
  }

  /** Int32.CompareTo: -1, 0 or 1. */
  function CompareInt(a: int, b: int): (r: int)
    ensures -1 <= r <= 1
    ensures r < 0 <==> a < b
    ensures r == 0 <==> a == b
  {
    if a < b then -1 else if a > b then 1 else 0
  }

  /** The characters of a printed integer are a `-` and decimal digits. */
  lemma IntToStringChars(n: int, c: char)
    requires c != '-' && !IsDigit(c)
    ensures c !in IntToString(n)
  {
    var d := NatToString(if n < 0 then -n else n);
    assert forall i | 0 <= i < |d| :: d[i] != c;
  }

  /** A printed non-negative integer starts and ends with a digit. */
  lemma IntToStringEnds(n: int)
    requires n >= 0
    ensures |IntToString(n)| > 0 && IsDigit(IntToString(n)[0]) && IsDigit(IntToString(n)[|IntToString(n)| - 1])
  {
  }

  // -------------------------------------------------------- ordinal compare

  /** The first character of a string as a number, or 0 for the empty string,
      whose only character is its terminating `\0`. */
  function FirstUnit(s: string): int {
    if s == [] then 0 else s[0] as int
  }

  /** The difference of the first differing characters, or of the lengths when
      one string is a prefix of the other. */
  function OrdinalDifference(a: string, b: string): int {
    if |a| == 0 || |b| == 0 then |a| - |b|
    else if a[0] != b[0] then a[0] as int - b[0] as int
    else OrdinalDifference(a[1..], b[1..])
  }

  /** string.CompareOrdinal on two non-null strings: the difference of the first
      characters when they differ, the empty string counting as `\0`; otherwise
      OrdinalDifference. Characters are compared as whole code points. */
  function CompareOrdinal(a: string, b: string): int {
    if FirstUnit(a) != FirstUnit(b) then FirstUnit(a) - FirstUnit(b)
    else OrdinalDifference(a, b)
  }

  /** The shortcut on the first characters never changes the sign. */
  lemma CompareOrdinalSign(a: string, b: string)
    ensures CompareOrdinal(a, b) < 0 <==> OrdinalDifference(a, b) < 0
    ensures CompareOrdinal(a, b) == 0 <==> OrdinalDifference(a, b) == 0
  {
  }

  lemma {:induction false} OrdinalDifferenceZero(a: string, b: string)
    ensures OrdinalDifference(a, b) == 0 <==> a == b
  {
    if |a| > 0 && |b| > 0 && a[0] == b[0] {
      OrdinalDifferenceZero(a[1..], b[1..]);
      assert a == [a[0]] + a[1..] && b == [b[0]] + b[1..];
    }
  }

  lemma {:induction false} OrdinalDifferenceAntisymmetric(a: string, b: string)
    ensures OrdinalDifference(b, a) == -OrdinalDifference(a, b)
  {
    if |a| > 0 && |b| > 0 && a[0] == b[0] {
      OrdinalDifferenceAntisymmetric(a[1..], b[1..]);
    }
  }

  lemma {:induction false} OrdinalDifferenceTransitive(a: string, b: string, c: string)
    requires OrdinalDifference(a, b) <= 0 && OrdinalDifference(b, c) <= 0
    ensures OrdinalDifference(a, c) <= 0
  {
    if |a| > 0 && |b| > 0 && |c| > 0 && a[0] == b[0] && b[0] == c[0] {
      OrdinalDifferenceTransitive(a[1..], b[1..], c[1..]);
    }
  }

  lemma CompareOrdinalZero(a: string, b: string)
    ensures CompareOrdinal(a, b) == 0 <==> a == b
  {
    CompareOrdinalSign(a, b);
    OrdinalDifferenceZero(a, b);
  }

  lemma CompareOrdinalAntisymmetric(a: string, b: string)
    ensures CompareOrdinal(b, a) == -CompareOrdinal(a, b)
  {
    OrdinalDifferenceAntisymmetric(a, b);
  }

  lemma CompareOrdinalTransitive(a: string, b: string, c: string)
    requires CompareOrdinal(a, b) <= 0 && CompareOrdinal(b, c) <= 0
    ensures CompareOrdinal(a, c) <= 0
  {
    CompareOrdinalSign(a, b);
    CompareOrdinalSign(b, c);
    CompareOrdinalSign(a, c);
    OrdinalDifferenceTransitive(a, b, c);
  }

  // ----------------------------------------------------- replace, case keys

  /** string.Replace(from, to) for one-character strings. */
  function ReplaceChar(s: string, from: char, to: char): (r: string)
    ensures |r| == |s|
    ensures forall i | 0 <= i < |s| :: r[i] == (if s[i] == from then to else s[i])
  {
    if s == [] then [] else [if s[0] == from then to else s[0]] + ReplaceChar(s[1..], from, to)
  }

  function ToUpperAscii(c: char): char {
    if 'a' <= c <= 'z' then (c as int - 32) as char else c
  }

  /** The key under which StringComparer.OrdinalIgnoreCase files a string. */
  function FoldCase(s: string): (r: string)
    ensures |r| == |s|
  {
    seq(|s|, i requires 0 <= i < |s| => ToUpperAscii(s[i]))
  }

  /** string.StartsWith(char). */
  predicate StartsWith(s: string, c: char) {
    |s| > 0 && s[0] == c
  }
}
