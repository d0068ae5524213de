/** A package version (Version.cs): three Int32 segments and an optional
    pre-release tag, ordered segment by segment and then by tag. */
module Versions {
  import opened Wrappers
  import opened Text

  datatype Version = Version(major: int32, minor: int32, patch: int32, tag: Option<string>)

  // ---------------------------------------------------------------- ordering

  /** The tie-break of CompareTo on equal segments: no tag sorts after any tag,
      two tags compare ordinally, two missing tags are equal. */
  function CompareTags(a: Option<string>, b: Option<string>): int {
    if a.None? && b.Some? then 1
    else if a.Some? && b.None? then -1
    else if a.None? then 0
    else CompareOrdinal(a.value, b.value)
  }

  /** Version.CompareTo: an early-return chain over major, minor and patch,
      then the tags. */
  function CompareTo(a: Version, other: Version): int {
    var major := CompareInt(a.major, other.major);
    if major != 0 then major
    else
      var minor := CompareInt(a.minor, other.minor);
      if minor != 0 then minor
      else
        var patch := CompareInt(a.patch, other.patch);
        if patch != 0 then patch
        else CompareTags(a.tag, other.tag)
  }

  /** The order CompareTo is meant to implement, written as a lexicographic
      comparison: a release comes after every pre-release of the same
      segments, and tags compare ordinally. */
  predicate Precedes(a: Version, b: Version) {
    || a.major < b.major
    || (a.major == b.major && a.minor < b.minor)
    || (a.major == b.major && a.minor == b.minor && a.patch < b.patch)
    || (a.major == b.major && a.minor == b.minor && a.patch == b.patch && a.tag.Some? && b.tag.None?)
    || (a.major == b.major && a.minor == b.minor && a.patch == b.patch &&
        a.tag.Some? && b.tag.Some? && CompareOrdinal(a.tag.value, b.tag.value) < 0)
  }

  function Sign(n: int): int {
    if n < 0 then -1 else if n > 0 then 1 else 0
  }

  /** CompareTo is negative exactly when the first version precedes the second. */
  lemma CompareToPrecedes(a: Version, b: Version)
    ensures CompareTo(a, b) < 0 <==> Precedes(a, b)
  {
  }

  /** CompareTo is zero exactly on equal versions. */
  lemma CompareToZero(a: Version, b: Version)
    ensures CompareTo(a, b) == 0 <==> a == b
  {
    if a.major == b.major && a.minor == b.minor && a.patch == b.patch && a.tag.Some? && b.tag.Some? {
      CompareOrdinalZero(a.tag.value, b.tag.value);
    }
  }

  /** Swapping the arguments flips the sign of CompareTo. */
  lemma CompareToAntisymmetric(a: Version, b: Version)
    ensures Sign(CompareTo(b, a)) == -Sign(CompareTo(a, b))
  {
    if a.major == b.major && a.minor == b.minor && a.patch == b.patch && a.tag.Some? && b.tag.Some? {
      CompareOrdinalAntisymmetric(a.tag.value, b.tag.value);
    }
  }

  /** "Not after" is transitive, so CompareTo is a total order. */
  lemma CompareToTransitive(a: Version, b: Version, c: Version)
    requires CompareTo(a, b) <= 0 && CompareTo(b, c) <= 0
    ensures CompareTo(a, c) <= 0
  {
    if a.major == b.major == c.major && a.minor == b.minor == c.minor && a.patch == b.patch == c.patch
       && a.tag.Some? && b.tag.Some? && c.tag.Some? {
      CompareOrdinalTransitive(a.tag.value, b.tag.value, c.tag.value);
    }
  }

  /** A release sorts after every pre-release with the same segments. */
  lemma ReleaseAfterPreRelease(a: Version, tag: string)
    ensures CompareTo(a.(tag := None), a.(tag := Some(tag))) > 0
    ensures CompareTo(a.(tag := Some(tag)), a.(tag := None)) < 0
  {
  }

  // ---------------------------------------------------------------- printing

  /** The `major.minor.patch` part of the printed form. */
  function NumericText(v: Version): string {
    IntToString(v.major) + "." + IntToString(v.minor) + "." + IntToString(v.patch)
  }

  /** Version.ToString: `major.minor.patch`, then `-tag` when there is a tag. */
  function ToString(v: Version): string {
    NumericText(v) + (if v.tag.Some? then "-" + v.tag.value else "")
  }

  /** The segments of a version whose segments are all non-negative. */
  predicate NonNegative(v: Version) {
    v.major >= 0 && v.minor >= 0 && v.patch >= 0
  }

  /** A printed version is made of the printed segments, `.`, `-` and the tag. */
  lemma ToStringChars(v: Version, c: char)
    requires c != '.' && c != '-' && !IsDigit(c)
    requires v.tag.Some? ==> c !in v.tag.value
    ensures c !in ToString(v)
  {
    IntToStringChars(v.major, c);
    IntToStringChars(v.minor, c);
    IntToStringChars(v.patch, c);
  }

  /** A printed version with non-negative segments starts with a digit and ends
      with a digit or with the tag (a `-` when the tag is empty). */
  lemma ToStringEnds(v: Version)
    requires NonNegative(v)
    ensures |ToString(v)| > 0 && IsDigit(ToString(v)[0])
    ensures v.tag.None? || v.tag.value == [] ==> !IsWhiteSpace(ToString(v)[|ToString(v)| - 1])
    ensures v.tag.Some? && v.tag.value != [] ==>
      ToString(v)[|ToString(v)| - 1] == v.tag.value[|v.tag.value| - 1]
  {
    IntToStringEnds(v.major);
    IntToStringEnds(v.patch);
    var s := ToString(v);
    assert s[0] == IntToString(v.major)[0];
  }

  // ----------------------------------------------------------------- parsing

  /** `Select(parse).ToArray()`: every piece is parsed, in order, and the
      first failure is thrown. */
  function ParseAll(pieces: seq<string>, parse: string -> Result<int32>): (r: Result<seq<int32>>)
    ensures r.Ok? ==> |r.value| == |pieces| && forall k | 0 <= k < |pieces| :: parse(pieces[k]) == Ok(r.value[k])
    ensures r.Err? <==> exists k | 0 <= k < |pieces| :: parse(pieces[k]).Err?
    ensures r.Err? ==> exists k | 0 <= k < |pieces| :: parse(pieces[k]) == Err(r.error)
  {
    if pieces == [] then Ok([])
    else
      match parse(pieces[0])
      case Err(e) => Err(e)
      case Ok(head) =>
        match ParseAll(pieces[1..], parse)
        case Err(e) =>
          var k :| 0 <= k < |pieces[1..]| && parse(pieces[1..][k]) == Err(e);
          assert parse(pieces[k + 1]) == Err(e);
          Err(e)
        case Ok(tail) =>
          assert forall k | 1 <= k < |pieces| :: pieces[k] == pieces[1..][k - 1];
          Ok([head] + tail)
  }

  /** The dot-separated pieces before the first `-`. */
  function NumericPieces(s: string): seq<string> {
    Split(SplitOnce(s, '-')[0], '.')
  }

  /** Version.TryParse: `null` (Ok(None)) exactly for null or blank text; text
      that is not blank either parses or throws. The text splits on the first
      `-` (the tag may hold more); every dot-separated piece before it goes
      through int.Parse, and the first three are the segments. */
  function TryParse(value: Option<string>): (r: Result<Option<Version>>)
    ensures r == Ok(None) <==> IsNullOrWhiteSpace(value)
  {
    if IsNullOrWhiteSpace(value) then Ok(None)
    else
      var parts := SplitOnce(value.value, '-');
      var numbers :- ParseAll(Split(parts[0], '.'), ParseInt32);
      if |numbers| < 3 then Err(IndexOutOfRange)
      else Ok(Some(Version(numbers[0], numbers[1], numbers[2], if |parts| == 1 then None else Some(parts[1]))))
  }

  /** Text that is not blank either parses or throws: it throws exactly when
      some dot-separated piece before the first `-` is not an Int32, or when
      there are fewer than three pieces. */
  lemma TryParseFails(value: string)
    requires !IsNullOrWhiteSpace(Some(value))
    ensures TryParse(Some(value)).Ok? ==> TryParse(Some(value)).value.Some?
    ensures TryParse(Some(value)).Err? <==>
      || (exists k | 0 <= k < |NumericPieces(value)| :: ParseInt32(NumericPieces(value)[k]).Err?)
      || |NumericPieces(value)| < 3
  {
  }

  /** Version.Parse: TryParse and `.Value`, which throws on blank text. */
  function Parse(value: string): (r: Result<Version>)
    ensures IsNullOrWhiteSpace(Some(value)) ==> r == Err(NullableHasNoValue)
    ensures !IsNullOrWhiteSpace(Some(value)) ==> (r.Ok? <==> TryParse(Some(value)).Ok?)
    ensures r.Ok? ==> TryParse(Some(value)) == Ok(Some(r.value))
    ensures TryParse(Some(value)).Err? ==> r == Err(TryParse(Some(value)).error)
  {
    match TryParse(Some(value))
    case Err(e) => Err(e)
    case Ok(None) => Err(NullableHasNoValue)
    case Ok(Some(v)) => Ok(v)
  }

  /** The printed segments split back on `.`. */
  lemma NumericTextPieces(v: Version)
    requires NonNegative(v)
    ensures Split(NumericText(v), '.') == [IntToString(v.major), IntToString(v.minor), IntToString(v.patch)]
    ensures ParseAll(Split(NumericText(v), '.'), ParseInt32) == Ok([v.major, v.minor, v.patch])
  {
    var a, b, c := IntToString(v.major), IntToString(v.minor), IntToString(v.patch);
    IntToStringChars(v.major, '.');
    IntToStringChars(v.minor, '.');
    IntToStringChars(v.patch, '.');
    assert Join(".", [a, b, c]) == NumericText(v) by {
      assert [a, b, c][1..] == [b, c];
      assert [b, c][1..] == [c];
      assert Join(".", [c]) == c;
      assert Join(".", [b, c]) == b + "." + c;
    }
    SplitJoin([a, b, c], '.');
    ParseInt32OfIntToString(v.major);
    ParseInt32OfIntToString(v.minor);
    ParseInt32OfIntToString(v.patch);
    ParseAllThree(a, b, c, ParseInt32);
  }

  lemma ParseAllThree(a: string, b: string, c: string, parse: string -> Result<int32>)
    requires parse(a).Ok? && parse(b).Ok? && parse(c).Ok?
    ensures ParseAll([a, b, c], parse) == Ok([parse(a).value, parse(b).value, parse(c).value])
  {
    assert [c][1..] == [];
    assert ParseAll([c], parse).Ok? && ParseAll([c], parse).value == [parse(c).value];
    assert [b, c][1..] == [c];
    assert ParseAll([b, c], parse).Ok? && ParseAll([b, c], parse).value == [parse(b).value, parse(c).value];
    assert [a, b, c][1..] == [b, c];
    assert ParseAll([a, b, c], parse).Ok? && ParseAll([a, b, c], parse).value == [parse(a).value, parse(b).value, parse(c).value];
  }

  /** The printed form splits on its first `-` into the segments and the tag. */
  lemma ToStringSplitsAtDash(v: Version)
    requires NonNegative(v)
    ensures SplitOnce(ToString(v), '-') == if v.tag.Some? then [NumericText(v), v.tag.value] else [NumericText(v)]
  {
    var numeric := NumericText(v);
    assert AllDigits(IntToString(v.major)) && AllDigits(IntToString(v.minor)) && AllDigits(IntToString(v.patch));
    assert forall i | 0 <= i < |numeric| :: numeric[i] == '.' || IsDigit(numeric[i]);
    if v.tag.Some? {
      assert ToString(v) == numeric + ['-'] + v.tag.value;
      SplitOnceJoined(numeric, '-', v.tag.value);
    } else {
      assert ToString(v) == numeric;
    }
  }

  /** Parsing a printed version with non-negative segments gives it back. */
  lemma TryParseToString(v: Version)
    requires NonNegative(v)
    ensures TryParse(Some(ToString(v))) == Ok(Some(v))
  {
    var s := ToString(v);
    ToStringEnds(v);
    assert !IsWhiteSpace(s[0]);
    assert !IsNullOrWhiteSpace(Some(s));
    ToStringSplitsAtDash(v);
    var parts := SplitOnce(s, '-');
    assert parts[0] == NumericText(v);
    NumericTextPieces(v);
    var numbers := [v.major, v.minor, v.patch];
    assert ParseAll(Split(parts[0], '.'), ParseInt32) == Ok(numbers);
    assert (if |parts| == 1 then None else Some(parts[1])) == v.tag;
  }

  lemma ParseToString(v: Version)
    requires NonNegative(v)
    ensures Parse(ToString(v)) == Ok(v)
  {
    TryParseToString(v);
  }
}
