/** One version segment (VersionPart.cs): an Int32 whose negative values
    STAR, ABSENT and UNKNOWN stand for `*`, a missing segment and text that
    is not a number. */
module VersionParts {
  import opened Wrappers
  import opened Text

  datatype VersionPart = VersionPart(value: int32)

  const UNKNOWN: int32 := -1
  const ABSENT: int32 := -2
  const STAR: int32 := -3

  const Unknown := VersionPart(UNKNOWN)
  const Absent := VersionPart(ABSENT)
  const Star := VersionPart(STAR)

  /** A segment is present when it holds a real (non-negative) number. */
  predicate IsPresent(p: VersionPart) {
    p.value >= 0
  }

  /** The number a segment sorts as: the value itself, or 0 for a sentinel. */
  function ComparisonValue(p: VersionPart): (r: int32)
    ensures r >= 0
    ensures r == p.value <==> IsPresent(p)
    ensures !IsPresent(p) ==> r == 0
  {
    if IsPresent(p) then p.value else 0
  }

  /** VersionPart.Parse never throws: `*`, the empty string and `null` give the
      sentinels, integer text (as int.TryParse reads it) its value, anything
      else UNKNOWN. Like the source it returns the raw int. */
  function Parse(value: Option<string>): (r: int32)
    ensures value == None || value == Some("") ==> r == ABSENT
    ensures value == Some("*") ==> r == STAR
    ensures value.Some? && value.value != "*" && value.value != "" && ParseInt32(value.value).Err? ==> r == UNKNOWN
    ensures value.Some? && value.value != "*" && value.value != "" && ParseInt32(value.value).Ok? ==> r == ParseInt32(value.value).value
  {
    match value
    case None => ABSENT
    case Some(s) =>
      if s == "*" then STAR
      else if s == "" then ABSENT
      else
        match ParseInt32(s)
        case Ok(v) => v
        case Err(_) => UNKNOWN
  }

  /** VersionPart.ToString: the sentinels print as `*`, `` and `?`. */
  function ToString(p: VersionPart): string {
    if p.value == STAR then "*"
    else if p.value == ABSENT then ""
    else if p.value == UNKNOWN then "?"
    else IntToString(p.value)
  }

  /** Parsing the printed form of any segment, sentinel or not, gives its value back. */
  lemma ParseToString(p: VersionPart)
    ensures Parse(Some(ToString(p))) == p.value
  {
    var s := ToString(p);
    if p.value == UNKNOWN {
      ParseInt32NoDigits(s);
    } else if p.value != STAR && p.value != ABSENT {
      ParseInt32OfIntToString(p.value);
      IntToStringChars(p.value, '*');
      assert s != "*" && s != "";
    }
  }

  /** Distinct segments print differently. */
  lemma ToStringInjective(p: VersionPart, q: VersionPart)
    requires ToString(p) == ToString(q)
    ensures p == q
  {
    ParseToString(p);
    ParseToString(q);
  }

  /** CompareTo(VersionPart): Int32.CompareTo on the raw values. */
  function CompareTo(p: VersionPart, other: VersionPart): (r: int)
    ensures -1 <= r <= 1
    ensures r == 0 <==> p == other
    ensures r < 0 <==> p.value < other.value
  {
    CompareInt(p.value, other.value)
  }

  /** The raw order puts the sentinels below every present segment, in the order
      STAR, ABSENT, UNKNOWN, although all of them sort as 0 by ComparisonValue. */
  lemma SentinelOrder(p: VersionPart)
    requires IsPresent(p)
    ensures CompareTo(Star, Absent) < 0 && CompareTo(Absent, Unknown) < 0 && CompareTo(Unknown, p) < 0
    ensures ComparisonValue(Star) == ComparisonValue(Absent) == ComparisonValue(Unknown) == ComparisonValue(VersionPart(0))
    ensures CompareTo(Star, VersionPart(0)) != 0
  {
  }

  /** What CompareTo(object?) may be handed. */
  datatype Boxed = NullObject | BoxedPart(part: VersionPart) | OtherObject

  /** CompareTo(object?): 1 for null, an ArgumentException for a foreign type. */
  function CompareToObject(p: VersionPart, obj: Boxed): (r: Result<int>)
    ensures obj.NullObject? ==> r == Ok(1)
    ensures obj.OtherObject? ==> r == Err(WrongObjectType)
    ensures obj.BoxedPart? ==> r.Ok? && (r.value == 0 <==> p == obj.part)
  {
    match obj
    case NullObject => Ok(1)
    case BoxedPart(other) => Ok(CompareTo(p, other))
    case OtherObject => Err(WrongObjectType)
  }

  /** implicit operator int(VersionPart). */
  function ToInt(p: VersionPart): int32 {
    p.value
  }

  /** implicit operator VersionPart(int). */
  function FromInt(value: int32): VersionPart {
    VersionPart(value)
  }

  /** The two implicit conversions undo each other. */
  lemma ConversionsInverse(p: VersionPart, n: int32)
    ensures FromInt(ToInt(p)) == p && ToInt(FromInt(n)) == n
  {
  }
}
