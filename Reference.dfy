/** A requirement on a package (Reference.cs): a name and a version range,
    written `name/range`. */
module References {
  import opened Wrappers
  import opened Text
  import R = VersionRanges

  datatype Reference = Reference(name: string, range: R.VersionRange)

  /** Reference.Parse: the text before the first `/` is the name and the second
      `/`-separated piece the range; further pieces are ignored, and text without
      `/` fails on `values[1]`. */
  function Parse(value: string): (r: Result<Reference>)
    ensures '/' !in value ==> r == Err(IndexOutOfRange)
    ensures r.Ok? ==> r.value.name == SplitOnce(value, '/')[0] && '/' !in r.value.name
    ensures '/' in value ==> (SplitSecond(value, '/');
      var parts := SplitOnce(value, '/');
      r == (var range :- R.Parse(SplitOnce(parts[1], '/')[0]); Ok(Reference(parts[0], range))))
  {
    var values := Split(value, '/');
    if |values| < 2 then Err(IndexOutOfRange)
    else
      var range :- R.Parse(values[1]);
      Ok(Reference(values[0], range))
  }

  /** Reference.ToString: `name/range`. */
  function ToString(r: Reference): string {
    r.name + "/" + R.ToString(r.range)
  }

  /** The references whose printed form parses back: no `/` in the name or in
      the tags, and a range that round-trips. */
  predicate RoundTrips(r: Reference) {
    && '/' !in r.name
    && R.RoundTrips(r.range)
    && (r.range.min.tag.Some? ==> '/' !in r.range.min.tag.value)
    && (r.range.max.Some? && r.range.max.value.tag.Some? ==> '/' !in r.range.max.value.tag.value)
  }

  /** Parse undoes ToString on every reference that round-trips. */
  lemma ParseToString(r: Reference)
    requires RoundTrips(r)
    ensures Parse(ToString(r)) == Ok(r)
  {
    var text := R.ToString(r.range);
    R.ToStringChars(r.range, '/');
    assert ToString(r) == r.name + ['/'] + text;
    SplitOfJoined(r.name, '/', text);
    SplitAbsent(text, '/');
    R.ParseToString(r.range);
  }
}
