/** A resolved package (Component.cs): a name and one version, written
    `name/version`. */
module Components {
  import opened Wrappers
  import opened Text
  import V = Versions
  import R = VersionRanges
  import References

  datatype Component = Component(name: string, version: V.Version)

  /** Component.Parse: the text before the first `/` is the name and the second
      `/`-separated piece goes through Version.Parse; further pieces are
      ignored, and text without `/` fails on `values[1]`. */
  function Parse(value: string): (r: Result<Component>)
    ensures '/' !in value ==> r == Err(IndexOutOfRange)
    ensures r.Ok? ==> r.value.name == SplitOnce(value, '/')[0] && '/' !in r.value.name
    ensures '/' in value ==> (SplitSecond(value, '/');
      var parts := SplitOnce(value, '/');
      r == (var version :- V.Parse(SplitOnce(parts[1], '/')[0]); Ok(Component(parts[0], version))))
  {
    var values := Split(value, '/');
    if |values| < 2 then Err(IndexOutOfRange)
    else
      var version :- V.Parse(values[1]);
      Ok(Component(values[0], version))
  }

  /** Component.ToString: `name/version`. */
  function ToString(c: Component): string {
    c.name + "/" + V.ToString(c.version)
  }

  /** The components whose printed form parses back. */
  predicate RoundTrips(c: Component) {
    '/' !in c.name && V.NonNegative(c.version) && (c.version.tag.Some? ==> '/' !in c.version.tag.value)
  }

  /** Parse undoes ToString on every component that round-trips. */
  lemma ParseToString(c: Component)
    requires RoundTrips(c)
    ensures Parse(ToString(c)) == Ok(c)
  {
    var text := V.ToString(c.version);
    V.ToStringChars(c.version, '/');
    assert ToString(c) == c.name + ['/'] + text;
    SplitOfJoined(c.name, '/', text);
    SplitAbsent(text, '/');
    V.ParseToString(c.version);
  }

  /** Component.ToReference: the requirement that only this version meets. */
  function ToReference(c: Component): (r: References.Reference)
    ensures r.name == c.name && R.IsPoint(r.range) && r.range.min == c.version
  {
    References.Reference(c.name, R.Exact(c.version))
  }

  /** A component prints exactly like its reference, since an exact range prints
      as the bare version. */
  lemma ToReferencePrintsAlike(c: Component)
    ensures References.ToString(ToReference(c)) == ToString(c)
  {
    R.ConstructorsPrint(c.version);
  }
}
