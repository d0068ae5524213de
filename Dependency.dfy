/** One edge of the dependency graph (Dependency.cs): a component and a
    requirement it has. */
module Dependencies {
  import opened Wrappers
  import opened Text
  import V = Versions
  import R = VersionRanges
  import C = Components
  import References

  datatype Dependency = Dependency(component: C.Component, reference: References.Reference)

  /** Dependency.ToString: `component -> reference`. */
  function ToString(d: Dependency): string {
    C.ToString(d.component) + " -> " + References.ToString(d.reference)
  }

  /** A component printed without spaces. */
  predicate SpaceFree(c: C.Component) {
    ' ' !in c.name && (c.version.tag.Some? ==> ' ' !in c.version.tag.value)
  }

  /** The printed edge starts with the printed component, up to the first
      space, so the component can be read back from it. */
  lemma ToStringStartsWithComponent(d: Dependency)
    requires SpaceFree(d.component) && C.RoundTrips(d.component)
    ensures SplitOnce(ToString(d), ' ')[0] == C.ToString(d.component)
    ensures C.Parse(SplitOnce(ToString(d), ' ')[0]) == Ok(d.component)
  {
    var head := C.ToString(d.component);
    V.ToStringChars(d.component.version, ' ');
    assert ' ' !in head;
    assert ToString(d) == head + [' '] + ("-> " + References.ToString(d.reference));
    SplitOnceJoined(head, ' ', "-> " + References.ToString(d.reference));
    C.ParseToString(d.component);
  }
}
