/** The graph's nodes (ComponentNode.cs) and the indices Program.Main builds
    over the edges: the de-duplicated edge list, the node dictionary and the
    forward and backward lookups. */
module Nodes {
  import R = VersionRanges
  import C = Components
  import References
  import opened Dependencies

  /** A package name with every distinct range under which it appears. */
  datatype ComponentNode = ComponentNode(name: string, ranges: seq<R.VersionRange>)

  predicate NoDuplicates<T(==)>(s: seq<T>) {
    forall i, j | 0 <= i < j < |s| :: s[i] != s[j]
  }

  // ------------------------------------------------------------------ Distinct

  /** Enumerable.Distinct over `s`, once the values in `seen` have already
      been met: the first occurrence of every other value, in order. */
  function DistinctFrom<T(==)>(s: seq<T>, seen: set<T>): (r: seq<T>)
    ensures forall x | x in r :: x in s && x !in seen
    ensures forall x | x in s && x !in seen :: x in r
    ensures NoDuplicates(r)
  {
    if s == [] then []
    else if s[0] in seen then DistinctFrom(s[1..], seen)
    else [s[0]] + DistinctFrom(s[1..], seen + {s[0]})
  }

  /** Enumerable.Distinct. */
  function Distinct<T(==)>(s: seq<T>): (r: seq<T>)
    ensures forall x | x in r :: x in s
    ensures forall x | x in s :: x in r
    ensures NoDuplicates(r)
  {
    DistinctFrom(s, {})
  }

  /** Distinct works left to right: the second half only adds what the first
      half did not contain. */
  lemma {:induction false} DistinctFromAppend<T>(a: seq<T>, b: seq<T>, seen: set<T>)
    ensures DistinctFrom(a + b, seen) == DistinctFrom(a, seen) + DistinctFrom(b, seen + set x | x in a)
  {
    if a == [] {
      assert a + b == b;
      assert seen + (set x | x in a) == seen;
    } else {
      assert (a + b)[1..] == a[1..] + b;
      if a[0] in seen {
        DistinctFromAppend(a[1..], b, seen);
        assert seen + (set x | x in a[1..]) == seen + (set x | x in a);
      } else {
        DistinctFromAppend(a[1..], b, seen + {a[0]});
        assert seen + {a[0]} + (set x | x in a[1..]) == seen + (set x | x in a);
      }
    }
  }

  lemma {:induction false} DistinctFromNothingNew<T>(m: seq<T>, seen: set<T>)
    requires forall x | x in m :: x in seen
    ensures DistinctFrom(m, seen) == []
  {
    if m != [] {
      DistinctFromNothingNew(m[1..], seen);
    }
  }

  /** Values met before contribute nothing. */
  lemma DistinctFromSeen<T>(m: seq<T>, b: seq<T>, seen: set<T>)
    requires forall x | x in m :: x in seen
    ensures DistinctFrom(m + b, seen) == DistinctFrom(b, seen)
  {
    DistinctFromAppend(m, b, seen);
    DistinctFromNothingNew(m, seen);
    assert seen + (set x | x in m) == seen;
  }

  /** Inserting copies of earlier values anywhere does not change Distinct. */
  lemma DistinctAbsorbs<T>(a: seq<T>, m: seq<T>, b: seq<T>)
    requires forall x | x in m :: x in a
    ensures Distinct(a + m + b) == Distinct(a + b)
  {
    var seen := set x | x in a;
    assert a + m + b == a + (m + b);
    DistinctFromAppend(a, m + b, {});
    DistinctFromAppend(a, b, {});
    assert {} + seen == seen;
    DistinctFromSeen(m, b, seen);
  }

  // ----------------------------------------------------------------- GetNodes

  /** The two endpoints of one edge: the depending component as an exact
      requirement, and the requirement itself. */
  function EndpointsOf(d: Dependency): seq<References.Reference> {
    [C.ToReference(d.component), d.reference]
  }

  /** `from d in dependencies from x in new[] {...}`: every endpoint, edge by edge. */
  function Endpoints(deps: seq<Dependency>): (r: seq<References.Reference>)
    ensures |r| == 2 * |deps|
    ensures forall d | d in deps :: C.ToReference(d.component) in r && d.reference in r
  {
    if deps == [] then [] else EndpointsOf(deps[0]) + Endpoints(deps[1..])
  }

  lemma {:induction false} EndpointsAppend(a: seq<Dependency>, b: seq<Dependency>)
    ensures Endpoints(a + b) == Endpoints(a) + Endpoints(b)
  {
    if a == [] {
      assert a + b == b;
    } else {
      assert (a + b)[1..] == a[1..] + b;
      EndpointsAppend(a[1..], b);
    }
  }

  /** Every endpoint belongs to one of the edges. */
  lemma {:induction false} EndpointsFrom(deps: seq<Dependency>, e: References.Reference)
    requires e in Endpoints(deps)
    ensures exists d | d in deps :: e == C.ToReference(d.component) || e == d.reference
  {
    if e !in EndpointsOf(deps[0]) {
      EndpointsFrom(deps[1..], e);
    }
  }

  function Names(eps: seq<References.Reference>): (r: seq<string>)
    ensures |r| == |eps|
    ensures forall i | 0 <= i < |eps| :: r[i] == eps[i].name
  {
    seq(|eps|, i requires 0 <= i < |eps| => eps[i].name)
  }

  /** The ranges filed under `name`, in endpoint order (one group of the group-by). */
  function RangesOf(eps: seq<References.Reference>, name: string): (r: seq<R.VersionRange>)
    ensures forall x :: x in r <==> References.Reference(name, x) in eps
  {
    if eps == [] then []
    else (if eps[0].name == name then [eps[0].range] else []) + RangesOf(eps[1..], name)
  }

  lemma {:induction false} RangesOfAppend(a: seq<References.Reference>, b: seq<References.Reference>, name: string)
    ensures RangesOf(a + b, name) == RangesOf(a, name) + RangesOf(b, name)
  {
    if a == [] {
      assert a + b == b;
    } else {
      assert (a + b)[1..] == a[1..] + b;
      RangesOfAppend(a[1..], b, name);
    }
  }

  predicate NamesUnique(nodes: seq<ComponentNode>) {
    forall i, j | 0 <= i < j < |nodes| :: nodes[i].name != nodes[j].name
  }

  function NodeNames(nodes: seq<ComponentNode>): seq<string> {
    seq(|nodes|, i requires 0 <= i < |nodes| => nodes[i].name)
  }

  /** The node for `name`: its distinct ranges, in order of first appearance. */
  function NodeOf(eps: seq<References.Reference>, name: string): (r: ComponentNode)
    ensures r.name == name && NoDuplicates(r.ranges)
    ensures forall x :: x in r.ranges <==> References.Reference(name, x) in eps
  {
    ComponentNode(name, Distinct(RangesOf(eps, name)))
  }

  /** The select of the group-by, over a list of endpoints. */
  function NodesOf(eps: seq<References.Reference>): (r: seq<ComponentNode>)
    ensures NamesUnique(r)
    ensures forall n :: n in NodeNames(r) <==> n in Names(eps)
    ensures forall i | 0 <= i < |r| :: r[i] == NodeOf(eps, r[i].name)
  {
    var names := Distinct(Names(eps));
    var r := seq(|names|, i requires 0 <= i < |names| => NodeOf(eps, names[i]));
    assert NodeNames(r) == names;
    r
  }

  /** ComponentNode.GetNodes: one node per endpoint name, in order of first
      appearance, holding the distinct ranges filed under that name. */
  function GetNodes(deps: seq<Dependency>): (r: seq<ComponentNode>)
    ensures NamesUnique(r)
    ensures forall n :: n in NodeNames(r) <==> n in Names(Endpoints(deps))
    ensures forall i | 0 <= i < |r| :: NoDuplicates(r[i].ranges)
    ensures forall i, x | 0 <= i < |r| :: x in r[i].ranges <==> References.Reference(r[i].name, x) in Endpoints(deps)
  {
    NodesOf(Endpoints(deps))
  }

  /** Endpoints that repeat earlier ones change no node. */
  lemma NodesOfAbsorbs(ea: seq<References.Reference>, em: seq<References.Reference>, eb: seq<References.Reference>)
    requires forall e | e in em :: e in ea
    ensures NodesOf(ea + em + eb) == NodesOf(ea + eb)
  {
    assert Names(ea + em + eb) == Names(ea) + Names(em) + Names(eb);
    assert Names(ea + eb) == Names(ea) + Names(eb);
    forall n | n in Names(em)
      ensures n in Names(ea)
    {
      var k :| 0 <= k < |em| && Names(em)[k] == n;
      var e := em[k];
      assert e in em;
      var j :| 0 <= j < |ea| && ea[j] == e;
      assert Names(ea)[j] == n;
    }
    DistinctAbsorbs(Names(ea), Names(em), Names(eb));
    forall n
      ensures NodeOf(ea + em + eb, n) == NodeOf(ea + eb, n)
    {
      RangesOfAppend(ea + em, eb, n);
      RangesOfAppend(ea, em, n);
      RangesOfAppend(ea, eb, n);
      DistinctAbsorbs(RangesOf(ea, n), RangesOf(em, n), RangesOf(eb, n));
    }
  }

  /** Listing an edge a second time, anywhere after its first occurrence,
      changes no node and no node order. */
  lemma GetNodesDuplicate(deps: seq<Dependency>, k: nat, i: nat)
    requires k < i <= |deps|
    ensures GetNodes(deps[..i] + [deps[k]] + deps[i..]) == GetNodes(deps)
  {
    var a, m, b := deps[..i], [deps[k]], deps[i..];
    assert deps == a + b;
    EndpointsAppend(a + m, b);
    EndpointsAppend(a, m);
    EndpointsAppend(a, b);
    var ea, em, eb := Endpoints(a), Endpoints(m), Endpoints(b);
    assert deps[k] in a;
    assert em == EndpointsOf(deps[k]) by {
      assert m[1..] == [];
    }
    NodesOfAbsorbs(ea, em, eb);
  }

  /** Both endpoint names of every edge name a node. */
  lemma GetNodesNamesEdges(deps: seq<Dependency>, d: Dependency)
    requires d in deps
    ensures d.component.name in NodeNames(GetNodes(deps)) && d.reference.name in NodeNames(GetNodes(deps))
  {
    var eps := Endpoints(deps);
    var c := C.ToReference(d.component);
    var ic :| 0 <= ic < |eps| && eps[ic] == c;
    var ir :| 0 <= ir < |eps| && eps[ir] == d.reference;
    assert Names(eps)[ic] == d.component.name && Names(eps)[ir] == d.reference.name;
  }

  // --------------------------------------------------------- Program.Main indices

  /** `ToDictionary(c => c.Name)`, which needs the names to be distinct. */
  function NodeMap(nodes: seq<ComponentNode>): (m: map<string, ComponentNode>)
    requires NamesUnique(nodes)
    ensures forall i | 0 <= i < |nodes| :: nodes[i].name in m && m[nodes[i].name] == nodes[i]
    ensures forall n | n in m :: n in NodeNames(nodes) && m[n].name == n
  {
    assert forall i | 0 <= i < |nodes| :: NodeNames(nodes)[i] == nodes[i].name;
    map i | 0 <= i < |nodes| :: nodes[i].name := nodes[i]
  }

  /** Every edge finds both of its endpoint names in the dictionary, with the
      component's exact version and the requirement's range among the ranges. */
  lemma NodeMapCovers(deps: seq<Dependency>, d: Dependency)
    requires d in deps
    ensures var m := NodeMap(GetNodes(deps));
      && d.component.name in m && R.Exact(d.component.version) in m[d.component.name].ranges
      && d.reference.name in m && d.reference.range in m[d.reference.name].ranges
  {
    var nodes := GetNodes(deps);
    var eps := Endpoints(deps);
    var m := NodeMap(nodes);
    var c := C.ToReference(d.component);
    assert c in eps && d.reference in eps;
    var ic :| 0 <= ic < |eps| && eps[ic] == c;
    var ir :| 0 <= ir < |eps| && eps[ir] == d.reference;
    assert Names(eps)[ic] == c.name && Names(eps)[ir] == d.reference.name;
    assert c.name in NodeNames(nodes) && d.reference.name in NodeNames(nodes);
    var jc :| 0 <= jc < |nodes| && NodeNames(nodes)[jc] == c.name;
    var jr :| 0 <= jr < |nodes| && NodeNames(nodes)[jr] == d.reference.name;
    assert m[c.name] == nodes[jc];
    assert m[d.reference.name] == nodes[jr];
  }

  /** Which end of an edge a lookup is keyed on. */
  datatype Direction = Forward | Backward

  /** The key of the lookup: `d.Component.Name` forward, `d.Reference.Name` backward. */
  function Near(dir: Direction, d: Dependency): string {
    if dir == Forward then d.component.name else d.reference.name
  }

  /** The other end of the edge, where a sweep goes next. */
  function Far(dir: Direction, d: Dependency): string {
    if dir == Forward then d.reference.name else d.component.name
  }

  /** `dependencies.ToLookup(key)[name]`: the edges whose key is `name`, in
      edge order; empty for a name that is no key. */
  function Links(deps: seq<Dependency>, dir: Direction, name: string): (r: seq<Dependency>)
    ensures |r| <= |deps|
  {
    if deps == [] then []
    else (if Near(dir, deps[0]) == name then [deps[0]] else []) + Links(deps[1..], dir, name)
  }

  /** The edges a lookup yields are exactly the edges keyed on `name`. */
  lemma {:induction false} LinksMembers(deps: seq<Dependency>, dir: Direction, name: string)
    ensures forall d :: d in Links(deps, dir, name) <==> d in deps && Near(dir, d) == name
  {
    if deps != [] {
      LinksMembers(deps[1..], dir, name);
      assert deps == [deps[0]] + deps[1..];
    }
  }
}
