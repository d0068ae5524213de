/** Program.WriteToOutput: the edges that pass the four filters, written as a
    Mermaid flowchart, each node declared with its label at its first mention;
    and the URL-safe character substitution applied to the base64 payload. */
module Render {
  import opened Text
  import opened Dependencies
  import opened Nodes
  import V = Versions
  import R = VersionRanges
  import References
  import Components
  import Extensions

  // ------------------------------------------------------------ the filters

  /** The four patterns, each an opaque match predicate: `Filter`,
      `StrongFilter`, `Exclude` and `WeakExclude`. */
  datatype Filters = Filters(filter: string -> bool, strong: string -> bool, exclude: string -> bool,
                             weakExclude: string -> bool)

  /** The condition under which WriteToOutput skips an edge, as written. */
  predicate Skips(f: Filters, d: Dependency) {
    var c, r := d.component.name, d.reference.name;
    || !((f.filter(c) || f.filter(r)) && f.strong(c) && f.strong(r))
    || (f.weakExclude(c) && f.weakExclude(r))
    || f.exclude(c) || f.exclude(r)
  }

  /** An edge is written iff one end passes the filter, both pass the strong
      filter, not both are weakly excluded and neither is excluded. */
  function Accepts(f: Filters, d: Dependency): (r: bool)
    ensures var c, n := d.component.name, d.reference.name;
      r <==> && (f.filter(c) || f.filter(n))
             && f.strong(c) && f.strong(n)
             && !(f.weakExclude(c) && f.weakExclude(n))
             && !f.exclude(c) && !f.exclude(n)
  {
    !Skips(f, d)
  }

  /** The accepted edges, in input order. */
  function AcceptedEdges(f: Filters, deps: seq<Dependency>): (r: seq<Dependency>)
    ensures |r| <= |deps|
  {
    if deps == [] then []
    else (if Accepts(f, deps[0]) then [deps[0]] else []) + AcceptedEdges(f, deps[1..])
  }

  lemma {:induction false} AcceptedEdgesMembers(f: Filters, deps: seq<Dependency>)
    ensures forall d :: d in AcceptedEdges(f, deps) <==> d in deps && Accepts(f, d)
  {
    if deps != [] {
      AcceptedEdgesMembers(f, deps[1..]);
      assert deps == [deps[0]] + deps[1..];
    }
  }

  lemma {:induction false} AcceptedEdgesAppend(f: Filters, a: seq<Dependency>, b: seq<Dependency>)
    ensures AcceptedEdges(f, a + b) == AcceptedEdges(f, a) + AcceptedEdges(f, b)
  {
    if a == [] {
      assert a + b == b;
    } else {
      assert (a + b)[0] == a[0] && (a + b)[1..] == a[1..] + b;
      AcceptedEdgesAppend(f, a[1..], b);
      var h := if Accepts(f, a[0]) then [a[0]] else [];
      assert AcceptedEdges(f, a + b) == h + AcceptedEdges(f, a[1..] + b);
    }
  }

  // -------------------------------------------------------------- the text

  /** The ranges of a label are ordered by their minimum, as `OrderBy(x => x.Min)`. */
  predicate SortedByMin(s: seq<R.VersionRange>) {
    forall i, j | 0 <= i < j < |s| :: V.CompareTo(s[i].min, s[j].min) <= 0
  }

  /** One step of a stable sort: `x` goes after every range whose minimum is not after its own. */
  function InsertByMin(sorted: seq<R.VersionRange>, x: R.VersionRange): (r: seq<R.VersionRange>)
    ensures |r| == |sorted| + 1
  {
    if sorted == [] then [x]
    else if V.CompareTo(sorted[0].min, x.min) > 0 then [x] + sorted
    else [sorted[0]] + InsertByMin(sorted[1..], x)
  }

  /** `OrderBy(x => x.Min)`: a stable insertion sort on the minimum. */
  function SortByMin(s: seq<R.VersionRange>): (r: seq<R.VersionRange>)
    ensures |r| == |s|
  {
    if s == [] then [] else InsertByMin(SortByMin(s[..|s| - 1]), s[|s| - 1])
  }

  lemma {:induction false} InsertByMinPermutes(sorted: seq<R.VersionRange>, x: R.VersionRange)
    ensures multiset(InsertByMin(sorted, x)) == multiset(sorted) + multiset{x}
  {
    if sorted != [] && V.CompareTo(sorted[0].min, x.min) <= 0 {
      InsertByMinPermutes(sorted[1..], x);
      assert sorted == [sorted[0]] + sorted[1..];
    }
  }

  lemma {:induction false} InsertByMinSorted(sorted: seq<R.VersionRange>, x: R.VersionRange)
    requires SortedByMin(sorted)
    ensures SortedByMin(InsertByMin(sorted, x))
  {
    if sorted != [] {
      var r := InsertByMin(sorted, x);
      if V.CompareTo(sorted[0].min, x.min) > 0 {
        V.CompareToAntisymmetric(sorted[0].min, x.min);
        V.CompareToZero(sorted[0].min, sorted[0].min);
        forall j | 1 <= j < |r|
          ensures V.CompareTo(x.min, r[j].min) <= 0
        {
          assert r[j] == sorted[j - 1];
          V.CompareToTransitive(x.min, sorted[0].min, r[j].min);
        }
        assert forall i, j | 1 <= i < j < |r| :: r[i] == sorted[i - 1] && r[j] == sorted[j - 1];
      } else {
        var rest := sorted[1..];
        InsertByMinSorted(rest, x);
        InsertByMinPermutes(rest, x);
        forall j | 1 <= j < |r|
          ensures V.CompareTo(sorted[0].min, r[j].min) <= 0
        {
          assert r[j] in multiset(InsertByMin(rest, x));
          if r[j] != x {
            assert r[j] in multiset(rest);
            var k :| 0 <= k < |rest| && rest[k] == r[j];
            assert sorted[k + 1] == r[j];
          }
        }
      }
    }
  }

  /** The sort orders the ranges and loses or adds none. */
  lemma {:induction false} SortByMinSorts(s: seq<R.VersionRange>)
    ensures SortedByMin(SortByMin(s))
    ensures multiset(SortByMin(s)) == multiset(s)
  {
    if s != [] {
      var init := s[..|s| - 1];
      SortByMinSorts(init);
      InsertByMinSorted(SortByMin(init), s[|s| - 1]);
      InsertByMinPermutes(SortByMin(init), s[|s| - 1]);
      assert s == init + [s[|s| - 1]];
    }
  }

  lemma {:induction false} InsertByMinLast(sorted: seq<R.VersionRange>, x: R.VersionRange)
    requires forall i | 0 <= i < |sorted| :: V.CompareTo(sorted[i].min, x.min) <= 0
    ensures InsertByMin(sorted, x) == sorted + [x]
  {
    if sorted != [] {
      InsertByMinLast(sorted[1..], x);
    }
  }

  /** A list already sorted by minimum comes back unchanged. */
  lemma {:induction false} SortByMinKeepsSorted(s: seq<R.VersionRange>)
    requires SortedByMin(s)
    ensures SortByMin(s) == s
  {
    if s != [] {
      var init := s[..|s| - 1];
      SortByMinKeepsSorted(init);
      InsertByMinLast(init, s[|s| - 1]);
      assert init + [s[|s| - 1]] == s;
    }
  }

  /** The ranges of `s` whose minimum is `m`, in their order in `s`. */
  function WithMin(s: seq<R.VersionRange>, m: V.Version): (r: seq<R.VersionRange>)
    ensures forall i | 0 <= i < |r| :: r[i].min == m
  {
    if s == [] then [] else (if s[0].min == m then [s[0]] else []) + WithMin(s[1..], m)
  }

  lemma {:induction false} WithMinAppend(a: seq<R.VersionRange>, b: seq<R.VersionRange>, m: V.Version)
    ensures WithMin(a + b, m) == WithMin(a, m) + WithMin(b, m)
  {
    if a == [] {
      assert a + b == b;
    } else {
      WithMinAppend(a[1..], b, m);
      assert (a + b)[1..] == a[1..] + b;
    }
  }

  lemma {:induction false} WithMinNone(s: seq<R.VersionRange>, m: V.Version)
    requires forall i | 0 <= i < |s| :: s[i].min != m
    ensures WithMin(s, m) == []
  {
    if s != [] {
      WithMinNone(s[1..], m);
    }
  }

  /** Inserting `x` puts it after every range with the same minimum. */
  lemma {:induction false} InsertByMinStable(sorted: seq<R.VersionRange>, x: R.VersionRange, m: V.Version)
    requires SortedByMin(sorted)
    ensures WithMin(InsertByMin(sorted, x), m) == WithMin(sorted, m) + (if x.min == m then [x] else [])
  {
    if sorted == [] {
    } else if V.CompareTo(sorted[0].min, x.min) > 0 {
      assert ([x] + sorted)[1..] == sorted;
      if x.min == m {
        forall i | 0 <= i < |sorted|
          ensures sorted[i].min != m
        {
          V.CompareToZero(sorted[0].min, x.min);
          if i > 0 {
            assert V.CompareTo(sorted[0].min, sorted[i].min) <= 0;
          }
        }
        WithMinNone(sorted, m);
      }
    } else {
      InsertByMinStable(sorted[1..], x, m);
      assert ([sorted[0]] + InsertByMin(sorted[1..], x))[1..] == InsertByMin(sorted[1..], x);
    }
  }

  /** The sort is stable: for every minimum, the ranges that share it come out
      in the order they went in. */
  lemma {:induction false} SortByMinStable(s: seq<R.VersionRange>, m: V.Version)
    ensures WithMin(SortByMin(s), m) == WithMin(s, m)
  {
    if s != [] {
      var init, last := s[..|s| - 1], s[|s| - 1];
      SortByMinStable(init, m);
      SortByMinSorts(init);
      InsertByMinStable(SortByMin(init), last, m);
      assert s == init + [last];
      WithMinAppend(init, [last], m);
    }
  }

  function RangeTexts(ranges: seq<R.VersionRange>): (r: seq<string>)
    ensures |r| == |ranges|
    ensures forall i | 0 <= i < |ranges| :: r[i] == R.ToString(ranges[i])
  {
    seq(|ranges|, i requires 0 <= i < |ranges| => R.ToString(ranges[i]))
  }

  /** The declaration of a node: its name, then in quotes the name, a CR LF,
      four spaces and its ranges ordered by minimum, separated by ", ". */
  function Label(n: ComponentNode): string {
    n.name + "[\"" + n.name + "\r\n    " + Join(", ", RangeTexts(SortByMin(n.ranges))) + "\"]"
  }

  /** WriteReference: the label at the first mention of a name, the bare name later. */
  function Mention(n: ComponentNode, done: set<string>): (string, set<string>) {
    if n.name !in done then (Label(n), done + {n.name}) else (n.name, done)
  }

  /** WriteLink: the plain arrow when both nodes have a single range; otherwise
      an arrow labelled with the versions of the sides that have several. */
  function Link(nodes: map<string, ComponentNode>, d: Dependency): string
    requires d.component.name in nodes && d.reference.name in nodes
  {
    if Extensions.HasSingle(nodes[d.component.name].ranges) && Extensions.HasSingle(nodes[d.reference.name].ranges)
    then " --> "
    else
      var left := if Extensions.HasSingle(nodes[d.component.name].ranges) then "" else V.ToString(d.component.version);
      var right := if Extensions.HasSingle(nodes[d.reference.name].ranges) then "" else R.ToString(d.reference.range);
      " -- \"" + left + " -> " + right + "\"--> "
  }

  /** The arrow is plain exactly when both nodes have one range; otherwise it
      is labelled `left -> right`, a side blank exactly when its node has one
      range and else the component's version or the reference's range. */
  lemma LinkRule(nodes: map<string, ComponentNode>, d: Dependency)
    requires d.component.name in nodes && d.reference.name in nodes
    ensures var cs, rs := nodes[d.component.name].ranges, nodes[d.reference.name].ranges;
      && (Link(nodes, d) == " --> " <==> |cs| == 1 && |rs| == 1)
      && (Link(nodes, d) != " --> " ==>
          Link(nodes, d) == " -- \"" + (if |cs| == 1 then "" else V.ToString(d.component.version))
            + " -> " + (if |rs| == 1 then "" else R.ToString(d.reference.range)) + "\"--> ")
  {
    var s := Link(nodes, d);
    if s != " --> " {
      assert s[3] == ' ' != " --> "[3];
    }
  }

  /** Both ends of every edge name a node of the dictionary. */
  predicate Known(nodes: map<string, ComponentNode>, es: seq<Dependency>) {
    forall d | d in es :: d.component.name in nodes && d.reference.name in nodes
  }

  /** The line written for one accepted edge, and the names declared after it. */
  function EdgeLine(nodes: map<string, ComponentNode>, d: Dependency, done: set<string>, nl: string)
    : (string, set<string>)
    requires d.component.name in nodes && d.reference.name in nodes
  {
    var from := Mention(nodes[d.component.name], done);
    var to := Mention(nodes[d.reference.name], from.1);
    ("  " + from.0 + Link(nodes, d) + to.0 + nl, to.1)
  }

  /** The lines of a run of accepted edges, and the names declared after them. */
  function Lines(nodes: map<string, ComponentNode>, es: seq<Dependency>, done: set<string>, nl: string)
    : (r: (seq<string>, set<string>))
    requires Known(nodes, es)
    ensures |r.0| == |es|
  {
    if es == [] then ([], done)
    else
      var first := EdgeLine(nodes, es[0], done, nl);
      var rest := Lines(nodes, es[1..], first.1, nl);
      ([first.0] + rest.0, rest.1)
  }

  function Concat(lines: seq<string>): string {
    if lines == [] then "" else lines[0] + Concat(lines[1..])
  }

  /** What WriteToOutput writes: the header line, then one line per accepted edge. */
  function Rendered(f: Filters, nodes: map<string, ComponentNode>, deps: seq<Dependency>, nl: string): string
    requires Known(nodes, AcceptedEdges(f, deps))
  {
    "graph LR" + nl + Concat(Lines(nodes, AcceptedEdges(f, deps), {}, nl).0)
  }

  // --------------------------------------------------------------- the method

  /** The dictionary is keyed by node name, as `ToDictionary(c => c.Name)` builds it. */
  predicate Keyed(nodes: map<string, ComponentNode>) {
    forall k | k in nodes :: nodes[k].name == k
  }

  /** WriteReference: `done.Add(r.Name)` decides between the label and the bare name. */
  method WriteReference(n: ComponentNode, done0: set<string>) returns (text: string, done: set<string>)
    ensures (text, done) == Mention(n, done0)
  {
    done := done0;
    if n.name !in done {
      done := done + {n.name};
      text := Label(n);
    } else {
      text := n.name;
    }
  }

  /** WriteLink. */
  method WriteLink(nodes: map<string, ComponentNode>, d: Dependency) returns (text: string)
    requires d.component.name in nodes && d.reference.name in nodes
    ensures text == Link(nodes, d)
  {
    if Extensions.HasSingle(nodes[d.component.name].ranges) && Extensions.HasSingle(nodes[d.reference.name].ranges) {
      text := " --> ";
    } else {
      var left := if Extensions.HasSingle(nodes[d.component.name].ranges) then "" else V.ToString(d.component.version);
      var right := if Extensions.HasSingle(nodes[d.reference.name].ranges) then ""
                   else R.ToString(d.reference.range);
      text := " -- \"" + left + " -> " + right + "\"--> ";
    }
  }

  /** The body of the loop for an accepted edge. */
  method WriteEdge(nodes: map<string, ComponentNode>, d: Dependency, done0: set<string>, nl: string)
    returns (line: string, done: set<string>)
    requires d.component.name in nodes && d.reference.name in nodes
    ensures (line, done) == EdgeLine(nodes, d, done0, nl)
  {
    var from, link, to;
    from, done := WriteReference(nodes[d.component.name], done0);
    link := WriteLink(nodes, d);
    to, done := WriteReference(nodes[d.reference.name], done);
    line := "  " + from + link + to + nl;
  }

  /** Program.WriteToOutput, writing to a string; `nl` is Environment.NewLine.
      An accepted edge whose names are not in `nodes` would throw, so the
      caller passes the dictionary built from the same edges. */
  method WriteToOutput(f: Filters, nodes: map<string, ComponentNode>, deps: seq<Dependency>, nl: string)
    returns (output: string)
    requires forall d | d in deps && Accepts(f, d) :: d.component.name in nodes && d.reference.name in nodes
    ensures (AcceptedEdgesMembers(f, deps); output == Rendered(f, nodes, deps, nl))
  {
    AcceptedEdgesMembers(f, deps);
    ghost var target := Rendered(f, nodes, deps, nl);
    var done: set<string> := {};
    output := "graph LR" + nl;
    for i := 0 to |deps|
      invariant Known(nodes, AcceptedEdges(f, deps[i..]))
      invariant output + Concat(Lines(nodes, AcceptedEdges(f, deps[i..]), done, nl).0) == target
    {
      var dep := deps[i];
      WriteStep(f, nodes, deps, i, done, nl, output, target);
      if !Accepts(f, dep) {
        continue;
      }
      var line;
      line, done := WriteEdge(nodes, dep, done, nl);
      output := output + line;
    }
    assert deps[|deps|..] == [];
  }

  /** One turn of the loop of WriteToOutput keeps its invariant. */
  lemma WriteStep(f: Filters, nodes: map<string, ComponentNode>, deps: seq<Dependency>, i: nat, done: set<string>,
                  nl: string, output: string, target: string)
    requires i < |deps| && Known(nodes, AcceptedEdges(f, deps[i..]))
    requires output + Concat(Lines(nodes, AcceptedEdges(f, deps[i..]), done, nl).0) == target
    ensures Known(nodes, AcceptedEdges(f, deps[i + 1..]))
    ensures !Accepts(f, deps[i]) ==>
      output + Concat(Lines(nodes, AcceptedEdges(f, deps[i + 1..]), done, nl).0) == target
    ensures Accepts(f, deps[i]) ==>
      && deps[i].component.name in nodes && deps[i].reference.name in nodes
      && var line := EdgeLine(nodes, deps[i], done, nl);
         (output + line.0) + Concat(Lines(nodes, AcceptedEdges(f, deps[i + 1..]), line.1, nl).0) == target
  {
    var dep, rest := deps[i], deps[i + 1..];
    assert deps[i..] == [dep] + rest;
    AcceptedEdgesAppend(f, [dep], rest);
    if Accepts(f, dep) {
      assert AcceptedEdges(f, [dep]) == [dep];
      var es := [dep] + AcceptedEdges(f, rest);
      assert es[0] == dep && es[1..] == AcceptedEdges(f, rest);
      var line := EdgeLine(nodes, dep, done, nl);
      var later := Concat(Lines(nodes, AcceptedEdges(f, rest), line.1, nl).0);
      assert Concat(Lines(nodes, es, done, nl).0) == line.0 + later;
      assert (output + line.0) + later == output + (line.0 + later);
    } else {
      assert AcceptedEdges(f, [dep]) == [];
      assert [] + AcceptedEdges(f, rest) == AcceptedEdges(f, rest);
    }
  }

  // ---------------------------------------------------------------- lemmas

  /** The names of both ends of some edges. */
  function EndNames(es: seq<Dependency>): set<string> {
    (set d | d in es :: d.component.name) + (set d | d in es :: d.reference.name)
  }

  /** A mention is the full label exactly when the name was not yet declared. */
  function MentionText(nodes: map<string, ComponentNode>, name: string, declared: set<string>): string
    requires name in nodes
  {
    if name in declared then name else Label(nodes[name])
  }

  lemma EndNamesCons(d: Dependency, es: seq<Dependency>)
    ensures EndNames([d] + es) == {d.component.name, d.reference.name} + EndNames(es)
  {
    assert forall e :: e in [d] + es <==> e == d || e in es;
  }

  /** The names of a prefix are those of its first edge and of the rest of it. */
  lemma EndNamesPrefix(es: seq<Dependency>, k: nat)
    requires 0 < k <= |es|
    ensures EndNames(es[..k]) == {es[0].component.name, es[0].reference.name} + EndNames(es[1..][..k - 1])
  {
    assert es[..k] == [es[0]] + es[1..][..k - 1];
    EndNamesCons(es[0], es[1..][..k - 1]);
  }

  /** An edge declares its two names. */
  lemma EdgeLineDeclares(nodes: map<string, ComponentNode>, d: Dependency, done: set<string>, nl: string)
    requires Keyed(nodes) && d.component.name in nodes && d.reference.name in nodes
    ensures EdgeLine(nodes, d, done, nl).1 == done + {d.component.name, d.reference.name}
  {
  }

  /** The line of one edge: two spaces, its component, its arrow, its
      reference and the newline, each end with its full label when not yet
      declared (the reference also when it is the component itself). */
  lemma EdgeLineText(nodes: map<string, ComponentNode>, d: Dependency, done: set<string>, nl: string)
    requires Keyed(nodes) && d.component.name in nodes && d.reference.name in nodes
    ensures EdgeLine(nodes, d, done, nl).0
      == "  " + MentionText(nodes, d.component.name, done) + Link(nodes, d)
         + MentionText(nodes, d.reference.name, done + {d.component.name}) + nl
  {
    var from := Mention(nodes[d.component.name], done);
    assert from.1 == done + {d.component.name};
    assert from.0 == MentionText(nodes, d.component.name, done);
  }

  /** Lines leave declared exactly the names mentioned so far. */
  lemma {:induction false} LinesDeclare(nodes: map<string, ComponentNode>, es: seq<Dependency>, done: set<string>,
                                        nl: string)
    requires Keyed(nodes) && Known(nodes, es)
    ensures Lines(nodes, es, done, nl).1 == done + EndNames(es)
  {
    if es != [] {
      EdgeLineDeclares(nodes, es[0], done, nl);
      var first := EdgeLine(nodes, es[0], done, nl);
      LinesDeclare(nodes, es[1..], first.1, nl);
      EndNamesCons(es[0], es[1..]);
      assert es == [es[0]] + es[1..];
    }
  }

  /** Line `k` of a run is line `k - 1` of its rest, written with the names of
      the first edge declared. */
  lemma LinesShift(nodes: map<string, ComponentNode>, es: seq<Dependency>, done: set<string>, nl: string, k: nat)
    requires Keyed(nodes) && Known(nodes, es) && 0 < k < |es|
    ensures var first := EdgeLine(nodes, es[0], done, nl);
      && Lines(nodes, es, done, nl).0[k] == Lines(nodes, es[1..], first.1, nl).0[k - 1]
      && done + EndNames(es[..k]) == first.1 + EndNames(es[1..][..k - 1])
  {
    EdgeLineDeclares(nodes, es[0], done, nl);
    EndNamesPrefix(es, k);
  }

  /** Line `k` is the line of the `k`-th edge, written with every name of the
      earlier lines declared. */
  lemma {:induction false} LineOf(nodes: map<string, ComponentNode>, es: seq<Dependency>, done: set<string>,
                                  nl: string, k: nat)
    requires Keyed(nodes) && Known(nodes, es) && k < |es|
    ensures Lines(nodes, es, done, nl).0[k] == EdgeLine(nodes, es[k], done + EndNames(es[..k]), nl).0
  {
    if k == 0 {
      assert es[..0] == [];
    } else {
      LineOf(nodes, es[1..], EdgeLine(nodes, es[0], done, nl).1, nl, k - 1);
      LinesShift(nodes, es, done, nl, k);
    }
  }

  /** The output is the header, then exactly one line per accepted edge, in
      input order, each written with every name of the earlier lines declared. */
  lemma RenderedLines(f: Filters, nodes: map<string, ComponentNode>, deps: seq<Dependency>, nl: string)
    requires Keyed(nodes) && Known(nodes, AcceptedEdges(f, deps))
    ensures var es := AcceptedEdges(f, deps);
      var lines := Lines(nodes, es, {}, nl).0;
      && Rendered(f, nodes, deps, nl) == "graph LR" + nl + Concat(lines)
      && |lines| == |es|
      && forall k | 0 <= k < |es| :: lines[k] == EdgeLine(nodes, es[k], EndNames(es[..k]), nl).0
  {
    var es := AcceptedEdges(f, deps);
    forall k | 0 <= k < |es|
      ensures Lines(nodes, es, {}, nl).0[k] == EdgeLine(nodes, es[k], EndNames(es[..k]), nl).0
    {
      LineOf(nodes, es, {}, nl, k);
      assert {} + EndNames(es[..k]) == EndNames(es[..k]);
    }
  }

  /** The dictionary built from all the edges serves any selection of them,
      a zoom result included. */
  lemma MainRenders(f: Filters, deps: seq<Dependency>, shown: seq<Dependency>)
    requires forall d | d in shown :: d in deps
    ensures Keyed(NodeMap(GetNodes(deps)))
    ensures Known(NodeMap(GetNodes(deps)), AcceptedEdges(f, shown))
  {
    AcceptedEdgesMembers(f, shown);
    forall d | d in AcceptedEdges(f, shown)
      ensures d.component.name in NodeMap(GetNodes(deps)) && d.reference.name in NodeMap(GetNodes(deps))
    {
      NodeMapCovers(deps, d);
    }
  }

  /** A rejected edge writes nothing and declares no name: the output is as if
      it were not there. */
  lemma RejectedWritesNothing(f: Filters, nodes: map<string, ComponentNode>, a: seq<Dependency>, d: Dependency,
                              b: seq<Dependency>, nl: string)
    requires !Accepts(f, d)
    ensures AcceptedEdges(f, a + [d] + b) == AcceptedEdges(f, a + b)
    ensures Known(nodes, AcceptedEdges(f, a + b)) ==> Rendered(f, nodes, a + [d] + b, nl) == Rendered(f, nodes, a + b, nl)
  {
    AcceptedEdgesAppend(f, a + [d], b);
    AcceptedEdgesAppend(f, a, [d]);
    AcceptedEdgesAppend(f, a, b);
    assert AcceptedEdges(f, [d]) == [];
  }

  // ------------------------------------------------------------- URL safety

  /** `str.Replace("/", "_").Replace("+", "-")` on the base64 payload. */
  function UrlSafe(s: string): string {
    ReplaceChar(ReplaceChar(s, '/', '_'), '+', '-')
  }

  /** The substitution keeps the length and every other character, the `=`
      padding included, and leaves no `/` or `+`. */
  lemma UrlSafeChars(s: string)
    ensures |UrlSafe(s)| == |s|
    ensures forall i | 0 <= i < |s| ::
      UrlSafe(s)[i] == (if s[i] == '/' then '_' else if s[i] == '+' then '-' else s[i])
    ensures forall i | 0 <= i < |s| :: s[i] == '=' <==> UrlSafe(s)[i] == '='
    ensures '/' !in UrlSafe(s) && '+' !in UrlSafe(s)
  {
  }

  /** The substitution in the other direction. */
  function UrlUnsafe(s: string): string {
    ReplaceChar(ReplaceChar(s, '_', '/'), '-', '+')
  }

  /** Base64 text has no `_` or `-`, so the substitution loses nothing. */
  lemma UrlSafeInverse(s: string)
    requires '_' !in s && '-' !in s
    ensures UrlUnsafe(UrlSafe(s)) == s
  {
    var r := UrlUnsafe(UrlSafe(s));
    assert forall i | 0 <= i < |s| :: r[i] == s[i] by {
      forall i | 0 <= i < |s|
        ensures r[i] == s[i]
      {
        assert s[i] != '_' && s[i] != '-';
      }
    }
  }
}
