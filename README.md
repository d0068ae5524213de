# Deps2Mermaid, modelled in Dafny

Deps2Mermaid reads the resolved dependency graph of a .NET project and writes it as a
Mermaid flowchart (`graph LR`). Each package is a node. Its label lists every version range
under which the package occurs. Each dependency is an arrow, labelled with versions when
a node has more than one range.

This project models the core of the program:

- the version model: `VersionPart`, `Version`, `VersionRange`, `Component`, `Reference`,
  with their parsers and printers;
- the graph: de-duplicating the edges, grouping endpoints into `ComponentNode`s, and the
  forward and backward lookups;
- the zoom: a depth-bounded sweep from the nodes a pattern selects;
- the renderer `WriteToOutput`: its four-pattern edge filter, node labels and arrows;
- the URL-safe character substitution;
- the command-line reader.

Modules, one per file:

| file | module | models |
|---|---|---|
| `Wrappers.dfy` | `Wrappers` | `Option`, and `Result` with the .NET exceptions the code can throw |
| `Text.dfy` | `Text` | the .NET library pieces the code relies on: `int.Parse`, `Split`, `Trim`, `string.CompareOrdinal`, `Replace`, the case-insensitive key comparer |
| `VersionPart.dfy` | `VersionParts` | `VersionPart.cs` |
| `Version.dfy` | `Versions` | `Version.cs` |
| `VersionRange.dfy` | `VersionRanges` | `VersionRange.cs` |
| `Reference.dfy`, `Component.dfy`, `Dependency.dfy` | `References`, `Components`, `Dependencies` | the records of the same names |
| `Extensions.dfy` | `Extensions` | `Extensions.cs` |
| `Nodes.dfy` | `Nodes` | `ComponentNode.GetNodes`, and the de-duplication, dictionary and lookups of `Program.Main` |
| `Zoom.dfy` | `Zooming` | `Program.Zoom` |
| `Render.dfy` | `Render` | `Program.WriteToOutput` and the URL-safe substitution |
| `CommandLine.dfy` | `CommandLine` | `CommandLineArguments.Parse` and `DetermineParameters` |

Modelling choices:

- **Exceptions** are `Result.Err` values that name the exception.
- **Regular expressions** are predicates `string -> bool`.
- **Zoom result.** The zoom's `HashSet` is a `set`.
- **Stack.** Its `Stack` is a `seq` with the top at the end.
- **Dictionary keys.** The keys of the node dictionary are a sequence parameter, because
  their enumeration order decides the order of the pushes.
- **Imperative code stays imperative.** Where the source loops over mutable locals, the
  model is a method with a loop, proved equal to a function that specifies it:
  - `ParseOperatorStyle`
  - `DetermineParameters`
  - the zoom sweeps
  - `WriteToOutput`, writing into a string

  Properties are proved about those functions.
- **`Environment.NewLine`** is the parameter `nl` of the renderer. The line break inside a
  node label is the literal CR LF of the source.
- **The model follows this revision's code as written:**
  - `Version` holds three plain `int` segments parsed with `int.Parse`, which throws on a bad
    segment. It does not hold `VersionPart` segments, as some of the test files expect.
  - `Select(int.Parse).ToArray()` parses every dot-separated piece before the first `-`.
    A fourth piece is ignored only when it is an integer too.
  - The zoom collects less than "every edge within the depth bounds" (see Findings).
  - `CommandLineArguments.cs` declares only `Path`, `Help`, `Filter`, `Zoom` and
    `ProjectRoot`. The forward and backward depths and the strong, exclude and weak-exclude
    patterns that `Program.cs` reads are parameters of the model.

## Model

| member | source | states |
|---|---|---|
| `VersionParts.ComparisonValue` | Deps2Mermaid/VersionPart.cs:9-10 | the comparison value is never negative; it equals the value exactly when the segment is present, and is 0 otherwise |
| `VersionParts.Parse` | Deps2Mermaid/VersionPart.cs:16-23 | `null` and `""` give ABSENT, `*` gives STAR, integer text its value, any other text UNKNOWN; it never fails |
| `VersionParts.ParseToString` | Deps2Mermaid/VersionPart.cs:16-32 | parsing the printed form gives the value back, for numbers and all three sentinels |
| `VersionParts.ToStringInjective` | Deps2Mermaid/VersionPart.cs:25-32 | different segments print differently |
| `VersionParts.CompareTo` | Deps2Mermaid/VersionPart.cs:38-39 | the result is -1, 0 or 1; zero iff equal; negative iff the raw value is smaller |
| `VersionParts.SentinelOrder` | Deps2Mermaid/VersionPart.cs:12-14 | STAR < ABSENT < UNKNOWN < any present segment, although all three sentinels share comparison value 0 |
| `VersionParts.CompareToObject` | Deps2Mermaid/VersionPart.cs:42-46 | null gives 1, an object of another type an ArgumentException, a boxed segment the typed comparison |
| `VersionParts.ConversionsInverse` | Deps2Mermaid/VersionPart.cs:33-36 | the two implicit conversions undo each other |
| `Versions.CompareToPrecedes` | Deps2Mermaid/Version.cs:5-16 | CompareTo is negative iff the first version precedes in the lexicographic order on major, minor, patch, then tag (no tag last, tags ordinal) |
| `Versions.CompareToZero` | Deps2Mermaid/Version.cs:5-16 | CompareTo is zero iff the versions are equal |
| `Versions.CompareToAntisymmetric` | Deps2Mermaid/Version.cs:5-16 | swapping the arguments flips the sign |
| `Versions.CompareToTransitive` | Deps2Mermaid/Version.cs:5-16 | "not after" is transitive, so CompareTo is a total order |
| `Versions.ReleaseAfterPreRelease` | Deps2Mermaid/Version.cs:13-14 | a release sorts after each of its pre-releases |
| `Versions.ToStringChars` | Deps2Mermaid/Version.cs:18-23 | the printed form holds only digits, `-`, `.` and characters of the tag |
| `Versions.TryParse` | Deps2Mermaid/Version.cs:25-32 | the result is null exactly for null or blank text |
| `Versions.TryParseFails` | Deps2Mermaid/Version.cs:29-31 | on text that is not blank, TryParse throws iff some dot piece before the first `-` is not an Int32 or there are fewer than three pieces; otherwise it returns a version |
| `Versions.Parse` | Deps2Mermaid/Version.cs:34-35 | blank text throws because the nullable has no value; otherwise the result is the version TryParse returns, and TryParse's exception is passed on unchanged |
| `Versions.ToStringSplitsAtDash` | Deps2Mermaid/Version.cs:18-29 | the printed form splits at its first `-` into the segments and the whole tag, even when the tag holds a `-` |
| `Versions.TryParseToString` | Deps2Mermaid/Version.cs:18-31 | TryParse of the printed form gives the version back when its segments are non-negative |
| `Versions.ParseToString` | Deps2Mermaid/Version.cs:18-35 | Parse of the printed form gives the version back when its segments are non-negative |
| `VersionRanges.Exact` | Deps2Mermaid/VersionRange.cs:5-6 | both bounds are the version, both inclusive |
| `VersionRanges.Minimal` | Deps2Mermaid/VersionRange.cs:8-9 | the lower bound is the version, inclusive, and there is no upper bound |
| `VersionRanges.ConstructorsPrint` | Deps2Mermaid/VersionRange.cs:11-21 | Exact prints as the bare version, Minimal as `[v,)` |
| `VersionRanges.UnboundedIgnoresMaxInclusive` | Deps2Mermaid/VersionRange.cs:14-15 | two different unbounded ranges print alike: the printer ignores MaxInclusive |
| `VersionRanges.ToStringChars` | Deps2Mermaid/VersionRange.cs:11-21 | a printed range holds only characters of its versions, brackets and a comma |
| `VersionRanges.ApplyOperator` | Deps2Mermaid/VersionRange.cs:30-53 | an unknown operator changes nothing; a known one fails exactly when its operand does not parse |
| `VersionRanges.ParseOperatorStyle` | Deps2Mermaid/VersionRange.cs:23-58 | the loop stepping two words at a time computes `OperatorStyle` |
| `VersionRanges.ApplyOperatorsFails` | Deps2Mermaid/VersionRange.cs:28-54 | reading the pairs fails iff the operand of some recognised operator does not parse |
| `VersionRanges.ApplyOperatorsUnset` | Deps2Mermaid/VersionRange.cs:28-54 | a bound that no pair sets keeps its starting value and flag |
| `VersionRanges.ApplyOperatorsLast` | Deps2Mermaid/VersionRange.cs:28-54 | the last pair that sets a bound decides its value and inclusiveness; `=` sets both, inclusive |
| `VersionRanges.OperatorStyleNeedsMinimum` | Deps2Mermaid/VersionRange.cs:56-57 | without a pair that sets the lower bound, operator style throws |
| `VersionRanges.ParseExactDispatch` | Deps2Mermaid/VersionRange.cs:61-63 | trimmed text that starts with a digit is `Exact` of the parsed version, and fails when that version fails |
| `VersionRanges.ParseOperatorDispatch` | Deps2Mermaid/VersionRange.cs:65-66 | trimmed text that starts with `>`, `<` or `=` is read in operator style |
| `VersionRanges.ParseRejects` | Deps2Mermaid/VersionRange.cs:62-79 | empty text throws on index 0; a wrong first or last bracket throws an ArgumentException |
| `VersionRanges.BracketWithoutComma` | Deps2Mermaid/VersionRange.cs:80-82 | `[v]` parses with no upper bound, even though it closes with `]` |
| `VersionRanges.ParseToString` | Deps2Mermaid/VersionRange.cs:11-83 | Parse of the printed range gives it back when: segments are non-negative; the lower tag has no comma and no trailing white space; there is no inclusive flag on a missing upper bound |
| `VersionRanges.ConstructorsRoundTrip` | Deps2Mermaid/VersionRange.cs:5-9 | Exact and Minimal build ranges that round-trip |
| `VersionRanges.CompareByMinimum` | Deps2Mermaid/VersionRange.cs:85-91 | ranges compare by lower bound alone: negative iff it precedes, zero iff equal |
| `VersionRanges.MinimalToExact` | Deps2Mermaid/VersionRange.cs:92-93 | an unbounded range becomes the closed point at its minimum; a bounded one is unchanged |
| `VersionRanges.MinimalToExactIdempotent` | Deps2Mermaid/VersionRange.cs:92-93 | applying it twice is applying it once |
| `References.Parse` | Deps2Mermaid/Reference.cs:5-9 | text without `/` throws on index 1; otherwise the name is the text before the first `/`, the range is `VersionRange.Parse` of the second `/`-separated piece, its exception propagates, and later pieces are ignored |
| `References.ParseToString` | Deps2Mermaid/Reference.cs:5-12 | Parse of `name/range` gives the reference back when the name and tags hold no `/` and the range round-trips |
| `Components.Parse` | Deps2Mermaid/Component.cs:5-9 | text without `/` throws on index 1; otherwise the name is the text before the first `/`, the version is `Version.Parse` of the second `/`-separated piece, its exception propagates, and later pieces are ignored |
| `Components.ParseToString` | Deps2Mermaid/Component.cs:5-12 | Parse of `name/version` gives the component back when the name and tag hold no `/` and segments are non-negative |
| `Components.ToReference` | Deps2Mermaid/Component.cs:14-15 | the same name, with the exact range of the version |
| `Components.ToReferencePrintsAlike` | Deps2Mermaid/Component.cs:11-15 | a component prints exactly like its reference |
| `Dependencies.ToStringStartsWithComponent` | Deps2Mermaid/Dependency.cs:5-6 | the printed edge starts with the printed component, which parses back |
| `Extensions.HasSingle` | Deps2Mermaid/Extensions.cs:5-6 | true iff the sequence has exactly one element |
| `Extensions.HasSingleLooksAtTwo` | Deps2Mermaid/Extensions.cs:6 | only the first two elements matter |
| `Extensions.Take` | Deps2Mermaid/Extensions.cs:6 | the first `min(n, count)` elements |
| `Extensions.GetAtOrDefault` | Deps2Mermaid/Extensions.cs:8-10 | the element below the count, null at or above it, and an ArgumentOutOfRangeException for a negative index |
| `Nodes.Distinct` | Deps2Mermaid/Program.cs:36-38 | the same elements, each once |
| `Nodes.DistinctAbsorbs` | Deps2Mermaid/Program.cs:36-38 | inserting repeats of earlier elements anywhere does not change the result, so first-occurrence order is kept |
| `Nodes.DistinctFromAppend` | Deps2Mermaid/Program.cs:36-38 | Distinct works left to right: the second part adds only what the first lacks |
| `Nodes.Endpoints` | Deps2Mermaid/ComponentNode.cs:8-9 | two endpoints per edge: the component's exact reference and the reference itself |
| `Nodes.NodeOf` | Deps2Mermaid/ComponentNode.cs:10-12 | a node's ranges have no duplicates and are exactly the ranges of the endpoints with its name |
| `Nodes.GetNodes` | Deps2Mermaid/ComponentNode.cs:7-12 | names are unique and are exactly the endpoint names; ranges have no duplicates and are exactly those of the endpoints with that name |
| `Nodes.GetNodesDuplicate` | Deps2Mermaid/ComponentNode.cs:7-12 | listing an edge again after its first occurrence changes no node and no order |
| `Nodes.GetNodesNamesEdges` | Deps2Mermaid/ComponentNode.cs:8-11 | both endpoint names of every edge have a node |
| `Nodes.NodeMap` | Deps2Mermaid/Program.cs:40 | `ToDictionary(c => c.Name)`: every node is filed under its own name, and nothing else |
| `Nodes.NodeMapCovers` | Deps2Mermaid/Program.cs:40 | each edge finds its two names in the dictionary, with the component's exact version and the reference's range among their ranges |
| `Nodes.LinksMembers` | Deps2Mermaid/Program.cs:42-43 | a lookup yields exactly the edges whose key (component forward, reference backward) is the name |
| `Zooming.Seeds` | Deps2Mermaid/Program.cs:165 | the seeds are exactly the keys the pattern matches |
| `Zooming.Visit` | Deps2Mermaid/Program.cs:174-176 | visiting adds every link; it pushes one entry per newly added edge, one level down, at a far end |
| `Zooming.Drain` | Deps2Mermaid/Program.cs:168-177 | the loop only adds edges of the graph |
| `Zooming.PushSeeds` | Deps2Mermaid/Program.cs:165-166 | the stack holds every seed at the starting depth, in key order |
| `Zooming.VisitLinks` | Deps2Mermaid/Program.cs:174-176 | the `foreach` over the links computes `Visit` |
| `Zooming.DrainStack` | Deps2Mermaid/Program.cs:168-177 | the `while` loop computes `Drain`; the entries pushed onto the stack, counted as the stack grows, are exactly one per added edge |
| `Zooming.Traverse` | Deps2Mermaid/Program.cs:163-194 | one sweep computes `Sweep`; the stack receives one push per seed plus one per added edge |
| `Zooming.Zoom` | Deps2Mermaid/Program.cs:151-195 | the zoom computes `Run`; the stack pushes number 2·seeds plus the returned edges, hence at most 2·seeds + edges, so both loops end |
| `Zooming.MainKeysSuffice` | Deps2Mermaid/Program.cs:40-43 | the dictionary `Main` builds holds every name the sweeps look up |
| `Zooming.Run` | Deps2Mermaid/Program.cs:155-161 | the result holds only edges of the graph |
| `Zooming.RunShallow` | Deps2Mermaid/Program.cs:168-193 | with both depths at 0 or below, the zoom is empty |
| `Zooming.RunSound` | Deps2Mermaid/Program.cs:151-195 | every edge returned lies within the depth bounds (`ReachZoom`) |
| `Zooming.RunCoversSeeds` | Deps2Mermaid/Program.cs:163-194 | every edge leaving a seed (forward ≥ 1) and every edge entering one (backward ≥ 1) is returned |
| `Zooming.RunForwardOne` | Deps2Mermaid/Program.cs:163-177 | forward depth 1 and no backward depth: exactly the edges whose component name matches |
| `Zooming.DrainSound` | Deps2Mermaid/Program.cs:168-177 | an edge a sweep adds leaves a name within depth - 1 of the seeds |
| `Zooming.DrainCovers` | Deps2Mermaid/Program.cs:170-176 | an entry on the stack at depth ≥ 1 gets all its edges added |
| `Zooming.DrainShallow` | Deps2Mermaid/Program.cs:171-172 | entries at depth 0 or below add nothing |
| `Zooming.SweepSound` | Deps2Mermaid/Program.cs:163-178 | a sweep adds only edges within its depth |
| `Zooming.ReachMonotone` | Deps2Mermaid/Program.cs:163-194 | more steps reach more names |
| `Zooming.ReachZoomMonotone` | Deps2Mermaid/Program.cs:151-195 | larger depths never lose an edge of the intended zoom |
| `Zooming.TraverseLayers` | Deps2Mermaid/Program.cs:163-194 | a breadth-first sweep returns exactly the edges within its depth |
| `Zooming.ZoomLayers` | Deps2Mermaid/Program.cs:151-195 | the corrected zoom returns exactly the edges within the depth bounds |
| `Zooming.ZoomMissesReachable` | Deps2Mermaid/Program.cs:174-176 | on A→B, A→C, C→B, B→D, D→E from A at forward depth 3, the zoom returns the first four edges and misses D→E, which lies within the bound |
| `Render.Accepts` | Deps2Mermaid/Program.cs:210-214 | an edge is written iff: either end matches the filter; both match the strong filter; not both match the weak exclude; neither matches the exclude |
| `Render.AcceptedEdgesMembers` | Deps2Mermaid/Program.cs:208-218 | the edges written are exactly the accepted ones of the input |
| `Render.AcceptedEdgesAppend` | Deps2Mermaid/Program.cs:208-218 | filtering works edge by edge and keeps input order |
| `Render.RejectedWritesNothing` | Deps2Mermaid/Program.cs:215-218 | a rejected edge leaves the output exactly as if it were absent, and declares no node |
| `Render.SortByMinSorts` | Deps2Mermaid/Program.cs:231 | `OrderBy(x => x.Min)` yields a permutation sorted by minimum |
| `Render.SortByMinKeepsSorted` | Deps2Mermaid/Program.cs:231 | a list already sorted by minimum is unchanged |
| `Render.InsertByMinStable` | Deps2Mermaid/Program.cs:231 | one insertion step puts a range after every range with the same minimum and keeps their order |
| `Render.SortByMinStable` | Deps2Mermaid/Program.cs:231 | the sort is stable: for every minimum, the ranges that share it come out in their input order |
| `Render.InsertByMinPermutes` | Deps2Mermaid/Program.cs:231 | inserting adds exactly the element |
| `Render.InsertByMinSorted` | Deps2Mermaid/Program.cs:231 | inserting into a sorted list keeps it sorted |
| `Render.RangeTexts` | Deps2Mermaid/Program.cs:231 | one printed range per range, in order |
| `Render.WriteReference` | Deps2Mermaid/Program.cs:227-234 | the first mention writes the full label and declares the name; a later mention writes the bare name |
| `Render.LinkRule` | Deps2Mermaid/Program.cs:236-248 | the arrow is plain iff both nodes have one range; otherwise it is labelled `left -> right`; a side is blank iff its node has one range, and otherwise is the component's version or the reference's range |
| `Render.WriteLink` | Deps2Mermaid/Program.cs:236-248 | writes `Link` |
| `Render.WriteEdge` | Deps2Mermaid/Program.cs:220-224 | writes one edge's line and updates the declared names |
| `Render.WriteToOutput` | Deps2Mermaid/Program.cs:197-225 | the loop writes `Rendered`: the header, then the lines of the accepted edges |
| `Render.EdgeLineDeclares` | Deps2Mermaid/Program.cs:220-223 | an edge's line declares exactly its two names |
| `Render.EdgeLineText` | Deps2Mermaid/Program.cs:220-234 | a line is two spaces, the component, the arrow, the reference and the newline; each end is labelled iff not yet declared |
| `Render.LinesDeclare` | Deps2Mermaid/Program.cs:227-234 | after some lines, the declared names are exactly those mentioned so far |
| `Render.LineOf` | Deps2Mermaid/Program.cs:208-225 | line k is the line of the k-th accepted edge, with every name of earlier lines declared |
| `Render.RenderedLines` | Deps2Mermaid/Program.cs:206-225 | the output is `graph LR`, then exactly one line per accepted edge, in input order |
| `Render.MainRenders` | Deps2Mermaid/Program.cs:220-224 | the dictionary `Main` builds serves every accepted edge of any selection of the edges, zoom included |
| `Render.UrlSafeChars` | Deps2Mermaid/Program.cs:104 | the substitution keeps the length, maps `/` to `_` and `+` to `-`, keeps every other character (`=` padding included), and leaves no `/` or `+` |
| `Render.UrlSafeInverse` | Deps2Mermaid/Program.cs:104 | on base64 text, which has no `_` or `-`, the reverse substitution restores the input |
| `CommandLine.DetermineParameters` | Deps2Mermaid/CommandLineArguments.cs:32-61 | the loop computes `Determined`: the scan, then the pending key stored with `""` |
| `CommandLine.DeterminedItems` | Deps2Mermaid/CommandLineArguments.cs:39-58 | the scan reads items (`-key value`, a bare `-key`, or a positional); its dictionary stores their pairs in order |
| `CommandLine.PositionalRule` | Deps2Mermaid/CommandLineArguments.cs:41-49 | the positional list is, in order, every argument that is no option and does not follow an option |
| `CommandLine.ItemsPositional` | Deps2Mermaid/CommandLineArguments.cs:47-49 | every positional argument is an argument that does not start with `-` |
| `CommandLine.NamedKeys` | Deps2Mermaid/CommandLineArguments.cs:36-58 | the dictionary holds a key exactly when some option gives it (in any case, leading `-` and `/` stripped) |
| `CommandLine.StoreAllLast` | Deps2Mermaid/CommandLineArguments.cs:36-54 | the last value given for a key, compared ignoring case, is the one kept |
| `CommandLine.StoreAllUntouched` | Deps2Mermaid/CommandLineArguments.cs:43-53 | a key no later pair names keeps its value |
| `CommandLine.ParsePath` | Deps2Mermaid/CommandLineArguments.cs:22-23 | the path is the first positional if any; otherwise the value of `path`, then the value of `p`; without any of them it is `.` |
| `CommandLine.PathWithoutValue` | Deps2Mermaid/CommandLineArguments.cs:22-23 | `-path` with no value gives the empty path, not the default |
| `CommandLine.ParseSwitches` | Deps2Mermaid/CommandLineArguments.cs:24-27 | help iff `help` or `?` is given, project root iff `projectroot` or `pr` is given |
| `CommandLine.ParseOptionalValues` | Deps2Mermaid/CommandLineArguments.cs:25-26 | the filter is the value of `filter`, then of `f`, and `.*` without either; the zoom is the value of `zoom`, then of `z`, and null iff neither is given |
| `CommandLine.ParseDefaults` | Deps2Mermaid/CommandLineArguments.cs:18-30 | no arguments give path `.`, no help, filter `.*`, no zoom, no project root |
| `Text.ParseInt32OfIntToString` | Deps2Mermaid/Version.cs:30 | `int.Parse` of a printed Int32 gives it back |
| `Text.ParseInt32NoDigits` | Deps2Mermaid/VersionPart.cs:22 | text without a digit is a FormatException |
| `Text.CompareOrdinalSign` | Deps2Mermaid/Version.cs:15 | comparing the first characters first, with `\0` for an empty string, gives the same sign as comparing the first differing characters or the lengths |
| `Text.CompareOrdinalZero` | Deps2Mermaid/Version.cs:15 | the ordinal comparison is zero iff the strings are equal |
| `Text.CompareOrdinalAntisymmetric` | Deps2Mermaid/Version.cs:15 | swapping the strings negates the ordinal comparison |
| `Text.CompareOrdinalTransitive` | Deps2Mermaid/Version.cs:15 | "not after" is transitive for the ordinal comparison |
| `Text.SplitOnce` | Deps2Mermaid/Version.cs:29 | `Split(c, 2)`: one piece iff `c` is absent, otherwise the text before the first `c` and the rest |
| `Text.SplitJoin` | Deps2Mermaid/Version.cs:30 | splitting a join on a separator that no part holds gives the parts back |
| `Text.ReplaceChar` | Deps2Mermaid/Program.cs:104 | same length; each character replaced iff it is the one searched for |
| `Text.TrimStartWhere` | Deps2Mermaid/CommandLineArguments.cs:45 | drops exactly the longest prefix of characters satisfying the predicate |

## Left out

- `Program.Main`'s I/O: reading the `project.assets.json` files, the console, the verbose
  log and opening the browser. These are side effects. The model takes the edge list as
  input and returns text.
- `CreateMermaidPayload`: JSON serialisation, zlib compression (RFC 1950 and RFC 1951) and
  base64 (section 4 of RFC 4648) are library calls. Only the substitution that follows
  them is modelled (`Render.UrlSafe`). It resembles section 5 of RFC 4648 but keeps the `=`
  padding.
- `ProjectAssetsJsonReader.cs`, `MermaidGraph.cs` and `Coordinate.cs` are JSON plumbing and
  are not part of this model. `ShowHelp` only prints.
- Regular expressions are predicates. Their matching semantics, and the project-root
  pattern `Main` builds from the root names, are not modelled.
- The enumeration order of the `HashSet` and of the lookups is not modelled. The zoom
  result is a set.
- The order of the node dictionary's keys is a parameter of the zoom, not derived from
  `GetNodes`.
- `Zooming.Zoom`, `Zooming.DrainStack`, `Render.WriteToOutput`: the source throws
  KeyNotFoundException when a name is missing from the dictionary. The model requires
  every name to be present instead. `Zooming.MainKeysSuffice` and `Render.MainRenders`
  prove that the dictionary `Main` builds satisfies this requirement.
- `Zooming.Zoom`: the push count is a ghost out-parameter. Its bound is a statement about
  the proof, not something the program returns.
- The forward and backward depths, the strong filter, the exclude and weak-exclude patterns
  and the output type come from a `CommandLineArguments` that this source revision does not
  declare. They are parameters of the model, with no default values.
- `Text.CompareOrdinal`: .NET compares UTF-16 code units, while the model compares whole
  code points. So a tag holding a character above U+FFFF compares the other way against a
  tag holding one in U+E000–U+FFFF. The magnitude of the result differs as well. Only the
  empty-string case, where .NET returns the difference from `\0`, is modelled exactly.
- `Text.FoldCase`: `StringComparer.OrdinalIgnoreCase` is modelled as ASCII upper-casing.
  Non-ASCII case mapping is not modelled. The dictionary holds the folded keys, not the
  spelling first stored.
- `Text.IsDigit`: `char.IsDigit` is modelled as ASCII digits only. Culture-specific
  `int.Parse` is not modelled, except for white space, sign and the Int32 range.
- Width: segments are Int32 values (a subset type). Nothing in the modelled code does
  arithmetic on them that could wrap.
- The test files are not encoded. Some of them target a later revision, for example one
  whose `Version` holds `VersionPart` segments.

## Findings

| source | as written | input that shows it | evidently intended | confidence | as-written member | corrected member |
|---|---|---|---|---|---|---|
| Deps2Mermaid/Program.cs:174-176 | an edge pushes its far end only when it is added for the first time, so a name first reached along a long path is expanded with too little depth left, and a shorter path found later cannot expand it again | edges A→B, A→C, C→B, B→D, D→E; pattern selecting A; forward depth 3, backward depth 0: the zoom returns A→B, A→C, C→B, B→D but not D→E, which is 3 steps from A | every edge within the depth bounds of a selected node is kept (`ReachZoom`) | not executed; proved on the model | `Zooming.ZoomMissesReachable` | `Zooming.ZoomLayers` |
