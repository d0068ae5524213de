/** Program.Zoom: a forward and then a backward depth-bounded sweep from the
    node names a pattern selects, over an explicit stack, collecting edges
    into one shared set.

    The sweep is specified by `Drain`, a function that runs the same stack
    machine; the method is proved to compute it. An edge pushes its far end
    only the first time it is added, so what is collected is in general less
    than everything within the depth bounds (`Reach`, `ReachZoom`). */
module Zooming {
  import opened Wrappers
  import opened Text
  import opened Dependencies
  import opened Nodes
  import V = Versions
  import R = VersionRanges
  import C = Components
  import References

  /** A stack entry: the depth still to go and a node name. */
  type Entry = (int, string)

  /** The distinct edges of the de-duplicated edge list. */
  function Edges(deps: seq<Dependency>): set<Dependency> {
    set d | d in deps
  }

  lemma SubsetCard<T>(a: set<T>, b: set<T>)
    requires a <= b
    ensures |a| <= |b|
  {
    assert b == a + (b - a);
    assert a * (b - a) == {};
  }

  /** `nodes.Keys.Where(regex.IsMatch)`, in key order. */
  function Seeds(isMatch: string -> bool, keys: seq<string>): (r: seq<string>)
    ensures forall k :: k in r <==> k in keys && isMatch(k)
  {
    if keys == [] then []
    else Seeds(isMatch, keys[..|keys| - 1]) + (if isMatch(keys[|keys| - 1]) then [keys[|keys| - 1]] else [])
  }

  /** The stack after pushing every seed at `depth`, the last seed on top. */
  function Entries(seeds: seq<string>, depth: int): (r: seq<Entry>)
    ensures |r| == |seeds|
    ensures forall k | 0 <= k < |r| :: r[k] == (depth, seeds[k])
  {
    seq(|seeds|, k requires 0 <= k < |seeds| => (depth, seeds[k]))
  }

  /** The names at the far end of some of the links. */
  function FarEnds(dir: Direction, links: seq<Dependency>): set<string> {
    set e | e in links :: Far(dir, e)
  }

  /** The `foreach` over the links of a popped entry at depth `d`: an edge not
      yet in the result is added, and its far end pushed at depth `d - 1`. */
  function Visit(dir: Direction, links: seq<Dependency>, d: int, result: set<Dependency>, todo: seq<Entry>)
    : (r: (set<Dependency>, seq<Entry>))
    ensures r.0 == result + set e | e in links
    ensures |r.1| == |todo| + |r.0| - |result|
    ensures todo <= r.1
    ensures forall k | |todo| <= k < |r.1| :: r.1[k].0 == d - 1 && r.1[k].1 in FarEnds(dir, links)
  {
    if links == [] then (result, todo)
    else if links[0] in result then Visit(dir, links[1..], d, result, todo)
    else Visit(dir, links[1..], d, result + {links[0]}, todo + [(d - 1, Far(dir, links[0]))])
  }

  /** The `while (todo.Count > 0)` loop of one sweep: pop the top entry, skip
      it at depth 0 or below, otherwise visit the links of its name. */
  function Drain(deps: seq<Dependency>, dir: Direction, result: set<Dependency>, todo: seq<Entry>): (r: set<Dependency>)
    requires result <= Edges(deps)
    ensures result <= r <= Edges(deps)
    decreases |Edges(deps)| - |result|, |todo|
  {
    SubsetCard(result, Edges(deps));
    if todo == [] then result
    else
      var top := todo[|todo| - 1];
      var rest := todo[..|todo| - 1];
      if top.0 <= 0 then Drain(deps, dir, result, rest)
      else
        LinksMembers(deps, dir, top.1);
        var next := Visit(dir, Links(deps, dir, top.1), top.0, result, rest);
        Drain(deps, dir, next.0, next.1)
  }

  /** One sweep (`Forward` or `Backward`): push the seeds, then drain. */
  function Sweep(deps: seq<Dependency>, dir: Direction, seeds: seq<string>, depth: int, result: set<Dependency>)
    : set<Dependency>
    requires result <= Edges(deps)
  {
    Drain(deps, dir, result, Entries(seeds, depth))
  }

  /** What Zoom returns: the forward sweep, then the backward sweep adding to
      the same set. */
  function Run(isMatch: string -> bool, keys: seq<string>, deps: seq<Dependency>, forward: int, backward: int)
    : (r: set<Dependency>)
    ensures r <= Edges(deps)
  {
    var seeds := Seeds(isMatch, keys);
    Sweep(deps, Backward, seeds, backward, Sweep(deps, Forward, seeds, forward, {}))
  }

  // ------------------------------------------------------------ the methods

  /** `foreach (var key in nodes.Keys.Where(...)) todo.Push((depth, key))` on an empty stack. */
  method PushSeeds(isMatch: string -> bool, keys: seq<string>, depth: int32) returns (todo: seq<Entry>)
    ensures todo == Entries(Seeds(isMatch, keys), depth)
  {
    todo := [];
    for i := 0 to |keys|
      invariant todo == Entries(Seeds(isMatch, keys[..i]), depth)
    {
      assert keys[..i + 1][..i] == keys[..i];
      if isMatch(keys[i]) {
        todo := todo + [(depth as int, keys[i])];
      }
    }
    assert keys[..|keys|] == keys;
  }

  /** `foreach (var next in links) if (result.Add(next)) todo.Push((d - 1, far end))`. */
  method VisitLinks(dir: Direction, links: seq<Dependency>, d: int, result0: set<Dependency>, todo0: seq<Entry>)
    returns (result: set<Dependency>, todo: seq<Entry>)
    ensures (result, todo) == Visit(dir, links, d, result0, todo0)
  {
    result, todo := result0, todo0;
    for j := 0 to |links|
      invariant Visit(dir, links[j..], d, result, todo) == Visit(dir, links, d, result0, todo0)
    {
      var next := links[j];
      assert links[j..][1..] == links[j + 1..];
      if next !in result {
        result := result + {next};
        todo := todo + [(d - 1, Far(dir, next))];
      }
    }
    assert links[|links|..] == [];
  }

  /** The `while (todo.Count > 0)` loop. Every name on the stack must be a key
      of `nodes`, since `nodes[name]` is looked up; `pushes` counts the pushes. */
  method DrainStack(keys: seq<string>, deps: seq<Dependency>, dir: Direction, result0: set<Dependency>, todo0: seq<Entry>)
    returns (result: set<Dependency>, ghost pushes: nat)
    requires result0 <= Edges(deps)
    requires forall e | e in deps :: e.component.name in keys && e.reference.name in keys
    requires forall k | 0 <= k < |todo0| :: todo0[k].1 in keys
    ensures result == Drain(deps, dir, result0, todo0)
    ensures pushes + |result0| == |result|
  {
    var todo := todo0;
    result := result0;
    pushes := 0;
    while todo != []
      invariant result0 <= result <= Edges(deps)
      invariant Drain(deps, dir, result, todo) == Drain(deps, dir, result0, todo0)
      invariant forall k | 0 <= k < |todo| :: todo[k].1 in keys
      invariant pushes + |result0| == |result|
      decreases |Edges(deps)| - |result|, |todo|
    {
      SubsetCard(result, Edges(deps));
      var (d, name) := todo[|todo| - 1];
      todo := todo[..|todo| - 1];
      if d <= 0 {
        continue;
      }
      assert name in keys;  // `nodes[name]` finds its node
      var links := Links(deps, dir, name);
      LinksMembers(deps, dir, name);
      ghost var rest := todo;
      result, todo := VisitLinks(dir, links, d, result, todo);
      pushes := pushes + (|todo| - |rest|);
      forall k | |rest| <= k < |todo|
        ensures todo[k].1 in keys
      {
        var e :| e in links && Far(dir, e) == todo[k].1;
        assert e in deps;
      }
    }
  }

  /** `Forward(depth)` or `Backward(depth)`: the stack starts empty (the
      previous sweep drained it) and the result is shared. `keys` lists the
      dictionary's keys in enumeration order. */
  method Traverse(isMatch: string -> bool, keys: seq<string>, deps: seq<Dependency>, dir: Direction, depth: int32,
                  result0: set<Dependency>)
    returns (result: set<Dependency>, ghost pushes: nat)
    requires result0 <= Edges(deps)
    requires forall e | e in deps :: e.component.name in keys && e.reference.name in keys
    ensures result == Sweep(deps, dir, Seeds(isMatch, keys), depth, result0)
    ensures pushes + |result0| == |Seeds(isMatch, keys)| + |result|
  {
    var todo := PushSeeds(isMatch, keys, depth);
    ghost var drained;
    result, drained := DrainStack(keys, deps, dir, result0, todo);
    pushes := |todo| + drained;
  }

  /** Program.Zoom: the edges collected by the forward sweep and then the
      backward sweep from the same seeds. `pushes` counts every stack push. */
  method Zoom(isMatch: string -> bool, keys: seq<string>, deps: seq<Dependency>, forward: int32, backward: int32)
    returns (result: set<Dependency>, ghost pushes: nat)
    requires forall e | e in deps :: e.component.name in keys && e.reference.name in keys
    ensures result == Run(isMatch, keys, deps, forward, backward)
    ensures pushes == 2 * |Seeds(isMatch, keys)| + |result|
    ensures pushes <= 2 * |Seeds(isMatch, keys)| + |Edges(deps)|
  {
    ghost var forwardPushes, backwardPushes;
    result, forwardPushes := Traverse(isMatch, keys, deps, Forward, forward, {});
    result, backwardPushes := Traverse(isMatch, keys, deps, Backward, backward, result);
    pushes := forwardPushes + backwardPushes;
    SubsetCard(result, Edges(deps));
  }

  /** The dictionary built by Program.Main holds every endpoint name, so Zoom's
      lookups all succeed on it. */
  lemma MainKeysSuffice(deps: seq<Dependency>)
    ensures var keys := NodeNames(GetNodes(deps));
      forall e | e in deps :: e.component.name in keys && e.reference.name in keys
  {
    forall e | e in deps
      ensures e.component.name in NodeNames(GetNodes(deps)) && e.reference.name in NodeNames(GetNodes(deps))
    {
      GetNodesNamesEdges(deps, e);
    }
  }

  // ------------------------------------------------------ what a sweep keeps

  /** The names one step further along `dir` from `names`. */
  function Step(deps: seq<Dependency>, dir: Direction, names: set<string>): set<string> {
    set e | e in deps && Near(dir, e) in names :: Far(dir, e)
  }

  /** The names reachable from `seeds` along at most `k` edges in direction `dir`. */
  function Reach(deps: seq<Dependency>, dir: Direction, seeds: set<string>, k: nat): (r: set<string>)
    ensures seeds <= r
  {
    if k == 0 then seeds
    else
      var prev := Reach(deps, dir, seeds, k - 1);
      prev + Step(deps, dir, prev)
  }

  lemma {:induction false} ReachMonotone(deps: seq<Dependency>, dir: Direction, seeds: set<string>, k: nat, k': nat)
    requires k <= k'
    ensures Reach(deps, dir, seeds, k) <= Reach(deps, dir, seeds, k')
  {
    if k < k' {
      ReachMonotone(deps, dir, seeds, k, k' - 1);
    }
  }

  /** The edges leaving (forward) or entering (backward) one of `names`. */
  function Out(deps: seq<Dependency>, dir: Direction, names: set<string>): set<Dependency> {
    set e | e in deps && Near(dir, e) in names
  }

  /** Entries at depth 0 or below are popped and dropped. */
  lemma {:induction false} DrainShallow(deps: seq<Dependency>, dir: Direction, result: set<Dependency>, todo: seq<Entry>)
    requires result <= Edges(deps)
    requires forall k | 0 <= k < |todo| :: todo[k].0 <= 0
    ensures Drain(deps, dir, result, todo) == result
    decreases |todo|
  {
    if todo != [] {
      DrainShallow(deps, dir, result, todo[..|todo| - 1]);
    }
  }

  /** The edges within `depth` of the seeds along `dir`. */
  function Within(deps: seq<Dependency>, dir: Direction, seeds: set<string>, depth: int): set<Dependency> {
    if depth < 1 then {} else Out(deps, dir, Reach(deps, dir, seeds, depth - 1))
  }

  /** Layers of names, each one step along `dir` beyond the one before; the
      sets `Reach(.., 0)`, `Reach(.., 1)`, ... are such layers. */
  predicate Layered(deps: seq<Dependency>, dir: Direction, layers: seq<set<string>>) {
    forall i | 0 <= i < |layers| - 1 :: layers[i] + Step(deps, dir, layers[i]) <= layers[i + 1]
  }

  lemma {:induction false} LayeredMonotone(deps: seq<Dependency>, dir: Direction, layers: seq<set<string>>, i: nat, j: nat)
    requires Layered(deps, dir, layers) && i <= j < |layers|
    ensures layers[i] <= layers[j]
  {
    if i < j {
      LayeredMonotone(deps, dir, layers, i, j - 1);
    }
  }

  /** The stack condition that makes a sweep sound: each entry `(d, name)`
      has `name` in layer `depth - d`. */
  predicate StackWithin(layers: seq<set<string>>, depth: int, todo: seq<Entry>) {
    forall k | 0 <= k < |todo| :: todo[k].0 <= depth && depth - todo[k].0 < |layers| && todo[k].1 in layers[depth - todo[k].0]
  }

  /** Popping an entry keeps the rest within bounds. */
  lemma StackWithinPop(layers: seq<set<string>>, depth: int, todo: seq<Entry>)
    requires todo != [] && StackWithin(layers, depth, todo)
    ensures StackWithin(layers, depth, todo[..|todo| - 1])
  {
    var rest := todo[..|todo| - 1];
    assert forall k | 0 <= k < |rest| :: rest[k] == todo[k];
  }

  lemma StepOf(deps: seq<Dependency>, dir: Direction, names: set<string>, e: Dependency)
    requires e in deps && Near(dir, e) in names
    ensures Far(dir, e) in Step(deps, dir, names)
  {
  }

  /** The far ends of a name's links are in the next layer. */
  lemma LinksStep(deps: seq<Dependency>, dir: Direction, layers: seq<set<string>>, n: nat, name: string)
    requires Layered(deps, dir, layers) && n + 1 < |layers| && name in layers[n]
    ensures FarEnds(dir, Links(deps, dir, name)) <= layers[n + 1]
  {
    LinksMembers(deps, dir, name);
    forall x | x in FarEnds(dir, Links(deps, dir, name))
      ensures x in layers[n + 1]
    {
      var e :| e in Links(deps, dir, name) && Far(dir, e) == x;
      StepOf(deps, dir, layers[n], e);
    }
  }

  /** Visiting pushes entries one level down, at names among the far ends. */
  lemma VisitPushes(dir: Direction, links: seq<Dependency>, d: int, result: set<Dependency>, rest: seq<Entry>,
                    far: set<string>)
    requires FarEnds(dir, links) <= far
    ensures var pushed := Visit(dir, links, d, result, rest).1;
      && pushed[..|rest|] == rest
      && forall k | |rest| <= k < |pushed| :: pushed[k].0 == d - 1 && pushed[k].1 in far
  {
  }

  /** Entries pushed one level down at names of the next layer keep the stack within bounds. */
  lemma PushedWithin(layers: seq<set<string>>, depth: int, d: int, rest: seq<Entry>, pushed: seq<Entry>)
    requires 1 <= d <= depth < |layers| && StackWithin(layers, depth, rest)
    requires |rest| <= |pushed| && pushed[..|rest|] == rest
    requires forall k | |rest| <= k < |pushed| :: pushed[k].0 == d - 1 && pushed[k].1 in layers[depth - d + 1]
    ensures StackWithin(layers, depth, pushed)
  {
    forall k | 0 <= k < |pushed|
      ensures pushed[k].0 <= depth && depth - pushed[k].0 < |layers| && pushed[k].1 in layers[depth - pushed[k].0]
    {
      if k < |rest| {
        assert pushed[k] == pushed[..|rest|][k] == rest[k];
      }
    }
  }

  /** Visiting the links of a popped entry at depth `d >= 1` pushes far ends
      one layer further at one level less. */
  lemma VisitWithin(deps: seq<Dependency>, dir: Direction, layers: seq<set<string>>, depth: int,
                    d: int, name: string, result: set<Dependency>, rest: seq<Entry>)
    requires Layered(deps, dir, layers) && 1 <= d <= depth < |layers| && name in layers[depth - d]
    requires StackWithin(layers, depth, rest)
    ensures StackWithin(layers, depth, Visit(dir, Links(deps, dir, name), d, result, rest).1)
  {
    var links := Links(deps, dir, name);
    LinksStep(deps, dir, layers, depth - d, name);
    VisitPushes(dir, links, d, result, rest, layers[depth - d + 1]);
    PushedWithin(layers, depth, d, rest, Visit(dir, links, d, result, rest).1);
  }

  /** Visiting the links of `name` adds only edges of `name`. */
  lemma VisitAdds(deps: seq<Dependency>, dir: Direction, d: int, name: string, result: set<Dependency>, rest: seq<Entry>,
                  names: set<string>)
    requires name in names
    ensures Visit(dir, Links(deps, dir, name), d, result, rest).0 - result <= Out(deps, dir, names)
    ensures result <= Edges(deps) ==> Visit(dir, Links(deps, dir, name), d, result, rest).0 <= Edges(deps)
  {
    LinksMembers(deps, dir, name);
  }

  /** So every edge a sweep adds leaves a name of layer `depth - 1`. */
  lemma {:induction false} DrainSound(deps: seq<Dependency>, dir: Direction, layers: seq<set<string>>, depth: int,
                                      result: set<Dependency>, todo: seq<Entry>)
    requires result <= Edges(deps)
    requires Layered(deps, dir, layers) && depth < |layers|
    requires StackWithin(layers, depth, todo)
    ensures Drain(deps, dir, result, todo) - result <= (if depth >= 1 then Out(deps, dir, layers[depth - 1]) else {})
    decreases |Edges(deps)| - |result|, |todo|
  {
    SubsetCard(result, Edges(deps));
    if todo != [] {
      var top := todo[|todo| - 1];
      var rest := todo[..|todo| - 1];
      StackWithinPop(layers, depth, todo);
      if top.0 <= 0 {
        DrainSound(deps, dir, layers, depth, result, rest);
      } else {
        var next := Visit(dir, Links(deps, dir, top.1), top.0, result, rest);
        VisitWithin(deps, dir, layers, depth, top.0, top.1, result, rest);
        LayeredMonotone(deps, dir, layers, depth - top.0, depth - 1);
        VisitAdds(deps, dir, top.0, top.1, result, rest, layers[depth - 1]);
        DrainSound(deps, dir, layers, depth, next.0, next.1);
      }
    }
  }

  /** `Reach(.., 0)` up to `Reach(.., n)`. */
  function Layers(deps: seq<Dependency>, dir: Direction, seeds: set<string>, n: nat): (r: seq<set<string>>)
    ensures |r| == n + 1 && r[0] == seeds
    ensures forall i | 0 <= i <= n :: r[i] == Reach(deps, dir, seeds, i)
    ensures Layered(deps, dir, r)
  {
    seq(n + 1, i requires 0 <= i <= n => Reach(deps, dir, seeds, i))
  }

  /** A sweep from the seeds at `depth` adds only edges within `depth`. */
  lemma SweepSound(deps: seq<Dependency>, dir: Direction, seeds: seq<string>, depth: int, result: set<Dependency>)
    requires result <= Edges(deps)
    ensures Sweep(deps, dir, seeds, depth, result) - result <= Within(deps, dir, (set s | s in seeds), depth)
  {
    var n: nat := if depth >= 0 then depth else 0;
    var layers := Layers(deps, dir, (set s | s in seeds), n);
    assert StackWithin(layers, depth, Entries(seeds, depth));
    DrainSound(deps, dir, layers, depth, result, Entries(seeds, depth));
  }

  /** An entry popped at depth 1 or more adds every edge of its name. */
  lemma {:induction false} DrainCovers(deps: seq<Dependency>, dir: Direction, result: set<Dependency>, todo: seq<Entry>,
                                       k: nat)
    requires result <= Edges(deps)
    requires k < |todo| && todo[k].0 >= 1
    ensures Out(deps, dir, {todo[k].1}) <= Drain(deps, dir, result, todo)
    decreases |Edges(deps)| - |result|, |todo|
  {
    SubsetCard(result, Edges(deps));
    var top := todo[|todo| - 1];
    var rest := todo[..|todo| - 1];
    if top.0 <= 0 {
      assert rest[k] == todo[k];
      DrainCovers(deps, dir, result, rest, k);
    } else {
      LinksMembers(deps, dir, top.1);
      var next := Visit(dir, Links(deps, dir, top.1), top.0, result, rest);
      if k < |rest| {
        assert next.1[k] == rest[k] == todo[k];
        DrainCovers(deps, dir, next.0, next.1, k);
      }
    }
  }

  /** The names the pattern selects. */
  function SeedSet(isMatch: string -> bool, keys: seq<string>): set<string> {
    set k | k in keys && isMatch(k)
  }

  /** With both depths at 0 or below, Zoom returns nothing. */
  lemma RunShallow(isMatch: string -> bool, keys: seq<string>, deps: seq<Dependency>, forward: int, backward: int)
    requires forward <= 0 && backward <= 0
    ensures Run(isMatch, keys, deps, forward, backward) == {}
  {
    var seeds := Seeds(isMatch, keys);
    DrainShallow(deps, Forward, {}, Entries(seeds, forward));
    DrainShallow(deps, Backward, {}, Entries(seeds, backward));
  }

  /** What Zoom returns is within the depth bounds: an edge leaving a name at
      most `forward - 1` steps downstream of a seed, or entering a name at most
      `backward - 1` steps upstream of one. */
  lemma RunSound(isMatch: string -> bool, keys: seq<string>, deps: seq<Dependency>, forward: int, backward: int)
    ensures Run(isMatch, keys, deps, forward, backward) <= ReachZoom(isMatch, keys, deps, forward, backward)
  {
    var seeds := Seeds(isMatch, keys);
    assert (set s | s in seeds) == SeedSet(isMatch, keys);
    SweepSound(deps, Forward, seeds, forward, {});
    SweepSound(deps, Backward, seeds, backward, Sweep(deps, Forward, seeds, forward, {}));
  }

  /** Every edge leaving a selected name is kept when `forward >= 1`, and every
      edge entering one when `backward >= 1`. */
  lemma RunCoversSeeds(isMatch: string -> bool, keys: seq<string>, deps: seq<Dependency>, forward: int, backward: int)
    ensures forward >= 1 ==> Out(deps, Forward, SeedSet(isMatch, keys)) <= Run(isMatch, keys, deps, forward, backward)
    ensures backward >= 1 ==> Out(deps, Backward, SeedSet(isMatch, keys)) <= Run(isMatch, keys, deps, forward, backward)
  {
    var seeds := Seeds(isMatch, keys);
    var first := Sweep(deps, Forward, seeds, forward, {});
    var forwardTodo, backwardTodo := Entries(seeds, forward), Entries(seeds, backward);
    forall e | e in Out(deps, Forward, SeedSet(isMatch, keys)) && forward >= 1
      ensures e in first
    {
      var k :| 0 <= k < |seeds| && seeds[k] == Near(Forward, e);
      DrainCovers(deps, Forward, {}, forwardTodo, k);
      assert e in Out(deps, Forward, {forwardTodo[k].1});
    }
    forall e | e in Out(deps, Backward, SeedSet(isMatch, keys)) && backward >= 1
      ensures e in Run(isMatch, keys, deps, forward, backward)
    {
      var k :| 0 <= k < |seeds| && seeds[k] == Near(Backward, e);
      DrainCovers(deps, Backward, first, backwardTodo, k);
      assert e in Out(deps, Backward, {backwardTodo[k].1});
    }
  }

  /** With forward depth 1 and no backward depth, Zoom keeps exactly the edges
      whose depending component the pattern selects. */
  lemma RunForwardOne(isMatch: string -> bool, keys: seq<string>, deps: seq<Dependency>, backward: int)
    requires forall e | e in deps :: e.component.name in keys
    requires backward <= 0
    ensures Run(isMatch, keys, deps, 1, backward) == set e | e in deps && isMatch(e.component.name)
  {
    RunSound(isMatch, keys, deps, 1, backward);
    RunCoversSeeds(isMatch, keys, deps, 1, backward);
    assert Reach(deps, Forward, SeedSet(isMatch, keys), 0) == SeedSet(isMatch, keys);
  }

  // ------------------------------------------- depth-bounded reachability

  /** The zoom the depth bounds describe: every edge leaving a name at most
      `forward - 1` steps downstream of a selected name, and every edge
      entering a name at most `backward - 1` steps upstream of one. */
  function ReachZoom(isMatch: string -> bool, keys: seq<string>, deps: seq<Dependency>, forward: int, backward: int)
    : set<Dependency>
  {
    var s := SeedSet(isMatch, keys);
    Within(deps, Forward, s, forward) + Within(deps, Backward, s, backward)
  }

  lemma WithinMonotone(deps: seq<Dependency>, dir: Direction, seeds: set<string>, depth: int, depth': int)
    requires depth <= depth'
    ensures Within(deps, dir, seeds, depth) <= Within(deps, dir, seeds, depth')
  {
    if depth >= 1 {
      ReachMonotone(deps, dir, seeds, depth - 1, depth' - 1);
    }
  }

  /** A larger depth never loses an edge. */
  lemma ReachZoomMonotone(isMatch: string -> bool, keys: seq<string>, deps: seq<Dependency>,
                          forward: int, backward: int, forward': int, backward': int)
    requires forward <= forward' && backward <= backward'
    ensures ReachZoom(isMatch, keys, deps, forward, backward) <= ReachZoom(isMatch, keys, deps, forward', backward')
  {
    var s := SeedSet(isMatch, keys);
    WithinMonotone(deps, Forward, s, forward, forward');
    WithinMonotone(deps, Backward, s, backward, backward');
  }

  // ------------------------------------------------- a breadth-first sweep

  lemma StepSnoc(deps: seq<Dependency>, dir: Direction, names: set<string>, j: nat)
    requires j < |deps|
    ensures Step(deps[..j + 1], dir, names)
      == Step(deps[..j], dir, names) + (if Near(dir, deps[j]) in names then {Far(dir, deps[j])} else {})
  {
    assert deps[..j + 1] == deps[..j] + [deps[j]];
  }

  lemma OutSnoc(deps: seq<Dependency>, dir: Direction, names: set<string>, j: nat)
    requires j < |deps|
    ensures Out(deps[..j + 1], dir, names)
      == Out(deps[..j], dir, names) + (if Near(dir, deps[j]) in names then {deps[j]} else {})
  {
    assert deps[..j + 1] == deps[..j] + [deps[j]];
  }

  /** One sweep done breadth first: the names are expanded layer by layer, so
      every name within `depth - 1` steps has all its edges kept. */
  method TraverseLayers(deps: seq<Dependency>, dir: Direction, seeds: set<string>, depth: int32)
    returns (edges: set<Dependency>)
    ensures edges == Within(deps, dir, seeds, depth)
  {
    if depth < 1 {
      return {};
    }
    var reached := seeds;
    for level := 0 to depth - 1
      invariant reached == Reach(deps, dir, seeds, level)
    {
      var next := reached;
      for j := 0 to |deps|
        invariant next == reached + Step(deps[..j], dir, reached)
      {
        StepSnoc(deps, dir, reached, j);
        if Near(dir, deps[j]) in reached {
          next := next + {Far(dir, deps[j])};
        }
      }
      assert deps[..|deps|] == deps;
      reached := next;
    }
    edges := {};
    for j := 0 to |deps|
      invariant edges == Out(deps[..j], dir, reached)
    {
      OutSnoc(deps, dir, reached, j);
      if Near(dir, deps[j]) in reached {
        edges := edges + {deps[j]};
      }
    }
    assert deps[..|deps|] == deps;
  }

  /** Zoom with breadth-first sweeps: exactly the edges the depth bounds describe. */
  method ZoomLayers(isMatch: string -> bool, keys: seq<string>, deps: seq<Dependency>, forward: int32, backward: int32)
    returns (result: set<Dependency>)
    ensures result == ReachZoom(isMatch, keys, deps, forward, backward)
  {
    var seeds: set<string> := {};
    for i := 0 to |keys|
      invariant seeds == SeedSet(isMatch, keys[..i])
    {
      assert keys[..i + 1] == keys[..i] + [keys[i]];
      if isMatch(keys[i]) {
        seeds := seeds + {keys[i]};
      }
    }
    assert keys[..|keys|] == keys;
    var downstream := TraverseLayers(deps, Forward, seeds, forward);
    var upstream := TraverseLayers(deps, Backward, seeds, backward);
    result := downstream + upstream;
  }

  // ------------------------------------------- the first-insertion shortcut

  const One := V.Version(1, 0, 0, None)

  /** An edge between two names; the versions play no part in a zoom. */
  function Edge(from: string, to: string): Dependency {
    Dependency(C.Component(from, One), References.Reference(to, R.Exact(One)))
  }

  function SelectsA(name: string): bool {
    name == "A"
  }

  const ShortcutEdges: seq<Dependency> := [Edge("A", "B"), Edge("A", "C"), Edge("C", "B"), Edge("B", "D"), Edge("D", "E")]
  const ShortcutKeys: seq<string> := ["A", "B", "C", "D", "E"]

  /** Popping an entry at depth 0 or below only drops it. */
  lemma DrainSkip(deps: seq<Dependency>, dir: Direction, result: set<Dependency>, rest: seq<Entry>, top: Entry)
    requires result <= Edges(deps) && top.0 <= 0
    ensures Drain(deps, dir, result, rest + [top]) == Drain(deps, dir, result, rest)
  {
    assert (rest + [top])[..|rest|] == rest;
  }

  /** Popping an entry above depth 0 visits the links of its name. */
  lemma DrainExpand(deps: seq<Dependency>, dir: Direction, result: set<Dependency>, rest: seq<Entry>, top: Entry)
    requires result <= Edges(deps) && top.0 >= 1
    ensures (LinksMembers(deps, dir, top.1);
      var next := Visit(dir, Links(deps, dir, top.1), top.0, result, rest);
      Drain(deps, dir, result, rest + [top]) == Drain(deps, dir, next.0, next.1))
  {
    LinksMembers(deps, dir, top.1);
    assert (rest + [top])[..|rest|] == rest;
  }

  lemma LinksCons(x: Dependency, rest: seq<Dependency>, dir: Direction, name: string)
    ensures Links([x] + rest, dir, name) == (if Near(dir, x) == name then [x] else []) + Links(rest, dir, name)
  {
    assert ([x] + rest)[1..] == rest;
  }

  /** The five edges a->b, a->c, c->b, b->d, d->e between distinct names. */
  predicate IsShortcut(es: seq<Dependency>, names: seq<string>) {
    && |es| == 5 && |names| == 5
    && (forall i, j | 0 <= i < j < 5 :: names[i] != names[j])
    && es[0].component.name == names[0] && es[0].reference.name == names[1]
    && es[1].component.name == names[0] && es[1].reference.name == names[2]
    && es[2].component.name == names[2] && es[2].reference.name == names[1]
    && es[3].component.name == names[1] && es[3].reference.name == names[3]
    && es[4].component.name == names[3] && es[4].reference.name == names[4]
  }

  lemma ShortcutLinks(es: seq<Dependency>, names: seq<string>)
    requires IsShortcut(es, names)
    ensures Links(es, Forward, names[0]) == [es[0], es[1]]
    ensures Links(es, Forward, names[1]) == [es[3]]
    ensures Links(es, Forward, names[2]) == [es[2]]
  {
    assert es == [es[0]] + ([es[1]] + ([es[2]] + ([es[3]] + ([es[4]] + []))));
    forall n | n in names[..3]
      ensures Links(es, Forward, n) == (if Near(Forward, es[0]) == n then [es[0]] else [])
        + (if Near(Forward, es[1]) == n then [es[1]] else []) + (if Near(Forward, es[2]) == n then [es[2]] else [])
        + (if Near(Forward, es[3]) == n then [es[3]] else []) + (if Near(Forward, es[4]) == n then [es[4]] else [])
    {
      LinksCons(es[0], [es[1]] + ([es[2]] + ([es[3]] + ([es[4]] + []))), Forward, n);
      LinksCons(es[1], [es[2]] + ([es[3]] + ([es[4]] + [])), Forward, n);
      LinksCons(es[2], [es[3]] + ([es[4]] + []), Forward, n);
      LinksCons(es[3], [es[4]] + [], Forward, n);
      LinksCons(es[4], [], Forward, n);
    }
    assert names[0] in names[..3] && names[1] in names[..3] && names[2] in names[..3];
  }

  lemma ShortcutDistinct(es: seq<Dependency>, names: seq<string>)
    requires IsShortcut(es, names)
    ensures es[2] !in {es[0], es[1]} && es[3] !in {es[0], es[1], es[2]} && es[4] !in {es[0], es[1], es[2], es[3]}
    ensures Edges(es) == {es[0], es[1], es[2], es[3], es[4]}
  {
    assert Edges(es) == {es[0], es[1], es[2], es[3], es[4]} by {
      assert es == [es[0], es[1], es[2], es[3], es[4]];
    }
  }

  lemma PairOfEntries(a: Entry, b: Entry)
    ensures [a] + [b] == [a, b]
  {
  }

  /** Visiting one link: added and pushed when new, ignored otherwise. */
  lemma VisitOne(dir: Direction, x: Dependency, d: int, result: set<Dependency>, todo: seq<Entry>)
    ensures Visit(dir, [x], d, result, todo)
         == if x in result then (result, todo) else (result + {x}, todo + [(d - 1, Far(dir, x))])
  {
    assert [x][1..] == [];
  }

  /** Visiting two new links adds and pushes both, in order. */
  lemma VisitTwo(dir: Direction, x: Dependency, y: Dependency, d: int, result: set<Dependency>, todo: seq<Entry>)
    requires x !in result && y !in result && x != y
    ensures Visit(dir, [x, y], d, result, todo) == (result + {x, y}, todo + [(d - 1, Far(dir, x)), (d - 1, Far(dir, y))])
  {
    assert [x, y][1..] == [y];
    VisitOne(dir, y, d, result + {x}, todo + [(d - 1, Far(dir, x))]);
    assert result + {x} + {y} == result + {x, y};
    assert todo + [(d - 1, Far(dir, x))] + [(d - 1, Far(dir, y))] == todo + [(d - 1, Far(dir, x)), (d - 1, Far(dir, y))];
  }

  lemma ShortcutPopA(es: seq<Dependency>, names: seq<string>)
    requires IsShortcut(es, names)
    ensures Drain(es, Forward, {}, [(3, names[0])])
         == Drain(es, Forward, {es[0], es[1]}, [(2, names[1]), (2, names[2])])
  {
    var r2 := {es[0], es[1]};
    var top := (3, names[0]);
    ShortcutLinks(es, names);
    ShortcutDistinct(es, names);
    assert r2 <= Edges(es);
    assert [] + [top] == [(3, names[0])];
    DrainExpand(es, Forward, {}, [], top);
    assert Links(es, Forward, top.1) == [es[0], es[1]];
    VisitTwo(Forward, es[0], es[1], 3, {}, []);
    assert {} + {es[0], es[1]} == r2;
    assert [] + [(2, names[1]), (2, names[2])] == [(2, names[1]), (2, names[2])];
  }

  lemma ShortcutPopC(es: seq<Dependency>, names: seq<string>)
    requires IsShortcut(es, names)
    ensures Drain(es, Forward, {es[0], es[1]}, [(2, names[1]), (2, names[2])])
         == Drain(es, Forward, {es[0], es[1], es[2]}, [(2, names[1]), (1, names[1])])
  {
    var r2, r3 := {es[0], es[1]}, {es[0], es[1], es[2]};
    var rest, top := [(2, names[1])], (2, names[2]);
    ShortcutLinks(es, names);
    ShortcutDistinct(es, names);
    assert r2 <= Edges(es) && r3 <= Edges(es);
    assert rest + [top] == [(2, names[1]), (2, names[2])];
    DrainExpand(es, Forward, r2, rest, top);
    assert Links(es, Forward, top.1) == [es[2]];
    VisitOne(Forward, es[2], 2, r2, rest);
    assert r2 + {es[2]} == r3;
    assert Far(Forward, es[2]) == names[1];
    PairOfEntries((2, names[1]), (1, names[1]));
  }

  lemma ShortcutPopB(es: seq<Dependency>, names: seq<string>)
    requires IsShortcut(es, names)
    ensures Drain(es, Forward, {es[0], es[1], es[2]}, [(2, names[1]), (1, names[1])])
         == Drain(es, Forward, {es[0], es[1], es[2], es[3]}, [(2, names[1])])
  {
    var r3, r4 := {es[0], es[1], es[2]}, {es[0], es[1], es[2], es[3]};
    var rest, top := [(2, names[1])], (1, names[1]);
    ShortcutLinks(es, names);
    ShortcutDistinct(es, names);
    assert r3 <= Edges(es) && r4 <= Edges(es);
    assert rest + [top] == [(2, names[1]), (1, names[1])];
    DrainExpand(es, Forward, r3, rest, top);
    assert Links(es, Forward, top.1) == [es[3]];
    VisitOne(Forward, es[3], 1, r3, rest);
    assert r3 + {es[3]} == r4;
    DrainSkip(es, Forward, r4, rest, (0, names[3]));
  }

  lemma ShortcutPopBAgain(es: seq<Dependency>, names: seq<string>)
    requires IsShortcut(es, names)
    ensures Drain(es, Forward, {es[0], es[1], es[2], es[3]}, [(2, names[1])]) == {es[0], es[1], es[2], es[3]}
  {
    var r4 := {es[0], es[1], es[2], es[3]};
    var top := (2, names[1]);
    ShortcutLinks(es, names);
    ShortcutDistinct(es, names);
    assert r4 <= Edges(es);
    assert [] + [top] == [(2, names[1])];
    DrainExpand(es, Forward, r4, [], top);
    assert Links(es, Forward, top.1) == [es[3]];
    VisitOne(Forward, es[3], 2, r4, []);
  }


  /** The last edge is within three steps of `names[0]`. */
  lemma ShortcutWithin(es: seq<Dependency>, names: seq<string>, seeds: set<string>)
    requires IsShortcut(es, names) && names[0] in seeds
    ensures es[4] in Within(es, Forward, seeds, 3)
  {
    var r1 := Reach(es, Forward, seeds, 1);
    assert es[0] in es && es[3] in es && es[4] in es;
    StepOf(es, Forward, seeds, es[0]);
    assert names[1] in r1;
    StepOf(es, Forward, r1, es[3]);
    assert names[3] in Reach(es, Forward, seeds, 2);
  }

  lemma ShortcutInstance()
    ensures IsShortcut(ShortcutEdges, ShortcutKeys)
  {
  }

  lemma ShortcutSeeds()
    ensures Seeds(SelectsA, ShortcutKeys) == ["A"]
    ensures SeedSet(SelectsA, ShortcutKeys) == {"A"}
  {
    assert ["A"][..0] == [];
    assert Seeds(SelectsA, ["A"]) == ["A"];
    assert ["A", "B"][..1] == ["A"];
    assert Seeds(SelectsA, ["A", "B"]) == ["A"];
    assert ["A", "B", "C"][..2] == ["A", "B"];
    assert Seeds(SelectsA, ["A", "B", "C"]) == ["A"];
    assert ["A", "B", "C", "D"][..3] == ["A", "B", "C"];
    assert Seeds(SelectsA, ["A", "B", "C", "D"]) == ["A"];
    assert ShortcutKeys[..4] == ["A", "B", "C", "D"];
  }

  /** The whole zoom at forward depth 3 and backward depth 0, seeded with
      `names[0]` alone, returns the first four edges. */
  lemma ShortcutRun(isMatch: string -> bool, keys: seq<string>, es: seq<Dependency>, names: seq<string>)
    requires IsShortcut(es, names) && Seeds(isMatch, keys) == [names[0]]
    ensures Run(isMatch, keys, es, 3, 0) == {es[0], es[1], es[2], es[3]}
  {
    var r4 := {es[0], es[1], es[2], es[3]};
    ShortcutDistinct(es, names);
    assert r4 <= Edges(es);
    assert Entries([names[0]], 3) == [(3, names[0])];
    assert Entries([names[0]], 0) == [] + [(0, names[0])];
    ShortcutPopA(es, names);
    ShortcutPopC(es, names);
    ShortcutPopB(es, names);
    ShortcutPopBAgain(es, names);
    assert Sweep(es, Forward, [names[0]], 3, {}) == r4;
    DrainSkip(es, Backward, r4, [], (0, names[0]));
  }

  /** With edges A->B, A->C, C->B, B->D, D->E, the seed A and forward depth 3,
      B is first reached at depth 1 through C, and B->D is added then; when B
      is popped again at depth 2, B->D is already in the set and D is not
      pushed again, so D->E is lost although D is two steps from A. */
  lemma ZoomMissesReachable()
    ensures Run(SelectsA, ShortcutKeys, ShortcutEdges, 3, 0) == {Edge("A", "B"), Edge("A", "C"), Edge("C", "B"), Edge("B", "D")}
    ensures Edge("D", "E") in ReachZoom(SelectsA, ShortcutKeys, ShortcutEdges, 3, 0)
    ensures Edge("D", "E") !in Run(SelectsA, ShortcutKeys, ShortcutEdges, 3, 0)
  {
    var es, names := ShortcutEdges, ShortcutKeys;
    ShortcutInstance();
    ShortcutSeeds();
    ShortcutDistinct(es, names);
    ShortcutRun(SelectsA, names, es, names);
    ShortcutWithin(es, names, {"A"});
  }
}
