/** CommandLineArguments: argv split into positional arguments and named
    options (a `-key` or `--key` or `-/key`, with the next argument as its
    value unless that one is an option too), then read with defaults. */
module CommandLine {
  import opened Wrappers
  import opened Text
  import Extensions

  // ----------------------------------------------------------- the scanner

  predicate IsOption(arg: string) {
    StartsWith(arg, '-')
  }

  predicate IsKeyPrefix(c: char) {
    c == '-' || c == '/'
  }

  /** `arg.TrimStart('-', '/')`. */
  function KeyOf(arg: string): string {
    TrimStartWhere(arg, IsKeyPrefix)
  }

  /** The named options: a dictionary with StringComparer.OrdinalIgnoreCase,
      held under the folded key. */
  type Named = map<string, string>

  /** The locals of DetermineParameters: the positional list, the dictionary
      and the pending key. */
  datatype Scan = Scan(positional: seq<string>, named: Named, key: Option<string>)

  /** Storing `value` under `key`, overwriting a value under the same key in any case. */
  function Store(named: Named, key: string, value: string): Named {
    named[FoldCase(key) := value]
  }

  /** One turn of the `foreach` over the arguments. */
  function Step(s: Scan, arg: string): Scan {
    if IsOption(arg) then
      var named := if s.key.Some? then Store(s.named, s.key.value, "") else s.named;
      Scan(s.positional, named, Some(KeyOf(arg)))
    else if s.key.None? then Scan(s.positional + [arg], s.named, None)
    else Scan(s.positional, Store(s.named, s.key.value, arg), None)
  }

  /** The rest of the loop from state `s`, then the pending key stored with "". */
  function Run(s: Scan, args: seq<string>): Scan
    decreases |args|
  {
    if args == [] then
      if s.key.Some? then Scan(s.positional, Store(s.named, s.key.value, ""), None) else s
    else Run(Step(s, args[0]), args[1..])
  }

  const Start := Scan([], map[], None)

  /** The result of DetermineParameters. */
  function Determined(args: seq<string>): (seq<string>, Named) {
    var s := Run(Start, args);
    (s.positional, s.named)
  }

  /** CommandLineArguments.DetermineParameters. */
  method DetermineParameters(args: seq<string>) returns (positional: seq<string>, named: Named)
    ensures (positional, named) == Determined(args)
  {
    positional, named := [], map[];
    var key: Option<string> := None;
    for i := 0 to |args|
      invariant Run(Scan(positional, named, key), args[i..]) == Run(Start, args)
    {
      var arg := args[i];
      assert args[i..][1..] == args[i + 1..];
      if IsOption(arg) {
        if key.Some? {
          named := named[FoldCase(key.value) := ""];
        }
        key := Some(KeyOf(arg));
      } else if key.None? {
        positional := positional + [arg];
      } else {
        named := named[FoldCase(key.value) := arg];
        key := None;
      }
    }
    if key.Some? {
      named := named[FoldCase(key.value) := ""];
    }
  }

  // ------------------------------------------------ the grammar it follows

  /** The arguments read as a sequence of items: `-key value`, a `-key` with
      no value (followed by another option or by nothing), or a positional
      argument. Returns the positional arguments and the (key, value) pairs. */
  function Items(args: seq<string>): (seq<string>, seq<(string, string)>)
    decreases |args|
  {
    if args == [] then ([], [])
    else if !IsOption(args[0]) then
      var rest := Items(args[1..]);
      ([args[0]] + rest.0, rest.1)
    else if |args| > 1 && !IsOption(args[1]) then
      var rest := Items(args[2..]);
      (rest.0, [(KeyOf(args[0]), args[1])] + rest.1)
    else
      var rest := Items(args[1..]);
      (rest.0, [(KeyOf(args[0]), "")] + rest.1)
  }

  /** The pairs stored in order, a later value overwriting an earlier one. */
  function StoreAll(named: Named, pairs: seq<(string, string)>): Named
    decreases |pairs|
  {
    if pairs == [] then named else StoreAll(Store(named, pairs[0].0, pairs[0].1), pairs[1..])
  }

  /** From a state without a pending key, the loop reads items. */
  lemma {:induction false} RunItems(positional: seq<string>, named: Named, args: seq<string>)
    ensures var s, items := Run(Scan(positional, named, None), args), Items(args);
      s == Scan(positional + items.0, StoreAll(named, items.1), None)
    decreases |args|
  {
    if args == [] {
      assert positional + [] == positional;
    } else if !IsOption(args[0]) {
      RunItems(positional + [args[0]], named, args[1..]);
      assert positional + [args[0]] + Items(args[1..]).0 == positional + ([args[0]] + Items(args[1..]).0);
    } else if |args| > 1 && !IsOption(args[1]) {
      var key := KeyOf(args[0]);
      assert args[1..][0] == args[1] && args[1..][1..] == args[2..];
      RunItems(positional, Store(named, key, args[1]), args[2..]);
    } else if |args| == 1 {
      var key := KeyOf(args[0]);
      assert args[1..] == [];
      assert [(key, "")] + [] == [(key, "")];
      assert Items(args) == ([], [(key, "")]);
    } else {
      var key := KeyOf(args[0]);
      assert args[1..][0] == args[1] && args[1..][1..] == args[2..];
      assert Step(Scan(positional, named, Some(key)), args[1])
          == Step(Scan(positional, Store(named, key, ""), None), args[1]);
      RunItems(positional, Store(named, key, ""), args[1..]);
    }
  }

  /** DetermineParameters returns the positional arguments of the items and
      the dictionary of their pairs. */
  lemma DeterminedItems(args: seq<string>)
    ensures Determined(args) == (Items(args).0, StoreAll(map[], Items(args).1))
  {
    RunItems([], map[], args);
    assert [] + Items(args).0 == Items(args).0;
  }

  // --------------------------------------------------- facts about the items

  /** The folded keys of some pairs. */
  function PairKeys(pairs: seq<(string, string)>): set<string> {
    set j | 0 <= j < |pairs| :: FoldCase(pairs[j].0)
  }

  lemma PairKeysCons(p: (string, string), pairs: seq<(string, string)>)
    ensures PairKeys([p] + pairs) == {FoldCase(p.0)} + PairKeys(pairs)
  {
    var ps := [p] + pairs;
    forall k | k in PairKeys(ps)
      ensures k in {FoldCase(p.0)} + PairKeys(pairs)
    {
      var j :| 0 <= j < |ps| && FoldCase(ps[j].0) == k;
      if j > 0 {
        assert ps[j] == pairs[j - 1];
      }
    }
    forall k | k in PairKeys(pairs)
      ensures k in PairKeys(ps)
    {
      var j :| 0 <= j < |pairs| && FoldCase(pairs[j].0) == k;
      assert ps[j + 1] == pairs[j];
    }
    assert FoldCase(ps[0].0) in PairKeys(ps);
  }

  /** The dictionary holds its keys and those of the pairs, and no other. */
  lemma {:induction false} StoreAllKeys(named: Named, pairs: seq<(string, string)>)
    ensures StoreAll(named, pairs).Keys == named.Keys + PairKeys(pairs)
    decreases |pairs|
  {
    if pairs == [] {
      assert PairKeys(pairs) == {};
    } else {
      StoreAllKeys(Store(named, pairs[0].0, pairs[0].1), pairs[1..]);
      PairKeysCons(pairs[0], pairs[1..]);
      assert [pairs[0]] + pairs[1..] == pairs;
    }
  }

  /** The last pair for a key decides its value. */
  lemma {:induction false} StoreAllLast(named: Named, pairs: seq<(string, string)>, j: nat)
    requires j < |pairs|
    requires forall m | j < m < |pairs| :: FoldCase(pairs[m].0) != FoldCase(pairs[j].0)
    ensures FoldCase(pairs[j].0) in StoreAll(named, pairs)
    ensures StoreAll(named, pairs)[FoldCase(pairs[j].0)] == pairs[j].1
    decreases |pairs|
  {
    if j == 0 {
      StoreAllUntouched(Store(named, pairs[0].0, pairs[0].1), pairs[1..], FoldCase(pairs[0].0));
    } else {
      StoreAllLast(Store(named, pairs[0].0, pairs[0].1), pairs[1..], j - 1);
    }
  }

  /** Pairs under other keys leave a key's value alone. */
  lemma {:induction false} StoreAllUntouched(named: Named, pairs: seq<(string, string)>, k: string)
    requires k in named
    requires forall m | 0 <= m < |pairs| :: FoldCase(pairs[m].0) != k
    ensures k in StoreAll(named, pairs) && StoreAll(named, pairs)[k] == named[k]
    decreases |pairs|
  {
    if pairs != [] {
      StoreAllUntouched(Store(named, pairs[0].0, pairs[0].1), pairs[1..], k);
    }
  }

  /** Every positional argument is an argument that is no option. */
  lemma {:induction false} ItemsPositional(args: seq<string>)
    ensures |Items(args).0| <= |args|
    ensures forall p | p in Items(args).0 :: p in args && !IsOption(p)
    decreases |args|
  {
    if args != [] {
      if !IsOption(args[0]) || |args| == 1 || IsOption(args[1]) {
        ItemsPositional(args[1..]);
      } else {
        ItemsPositional(args[2..]);
        assert forall p | p in args[2..] :: p in args;
      }
    }
  }

  /** The positional arguments by a look-behind rule: in order, every argument
      that is no option and does not come right after one. */
  function Standalone(args: seq<string>, afterOption: bool): seq<string>
    decreases |args|
  {
    if args == [] then []
    else (if !IsOption(args[0]) && !afterOption then [args[0]] else []) + Standalone(args[1..], IsOption(args[0]))
  }

  /** The items' positional arguments follow the look-behind rule. */
  lemma {:induction false} ItemsStandalone(args: seq<string>)
    ensures Items(args).0 == Standalone(args, false)
    decreases |args|
  {
    if args != [] {
      if !IsOption(args[0]) {
        ItemsStandalone(args[1..]);
      } else if |args| > 1 && !IsOption(args[1]) {
        ItemsStandalone(args[2..]);
        assert args[1..][0] == args[1] && args[1..][1..] == args[2..];
        assert Standalone(args[1..], true) == [] + Standalone(args[2..], false);
      } else {
        ItemsStandalone(args[1..]);
        if |args| > 1 {
          var rest := args[1..];
          assert Standalone(rest, true) == [] + Standalone(rest[1..], true);
          assert Standalone(rest, false) == [] + Standalone(rest[1..], true);
        }
      }
    }
  }

  /** DetermineParameters keeps, in order, exactly the arguments that are no
      option and do not follow an option. */
  lemma PositionalRule(args: seq<string>)
    ensures Determined(args).0 == Standalone(args, false)
  {
    DeterminedItems(args);
    ItemsStandalone(args);
  }

  /** The keys the arguments give, folded. */
  function GivenKeys(args: seq<string>): set<string> {
    set i | 0 <= i < |args| && IsOption(args[i]) :: FoldCase(KeyOf(args[i]))
  }

  lemma GivenKeysCons(args: seq<string>)
    requires args != []
    ensures GivenKeys(args) == (if IsOption(args[0]) then {FoldCase(KeyOf(args[0]))} else {}) + GivenKeys(args[1..])
  {
    var rest := args[1..];
    forall k | k in GivenKeys(args)
      ensures k in (if IsOption(args[0]) then {FoldCase(KeyOf(args[0]))} else {}) + GivenKeys(rest)
    {
      var i :| 0 <= i < |args| && IsOption(args[i]) && FoldCase(KeyOf(args[i])) == k;
      if i > 0 {
        assert rest[i - 1] == args[i];
      }
    }
    forall k | k in GivenKeys(rest)
      ensures k in GivenKeys(args)
    {
      var i :| 0 <= i < |rest| && IsOption(rest[i]) && FoldCase(KeyOf(rest[i])) == k;
      assert args[i + 1] == rest[i];
    }
  }

  /** The keys of the pairs are exactly the keys of the options. */
  lemma {:induction false} ItemsKeys(args: seq<string>)
    ensures PairKeys(Items(args).1) == GivenKeys(args)
    decreases |args|
  {
    if args == [] {
      assert PairKeys([]) == {};
    } else {
      GivenKeysCons(args);
      if !IsOption(args[0]) {
        ItemsKeys(args[1..]);
      } else if |args| > 1 && !IsOption(args[1]) {
        ItemsKeys(args[2..]);
        GivenKeysCons(args[1..]);
        assert args[1..][0] == args[1] && args[1..][1..] == args[2..];
        PairKeysCons((KeyOf(args[0]), args[1]), Items(args[2..]).1);
      } else {
        ItemsKeys(args[1..]);
        PairKeysCons((KeyOf(args[0]), ""), Items(args[1..]).1);
      }
    }
  }

  // -------------------------------------------------------------- the parse

  /** CommandLineArguments: the five settings the program reads. */
  datatype Arguments = Arguments(path: string, help: bool, filter: string, zoom: Option<string>, projectRoot: bool)

  /** `named.GetValueOrDefault(key)`, null being `None`. */
  function Lookup(named: Named, key: string): Option<string> {
    if FoldCase(key) in named then Some(named[FoldCase(key)]) else None
  }

  /** `a ?? b`. */
  function OrElse(a: Option<string>, b: Option<string>): Option<string> {
    if a.Some? then a else b
  }

  /** CommandLineArguments.Parse. */
  function Parse(args: seq<string>): Arguments {
    var (positional, named) := Determined(args);
    var first := Extensions.GetAtOrDefault(positional, 0);
    var path := OrElse(OrElse(OrElse(first.value, Lookup(named, "path")), Lookup(named, "p")), Some(".")).value;
    var help := FoldCase("help") in named || FoldCase("?") in named;
    var filter := OrElse(OrElse(Lookup(named, "filter"), Lookup(named, "f")), Some(".*")).value;
    var zoom := OrElse(Lookup(named, "zoom"), Lookup(named, "z"));
    var projectRoot := FoldCase("projectroot") in named || FoldCase("pr") in named;
    Arguments(path, help, filter, zoom, projectRoot)
  }

  /** A key is in the dictionary exactly when some option gives it, in any case. */
  lemma NamedKeys(args: seq<string>)
    ensures Determined(args).1.Keys == GivenKeys(args)
  {
    DeterminedItems(args);
    ItemsKeys(args);
    StoreAllKeys(map[], Items(args).1);
  }

  /** `help` and `projectroot` hold iff their long or short option is given,
      in any case and with any value. */
  lemma ParseSwitches(args: seq<string>)
    ensures Parse(args).help <==> FoldCase("help") in GivenKeys(args) || FoldCase("?") in GivenKeys(args)
    ensures Parse(args).projectRoot <==> FoldCase("projectroot") in GivenKeys(args) || FoldCase("pr") in GivenKeys(args)
  {
    NamedKeys(args);
  }

  /** The path is the first positional argument when there is one, then the
      value of `path`, then the value of `p`, and "." when there is none of them. */
  lemma ParsePath(args: seq<string>)
    ensures Items(args).0 != [] ==> Parse(args).path == Items(args).0[0]
    ensures Items(args).0 == [] && FoldCase("path") in GivenKeys(args)
            ==> Lookup(Determined(args).1, "path") == Some(Parse(args).path)
    ensures Items(args).0 == [] && FoldCase("path") !in GivenKeys(args) && FoldCase("p") in GivenKeys(args)
            ==> Lookup(Determined(args).1, "p") == Some(Parse(args).path)
    ensures Items(args).0 == [] && FoldCase("path") !in GivenKeys(args) && FoldCase("p") !in GivenKeys(args)
            ==> Parse(args).path == "."
  {
    DeterminedItems(args);
    NamedKeys(args);
  }

  /** A path option with no value gives the empty path, not the default. */
  lemma PathWithoutValue()
    ensures Parse(["-path"]).path == ""
  {
    var args := ["-path"];
    assert IsOption(args[0]);
    assert KeyOf("-path") == "path" by {
      assert "-path"[1..] == "path";
    }
    assert args[1..] == [];
    assert [("path", "")] + [] == [("path", "")];
    assert Items(args) == ([], [("path", "")]);
    DeterminedItems(args);
    assert StoreAll(map[], [("path", "")]) == map[FoldCase("path") := ""];
  }

  /** The filter is the value of `filter`, then of `f`, and ".*" without
      either; the zoom is the value of `zoom`, then of `z`, and null otherwise. */
  lemma ParseOptionalValues(args: seq<string>)
    ensures FoldCase("filter") in GivenKeys(args) ==> Lookup(Determined(args).1, "filter") == Some(Parse(args).filter)
    ensures FoldCase("filter") !in GivenKeys(args) && FoldCase("f") in GivenKeys(args)
            ==> Lookup(Determined(args).1, "f") == Some(Parse(args).filter)
    ensures FoldCase("filter") !in GivenKeys(args) && FoldCase("f") !in GivenKeys(args) ==> Parse(args).filter == ".*"
    ensures FoldCase("zoom") in GivenKeys(args) ==> Parse(args).zoom == Lookup(Determined(args).1, "zoom")
    ensures FoldCase("zoom") !in GivenKeys(args) ==> Parse(args).zoom == Lookup(Determined(args).1, "z")
    ensures Parse(args).zoom.None? <==> FoldCase("zoom") !in GivenKeys(args) && FoldCase("z") !in GivenKeys(args)
  {
    NamedKeys(args);
  }

  /** With no arguments every setting takes its default. */
  lemma ParseDefaults()
    ensures Parse([]) == Arguments(".", false, ".*", None, false)
  {
  }
}
