/** A version range (VersionRange.cs): a lower bound that is always there, an
    optional upper bound and a flag per bound telling whether it is included.
    It prints in NuGet interval notation and parses three notations: a bare
    version, bracketed intervals and `op version` pairs. */
module VersionRanges {
  import opened Wrappers
  import opened Text
  import V = Versions

  datatype VersionRange = VersionRange(min: V.Version, max: Option<V.Version>, minInclusive: bool, maxInclusive: bool)

  /** VersionRange.Exact: the closed interval holding one version. */
  function Exact(version: V.Version): (r: VersionRange)
    ensures r.min == version && r.max == Some(version)
    ensures r.minInclusive && r.maxInclusive
  {
    VersionRange(version, Some(version), true, true)
  }

  /** VersionRange.Minimal: every version from `version` on. */
  function Minimal(version: V.Version): (r: VersionRange)
    ensures r.min == version && r.max == None
    ensures r.minInclusive && !r.maxInclusive
  {
    VersionRange(version, None, true, false)
  }

  // ---------------------------------------------------------------- printing

  /** A closed interval whose bounds coincide: it prints as the bare version. */
  predicate IsPoint(r: VersionRange) {
    r.max == Some(r.min) && r.minInclusive && r.maxInclusive
  }

  predicate IsOpening(c: char) {
    c == '[' || c == '('
  }

  predicate IsClosing(c: char) {
    c == ']' || c == ')'
  }

  function OpenBracket(inclusive: bool): char {
    if inclusive then '[' else '('
  }

  function CloseBracket(inclusive: bool): char {
    if inclusive then ']' else ')'
  }

  /** VersionRange.ToString: `[min,)` or `(min,)` without an upper bound
      (whatever maxInclusive says), the bare version for a point, and
      `[min,max]` with the matching brackets otherwise. */
  function ToString(r: VersionRange): string {
    if r.max.None? then [OpenBracket(r.minInclusive)] + V.ToString(r.min) + ",)"
    else if IsPoint(r) then V.ToString(r.min)
    else [OpenBracket(r.minInclusive)] + V.ToString(r.min) + "," + V.ToString(r.max.value) + [CloseBracket(r.maxInclusive)]
  }

  /** Exact prints as the bare version, Minimal as `[version,)`. */
  lemma ConstructorsPrint(version: V.Version)
    ensures ToString(Exact(version)) == V.ToString(version)
    ensures ToString(Minimal(version)) == "[" + V.ToString(version) + ",)"
  {
  }

  /** The printer ignores maxInclusive when there is no upper bound, so two
      different ranges print alike. */
  lemma UnboundedIgnoresMaxInclusive(r: VersionRange)
    requires r.max.None?
    ensures ToString(r.(maxInclusive := true)) == ToString(r.(maxInclusive := false))
    ensures r.(maxInclusive := true) != r.(maxInclusive := false)
  {
  }

  /** The characters of a printed range: those of its versions, brackets and
      the comma. */
  lemma ToStringChars(r: VersionRange, c: char)
    requires c != '.' && c != '-' && c != ',' && !IsDigit(c) && !IsOpening(c) && !IsClosing(c)
    requires r.min.tag.Some? ==> c !in r.min.tag.value
    requires r.max.Some? && r.max.value.tag.Some? ==> c !in r.max.value.tag.value
    ensures c !in ToString(r)
  {
    V.ToStringChars(r.min, c);
    if r.max.Some? {
      V.ToStringChars(r.max.value, c);
    }
  }

  // --------------------------------------------------- operator-style parsing

  /** The locals of ParseOperatorStyle: the bounds read so far and their flags. */
  datatype Bounds = Bounds(min: Option<V.Version>, max: Option<V.Version>, minInclusive: bool, maxInclusive: bool)

  const NoBounds := Bounds(None, None, false, false)

  predicate SetsMin(op: string) {
    op == ">" || op == ">=" || op == "="
  }

  predicate SetsMax(op: string) {
    op == "<" || op == "<=" || op == "="
  }

  /** One `case` of the switch: `>`/`>=` set the lower bound, `<`/`<=` the
      upper one, `=` both, inclusively; any other operator changes nothing and
      its operand is not parsed. */
  function ApplyOperator(b: Bounds, op: string, operand: string, parse: string -> Result<V.Version>): (r: Result<Bounds>)
    ensures !SetsMin(op) && !SetsMax(op) ==> r == Ok(b)
    ensures (SetsMin(op) || SetsMax(op)) ==> (r.Err? <==> parse(operand).Err?)
  {
    if op == ">" then
      var v :- parse(operand);
      Ok(b.(min := Some(v), minInclusive := false))
    else if op == ">=" then
      var v :- parse(operand);
      Ok(b.(min := Some(v), minInclusive := true))
    else if op == "<" then
      var v :- parse(operand);
      Ok(b.(max := Some(v), maxInclusive := false))
    else if op == "<=" then
      var v :- parse(operand);
      Ok(b.(max := Some(v), maxInclusive := true))
    else if op == "=" then
      var v :- parse(operand);
      Ok(Bounds(Some(v), Some(v), true, true))
    else Ok(b)
  }

  /** The loop of ParseOperatorStyle, written as a recursion over the
      (operator, operand) pairs that remain; a trailing lone word is ignored. */
  function ApplyOperators(b: Bounds, parts: seq<string>, parse: string -> Result<V.Version>): Result<Bounds>
    decreases |parts|
  {
    if |parts| < 2 then Ok(b)
    else
      var next :- ApplyOperator(b, parts[0], parts[1], parse);
      ApplyOperators(next, parts[2..], parse)
  }

  /** What ParseOperatorStyle computes: the space-separated words read as pairs,
      and an InvalidOperationException when no pair set a lower bound. */
  function OperatorStyle(value: string): Result<VersionRange> {
    var b :- ApplyOperators(NoBounds, Split(value, ' '), V.Parse);
    if b.min.None? then Err(MissingMinimum)
    else Ok(VersionRange(b.min.value, b.max, b.minInclusive, b.maxInclusive))
  }

  /** VersionRange.ParseOperatorStyle: the `for` loop stepping two words at a
      time and updating the four locals; a Version.Parse failure propagates. */
  method ParseOperatorStyle(value: string) returns (r: Result<VersionRange>)
    ensures r == OperatorStyle(value)
  {
    var parts := Split(value, ' ');
    var min: Option<V.Version> := None;
    var max: Option<V.Version> := None;
    var minInclusive, maxInclusive := false, false;
    var i := 0;
    while i + 1 < |parts|
      invariant 0 <= i <= |parts|
      invariant ApplyOperators(Bounds(min, max, minInclusive, maxInclusive), parts[i..], V.Parse) == ApplyOperators(NoBounds, parts, V.Parse)
      decreases |parts| - i
    {
      assert parts[i..][2..] == parts[i + 2..];
      var op, operand := parts[i], parts[i + 1];
      if op == ">" || op == ">=" || op == "<" || op == "<=" || op == "=" {
        var v := V.Parse(operand);
        if v.Err? {
          return Err(v.error);
        }
        if op == ">" {
          min, minInclusive := Some(v.value), false;
        } else if op == ">=" {
          min, minInclusive := Some(v.value), true;
        } else if op == "<" {
          max, maxInclusive := Some(v.value), false;
        } else if op == "<=" {
          max, maxInclusive := Some(v.value), true;
        } else {
          min, max := Some(v.value), Some(v.value);
          minInclusive, maxInclusive := true, true;
        }
      }
      i := i + 2;
    }
    if min.None? {
      return Err(MissingMinimum);
    }
    return Ok(VersionRange(min.value, max, minInclusive, maxInclusive));
  }

  /** Word `j` is an operator that the loop reads, with its operand after it. */
  predicate IsPair(parts: seq<string>, j: int) {
    0 <= j && j % 2 == 0 && j + 1 < |parts|
  }

  /** The two bounds, so that one lemma can speak of either. */
  datatype Side = Lower | Upper

  predicate Sets(side: Side, op: string) {
    if side == Lower then SetsMin(op) else SetsMax(op)
  }

  /** Whether the operator makes its bound inclusive: all but `>` and `<` do. */
  function Inclusive(side: Side, op: string): bool {
    if side == Lower then op != ">" else op != "<"
  }

  function Bound(side: Side, b: Bounds): Option<V.Version> {
    if side == Lower then b.min else b.max
  }

  function BoundInclusive(side: Side, b: Bounds): bool {
    if side == Lower then b.minInclusive else b.maxInclusive
  }

  /** The pairs after the first one are those of parts[2..], two places on. */
  lemma PairsShift(parts: seq<string>)
    requires |parts| >= 2
    ensures forall k | k >= 0 :: IsPair(parts[2..], k) <==> IsPair(parts, k + 2)
    ensures forall k | 0 <= k < |parts| - 2 :: parts[2..][k] == parts[k + 2]
  {
    forall k | k >= 0
      ensures IsPair(parts[2..], k) <==> IsPair(parts, k + 2)
    {
      assert (k + 2) % 2 == k % 2;
    }
  }

  /** The pairs fail exactly when the operand of some recognised operator does
      not parse. */
  lemma {:induction false} ApplyOperatorsFails(b: Bounds, parts: seq<string>, parse: string -> Result<V.Version>)
    ensures ApplyOperators(b, parts, parse).Err? <==>
      exists j :: IsPair(parts, j) && (SetsMin(parts[j]) || SetsMax(parts[j])) && parse(parts[j + 1]).Err?
    decreases |parts|
  {
    if |parts| >= 2 {
      PairsShift(parts);
      var step := ApplyOperator(b, parts[0], parts[1], parse);
      if step.Ok? {
        ApplyOperatorsFails(step.value, parts[2..], parse);
        if exists j :: IsPair(parts, j) && (SetsMin(parts[j]) || SetsMax(parts[j])) && parse(parts[j + 1]).Err? {
          var j :| IsPair(parts, j) && (SetsMin(parts[j]) || SetsMax(parts[j])) && parse(parts[j + 1]).Err?;
          assert j != 0;
          assert IsPair(parts[2..], j - 2);
        }
      } else {
        assert IsPair(parts, 0);
      }
    }
  }

  /** A bound no pair sets keeps its starting value. */
  lemma {:induction false} ApplyOperatorsUnset(side: Side, b: Bounds, parts: seq<string>, parse: string -> Result<V.Version>)
    requires ApplyOperators(b, parts, parse).Ok?
    requires forall j | IsPair(parts, j) :: !Sets(side, parts[j])
    ensures Bound(side, ApplyOperators(b, parts, parse).value) == Bound(side, b)
    ensures BoundInclusive(side, ApplyOperators(b, parts, parse).value) == BoundInclusive(side, b)
    decreases |parts|
  {
    if |parts| >= 2 {
      PairsShift(parts);
      assert IsPair(parts, 0);
      var next := ApplyOperator(b, parts[0], parts[1], parse).value;
      ApplyOperatorsUnset(side, next, parts[2..], parse);
    }
  }

  /** A later pair overrides an earlier one: the last pair that sets a bound
      decides its value and its flag. */
  lemma {:induction false} ApplyOperatorsLast(side: Side, b: Bounds, parts: seq<string>, parse: string -> Result<V.Version>, j: int)
    requires ApplyOperators(b, parts, parse).Ok?
    requires IsPair(parts, j) && Sets(side, parts[j])
    requires forall k | IsPair(parts, k) && k > j :: !Sets(side, parts[k])
    ensures parse(parts[j + 1]).Ok?
    ensures Bound(side, ApplyOperators(b, parts, parse).value) == Some(parse(parts[j + 1]).value)
    ensures BoundInclusive(side, ApplyOperators(b, parts, parse).value) == Inclusive(side, parts[j])
    decreases |parts|
  {
    PairsShift(parts);
    assert IsPair(parts, 0);
    var rest := parts[2..];
    var next := ApplyOperator(b, parts[0], parts[1], parse).value;
    assert ApplyOperators(b, parts, parse) == ApplyOperators(next, rest, parse);
    if j == 0 {
      forall k | IsPair(rest, k)
        ensures !Sets(side, rest[k])
      {
        assert IsPair(parts, k + 2);
      }
      ApplyOperatorsUnset(side, next, rest, parse);
    } else {
      assert IsPair(rest, j - 2) && rest[j - 2] == parts[j] && rest[j - 1] == parts[j + 1];
      forall k | IsPair(rest, k) && k > j - 2
        ensures !Sets(side, rest[k])
      {
        assert IsPair(parts, k + 2);
      }
      ApplyOperatorsLast(side, next, rest, parse, j - 2);
    }
  }

  /** Operator style yields a range only when some pair set the lower bound. */
  lemma OperatorStyleNeedsMinimum(value: string)
    requires forall j | IsPair(Split(value, ' '), j) :: !SetsMin(Split(value, ' ')[j])
    ensures OperatorStyle(value).Err?
  {
    var parts := Split(value, ' ');
    if ApplyOperators(NoBounds, parts, V.Parse).Ok? {
      ApplyOperatorsUnset(Lower, NoBounds, parts, V.Parse);
    }
  }

  // ------------------------------------------------------------ Parse

  /** The characters that select operator style. */
  predicate IsOperatorStart(c: char) {
    c == '>' || c == '<' || c == '='
  }

  /** VersionRange.Parse: after trimming, a leading digit means one exact
      version, a leading `>`, `<` or `=` operator pairs, and anything else
      must be bracketed. Empty text fails on `value[0]`. */
  function Parse(value: string): Result<VersionRange> {
    var t := Trim(value);
    if t == [] then Err(IndexOutOfRange)
    else if IsDigit(t[0]) then
      var v :- V.Parse(t);
      Ok(Exact(v))
    else if IsOperatorStart(t[0]) then OperatorStyle(t)
    else Bracketed(t)
  }

  /** The bracket notation: `[` or `(`, then `]` or `)` at the end, or an
      ArgumentException. The interior splits on its first comma; with no comma
      there is no upper bound, whatever the closing bracket says, and the upper
      bound goes through the non-throwing TryParse. */
  function Bracketed(t: string): Result<VersionRange>
    requires t != []
  {
    if !IsOpening(t[0]) then Err(InvalidReferenceFormat)
    else if !IsClosing(t[|t| - 1]) then Err(InvalidReferenceFormat)
    else
      var parts := SplitOnce(t[1..|t| - 1], ',');
      var min :- V.Parse(parts[0]);
      var max :- if |parts| == 1 then Ok(None) else V.TryParse(Some(parts[1]));
      Ok(VersionRange(min, max, t[0] == '[', t[|t| - 1] == ']'))
  }

  /** Trimmed text that starts with a digit is read as one exact version. */
  lemma ParseExactDispatch(value: string)
    requires Trim(value) != [] && IsDigit(Trim(value)[0])
    ensures Parse(value).Ok? <==> V.Parse(Trim(value)).Ok?
    ensures Parse(value).Ok? ==> Parse(value).value == Exact(V.Parse(Trim(value)).value)
  {
  }

  /** Trimmed text that starts with `>`, `<` or `=` is read as operator pairs. */
  lemma ParseOperatorDispatch(value: string)
    requires Trim(value) != [] && IsOperatorStart(Trim(value)[0])
    ensures Parse(value) == OperatorStyle(Trim(value))
  {
    assert !IsDigit(Trim(value)[0]);
  }

  /** The text Parse rejects before reading any version: empty text fails on
      `value[0]`, and text that is neither a version, nor operator pairs, nor
      bracketed is an ArgumentException. */
  lemma ParseRejects(value: string)
    ensures Trim(value) == [] ==> Parse(value) == Err(IndexOutOfRange)
    ensures Trim(value) != [] && !IsDigit(Trim(value)[0]) && !IsOperatorStart(Trim(value)[0]) && !IsOpening(Trim(value)[0]) ==>
      Parse(value) == Err(InvalidReferenceFormat)
    ensures Trim(value) != [] && IsOpening(Trim(value)[0]) && !IsClosing(Trim(value)[|Trim(value)| - 1]) ==>
      Parse(value) == Err(InvalidReferenceFormat)
  {
    var t := Trim(value);
    if t != [] && IsOpening(t[0]) {
      assert !IsDigit(t[0]) && !IsOperatorStart(t[0]);
    }
  }

  /** Text that starts and ends with brackets goes to the bracket form. */
  lemma ParseOfBracketed(t: string)
    requires t != [] && IsOpening(t[0]) && IsClosing(t[|t| - 1])
    ensures Parse(t) == Bracketed(t)
  {
    TrimKeeps(t);
    assert !IsDigit(t[0]) && !IsOperatorStart(t[0]);
  }

  /** Text that starts with a digit is one exact version. */
  lemma ParseOfDigits(t: string)
    requires t != [] && IsDigit(t[0]) && !IsWhiteSpace(t[|t| - 1])
    ensures Parse(t).Ok? <==> V.Parse(t).Ok?
    ensures Parse(t).Ok? ==> Parse(t).value == Exact(V.Parse(t).value)
  {
    TrimKeeps(t);
    assert IsDigit(Trim(t)[0]);
  }

  /** The bracket form whose interior splits into two pieces: Version.Parse
      reads the lower bound, TryParse the upper one. */
  lemma BracketedOf(t: string, lower: string, upper: string, min: V.Version, max: Option<V.Version>)
    requires |t| >= 2 && IsOpening(t[0]) && IsClosing(t[|t| - 1])
    requires SplitOnce(t[1..|t| - 1], ',') == [lower, upper]
    requires V.Parse(lower) == Ok(min)
    requires V.TryParse(Some(upper)) == Ok(max)
    ensures Bracketed(t) == Ok(VersionRange(min, max, t[0] == '[', t[|t| - 1] == ']'))
  {
  }

  /** The interior of `open lower , upper close` splits at the comma when the
      lower part holds none. */
  lemma InteriorSplits(open: char, lower: string, upper: string, close: char)
    requires ',' !in lower
    ensures var t := [open] + lower + [','] + upper + [close];
      t[0] == open && t[|t| - 1] == close && SplitOnce(t[1..|t| - 1], ',') == [lower, upper]
  {
    var t := [open] + lower + [','] + upper + [close];
    assert t[1..|t| - 1] == lower + [','] + upper;
    SplitOnceJoined(lower, ',', upper);
  }

  /** The bracket form without a comma. */
  lemma BracketedAlone(open: char, lower: string, close: char, min: V.Version)
    requires IsOpening(open) && IsClosing(close) && ',' !in lower
    requires V.Parse(lower) == Ok(min)
    ensures Bracketed([open] + lower + [close]) == Ok(VersionRange(min, None, open == '[', close == ']'))
  {
    var t := [open] + lower + [close];
    assert t[1..|t| - 1] == lower;
  }

  /** A bracket form without a comma has no upper bound even when it closes
      with `]`, so `[v]` does not read as the exact version v. */
  lemma BracketWithoutComma(v: V.Version)
    requires V.NonNegative(v)
    requires v.tag.Some? ==> ',' !in v.tag.value
    ensures Parse("[" + V.ToString(v) + "]") == Ok(VersionRange(v, None, true, true))
  {
    var s := "[" + V.ToString(v) + "]";
    ParseOfBracketed(s);
    V.ToStringChars(v, ',');
    V.ParseToString(v);
    BracketedAlone('[', V.ToString(v), ']', v);
  }

  // ------------------------------------------------------------- round trip

  /** The ranges the printer and the parser agree on: non-negative segments, a
      lower-bound tag that neither holds a comma nor ends in white space, and
      no inclusive flag on a missing upper bound. */
  predicate RoundTrips(r: VersionRange) {
    && V.NonNegative(r.min)
    && (r.min.tag.Some? ==> ',' !in r.min.tag.value)
    && (r.min.tag.Some? && r.min.tag.value != [] ==> !IsWhiteSpace(r.min.tag.value[|r.min.tag.value| - 1]))
    && (r.max.Some? ==> V.NonNegative(r.max.value))
    && (r.max.None? ==> !r.maxInclusive)
  }

  /** Exact and Minimal build ranges that round-trip when the version does. */
  lemma ConstructorsRoundTrip(version: V.Version)
    requires V.NonNegative(version)
    requires version.tag.Some? ==> forall i | 0 <= i < |version.tag.value| :: version.tag.value[i] != ',' && !IsWhiteSpace(version.tag.value[i])
    ensures RoundTrips(Exact(version)) && RoundTrips(Minimal(version))
  {
  }

  /** Parsing the bracketed text of a range. */
  lemma ParseBracketed(r: VersionRange, s: string, upper: string)
    requires RoundTrips(r)
    requires upper == if r.max.Some? then V.ToString(r.max.value) else ""
    requires s == [OpenBracket(r.minInclusive)] + V.ToString(r.min) + [','] + upper + [CloseBracket(r.maxInclusive)]
    ensures Parse(s) == Ok(r)
  {
    ParseOfBracketed(s);
    V.ToStringChars(r.min, ',');
    V.ParseToString(r.min);
    if r.max.Some? {
      V.TryParseToString(r.max.value);
    } else {
      assert V.TryParse(Some(upper)) == Ok(None);
    }
    InteriorSplits(OpenBracket(r.minInclusive), V.ToString(r.min), upper, CloseBracket(r.maxInclusive));
    BracketedOf(s, V.ToString(r.min), upper, r.min, r.max);
  }

  /** Parse undoes ToString on every range that round-trips. */
  lemma ParseToString(r: VersionRange)
    requires RoundTrips(r)
    ensures Parse(ToString(r)) == Ok(r)
  {
    var s := ToString(r);
    if r.max.None? {
      ParseBracketed(r, s, "");
    } else if IsPoint(r) {
      V.ToStringEnds(r.min);
      ParseOfDigits(s);
      V.ParseToString(r.min);
    } else {
      ParseBracketed(r, s, V.ToString(r.max.value));
    }
  }

  // ------------------------------------------------------- other operations

  /** CompareByMinimum: ranges compare by their lower bounds alone. */
  function CompareByMinimum(x: VersionRange, y: VersionRange): (r: int)
    ensures r < 0 <==> V.Precedes(x.min, y.min)
    ensures r == 0 <==> x.min == y.min
  {
    V.CompareToPrecedes(x.min, y.min);
    V.CompareToZero(x.min, y.min);
    V.CompareTo(x.min, y.min)
  }

  /** VersionRange.MinimalToExact: a range without an upper bound becomes the
      point at its minimum; a bounded range is returned as it is. */
  function MinimalToExact(r: VersionRange): (e: VersionRange)
    ensures e.max.Some?
    ensures r.max.None? ==> e == Exact(r.min) && IsPoint(e)
    ensures r.max.Some? ==> e == r
  {
    if r.max.None? then VersionRange(r.min, Some(r.min), true, true) else r
  }

  lemma MinimalToExactIdempotent(r: VersionRange)
    ensures MinimalToExact(MinimalToExact(r)) == MinimalToExact(r)
  {
  }
}
