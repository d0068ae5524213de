/** The two helpers of Extensions.cs. */
module Extensions {
  import opened Wrappers
  import opened Text

  /** Enumerable.Take(n): at most the first n elements. */
  function Take<T>(s: seq<T>, n: nat): (r: seq<T>)
    ensures |r| <= n && |r| <= |s|
    ensures r == s[..|r|]
    ensures |s| >= n ==> |r| == n
  {
    if |s| <= n then s else s[..n]
  }

  /** Extensions.HasSingle: `Take(2).Count() == 1`. */
  function HasSingle<T>(source: seq<T>): (r: bool)
    ensures r <==> |source| == 1
  {
    |Take(source, 2)| == 1
  }

  /** HasSingle looks at no more than the first two elements. */
  lemma HasSingleLooksAtTwo<T>(s: seq<T>, rest: seq<T>)
    requires |s| >= 2
    ensures HasSingle(s + rest) == HasSingle(s) == false
    ensures Take(s + rest, 2) == Take(s, 2)
  {
  }

  /** Extensions.GetAtOrDefault: the element at `index` when `index` is below
      the count, otherwise the default (`None`); a negative index reaches the
      list indexer, which throws. */
  function GetAtOrDefault<T>(list: seq<T>, index: int32): (r: Result<Option<T>>)
    ensures 0 <= index < |list| ==> r == Ok(Some(list[index]))
    ensures index >= |list| ==> r == Ok(None)
    ensures index < 0 ==> r == Err(ArgumentOutOfRange)
  {
    if |list| > index then
      if index < 0 then Err(ArgumentOutOfRange) else Ok(Some(list[index]))
    else Ok(None)
  }
}
