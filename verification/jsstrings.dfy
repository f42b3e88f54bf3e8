/** The JavaScript string operations the formatter uses, on `seq<char>`. */
module JsStrings {

  function Min(a: int, b: int): int {
    if a <= b then a else b
  }

  /** `s.slice(0, end)` for a non-negative `end`: the first `end` characters,
      or all of `s` when it is shorter. */
  function SliceTo(s: string, end: nat): (r: string)
    ensures |r| == Min(end, |s|)
    ensures r <= s
  {
    if |s| <= end then s else s[..end]
  }
}
