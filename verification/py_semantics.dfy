/** The few pieces of Python behaviour the recommender relies on: `None`,
    the exceptions it can raise, and what a prefix slice `s[:k]` returns. */
module PySemantics {

  /** A value or Python's `None`. */
  datatype Option<+T> = None | Some(value: T)

  /** The exceptions the modelled code can raise. */
  datatype Error =
    | IndexError   // numpy row index outside the matrix
    | ValueError   // `range(0, n, 0)`: a zero step

  /** The outcome of a call that can raise. */
  datatype Result<+T> = Ok(value: T) | Err(error: Error)

  function Min(a: int, b: int): int { if a <= b then a else b }

  function Max(a: int, b: int): int { if a <= b then b else a }

  /** Python's `s[:k]`. A non-negative `k` keeps the first `k` elements (all
      of them when `k` is too large); a negative `k` drops the last `-k`. */
  function Prefix<T>(s: seq<T>, k: int): (r: seq<T>)
    ensures k >= 0 ==> |r| == Min(k, |s|)
    ensures k < 0 ==> |r| == Max(0, |s| + k)
    ensures r == s[..|r|]
  {
    if k >= 0 then
      if k <= |s| then s[..k] else s
    else
      if -k <= |s| then s[..|s| + k] else []
  }

  /** Slicing a list no longer than `k` with `[:k]` gives the list back. */
  lemma PrefixOfShort<T>(s: seq<T>, k: int)
    requires 0 <= |s| <= k
    ensures Prefix(s, k) == s
  {
  }
}
