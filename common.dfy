/** Small shared vocabulary: optional values, results, and Python's list slicing. */
module Common {

  datatype Option<+T> = None | Some(value: T)

  datatype Result<+T, +E> = Ok(value: T) | Err(error: E)

  /** The Python exceptions the solver can raise: `random.randint` on an empty
      range and `random.sample` of more items than the population (both
      ValueError), and indexing an empty list (IndexError). */
  datatype Raised = EmptyRange | SampleLargerThanPopulation | IndexOutOfRange

  /** The clamped index Python uses for the bound of a slice `s[:k]` or `s[k:]`:
      a negative bound counts from the end, and every bound is clipped to `0..|s|`. */
  function SliceBound<T>(s: seq<T>, k: int): (b: nat)
    ensures b <= |s|
    ensures 0 <= k <= |s| ==> b == k
    ensures k > |s| ==> b == |s|
    ensures k < 0 ==> b == if |s| + k < 0 then 0 else |s| + k
  {
    if k >= 0 then (if k <= |s| then k else |s|)
    else if |s| + k < 0 then 0 else |s| + k
  }

  /** Python's `s[:k]`. */
  function Prefix<T>(s: seq<T>, k: int): seq<T> {
    s[..SliceBound(s, k)]
  }

  /** Python's `s[k:]`. */
  function Suffix<T>(s: seq<T>, k: int): seq<T> {
    s[SliceBound(s, k)..]
  }

  /** Python's slices of one list at one bound: `s[:k] + s[k:] == s` for every
      `k`; a non-negative bound keeps `min(k, len(s))` items, and a negative one
      keeps all but the last `-k` items (none when `-k >= len(s)`). */
  lemma SliceProperties<T>(s: seq<T>, k: int)
    ensures Prefix(s, k) + Suffix(s, k) == s
    ensures k >= 0 ==> |Prefix(s, k)| == (if k <= |s| then k else |s|)
    ensures k < 0 ==> |Suffix(s, k)| == (if -k <= |s| then -k else |s|)
    ensures Prefix(s, k) == s[..|Prefix(s, k)|] && Suffix(s, k) == s[|Prefix(s, k)|..]
  {
  }
}
