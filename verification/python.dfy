/** Python semantics the rest of the model relies on: optional values
    (`None`), raised exceptions as a failure value, and the way Python
    resolves a (possibly negative) index or slice bound against a
    sequence of length `n`. */
module Python {

  /** A Python value that may be `None`. */
  datatype Option<+T> = None | Some(value: T) {
    function GetOr(default: T): T {
      match this
      case Some(v) => v
      case None => default
    }
  }

  /** The exception classes the modelled code can raise. */
  datatype PyError = ValueError | IndexError | KeyError | AttributeError | ZeroDivisionError

  /** A call that either returns a value or raises. */
  datatype Result<+T> = Success(value: T) | Failure(error: PyError)

  function Max0(i: int): nat {
    if i < 0 then 0 else i
  }

  /** Resolves the subscript `s[i]` on a sequence of length `n`:
      negative subscripts count from the end, anything outside
      `[-n, n)` raises `IndexError` (modelled as `None`). */
  function Index(i: int, n: nat): (r: Option<nat>)
    ensures r.Some? <==> -(n as int) <= i < n
    ensures r.Some? ==> r.value < n && (r.value - i) % n == 0
  {
    if 0 <= i < n then Some(i)
    else if -(n as int) <= i < 0 then Some(i + n)
    else None
  }

  /** Resolves one bound of the slice `s[a:b]` on a sequence of length
      `n`: a negative bound counts from the end and the result is then
      clamped into `[0, n]`; a slice bound never raises. */
  function Bound(i: int, n: nat): (r: nat)
    ensures r <= n
    ensures 0 <= i <= n ==> r == i
    ensures -(n as int) <= i < 0 ==> r == n + i
    ensures i < -(n as int) ==> r == 0
    ensures n < i ==> r == n
  {
    if i < 0 then Max0(i + n)
    else if i > n then n
    else i
  }

  /** `s[a:b]`, where a missing `b` (`None`) means "to the end". A slice
      whose resolved start lies past its resolved stop is empty. */
  function Slice<T>(s: seq<T>, a: int, b: Option<int>): (r: seq<T>)
    ensures |r| <= |s|
  {
    var lo := Bound(a, |s|);
    var hi := match b
      case None => |s|
      case Some(e) => Bound(e, |s|);
    if lo <= hi then s[lo..hi] else []
  }

  /** `s[a:]`. */
  function SliceFrom<T>(s: seq<T>, a: int): (r: seq<T>)
    ensures 0 <= a <= |s| ==> r == s[a..]
    ensures a > |s| ==> r == []
  {
    Slice(s, a, None)
  }
}
