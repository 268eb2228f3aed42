// Shared vocabulary: optional values, replies from remote calls, and the
// Python list-slicing rule the source relies on.

module Base {

  datatype Option<T> = None | Some(value: T)
  {
    /** `x or default`: the value when present, the default otherwise. */
    function GetOr(default: T): T
    {
      if Some? then value else default
    }
  }

  /**
   * What a remote call gave back: a reply, nothing (the request timed out
   * or the connection failed, which the transport reports as `None`), or an
   * exception that reached the caller.
   */
  datatype Rpc<T> = Reply(body: T) | NoReply | Raised

  /** Number of elements Python's `s[:k]` keeps, for any integer `k`. */
  function TakeCount(len: nat, k: int): (c: nat)
    ensures c <= len
    ensures 0 <= k <= len ==> c == k
    ensures k > len ==> c == len
    ensures k < 0 ==> c == (if len + k > 0 then len + k else 0)
  {
    if k >= 0 then (if k <= len then k else len)
    else if len + k > 0 then len + k else 0
  }

  /**
   * Python's `s[:k]`: the first `k` elements, all of them when `k` is past
   * the end, and for a negative `k` everything but the last `-k`.
   */
  function Take<T>(s: seq<T>, k: int): (r: seq<T>)
    ensures |r| == TakeCount(|s|, k)
    ensures r == s[..|r|]
    ensures forall x :: x in r ==> x in s
  {
    s[..TakeCount(|s|, k)]
  }

  /** Python's `s[1:]`, which is empty for an empty list. */
  function Tail<T>(s: seq<T>): (r: seq<T>)
    ensures |s| > 0 ==> r == s[1..]
    ensures |s| == 0 ==> r == []
  {
    if |s| > 0 then s[1..] else []
  }

  function Pow2(n: nat): (r: nat)
    ensures r >= 1
  {
    if n == 0 then 1 else 2 * Pow2(n - 1)
  }

  /** Python's `max(a, b)`. */
  function Max(a: int, b: int): (r: int)
    ensures r >= a && r >= b && (r == a || r == b)
  {
    if a >= b then a else b
  }

  function Min(a: int, b: int): (r: int)
    ensures r <= a && r <= b && (r == a || r == b)
  {
    if a <= b then a else b
  }

  /** `v % L` for a `v` that has wrapped past `L` at most once. */
  lemma ModOnce(v: int, len: int)
    requires 0 < len && 0 <= v < 2 * len
    ensures v % len == if v < len then v else v - len
  {
    if v < len {
      assert v == 0 * len + v;
    } else {
      assert v == 1 * len + (v - len);
    }
  }
}
