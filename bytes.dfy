/** Bytes and the JavaScript slicing that the codec leans on. */
module Bytes {

  /** An element of a Uint8Array. */
  type byte = x: int | 0 <= x < 256

  /** Resolves a relative index the way Array.prototype.slice and
      TypedArray.prototype.slice do: a negative index counts from the end,
      and the result is clamped to 0..len. */
  function ResolveIndex(i: int, len: nat): (k: nat)
    ensures k <= len
    ensures 0 <= i <= len ==> k == i
    ensures i < 0 <= len + i ==> k == len + i
    ensures len + i < 0 ==> k == 0
    ensures len < i ==> k == len
  {
    if i < 0 then (if len + i < 0 then 0 else len + i)
    else if i > len then len
    else i
  }

  /** `s.slice(start, end)`: the elements from the resolved start up to the
      resolved end, or nothing when the end does not lie past the start.
      `s.slice(start)` is `Slice(s, start, |s|)`. */
  function Slice<T>(s: seq<T>, start: int, end: int): (r: seq<T>)
    ensures var b, e := ResolveIndex(start, |s|), ResolveIndex(end, |s|);
      |r| == (if b < e then e - b else 0) &&
      forall k :: 0 <= k < |r| ==> r[k] == s[b + k]
  {
    var b, e := ResolveIndex(start, |s|), ResolveIndex(end, |s|);
    if b < e then s[b..e] else []
  }

  /** The suffix of `s` that `s.slice(-n)` returns, for 0 < n: the last n
      elements, or all of `s` when it is shorter than that. */
  lemma SliceLast<T>(s: seq<T>, n: nat)
    requires 0 < n
    ensures Slice(s, -(n as int), |s|) == if n <= |s| then s[|s| - n..] else s
  {
    var r := Slice(s, -(n as int), |s|);
    if n <= |s| {
      assert r == s[|s| - n..];
    } else if |s| > 0 {
      assert r == s;
    }
  }

  function Last<T>(s: seq<T>): T
    requires |s| > 0
  {
    s[|s| - 1]
  }
}
