/**
 * Sequence operations shared by the database model and the views: the row a
 * `First` query returns, the rows a `Where ... Find` query returns (and the
 * JavaScript `Array.prototype.filter`), and `Array.prototype.slice`.
 */
module Seqs {
  import opened Wrappers

  function Min(a: int, b: int): int { if a <= b then a else b }

  /** Index of the first element satisfying `p`, or None when there is none. */
  function FirstIndex<T>(s: seq<T>, p: T -> bool): (r: Option<nat>)
    ensures r.Some? ==> r.value < |s| && p(s[r.value])
    ensures r.Some? ==> forall j :: 0 <= j < r.value ==> !p(s[j])
    ensures r.None? <==> forall j :: 0 <= j < |s| ==> !p(s[j])
  {
    if |s| == 0 then None
    else if p(s[0]) then Some(0)
    else match FirstIndex(s[1..], p)
      case None => None
      case Some(k) => Some(k + 1)
  }

  /** The elements satisfying `p`, in their original order. */
  function Select<T(!new)>(s: seq<T>, p: T -> bool): (r: seq<T>)
    ensures |r| <= |s|
    ensures forall x :: x in r <==> x in s && p(x)
  {
    if |s| == 0 then []
    else (if p(s[0]) then [s[0]] else []) + Select(s[1..], p)
  }

  /** Selection distributes over concatenation: the relative order of kept elements is preserved. */
  lemma {:induction false} SelectAppend<T(!new)>(a: seq<T>, b: seq<T>, p: T -> bool)
    ensures Select(a + b, p) == Select(a, p) + Select(b, p)
  {
    if |a| == 0 {
      assert a + b == b;
    } else {
      assert (a + b)[1..] == a[1..] + b;
      SelectAppend(a[1..], b, p);
    }
  }

  /** When every element passes, nothing is dropped. */
  lemma {:induction false} SelectKeepsAll<T(!new)>(s: seq<T>, p: T -> bool)
    requires forall i :: 0 <= i < |s| ==> p(s[i])
    ensures Select(s, p) == s
  {
    if |s| > 0 {
      SelectKeepsAll(s[1..], p);
    }
  }

  /** When no element passes, the selection is empty. */
  lemma {:induction false} SelectDropsAll<T(!new)>(s: seq<T>, p: T -> bool)
    requires forall i :: 0 <= i < |s| ==> !p(s[i])
    ensures Select(s, p) == []
  {
    if |s| > 0 {
      SelectDropsAll(s[1..], p);
    }
  }

  /**
   * How `Array.prototype.slice` reads an index: a negative one counts back
   * from the end, and the result is clamped to [0, len].
   */
  function RelativeIndex(k: int, len: nat): (r: nat)
    ensures r <= len
    ensures 0 <= k ==> r == Min(k, len)
    ensures k < 0 ==> r == if len + k < 0 then 0 else len + k
  {
    if k < 0 then (if len + k < 0 then 0 else len + k)
    else if k > len then len
    else k
  }

  /** `s.slice(start, end)`. */
  function Slice<T>(s: seq<T>, start: int, end: int): (r: seq<T>)
    ensures |r| <= |s|
    ensures 0 <= start <= end ==> r == s[Min(start, |s|)..Min(end, |s|)]
    ensures 0 <= end <= start ==> r == []
  {
    var from := RelativeIndex(start, |s|);
    var to := RelativeIndex(end, |s|);
    if from < to then s[from..to] else []
  }

  /** A slice of `n` positions never holds more than `n` elements, whatever the signs of its bounds. */
  lemma SliceWidth<T>(s: seq<T>, start: int, n: nat)
    ensures |Slice(s, start, start + n)| <= n
  {
    var from := RelativeIndex(start, |s|);
    var to := RelativeIndex(start + n, |s|);
    if start < 0 && start + n >= 0 {
      assert from == 0 || from == |s| + start;
      assert to == Min(start + n, |s|);
    }
  }
}
