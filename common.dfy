/** Failure-compatible wrappers and the JavaScript array operations the
    application relies on (`map`, `filter`, `find`, `indexOf`, `Math.max`). */
module Common {

  datatype Option<+T> = None | Some(value: T)

  datatype Result<+T, +E> = Ok(value: T) | Err(error: E)

  /** `Array.prototype.map`: apply `f` to every element, keeping length and order. */
  function MapSeq<T, U>(s: seq<T>, f: T -> U): (r: seq<U>)
    ensures |r| == |s|
    ensures forall i :: 0 <= i < |s| ==> r[i] == f(s[i])
  {
    if s == [] then [] else [f(s[0])] + MapSeq(s[1..], f)
  }

  /** `Array.prototype.filter`: the elements satisfying `keep`, in their original order. */
  function FilterSeq<T>(s: seq<T>, keep: T -> bool): (r: seq<T>)
    ensures |r| <= |s|
    ensures forall x :: x in r ==> x in s && keep(x)
    ensures forall x :: x in s && keep(x) ==> x in r
    ensures forall x :: x in s ==> multiset(r)[x] == if keep(x) then multiset(s)[x] else 0
  {
    if s == [] then []
    else
      var rest := FilterSeq(s[1..], keep);
      assert s == [s[0]] + s[1..];
      if keep(s[0]) then [s[0]] + rest else rest
  }

  /** `r` picks elements of `s` in order: its k-th element sits at index
      `idx[k]` of `s`, and those indices increase. */
  ghost predicate SubsequenceAt<T>(r: seq<T>, s: seq<T>, idx: seq<int>)
  {
    |idx| == |r| &&
    (forall k :: 0 <= k < |r| ==> 0 <= idx[k] < |s| && r[k] == s[idx[k]]) &&
    (forall k, l :: 0 <= k < l < |r| ==> idx[k] < idx[l])
  }

  /** `r` is `s` with some elements left out, the others in their order. */
  ghost predicate IsSubsequence<T>(r: seq<T>, s: seq<T>)
  {
    exists idx :: SubsequenceAt(r, s, idx)
  }

  /** A filter keeps the survivors in their original order. */
  lemma {:induction false} FilterIsSubsequence<T>(s: seq<T>, keep: T -> bool)
    ensures IsSubsequence(FilterSeq(s, keep), s)
  {
    if s == [] {
      assert SubsequenceAt(FilterSeq(s, keep), s, []);
    } else {
      var rest := FilterSeq(s[1..], keep);
      FilterIsSubsequence(s[1..], keep);
      var idx0 :| SubsequenceAt(rest, s[1..], idx0);
      var idx := SubsequenceOfTail(rest, s, idx0, keep(s[0]));
      if keep(s[0]) {
        assert FilterSeq(s, keep) == [s[0]] + rest;
      } else {
        assert FilterSeq(s, keep) == rest;
      }
    }
  }

  /** A subsequence of the tail of `s`, with or without `s`'s head in front,
      is a subsequence of `s`. */
  lemma SubsequenceOfTail<T>(rest: seq<T>, s: seq<T>, idx0: seq<int>, withHead: bool) returns (idx: seq<int>)
    requires |s| > 0 && SubsequenceAt(rest, s[1..], idx0)
    ensures SubsequenceAt(if withHead then [s[0]] + rest else rest, s, idx)
  {
    var shifted := seq(|idx0|, k requires 0 <= k < |idx0| => idx0[k] + 1);
    assert forall k :: 0 <= k < |rest| ==> rest[k] == s[shifted[k]];
    idx := if withHead then [0] + shifted else shifted;
  }

  /** Filtering distributes over concatenation: the survivors keep their relative order. */
  lemma {:induction false} FilterAppend<T>(a: seq<T>, b: seq<T>, keep: T -> bool)
    ensures FilterSeq(a + b, keep) == FilterSeq(a, keep) + FilterSeq(b, keep)
  {
    if a == [] {
      assert a + b == b;
    } else {
      assert (a + b)[1..] == a[1..] + b;
      FilterAppend(a[1..], b, keep);
    }
  }

  /** A filter that keeps every element returns the list itself. */
  lemma {:induction false} FilterKeepsAll<T>(s: seq<T>, keep: T -> bool)
    requires forall i :: 0 <= i < |s| ==> keep(s[i])
    ensures FilterSeq(s, keep) == s
  {
    if s != [] {
      FilterKeepsAll(s[1..], keep);
      assert s == [s[0]] + s[1..];
    }
  }

  /** A filter that keeps no element returns the empty list. */
  lemma {:induction false} FilterDropsAll<T>(s: seq<T>, keep: T -> bool)
    requires forall i :: 0 <= i < |s| ==> !keep(s[i])
    ensures FilterSeq(s, keep) == []
  {
    if s != [] {
      FilterDropsAll(s[1..], keep);
    }
  }

  /** `map` with a callback that may throw: every result, or the first error. */
  function MapResult<T, U, E>(xs: seq<T>, f: T -> Result<U, E>): (r: Result<seq<U>, E>)
    ensures r.Ok? <==> forall k :: 0 <= k < |xs| ==> f(xs[k]).Ok?
    ensures r.Ok? ==> |r.value| == |xs| && forall k :: 0 <= k < |xs| ==> f(xs[k]) == Ok(r.value[k])
    ensures r.Err? ==> exists k :: 0 <= k < |xs| && f(xs[k]) == Err(r.error) &&
                                   forall j :: 0 <= j < k ==> f(xs[j]).Ok?
  {
    if xs == [] then Ok([])
    else
      match f(xs[0])
      case Err(e) => Err(e)
      case Ok(y) =>
        var rest := MapResult(xs[1..], f);
        assert forall k :: 1 <= k < |xs| ==> xs[k] == xs[1..][k - 1];
        if rest.Err? then
          ghost var k :| 0 <= k < |xs[1..]| && f(xs[1..][k]) == Err(rest.error) &&
                         forall j :: 0 <= j < k ==> f(xs[1..][j]).Ok?;
          assert f(xs[k + 1]) == Err(rest.error);
          assert forall j :: 0 <= j < k + 1 ==> f(xs[j]).Ok?;
          Err(rest.error)
        else
          Ok([y] + rest.value)
  }

  /** The element at the first position satisfying `p` is what `find` gives. */
  lemma FindFirstAt<T>(s: seq<T>, p: T -> bool, i: int)
    requires 0 <= i < |s| && p(s[i]) && forall j :: 0 <= j < i ==> !p(s[j])
    ensures FindFirst(s, p) == Some(s[i])
  {
    assert s[i] in s;
    var r := FindFirst(s, p);
    var k :| 0 <= k < |s| && s[k] == r.value && p(s[k]) && forall j :: 0 <= j < k ==> !p(s[j]);
    assert k == i;
  }

  /** `Array.prototype.find`: the first element satisfying `p`, if any. */
  function FindFirst<T>(s: seq<T>, p: T -> bool): (r: Option<T>)
    ensures r.None? <==> forall x :: x in s ==> !p(x)
    ensures r.Some? ==> exists i :: 0 <= i < |s| && s[i] == r.value && p(s[i]) &&
                          forall j :: 0 <= j < i ==> !p(s[j])
  {
    if s == [] then None
    else if p(s[0]) then Some(s[0])
    else
      var r := FindFirst(s[1..], p);
      assert forall x :: x in s[1..] ==> x in s;
      assert forall x :: x in s ==> x == s[0] || x in s[1..];
      if r.Some? then
        ghost var i :| 0 <= i < |s[1..]| && s[1..][i] == r.value && p(s[1..][i]) &&
                        forall j :: 0 <= j < i ==> !p(s[1..][j]);
        assert s[i + 1] == r.value && forall j :: 0 <= j < i + 1 ==> !p(s[j]);
        r
      else r
  }

  /** `Array.prototype.indexOf`: the first position of `x`, or -1 when it is absent. */
  function IndexOf<T(==)>(s: seq<T>, x: T): (r: int)
    ensures r == -1 <==> x !in s
    ensures r != -1 ==> 0 <= r < |s| && s[r] == x && x !in s[..r]
  {
    if s == [] then -1
    else if s[0] == x then 0
    else
      var k := IndexOf(s[1..], x);
      assert s[1..] == s[1..];
      if k == -1 then -1
      else
        assert s[..k + 1] == [s[0]] + s[1..][..k];
        k + 1
  }

  /** `Math.max(0, ...xs)`: never below zero, never below any element, and attained. */
  function MaxWithZero(xs: seq<int>): (m: int)
    ensures m >= 0
    ensures forall x :: x in xs ==> x <= m
    ensures m == 0 || m in xs
  {
    if xs == [] then 0
    else
      var rest := MaxWithZero(xs[1..]);
      assert forall x :: x in xs ==> x == xs[0] || x in xs[1..];
      if xs[0] > rest then xs[0] else rest
  }

  /** `Math.max(...xs)` for a non-empty list: the largest element. */
  function MaxOf(xs: seq<int>): (m: int)
    requires |xs| > 0
    ensures m in xs
    ensures forall x :: x in xs ==> x <= m
  {
    if |xs| == 1 then xs[0]
    else
      var rest := MaxOf(xs[1..]);
      assert forall x :: x in xs ==> x == xs[0] || x in xs[1..];
      if xs[0] > rest then xs[0] else rest
  }
}
