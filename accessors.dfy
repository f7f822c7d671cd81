/** `first` and `last`: the element at either end of an array, or a prefix or
    suffix of it when a count is given. The count is tested by truthiness,
    so a count of 0 behaves as if none were given. */
module Accessors {
  import opened Values

  /** `Boolean(n)` for the optional count: given and non-zero. */
  predicate CountGiven(n: Optional<int>) {
    n.Present? && n.value != 0
  }

  /** Where `Array.prototype.slice` starts or stops for position `i` in an
      array of length `len`: negative positions count from the end, and the
      result is clamped to the array. */
  function SliceIndex(i: int, len: nat): (r: nat)
    ensures r <= len
    ensures 0 <= i <= len ==> r == i
    ensures i < 0 && len + i >= 0 ==> r == len + i
    ensures i > len ==> r == len
    ensures len + i < 0 ==> r == 0
  {
    if i < 0 then (if len + i < 0 then 0 else len + i)
    else if i < len then i
    else len
  }

  /** `array.slice(begin, end)`: a fresh array holding the positions from
      `begin` up to, not including, `end`. */
  function Slice(a: seq<Value>, begin: int, end: int): (r: seq<Value>)
    ensures SliceIndex(begin, |a|) <= SliceIndex(end, |a|) ==>
              r == a[SliceIndex(begin, |a|)..SliceIndex(end, |a|)]
    ensures SliceIndex(begin, |a|) > SliceIndex(end, |a|) ==> r == []
  {
    var b, e := SliceIndex(begin, |a|), SliceIndex(end, |a|);
    if b < e then a[b..e] else []
  }

  /** `_.first(array, n)`. */
  function First(a: seq<Value>, n: Optional<int>): (r: Value)
    // without a (truthy) count: the single element at index 0
    ensures !CountGiven(n) ==> r == At(a, 0)
    // with one: an array that is a prefix of the input ...
    ensures CountGiven(n) ==> r.Arr? && |r.elems| <= |a| && r.elems == a[..|r.elems|]
    // ... of n elements, or the whole input when it is shorter ...
    ensures CountGiven(n) && n.value > 0 ==> |r.elems| == if n.value < |a| then n.value else |a|
    // ... and, for a negative n, everything but the last -n elements
    ensures CountGiven(n) && n.value < 0 ==> |r.elems| == if |a| + n.value > 0 then |a| + n.value else 0
  {
    if !CountGiven(n) then At(a, 0)
    else if n.value >= |a| then Arr(a)
    else Arr(Slice(a, 0, n.value))
  }

  /** `_.last(array, n)`. */
  function Last(a: seq<Value>, n: Optional<int>): (r: Value)
    // without a (truthy) count: the single element at index length-1
    ensures !CountGiven(n) ==> r == At(a, |a| - 1)
    // with one: an array that is a suffix of the input ...
    ensures CountGiven(n) ==> r.Arr? && |r.elems| <= |a| && r.elems == a[|a| - |r.elems|..]
    // ... of n elements, or the whole input when it is shorter ...
    ensures CountGiven(n) && n.value > 0 ==> |r.elems| == if n.value < |a| then n.value else |a|
    // ... and, for a negative n, everything but the first -n elements
    ensures CountGiven(n) && n.value < 0 ==> |r.elems| == if |a| + n.value > 0 then |a| + n.value else 0
  {
    if !CountGiven(n) then At(a, |a| - 1)
    else if n.value >= |a| then Arr(a)
    else Arr(Slice(a, -n.value, |a|))
  }

  /** Without a count, `first` is the only element of `first(array, 1)`. */
  lemma FirstIsHeadOfFirstOne(a: seq<Value>)
    requires a != []
    ensures First(a, Present(1)).Arr? && |First(a, Present(1)).elems| == 1
    ensures First(a, Absent) == First(a, Present(1)).elems[0]
  {
    assert First(a, Present(1)).elems == a[..1];
  }

  /** The array reversed. */
  function Reverse(s: seq<Value>): seq<Value> {
    seq(|s|, i requires 0 <= i < |s| => s[|s| - 1 - i])
  }

  /** `last` is `first` of the reversed array, read back to front. */
  lemma LastIsMirroredFirst(a: seq<Value>, n: Optional<int>)
    ensures !CountGiven(n) ==> Last(a, n) == First(Reverse(a), n)
    ensures CountGiven(n) ==> Last(a, n).elems == Reverse(First(Reverse(a), n).elems)
  {
    if CountGiven(n) {
      var l, f := Last(a, n).elems, First(Reverse(a), n).elems;
      assert |l| == |f|;
      SuffixIsReversedPrefix(a, |l|);
    }
  }

  /** The last `k` elements are the first `k` of the reversed array, read
      back to front. */
  lemma SuffixIsReversedPrefix(a: seq<Value>, k: nat)
    requires k <= |a|
    ensures a[|a| - k..] == Reverse(Reverse(a)[..k])
  {
    var l, f := a[|a| - k..], Reverse(a)[..k];
    forall i | 0 <= i < k
      ensures l[i] == Reverse(f)[i]
    {
      assert Reverse(f)[i] == f[k - 1 - i] == Reverse(a)[k - 1 - i];
    }
  }

  /** What `first` evidently means to do: a count of 0 asks for no elements. */
  function FirstIntended(a: seq<Value>, n: Optional<int>): (r: Value)
    ensures n.Absent? ==> r == At(a, 0)
    ensures n.Present? ==> r.Arr? && |r.elems| <= |a| && r.elems == a[..|r.elems|]
    ensures n.Present? && n.value >= 0 ==> |r.elems| == if n.value < |a| then n.value else |a|
  {
    if n.Absent? then At(a, 0) else Arr(Slice(a, 0, n.value))
  }

  /** What `last` evidently means to do: a count of 0 asks for no elements. */
  function LastIntended(a: seq<Value>, n: Optional<int>): (r: Value)
    ensures n.Absent? ==> r == At(a, |a| - 1)
    ensures n.Present? ==> r.Arr? && |r.elems| <= |a| && r.elems == a[|a| - |r.elems|..]
    ensures n.Present? && n.value >= 0 ==> |r.elems| == if n.value < |a| then n.value else |a|
  {
    if n.Absent? then At(a, |a| - 1)
    else if n.value == 0 then Arr([])
    else Arr(Slice(a, -n.value, |a|))
  }

  /** The intended versions agree with the code for every non-zero count. */
  lemma IntendedAgreeOnNonZeroCounts(a: seq<Value>, n: Optional<int>)
    requires n != Present(0)
    ensures First(a, n) == FirstIntended(a, n)
    ensures Last(a, n) == LastIntended(a, n)
  {
  }

  /** `first([1], 0)` and `last([1], 0)` return the element 1 instead of an
      empty array. */
  lemma ZeroCountReturnsAnElement()
    ensures First([Num(1)], Present(0)) == Num(1)
    ensures FirstIntended([Num(1)], Present(0)) == Arr([])
    ensures Last([Num(1)], Present(0)) == Num(1)
    ensures LastIntended([Num(1)], Present(0)) == Arr([])
  {
  }
}
