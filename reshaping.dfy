/** `shuffle`, `zip` and `flatten`: the operations that rearrange elements
    into a new array. */
module Reshaping {
  import opened Values

  // ------------------------------------------------------------- shuffle

  /** A run of random index draws for an array of length `n`: the `k`-th draw
      picks one of the `n - k` elements still left, as
      `Math.floor(Math.random() * n)` does. */
  predicate ValidDraws(n: nat, draws: seq<nat>) {
    |draws| == n && forall k :: 0 <= k < n ==> draws[k] < n - k
  }

  /** The draws left after the first one fit the shorter array. */
  lemma ValidDrawsTail(n: nat, draws: seq<nat>)
    requires n > 0 && ValidDraws(n, draws)
    ensures ValidDraws(n - 1, draws[1..])
  {
    forall k | 0 <= k < n - 1 ensures draws[1..][k] < n - 1 - k {
      assert draws[1..][k] == draws[k + 1];
    }
  }

  /** The order `shuffle` produces for a given run of draws: each draw takes
      the element it picks out of those still left. */
  function Shuffled(s: seq<Value>, draws: seq<nat>): seq<Value>
    requires ValidDraws(|s|, draws)
    decreases |s|
  {
    if s == [] then []
    else
      var i := draws[0];
      [s[i]] + Shuffled(s[..i] + s[i + 1..], draws[1..])
  }

  /** `_.shuffle(array)`, with `draws` standing for the results of
      `Math.random`: a new array in the drawn order; the input array is
      emptied on the way. */
  method Shuffle(a: JsArray, draws: seq<nat>) returns (copy: seq<Value>)
    requires ValidDraws(|a.elems|, draws)
    modifies a
    ensures copy == Shuffled(old(a.elems), draws)
    ensures multiset(copy) == multiset(old(a.elems))
    ensures a.elems == []
  {
    ghost var original := a.elems;
    copy := [];
    var n := |a.elems|;
    var step := 0;
    while n != 0
      invariant n == |a.elems| && step == |copy| && step + n == |original|
      invariant ValidDraws(n, draws[step..])
      invariant copy + Shuffled(a.elems, draws[step..]) == Shuffled(original, draws)
      decreases n
    {
      var i := draws[step];
      n := n - 1;
      ghost var left := a.elems;
      assert draws[step..][1..] == draws[step + 1..];
      var removed := a.SpliceOne(i);
      copy := copy + [removed[0]];
      step := step + 1;
      assert ValidDraws(n, draws[step..]) by {
        forall k | 0 <= k < n ensures draws[step..][k] < n - k {
          assert draws[step..][k] == draws[step - 1..][k + 1];
        }
      }
      assert Shuffled(left, draws[step - 1..]) == [left[i]] + Shuffled(a.elems, draws[step..]);
    }
    ShuffledIsPermutation(original, draws);
  }

  /** Whatever the draws, the result is a permutation of the input. */
  lemma {:induction false} ShuffledIsPermutation(s: seq<Value>, draws: seq<nat>)
    requires ValidDraws(|s|, draws)
    ensures multiset(Shuffled(s, draws)) == multiset(s)
    decreases |s|
  {
    if s != [] {
      var i := draws[0];
      var rest := s[..i] + s[i + 1..];
      ValidDrawsTail(|s|, draws);
      ShuffledIsPermutation(rest, draws[1..]);
      RemoveAtMultiset(s, i);
      assert Shuffled(s, draws) == [s[i]] + Shuffled(rest, draws[1..]);
      assert multiset(Shuffled(s, draws)) == multiset{s[i]} + multiset(rest);
    }
  }

  /** Every permutation of the input is produced by some run of draws. */
  lemma {:induction false} ShuffledReachesEveryPermutation(s: seq<Value>, t: seq<Value>)
    requires multiset(t) == multiset(s)
    ensures exists draws :: ValidDraws(|s|, draws) && Shuffled(s, draws) == t
    decreases |s|
  {
    assert |t| == |s| by {
      assert |t| == |multiset(t)| && |s| == |multiset(s)|;
    }
    if s == [] {
      assert ValidDraws(0, []) && Shuffled(s, []) == t;
    } else {
      assert t[0] in s by {
        assert t[0] in multiset(t);
      }
      var i :| 0 <= i < |s| && s[i] == t[0];
      var rest, tail := s[..i] + s[i + 1..], t[1..];
      PermutationTail(s, t, i);
      ShuffledReachesEveryPermutation(rest, tail);
      var more :| ValidDraws(|rest|, more) && Shuffled(rest, more) == tail;
      FirstDraw(s, i, more);
      assert ValidDraws(|s|, [i] + more) && Shuffled(s, [i] + more) == t;
    }
  }

  /** Taking the first element of `t` out of both arrays leaves two
      permutations of each other. */
  lemma PermutationTail(s: seq<Value>, t: seq<Value>, i: nat)
    requires multiset(t) == multiset(s) && i < |s| && t != [] && s[i] == t[0]
    ensures multiset(t[1..]) == multiset(s[..i] + s[i + 1..])
  {
    RemoveAtMultiset(s, i);
    assert t == [t[0]] + t[1..];
  }

  /** Drawing index `i` first, then `more` on what is left. */
  lemma FirstDraw(s: seq<Value>, i: nat, more: seq<nat>)
    requires i < |s| && ValidDraws(|s| - 1, more)
    ensures ValidDraws(|s|, [i] + more)
    ensures Shuffled(s, [i] + more) == [s[i]] + Shuffled(s[..i] + s[i + 1..], more)
  {
    var draws := [i] + more;
    assert draws[1..] == more;
    forall k | 0 <= k < |s| ensures draws[k] < |s| - k {
      if k > 0 { assert draws[k] == more[k - 1]; }
    }
  }

  /** Distinct runs of draws give distinct orders of an array without
      repeats, so each permutation comes from exactly one run: with fair
      draws, every permutation is equally likely. */
  lemma {:induction false} ShuffledIsInjective(s: seq<Value>, draws: seq<nat>, draws': seq<nat>)
    requires Distinct(s)
    requires ValidDraws(|s|, draws) && ValidDraws(|s|, draws')
    requires Shuffled(s, draws) == Shuffled(s, draws')
    ensures draws == draws'
    decreases |s|
  {
    if s != [] {
      var i, i' := draws[0], draws'[0];
      assert s[i] == Shuffled(s, draws)[0] == Shuffled(s, draws')[0] == s[i'];
      assert i == i';
      var rest := s[..i] + s[i + 1..];
      assert Distinct(rest) by {
        forall p, q | 0 <= p < q < |rest| ensures rest[p] != rest[q] {
          var p', q' := if p < i then p else p + 1, if q < i then q else q + 1;
          assert rest[p] == s[p'] && rest[q] == s[q'];
        }
      }
      ValidDrawsTail(|s|, draws);
      ValidDrawsTail(|s|, draws');
      assert Shuffled(s, draws) == [s[i]] + Shuffled(rest, draws[1..]);
      assert Shuffled(s, draws') == [s[i]] + Shuffled(rest, draws'[1..]);
      assert Shuffled(rest, draws[1..]) == Shuffled(s, draws)[1..];
      ShuffledIsInjective(rest, draws[1..], draws'[1..]);
      assert draws == [i] + draws[1..] && draws' == [i'] + draws'[1..];
    }
  }

  // ----------------------------------------------------------------- zip

  /** `_.zip(...arrays)`: one tuple per index up to the longest array's
      length; tuple `j` holds `arrays[k][j]` for every `k`, `undefined` past
      the end of a shorter array. */
  method Zip(arrays: seq<seq<Value>>) returns (outer: seq<seq<Value>>)
    // as many tuples as the longest array has elements
    ensures forall k :: 0 <= k < |arrays| ==> |arrays[k]| <= |outer|
    ensures outer == [] || exists k :: 0 <= k < |arrays| && |arrays[k]| == |outer|
    // one entry per array in every tuple
    ensures forall j :: 0 <= j < |outer| ==> |outer[j]| == |arrays|
    // column k is arrays[k] padded with undefined
    ensures forall j, k :: 0 <= j < |outer| && 0 <= k < |arrays| ==>
              outer[j][k] == if j < |arrays[k]| then arrays[k][j] else Undefined
  {
    var length := 0;
    var i := 0;
    while i < |arrays|
      invariant 0 <= i <= |arrays|
      invariant forall k :: 0 <= k < i ==> |arrays[k]| <= length
      invariant length == 0 || exists k :: 0 <= k < i && |arrays[k]| == length
    {
      if |arrays[i]| > length {
        length := |arrays[i]|;
      }
      i := i + 1;
    }
    outer := [];
    var j := 0;
    while j < length
      invariant 0 <= j <= length
      invariant |outer| == j
      invariant forall j' :: 0 <= j' < j ==> |outer[j']| == |arrays|
      invariant forall j', k :: 0 <= j' < j && 0 <= k < |arrays| ==> outer[j'][k] == At(arrays[k], j')
    {
      var inner := [];
      var k := 0;
      while k < |arrays|
        invariant 0 <= k <= |arrays|
        invariant |inner| == k
        invariant forall k' :: 0 <= k' < k ==> inner[k'] == At(arrays[k'], j)
      {
        inner := inner + [At(arrays[k], j)];
        k := k + 1;
      }
      outer := outer + [inner];
      j := j + 1;
    }
  }

  // ------------------------------------------------------------- flatten

  /** The non-array leaves of `s`, left to right, at any depth. */
  function Leaves(s: seq<Value>): seq<Value>
    decreases s
  {
    if s == [] then []
    else
      var last := s[|s| - 1];
      Leaves(s[..|s| - 1]) + if last.Arr? then Leaves(last.elems) else [last]
  }

  /** The recursive `smash` of `flatten`: appends the leaves of `part` (the `array`
      parameter of the JavaScript `smash`) to the flat array built so far. */
  method Smash(part: seq<Value>, flatArray: seq<Value>) returns (flatArray': seq<Value>)
    ensures flatArray' == flatArray + Leaves(part)
    decreases part
  {
    flatArray' := flatArray;
    var i := 0;
    while i < |part|
      invariant 0 <= i <= |part|
      invariant flatArray' == flatArray + Leaves(part[..i])
    {
      assert part[..i + 1][..i] == part[..i];
      if part[i].Arr? {
        flatArray' := Smash(part[i].elems, flatArray');
      } else {
        flatArray' := flatArray' + [part[i]];
      }
      i := i + 1;
    }
    assert part[..i] == part;
  }

  /** `_.flatten(nestedArray)`: the leaves of the nested array, and no
      arrays, in left-to-right order. */
  method Flatten(nested: seq<Value>) returns (flat: seq<Value>)
    ensures flat == Leaves(nested)
    ensures forall i :: 0 <= i < |flat| ==> !flat[i].Arr?
  {
    flat := Smash(nested, []);
    LeavesAreNotArrays(nested);
  }

  /** No leaf is an array. */
  lemma {:induction false} LeavesAreNotArrays(s: seq<Value>)
    ensures forall i :: 0 <= i < |Leaves(s)| ==> !Leaves(s)[i].Arr?
    decreases s
  {
    if s != [] {
      var last := s[|s| - 1];
      LeavesAreNotArrays(s[..|s| - 1]);
      if last.Arr? {
        LeavesAreNotArrays(last.elems);
      }
    }
  }

  /** Flattening a concatenation flattens each part. */
  lemma {:induction false} LeavesAppend(s: seq<Value>, t: seq<Value>)
    ensures Leaves(s + t) == Leaves(s) + Leaves(t)
    decreases |t|
  {
    if t == [] {
      assert s + t == s;
    } else {
      assert (s + t)[..|s + t| - 1] == s + t[..|t| - 1];
      LeavesAppend(s, t[..|t| - 1]);
    }
  }

  /** An array without nested arrays is already flat, so flattening twice is
      flattening once. */
  lemma {:induction false} LeavesOfFlat(s: seq<Value>)
    requires forall i :: 0 <= i < |s| ==> !s[i].Arr?
    ensures Leaves(s) == s
  {
    if s != [] {
      LeavesOfFlat(s[..|s| - 1]);
    }
  }

  lemma FlattenIsIdempotent(s: seq<Value>)
    ensures Leaves(Leaves(s)) == Leaves(s)
  {
    LeavesAreNotArrays(s);
    LeavesOfFlat(Leaves(s));
  }
}
