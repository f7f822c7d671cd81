/** `uniq`, `intersection` and `difference`: the set-like operations, all
    comparing elements with `===`. `uniq` and `difference` change the array
    they are given. */
module SetAlgebra {
  import opened Values
  import opened Predicates

  // ---------------------------------------------------------------- uniq

  /** The elements of `s` at their first occurrence, in order. */
  function Dedup(s: seq<Value>): seq<Value> {
    if s == [] then []
    else if s[|s| - 1] in s[..|s| - 1] then Dedup(s[..|s| - 1])
    else Dedup(s[..|s| - 1]) + [s[|s| - 1]]
  }

  /** `_.uniq(array)`: removes, in place, every element `===` to an earlier
      one, and returns the same array. */
  method Uniq(a: JsArray) returns (r: JsArray)
    modifies a
    ensures r == a
    ensures a.elems == Dedup(old(a.elems))
  {
    ghost var original := a.elems;
    var i := 0;
    while i < |a.elems|
      invariant 0 <= i <= |a.elems|
      invariant Dedup(a.elems) == Dedup(original)
      invariant Distinct(a.elems[..i])
      invariant forall k :: i <= k < |a.elems| ==> a.elems[k] !in a.elems[..i]
      decreases |a.elems| - i
    {
      var t := i + 1;
      ghost var done, before, length := a.elems[..i], a.elems[..i + 1], |a.elems|;
      assert before[..i] == done;
      while t < |a.elems|
        invariant i + 1 <= t <= |a.elems| <= length
        invariant a.elems[..i + 1] == before
        invariant Dedup(a.elems) == Dedup(original)
        invariant forall k :: i < k < t ==> a.elems[k] != a.elems[i]
        invariant forall k :: i < k < |a.elems| ==> a.elems[k] !in a.elems[..i]
        decreases |a.elems| - t
      {
        if a.elems[t] == a.elems[i] {
          SpliceLaterCopy(a.elems, i, t);
          var _ := a.SpliceOne(t);
          t := t - 1;
        }
        t := t + 1;
      }
      assert a.elems[..i] == before[..i];
      UniqPrefixGrows(a.elems, i);
      i := i + 1;
    }
    assert a.elems[..i] == a.elems;
    DedupOfDistinct(a.elems);
    return a;
  }

  /** Splicing out a later copy of `s[i]` at `t` keeps what the loops of
      `uniq` know about the array. */
  lemma SpliceLaterCopy(s: seq<Value>, i: nat, t: nat)
    requires i < t < |s| && s[t] == s[i]
    requires forall k :: i < k < t ==> s[k] != s[i]
    requires forall k :: i < k < |s| ==> s[k] !in s[..i]
    ensures var s' := s[..t] + s[t + 1..];
      && |s'| == |s| - 1
      && s'[..i + 1] == s[..i + 1]
      && Dedup(s') == Dedup(s)
      && (forall k :: i < k < t ==> s'[k] != s'[i])
      && (forall k :: i < k < |s'| ==> s'[k] !in s'[..i])
  {
    var s' := s[..t] + s[t + 1..];
    DedupRemoveLater(s, i, t);
    assert s'[..i] == s[..i];
    forall k | i < k < |s'|
      ensures s'[k] !in s'[..i]
    {
      if k < t {
        assert s'[k] == s[k];
      } else {
        assert s'[k] == s[k + 1];
      }
    }
  }

  /** After the inner loop of `uniq` for index `i`, the prefix up to `i`
      is free of repeats and no later element repeats it. */
  lemma UniqPrefixGrows(s: seq<Value>, i: nat)
    requires i < |s|
    requires Distinct(s[..i])
    requires forall k :: i < k < |s| ==> s[k] != s[i]
    requires forall k :: i <= k < |s| ==> s[k] !in s[..i]
    ensures Distinct(s[..i + 1])
    ensures forall k :: i + 1 <= k < |s| ==> s[k] !in s[..i + 1]
  {
    assert s[..i + 1] == s[..i] + [s[i]];
  }

  /** Taking out an element that repeats an earlier one leaves `Dedup`
      unchanged. */
  lemma {:induction false} DedupRemoveLater(s: seq<Value>, i: nat, j: nat)
    requires i < j < |s| && s[i] == s[j]
    ensures Dedup(s[..j] + s[j + 1..]) == Dedup(s)
  {
    var t := s[..j] + s[j + 1..];
    var prefix := s[..|s| - 1];
    if j < |s| - 1 {
      var tPrefix := t[..|t| - 1];
      assert tPrefix == prefix[..j] + prefix[j + 1..];
      assert t[|t| - 1] == s[|s| - 1];
      forall x ensures x in tPrefix <==> x in prefix {
        if x in prefix {
          var k :| 0 <= k < |prefix| && prefix[k] == x;
          if k < j { assert tPrefix[k] == x; }
          else if k == j { assert tPrefix[i] == x; }
          else { assert tPrefix[k - 1] == x; }
        }
      }
      DedupRemoveLater(prefix, i, j);
    } else {
      assert t == prefix;
      assert s[|s| - 1] in prefix by { assert prefix[i] == s[j]; }
    }
  }

  /** `Dedup` keeps exactly the elements of its input. */
  lemma {:induction false} DedupMembers(s: seq<Value>, x: Value)
    ensures x in Dedup(s) <==> x in s
  {
    if s != [] {
      DedupMembers(s[..|s| - 1], x);
      assert s == s[..|s| - 1] + [s[|s| - 1]];
    }
  }

  /** No two elements of `Dedup(s)` are `===`. */
  lemma {:induction false} DedupDistinct(s: seq<Value>)
    ensures Distinct(Dedup(s))
  {
    if s != [] {
      DedupDistinct(s[..|s| - 1]);
      DedupMembers(s[..|s| - 1], s[|s| - 1]);
    }
  }

  /** `Dedup` keeps the input's order. */
  lemma {:induction false} DedupKeepsOrder(s: seq<Value>)
    ensures IsSubsequence(Dedup(s), s)
  {
    if s != [] {
      var prefix, x := s[..|s| - 1], s[|s| - 1];
      DedupKeepsOrder(prefix);
      if x !in prefix {
        var d := Dedup(prefix);
        assert (d + [x])[..|d + [x]| - 1] == d;
      }
    }
  }

  /** An array without repeats is its own `Dedup`. */
  lemma {:induction false} DedupOfDistinct(s: seq<Value>)
    requires Distinct(s)
    ensures Dedup(s) == s
  {
    if s != [] {
      var prefix := s[..|s| - 1];
      assert Distinct(prefix);
      DedupOfDistinct(prefix);
      assert s[|s| - 1] !in prefix;
      assert s == prefix + [s[|s| - 1]];
    }
  }

  /** `uniq([1, 2, 2, 3, 1])` is `[1, 2, 3]`. */
  lemma UniqExample()
    ensures Dedup([Num(1), Num(2), Num(2), Num(3), Num(1)]) == [Num(1), Num(2), Num(3)]
  {
    var s := [Num(1), Num(2), Num(2), Num(3), Num(1)];
    assert Dedup(s[..1]) == [Num(1)];
    assert Dedup(s[..2]) == [Num(1), Num(2)] by { assert s[..2][..1] == s[..1]; }
    assert Dedup(s[..3]) == [Num(1), Num(2)] by { assert s[..3][..2] == s[..2]; }
    assert Dedup(s[..4]) == [Num(1), Num(2), Num(3)] by { assert s[..4][..3] == s[..3]; }
    assert s[..5][..4] == s[..4] && s[..5] == s;
  }

  // -------------------------------------------------------- intersection

  /** The test `intersection` applies to each element of the first array:
      `args[1].indexOf(n) != -1`. */
  function InSecond(second: seq<Value>): Value -> Value {
    x => Bool(x in second)
  }

  /** `_.intersection(...arrays)`: the elements of the first array that also
      occur in the second; any further arrays are ignored. Without arrays,
      or with one non-empty array, `args[0]` or `args[1]` is `undefined`
      and the call throws. */
  function Intersection(args: seq<seq<Value>>): (r: Result<seq<Value>>)
    ensures r.Ok? <==> |args| >= 2 || (|args| == 1 && args[0] == [])
    ensures r.Ok? && |args| >= 2 ==>
              && IsSubsequence(r.value, args[0])
              && forall x :: x in r.value <==> x in args[0] && x in args[1]
    ensures r.Ok? && |args| >= 2 ==>
              forall x :: x in args[1] ==> multiset(r.value)[x] == multiset(args[0])[x]
    ensures r.Ok? && |args| == 1 ==> r.value == []
  {
    if |args| == 0 then Err(TypeError)
    else if |args| == 1 then (if args[0] == [] then Ok([]) else Err(TypeError))
    else
      var kept := Filtered(args[0], InSecond(args[1]));
      FilterRejectKeepOrder(args[0], InSecond(args[1]));
      assert forall x :: x in kept <==> x in args[0] && x in args[1] by {
        forall x ensures x in kept <==> x in args[0] && x in args[1] {
          FilteredMembers(args[0], InSecond(args[1]), x);
        }
      }
      assert forall x :: x in args[1] ==> multiset(kept)[x] == multiset(args[0])[x] by {
        forall x | x in args[1] ensures multiset(kept)[x] == multiset(args[0])[x] {
          FilteredCounts(args[0], InSecond(args[1]), x);
        }
      }
      Ok(kept)
  }

  /** Membership in every array from index `from` on. */
  predicate InEvery(x: Value, arrays: seq<seq<Value>>, from: nat) {
    forall k :: from <= k < |arrays| ==> x in arrays[k]
  }

  /** Membership in every array but the first. */
  function InAllOthers(args: seq<seq<Value>>): Value -> Value {
    x => Bool(InEvery(x, args, 1))
  }

  /** What `intersection` is documented to compute: the elements of the
      first array that occur in every array passed. */
  function IntersectionOfAll(args: seq<seq<Value>>): (r: Result<seq<Value>>)
    ensures r.Ok? <==> |args| >= 1
    ensures r.Ok? ==>
              && IsSubsequence(r.value, args[0])
              && forall x :: x in r.value <==> InEvery(x, args, 0)
    ensures r.Ok? ==>
              forall x :: InEvery(x, args, 1) ==> multiset(r.value)[x] == multiset(args[0])[x]
  {
    if |args| == 0 then Err(TypeError)
    else
      var kept := Filtered(args[0], InAllOthers(args));
      FilterRejectKeepOrder(args[0], InAllOthers(args));
      assert forall x :: x in kept <==> InEvery(x, args, 0) by {
        forall x ensures x in kept <==> InEvery(x, args, 0) {
          FilteredMembers(args[0], InAllOthers(args), x);
        }
      }
      assert forall x :: InEvery(x, args, 1) ==> multiset(kept)[x] == multiset(args[0])[x] by {
        forall x | InEvery(x, args, 1)
          ensures multiset(kept)[x] == multiset(args[0])[x]
        {
          FilteredCounts(args[0], InAllOthers(args), x);
        }
      }
      Ok(kept)
  }

  /** With two arrays the code and the documented intent agree. */
  lemma IntersectionOfTwo(first: seq<Value>, second: seq<Value>)
    ensures Intersection([first, second]) == IntersectionOfAll([first, second])
  {
    var args := [first, second];
    forall x ensures Truthy(InSecond(second)(x)) == Truthy(InAllOthers(args)(x)) {
      assert (forall k :: 1 <= k < |args| ==> x in args[k]) <==> x in args[1];
    }
    FilteredCongruence(first, InSecond(second), InAllOthers(args));
  }

  /** `intersection([a, b], [a, b], [b])` keeps `a`, which is not in the
      third array, e.g. `intersection([1, 2], [1, 2], [2])` is `[1, 2]`. */
  lemma IntersectionIgnoresThirdArray(a: Value, b: Value)
    requires a != b
    ensures Intersection([[a, b], [a, b], [b]]) == Ok([a, b])
    ensures IntersectionOfAll([[a, b], [a, b], [b]]) == Ok([b])
  {
    var args := [[a, b], [a, b], [b]];
    assert args[0] == [a] + [b] && [a] == [] + [a];
    assert Filtered(args[0], InSecond(args[1])) == [a, b] by {
      assert a in args[1] && b in args[1] by {
        assert args[1][0] == a && args[1][1] == b;
      }
      FilteredSnoc([], a, InSecond(args[1]));
      FilteredSnoc([a], b, InSecond(args[1]));
    }
    assert Filtered(args[0], InAllOthers(args)) == [b] by {
      assert !Truthy(InAllOthers(args)(a)) by {
        assert a !in args[2];
      }
      assert Truthy(InAllOthers(args)(b)) by {
        assert b in args[1] && b in args[2] by {
          assert args[1][1] == b && args[2][0] == b;
        }
      }
      FilteredSnoc([], a, InAllOthers(args));
      FilteredSnoc([a], b, InAllOthers(args));
    }
  }

  // ---------------------------------------------------------- difference

  /** `x` occurs in one of `others`. */
  predicate InSome(x: Value, others: seq<seq<Value>>) {
    exists g :: 0 <= g < |others| && x in others[g]
  }

  /** The first array after the marking loop of `difference`: every element
      that occurs in another array is overwritten with `false`. */
  function Marked(s: seq<Value>, others: seq<seq<Value>>): (r: seq<Value>)
    ensures |r| == |s|
  {
    seq(|s|, i requires 0 <= i < |s| => if InSome(s[i], others) then Bool(false) else s[i])
  }

  /** `_.difference(array, ...others)`: overwrites with `false` each element
      of `array` found in another array, then returns the truthy elements
      left. */
  method Difference(first: JsArray, others: seq<seq<Value>>) returns (r: seq<Value>)
    modifies first
    ensures first.elems == Marked(old(first.elems), others)
    ensures r == Filtered(first.elems, v => ToBoolean(v))
    ensures r == DifferenceAsWritten(old(first.elems), others)
  {
    ghost var original := first.elems;
    var i := 0;
    while i < |first.elems|
      invariant 0 <= i <= |first.elems| == |original|
      invariant forall j :: 0 <= j < i ==> first.elems[j] == Marked(original, others)[j]
      invariant forall j :: i <= j < |first.elems| ==> first.elems[j] == original[j]
    {
      var g := 0;
      while g < |others|
        invariant 0 <= g <= |others|
        invariant |first.elems| == |original|
        invariant forall j :: 0 <= j < i ==> first.elems[j] == Marked(original, others)[j]
        invariant forall j :: i < j < |first.elems| ==> first.elems[j] == original[j]
        invariant first.elems[i] == if exists h :: 0 <= h < g && original[i] in others[h] then Bool(false) else original[i]
      {
        var t := 0;
        while t < |others[g]|
          invariant 0 <= t <= |others[g]|
          invariant |first.elems| == |original|
          invariant forall j :: 0 <= j < i ==> first.elems[j] == Marked(original, others)[j]
          invariant forall j :: i < j < |first.elems| ==> first.elems[j] == original[j]
          invariant first.elems[i] ==
                      if (exists h :: 0 <= h < g && original[i] in others[h]) || original[i] in others[g][..t]
                      then Bool(false) else original[i]
        {
          assert others[g][..t + 1] == others[g][..t] + [others[g][t]];
          if others[g][t] == first.elems[i] {
            first.elems := first.elems[i := Bool(false)];
          }
          t := t + 1;
        }
        assert others[g][..t] == others[g];
        assert (exists h :: 0 <= h < g + 1 && original[i] in others[h]) <==>
               (exists h :: 0 <= h < g && original[i] in others[h]) || original[i] in others[g];
        g := g + 1;
      }
      i := i + 1;
    }
    assert first.elems == Marked(original, others);
    r := Filtered(first.elems, v => ToBoolean(v));
  }

  /** What `difference` returns: the elements of the first array that are
      truthy and occur in no other array, in order. */
  function DifferenceAsWritten(s: seq<Value>, others: seq<seq<Value>>): (r: seq<Value>)
    ensures IsSubsequence(r, s)
    ensures forall x :: x in r <==> x in s && Truthy(x) && !InSome(x, others)
    ensures forall x :: Truthy(x) && !InSome(x, others) ==> multiset(r)[x] == multiset(s)[x]
  {
    var test := x => Bool(Truthy(x) && !InSome(x, others));
    DifferenceAsWrittenDropsFalsy(s, others);
    FilterRejectKeepOrder(s, test);
    assert forall x :: x in Filtered(s, test) <==> x in s && Truthy(x) && !InSome(x, others) by {
      forall x ensures x in Filtered(s, test) <==> x in s && Truthy(x) && !InSome(x, others) {
        FilteredMembers(s, test, x);
      }
    }
    assert forall x :: Truthy(x) && !InSome(x, others) ==>
              multiset(Filtered(s, test))[x] == multiset(s)[x] by {
      forall x | Truthy(x) && !InSome(x, others)
        ensures multiset(Filtered(s, test))[x] == multiset(s)[x]
      {
        FilteredCounts(s, test, x);
      }
    }
    Filtered(Marked(s, others), v => ToBoolean(v))
  }

  /** The survivors of the marking keep their order and their repeats, but a
      falsy element (`0`, `""`, `null`, `undefined`, `false`) never survives. */
  lemma {:induction false} DifferenceAsWrittenDropsFalsy(s: seq<Value>, others: seq<seq<Value>>)
    ensures Filtered(Marked(s, others), v => ToBoolean(v)) == Filtered(s, x => Bool(Truthy(x) && !InSome(x, others)))
  {
    if s != [] {
      var prefix := s[..|s| - 1];
      DifferenceAsWrittenDropsFalsy(prefix, others);
      assert Marked(s, others)[..|s| - 1] == Marked(prefix, others);
    }
  }

  /** What `difference` is documented to compute: the elements of the first
      array found in no other array, falsy ones included. */
  function DifferenceIntended(s: seq<Value>, others: seq<seq<Value>>): (r: seq<Value>)
    ensures IsSubsequence(r, s)
    ensures forall x :: x in r <==> x in s && !InSome(x, others)
    ensures forall x :: !InSome(x, others) ==> multiset(r)[x] == multiset(s)[x]
  {
    var test := x => Bool(!InSome(x, others));
    var kept := Filtered(s, test);
    FilterRejectKeepOrder(s, test);
    FilterRejectPartition(s, test);
    assert forall x :: x in kept <==> x in s && !InSome(x, others) by {
      forall x ensures x in kept <==> x in s && !InSome(x, others) {
        FilteredMembers(s, test, x);
      }
    }
    assert forall x :: !InSome(x, others) ==> multiset(kept)[x] == multiset(s)[x] by {
      forall x | !InSome(x, others) ensures multiset(kept)[x] == multiset(s)[x] {
        RejectedMembers(s, test, x);
      }
    }
    kept
  }

  /** The survivors of `difference` for an array with one more element at
      the end: that element survives when it is truthy and in no other array. */
  lemma DifferenceAsWrittenSnoc(s: seq<Value>, x: Value, others: seq<seq<Value>>)
    ensures DifferenceAsWritten(s + [x], others)
         == DifferenceAsWritten(s, others) + if Truthy(x) && !InSome(x, others) then [x] else []
  {
    var m := if InSome(x, others) then Bool(false) else x;
    assert Marked(s + [x], others) == Marked(s, others) + [m];
    FilteredSnoc(Marked(s, others), m, v => ToBoolean(v));
  }

  /** The same for the documented intent: the element is kept when it is in
      no other array. */
  lemma DifferenceIntendedSnoc(s: seq<Value>, x: Value, others: seq<seq<Value>>)
    ensures DifferenceIntended(s + [x], others)
         == DifferenceIntended(s, others) + if !InSome(x, others) then [x] else []
  {
    FilteredSnoc(s, x, x => Bool(!InSome(x, others)));
  }

  /** `difference([1, 2, 3, 4], [2, 4])` is `[1, 3]`. */
  lemma DifferenceExample()
    ensures DifferenceAsWritten([Num(1), Num(2), Num(3), Num(4)], [[Num(2), Num(4)]]) == [Num(1), Num(3)]
  {
    var others := [[Num(2), Num(4)]];
    assert InSome(Num(2), others) by { assert others[0][0] == Num(2); }
    assert InSome(Num(4), others) by { assert others[0][1] == Num(4); }
    DifferenceOfFour(Num(1), Num(2), Num(3), Num(4), others);
  }

  /** Four elements of which the first and third survive. */
  lemma DifferenceOfFour(a: Value, b: Value, c: Value, d: Value, others: seq<seq<Value>>)
    requires Truthy(a) && !InSome(a, others) && InSome(b, others)
    requires Truthy(c) && !InSome(c, others) && InSome(d, others)
    ensures DifferenceAsWritten([a, b, c, d], others) == [a, c]
  {
    var test := x => Bool(Truthy(x) && !InSome(x, others));
    DifferenceAsWrittenDropsFalsy([a, b, c, d], others);
    FilteredFirstAndThird(a, b, c, d, test);
  }

  /** A test that passes the first and third of four elements keeps those two. */
  lemma FilteredFirstAndThird(a: Value, b: Value, c: Value, d: Value, test: Value -> Value)
    requires Truthy(test(a)) && !Truthy(test(b)) && Truthy(test(c)) && !Truthy(test(d))
    ensures Filtered([a, b, c, d], test) == [a, c]
  {
    assert Filtered([a], test) == [a] by {
      FilteredSnoc([], a, test);
      assert [] + [a] == [a];
    }
    assert Filtered([a, b], test) == [a] by {
      FilteredSnoc([a], b, test);
      assert [a] + [b] == [a, b];
    }
    assert Filtered([a, b, c], test) == [a, c] by {
      FilteredSnoc([a, b], c, test);
      assert [a, b] + [c] == [a, b, c];
    }
    FilteredSnoc([a, b, c], d, test);
    assert [a, b, c] + [d] == [a, b, c, d];
  }

  /** `difference([0, 1], [1])` drops the 0, which no other array holds. */
  lemma DifferenceDropsZero()
    ensures DifferenceAsWritten([Num(0), Num(1)], [[Num(1)]]) == []
    ensures DifferenceIntended([Num(0), Num(1)], [[Num(1)]]) == [Num(0)]
  {
    var others := [[Num(1)]];
    assert InSome(Num(1), others) by { assert others[0][0] == Num(1); }
    assert !InSome(Num(0), others);
    assert [] + [Num(0)] == [Num(0)] && [Num(0)] + [Num(1)] == [Num(0), Num(1)];
    assert DifferenceAsWritten([], others) == [];
    DifferenceAsWrittenSnoc([], Num(0), others);
    DifferenceAsWrittenSnoc([Num(0)], Num(1), others);
    assert DifferenceIntended([], others) == [];
    DifferenceIntendedSnoc([], Num(0), others);
    DifferenceIntendedSnoc([Num(0)], Num(1), others);
  }
}
