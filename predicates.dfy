/** `filter`, `reject`, `every` and `some`: the operations that run a truth
    test over the elements of an array. A test is a JavaScript function, so
    it returns a value, which is then judged by truthiness. */
module Predicates {
  import opened Values

  /** The elements of `s` whose test result is truthy, in order. */
  function Filtered(s: seq<Value>, test: Value -> Value): seq<Value> {
    if s == [] then []
    else Filtered(s[..|s| - 1], test) + (if Truthy(test(s[|s| - 1])) then [s[|s| - 1]] else [])
  }

  /** The elements of `s` whose test result is falsy, in order. */
  function Rejected(s: seq<Value>, test: Value -> Value): seq<Value> {
    if s == [] then []
    else Rejected(s[..|s| - 1], test) + (if Truthy(test(s[|s| - 1])) then [] else [s[|s| - 1]])
  }

  /** `_.filter(collection, iterator)`. */
  method Filter(a: seq<Value>, test: Value -> Value) returns (elements: seq<Value>)
    ensures elements == Filtered(a, test)
  {
    elements := [];
    var i := 0;
    while i < |a|
      invariant 0 <= i <= |a|
      invariant elements == Filtered(a[..i], test)
    {
      assert a[..i + 1][..i] == a[..i];
      if Truthy(test(a[i])) {
        elements := elements + [a[i]];
      }
      i := i + 1;
    }
    assert a[..i] == a;
  }

  /** `_.reject(collection, iterator)`. */
  method Reject(a: seq<Value>, test: Value -> Value) returns (elements: seq<Value>)
    ensures elements == Rejected(a, test)
  {
    elements := [];
    var i := 0;
    while i < |a|
      invariant 0 <= i <= |a|
      invariant elements == Rejected(a[..i], test)
    {
      assert a[..i + 1][..i] == a[..i];
      if !Truthy(test(a[i])) {
        elements := elements + [a[i]];
      }
      i := i + 1;
    }
    assert a[..i] == a;
  }

  /** An element is kept by `filter` exactly when it is in the input and
      passes the test. */
  lemma {:induction false} FilteredMembers(s: seq<Value>, test: Value -> Value, x: Value)
    ensures x in Filtered(s, test) <==> x in s && Truthy(test(x))
  {
    if s != [] {
      FilteredMembers(s[..|s| - 1], test, x);
      assert s == s[..|s| - 1] + [s[|s| - 1]];
    }
  }

  /** An element is kept by `reject` exactly when it is in the input and
      fails the test. */
  lemma {:induction false} RejectedMembers(s: seq<Value>, test: Value -> Value, x: Value)
    ensures x in Rejected(s, test) <==> x in s && !Truthy(test(x))
  {
    if s != [] {
      RejectedMembers(s[..|s| - 1], test, x);
      assert s == s[..|s| - 1] + [s[|s| - 1]];
    }
  }

  /** `filter` and `reject` split the input: every element goes to exactly
      one of them, and together they hold the input's elements with their
      multiplicities. */
  lemma {:induction false} FilterRejectPartition(s: seq<Value>, test: Value -> Value)
    ensures multiset(Filtered(s, test)) + multiset(Rejected(s, test)) == multiset(s)
    ensures multiset(Filtered(s, test)) !! multiset(Rejected(s, test))
  {
    if s != [] {
      FilterRejectPartition(s[..|s| - 1], test);
      assert s == s[..|s| - 1] + [s[|s| - 1]];
    }
    FilterRejectDisjoint(s, test);
  }

  /** `filter` keeps each passing value as often as it occurs and drops
      every copy of a failing one. */
  lemma FilteredCounts(s: seq<Value>, test: Value -> Value, x: Value)
    ensures Truthy(test(x)) ==> multiset(Filtered(s, test))[x] == multiset(s)[x]
    ensures !Truthy(test(x)) ==> multiset(Filtered(s, test))[x] == 0
  {
    FilterRejectPartition(s, test);
    RejectedMembers(s, test, x);
    FilteredMembers(s, test, x);
  }

  /** No element is both kept and dropped. */
  lemma FilterRejectDisjoint(s: seq<Value>, test: Value -> Value)
    ensures multiset(Filtered(s, test)) !! multiset(Rejected(s, test))
  {
    forall x | x in multiset(Filtered(s, test))
      ensures x !in multiset(Rejected(s, test))
    {
      FilteredMembers(s, test, x);
      RejectedMembers(s, test, x);
    }
  }

  /** Both outputs keep the input's order. */
  lemma {:induction false} FilterRejectKeepOrder(s: seq<Value>, test: Value -> Value)
    ensures IsSubsequence(Filtered(s, test), s)
    ensures IsSubsequence(Rejected(s, test), s)
  {
    if s != [] {
      var prefix, x := s[..|s| - 1], s[|s| - 1];
      FilterRejectKeepOrder(prefix, test);
      var f, r := Filtered(prefix, test), Rejected(prefix, test);
      assert s[..|s| - 1] == prefix && s[|s| - 1] == x;
      if Truthy(test(x)) {
        assert Filtered(s, test) == f + [x];
        assert (f + [x])[..|f + [x]| - 1] == f;
        assert IsSubsequence(f + [x], s);
        assert Rejected(s, test) == r + [] == r;
        assert IsSubsequence(r, s);
      } else {
        assert Rejected(s, test) == r + [x];
        assert (r + [x])[..|r + [x]| - 1] == r;
        assert IsSubsequence(r + [x], s);
        assert Filtered(s, test) == f + [] == f;
        assert IsSubsequence(f, s);
      }
    }
  }

  /** `reject` is `filter` with the negated test. */
  lemma {:induction false} RejectIsFilterOfNegation(s: seq<Value>, test: Value -> Value)
    ensures Rejected(s, test) == Filtered(s, x => Bool(!Truthy(test(x))))
  {
    if s != [] {
      RejectIsFilterOfNegation(s[..|s| - 1], test);
    }
  }

  /** Filtering a concatenation filters each part. */
  lemma {:induction false} FilteredAppend(s: seq<Value>, t: seq<Value>, test: Value -> Value)
    ensures Filtered(s + t, test) == Filtered(s, test) + Filtered(t, test)
    decreases |t|
  {
    if t == [] {
      assert s + t == s;
    } else {
      assert (s + t)[..|s + t| - 1] == s + t[..|t| - 1];
      FilteredAppend(s, t[..|t| - 1], test);
    }
  }

  /** Filtering an array with one more element at the end. */
  lemma FilteredSnoc(s: seq<Value>, x: Value, test: Value -> Value)
    ensures Filtered(s + [x], test) == Filtered(s, test) + if Truthy(test(x)) then [x] else []
  {
    assert (s + [x])[..|s|] == s;
  }

  /** Two tests that agree on every element filter alike. */
  lemma {:induction false} FilteredCongruence(s: seq<Value>, test: Value -> Value, test': Value -> Value)
    requires forall i :: 0 <= i < |s| ==> Truthy(test(s[i])) == Truthy(test'(s[i]))
    ensures Filtered(s, test) == Filtered(s, test')
  {
    if s != [] {
      FilteredCongruence(s[..|s| - 1], test, test');
    }
  }

  /** `filter` is empty exactly when no element passes. */
  lemma {:induction false} FilteredEmpty(s: seq<Value>, test: Value -> Value)
    ensures Filtered(s, test) == [] <==> forall i :: 0 <= i < |s| ==> !Truthy(test(s[i]))
  {
    if s != [] {
      FilteredEmpty(s[..|s| - 1], test);
      assert forall i :: 0 <= i < |s| - 1 ==> s[..|s| - 1][i] == s[i];
    }
  }

  /** The test `some` uses: the iterator, or `Boolean` when there is none. */
  function SomeTest(iter: Optional<Value -> Value>): Value -> Value {
    if iter.Present? then iter.value else ToBoolean
  }

  /** `_.every(collection, iterator)`: with no iterator always true, otherwise
      whether every element passes. */
  method Every(a: seq<Value>, iter: Optional<Value -> Value>) returns (r: bool)
    ensures r <==> iter.Absent? || forall i :: 0 <= i < |a| ==> Truthy(iter.value(a[i]))
    ensures iter.Present? ==> (r <==> Rejected(a, iter.value) == [])
  {
    if iter.Absent? {
      return true;
    }
    var i := 0;
    while i < |a|
      invariant 0 <= i <= |a|
      invariant forall j :: 0 <= j < i ==> Truthy(iter.value(a[j]))
    {
      if !Truthy(iter.value(a[i])) {
        RejectIsFilterOfNegation(a, iter.value);
        FilteredEmpty(a, x => Bool(!Truthy(iter.value(x))));
        return false;
      }
      i := i + 1;
    }
    RejectIsFilterOfNegation(a, iter.value);
    FilteredEmpty(a, x => Bool(!Truthy(iter.value(x))));
    return true;
  }

  /** `_.some(collection, iterator)`: whether some element passes the
      iterator, or is truthy when there is no iterator. */
  method Some(a: seq<Value>, iter: Optional<Value -> Value>) returns (r: bool)
    ensures r <==> exists i :: 0 <= i < |a| && Truthy(SomeTest(iter)(a[i]))
    ensures iter.Absent? ==> (r <==> exists i :: 0 <= i < |a| && Truthy(a[i]))
    ensures r <==> Filtered(a, SomeTest(iter)) != []
  {
    var test := SomeTest(iter);
    var i := 0;
    while i < |a|
      invariant 0 <= i <= |a|
      invariant forall j :: 0 <= j < i ==> !Truthy(test(a[j]))
    {
      if Truthy(test(a[i])) {
        FilteredEmpty(a, test);
        return true;
      }
      i := i + 1;
    }
    FilteredEmpty(a, test);
    return false;
  }
}
