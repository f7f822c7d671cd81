/** `map`, `pluck` and `reduce`: the operations that compute new values from
    the elements of an array. */
module Transforms {
  import opened Values
  import opened Predicates

  /** `_.map(array, iterator)`: a fresh array of the iterator's results,
      position by position. */
  method Map(a: seq<Value>, iter: Value -> Value) returns (elements: seq<Value>)
    ensures |elements| == |a|
    ensures forall i :: 0 <= i < |a| ==> elements[i] == iter(a[i])
  {
    elements := [];
    var i := 0;
    while i < |a|
      invariant 0 <= i <= |a|
      invariant |elements| == i
      invariant forall j :: 0 <= j < i ==> elements[j] == iter(a[j])
    {
      elements := elements + [iter(a[i])];
      i := i + 1;
    }
  }

  /** What `pluck` collects from the elements of `s`: each truthy value of
      property `key`, in order; it fails at the first `null` or `undefined`
      element. */
  function Plucked(heap: Heap, s: seq<Value>, key: string): Result<seq<Value>> {
    if s == [] then Ok([])
    else
      match Plucked(heap, s[..|s| - 1], key)
      case Err(e) => Err(e)
      case Ok(values) =>
        match Prop(heap, s[|s| - 1], key)
        case Err(e) => Err(e)
        case Ok(v) => Ok(values + if Truthy(v) then [v] else [])
  }

  /** `_.pluck(array, propertyName)`. */
  method Pluck(heap: Heap, a: seq<Value>, key: string) returns (r: Result<seq<Value>>)
    ensures r == Plucked(heap, a, key)
    ensures r.Err? <==> exists i :: 0 <= i < |a| && Nullish(a[i])
  {
    var elements := [];
    var i := 0;
    while i < |a|
      invariant 0 <= i <= |a|
      invariant Plucked(heap, a[..i], key) == Ok(elements)
      invariant forall j :: 0 <= j < i ==> !Nullish(a[j])
    {
      assert a[..i + 1][..i] == a[..i];
      assert a[..i + 1][i] == a[i];
      var v := Prop(heap, a[i], key);
      if v.Err? {
        PluckedFailsAtNullish(heap, a, key);
        return Err(v.error);
      }
      assert Plucked(heap, a[..i + 1], key) == Ok(elements + if Truthy(v.value) then [v.value] else []);
      if Truthy(v.value) {
        elements := elements + [v.value];
      } else {
        assert elements + [] == elements;
      }
      i := i + 1;
    }
    assert a[..i] == a;
    return Ok(elements);
  }

  /** A pluck fails exactly when some element is `null` or `undefined`. */
  lemma {:induction false} PluckedFailsAtNullish(heap: Heap, s: seq<Value>, key: string)
    ensures Plucked(heap, s, key).Err? <==> exists i :: 0 <= i < |s| && Nullish(s[i])
  {
    if s != [] {
      var prefix := s[..|s| - 1];
      PluckedFailsAtNullish(heap, prefix, key);
      if exists i :: 0 <= i < |prefix| && Nullish(prefix[i]) {
        var i :| 0 <= i < |prefix| && Nullish(prefix[i]);
        assert Nullish(s[i]);
      }
      if exists i :: 0 <= i < |s| && Nullish(s[i]) {
        var i :| 0 <= i < |s| && Nullish(s[i]);
        if i < |prefix| {
          assert Nullish(prefix[i]);
        }
      }
    }
  }

  /** Property `key` of every element of `s`, `undefined` where it is missing. */
  function PropValues(heap: Heap, s: seq<Value>, key: string): seq<Value> {
    seq(|s|, i requires 0 <= i < |s| =>
      match Prop(heap, s[i], key)
      case Ok(v) => v
      case Err(_) => Undefined)
  }

  /** A pluck that does not fail is the array of property values with the
      falsy ones filtered out: it skips missing keys instead of collecting
      `undefined`. */
  lemma {:induction false} PluckedIsTruthyPropValues(heap: Heap, s: seq<Value>, key: string)
    requires forall i :: 0 <= i < |s| ==> !Nullish(s[i])
    ensures Plucked(heap, s, key) == Ok(Filtered(PropValues(heap, s, key), v => v))
  {
    if s != [] {
      var prefix := s[..|s| - 1];
      PluckedIsTruthyPropValues(heap, prefix, key);
      assert PropValues(heap, s, key)[..|s| - 1] == PropValues(heap, prefix, key);
    }
  }

  /** The left fold `iter(... iter(iter(seed, s[0]), s[1]) ..., s[n-1])`. */
  function FoldLeft(iter: (Value, Value) -> Value, seed: Value, s: seq<Value>): Value {
    if s == [] then seed
    else iter(FoldLeft(iter, seed, s[..|s| - 1]), s[|s| - 1])
  }

  /** The starting accumulator of `reduce`: the initial value when it is
      truthy, 0 otherwise (also when it is absent, i.e. `undefined`). */
  function Seed(initialValue: Value): Value {
    if Truthy(initialValue) then initialValue else Num(0)
  }

  /** `_.reduce(collection, iterator, initialValue)`; pass `Undefined` for an
      absent initial value. */
  method Reduce(a: seq<Value>, iter: (Value, Value) -> Value, initialValue: Value) returns (value: Value)
    ensures value == FoldLeft(iter, Seed(initialValue), a)
    ensures a == [] ==> value == Seed(initialValue)
  {
    value := Num(0);
    if Truthy(initialValue) {
      value := initialValue;
    }
    var i := 0;
    while i < |a|
      invariant 0 <= i <= |a|
      invariant value == FoldLeft(iter, Seed(initialValue), a[..i])
    {
      assert a[..i + 1][..i] == a[..i];
      value := iter(value, a[i]);
      i := i + 1;
    }
    assert a[..i] == a;
  }

  /** Folding a concatenation folds the second part from the result of the
      first. */
  lemma {:induction false} FoldLeftAppend(iter: (Value, Value) -> Value, seed: Value, s: seq<Value>, t: seq<Value>)
    ensures FoldLeft(iter, seed, s + t) == FoldLeft(iter, FoldLeft(iter, seed, s), t)
    decreases |t|
  {
    if t == [] {
      assert s + t == s;
    } else {
      assert (s + t)[..|s + t| - 1] == s + t[..|t| - 1];
      FoldLeftAppend(iter, seed, s, t[..|t| - 1]);
    }
  }

  /** The fold read from the front: the first element is combined first. */
  lemma FoldLeftFromFront(iter: (Value, Value) -> Value, seed: Value, s: seq<Value>)
    requires s != []
    ensures FoldLeft(iter, seed, s) == FoldLeft(iter, iter(seed, s[0]), s[1..])
  {
    assert s == [s[0]] + s[1..];
    FoldLeftAppend(iter, seed, [s[0]], s[1..]);
  }

  /** Every falsy initial value, the absent one included, seeds the fold with
      0, so `reduce(a, f)` is `reduce(a, f, 0)`. */
  lemma FalsySeedIsZero(a: seq<Value>, iter: (Value, Value) -> Value, initialValue: Value)
    requires !Truthy(initialValue)
    ensures FoldLeft(iter, Seed(initialValue), a) == FoldLeft(iter, Seed(Undefined), a)
    ensures FoldLeft(iter, Seed(initialValue), a) == FoldLeft(iter, Num(0), a)
  {
  }

  /** Addition of numbers, `undefined` otherwise. */
  function Add(x: Value, y: Value): Value {
    if x.Num? && y.Num? then Num(x.n + y.n) else Undefined
  }

  /** `reduce([1, 2, 3], (a, b) => a + b)` is 6 without an initial value. */
  lemma SumWithoutInitialValue()
    ensures FoldLeft(Add, Seed(Undefined), [Num(1), Num(2), Num(3)]) == Num(6)
  {
    var s := [Num(1), Num(2), Num(3)];
    assert s[..2] == [Num(1), Num(2)];
    assert [Num(1), Num(2)][..1] == [Num(1)];
    assert [Num(1)][..0] == [];
    assert FoldLeft(Add, Num(0), [Num(1)]) == Num(1);
    assert FoldLeft(Add, Num(0), [Num(1), Num(2)]) == Num(3);
  }
}
