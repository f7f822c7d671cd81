/** `each`, `indexOf` and `contains`: the traversals that visit every entry
    of an array or object. */
module Iteration {
  import opened Values

  /** The key `for (prop in collection)` hands the iterator: an array index
      or an object's property name. */
  datatype Key = Index(i: nat) | Name(name: string)

  /** A collection as `for...in` sees it: an array, or a plain object whose
      property names are listed in their enumeration order. */
  datatype Collection =
    | ArrayColl(elems: seq<Value>)
    | ObjectColl(order: seq<string>, props: map<string, Value>)
  {
    /** An object's enumeration lists each of its properties exactly once. */
    predicate WellFormed() {
      ObjectColl? ==>
        && Distinct(order)
        && (forall k :: k in order ==> k in props)
        && (forall k :: k in props ==> k in order)
    }

    /** The keys in the order `for...in` visits them. */
    function Keys(): seq<Key> {
      match this
      case ArrayColl(elems) => seq(|elems|, i requires 0 <= i < |elems| => Index(i))
      case ObjectColl(order, _) => seq(|order|, i requires 0 <= i < |order| => Name(order[i]))
    }

    /** `collection[key]`. */
    function Get(key: Key): Value {
      match this
      case ArrayColl(elems) => if key.Index? then At(elems, key.i) else Undefined
      case ObjectColl(_, props) => if key.Name? && key.name in props then props[key.name] else Undefined
    }
  }

  /** A duplicate-free list of names has as many names as the set it lists. */
  lemma {:induction false} DistinctNamesCount(order: seq<string>, names: set<string>)
    requires Distinct(order)
    requires forall k :: k in order <==> k in names
    ensures |names| == |order|
  {
    if order != [] {
      var last := order[|order| - 1];
      var rest := order[..|order| - 1];
      assert forall k :: k in rest <==> k in names - {last} by {
        forall k ensures k in rest <==> k in names - {last} {
          if k in rest {
            var j :| 0 <= j < |rest| && rest[j] == k;
            assert order[j] == k && j < |order| - 1;
          }
          if k in names - {last} {
            assert k in order;
            var j :| 0 <= j < |order| && order[j] == k;
            assert j != |order| - 1;
            assert rest[j] == k;
          }
        }
      }
      DistinctNamesCount(rest, names - {last});
    }
  }

  /** `_.each(collection, iterator)`: the iterator's results, one per entry,
      in enumeration order. */
  method Each(c: Collection, iter: (Value, Key, Collection) -> Value) returns (elements: seq<Value>)
    requires c.WellFormed()
    ensures c.ArrayColl? ==>
              && |elements| == |c.elems|
              && forall i :: 0 <= i < |c.elems| ==> elements[i] == iter(c.elems[i], Index(i), c)
    ensures c.ObjectColl? ==>
              && |elements| == |c.order| == |c.props|
              && forall i :: 0 <= i < |c.order| ==>
                   elements[i] == iter(c.props[c.order[i]], Name(c.order[i]), c)
  {
    var keys := c.Keys();
    elements := [];
    var i := 0;
    while i < |keys|
      invariant 0 <= i <= |keys|
      invariant |elements| == i
      invariant forall j :: 0 <= j < i ==> elements[j] == iter(c.Get(keys[j]), keys[j], c)
    {
      elements := elements + [iter(c.Get(keys[i]), keys[i], c)];
      i := i + 1;
    }
    if c.ObjectColl? {
      DistinctNamesCount(c.order, c.props.Keys);
      forall i | 0 <= i < |c.order|
        ensures c.order[i] in c.props
      {
        assert c.order[i] in c.order;
      }
    }
  }

  /** `_.indexOf(array, target)`: the first index holding `target`, or -1. */
  method IndexOf(a: seq<Value>, target: Value) returns (r: int)
    ensures -1 <= r < |a|
    ensures r == -1 <==> target !in a
    ensures 0 <= r ==> a[r] == target && target !in a[..r]
  {
    var i := 0;
    while i < |a|
      invariant 0 <= i <= |a|
      invariant target !in a[..i]
    {
      if a[i] == target {
        return i;
      }
      assert a[..i + 1] == a[..i] + [a[i]];
      i := i + 1;
    }
    assert a[..i] == a;
    return -1;
  }

  /** `_.contains(collection, target)`: some entry is `===` to `target`. */
  method Contains(c: Collection, target: Value) returns (found: bool)
    requires c.WellFormed()
    ensures c.ArrayColl? ==> (found <==> target in c.elems)
    ensures c.ObjectColl? ==> (found <==> target in c.props.Values)
  {
    var keys := c.Keys();
    var i := 0;
    while i < |keys|
      invariant 0 <= i <= |keys|
      invariant forall j :: 0 <= j < i ==> c.Get(keys[j]) != target
    {
      if c.Get(keys[i]) == target {
        if c.ObjectColl? {
          assert c.order[i] in c.order;
          assert c.props[c.order[i]] == target;
        }
        return true;
      }
      i := i + 1;
    }
    if c.ArrayColl? {
      assert forall j :: 0 <= j < |c.elems| ==> c.Get(keys[j]) == c.elems[j];
    } else {
      forall k | k in c.props
        ensures c.props[k] != target
      {
        var j :| 0 <= j < |c.order| && c.order[j] == k;
        assert c.Get(keys[j]) == c.props[k];
      }
    }
    return false;
  }
}
