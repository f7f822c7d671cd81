/** The JavaScript values the library passes around, the mutable arrays and
    objects some of its operations change in place, and the few sequence
    notions (subsequence, distinctness) its contracts are stated with. */
module Values {

  /** An argument the caller may leave out (`n` of `first`, the iterator of
      `every` and `some`). */
  datatype Optional<T> = Absent | Present(value: T)

  /** A JavaScript value. Objects are references (`ObjRef`), so that `===` on
      them is identity; numbers are integers. */
  datatype Value =
    | Undefined
    | Null
    | Bool(b: bool)
    | Num(n: int)
    | Str(s: string)
    | ObjRef(id: nat)
    | Arr(elems: seq<Value>)

  /** The JavaScript truth test: `false`, `0`, `""`, `null` and `undefined`
      are falsy, everything else is truthy. */
  predicate Truthy(v: Value) {
    match v
    case Undefined => false
    case Null => false
    case Bool(b) => b
    case Num(n) => n != 0
    case Str(s) => s != ""
    case ObjRef(_) => true
    case Arr(_) => true
  }

  /** `Boolean` used as a function from values to values. */
  function ToBoolean(v: Value): Value {
    Bool(Truthy(v))
  }

  /** `array[i]`: `undefined` outside the array. */
  function At(s: seq<Value>, i: int): Value {
    if 0 <= i < |s| then s[i] else Undefined
  }

  /** The host's failure signal (reading a property of `null`/`undefined`,
      calling a method on `undefined`). */
  datatype Error = TypeError

  datatype Result<T> = Ok(value: T) | Err(error: Error)

  /** The property tables of the objects an `ObjRef` can point to. */
  type Heap = map<nat, map<string, Value>>

  /** `v[key]`: a property of an object; primitives and arrays have no
      own string-keyed properties in this model; `null` and `undefined`
      throw. */
  function Prop(heap: Heap, v: Value, key: string): Result<Value> {
    match v
    case Undefined => Err(TypeError)
    case Null => Err(TypeError)
    case ObjRef(id) => Ok(if id in heap && key in heap[id] then heap[id][key] else Undefined)
    case _ => Ok(Undefined)
  }

  /** `null` or `undefined`. */
  predicate Nullish(v: Value) {
    v == Undefined || v == Null
  }

  /** A JavaScript array that an operation changes in place. */
  class JsArray {
    var elems: seq<Value>

    constructor (elems: seq<Value>)
      ensures this.elems == elems
    {
      this.elems := elems;
    }

    /** `array.splice(k, 1)`: removes the element at `k`, if there is one,
        and returns the removed elements. */
    method SpliceOne(k: nat) returns (removed: seq<Value>)
      modifies this
      ensures k < |old(elems)| ==> removed == [old(elems)[k]] && elems == old(elems)[..k] + old(elems)[k + 1..]
      ensures k >= |old(elems)| ==> removed == [] && elems == old(elems)
    {
      if k < |elems| {
        removed := [elems[k]];
        elems := elems[..k] + elems[k + 1..];
      } else {
        removed := [];
      }
    }
  }

  /** A plain JavaScript object that an operation changes in place. */
  class JsObject {
    var props: map<string, Value>

    constructor (props: map<string, Value>)
      ensures this.props == props
    {
      this.props := props;
    }
  }

  /** `sub` is `s` with some elements left out, the rest in their order. */
  predicate IsSubsequence<T(==)>(sub: seq<T>, s: seq<T>)
    decreases |s|
  {
    || sub == []
    || (s != [] &&
        (|| IsSubsequence(sub, s[..|s| - 1])
         || (sub[|sub| - 1] == s[|s| - 1] && IsSubsequence(sub[..|sub| - 1], s[..|s| - 1]))))
  }

  /** No two elements of `s` are equal (`===`). */
  predicate Distinct<T(==)>(s: seq<T>) {
    forall i, j :: 0 <= i < j < |s| ==> s[i] != s[j]
  }

  /** The multiset of `s` with the element at `k` taken out. */
  lemma RemoveAtMultiset<T>(s: seq<T>, k: nat)
    requires k < |s|
    ensures multiset(s[..k] + s[k + 1..]) == multiset(s) - multiset{s[k]}
  {
    assert s == s[..k] + [s[k]] + s[k + 1..];
  }
}
