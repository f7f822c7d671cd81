/** `once`: a wrapper that runs a function on its first call only and
    answers every later call with the first call's result. The closure
    variables `ran` and `memo` of the wrapper are the fields of a class. */
module FunctionCombinators {
  import opened Values

  /** The closure state of a wrapper returned by `once`. */
  datatype OnceState = OnceState(ran: bool, memo: Value)

  /** What one call of the wrapper does: the new state, the value returned
      and whether the wrapped function was run. */
  datatype Outcome = Outcome(state: OnceState, result: Value, invoked: bool)

  /** The state of a wrapper nobody has called yet. */
  function Fresh(): OnceState {
    OnceState(false, Undefined)
  }

  /** One call of the wrapper with arguments `args`. */
  function Step(func: seq<Value> -> Value, st: OnceState, args: seq<Value>): (o: Outcome)
    ensures o.state.ran
    ensures o.invoked <==> !st.ran
    ensures o.result == o.state.memo
    ensures st.ran ==> o.state == st
    ensures !st.ran ==> o.state == OnceState(true, func(args))
  {
    if st.ran then Outcome(st, st.memo, false)
    else
      var memo := func(args);
      Outcome(OnceState(true, memo), memo, true)
  }

  /** The values returned by successive calls with the argument lists
      `calls`, starting from state `st`. */
  function Run(func: seq<Value> -> Value, st: OnceState, calls: seq<seq<Value>>): seq<Value>
    decreases |calls|
  {
    if calls == [] then []
    else
      var o := Step(func, st, calls[0]);
      [o.result] + Run(func, o.state, calls[1..])
  }

  /** How many of those calls run the wrapped function. */
  function Invocations(func: seq<Value> -> Value, st: OnceState, calls: seq<seq<Value>>): nat
    decreases |calls|
  {
    if calls == [] then 0
    else
      var o := Step(func, st, calls[0]);
      (if o.invoked then 1 else 0) + Invocations(func, o.state, calls[1..])
  }

  /** Once the wrapper has run, every call returns the remembered value and
      none runs the function. */
  lemma {:induction false} RunAfterFirst(func: seq<Value> -> Value, memo: Value, calls: seq<seq<Value>>)
    ensures |Run(func, OnceState(true, memo), calls)| == |calls|
    ensures forall i :: 0 <= i < |calls| ==> Run(func, OnceState(true, memo), calls)[i] == memo
    ensures Invocations(func, OnceState(true, memo), calls) == 0
  {
    if calls != [] {
      RunAfterFirst(func, memo, calls[1..]);
    }
  }

  /** A fresh wrapper runs the function at most once, on the first call, and
      every call returns the first call's result whatever its arguments. */
  lemma RunOnce(func: seq<Value> -> Value, calls: seq<seq<Value>>)
    ensures |Run(func, Fresh(), calls)| == |calls|
    ensures forall i :: 0 <= i < |calls| ==> Run(func, Fresh(), calls)[i] == func(calls[0])
    ensures Invocations(func, Fresh(), calls) == if calls == [] then 0 else 1
  {
    if calls != [] {
      RunAfterFirst(func, func(calls[0]), calls[1..]);
    }
  }

  /** The wrapper returned by `_.once(func)`. The ghost counter records how
      often `func` has been run. */
  class Once {
    const func: seq<Value> -> Value
    var ran: bool
    var memo: Value
    ghost var invocations: nat

    /** The function has run exactly when the wrapper says it has. */
    ghost predicate Valid()
      reads this
    {
      invocations == if ran then 1 else 0
    }

    /** `_.once(func)`. */
    constructor(func: seq<Value> -> Value)
      ensures this.func == func
      ensures OnceState(ran, memo) == Fresh()
      ensures invocations == 0
      ensures Valid()
    {
      this.func := func;
      ran := false;
      memo := Undefined;
      invocations := 0;
    }

    /** A call of the wrapper with arguments `args`. */
    method Call(args: seq<Value>) returns (result: Value)
      requires Valid()
      modifies this
      ensures Valid()
      ensures invocations <= 1
      ensures Step(func, old(OnceState(ran, memo)), args) ==
                Outcome(OnceState(ran, memo), result, invocations == old(invocations) + 1)
      ensures old(ran) ==> result == old(memo) && ran == old(ran) && memo == old(memo)
      ensures !old(ran) ==> result == func(args)
    {
      if ran {
        return memo;
      }
      ran := true;
      memo := func(args);
      invocations := invocations + 1;
      return memo;
    }
  }
}
