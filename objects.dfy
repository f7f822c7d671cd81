/** `extend` and `defaults`: copy the properties of source objects into a
    target object, changing the target in place and returning it. */
module ObjectMerge {
  import opened Values

  /** The target after `extend`: each source in turn is laid over it, so a
      later source overrides an earlier one and the target. */
  function Extended(target: map<string, Value>, sources: seq<map<string, Value>>): map<string, Value> {
    if sources == [] then target
    else Extended(target, sources[..|sources| - 1]) + sources[|sources| - 1]
  }

  /** The target after `defaults`: each source in turn fills in only the
      keys still missing, so the target and earlier sources win. */
  function Defaulted(target: map<string, Value>, sources: seq<map<string, Value>>): map<string, Value> {
    if sources == [] then target
    else sources[|sources| - 1] + Defaulted(target, sources[..|sources| - 1])
  }

  /** The part of `m` on the keys in `keys`. */
  function Restrict(m: map<string, Value>, keys: set<string>): map<string, Value> {
    map k | k in m && k in keys :: m[k]
  }

  /** One assignment `obj[prop] = source[prop]` of `extend`. */
  lemma ExtendStep(start: map<string, Value>, source: map<string, Value>, done: set<string>, prop: string)
    requires prop in source
    ensures (start + Restrict(source, done))[prop := source[prop]] == start + Restrict(source, done + {prop})
  {
  }

  /** One step of `defaults` for a key `prop` not yet visited: assigned when
      missing, skipped when present. */
  lemma DefaultsStep(start: map<string, Value>, source: map<string, Value>, done: set<string>, prop: string)
    requires prop in source && prop !in done
    ensures var m := Restrict(source, done) + start;
      Restrict(source, done + {prop}) + start == if prop in m then m else m[prop := source[prop]]
  {
  }

  /** `_.extend(obj, ...sources)`. */
  method Extend(obj: JsObject, sources: seq<map<string, Value>>) returns (r: JsObject)
    modifies obj
    ensures r == obj
    ensures obj.props == Extended(old(obj.props), sources)
  {
    ghost var target := obj.props;
    var i := 0;
    while i < |sources|
      invariant 0 <= i <= |sources|
      invariant obj.props == Extended(target, sources[..i])
    {
      assert sources[..i + 1][..i] == sources[..i];
      ghost var start := obj.props;
      var source := sources[i];
      var pending := source.Keys;
      while pending != {}
        invariant pending <= source.Keys
        invariant obj.props == start + Restrict(source, source.Keys - pending)
        decreases pending
      {
        var prop :| prop in pending;
        ExtendStep(start, source, source.Keys - pending, prop);
        obj.props := obj.props[prop := source[prop]];
        assert source.Keys - (pending - {prop}) == (source.Keys - pending) + {prop};
        pending := pending - {prop};
      }
      assert Restrict(source, source.Keys) == source;
      i := i + 1;
    }
    assert sources[..i] == sources;
    return obj;
  }

  /** `_.defaults(obj, ...sources)`. */
  method Defaults(obj: JsObject, sources: seq<map<string, Value>>) returns (r: JsObject)
    modifies obj
    ensures r == obj
    ensures obj.props == Defaulted(old(obj.props), sources)
  {
    ghost var target := obj.props;
    var i := 0;
    while i < |sources|
      invariant 0 <= i <= |sources|
      invariant obj.props == Defaulted(target, sources[..i])
    {
      assert sources[..i + 1][..i] == sources[..i];
      ghost var start := obj.props;
      var source := sources[i];
      var pending := source.Keys;
      while pending != {}
        invariant pending <= source.Keys
        invariant obj.props == Restrict(source, source.Keys - pending) + start
        decreases pending
      {
        var prop :| prop in pending;
        DefaultsStep(start, source, source.Keys - pending, prop);
        if prop !in obj.props {
          obj.props := obj.props[prop := source[prop]];
        }
        assert source.Keys - (pending - {prop}) == (source.Keys - pending) + {prop};
        pending := pending - {prop};
      }
      assert Restrict(source, source.Keys) == source;
      i := i + 1;
    }
    assert sources[..i] == sources;
    return obj;
  }

  /** After `extend` or `defaults` the target holds exactly the keys of the
      target and of all sources. */
  lemma {:induction false} MergedKeys(target: map<string, Value>, sources: seq<map<string, Value>>, k: string)
    ensures k in Extended(target, sources) <==> k in target || exists i :: 0 <= i < |sources| && k in sources[i]
    ensures k in Defaulted(target, sources) <==> k in target || exists i :: 0 <= i < |sources| && k in sources[i]
  {
    if sources != [] {
      var prefix := sources[..|sources| - 1];
      MergedKeys(target, prefix, k);
      assert forall i :: 0 <= i < |prefix| ==> prefix[i] == sources[i];
    }
  }

  /** After `extend`, a key has the value of the last source holding it. */
  lemma {:induction false} ExtendedLastSourceWins(target: map<string, Value>, sources: seq<map<string, Value>>, i: nat, k: string)
    requires i < |sources| && k in sources[i]
    requires forall j :: i < j < |sources| ==> k !in sources[j]
    ensures k in Extended(target, sources) && Extended(target, sources)[k] == sources[i][k]
  {
    var last := |sources| - 1;
    if i < last {
      var prefix := sources[..last];
      assert k !in sources[last];
      ExtendedLastSourceWins(target, prefix, i, k);
    }
  }

  /** After `extend`, a key found in no source keeps its value. */
  lemma {:induction false} ExtendedKeepsUntouched(target: map<string, Value>, sources: seq<map<string, Value>>, k: string)
    requires k in target
    requires forall i :: 0 <= i < |sources| ==> k !in sources[i]
    ensures k in Extended(target, sources) && Extended(target, sources)[k] == target[k]
  {
    if sources != [] {
      var prefix := sources[..|sources| - 1];
      assert k !in sources[|sources| - 1];
      ExtendedKeepsUntouched(target, prefix, k);
    }
  }

  /** After `defaults`, a key of the target keeps its value. */
  lemma {:induction false} DefaultedKeepsPresent(target: map<string, Value>, sources: seq<map<string, Value>>, k: string)
    requires k in target
    ensures k in Defaulted(target, sources) && Defaulted(target, sources)[k] == target[k]
  {
    if sources != [] {
      DefaultedKeepsPresent(target, sources[..|sources| - 1], k);
    }
  }

  /** After `defaults`, a key missing from the target takes the value of the
      first source holding it. */
  lemma {:induction false} DefaultedFirstSourceWins(target: map<string, Value>, sources: seq<map<string, Value>>, i: nat, k: string)
    requires i < |sources| && k in sources[i] && k !in target
    requires forall j :: 0 <= j < i ==> k !in sources[j]
    ensures k in Defaulted(target, sources) && Defaulted(target, sources)[k] == sources[i][k]
  {
    var last := |sources| - 1;
    var prefix := sources[..last];
    if i < last {
      DefaultedFirstSourceWins(target, prefix, i, k);
    } else {
      MergedKeys(target, prefix, k);
      assert k !in Defaulted(target, prefix) by {
        forall j | 0 <= j < |prefix|
          ensures k !in prefix[j]
        {
          assert prefix[j] == sources[j];
        }
      }
    }
  }

  /** `defaults` is `extend` with the sources in reverse order and the
      target laid over the result. */
  lemma {:induction false} DefaultsIsReversedExtend(target: map<string, Value>, sources: seq<map<string, Value>>)
    ensures Defaulted(target, sources) == Extended(map[], Reversed(sources)) + target
  {
    if sources != [] {
      var prefix := sources[..|sources| - 1];
      var last := sources[|sources| - 1];
      var rest := Extended(map[], Reversed(prefix));
      calc {
        Defaulted(target, sources);
        last + Defaulted(target, prefix);
        { DefaultsIsReversedExtend(target, prefix); }
        last + (rest + target);
        (last + rest) + target;
        { ExtendedPrepend(last, Reversed(prefix)); }
        Extended(map[], [last] + Reversed(prefix)) + target;
      }
    }
  }

  /** The sources in reverse order. */
  function Reversed(s: seq<map<string, Value>>): seq<map<string, Value>> {
    if s == [] then [] else [s[|s| - 1]] + Reversed(s[..|s| - 1])
  }

  /** Extending the empty object with a first source, then the rest. */
  lemma {:induction false} ExtendedPrepend(first: map<string, Value>, rest: seq<map<string, Value>>)
    ensures Extended(map[], [first] + rest) == first + Extended(map[], rest)
    decreases |rest|
  {
    if rest != [] {
      var s := [first] + rest;
      assert s[..|s| - 1] == [first] + rest[..|rest| - 1];
      ExtendedPrepend(first, rest[..|rest| - 1]);
    } else {
      assert [first] + rest == [first];
      assert [first][..0] == [];
    }
  }
}
