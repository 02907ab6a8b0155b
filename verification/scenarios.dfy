/** Concrete runs of the memoizer, each stating what the caller sees and how
    often the wrapped function ran. */
module Scenarios {
  import opened JsValues
  import opened CacheSpec
  import opened Memoize

  /** The wrapped function returns its first argument. */
  function FirstArgument(receiver: Value, args: seq<Value>, n: nat): Completion
  {
    if |args| > 0 then Return(args[0]) else Return(Undefined)
  }

  /** The wrapped function returns a new object on every invocation. */
  function NewObject(receiver: Value, args: seq<Value>, n: nat): Completion
  {
    Return(Object(n))
  }

  /** The wrapped function throws on its first invocation and then returns
      the number of invocations before it. */
  function FailsOnce(receiver: Value, args: seq<Value>, n: nat): Completion
  {
    if n == 0 then Throw(String("boom")) else Return(Number(n))
  }

  /** Identity function on 5: the repeat call is served from the cache, and
      clearing the single key makes the next call recompute. */
  method ClearOneKey() returns (results: seq<Completion>, invocations: nat)
    ensures results == [Return(Number(5)), Return(Number(5)), Return(Number(5))]
    ensures invocations == 2
  {
    var fn := new Callee(FirstArgument);
    var m := new Memoizer(fn);
    var a := m.Call(Undefined, [Number(5)]);
    assert |fn.calls| == 1;
    var b := m.Call(Undefined, [Number(5)]);
    assert |fn.calls| == 1;
    var outcome := m.Clear([Number(5)]);
    assert IsPrefix([Number(5)], [Number(5)]);
    assert [Number(5)] !in m.Cached;
    var c := m.Call(Undefined, [Number(5)]);
    assert |fn.calls| == 2;
    results := [a, b, c];
    invocations := |fn.calls|;
  }

  /** Clearing the prefix ("foo", "bar") drops the result of ("foo", "bar", "baz"). */
  method ClearPrefix() returns (first: Completion, second: Completion, invocations: nat)
    ensures first == Return(Object(0)) && second == Return(Object(1))
    ensures invocations == 2
  {
    var fn := new Callee(NewObject);
    var m := new Memoizer(fn);
    var args := [String("foo"), String("bar"), String("baz")];
    first := m.Call(Undefined, args);
    var outcome := m.Clear([String("foo"), String("bar")]);
    assert IsPrefix([String("foo"), String("bar")], args);
    second := m.Call(Undefined, args);
    invocations := |fn.calls|;
  }

  /** Zero-argument calls share one slot, even when the result is `undefined`,
      and that slot is distinct from the one-argument sequence (undefined). */
  method NoArguments() returns (results: seq<Completion>, invocations: nat)
    ensures results == [Return(Undefined), Return(Undefined), Return(Undefined)]
    ensures invocations == 2
  {
    var fn := new Callee(FirstArgument);
    var m := new Memoizer(fn);
    var a := m.Call(Undefined, []);
    var b := m.Call(Undefined, []);
    assert |fn.calls| == 1;
    var c := m.Call(Undefined, [Undefined]);
    results := [a, b, c];
    invocations := |fn.calls|;
  }

  /** (null, undefined, false) and (null, undefined, 0) are different sequences:
      each runs the wrapped function and gets its own result. */
  method DistinctFalsyKeys() returns (first: Completion, second: Completion, invocations: nat)
    ensures first == Return(Object(0)) && second == Return(Object(1))
    ensures invocations == 2
  {
    var fn := new Callee(NewObject);
    var m := new Memoizer(fn);
    first := m.Call(Undefined, [Null, Undefined, Boolean(false)]);
    assert [Null, Undefined, Number(0)] != [Null, Undefined, Boolean(false)];
    second := m.Call(Undefined, [Null, Undefined, Number(0)]);
    invocations := |fn.calls|;
  }

  /** Two distinct objects are different keys, however alike they look. */
  method DistinctObjects() returns (invocations: nat)
    ensures invocations == 2
  {
    var fn := new Callee(NewObject);
    var m := new Memoizer(fn);
    var a := m.Call(Undefined, [Object(1)]);
    assert [Object(2)] !in m.Cached && fresh(m.Repr);
    var b := m.Call(Undefined, [Object(2)]);
    assert fresh(m.Repr);
    var c := m.Call(Undefined, [Object(1)]);
    invocations := |fn.calls|;
  }

  /** A thrown error is passed on and not cached: the next call runs the
      wrapped function again, and its result is then cached. */
  method ErrorNotCached() returns (results: seq<Completion>, invocations: nat)
    ensures results == [Throw(String("boom")), Return(Number(1)), Return(Number(1))]
    ensures invocations == 2
  {
    var fn := new Callee(FailsOnce);
    var m := new Memoizer(fn);
    var a := m.Call(Undefined, [String("k")]);
    var b := m.Call(Undefined, [String("k")]);
    var c := m.Call(Undefined, [String("k")]);
    results := [a, b, c];
    invocations := |fn.calls|;
  }

  /** Before any call the root has no child table, so `clear` with a missing
      prefix key stops the walk and returns. */
  method ClearBeforeAnyCall() returns (outcome: ClearOutcome)
    ensures outcome == Returned
  {
    var fn := new Callee(FirstArgument);
    var m := new Memoizer(fn);
    outcome := m.Clear([String("z"), String("w")]);
  }

  /** Once a call created the value-keyed child table at the root, `clear` with
      a missing value key there reads a table of `undefined` and throws. */
  method ClearMissingKey() returns (outcome: ClearOutcome)
    ensures outcome == ThrewTypeError
  {
    var fn := new Callee(FirstArgument);
    var m := new Memoizer(fn);
    var a := m.Call(Undefined, [String("a"), String("b")]);
    PrefixesAreProperPrefixes([String("a"), String("b")]);
    assert IsPrefix([String("a")], [String("a"), String("b")]);
    assert !IsPrefix([String("z")], [String("a"), String("b")]);
    assert m.root.View().Mirrors([], m.NodeAt, m.Cached);
    assert [] + [String("a")] == [String("a")];
    assert m.root.View().Child(String("a")).Some?;
    var keys := [String("z"), String("w")];
    assert keys[..0] == [] && keys[..1] == [String("z")];
    assert WalkDepth(m.NodeAt.Keys, keys, 0) == 0;
    assert m.NodeAt[keys[..0]].View().ArgsTable(keys[0]).Some?;
    outcome := m.Clear(keys);
  }

  /** A memoizer after one call with the single argument "a": the trie is its
      root alone, and the root has no value-keyed child table. */
  method AfterOneArgumentCall() returns (m: Memoizer)
    ensures fresh(m) && fresh(m.Repr) && m.Valid()
    ensures m.NodeAt.Keys == {[]} && m.root.View().primitiveArgs.None?
  {
    var fn := new Callee(FirstArgument);
    m := new Memoizer(fn);
    ghost var before := m.Present();
    var a := m.Call(Undefined, [String("a")]);
    assert Prefixes([String("a")]) == {[]} by {
      assert Front([String("a")]) == [];
    }
    assert m.root.View().Created() == CreatedByCall(PresentBefore(before, []), [String("a")], []);
  }

  /** A call with one argument creates only a result table at the root, so
      `clear` with two keys finds no child table for the first and returns. */
  method ClearAfterOneArgumentCall() returns (outcome: ClearOutcome)
    ensures outcome == Returned
  {
    var m := AfterOneArgumentCall();
    var keys := [String("z"), String("w")];
    assert keys[..0] == [] && keys[..1] == [String("z")];
    assert WalkDepth(m.NodeAt.Keys, keys, 0) == 0;
    outcome := m.Clear(keys);
  }

  /** `clear` is idempotent: clearing the same keys again ends the same way
      (the walk meets the same tables, since the prefix nodes survive) and
      changes nothing further. */
  method ClearTwice(m: Memoizer, keys: seq<Value>) returns (first: ClearOutcome, second: ClearOutcome)
    requires m.Valid()
    modifies m, m.Repr
    ensures second == first
    ensures m.Abstract() == CacheSpec.Clear(old(m.Abstract()), keys)
  {
    first := m.Clear(keys);
    second := m.Clear(keys);
    DropIdempotent(old(m.Cached), keys);
  }
}
