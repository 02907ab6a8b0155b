/** The abstract behaviour the trie implements: a finite map from argument
    sequences (of any length, the empty one included) to cached results, together
    with the log of invocations of the wrapped function. */
module CacheSpec {
  import opened JsValues

  /** How a call ends: it returns a value or throws one. */
  datatype Completion = Return(value: Value) | Throw(error: Value)

  /** One invocation of the wrapped function, as a spy records it. */
  datatype Invocation = Invocation(receiver: Value, args: seq<Value>)

  /** The wrapped function, seen from outside: what it does when it is invoked
      with a receiver and arguments after `n` earlier invocations. Depending on
      `n` lets it be impure (a counter, a clock) without the model seeing how. */
  type Behaviour = (Value, seq<Value>, nat) -> Completion

  type Cache = map<seq<Value>, Value>

  /** What an observer can know about a memoized function: the cached results
      and every invocation of the wrapped function so far. */
  datatype State = State(cache: Cache, log: seq<Invocation>)

  datatype Reply = Reply(result: Completion, next: State)

  function Front<T>(q: seq<T>): seq<T>
    requires q != []
  {
    q[..|q| - 1]
  }

  function Last<T>(q: seq<T>): T
    requires q != []
  {
    q[|q| - 1]
  }

  predicate IsPrefix(p: seq<Value>, q: seq<Value>)
  {
    |p| <= |q| && q[..|p|] == p
  }

  /** A call of the memoized function: a hit returns the stored result without
      invoking the wrapped function; a miss invokes it once and stores what it
      returns, but nothing when it throws. */
  function Call(s: State, fn: Behaviour, receiver: Value, args: seq<Value>): (r: Reply)
    ensures args in r.next.cache <==> args in s.cache || r.result.Return?
    ensures r.result.Return? ==> r.next.cache[args] == r.result.value
    ensures args in s.cache ==> r.result == Return(s.cache[args]) && r.next.log == s.log
    ensures args !in s.cache ==>
              r.result == fn(receiver, args, |s.log|) && r.next.log == s.log + [Invocation(receiver, args)]
    ensures forall q :: q != args ==>
              (q in r.next.cache <==> q in s.cache) && (q in s.cache ==> r.next.cache[q] == s.cache[q])
  {
    if args in s.cache then
      Reply(Return(s.cache[args]), s)
    else
      var outcome := fn(receiver, args, |s.log|);
      var log := s.log + [Invocation(receiver, args)];
      match outcome
      case Return(v) => Reply(outcome, State(s.cache[args := v], log))
      case Throw(_) => Reply(outcome, State(s.cache, log))
  }

  /** The entries of `m` that survive invalidating `keys`: every sequence that
      starts with `keys` (the sequence itself included) is dropped. */
  function Drop<V>(m: map<seq<Value>, V>, keys: seq<Value>): (r: map<seq<Value>, V>)
    ensures forall q :: q in r ==> q in m && r[q] == m[q]
    ensures forall q :: q in m && IsPrefix(keys, q) ==> q !in r
    ensures forall q :: q in m && !IsPrefix(keys, q) ==> q in r
  {
    map q | q in m && !IsPrefix(keys, q) :: m[q]
  }

  /** The abstract effect of `clear(...keys)`; the wrapped function is not invoked. */
  function Clear(s: State, keys: seq<Value>): (r: State)
    ensures r.log == s.log
    ensures forall q :: q in r.cache <==> q in s.cache && !IsPrefix(keys, q)
    ensures forall q :: q in r.cache ==> r.cache[q] == s.cache[q]
  {
    State(Drop(s.cache, keys), s.log)
  }

  /** `clear()` with no keys forgets every cached result. */
  lemma ClearAllEmpties(s: State)
    ensures Clear(s, []).cache == map[]
  {
    forall q | q in s.cache ensures IsPrefix([], q) { }
  }

  /** A sequence that differs from the cleared keys at some position stays cached
      with its old result. */
  lemma DropKeepsDiverging<V>(m: map<seq<Value>, V>, keys: seq<Value>, q: seq<Value>, i: nat)
    requires q in m && i < |keys| && i < |q| && q[i] != keys[i]
    ensures q in Drop(m, keys) && Drop(m, keys)[q] == m[q]
  {
  }

  /** A sequence shorter than the cleared keys stays cached with its old result. */
  lemma DropKeepsShorter<V>(m: map<seq<Value>, V>, keys: seq<Value>, q: seq<Value>)
    requires q in m && |q| < |keys|
    ensures q in Drop(m, keys) && Drop(m, keys)[q] == m[q]
  {
  }

  /** Clearing the same keys twice is the same as clearing them once. */
  lemma DropIdempotent<V>(m: map<seq<Value>, V>, keys: seq<Value>)
    ensures Drop(Drop(m, keys), keys) == Drop(m, keys)
  {
  }

  /** A set of paths closed under taking the front: the shape of a trie. */
  ghost predicate PrefixClosed(paths: set<seq<Value>>)
  {
    forall q :: q in paths && q != [] ==> Front(q) in paths
  }

  /** In a prefix-closed set, every prefix of a member is a member. */
  lemma {:induction false} PrefixClosedTake(paths: set<seq<Value>>, p: seq<Value>, j: nat)
    requires PrefixClosed(paths) && p in paths && j <= |p|
    ensures p[..j] in paths
    decreases |p| - j
  {
    if j < |p| {
      assert Front(p) in paths;
      PrefixClosedTake(paths, Front(p), j);
      assert Front(p)[..j] == p[..j];
    } else {
      assert p[..j] == p;
    }
  }

  /** When a proper prefix of `keys` is not a trie path, no cached sequence
      extends `keys` (a cached sequence's front is always a trie path), so
      clearing `keys` leaves the cache as it is. */
  lemma DropUnreachable<V>(m: map<seq<Value>, V>, paths: set<seq<Value>>, keys: seq<Value>, j: nat)
    requires PrefixClosed(paths)
    requires forall q :: q in m && q != [] ==> Front(q) in paths
    requires j < |keys| && keys[..j] !in paths
    ensures Drop(m, keys) == m
  {
    forall q | q in m
      ensures !IsPrefix(keys, q)
    {
      if |keys| <= |q| {
        PrefixClosedTake(paths, Front(q), j);
        assert Front(q)[..j] == q[..j] == q[..|keys|][..j];
      }
    }
  }

  lemma TakeStep(s: seq<Value>, i: nat)
    requires i < |s|
    ensures s[..i] + [s[i]] == s[..i + 1]
  {
  }

  lemma FrontLast(q: seq<Value>)
    requires q != []
    ensures Front(q) + [Last(q)] == q
  {
  }

  /** A sequence whose front starts with `keys` starts with `keys` too. */
  lemma PrefixOfFront(keys: seq<Value>, q: seq<Value>)
    requires q != [] && IsPrefix(keys, Front(q))
    ensures IsPrefix(keys, q)
  {
    assert q[..|keys|] == Front(q)[..|keys|];
  }

  /** Clearing `keys` from both the trie paths and the cache keeps the trie
      prefix-closed and every cached sequence hanging off a trie path. */
  lemma DropKeepsShape<V, W>(paths: map<seq<Value>, V>, m: map<seq<Value>, W>, keys: seq<Value>)
    requires PrefixClosed(paths.Keys)
    requires forall q :: q in m && q != [] ==> Front(q) in paths
    ensures PrefixClosed(Drop(paths, keys).Keys)
    ensures forall q :: q in Drop(m, keys) && q != [] ==> Front(q) in Drop(paths, keys)
  {
    forall q | q in Drop(paths, keys) && q != [] ensures Front(q) in Drop(paths, keys) {
      if IsPrefix(keys, Front(q)) {
        PrefixOfFront(keys, q);
      }
    }
    forall q | q in Drop(m, keys) && q != [] ensures Front(q) in Drop(paths, keys) {
      if IsPrefix(keys, Front(q)) {
        PrefixOfFront(keys, q);
      }
    }
  }

  /** A sequence that is not a trie path has no extension that is a trie path
      or a cached sequence. */
  lemma NewPathUnextended<V, W>(paths: map<seq<Value>, V>, m: map<seq<Value>, W>, path: seq<Value>)
    requires PrefixClosed(paths.Keys)
    requires forall q :: q in m && q != [] ==> Front(q) in paths
    requires path !in paths
    ensures forall k :: path + [k] !in paths && path + [k] !in m
  {
    forall k ensures path + [k] !in paths && path + [k] !in m {
      FrontOfAppend(path, k);
    }
  }

  lemma FrontOfAppend(p: seq<Value>, k: Value)
    ensures Front(p + [k]) == p && Last(p + [k]) == k
  {
  }

  lemma AppendDistinct(p: seq<Value>, k: Value, p': seq<Value>, k': Value)
    requires p != p'
    ensures p + [k] != p' + [k']
  {
    FrontOfAppend(p, k);
    FrontOfAppend(p', k');
  }

  /** Extending a sequence that does not start with `keys` by one key gives one
      that does only when the extension is `keys` itself. */
  lemma NotPrefixOfAppend(keys: seq<Value>, p: seq<Value>, k: Value)
    requires !IsPrefix(keys, p) && p + [k] != keys
    ensures !IsPrefix(keys, p + [k])
  {
    assert forall j :: 0 <= j <= |p| ==> (p + [k])[..j] == p[..j];
    assert (p + [k])[..|p| + 1] == p + [k];
  }

  /** How far `clear` walks: starting at depth `i`, the walk goes on while the
      next prefix of `keys` is a trie path and stops one key short of the last. */
  function WalkDepth(paths: set<seq<Value>>, keys: seq<Value>, i: nat): (d: nat)
    requires i < |keys| && keys[..i] in paths
    ensures i <= d < |keys|
    ensures forall j :: i <= j <= d ==> keys[..j] in paths
    ensures d < |keys| - 1 ==> keys[..d + 1] !in paths
    decreases |keys| - i
  {
    if i < |keys| - 1 && keys[..i + 1] in paths then WalkDepth(paths, keys, i + 1) else i
  }

  // ---------------------------------------------------------------------------
  // Traces of calls and clears

  datatype Op = CallOp(receiver: Value, args: seq<Value>) | ClearOp(keys: seq<Value>)

  function Step(s: State, fn: Behaviour, op: Op): State
  {
    match op
    case CallOp(receiver, args) => Call(s, fn, receiver, args).next
    case ClearOp(keys) => Clear(s, keys)
  }

  function Run(s: State, fn: Behaviour, ops: seq<Op>): State
    decreases |ops|
  {
    if ops == [] then s else Run(Step(s, fn, ops[0]), fn, ops[1..])
  }

  /** How many invocations in `log` were made with exactly `args`. */
  function Count(log: seq<Invocation>, args: seq<Value>): nat
  {
    if log == [] then 0
    else Count(Front(log), args) + (if Last(log).args == args then 1 else 0)
  }

  lemma CountAppend(log: seq<Invocation>, x: Invocation, args: seq<Value>)
    ensures Count(log + [x], args) == Count(log, args) + (if x.args == args then 1 else 0)
  {
    assert Front(log + [x]) == log;
  }

  /** `op` would make a later call with `a` miss: it clears a prefix of `a`. */
  predicate Invalidates(op: Op, a: seq<Value>)
  {
    op.ClearOp? && IsPrefix(op.keys, a)
  }

  /** Once `a` is cached, no sequence of calls and clears that does not
      invalidate it changes its result or invokes the wrapped function on it. */
  lemma {:induction false} CachedStaysCached(s: State, fn: Behaviour, ops: seq<Op>, a: seq<Value>)
    requires a in s.cache
    requires forall op :: op in ops ==> !Invalidates(op, a)
    ensures a in Run(s, fn, ops).cache && Run(s, fn, ops).cache[a] == s.cache[a]
    ensures Count(Run(s, fn, ops).log, a) == Count(s.log, a)
    decreases |ops|
  {
    if ops != [] {
      var s' := Step(s, fn, ops[0]);
      assert ops[0] in ops;
      if ops[0].CallOp? && ops[0].args !in s.cache {
        CountAppend(s.log, Invocation(ops[0].receiver, ops[0].args), a);
      }
      assert forall op :: op in ops[1..] ==> op in ops;
      CachedStaysCached(s', fn, ops[1..], a);
    }
  }

  /** At most one invocation per key sequence: while nothing invalidates `a` and
      the wrapped function does not throw on it, the wrapped function runs on `a`
      at most once, and not at all when `a` is already cached. */
  lemma {:induction false} AtMostOnce(s: State, fn: Behaviour, ops: seq<Op>, a: seq<Value>)
    requires forall op :: op in ops ==> !Invalidates(op, a)
    requires forall receiver, n :: fn(receiver, a, n).Return?
    ensures Count(Run(s, fn, ops).log, a) <= Count(s.log, a) + (if a in s.cache then 0 else 1)
    decreases |ops|
  {
    if a in s.cache {
      CachedStaysCached(s, fn, ops, a);
    } else if ops != [] {
      var s' := Step(s, fn, ops[0]);
      assert forall op :: op in ops[1..] ==> op in ops;
      match ops[0]
      case CallOp(receiver, args) =>
        CountAppend(s.log, Invocation(receiver, args), a);
        if args == a {
          assert fn(receiver, a, |s.log|).Return?;
          CachedStaysCached(s', fn, ops[1..], a);
        } else {
          AtMostOnce(s', fn, ops[1..], a);
        }
      case ClearOp(keys) =>
        AtMostOnce(s', fn, ops[1..], a);
    }
  }

  /** Distinct sequences are independent: calls with other sequences and clears
      of keys that are not a prefix of `a` leave `a`'s entry (present or absent,
      and its result) as it was. */
  lemma {:induction false} Untouched(s: State, fn: Behaviour, ops: seq<Op>, a: seq<Value>)
    requires forall op :: op in ops ==> !Invalidates(op, a) && !(op.CallOp? && op.args == a)
    ensures a in Run(s, fn, ops).cache <==> a in s.cache
    ensures a in s.cache ==> Run(s, fn, ops).cache[a] == s.cache[a]
    ensures Count(Run(s, fn, ops).log, a) == Count(s.log, a)
    decreases |ops|
  {
    if ops != [] {
      var s' := Step(s, fn, ops[0]);
      assert ops[0] in ops;
      if ops[0].CallOp? && ops[0].args !in s.cache {
        CountAppend(s.log, Invocation(ops[0].receiver, ops[0].args), a);
      }
      assert forall op :: op in ops[1..] ==> op in ops;
      Untouched(s', fn, ops[1..], a);
    }
  }

  /** Errors are not cached: after a miss on which the wrapped function throws,
      the next identical call invokes it again. */
  lemma ErrorRetried(s: State, fn: Behaviour, receiver: Value, args: seq<Value>)
    requires args !in s.cache && fn(receiver, args, |s.log|).Throw?
    ensures var s' := Call(s, fn, receiver, args).next;
            s'.cache == s.cache && |Call(s', fn, receiver, args).next.log| == |s.log| + 2
  {
  }
}
