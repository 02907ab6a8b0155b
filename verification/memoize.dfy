/** The memoizer of lib/memoize.js. Its closure state (`root`, `noargsCalled`,
    `noargsResult`) becomes the fields of a `Memoizer` object; the trie nodes are
    heap objects whose four tables are created lazily and updated in place.

    Each table (a JavaScript `Map` or `WeakMap`) belongs to exactly one node field
    and is never shared, so it is held here as a map value in that field, and
    `set`/`delete` on it become reassignments of the field. */
module Memoize {
  import opened JsValues
  import opened CacheSpec

  /** A table that may not have been created yet (`null` in the source). */
  datatype Option<T> = None | Some(value: T)

  /** How `clear` ends: it returns, or it throws the `TypeError` of a property
      access on `undefined`. */
  datatype ClearOutcome = Returned | ThrewTypeError

  /** The wrapped function `fn`, observed the way a spy observes it: every
      invocation is recorded in `calls`, and what it does is given by
      `behaviour`, which may depend on how often it ran before. */
  class Callee {
    const behaviour: Behaviour
    var calls: seq<Invocation>

    constructor (behaviour: Behaviour)
      ensures this.behaviour == behaviour && calls == []
    {
      this.behaviour := behaviour;
      calls := [];
    }

    method Invoke(receiver: Value, args: seq<Value>) returns (c: Completion)
      modifies this
      ensures calls == old(calls) + [Invocation(receiver, args)]
      ensures c == behaviour(receiver, args, |old(calls)|)
    {
      c := behaviour(receiver, args, |calls|);
      calls := calls + [Invocation(receiver, args)];
    }
  }

  /** `m.get(x)` with the missing key made explicit. */
  function Get<K, V>(m: map<K, V>, x: K): Option<V>
  {
    if x in m then Some(m[x]) else None
  }

  /** The four tables of a trie node, as a value: value-keyed and identity-keyed
      tables of child nodes (consulted for every argument but the last) and of
      results (consulted for the last argument). `None` is a table not created yet. */
  datatype Tables = Tables(
    primitiveArgs: Option<map<Value, Node>>,
    referenceArgs: Option<map<Value, Node>>,
    primitiveResults: Option<map<Value, Value>>,
    referenceResults: Option<map<Value, Value>>)
  {
    /** The child table that the key `k` is routed to. */
    function ArgsTable(k: Value): Option<map<Value, Node>>
    {
      if IsPrimitive(k) then primitiveArgs else referenceArgs
    }

    /** The result table that the key `k` is routed to. */
    function ResultsTable(k: Value): Option<map<Value, Value>>
    {
      if IsPrimitive(k) then primitiveResults else referenceResults
    }

    /** The child reached by `k`, if its table exists and holds `k`. */
    function Child(k: Value): Option<Node>
    {
      if ArgsTable(k).Some? then Get(ArgsTable(k).value, k) else None
    }

    /** The result stored under `k`, if its table exists and holds `k`. */
    function Stored(k: Value): Option<Value>
    {
      if ResultsTable(k).Some? then Get(ResultsTable(k).value, k) else None
    }

    /** Which of the four tables exist. */
    function Created(): Presence
    {
      Presence(primitiveArgs.Some?, referenceArgs.Some?, primitiveResults.Some?, referenceResults.Some?)
    }

    /** Every table holds only keys of its own class. */
    predicate Classified()
    {
      && (primitiveArgs.Some? ==> forall k :: k in primitiveArgs.value ==> IsPrimitive(k))
      && (referenceArgs.Some? ==> forall k :: k in referenceArgs.value ==> !IsPrimitive(k))
      && (primitiveResults.Some? ==> forall k :: k in primitiveResults.value ==> IsPrimitive(k))
      && (referenceResults.Some? ==> forall k :: k in referenceResults.value ==> !IsPrimitive(k))
    }

    /** These are the tables of the node of path `p` in a trie whose paths are
        the keys of `nodes` and whose cached sequences are the keys of `cache`:
        the children are exactly the nodes of the one-key extensions of `p`, and
        the stored results exactly the cached results of those extensions. */
    ghost predicate Mirrors(p: seq<Value>, nodes: map<seq<Value>, Node>, cache: Cache)
    {
      && Classified()
      && (forall k :: Child(k) == Get(nodes, p + [k]))
      && (forall k :: Stored(k) == Get(cache, p + [k]))
    }

    /** The tables once the child table of `k`'s class exists. */
    function WithArgsTable(k: Value): (r: Tables)
      ensures r.Created() == Created().WithArgsTable(k)
    {
      if ArgsTable(k).Some? then this
      else if IsPrimitive(k) then this.(primitiveArgs := Some(map[]))
      else this.(referenceArgs := Some(map[]))
    }

    /** The tables once the result table of `k`'s class exists. */
    function WithResultsTable(k: Value): (r: Tables)
      ensures r.Created() == Created().WithResultsTable(k)
    {
      if ResultsTable(k).Some? then this
      else if IsPrimitive(k) then this.(primitiveResults := Some(map[]))
      else this.(referenceResults := Some(map[]))
    }

    /** The tables after `set(k, c)` on the child table of `k`'s class. */
    function WithChild(k: Value, c: Node): (r: Tables)
      requires ArgsTable(k).Some?
      ensures r.Created() == Created()
    {
      if IsPrimitive(k) then this.(primitiveArgs := Some(primitiveArgs.value[k := c]))
      else this.(referenceArgs := Some(referenceArgs.value[k := c]))
    }

    /** The tables after `set(k, v)` on the result table of `k`'s class. */
    function WithResult(k: Value, v: Value): (r: Tables)
      requires ResultsTable(k).Some?
      ensures r.Created() == Created()
    {
      if IsPrimitive(k) then this.(primitiveResults := Some(primitiveResults.value[k := v]))
      else this.(referenceResults := Some(referenceResults.value[k := v]))
    }

    /** The tables after `delete(k)` on those tables of `k`'s class that exist. */
    function Without(k: Value): (r: Tables)
      ensures r.Created() == Created()
    {
      if IsPrimitive(k) then
        this.(primitiveArgs := if primitiveArgs.Some? then Some(primitiveArgs.value - {k}) else None,
              primitiveResults := if primitiveResults.Some? then Some(primitiveResults.value - {k}) else None)
      else
        this.(referenceArgs := if referenceArgs.Some? then Some(referenceArgs.value - {k}) else None,
              referenceResults := if referenceResults.Some? then Some(referenceResults.value - {k}) else None)
    }
  }

  /** The tables of a node just created: none exists yet. */
  const NoTables := Tables(None, None, None, None)

  /** Which of the four tables of a node exist. */
  datatype Presence = Presence(primitiveArgs: bool, referenceArgs: bool, primitiveResults: bool, referenceResults: bool)
  {
    /** The child table of `k`'s class exists as well. */
    function WithArgsTable(k: Value): Presence
    {
      if IsPrimitive(k) then this.(primitiveArgs := true) else this.(referenceArgs := true)
    }

    /** The result table of `k`'s class exists as well. */
    function WithResultsTable(k: Value): Presence
    {
      if IsPrimitive(k) then this.(primitiveResults := true) else this.(referenceResults := true)
    }
  }

  /** Which tables the node of path `p` has after the first `n` steps of a
      call's walk over `args`, given its tables `t` before (`NoTables` for a node
      the walk creates): a node the walk leaves gains the child table of the
      class of the next argument, and no other node gains anything. */
  function CreatedByWalk(t: Presence, args: seq<Value>, n: nat, p: seq<Value>): Presence
    requires n <= |args|
  {
    if |p| < n && p == args[..|p|] then t.WithArgsTable(args[|p|]) else t
  }

  /** Which tables a node had when a walk began, as recorded in `before`; a
      node the walk creates had none. */
  function PresentBefore(before: map<seq<Value>, Presence>, p: seq<Value>): Presence
  {
    if p in before then before[p] else NoTables.Created()
  }

  /** One more step of the walk changes the tables of the node it leaves only. */
  lemma CreatedByWalkStep(t: Presence, args: seq<Value>, i: nat, p: seq<Value>)
    requires i < |args|
    ensures CreatedByWalk(t, args, i + 1, p) ==
            if p == args[..i] then t.WithArgsTable(args[i]) else CreatedByWalk(t, args, i, p)
  {
  }

  /** Which tables the node of path `p` has after a call with `args`: those of
      the whole walk, and at the node of the front of `args` also the result
      table of the class of the last argument. A call without arguments creates
      no table. */
  function CreatedByCall(t: Presence, args: seq<Value>, p: seq<Value>): Presence
  {
    if args == [] then t
    else if p == Front(args) then CreatedByWalk(t, args, |args| - 1, p).WithResultsTable(Last(args))
    else CreatedByWalk(t, args, |args| - 1, p)
  }

  /** A trie node. Its tables are created lazily and updated in place. The
      ghost `path` is the argument prefix the node was created for. */
  class Node {
    var primitiveArgs: Option<map<Value, Node>>
    var referenceArgs: Option<map<Value, Node>>
    var primitiveResults: Option<map<Value, Value>>
    var referenceResults: Option<map<Value, Value>>
    ghost const path: seq<Value>

    constructor (ghost path: seq<Value>)
      ensures View() == NoTables && this.path == path
    {
      this.path := path;
      primitiveArgs, referenceArgs := None, None;
      primitiveResults, referenceResults := None, None;
    }

    function View(): Tables
      reads this
    {
      Tables(primitiveArgs, referenceArgs, primitiveResults, referenceResults)
    }

    /** Fetches the child table of `k`'s class, creating it empty on first use. */
    method ArgsMap(k: Value) returns (t: map<Value, Node>)
      modifies this
      ensures View() == old(View()).WithArgsTable(k)
      ensures View().ArgsTable(k) == Some(t)
    {
      if IsPrimitive(k) {
        if primitiveArgs == None {
          primitiveArgs := Some(map[]);
        }
        t := primitiveArgs.value;
      } else {
        if referenceArgs == None {
          referenceArgs := Some(map[]);
        }
        t := referenceArgs.value;
      }
    }

    /** Fetches the result table of `k`'s class, creating it empty on first use. */
    method ResultsMap(k: Value) returns (t: map<Value, Value>)
      modifies this
      ensures View() == old(View()).WithResultsTable(k)
      ensures View().ResultsTable(k) == Some(t)
    {
      if IsPrimitive(k) {
        if primitiveResults == None {
          primitiveResults := Some(map[]);
        }
        t := primitiveResults.value;
      } else {
        if referenceResults == None {
          referenceResults := Some(map[]);
        }
        t := referenceResults.value;
      }
    }

    /** `argsMap.set(k, c)` on the existing child table of `k`'s class. */
    method SetChild(k: Value, c: Node)
      requires View().ArgsTable(k).Some?
      modifies this
      ensures View() == old(View()).WithChild(k, c)
    {
      if IsPrimitive(k) {
        primitiveArgs := Some(primitiveArgs.value[k := c]);
      } else {
        referenceArgs := Some(referenceArgs.value[k := c]);
      }
    }

    /** `resultsMap.set(k, v)` on the existing result table of `k`'s class. */
    method SetResult(k: Value, v: Value)
      requires View().ResultsTable(k).Some?
      modifies this
      ensures View() == old(View()).WithResult(k, v)
    {
      if IsPrimitive(k) {
        primitiveResults := Some(primitiveResults.value[k := v]);
      } else {
        referenceResults := Some(referenceResults.value[k := v]);
      }
    }

    /** The last step of `clear`: deletes `k` from whichever of the child and
        result tables of its class exist, creating none. */
    method Delete(k: Value)
      modifies this
      ensures View() == old(View()).Without(k)
    {
      if IsPrimitive(k) {
        if primitiveArgs != None {
          primitiveArgs := Some(primitiveArgs.value - {k});
        }
        if primitiveResults != None {
          primitiveResults := Some(primitiveResults.value - {k});
        }
      } else {
        if referenceArgs != None {
          referenceArgs := Some(referenceArgs.value - {k});
        }
        if referenceResults != None {
          referenceResults := Some(referenceResults.value - {k});
        }
      }
    }
  }

  /** The function returned by `memoize(fn)`, with its `clear` method.

      `NodeAt` maps every argument prefix that is a path of the trie to its node,
      and `Cached` is the abstract cache: the sequences (of any length) whose
      result is stored, the empty sequence standing for the zero-argument slot. */
  class Memoizer {
    const fn: Callee
    var root: Node
    var noargsCalled: bool
    var noargsResult: Value

    ghost var NodeAt: map<seq<Value>, Node>
    ghost var Repr: set<Node>
    ghost var Cached: Cache

    /** The trie is a tree of nodes below `root`, each labelled with its own path
        (so distinct paths have distinct nodes), and
        every cached sequence but the empty one hangs off the node of its front. */
    ghost predicate Shape()
      reads this
    {
      && [] in NodeAt && NodeAt[[]] == root
      && (forall p :: p in NodeAt ==> NodeAt[p] in Repr)
      && (forall p :: p in NodeAt ==> NodeAt[p].path == p)
      && PrefixClosed(NodeAt.Keys)
      && (forall q :: q in Cached && q != [] ==> Front(q) in NodeAt)
    }

    ghost predicate Valid()
      reads this, Repr
    {
      && Shape()
      // the zero-argument slot
      && ([] in Cached <==> noargsCalled)
      && (noargsCalled ==> Cached[[]] == noargsResult)
      // every other result is stored in the node of its front
      && (forall p {:trigger NodeAt[p].View().Mirrors(p, NodeAt, Cached)} ::
            p in NodeAt ==> NodeAt[p].View().Mirrors(p, NodeAt, Cached))
    }

    /** Which tables every node has. */
    ghost function Present(): (v: map<seq<Value>, Presence>)
      requires Shape()
      reads this, Repr
      ensures v.Keys == NodeAt.Keys
      ensures forall p {:trigger v[p]} :: p in NodeAt ==> v[p] == NodeAt[p].View().Created()
    {
      map p | p in NodeAt :: NodeAt[p].View().Created()
    }

    /** What a caller can observe: the cached results and the invocations of `fn`. */
    ghost function Abstract(): State
      reads this, fn
    {
      State(Cached, fn.calls)
    }

    /** `memoize(fn)`: a fresh empty trie and an unset zero-argument slot. */
    constructor (fn: Callee)
      ensures Valid() && this.fn == fn
      ensures fresh(root) && root.View() == NoTables && NodeAt == map[[] := root]
      ensures Cached == map[] && fresh(Repr)
    {
      this.fn := fn;
      root := new Node([]);
      noargsCalled := false;
      noargsResult := Undefined;
      NodeAt := map[[] := root];
      Repr := {root};
      Cached := map[];
    }

    /** `reset`: replaces the root by a fresh empty node and unsets the
        zero-argument slot. */
    method Reset()
      modifies this
      ensures Valid()
      ensures fresh(root) && root.View() == NoTables && NodeAt == map[[] := root]
      ensures Cached == map[] && fresh(Repr)
    {
      root := new Node([]);
      noargsCalled := false;
      noargsResult := Undefined;
      NodeAt := map[[] := root];
      Repr := {root};
      Cached := map[];
    }

    /** `memoized.apply(receiver, args)`. The receiver is passed on to `fn` but
        is not part of the key. */
    method Call(receiver: Value, args: seq<Value>) returns (c: Completion)
      requires Valid()
      modifies this, Repr, fn
      ensures Valid()
      ensures c == CacheSpec.Call(old(Abstract()), fn.behaviour, receiver, args).result
      ensures Abstract() == CacheSpec.Call(old(Abstract()), fn.behaviour, receiver, args).next
      // the walk creates the missing nodes for the proper prefixes of `args`,
      // and they stay even when `fn` throws
      ensures root == old(root)
      ensures NodeAt.Keys == old(NodeAt.Keys) + Prefixes(args)
      ensures forall p :: p in old(NodeAt) ==> NodeAt[p] == old(NodeAt[p])
      ensures fresh(Repr - old(Repr))
      // the walk creates the child tables it needs, the lookup the result table
      ensures forall p {:trigger CreatedByCall(PresentBefore(old(Present()), p), args, p)} :: p in NodeAt ==>
                NodeAt[p].View().Created() ==
                CreatedByCall(PresentBefore(old(Present()), p), args, p)
    {
      if |args| == 0 {
        c := CallNoArgs(receiver);
        return;
      }

      ghost var before := Present();
      var node := Walk(args);
      ghost var walked := Present();
      c := Lookup(receiver, args, node);
      forall p | p in NodeAt
        ensures NodeAt[p].View().Created() == CreatedByCall(PresentBefore(before, p), args, p)
      {
        assert walked[p] == CreatedByWalk(PresentBefore(before, p), args, |args| - 1, p);
        if p != Front(args) {
          assert NodeAt[p].path != node.path;
        }
      }
    }

    /** The walk of a call with arguments: from the root, follows every argument
        but the last, creating missing tables and nodes, and returns the node of
        the front of `args`. */
    method Walk(args: seq<Value>) returns (node: Node)
      requires Valid() && args != []
      modifies this`NodeAt, this`Repr, Repr
      ensures Valid()
      ensures Front(args) in NodeAt && NodeAt[Front(args)] == node
      ensures NodeAt.Keys == old(NodeAt.Keys) + Prefixes(args)
      ensures forall p :: p in old(NodeAt) ==> NodeAt[p] == old(NodeAt[p])
      ensures fresh(Repr - old(Repr))
      ensures forall p {:trigger NodeAt[p].View().Created()} :: p in NodeAt ==>
                NodeAt[p].View().Created() ==
                CreatedByWalk(PresentBefore(old(Present()), p), args, |args| - 1, p)
    {
      ghost var nodes := NodeAt;
      ghost var before := Present();
      var last := |args| - 1;
      node := root;
      var i := 0;
      PrefixesOfOne(args);
      while i < last
        invariant i <= last
        invariant Walking(nodes, before, args, i, node)
        invariant fresh(Repr - old(Repr))
      {
        node := Advance(nodes, before, args, i, node);
        i := i + 1;
      }
      TakeAll(args);
    }

    /** The state of a walk over `args` after its first `i` steps, which began
        with the nodes `nodes` whose tables existed as `before` records: `node`
        is the node of `args[..i]`, the nodes of the prefixes walked so far
        have been added, and the nodes left have gained the child tables of the
        classes of the arguments that followed them. */
    ghost predicate Walking(nodes: map<seq<Value>, Node>, before: map<seq<Value>, Presence>, args: seq<Value>, i: nat, node: Node)
      reads this, Repr
    {
      && i < |args|
      && Valid()
      && args[..i] in NodeAt && NodeAt[args[..i]] == node
      && NodeAt.Keys == nodes.Keys + Prefixes(args[..i + 1])
      && (forall p :: p in nodes ==> NodeAt[p] == nodes[p])
      && before.Keys == nodes.Keys
      && (forall p {:trigger NodeAt[p].View().Created()} :: p in NodeAt ==>
            NodeAt[p].View().Created() == CreatedByWalk(PresentBefore(before, p), args, i, p))
    }

    /** One iteration of the walk's loop: step `i`, and what it keeps of the
        walk's state. */
    method Advance(ghost nodes: map<seq<Value>, Node>, ghost before: map<seq<Value>, Presence>,
                   args: seq<Value>, i: nat, node: Node) returns (next: Node)
      requires Walking(nodes, before, args, i, node) && i + 1 < |args|
      modifies this`NodeAt, this`Repr, node
      ensures Walking(nodes, before, args, i + 1, next)
      ensures Repr == old(Repr) || (fresh(next) && Repr == old(Repr) + {next})
    {
      TakeStep(args, i);
      ghost var walked := NodeAt;
      next := Descend(before, args, i, node);
      WalkStep(nodes, walked, args, i, next);
    }

    /** A call without arguments: the zero-argument slot, filled by the first
        call that returns. */
    method CallNoArgs(receiver: Value) returns (c: Completion)
      requires Valid()
      modifies this`noargsCalled, this`noargsResult, this`Cached, fn
      ensures Valid()
      ensures c == CacheSpec.Call(old(Abstract()), fn.behaviour, receiver, []).result
      ensures Abstract() == CacheSpec.Call(old(Abstract()), fn.behaviour, receiver, []).next
    {
      if !noargsCalled {
        c := fn.Invoke(receiver, []);
        if c.Throw? {
          return;
        }
        noargsResult := c.value;
        noargsCalled := true;
        ghost var cache := Cached;
        Cached := cache[[] := c.value];
        forall p | p in NodeAt ensures NodeAt[p].View().Mirrors(p, NodeAt, Cached) {
          MirrorsNoArgsSlot(NodeAt[p].View(), p, NodeAt, cache, c.value);
        }
      }
      c := Return(noargsResult);
    }

    /** Step `i` of the call's walk over `args`: from `node`, the node of
        `args[..i]`, follows `args[i]` in the child table of its class, creating
        the table and the child on a miss. `before` records which tables each
        node had when the walk began; the step adds to what the walk has created
        the child table it needed, and nothing else. */
    method Descend(ghost before: map<seq<Value>, Presence>, args: seq<Value>, i: nat, node: Node) returns (next: Node)
      requires Valid() && i < |args| && args[..i] in NodeAt && NodeAt[args[..i]] == node
      requires forall q :: q in before ==> q in NodeAt
      requires forall q {:trigger NodeAt[q].View().Created()} :: q in NodeAt ==>
                 NodeAt[q].View().Created() == CreatedByWalk(PresentBefore(before, q), args, i, q)
      modifies this`NodeAt, this`Repr, node
      ensures Valid()
      ensures NodeAt == old(NodeAt)[args[..i + 1] := next]
      ensures args[..i + 1] in old(NodeAt) ==> next == old(NodeAt[args[..i + 1]])
      ensures Repr == old(Repr) || (fresh(next) && Repr == old(Repr) + {next})
      ensures forall q {:trigger NodeAt[q].View().Created()} :: q in NodeAt ==>
                NodeAt[q].View().Created() == CreatedByWalk(PresentBefore(before, q), args, i + 1, q)
    {
      ghost var p := args[..i];
      var k := args[i];
      TakeStep(args, i);
      ArgsTableCreated(node.View(), k, p, NodeAt, Cached);
      var argsMap := node.ArgsMap(k);
      if k in argsMap {
        next := argsMap[k];
        assert node.View().Child(k) == Some(next);
      } else {
        next := AddChild(p, node, k);
      }
      forall q | q in NodeAt
        ensures NodeAt[q].View().Created() == CreatedByWalk(PresentBefore(before, q), args, i + 1, q)
      {
        CreatedByWalkStep(PresentBefore(before, q), args, i, q);
        if q in old(NodeAt) {
          assert old(NodeAt[q].View().Created()) == CreatedByWalk(PresentBefore(before, q), args, i, q);
        }
      }
    }

    /** A miss in the walk: a fresh empty node becomes the child of `node`
        under `k`, and so the node of the new path `p + [k]`. */
    method AddChild(ghost p: seq<Value>, node: Node, k: Value) returns (next: Node)
      requires Valid() && p in NodeAt && NodeAt[p] == node
      requires node.View().ArgsTable(k).Some? && p + [k] !in NodeAt
      modifies this`NodeAt, this`Repr, node
      ensures Valid()
      ensures fresh(next) && NodeAt == old(NodeAt)[p + [k] := next] && Repr == old(Repr) + {next}
      ensures next.View() == NoTables && node.View() == old(node.View()).WithChild(k, next)
    {
      ghost var nodes := NodeAt;
      ghost var t := node.View();
      assert t.Mirrors(p, nodes, Cached);
      next := new Node(p + [k]);
      node.SetChild(k, next);
      NodeAt := nodes[p + [k] := next];
      Repr := Repr + {next};
      ChildAdded(t, k, next, p, nodes, Cached);
      FrontOfAppend(p, k);
      forall q | q in nodes && q != p
        ensures NodeAt[q].View().Mirrors(q, NodeAt, Cached)
      {
        MirrorsExtendNodes(nodes[q].View(), q, nodes, Cached, p + [k], next);
      }
      NewPathUnextended(nodes, Cached, p + [k]);
      NoTablesMirror(p + [k], next, nodes, Cached);
    }

    /** The end of a call with arguments: looks up the last argument in the
        result table of its class at `node`, the node of the front of `args`; on
        a miss invokes `fn` and stores what it returns. */
    method Lookup(receiver: Value, args: seq<Value>, node: Node) returns (c: Completion)
      requires Valid() && args != [] && Front(args) in NodeAt && NodeAt[Front(args)] == node
      modifies this`Cached, node, fn
      ensures Valid()
      ensures c == CacheSpec.Call(old(Abstract()), fn.behaviour, receiver, args).result
      ensures Abstract() == CacheSpec.Call(old(Abstract()), fn.behaviour, receiver, args).next
      // `node` gains at most the result table of the last argument's class
      ensures node.View().Created() == old(node.View().Created()).WithResultsTable(Last(args))
    {
      ghost var p := Front(args);
      var k := Last(args);
      FrontLast(args);
      ResultsTableCreated(node.View(), k, p, NodeAt, Cached);
      var resultsMap := node.ResultsMap(k);
      if k in resultsMap {
        c := Return(resultsMap[k]);
        assert node.View().Stored(k) == Some(resultsMap[k]);
        return;
      }
      c := fn.Invoke(receiver, args);
      if c.Throw? {
        return;
      }
      StoreResult(args, node, c.value);
    }

    /** A miss that returned `v`: `resultsMap.set(k, v)` at `node`, the node of
        the front of `args`, whose result table for the last argument exists. */
    method StoreResult(args: seq<Value>, node: Node, v: Value)
      requires Valid() && args != [] && Front(args) in NodeAt && NodeAt[Front(args)] == node
      requires node.View().ResultsTable(Last(args)).Some?
      modifies this`Cached, node
      ensures Valid()
      ensures Cached == old(Cached)[args := v]
      ensures node.View().Created() == old(node.View().Created())
    {
      ghost var p := Front(args);
      var k := Last(args);
      FrontLast(args);
      ghost var cache := Cached;
      ghost var t := node.View();
      node.SetResult(k, v);
      Cached := cache[args := v];
      ResultAdded(t, k, v, p, NodeAt, cache);
      forall q | q in NodeAt && q != p
        ensures NodeAt[q].View().Mirrors(q, NodeAt, Cached)
      {
        MirrorsExtendCache(NodeAt[q].View(), q, NodeAt, cache, args, v);
      }
    }

    /** `memoized.clear(...keys)`. With no keys everything is reset. Otherwise
        the walk follows the proper prefix of `keys`: it returns quietly where a
        table of the needed class was never created, and throws where the table
        exists but lacks the key (the source goes on with `node` undefined, and
        its next property access throws). When the walk succeeds, the last key is
        deleted from the child and result tables of its class at the node
        reached, dropping that sequence and every sequence it begins. */
    method Clear(keys: seq<Value>) returns (outcome: ClearOutcome)
      requires Valid()
      modifies this, Repr
      ensures Valid()
      ensures Abstract() == CacheSpec.Clear(old(Abstract()), keys)
      ensures keys == [] ==>
                outcome == Returned && fresh(root) && root.View() == NoTables && NodeAt == map[[] := root] && fresh(Repr)
      ensures keys != [] ==>
                && root == old(root) && Repr == old(Repr)
                && var d := WalkDepth(old(NodeAt.Keys), keys, 0);
                && (d == |keys| - 1 ==> outcome == Returned && NodeAt == Drop(old(NodeAt), keys))
                && (d < |keys| - 1 ==>
                      && NodeAt == old(NodeAt)
                      && (outcome == ThrewTypeError <==> old(NodeAt[keys[..d]].View().ArgsTable(keys[d])).Some?))
      // clear never creates a node or a table
      ensures keys != [] ==> forall p :: p in NodeAt ==>
                p in old(NodeAt) && NodeAt[p] == old(NodeAt[p]) && NodeAt[p].View().Created() == old(NodeAt[p].View().Created())
    {
      if |keys| == 0 {
        Reset();
        ClearAllEmpties(old(Abstract()));
        return Returned;
      }

      var found, stop := FindFront(keys);
      if found.None? {
        return stop;
      }
      DeleteLast(keys, found.value);
      outcome := Returned;
    }

    /** `clear` as its early return at lines 116-118 of lib/memoize.js suggests
        it was meant to behave: a prefix key missing from an existing table stops
        the walk silently, like a table never created, instead of reading a table
        of `undefined`. It never throws and has the
        same effect on the cache as `Clear`. */
    method ClearTotal(keys: seq<Value>) returns (outcome: ClearOutcome)
      requires Valid()
      modifies this, Repr
      ensures Valid()
      ensures outcome == Returned
      ensures Abstract() == CacheSpec.Clear(old(Abstract()), keys)
      ensures keys != [] ==> root == old(root) && Repr == old(Repr)
      ensures keys != [] ==> forall p :: p in NodeAt ==>
                p in old(NodeAt) && NodeAt[p] == old(NodeAt[p]) && NodeAt[p].View().Created() == old(NodeAt[p].View().Created())
    {
      if |keys| == 0 {
        Reset();
        ClearAllEmpties(old(Abstract()));
        return Returned;
      }

      var found, stop := FindFront(keys);
      if found.Some? {
        DeleteLast(keys, found.value);
      }
      outcome := Returned;
    }

    /** The walk of `clear(...keys)` over every key but the last. It stops where
        the table of the needed class was never created (`clear` then returns)
        or where that table lacks the key (`clear` then throws); in both cases
        no cached sequence starts with `keys`. Otherwise it finds the node of
        the front of `keys`. */
    method FindFront(keys: seq<Value>) returns (found: Option<Node>, stop: ClearOutcome)
      requires Valid() && keys != []
      ensures var d := WalkDepth(NodeAt.Keys, keys, 0);
              && (found.Some? <==> d == |keys| - 1)
              && (found.Some? ==> Front(keys) in NodeAt && NodeAt[Front(keys)] == found.value)
              && (found.None? ==>
                    && Drop(Cached, keys) == Cached
                    && (stop == ThrewTypeError <==> NodeAt[keys[..d]].View().ArgsTable(keys[d]).Some?))
    {
      var last := |keys| - 1;
      var node := root;
      var i := 0;
      while i < last
        invariant 0 <= i <= last
        invariant keys[..i] in NodeAt && NodeAt[keys[..i]] == node
        invariant WalkDepth(NodeAt.Keys, keys, i) == WalkDepth(NodeAt.Keys, keys, 0)
      {
        var argsMap := if IsPrimitive(keys[i]) then node.primitiveArgs else node.referenceArgs;
        TakeStep(keys, i);
        assert node.View().Mirrors(keys[..i], NodeAt, Cached);
        if argsMap == None {
          DropUnreachable(Cached, NodeAt.Keys, keys, i + 1);
          return None, Returned;
        }
        if keys[i] !in argsMap.value {
          DropUnreachable(Cached, NodeAt.Keys, keys, i + 1);
          return None, ThrewTypeError;
        }
        node := argsMap.value[keys[i]];
        i := i + 1;
      }
      TakeAll(keys);
      return Some(node), Returned;
    }

    /** The end of a `clear` whose walk reached `node`, the node of the front of
        `keys`: the last key is deleted there. */
    method DeleteLast(keys: seq<Value>, node: Node)
      requires Valid() && keys != [] && Front(keys) in NodeAt && NodeAt[Front(keys)] == node
      modifies this`NodeAt, this`Cached, node
      ensures Valid()
      ensures NodeAt == Drop(old(NodeAt), keys) && Cached == Drop(old(Cached), keys)
      ensures node.View().Created() == old(node.View().Created())
    {
      ghost var m := Front(keys);
      var k := Last(keys);
      ghost var nodes, cache := NodeAt, Cached;
      FrontLast(keys);
      KeyDeleted(node.View(), k, m, nodes, cache);
      node.Delete(k);
      NodeAt := Drop(nodes, keys);
      Cached := Drop(cache, keys);
      forall q | q in NodeAt && q != m
        ensures NodeAt[q].View().Mirrors(q, NodeAt, Cached)
      {
        MirrorsDrop(nodes[q].View(), q, nodes, cache, keys);
      }
      DropKeepsShape(nodes, cache, keys);
    }
  }

  /** Creating a missing table changes no child and no stored result. */
  lemma ArgsTableCreated(t: Tables, k: Value, p: seq<Value>, nodes: map<seq<Value>, Node>, cache: Cache)
    requires t.Mirrors(p, nodes, cache)
    ensures t.WithArgsTable(k).Mirrors(p, nodes, cache)
    ensures t.WithArgsTable(k).ResultsTable(k) == t.ResultsTable(k)
  {
  }

  lemma ResultsTableCreated(t: Tables, k: Value, p: seq<Value>, nodes: map<seq<Value>, Node>, cache: Cache)
    requires t.Mirrors(p, nodes, cache)
    ensures t.WithResultsTable(k).Mirrors(p, nodes, cache)
  {
  }

  /** Adding the child `c` under `k` makes `c` the node of the new path `p + [k]`. */
  lemma ChildAdded(t: Tables, k: Value, c: Node, p: seq<Value>, nodes: map<seq<Value>, Node>, cache: Cache)
    requires t.Mirrors(p, nodes, cache) && t.ArgsTable(k).Some?
    ensures t.WithChild(k, c).Mirrors(p, nodes[p + [k] := c], cache)
  {
    forall k' ensures t.WithChild(k, c).Child(k') == Get(nodes[p + [k] := c], p + [k']) {
      if k' != k {
        AppendDistinct2(p, k', k);
      }
    }
  }

  /** Storing `v` under `k` caches `v` as the result of `p + [k]`. */
  lemma ResultAdded(t: Tables, k: Value, v: Value, p: seq<Value>, nodes: map<seq<Value>, Node>, cache: Cache)
    requires t.Mirrors(p, nodes, cache) && t.ResultsTable(k).Some?
    ensures t.WithResult(k, v).Mirrors(p, nodes, cache[p + [k] := v])
  {
    forall k' ensures t.WithResult(k, v).Stored(k') == Get(cache[p + [k] := v], p + [k']) {
      if k' != k {
        AppendDistinct2(p, k', k);
      }
    }
  }

  /** After `delete(k)` only the lookups of `k` itself miss. */
  lemma WithoutLookup(t: Tables, k: Value, k': Value)
    ensures t.Without(k).Child(k') == if k' == k then None else t.Child(k')
    ensures t.Without(k).Stored(k') == if k' == k then None else t.Stored(k')
  {
  }

  /** Deleting `k` at the node of `p` drops `p + [k]` and everything below it. */
  lemma KeyDeleted(t: Tables, k: Value, p: seq<Value>, nodes: map<seq<Value>, Node>, cache: Cache)
    requires t.Mirrors(p, nodes, cache)
    ensures t.Without(k).Mirrors(p, Drop(nodes, p + [k]), Drop(cache, p + [k]))
    ensures t.Without(k).Created() == t.Created()
  {
    var t' := t.Without(k);
    forall k' ensures t'.Child(k') == Get(Drop(nodes, p + [k]), p + [k'])
                  && t'.Stored(k') == Get(Drop(cache, p + [k]), p + [k'])
    {
      WithoutLookup(t, k, k');
      if k' == k {
        assert IsPrefix(p + [k], p + [k']);
      } else {
        AppendDistinct2(p, k', k);
        assert !IsPrefix(p + [k], p + [k']);
      }
    }
  }

  /** A node just created mirrors a new path that has no extensions. */
  lemma NoTablesMirror(path: seq<Value>, c: Node, nodes: map<seq<Value>, Node>, cache: Cache)
    requires forall k :: path + [k] !in nodes && path + [k] !in cache
    ensures NoTables.Mirrors(path, nodes[path := c], cache)
  {
    forall k ensures path + [k] != path {
      assert |path + [k]| != |path|;
    }
  }

  /** Tables that did not change still mirror the trie after a path is added
      below some other node. */
  lemma MirrorsExtendNodes(t: Tables, q: seq<Value>, nodes: map<seq<Value>, Node>, cache: Cache,
                           path: seq<Value>, c: Node)
    requires t.Mirrors(q, nodes, cache)
    requires path != [] && q != Front(path)
    ensures t.Mirrors(q, nodes[path := c], cache)
  {
    FrontLast(path);
    forall k ensures q + [k] != path {
      AppendDistinct(q, k, Front(path), Last(path));
    }
  }

  /** ... and after a result is cached for a sequence below some other node. */
  lemma MirrorsExtendCache(t: Tables, q: seq<Value>, nodes: map<seq<Value>, Node>, cache: Cache,
                           args: seq<Value>, v: Value)
    requires t.Mirrors(q, nodes, cache)
    requires args != [] && q != Front(args)
    ensures t.Mirrors(q, nodes, cache[args := v])
  {
    FrontLast(args);
    forall k ensures q + [k] != args {
      AppendDistinct(q, k, Front(args), Last(args));
    }
  }

  /** ... and after the zero-argument slot is filled, which no node holds. */
  lemma MirrorsNoArgsSlot(t: Tables, q: seq<Value>, nodes: map<seq<Value>, Node>, cache: Cache, v: Value)
    requires t.Mirrors(q, nodes, cache)
    ensures t.Mirrors(q, nodes, cache[[] := v])
  {
    forall k ensures q + [k] != [] {
      assert |q + [k]| > 0;
    }
  }

  /** ... and after a clear of `keys` that neither drops them nor ends at them. */
  lemma MirrorsDrop(t: Tables, q: seq<Value>, nodes: map<seq<Value>, Node>, cache: Cache, keys: seq<Value>)
    requires t.Mirrors(q, nodes, cache)
    requires keys != [] && !IsPrefix(keys, q) && q != Front(keys)
    ensures t.Mirrors(q, Drop(nodes, keys), Drop(cache, keys))
  {
    FrontLast(keys);
    forall k ensures !IsPrefix(keys, q + [k]) {
      AppendDistinct(q, k, Front(keys), Last(keys));
      NotPrefixOfAppend(keys, q, k);
    }
  }

  lemma AppendDistinct2(p: seq<Value>, k: Value, k': Value)
    requires k != k'
    ensures p + [k] != p + [k']
  {
    assert (p + [k])[|p|] != (p + [k'])[|p|];
  }

  /** The proper prefixes of `args`: the paths a call with `args` walks. */
  function Prefixes(args: seq<Value>): set<seq<Value>>
    decreases |args|
  {
    if args == [] then {} else Prefixes(Front(args)) + {Front(args)}
  }

  /** `Prefixes` holds exactly the proper prefixes. */
  lemma {:induction false} PrefixesAreProperPrefixes(args: seq<Value>)
    ensures forall q :: q in Prefixes(args) <==> IsPrefix(q, args) && |q| < |args|
    decreases |args|
  {
    if args != [] {
      var front := Front(args);
      PrefixesAreProperPrefixes(front);
      assert forall q :: IsPrefix(q, front) ==> IsPrefix(q, args);
      assert forall q :: IsPrefix(q, args) && |q| < |front| ==> IsPrefix(q, front);
    }
  }

  lemma TakeAll(args: seq<Value>)
    requires args != []
    ensures args[..|args| - 1] == Front(args) && args[..|args|] == args
  {
  }

  /** Walking one argument further adds one prefix. */
  lemma PrefixesGrow(args: seq<Value>, i: nat)
    requires i + 1 < |args|
    ensures Prefixes(args[..i + 2]) == Prefixes(args[..i + 1]) + {args[..i + 1]}
  {
    assert Front(args[..i + 2]) == args[..i + 1];
  }

  /** One step of the walk over `args`: mapping the path `args[..i + 1]` adds it
      to the walked prefixes and keeps every path that existed before the walk. */
  lemma WalkStep(nodes: map<seq<Value>, Node>, m: map<seq<Value>, Node>, args: seq<Value>, i: nat, next: Node)
    requires i + 1 < |args|
    requires m.Keys == nodes.Keys + Prefixes(args[..i + 1])
    requires forall p :: p in nodes ==> m[p] == nodes[p]
    requires args[..i + 1] in m ==> next == m[args[..i + 1]]
    ensures m[args[..i + 1] := next].Keys == nodes.Keys + Prefixes(args[..i + 2])
    ensures forall p :: p in nodes ==> m[args[..i + 1] := next][p] == nodes[p]
  {
    PrefixesGrow(args, i);
  }

  /** The only proper prefix of a one-argument sequence is the empty one. */
  lemma PrefixesOfOne(args: seq<Value>)
    requires |args| >= 1
    ensures Prefixes(args[..1]) == {[]}
  {
    assert Front(args[..1]) == [];
  }
}
