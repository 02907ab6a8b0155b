# memoize-weak, modelled in Dafny

`memoize(fn)` from `lib/memoize.js` returns a memoized version of `fn`. Results
are cached per argument sequence. Each argument is keyed by value when it is a
primitive (`null`, or anything whose `typeof` is neither "object" nor
"function") and by identity otherwise. The cache is a trie of nodes. Each node
holds four lazily created tables:

- value-keyed and identity-keyed tables of child nodes, consulted for every
  argument but the last;
- value-keyed and identity-keyed tables of results, consulted for the last
  argument.

Zero-argument calls use a separate flag and result slot. `memoized.clear(...keys)`
forgets the results of every sequence that starts with `keys`, and with no keys
resets everything.

The project has four modules:

- `values.dfy` (`JsValues`): JavaScript values and the primitive/reference
  classification.
- `cache_spec.dfy` (`CacheSpec`): the abstract behaviour. It is a map from argument
  sequences to cached results plus the log of invocations of `fn`, with `Call`
  and `Clear` on it. Lemmas about runs of calls and clears cover:
  - at most one invocation per sequence;
  - independence of distinct sequences;
  - errors not being cached;
  - idempotence of `clear`.
- `memoize.dfy` (`Memoize`): the memoizer as imperative code.
  - The closure state `root`, `noargsCalled` and `noargsResult` becomes the
    fields of a `Memoizer` object.
  - Trie nodes are `Node` objects whose table fields are updated in place.
  - `Call`, `CallNoArgs` and `Lookup` are proved to refine the abstract `Call`,
    and `Clear` and `ClearTotal` the abstract `Clear`. The other methods (`Walk`
    and its steps `Advance`, `Descend` and `AddChild`, `StoreResult`,
    `FindFront`, `DeleteLast` and the `Node` methods) are steps toward them,
    each with its own contract. The proof goes through a ghost map from trie
    paths to nodes and a ghost abstract cache, tied to the tables by the
    invariant `Valid`.
  - `Call` also states which tables every node has afterwards. The walk creates
    the child table of the next argument's class at each node it leaves. The
    lookup creates the result table of the last argument's class at the front's
    node. No other table is created.
  - `fn` is a `Callee` object. It records every invocation, and what it does is a
    function of the receiver, the arguments and the number of earlier invocations.
- `scenarios.dfy` (`Scenarios`): concrete runs, with the results and invocation
  counts they produce, and the idempotence of two successive clears on any
  memoizer.

Each `Map`/`WeakMap` table belongs to exactly one node field and is never
shared. The model therefore holds it as a map value in that field, and `set`
and `delete` become reassignments of the field.

## Where the code departs from its evident intent

The early `return` at lib/memoize.js:116-118 treats a prefix key whose child
table was never created as "nothing to clear". That suggests a missing prefix
key was meant to be harmless. No test clears with a missing prefix key. The
code behaves differently when a child table of the right class exists but
lacks the key:

- `argsMap.get` yields `undefined`;
- the next property access on `node` throws a `TypeError`.

`Memoize.Memoizer.Clear` models this as the outcome `ThrewTypeError`. The cache
is then unchanged, because no cached sequence can extend a missing path. A
table that was never created still makes `clear` return silently. See
"## Findings".

## Model

| member | source | states |
|---|---|---|
| JsValues.IsPrimitive | lib/memoize.js:38-39 | an argument goes to the value-keyed tables exactly when it is not an object or function (`null` included) |
| CacheSpec.Call | lib/memoize.js:23-100 | a hit returns the cached result and leaves the log alone; a miss invokes `fn` once with the receiver and arguments and caches the value only if it returns; no other sequence's entry changes |
| CacheSpec.Drop | lib/memoize.js:122-140 | an entry survives exactly when it does not start with the cleared keys, and survivors keep their old results |
| CacheSpec.Clear | lib/memoize.js:102-141 | a sequence stays cached exactly when it was cached and does not start with the keys, with its old result; `fn` is not invoked |
| CacheSpec.ClearAllEmpties | lib/memoize.js:102-106 | `clear()` with no keys leaves no cached result, the zero-argument one included |
| CacheSpec.DropKeepsDiverging | lib/memoize.js:111-140 | a cached sequence that differs from the keys at some position keeps its result |
| CacheSpec.DropKeepsShorter | lib/memoize.js:122-140 | a cached sequence shorter than the keys keeps its result |
| CacheSpec.DropIdempotent | lib/memoize.js:122-140 | clearing the same keys twice is the same as clearing them once |
| CacheSpec.PrefixClosedTake | lib/memoize.js:36-68 | every prefix of a trie path is a trie path |
| CacheSpec.DropUnreachable | lib/memoize.js:115-119 | when the walk of `clear` stops early, no cached sequence starts with the keys, so the cache is unchanged |
| CacheSpec.DropKeepsShape | lib/memoize.js:126-140 | deleting a key keeps the trie prefix-closed and every cached sequence hanging off a remaining node |
| CacheSpec.NewPathUnextended | lib/memoize.js:57-64 | a sequence that is not a trie path has no extension that is a path or is cached, so the node created for it on a miss starts with nothing below it |
| CacheSpec.WalkDepth | lib/memoize.js:109-120 | the walk of `clear` passes only trie paths, and stops either one key short of the last or before a prefix that is not a path |
| CacheSpec.CachedStaysCached | lib/memoize.js:92-93 | once a sequence is cached, calls and clears that do not clear a prefix of it keep its result and never invoke `fn` on it |
| CacheSpec.AtMostOnce | lib/memoize.js:92-97 | while nothing clears it and `fn` does not throw on it, `fn` runs on a sequence at most once, and not at all if it is cached |
| CacheSpec.Untouched | lib/memoize.js:36-97 | calls with other sequences and clears of keys that are not its prefix leave a sequence's entry and invocation count as they were |
| CacheSpec.ErrorRetried | lib/memoize.js:95-96 | after `fn` throws on a miss nothing is cached, and the next identical call invokes `fn` again |
| Memoize.Callee.Invoke | lib/memoize.js:95 | an invocation is appended to the log and returns what `fn` does given the earlier invocations |
| Memoize.Node.constructor | lib/memoize.js:58-63 | a new node has none of its four tables |
| Memoize.Node.ArgsMap | lib/memoize.js:43-55 | the child table of the argument's class exists afterwards, unchanged if it existed, empty if not; no other table changes |
| Memoize.Node.ResultsMap | lib/memoize.js:78-90 | the result table of the argument's class exists afterwards, unchanged if it existed, empty if not; no other table changes |
| Memoize.Node.SetChild | lib/memoize.js:64 | the child table of the key's class maps the key to the new node; nothing else changes |
| Memoize.Node.SetResult | lib/memoize.js:96 | the result table of the key's class maps the key to the result; nothing else changes |
| Memoize.Node.Delete | lib/memoize.js:126-140 | the key is removed from the existing child and result tables of its class; no table is created |
| Memoize.Memoizer.constructor | lib/memoize.js:5-21 | a new memoizer has an empty root, an unset zero-argument slot and an empty cache |
| Memoize.Memoizer.Reset | lib/memoize.js:10-19 | the root is replaced by a fresh empty node and the zero-argument slot is unset, so nothing is cached |
| Memoize.Memoizer.Call | lib/memoize.js:23-100 | the result and the new cache and log are those of the abstract `Call`; the walk adds the missing proper prefixes of the arguments as paths, even when `fn` throws, and keeps every existing node; each node ends with the tables it had plus, at each prefix shorter than the front, the child table of the next argument's class and, at the front, the result table of the last argument's class, and nothing else |
| Memoize.Memoizer.CallNoArgs | lib/memoize.js:26-32 | the zero-argument slot behaves as the abstract `Call` on the empty sequence, a cached `undefined` included |
| Memoize.Memoizer.Walk | lib/memoize.js:34-68 | the walk returns the node of the arguments' front, and the paths grow by exactly the proper prefixes of the arguments; every node it leaves gains the child table of the next argument's class, and no other table is created |
| Memoize.Memoizer.Advance | lib/memoize.js:36-67 | one iteration of the walk's loop keeps the walk's invariant: paths, nodes and created tables as after one more step |
| Memoize.Memoizer.Descend | lib/memoize.js:37-67 | step `i` maps the extended path to the existing child or to a new node, keeps every other path, and adds only the child table of `args[i]`'s class at the node it leaves |
| Memoize.Memoizer.AddChild | lib/memoize.js:57-64 | on a miss a fresh node without tables becomes the node of the new path, and the parent's only change is the new entry in its child table |
| Memoize.Memoizer.Lookup | lib/memoize.js:72-97 | the lookup of the last argument is the abstract `Call` on the whole sequence, and the front's node gains at most the result table of the last argument's class |
| Memoize.Memoizer.StoreResult | lib/memoize.js:96 | storing a returned result caches it for the whole sequence, keeps the trie valid and creates no table |
| Memoize.Memoizer.Clear | lib/memoize.js:102-141 | the cache becomes the abstract `Clear`; with no keys the trie is reset; otherwise, when the walk reaches the front of the keys, that subtree is dropped; when it stops early nothing changes, and the outcome is a `TypeError` exactly when the table of the missing key's class exists; no node or table is ever created |
| Memoize.Memoizer.FindFront | lib/memoize.js:109-120 | the walk finds the front's node exactly when every proper prefix is a path; otherwise no cached sequence starts with the keys, and the `TypeError` arises exactly when the table of the missing key exists |
| Memoize.Memoizer.DeleteLast | lib/memoize.js:122-140 | deleting the last key at the front's node drops every path and cached sequence that starts with the keys, and creates no table |
| Memoize.Memoizer.ClearTotal | lib/memoize.js:109-140 | corrected `clear`: it always returns, and its effect on the cache is the abstract `Clear` |
| Memoize.ArgsTableCreated | lib/memoize.js:43-55 | creating a child table changes no child and no stored result of the node |
| Memoize.ResultsTableCreated | lib/memoize.js:78-90 | creating a result table changes no child and no stored result of the node |
| Memoize.ChildAdded | lib/memoize.js:57-64 | adding a child under a key makes it the node of the path extended by that key |
| Memoize.ResultAdded | lib/memoize.js:96 | storing a result under a key caches it for the path extended by that key |
| Memoize.KeyDeleted | lib/memoize.js:126-140 | deleting a key at a node drops the extended path and everything below it from the node's view, without creating a table |
| Memoize.NoTablesMirror | lib/memoize.js:58-63 | a new node correctly describes a new path with no extensions |
| Memoize.MirrorsExtendNodes | lib/memoize.js:64 | adding a path under one node leaves every other node's description valid |
| Memoize.MirrorsExtendCache | lib/memoize.js:96 | caching a result under one node leaves every other node's description valid |
| Memoize.MirrorsNoArgsSlot | lib/memoize.js:28-29 | filling the zero-argument slot leaves every node's description valid |
| Memoize.MirrorsDrop | lib/memoize.js:126-140 | a clear that neither drops a node nor ends at it leaves its description valid |
| Memoize.PrefixesAreProperPrefixes | lib/memoize.js:36-68 | the paths a call walks are exactly the proper prefixes of its arguments |
| Memoize.WalkStep | lib/memoize.js:36-68 | each step of the walk adds the next prefix and keeps every earlier path |
| Scenarios.ClearOneKey | lib/memoize.js:92-97 | with `fn` the identity, a repeat call is a hit, and after clearing the key the next call invokes `fn` again (2 invocations for 3 calls) |
| Scenarios.ClearPrefix | lib/memoize.js:122-140 | clearing a proper prefix drops the result of a longer sequence |
| Scenarios.NoArguments | lib/memoize.js:26-32 | a cached `undefined` is a hit for zero-argument calls, and `()` and `(undefined)` are different sequences |
| Scenarios.DistinctFalsyKeys | lib/memoize.js:36-97 | `(null, undefined, false)` and `(null, undefined, 0)` get separate results |
| Scenarios.DistinctObjects | lib/memoize.js:85-93 | distinct objects are distinct keys, and each is cached separately |
| Scenarios.ErrorNotCached | lib/memoize.js:92-97 | a thrown error is passed on and not cached; the retry's result is then cached |
| Scenarios.ClearBeforeAnyCall | lib/memoize.js:115-118 | with no child table at the root, `clear` with a missing key returns |
| Scenarios.ClearMissingKey | lib/memoize.js:115-127 | when the root's value-keyed child table exists but lacks the key, `clear` throws a `TypeError` |
| Scenarios.AfterOneArgumentCall | lib/memoize.js:34-97 | a call with one argument leaves the root as the only node, without a value-keyed child table |
| Scenarios.ClearAfterOneArgumentCall | lib/memoize.js:115-118 | after a call with one argument, `clear` with two missing keys returns, because the root has no child table |
| Scenarios.ClearTwice | lib/memoize.js:102-140 | a second `clear` with the same keys ends the same way as the first and changes nothing further |

## Left out

- Garbage collection: the weak references of the `WeakMap` tables cannot be
  observed here. The identity-keyed tables are ordinary maps keyed by object
  identity.
- Number keys: numbers are mathematical integers, so `Map`'s treatment of `NaN`
  and of `+0`/`-0` is not modelled.
- Receiver keying: the receiver is passed on to `fn` but is not part of any key.
  This follows the library. A test (test/memoize.spec.js:1026-1048) expects a
  different receiver to re-invoke `fn` for zero-argument calls, which the
  library does not do.
- Calling mechanics: `fn.call`/`fn.apply` and the `arguments` object are
  replaced by an explicit receiver and argument sequence.
- Re-entrancy: `fn` calling back into the memoizer, or into its `clear`, while
  it runs is not modelled. `fn` only records the invocation.
- Out of scope: the benchmarks, the test suites and the type declaration
  `lib/memoize.d.ts`.

## Findings

| source | as written | input that shows it | evidently intended | confidence | as-written member | corrected member |
|---|---|---|---|---|---|---|
| lib/memoize.js:115-127 | the walk of `clear` stops only when a table is missing; a key missing from an existing table makes `node` `undefined`, and the next read of one of its table fields throws a `TypeError` | after `memoized("a", "b")`, `memoized.clear("z", "w")` | a missing prefix key ends the walk like a missing table, so `clear` returns and changes nothing | high (not executed) | Memoize.Memoizer.Clear, exhibited by Scenarios.ClearMissingKey | Memoize.Memoizer.ClearTotal |
