# Structural clone of game2/src/util.js

`clone(o1)` copies a JavaScript value. It allocates a new plain object
`o2` and assigns to it, for each key of `Object.keys(o1)`, the result of the
inner recursive `deepClone` on `o1`'s value at that key. `deepClone(v)` works
as follows:

- it returns `o2` when `v === o1`;
- it copies an array element by element into a new array of the same length;
- it copies any other value whose `typeof` is `"object"` key by key into a new plain object;
- it returns every other value unchanged.

`typeof null` is `"object"`, so a nested `null` reaches `Object.keys(null)`,
which raises a TypeError.

The model has three parts:

- **The heap.** The JavaScript heap is an explicit value (`JsHeap.Heap`): a sequence of array and
  plain-object nodes, with addresses as indices. An object's properties are kept in `Object.keys` order.
  Allocating a node appends it, so a node is new exactly when its address is at least the length of the
  input heap.
- **The methods.** `Util.Clone`, `Util.DeepClone`, `Util.CloneArray`, `Util.CloneObject` and
  `Util.CopyEntries` (the `forEach` loop), with `Util.CopyProperty` (its callback), take the heap and
  return the heap they leave. Their loops are the source's loops.
  - Each one is proved against the relation `Util.IsCopy`. It fixes where in the heap each copy lies and
    what it holds. The copies of a container's values lie in consecutive ranges in index order, which is
    the order in which the source allocates them.
  - Each one is also proved against `Util.Throws`, which says when the TypeError is raised.
  - Each new node refers only to new nodes and to `o2` (`Util.Closed`), and the input nodes are never
    written (`Util.Extends`).
- **The consequences, and the termination condition.** `CloneProperties` proves what follows from the
  relation. Termination is a precondition: a rank on the input nodes (`Util.Ranked`) that covers
  every node reachable from `o1`'s values without passing `o1`, and that decreases along every edge
  between such nodes that avoids the root. Such a rank rules out every cycle that is reachable from
  `o1`'s values and avoids the root. Nodes the traversal cannot reach are not constrained.
  `CloneExamples` works out five concrete inputs. For three it proves the exact heap `clone` leaves,
  for the fourth the error, and for the fifth, `{a: x, b: {c: x}}`, that `o2.a` and `o2.b.c` are
  different arrays.

A nested `null` is therefore not copied: it takes the object branch
(game2/src/util.js:12-14), and `Object.keys(null)` raises a TypeError.
`CloneExamples.NullProperty` proves that `clone({z: null})` raises it.

## Model

| member | source | states |
|---|---|---|
| Util.Clone | game2/src/util.js:1-26 | The input nodes are unchanged. `o2` is a new plain object at the first free address, even when `o1` is an array or a string. The call raises a TypeError exactly when `Object.keys(o1)` does (for `null` or `undefined`) or when cloning one of `o1`'s values does. Otherwise it returns `o2`, whose keys are `Object.keys(o1)` in order and whose values are the clones of `o1`'s values. Every node allocated refers only to allocated nodes and `o2`. |
| Util.DeepClone | game2/src/util.js:3-21 | The value `v === o1` becomes `o2` and allocates nothing. An array or object is copied by the branch for its kind. `null` raises the TypeError. Any other value is returned unchanged. The heap below the call is untouched, and the result is the IsCopy of `v`, built in the nodes allocated by the call. |
| Util.CloneArray | game2/src/util.js:6-11 | A new array of the input's length is allocated. Its element i is the clone of element i, built in index order in consecutive fresh ranges. The first element whose clone raises makes the whole call raise. |
| Util.CloneObject | game2/src/util.js:12-17 | A new plain object is allocated. Its keys are the input's keys in order, and each value is the clone of the input's value at that key. It raises exactly when one of those values raises. |
| Util.CopyEntries | game2/src/util.js:14-16 | The `forEach` over `Object.keys`: after it, the target holds all keys in order with their clones. It raises exactly when some value's clone raises. |
| Util.CopyProperty | game2/src/util.js:15 | The assignment `v2[k] = deepClone(v[k])` for the next key appends exactly one property, and the target is unchanged when the clone raises. |
| Util.PropertyStep | game2/src/util.js:15 | Assigning the next key's clone appends that property, and the copied prefix grows by one value. |
| JsHeap.OwnEntries | game2/src/util.js:22 | `Object.keys` with the values it leads to. It raises for `null` and `undefined` only. For an array and a string it gives the decimal indices with the elements or characters. For a number or a boolean it gives nothing. For a plain object it gives its properties. The keys are distinct. |
| JsHeap.Put | game2/src/util.js:15 | Property assignment: an existing key keeps its place and takes the new value, a new key goes last, and the other properties are untouched. |
| JsHeap.PutNextKey | game2/src/util.js:14-15 | Copying keys in the source's order, each assignment meets a key not yet present, so it appends. |
| JsHeap.IndexProps | game2/src/util.js:22 | The index keys of an array or a string are pairwise distinct, and they hold its elements in order. |
| JsHeap.DecimalStringInjective | game2/src/util.js:22 | Distinct array indices have distinct key names. |
| CloneProperties.CloneMirrors | game2/src/util.js:2-5 | Every path of positions that leads from `o1` to a value in the input leads from `o2` to its image. The image is `o2` exactly when the value is `o1`, at any depth. A primitive stays the same value. An array or object becomes a new node of the same kind, length and keys. |
| CloneProperties.FollowClones | game2/src/util.js:4-17 | Descending in step through a value and its clone keeps them related as clone and original, along any path. |
| CloneProperties.ClonesShape | game2/src/util.js:4-19 | A clone is `o2` exactly for the root. A non-root primitive is itself and is never `null`. An array or object becomes a new node of the same shape. |
| CloneProperties.RootChain | game2/src/util.js:22-24 | The values of an array or object root are cloned in order into consecutive new ranges, and `o2` holds the copies in the same positions. |
| CloneProperties.ReachableFresh | game2/src/util.js:7-17 | Every node reachable from `o2` after the clone was allocated by it, so no container of the input is reachable from the result. |
| CloneProperties.SharingNotPreserved | game2/src/util.js:7-15 | Two positions of a container that hold arrays or objects other than the root get two different copies, even when both hold the same input node. |
| CloneProperties.RootSharingNotPreserved | game2/src/util.js:22-23 | The same holds for two values of the root, which become two properties of `o2`. |
| CloneProperties.WalkCopy | game2/src/util.js:6-17 | Whatever a walk from a cloned value reaches, the same path from that value's copy reaches the clone of it. That clone was built in a sub-range of the value's range, which starts strictly above the value's copy when the walk descends. |
| CloneProperties.WalkCopyAt | game2/src/util.js:6-17 | When a walk from a cloned value reaches an array or object other than the root, the same path from the value's copy ends at a reference. That reference lies in the range the value's copy was built in, strictly above the copy itself when the walk descends. |
| CloneProperties.WalksDistinct | game2/src/util.js:6-17 | Two different walks from a cloned array or object that reach arrays or objects other than the root lead to two different copies, even when they reach the same input node from different containers. |
| CloneProperties.RootWalksDistinct | game2/src/util.js:6-24 | The same holds from `o2` for two different paths into `o1`'s values that keep off the root: `clone` keeps no table of copied nodes. |
| CloneExamples.NestedShared | game2/src/util.js:6-17 | `{a: x, b: {c: x}}` with `x = []` clones to an object whose `a` and `b.c` are two different arrays. |
| CloneProperties.RankDecreases | game2/src/util.js:4-17 | Along every descent that does not pass the root, the rank of the nodes strictly decreases. |
| CloneProperties.NoCycleAvoidsRoot | game2/src/util.js:4-17 | A descent that does not pass the root never comes back to the node it started from. |
| CloneProperties.CycleHasNoRank | game2/src/util.js:4-17 | `o1 = {a: x}` with `x = [x]` admits no rank, so `Clone` cannot be called on it. |
| CloneProperties.NullBeforeCycleHasNoRank | game2/src/util.js:22-24 | `o1 = {a: null, b: x}` with `x = [x]` admits no rank either, although the source raises the TypeError for `a` before it reaches `b`. |
| CloneProperties.ThrowsIffNull | game2/src/util.js:12-14 | Cloning a value raises the TypeError if and only if a descent from it that does not pass the root reaches a `null`. |
| CloneExamples.SelfReference | game2/src/util.js:4-5 | `{self: o1, n: 1}` clones to `o2 = {self: o2, n: 1}` and allocates nothing else. |
| CloneExamples.SharedChild | game2/src/util.js:12-17 | `{a: x, b: x}` with `x = []` clones to an object whose `a` and `b` are two different new arrays. |
| CloneExamples.ArrayRoot | game2/src/util.js:2 | `o1 = [1, o1]` clones to the plain object `{"0": 1, "1": o2}`. |
| CloneExamples.NullProperty | game2/src/util.js:12-14 | `{z: null}` raises the TypeError. |

## Left out

- Numbers are mathematical integers: NaN (which is not `===` to itself), `-0` and fractions are not modelled.
- Functions, Dates, Maps, symbols and other objects with prototypes are not modelled. Functions are passed through by reference because their `typeof` is `"function"`. For the other objects, `Object.keys` sees only their own enumerable keys. Symbol keys and non-index properties of arrays are not modelled either. The heap holds only arrays, plain objects and primitives.
- Arrays with holes in the input are not modelled. The new array copies every index, so it has none once the loop completes.
- The ordering rule of `Object.keys` that puts integer-like keys first is not modelled. An object's properties are kept in `Object.keys` order, and the copy assigns them in that order, so the copy lists them in the same order either way.
- Stack depth is not modelled. A cycle that avoids the root and that the traversal reaches makes the source recurse until the stack overflows. The `Ranked` precondition excludes every input with a cycle that is reachable from `o1`'s values without passing `o1` and that avoids the root, and `CloneProperties.CycleHasNoRank` shows such an input.
- Util.Clone: the `Ranked` precondition is stronger than what the source needs to terminate. It also excludes inputs where a cycle that avoids the root comes after a `null` in key order. For example, with `o1 = {a: null, b: x}` and `x = [x]`, the source raises the TypeError for `a` and never reaches `b`. The model does not cover such inputs, and `CloneProperties.NullBeforeCycleHasNoRank` shows this one admits no rank.
- The converse of the termination condition is not proved: that every heap whose cycles all pass through the root has a rank. The proof shows only that a rank gives termination.
- JsHeap.Put: the own key `"__proto__"` is not modelled. The source reads the own value, but assigning it to the fresh `{}` runs the prototype setter and adds no own key, so such a key would be missing from the copy. The model appends it like any other key. Accessor properties are not modelled either: an enumerable getter would run on the read `v[k]`, while the model's properties hold plain values.
- JsHeap.OwnEntries: a string is split into Unicode scalar values (Dafny's `char`), where `Object.keys` splits it into UTF-16 code units. A string root with a character outside the Basic Multilingual Plane gets one entry per character in the model and two in the source.
- elmish/webpack.config.js, game/webpack.config.js and game2/webpack.config.js are bundler configuration over foreign tools, and are not part of this model.
