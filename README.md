# Object helpers of `src/utils.js`, modelled and proved in Dafny

`src/utils.js` has four small helpers that build a new plain object from existing ones:

- `mapObj(fn, obj)` runs every property of `obj` through `fn`;
- `pick(keys, obj)` copies the listed properties that exist;
- `merge(a, b)` copies `a`, then `b`;
- `mergeAll(objs)` copies every object of an array, or a single object, in turn.

Each helper starts from a fresh `{}`. It fills it with `result[k] = v` inside `for` loops over `Object.keys` or over the given key list.

The model describes a plain object by its own enumerable string keys (`OrderedMaps.OMap`):

- `keys` is the enumeration order;
- `vals` maps each key to its value;
- `Valid` says every key is enumerated exactly once.

`OrderedMaps.Assign` is `result[k] = v`. A new key goes last. An existing key keeps its place and gets the new value.

Each helper is a `method` with the source's loops. Each loop updates a local `result` value with `Assign`. Every method is proved equal to a reference function:

- `Utils.MapObjSpec`
- `Utils.PickSpec`
- `Utils.MergeSpec`
- `Utils.MergeAllSpec`

These state the result directly: which keys, in which order, with which values. The lemmas about these functions prove:

- the properties the helpers' documentation promises;
- that well-formedness is preserved;
- how the helpers relate to one another.

`Sequences` holds the facts about key lists the proofs use: distinctness, filtering (`Keep`), first occurrences (`Dedup`) and first-occurrence order.

Files:

- `sequences.dfy`: module `Sequences`.
- `ordered_map.dfy`: module `OrderedMaps`, the object model and `result[k] = v`.
- `utils.dfy`: module `Utils`, the four helpers and their lemmas.

## Model

| member | source | states |
|---|---|---|
| OrderedMaps.Assign | src/utils.js:16 | after `m[k] = v`, `k` holds `v` and every other key keeps its value and membership; the existing keys keep their positions, and a new key is enumerated last |
| OrderedMaps.AssignValid | src/utils.js:16 | assigning a property keeps an object well formed: no key is enumerated twice and the enumerated keys are exactly the properties |
| OrderedMaps.AssignTwice | src/utils.js:76 | assigning the same key twice leaves the second value, at the position the first assignment gave the key |
| OrderedMaps.TakeStep | src/utils.js:13-16 | copying the key at loop index n onto the first n properties of an object gives its first n + 1 properties; this is the step of `mapObj`'s loop, and `Utils.MergeStep` builds on its two halves |
| Utils.MapObj | src/utils.js:10-20 | the result has exactly `obj`'s keys, in `obj`'s order; each value is `fn(obj[k], k, obj)`; the ghost trace `calls` lists each key's (value, name) pair in key order; the result equals `MapObjSpec` and is well formed |
| Utils.MapObjEmpty | src/utils.js:10-20 | mapping an object without properties gives an object without properties |
| Utils.MapObjIdentity | src/utils.js:10-20 | mapping with `(v) => v` gives a copy with the same keys, order and values |
| Utils.Pick | src/utils.js:29-39 | a key is in the result if and only if it is listed and is a property of `obj`; its value is `obj`'s; the result's keys are the first occurrences of the listed keys, restricted to those `obj` has; the result equals `PickSpec` and is well formed |
| Utils.PickValid | src/utils.js:29-39 | the picked object is well formed for every key list, duplicates included |
| Utils.PickOrder | src/utils.js:32-34 | the result's keys appear in the order of their first occurrence in `keys` |
| Utils.PickRepeat | src/utils.js:32-34 | listing a key again, anywhere after its first listing, changes nothing: duplicates collapse to one entry |
| Utils.PickFacts | src/utils.js:29-39 | the picked object is well formed; a key is in it if and only if it is listed and `obj` has it; its value is `obj`'s; its keys are the first occurrences of the listed keys that `obj` has |
| Utils.PickDistinct | src/utils.js:32-34 | with no repeated names, the result's keys are the listed keys that `obj` has, in the order of `keys` |
| Utils.PickEmpty | src/utils.js:29-39 | an empty key list picks an empty object, whatever `obj` is |
| Utils.Merge | src/utils.js:48-60 | the result has the keys of `a` and of `b`; `b`'s value wins on a shared key, and `a`'s value is kept otherwise; the keys are `a`'s keys, then `b`'s keys that `a` lacks, in `b`'s order; the result equals `MergeSpec` and is well formed |
| Utils.MergeValid | src/utils.js:48-60 | merging two well-formed objects gives a well-formed object |
| Utils.MergeEmptyRight | src/utils.js:48-60 | `merge(a, {})` is a copy of `a` |
| Utils.MergeEmptyLeft | src/utils.js:48-60 | `merge({}, b)` is a copy of `b` |
| Utils.MergeFacts | src/utils.js:48-60 | the merged object is well formed, has the keys of both objects, takes `b`'s value for every key of `b` and `a`'s value for the others |
| Utils.CopyFromMerge | src/utils.js:75-77 | copying the first n properties of `b` one at a time onto `m` gives `merge(m, first n properties of b)` |
| Utils.CopyFromAll | src/utils.js:73-77 | copying every property of `b` onto `m` gives `merge(m, b)`, so each pass of the outer loop merges one list element in |
| Utils.MergeKeySet | src/utils.js:48-60 | the result's key set is the union of the two key sets |
| Utils.MergeAssoc | src/utils.js:48-60 | `merge(merge(a, b), c)` equals `merge(a, merge(b, c))`, in keys, order and values |
| Utils.MergeAll | src/utils.js:67-81 | the result is the left fold of `merge` over the list, starting from `{}`; a single object gives a copy of it; an empty array gives `{}`; the keys are the first occurrences of all elements' keys in list order; the result is well formed |
| Utils.MergeAllFacts | src/utils.js:67-81 | the merged object is well formed; a single object gives a copy of it; an empty array gives `{}`; the keys come in the order of their first appearance across the elements |
| Utils.MergeAllValid | src/utils.js:67-81 | merging well-formed objects gives a well-formed object |
| Utils.MergeAllSingle | src/utils.js:68 | `mergeAll([x])`, which is also what a non-array `x` becomes, is a copy of `x` |
| Utils.MergeAllThree | src/utils.js:67-81 | `mergeAll([a, b, c])` equals `merge(merge(a, b), c)` |
| Utils.MergeAllConcat | src/utils.js:72-78 | merging the concatenation of two lists is merging the results of the two lists |
| Utils.MergeAllKeySet | src/utils.js:72-78 | a key is in the result if and only if some element of the list has it |
| Utils.MergeAllLastWins | src/utils.js:76 | a key's value comes from the last element of the list that has the key |
| Utils.MergeAllKeys | src/utils.js:72-78 | the result enumerates the keys in the order they first appear across the elements' key lists |

## Left out

- Inherited properties are not modelled: the model sees only an object's own keys. `pick` tests `keys[i] in obj` (src/utils.js:33), which in JavaScript also accepts a name found on the prototype chain and then copies the inherited value. `Utils.Pick` accepts own keys only.
- `Object.keys` lists integer-like keys first, in ascending numeric order. The model does not single such keys out: a name like "1" is enumerated in insertion order, where JavaScript lists it first. For example, `merge({b: 1}, {"1": 2})` enumerates `["1", "b"]` in JavaScript and `["b", "1"]` in `Utils.MergeSpec`.
- `null`, `undefined` and non-object arguments are not modelled. In JavaScript `Object.keys` throws on them, or a primitive becomes a wrapper object. Every argument here is a well-formed object. `Utils.MapObj`, `Utils.Merge` and `Utils.MergeAll` require this; `Utils.Pick` works for any object.
- MapObj: `fn` is a pure, total function of `(value, key, obj)`. Side effects of `fn`, exceptions it throws, and its changes to `obj` while the loop runs are not modelled. Because `fn` is pure, how many times and in what order it is called cannot be observed, so the model does not state it. The ghost trace `calls` records only the (value, name) pairs the loop visits, in key order.
- Copies are shallow in the source, and values are shared with the inputs. The model treats values as opaque, so neither sharing nor later mutation through a shared value is represented.
- `result` is a fresh object local to each helper, so nothing else can observe or alias it. The model keeps it as a local value reassigned by `Assign` rather than as a heap object.
- Property attributes are not modelled: getters and setters, non-enumerable properties, symbol keys and `__proto__` assignment.
