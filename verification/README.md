# Deep merge, array and string helpers — a Dafny model

This project models the value-transforming core of a small TypeScript utility
library:

- **`ObjectAssignDeep.ts`** has several parts:
  - the type classifier `getTypeOf`;
  - the recursive cloners `cloneValue`, `quickCloneArray` and `quickCloneObject`;
  - the merge engine `executeDeepMerge`, which folds a list of sources into a target key by key;
  - its three entry points `objectAssignDeep`, `noMutate` and `withOptions`.
- **`ArrayUtils.ts`** has `getUniqueItems`, which removes duplicates and keeps first occurrences, and `getCommon`, an order-preserving de-duplicated intersection.
- **`StringUtils.ts`** has `ucfirst` and `camelToUnderscore`.

JavaScript values are the datatype `JsValues.Value`:

- `null`, `undefined`, a primitive, an array (`seq<Value>`), or a plain object.
- A plain object is an ordered list of own enumerable properties in insertion order.
- Reading a property (`o[k]`) is `JsValues.Lookup`. It gives `undefined` for a missing key.
- Assigning a property (`o[k] = v`) is `JsValues.Assign`. An existing key keeps its place; a new key is appended.
- A real object never holds a key twice. This is the predicate `UniqueKeys`, and the lemmas that depend on it require it.

Values are immutable:

- A clone is a value equal to its input.
- The merge returns the updated object.

The code, in fact, assigns into the target and returns that same object (`output = target || {}`). The doc comment of `objectAssignDeep` (ObjectAssignDeep.ts:92-98) says the first argument is not mutated. The model follows the code: the result is the target with the sources merged in.

The merge engine is four mutually recursive functions, following the code's loops:

- `ExecuteDeepMerge` normalises the options and the arguments.
- `MergeSources` is the loop over sources.
- `MergeEntries` is the loop over one source's keys.
- `Combine` is the per-property rule. Its object-onto-object case calls `ExecuteDeepMerge` again, with the normalised options object `{arrayBehaviour: b}`.

Termination uses a structural size measure.

Module `MergeProperties` describes the merge without its loops:

- The result's keys are `getUniqueItems(targetKeys ++ sourceKeys)`.
- The value at each key is the per-property rule folded over the values the sources give for that key, in order.
- The per-property rule is described case by case.

`camelToUnderscore` is modelled as written, as `split(/(?=[A-Z])/).join('_').toLowerCase()`:

- The split follows the loop of the `RegExp.prototype[@@split]` algorithm of ECMA-262 (section 21.2.5.11 of the 6th edition).
- An empty look-ahead match at the start of the current piece does not cut.
- The model is proved equal to a simple reference: keep the first character, insert `_` before every later upper-case letter, and lower-case the result.

Failures:

- `withOptions` with a `null` options argument throws a `TypeError` when it reads `arrayBehaviour`. The model returns that as a `Result` value.
- `quickCloneObject` calls `input.hasOwnProperty(key)`. An object whose own `hasOwnProperty` property is not a function makes that call throw. The model does not have this failure; see "## Left out".

Every falsy source (`0`, `''`, `false`, `NaN`, `0n`, not only `null` and `undefined`) is treated as `{}`, as `object || {}` at ObjectAssignDeep.ts:55 does.

## Model

| member | source | states |
|---|---|---|
| `ArrayUtils.IndexOf` | ArrayUtils.ts:3 | `indexOf`: `-1` exactly when the element is absent, otherwise an index holding it with no earlier occurrence |
| `ArrayUtils.FirstOccurrences` | ArrayUtils.ts:3 | the filter `arr.indexOf(item) === i` over the first `n` indices keeps distinct elements, each at its first index; every element seen so far is kept, in first-occurrence order |
| `ArrayUtils.GetUniqueItems` | ArrayUtils.ts:2-4 | no duplicates; exactly the elements of the input (both directions); listed in the order of their first occurrence in the input |
| `ArrayUtils.GetUniqueItemsOfDistinct` | ArrayUtils.ts:3 | on input without duplicates the result is the input itself |
| `ArrayUtils.GetUniqueItemsIdempotent` | ArrayUtils.ts:3 | applying `getUniqueItems` twice is the same as once |
| `ArrayUtils.CommonCandidates` | ArrayUtils.ts:12-15 | the pushed array holds only elements of both arrays and every element of `left` that `right` contains |
| `ArrayUtils.CommonCandidatesOrder` | ArrayUtils.ts:12-15 | the push loop keeps the relative order of first occurrences in `left` |
| `ArrayUtils.GetCommon` | ArrayUtils.ts:9-18 | every element is in both arrays; every element of `left` found in `right` is present, exactly once; order of first occurrence in `left`; `[]` when either argument is empty |
| `JsValues.Keys` | ObjectAssignDeep.ts:61 | `Object.keys`: one key per property, in enumeration order |
| `JsValues.OrEmpty` | ObjectAssignDeep.ts:55-56 | `v \|\| {}`: the result is never falsy; a truthy value, in particular any object, is kept, and a falsy one becomes `{}` |
| `JsValues.Lookup` | ObjectAssignDeep.ts:65-67 | reading a key the object does not have gives `undefined`; otherwise the value of the first property with that key |
| `JsValues.Assign` | ObjectAssignDeep.ts:72-84 | `output[key] = v`: the key list is unchanged when the key exists and gains the key at the end otherwise; reading the key back gives `v` |
| `JsValues.AssignOther` | ObjectAssignDeep.ts:72-84 | assigning one key leaves every other key's value unchanged |
| `ObjectAssignDeep.TypeOf` | ObjectAssignDeep.ts:7-13 | one tag from the fixed set; `'null'`, `'undefined'`, `'array'`, `'object'` each exactly for their kind of value, and every primitive gets its `typeof` kind (`'boolean'`, `'number'` for numbers and `NaN`, `'bigint'`, `'string'`, `'symbol'`, `'function'`), each tag exactly for its kind |
| `ObjectAssignDeep.CloneValue` | ObjectAssignDeep.ts:19-24 | the clone is structurally equal to the input, so cloning twice is cloning once |
| `ObjectAssignDeep.QuickCloneArray` | ObjectAssignDeep.ts:30-32 | the cloned array has the input's length and elements, in order |
| `ObjectAssignDeep.QuickCloneObject` | ObjectAssignDeep.ts:38-46 | the cloned object has exactly the input's own properties, in order, with equal values |
| `ObjectAssignDeep.ArrayBehaviourOf` | ObjectAssignDeep.ts:51 | `_options.arrayBehaviour`: `undefined` for options that are not an object or lack the key, otherwise the value of the first property of that name; `NormalizedBehaviour` states what the merge makes of it |
| `ObjectAssignDeep.NormalizedBehaviour` | ObjectAssignDeep.ts:50-52 | the behaviour the merge runs with is never falsy, and it is `'merge'` exactly when the caller asked for `'merge'` |
| `ObjectAssignDeep.OptionsObject` | ObjectAssignDeep.ts:50-52 | the options object passed to nested merges normalises back to the same behaviour |
| `ObjectAssignDeep.OptionsOnlyByBehaviour` | ObjectAssignDeep.ts:49-52 | two options values with the same normalised behaviour give the same merge |
| `ObjectAssignDeep.OrEmptyAll` | ObjectAssignDeep.ts:55 | every source becomes a plain object: itself when truthy, `{}` when falsy |
| `ObjectAssignDeep.ExecuteDeepMerge` | ObjectAssignDeep.ts:49-90 | the result is always a plain object, and the keys of `target \|\| {}` stay at its front in their order; what it holds is stated by `MergeProperties.DeepMergeCharacterisation` |
| `ObjectAssignDeep.MergeSources` | ObjectAssignDeep.ts:59-61 | the loop over sources keeps the existing keys at the front in their order; `MergeProperties.MergeSourcesFlatten` reduces it to one key loop |
| `ObjectAssignDeep.MergeEntries` | ObjectAssignDeep.ts:63-67 | the loop over one source's keys keeps the existing keys at the front in their order; `MergeProperties.MergeEntriesKeys` and `MergeProperties.MergeEntriesLookup` give its keys and values |
| `ObjectAssignDeep.Combine` | ObjectAssignDeep.ts:69-85 | the value assigned to `output[key]` always has the type tag of the incoming value; the `MergeProperties.Combine*` lemmas give it case by case |
| `ObjectAssignDeep.ObjectAssignDeep` | ObjectAssignDeep.ts:99-101 | a plain object: the merge with the behaviour `'replace'` that the default options `{}` normalise to |
| `ObjectAssignDeep.NoMutate` | ObjectAssignDeep.ts:107-109 | `noMutate(...xs)` equals `objectAssignDeep({}, ...xs)` |
| `ObjectAssignDeep.WithOptions` | ObjectAssignDeep.ts:115-117 | for a sequence of sources, throws `TypeError` exactly when options is `null`; otherwise a plain object; with options `{}` or `undefined` it equals `objectAssignDeep(target, ...objects)` |
| `MergeProperties.MergeSourcesFlatten` | ObjectAssignDeep.ts:59-67 | the two nested loops are one loop over all properties of all sources in order |
| `MergeProperties.MergeEntriesKeys` | ObjectAssignDeep.ts:63-67 | after the key loop the keys are the old keys followed by each new key at its first appearance |
| `MergeProperties.MergeEntriesLookup` | ObjectAssignDeep.ts:63-67 | after the key loop a key holds the per-property rule folded over the values assigned to it, starting from its old value |
| `MergeProperties.DeepMergeCharacterisation` | ObjectAssignDeep.ts:49-90 | the whole merge: keys of `target \|\| {}` then new source keys in first-appearance order; at each key the rule folded over the sources' values for it |
| `MergeProperties.AppendNewKeysIsUnique` | ObjectAssignDeep.ts:56-67 | appending new keys one by one to a duplicate-free key list equals `getUniqueItems` of the concatenation |
| `MergeProperties.DeepMergeKeys` | ObjectAssignDeep.ts:56-67 | result keys are `getUniqueItems(targetKeys ++ sourceKeys)`: the target's keys stay in front in their order, no key repeats |
| `MergeProperties.DeepMergeUntouched` | ObjectAssignDeep.ts:56-67 | a target key that no source names keeps its value |
| `MergeProperties.DeepMergeLastWriteWins` | ObjectAssignDeep.ts:83-85 | when the last value given for a key is not an object or array (including `null` and `undefined`), the key is present and holds exactly that value |
| `MergeProperties.ObjectAssignDeepReplacesArrays` | ObjectAssignDeep.ts:76-82 | under `objectAssignDeep`, whose options default to `'replace'` (line 51), the last array given for a key replaces whatever was there; it is never concatenated |
| `MergeProperties.MergeEmptySources` | ObjectAssignDeep.ts:59-61 | merging only empty objects leaves the output as it was |
| `MergeProperties.DeepMergeFalsySources` | ObjectAssignDeep.ts:55-61 | with no sources or only falsy ones the result is `target \|\| {}`, so a falsy target becomes `{}` |
| `MergeProperties.MergeEntriesFresh` | ObjectAssignDeep.ts:73-75 | properties with new, distinct keys are appended unchanged |
| `MergeProperties.MergeIntoEmpty` | ObjectAssignDeep.ts:63-67 | merging an object's properties into `{}` reproduces the object |
| `MergeProperties.ExecuteDeepMergePair` | ObjectAssignDeep.ts:72 | the nested merge of `[existing, incoming]` into `{}` is the key loop over `existing`, then over `incoming` |
| `MergeProperties.MergePairIntoEmpty` | ObjectAssignDeep.ts:72 | the nested merge equals merging the incoming object's properties into the existing object, with the same behaviour |
| `MergeProperties.CombineNonContainer` | ObjectAssignDeep.ts:83-85 | an incoming value that is not an object or array replaces whatever was there |
| `MergeProperties.CombineObjectOntoNonObject` | ObjectAssignDeep.ts:69-75 | an incoming object onto anything that is not an object (primitive, `null`, `undefined`, array) gives a copy of the incoming object |
| `MergeProperties.CombineObjectOntoObject` | ObjectAssignDeep.ts:69-72 | object onto object: both sides' keys survive, existing first; at a key the incoming object names, the rule applies recursively, and other keys keep their existing value |
| `MergeProperties.CombineArray` | ObjectAssignDeep.ts:76-82 | array onto array with `'merge'` gives existing elements then incoming ones, lengths added; otherwise, or onto a non-array, a copy of the incoming array |
| `StringUtils.UpperChar` | StringUtils.ts:4 | `toUpperCase` of one character: the result is never a lower-case letter; a lower-case letter becomes the upper-case letter at the same alphabet position; any other character is kept |
| `StringUtils.LowerChar` | StringUtils.ts:14 | `toLowerCase` of one character: the result is never an upper-case letter; an upper-case letter becomes the lower-case letter at the same alphabet position; any other character is kept |
| `StringUtils.CaseRoundTrip` | StringUtils.ts:4-14 | the two case maps undo each other on the letters they change |
| `StringUtils.ToLower` | StringUtils.ts:14 | the same length, each character lower-cased, no upper-case letter left |
| `StringUtils.ToLowerIdentity` | StringUtils.ts:14 | lower-casing leaves a string unchanged exactly when it holds no upper-case letter |
| `StringUtils.Ucfirst` | StringUtils.ts:2-5 | the same length; the first character upper-cased; every character from index 1 kept; `''` gives `''` |
| `StringUtils.UcfirstOnlyRecases` | StringUtils.ts:4 | `ucfirst` changes nothing but the case of the first character |
| `StringUtils.UcfirstIdempotent` | StringUtils.ts:2-5 | applying `ucfirst` twice is the same as once |
| `StringUtils.SplitLoop` | StringUtils.ts:14 | `split(/(?=[A-Z])/)` as the `@@split` loop: always at least one piece; `StringUtils.SplitLoopShape` states what the pieces are |
| `StringUtils.Join` | StringUtils.ts:14 | `join(sep)`: no pieces give `''`, one piece is itself; with an empty separator it is the concatenation of the pieces |
| `StringUtils.JoinAppend` | StringUtils.ts:14 | joining two non-empty runs of pieces is the first join, one separator, then the second join; with the one-piece case this fixes `join` for any separator |
| `StringUtils.JoinLength` | StringUtils.ts:14 | a join is as long as its pieces plus one separator fewer than there are pieces |
| `StringUtils.SplitLoopShape` | StringUtils.ts:14 | the split pieces concatenate back to the input; none is empty; each piece after the first starts with an upper-case letter; no piece has an upper-case letter after its first character |
| `StringUtils.JoinSplitLoop` | StringUtils.ts:14 | joining the split with `_` equals the input with `_` inserted before each upper-case letter, except at index 0 (the start of the first piece) |
| `StringUtils.CamelToUnderscore` | StringUtils.ts:10-18 | no upper-case letter in the output; `''` gives `''` |
| `StringUtils.CamelToUnderscoreReference` | StringUtils.ts:10-18 | equals the reference: first character kept, `_` before every later upper-case letter, all lower-cased |
| `StringUtils.CamelToUnderscoreLength` | StringUtils.ts:14 | the output is longer than the input by the number of upper-case letters after index 0 |
| `StringUtils.CamelToUnderscoreNoUpper` | StringUtils.ts:11-17 | a string without upper-case letters comes back unchanged |

## Left out

- `ArrayUtils.getRandom` is not modelled. It depends on `Math.random` and on float-to-integer truncation.
- `ObjectUtils.freezeDeep` is not modelled. Its only effect is the runtime frozen flag on heap objects.
- Reference identity and in-place mutation are not modelled. Values are immutable, so "the target is returned and updated in place" and "the clone shares no references" have no meaning here. The merge returns the updated value. This changes results when an argument is aliased. Take `a = {x: [1]}` and `b = {x: [2]}`; then `withOptions(a, [b, a], {arrayBehaviour: 'merge'})` gives `x = [1, 2, 1, 2]` in the code, because the second source is the already-updated `a`. The model reads each source as it was passed and gives `[1, 2, 1]`.
- A `TypeError` from `quickCloneObject` is not modelled. It happens for an object whose own `hasOwnProperty` property is not a function (ObjectAssignDeep.ts:42), as in `objectAssignDeep({}, {a: {hasOwnProperty: 1}})`. The model has no methods on values and returns the merged object.
- MergeSources: its own contract states only that existing keys stay in front, plus a size bound used for termination. The full statement is `MergeProperties.MergeSourcesFlatten` together with the key-loop lemmas.
- MergeEntries: its own contract states only that existing keys stay in front, plus a size bound. Its keys and values are stated by `MergeProperties.MergeEntriesKeys` and `MergeProperties.MergeEntriesLookup`.
- Combine: its own contract states only that the result keeps the incoming value's type tag, plus a size bound. The values are stated case by case by `MergeProperties.CombineNonContainer`, `MergeProperties.CombineObjectOntoNonObject`, `MergeProperties.CombineObjectOntoObject` and `MergeProperties.CombineArray`.
- SplitLoop: its own contract states only that there is at least one piece. What the pieces are is stated by `StringUtils.SplitLoopShape`.
- ExecuteDeepMerge: its own contract states only that the result is a plain object that keeps the target's keys in front, plus a size bound used for termination. What the result holds is stated by `MergeProperties.DeepMergeCharacterisation` and the lemmas after it. It also requires the target and every source to be a plain object or falsy. Truthy primitives and arrays as top-level arguments are excluded, because `Object.keys` of a string, or the in-place assignment into an array target, is host-object behaviour outside this value model.
- ObjectAssignDeep: same restriction on its arguments as `ExecuteDeepMerge`.
- NoMutate: same restriction on its arguments as `ExecuteDeepMerge`.
- WithOptions: same restriction on its arguments as `ExecuteDeepMerge`. An `objects` argument of `undefined`, which the engine defaults to `[]`, is not modelled; the model takes a sequence. For the same reason the `TypeError` thrown for an `objects` argument of `null`, or of any value without a `map` method such as a plain object, at `_objects.map` (ObjectAssignDeep.ts:55) is not modelled.
- CombineObjectOntoNonObject: requires the incoming object's keys to be distinct. Every JavaScript object satisfies this; the datatype alone does not enforce it.
- CombineObjectOntoObject: requires distinct keys on both objects, for the same reason.
- The prototype chain, `hasOwnProperty`, and special keys such as `__proto__` are not modelled. Every property is an own enumerable string key.
- JavaScript's enumeration order puts integer-like keys first. The model enumerates keys in insertion order only.
- Class instances (`Date`, `Map`, …) are not modelled. `typeof` reports them as `'object'`, and the code treats them like plain objects.
- Cyclic structures are not modelled. Datatype values are finite and acyclic, and the code does not terminate on cycles.
- The model's equality is structural. JavaScript's `===` compares floats (`NaN !== NaN`) and compares objects by reference. So `getUniqueItems` and `getCommon` are modelled with element equality, and numbers are modelled as reals without infinities.
- Case mapping is ASCII only. Full Unicode `toUpperCase` and `toLowerCase` can change the length of a string (`ß` → `SS`). The `A-Z` character class of the split pattern is exactly ASCII, as modelled.
- The `catch` branch of `camelToUnderscore` is not modelled. For a string argument nothing in the `try` block throws, so the branch is unreachable.
