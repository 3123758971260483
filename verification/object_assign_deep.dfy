/**
 Deep clone and deep merge of `ObjectAssignDeep.ts`: the type classifier
 `getTypeOf`, the cloners, the merge engine `executeDeepMerge` and its three
 entry points `objectAssignDeep`, `noMutate` and `withOptions`.

 Values are immutable here, so a clone is a value equal to its input and the
 merge returns the updated object instead of assigning into the target.
 */
module ObjectAssignDeep {
  import opened ArrayUtils
  import opened JsValues

  /** The tags `getTypeOf` can return. */
  const TypeTags: set<string> :=
    {"null", "undefined", "array", "object", "boolean", "number", "bigint", "string", "symbol", "function"}

  /**
   `getTypeOf`: `null` is recognised before the `typeof … === 'object'` check,
   arrays are told apart from other objects, and every primitive gets its
   `typeof` kind.
   */
  function TypeOf(input: Value): (tag: string)
    ensures tag in TypeTags
    ensures tag == "null" <==> input.Null?
    ensures tag == "undefined" <==> input.Undefined?
    ensures tag == "array" <==> input.Arr?
    ensures tag == "object" <==> input.Obj?
    ensures tag == "boolean" <==> input.Prim? && input.p.Boolean?
    ensures tag == "number" <==> input.Prim? && (input.p.Number? || input.p.NotANumber?)
    ensures tag == "bigint" <==> input.Prim? && input.p.BigInt?
    ensures tag == "string" <==> input.Prim? && input.p.Str?
    ensures tag == "symbol" <==> input.Prim? && input.p.Symbol?
    ensures tag == "function" <==> input.Prim? && input.p.Function?
  {
    match input
    case Null => "null"
    case Undefined => "undefined"
    case Arr(_) => "array"
    case Obj(_) => "object"
    case Prim(p) =>
      match p
      case Boolean(_) => "boolean"
      case Number(_) => "number"
      case NotANumber => "number"
      case BigInt(_) => "bigint"
      case Str(_) => "string"
      case Symbol(_) => "symbol"
      case Function(_) => "function"
  }

  /*
   Cloning. With immutable values a clone is structurally equal to its input:
   arrays keep their length and order, objects exactly their own properties.
   */

  /** `cloneValue` */
  function CloneValue(value: Value): (r: Value)
    ensures r == value
    decreases Size(value), 0
  {
    if TypeOf(value) == "object" then Obj(QuickCloneObject(value.fields))
    else if TypeOf(value) == "array" then Arr(QuickCloneArray(value.items))
    else value
  }

  /** `quickCloneArray`: `input.map(cloneValue)` */
  function QuickCloneArray(input: seq<Value>): (r: seq<Value>)
    ensures r == input
    decreases SizeSeq(input), 1
  {
    if |input| == 0 then []
    else [CloneValue(input[0])] + QuickCloneArray(input[1..])
  }

  /** `quickCloneObject`: every own property, with its value cloned. */
  function QuickCloneObject(input: seq<Entry>): (r: seq<Entry>)
    ensures r == input
    decreases SizeEntries(input), 1
  {
    if |input| == 0 then []
    else [Entry(input[0].key, CloneValue(input[0].value))] + QuickCloneObject(input[1..])
  }

  /*
   Options.
   */

  /**
   `_options.arrayBehaviour`, for options that are not `null`: `undefined`
   unless the options are an object holding that key, and then the value of
   its (first) property of that name.
   */
  function ArrayBehaviourOf(options: Value): (b: Value)
    ensures !options.Obj? || "arrayBehaviour" !in Keys(options.fields) ==> b == Undefined
    ensures options.Obj? && "arrayBehaviour" in Keys(options.fields) ==>
              b == options.fields[IndexOf(Keys(options.fields), "arrayBehaviour")].value
  {
    match options
    case Obj(fields) => Lookup(fields, "arrayBehaviour")
    case _ => Undefined
  }

  /**
   `_options.arrayBehaviour || 'replace'`: the behaviour the merge runs with.
   It is `'merge'` exactly when the caller asked for `'merge'`; anything else
   behaves as `'replace'`.
   */
  function NormalizedBehaviour(options: Value): (b: Value)
    ensures !Falsy(b)
    ensures b == Prim(Str("merge")) <==> ArrayBehaviourOf(options) == Prim(Str("merge"))
  {
    var requested := ArrayBehaviourOf(options);
    if Falsy(requested) then Prim(Str("replace")) else requested
  }

  /** The normalised options object `{arrayBehaviour: b}` that nested merges receive. */
  function OptionsObject(behaviour: Value): (options: Value)
    ensures !Falsy(behaviour) ==> NormalizedBehaviour(options) == behaviour
  {
    Obj([Entry("arrayBehaviour", behaviour)])
  }

  /**
   A value the merge accepts as target or source: `v || {}` is a plain object,
   so `v` is a plain object or falsy.
   */
  predicate Mergeable(v: Value) {
    OrEmpty(v).Obj?
  }

  /** `_objects.map(object => object || {})` */
  function OrEmptyAll(objects: seq<Value>): (r: seq<Value>)
    requires forall i | 0 <= i < |objects| :: Mergeable(objects[i])
    ensures |r| == |objects|
    ensures forall i | 0 <= i < |r| :: r[i].Obj? && r[i] == OrEmpty(objects[i])
    ensures SizeSeq(r) <= SizeSeq(objects)
  {
    if |objects| == 0 then []
    else
      var rest := OrEmptyAll(objects[1..]);
      assert Mergeable(objects[0]);
      var r := [OrEmpty(objects[0])] + rest;
      assert forall i | 1 <= i < |r| :: r[i] == rest[i - 1] && objects[1..][i - 1] == objects[i];
      assert r[1..] == rest;
      r
  }

  /*
   The merge engine. `executeDeepMerge` and the per-property rule call each
   other; the measure is the total size of what is still to be merged.
   */

  /** `executeDeepMerge(target, objects, options)` */
  function ExecuteDeepMerge(target: Value, objects: seq<Value>, options: Value): (r: Value)
    requires Mergeable(target)
    requires forall i | 0 <= i < |objects| :: Mergeable(objects[i])
    requires !options.Null?
    ensures r.Obj?
    ensures Keys(OrEmpty(target).fields) <= Keys(r.fields)
    ensures Size(r) + |objects| <= Size(target) + SizeSeq(objects)
    decreases Size(target) + SizeSeq(objects) - 1, 4, 0
  {
    var behaviour := NormalizedBehaviour(options);
    var objs := OrEmptyAll(objects);
    var output := OrEmpty(target).fields;
    Obj(MergeSources(output, objs, behaviour))
  }

  /** The outer loop over the sources, in order. */
  function MergeSources(output: seq<Entry>, objects: seq<Value>, behaviour: Value): (r: seq<Entry>)
    requires forall i | 0 <= i < |objects| :: objects[i].Obj?
    ensures Keys(output) <= Keys(r)
    ensures SizeEntries(r) + |objects| <= SizeEntries(output) + SizeSeq(objects)
    decreases SizeEntries(output) + SizeSeq(objects), 3, 0
  {
    if |objects| == 0 then output
    else
      assert SizeSeq(objects) == 1 + SizeEntries(objects[0].fields) + SizeSeq(objects[1..]);
      var next := MergeEntries(output, objects[0].fields, behaviour);
      MergeSources(next, objects[1..], behaviour)
  }

  /** The inner loop over the keys of one source, in enumeration order. */
  function MergeEntries(output: seq<Entry>, entries: seq<Entry>, behaviour: Value): (r: seq<Entry>)
    ensures Keys(output) <= Keys(r)
    ensures SizeEntries(r) <= SizeEntries(output) + SizeEntries(entries)
    decreases SizeEntries(output) + SizeEntries(entries), 2, |entries|
  {
    if |entries| == 0 then output
    else
      var key := entries[0].key;
      var existing := Lookup(output, key);
      LookupSize(output, key);
      var merged := Combine(existing, entries[0].value, behaviour);
      AssignSize(output, key, merged);
      MergeEntries(Assign(output, key, merged), entries[1..], behaviour)
  }

  /**
   The value the loop body assigns to `output[key]`, given the existing value
   (`undefined` when the key is absent) and the incoming one.
   */
  function Combine(existing: Value, value: Value, behaviour: Value): (r: Value)
    ensures TypeOf(r) == TypeOf(value)
    ensures Size(r) + 1 <= Size(existing) + Size(value)
    decreases Size(existing) + Size(value) + 1, 1, 0
  {
    var valueType := TypeOf(value);
    var existingValueType := TypeOf(existing);
    if valueType == "object" then
      if existingValueType != "undefined" then
        var existingValue := if existingValueType == "object" then existing else Obj([]);
        var incoming := Obj(QuickCloneObject(value.fields));
        SizeSeqPair(existingValue, incoming);
        ExecuteDeepMerge(Obj([]), [existingValue, incoming], OptionsObject(behaviour))
      else
        Obj(QuickCloneObject(value.fields))
    else if valueType == "array" then
      if existingValueType == "array" then
        var newValue := QuickCloneArray(value.items);
        SizeSeqAppend(existing.items, newValue);
        if behaviour == Prim(Str("merge")) then Arr(existing.items + newValue) else Arr(newValue)
      else
        Arr(QuickCloneArray(value.items))
    else
      value
  }

  /*
   Entry points.
   */

  /**
   `objectAssignDeep(target, ...objects)`: merge with the default options `{}`,
   that is, with arrays replaced rather than concatenated.
   */
  function ObjectAssignDeep(target: Value, objects: seq<Value>): (r: Value)
    requires Mergeable(target)
    requires forall i | 0 <= i < |objects| :: Mergeable(objects[i])
    ensures r.Obj?
    ensures r == ExecuteDeepMerge(target, objects, OptionsObject(Prim(Str("replace"))))
  {
    OptionsOnlyByBehaviour(target, objects, Obj([]), OptionsObject(Prim(Str("replace"))));
    ExecuteDeepMerge(target, objects, Obj([]))
  }

  /** `noMutate(...objects)`: `objectAssignDeep` into a fresh `{}`. */
  function NoMutate(objects: seq<Value>): (r: Value)
    requires forall i | 0 <= i < |objects| :: Mergeable(objects[i])
    ensures r == ObjectAssignDeep(Obj([]), objects)
  {
    ExecuteDeepMerge(Obj([]), objects, Obj([]))
  }

  /**
   `withOptions(target, objects, options)`. Reading `options.arrayBehaviour`
   throws when `options` is `null`; `undefined` falls back to the default `{}`.
   */
  function WithOptions(target: Value, objects: seq<Value>, options: Value): (r: Result<Value>)
    requires Mergeable(target)
    requires forall i | 0 <= i < |objects| :: Mergeable(objects[i])
    ensures r.TypeError? <==> options.Null?
    ensures r.Ok? ==> r.value.Obj?
    ensures options == Obj([]) || options == Undefined ==> r == Ok(ObjectAssignDeep(target, objects))
  {
    if options.Null? then TypeError("Cannot read properties of null (reading 'arrayBehaviour')")
    else
      OptionsOnlyByBehaviour(target, objects, options, Obj([]));
      Ok(ExecuteDeepMerge(target, objects, options))
  }

  /** The options reach the merge only through the normalised array behaviour. */
  lemma OptionsOnlyByBehaviour(target: Value, objects: seq<Value>, options: Value, other: Value)
    requires Mergeable(target)
    requires forall i | 0 <= i < |objects| :: Mergeable(objects[i])
    requires !options.Null? && !other.Null?
    ensures NormalizedBehaviour(options) == NormalizedBehaviour(other) ==>
              ExecuteDeepMerge(target, objects, options) == ExecuteDeepMerge(target, objects, other)
  {
  }
}
