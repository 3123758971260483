/**
 What `executeDeepMerge` computes, stated without reference to its loops.

 The result's keys are the target's keys followed by every new source key in
 order of first appearance, and the value at each key is obtained by folding
 the per-property rule `Combine` over the values the sources give for that
 key, in order. The per-property rule itself is described case by case:
 last write wins for non-containers, objects merge recursively, arrays are
 replaced or concatenated.
 */
module MergeProperties {
  import opened ArrayUtils
  import opened JsValues
  import opened ObjectAssignDeep

  /** The properties of all sources, source after source. */
  function AllEntries(objects: seq<Value>): seq<Entry>
    requires forall i | 0 <= i < |objects| :: objects[i].Obj?
  {
    if |objects| == 0 then [] else objects[0].fields + AllEntries(objects[1..])
  }

  /** The values the properties `es` give for key `k`, in order. */
  function ValuesFor(es: seq<Entry>, k: string): (vs: seq<Value>)
    ensures |vs| == 0 <==> k !in Keys(es)
  {
    if |es| == 0 then []
    else
      assert Keys(es) == [es[0].key] + Keys(es[1..]);
      (if es[0].key == k then [es[0].value] else []) + ValuesFor(es[1..], k)
  }

  /** Applying the per-property rule for each incoming value in turn. */
  function FoldCombine(existing: Value, incoming: seq<Value>, behaviour: Value): Value
    decreases |incoming|
  {
    if |incoming| == 0 then existing
    else FoldCombine(Combine(existing, incoming[0], behaviour), incoming[1..], behaviour)
  }

  /**
   The key list after assigning every key of `newKeys` in turn: existing
   keys keep their position, new ones are appended in order of first
   appearance.
   */
  function AppendNewKeys(ks: seq<string>, newKeys: seq<string>): (r: seq<string>)
    ensures ks <= r
    ensures forall x :: x in r <==> x in ks || x in newKeys
    ensures Distinct(ks) ==> Distinct(r)
    decreases |newKeys|
  {
    if |newKeys| == 0 then ks
    else
      var r := AppendNewKeys(AddKey(ks, newKeys[0]), newKeys[1..]);
      assert newKeys == [newKeys[0]] + newKeys[1..];
      r
  }

  /*
   Fold fusion: the two nested loops are one loop over all properties.
   */

  lemma {:induction false} MergeEntriesAppend(output: seq<Entry>, a: seq<Entry>, c: seq<Entry>, behaviour: Value)
    ensures MergeEntries(output, a + c, behaviour) == MergeEntries(MergeEntries(output, a, behaviour), c, behaviour)
    decreases |a|
  {
    if |a| == 0 {
      assert a + c == c;
    } else {
      assert (a + c)[0] == a[0];
      assert (a + c)[1..] == a[1..] + c;
      var key := a[0].key;
      var next := Assign(output, key, Combine(Lookup(output, key), a[0].value, behaviour));
      MergeEntriesAppend(next, a[1..], c, behaviour);
    }
  }

  /** The outer loop over sources is the inner loop over all their properties. */
  lemma {:induction false} MergeSourcesFlatten(output: seq<Entry>, objects: seq<Value>, behaviour: Value)
    requires forall i | 0 <= i < |objects| :: objects[i].Obj?
    ensures MergeSources(output, objects, behaviour) == MergeEntries(output, AllEntries(objects), behaviour)
    decreases |objects|
  {
    if |objects| > 0 {
      var next := MergeEntries(output, objects[0].fields, behaviour);
      MergeSourcesFlatten(next, objects[1..], behaviour);
      MergeEntriesAppend(output, objects[0].fields, AllEntries(objects[1..]), behaviour);
    }
  }

  /*
   Keys and values of the merged object.
   */

  lemma {:induction false} MergeEntriesKeys(output: seq<Entry>, entries: seq<Entry>, behaviour: Value)
    ensures Keys(MergeEntries(output, entries, behaviour)) == AppendNewKeys(Keys(output), Keys(entries))
    decreases |entries|
  {
    if |entries| > 0 {
      var key := entries[0].key;
      var next := Assign(output, key, Combine(Lookup(output, key), entries[0].value, behaviour));
      assert MergeEntries(output, entries, behaviour) == MergeEntries(next, entries[1..], behaviour);
      MergeEntriesKeys(next, entries[1..], behaviour);
      assert Keys(next) == AddKey(Keys(output), key);
      KeysCons(entries);
      assert AppendNewKeys(Keys(output), Keys(entries))
          == AppendNewKeys(AddKey(Keys(output), key), Keys(entries[1..]));
    }
  }

  lemma {:induction false} MergeEntriesLookup(output: seq<Entry>, entries: seq<Entry>, behaviour: Value, k: string)
    ensures Lookup(MergeEntries(output, entries, behaviour), k)
         == FoldCombine(Lookup(output, k), ValuesFor(entries, k), behaviour)
    decreases |entries|
  {
    if |entries| > 0 {
      var key := entries[0].key;
      var next := Assign(output, key, Combine(Lookup(output, key), entries[0].value, behaviour));
      MergeEntriesLookup(next, entries[1..], behaviour, k);
      if key == k {
        assert ValuesFor(entries, k) == [entries[0].value] + ValuesFor(entries[1..], k);
      } else {
        AssignOther(output, key, Combine(Lookup(output, key), entries[0].value, behaviour), k);
        assert ValuesFor(entries, k) == ValuesFor(entries[1..], k);
      }
    }
  }

  /**
   The whole merge, characterised: with `base` the target's properties
   (`target || {}`), `incoming` all properties of the sources (each
   `source || {}`) and `b` the normalised array behaviour, the result holds
   the keys of `base` followed by the new keys of `incoming` in order of first
   appearance, and at each key the per-property rule folded over the values
   the sources give for it.
   */
  lemma DeepMergeCharacterisation(target: Value, objects: seq<Value>, options: Value, k: string)
    requires Mergeable(target)
    requires forall i | 0 <= i < |objects| :: Mergeable(objects[i])
    requires !options.Null?
    ensures var r := ExecuteDeepMerge(target, objects, options);
            var base := OrEmpty(target).fields;
            var incoming := AllEntries(OrEmptyAll(objects));
            && Keys(r.fields) == AppendNewKeys(Keys(base), Keys(incoming))
            && Lookup(r.fields, k) == FoldCombine(Lookup(base, k), ValuesFor(incoming, k), NormalizedBehaviour(options))
  {
    var base := OrEmpty(target).fields;
    var objs := OrEmptyAll(objects);
    var b := NormalizedBehaviour(options);
    MergeSourcesFlatten(base, objs, b);
    MergeEntriesKeys(base, AllEntries(objs), b);
    MergeEntriesLookup(base, AllEntries(objs), b, k);
  }

  /** `AppendNewKeys` over a duplicate-free start is `getUniqueItems` of the concatenation. */
  lemma AppendNewKeysIsUnique(ks: seq<string>, newKeys: seq<string>)
    requires Distinct(ks)
    ensures AppendNewKeys(ks, newKeys) == GetUniqueItems(ks + newKeys)
  {
    var all := ks + newKeys;
    assert forall j | 0 <= j < |ks| :: all[j] == ks[j];
    FirstOccurrencesOfPrefix(ks, all, |ks|);
    assert ks[..|ks|] == ks;
    AppendNewKeysFromPrefix(all, |ks|);
    assert all[|ks|..] == newKeys;
  }

  /** On a duplicate-free prefix the `getUniqueItems` filter keeps everything. */
  lemma {:induction false} FirstOccurrencesOfPrefix(ks: seq<string>, all: seq<string>, m: nat)
    requires Distinct(ks) && |ks| <= |all| && m <= |ks|
    requires forall j | 0 <= j < |ks| :: all[j] == ks[j]
    ensures FirstOccurrences(all, m) == ks[..m]
  {
    if m > 0 {
      FirstOccurrencesOfPrefix(ks, all, m - 1);
      var x := all[m - 1];
      assert IndexOf(all, x) == m - 1;
      TakeSnoc(ks, m);
    }
  }

  /** Running `AddKey` from the first-occurrence prefix of length `n` finishes the filter. */
  lemma {:induction false} AppendNewKeysFromPrefix(all: seq<string>, n: nat)
    requires n <= |all|
    ensures AppendNewKeys(FirstOccurrences(all, n), all[n..]) == FirstOccurrences(all, |all|)
    decreases |all| - n
  {
    if n < |all| {
      var prefix := FirstOccurrences(all, n);
      assert all[n..][0] == all[n];
      assert all[n..][1..] == all[n + 1..];
      assert AppendNewKeys(prefix, all[n..]) == AppendNewKeys(AddKey(prefix, all[n]), all[n + 1..]);
      AddKeyFirstOccurrence(all, n);
      AppendNewKeysFromPrefix(all, n + 1);
    }
  }

  /** One step of the filter is one `AddKey`. */
  lemma AddKeyFirstOccurrence(all: seq<string>, n: nat)
    requires n < |all|
    ensures AddKey(FirstOccurrences(all, n), all[n]) == FirstOccurrences(all, n + 1)
  {
    var prefix := FirstOccurrences(all, n);
    var x := all[n];
    var j := IndexOf(all, x);
    if j == n {
      forall i | 0 <= i < |prefix|
        ensures prefix[i] != x
      {
        assert IndexOf(all, prefix[i]) < n;
      }
    } else {
      assert all[j] in prefix;
    }
  }

  /**
   Key order of the result: `getUniqueItems(targetKeys ++ sourceKeys)`. The
   target's keys keep their positions at the front, each new source key is
   appended once at its first appearance, and no key is repeated.
   */
  lemma DeepMergeKeys(target: Value, objects: seq<Value>, options: Value)
    requires Mergeable(target)
    requires forall i | 0 <= i < |objects| :: Mergeable(objects[i])
    requires !options.Null?
    requires UniqueKeys(OrEmpty(target).fields)
    ensures var r := ExecuteDeepMerge(target, objects, options);
            var baseKeys := Keys(OrEmpty(target).fields);
            var sourceKeys := Keys(AllEntries(OrEmptyAll(objects)));
            && Keys(r.fields) == GetUniqueItems(baseKeys + sourceKeys)
            && baseKeys <= Keys(r.fields)
            && UniqueKeys(r.fields)
  {
    var baseKeys := Keys(OrEmpty(target).fields);
    var sourceKeys := Keys(AllEntries(OrEmptyAll(objects)));
    DeepMergeCharacterisation(target, objects, options, "");
    AppendNewKeysIsUnique(baseKeys, sourceKeys);
  }

  /** A target key that no source names keeps its value. */
  lemma DeepMergeUntouched(target: Value, objects: seq<Value>, options: Value, k: string)
    requires Mergeable(target)
    requires forall i | 0 <= i < |objects| :: Mergeable(objects[i])
    requires !options.Null?
    requires k !in Keys(AllEntries(OrEmptyAll(objects)))
    ensures Lookup(ExecuteDeepMerge(target, objects, options).fields, k) == Lookup(OrEmpty(target).fields, k)
  {
    DeepMergeCharacterisation(target, objects, options, k);
  }

  lemma {:induction false} FoldCombineSnoc(existing: Value, incoming: seq<Value>, v: Value, behaviour: Value)
    ensures FoldCombine(existing, incoming + [v], behaviour) == Combine(FoldCombine(existing, incoming, behaviour), v, behaviour)
    decreases |incoming|
  {
    if |incoming| == 0 {
      assert incoming + [v] == [v];
    } else {
      assert (incoming + [v])[1..] == incoming[1..] + [v];
      FoldCombineSnoc(Combine(existing, incoming[0], behaviour), incoming[1..], v, behaviour);
    }
  }

  /**
   Last write wins: when the last value the sources give for `k` is not an
   object or array (`null` and an explicit `undefined` included), the result
   holds exactly that value at `k`, and `k` is present.
   */
  lemma DeepMergeLastWriteWins(target: Value, objects: seq<Value>, options: Value, k: string, earlier: seq<Value>, last: Value)
    requires Mergeable(target)
    requires forall i | 0 <= i < |objects| :: Mergeable(objects[i])
    requires !options.Null?
    requires ValuesFor(AllEntries(OrEmptyAll(objects)), k) == earlier + [last]
    requires !last.Obj? && !last.Arr?
    ensures var r := ExecuteDeepMerge(target, objects, options);
            Lookup(r.fields, k) == last && k in Keys(r.fields)
  {
    var base := OrEmpty(target).fields;
    DeepMergeCharacterisation(target, objects, options, k);
    FoldCombineSnoc(Lookup(base, k), earlier, last, NormalizedBehaviour(options));
  }

  /**
   `objectAssignDeep` runs with the default behaviour `'replace'`: when the
   last value the sources give for `k` is an array, the result holds exactly
   that array at `k`, whatever array was there before.
   */
  lemma ObjectAssignDeepReplacesArrays(target: Value, objects: seq<Value>, k: string, earlier: seq<Value>, last: Value)
    requires Mergeable(target)
    requires forall i | 0 <= i < |objects| :: Mergeable(objects[i])
    requires ValuesFor(AllEntries(OrEmptyAll(objects)), k) == earlier + [last]
    requires last.Arr?
    ensures Lookup(ObjectAssignDeep.ObjectAssignDeep(target, objects).fields, k) == last
  {
    var base := OrEmpty(target).fields;
    var b := NormalizedBehaviour(Obj([]));
    assert b == Prim(Str("replace"));
    DeepMergeCharacterisation(target, objects, Obj([]), k);
    FoldCombineSnoc(Lookup(base, k), earlier, last, b);
    CombineArray(FoldCombine(Lookup(base, k), earlier, b), last, b);
  }

  /** Merging only empty objects leaves the output as it was. */
  lemma {:induction false} MergeEmptySources(output: seq<Entry>, objects: seq<Value>, behaviour: Value)
    requires forall i | 0 <= i < |objects| :: objects[i] == Obj([])
    ensures MergeSources(output, objects, behaviour) == output
    decreases |objects|
  {
    if |objects| > 0 {
      MergeEmptySources(output, objects[1..], behaviour);
    }
  }

  /** Sources that are all falsy are `{}` and leave the target as it was; a falsy target becomes `{}`. */
  lemma DeepMergeFalsySources(target: Value, objects: seq<Value>, options: Value)
    requires Mergeable(target)
    requires forall i | 0 <= i < |objects| :: Falsy(objects[i])
    requires !options.Null?
    ensures ExecuteDeepMerge(target, objects, options) == OrEmpty(target)
    ensures Falsy(target) ==> ExecuteDeepMerge(target, objects, options) == Obj([])
  {
    var objs := OrEmptyAll(objects);
    MergeEmptySources(OrEmpty(target).fields, objs, NormalizedBehaviour(options));
  }

  /*
   The per-property rule.
   */

  /** Assigning properties with fresh, distinct keys just appends them. */
  lemma {:induction false} MergeEntriesFresh(output: seq<Entry>, entries: seq<Entry>, behaviour: Value)
    requires UniqueKeys(entries)
    requires forall i | 0 <= i < |entries| :: entries[i].key !in Keys(output)
    ensures MergeEntries(output, entries, behaviour) == output + entries
    decreases |entries|
  {
    if |entries| == 0 {
      assert output + entries == output;
    } else {
      var e := entries[0];
      var next := output + [e];
      FreshStep(output, entries, behaviour);
      FreshTail(output, entries);
      MergeEntriesFresh(next, entries[1..], behaviour);
      AppendHead(output, entries);
    }
  }

  lemma AppendHead(output: seq<Entry>, entries: seq<Entry>)
    requires |entries| > 0
    ensures (output + [entries[0]]) + entries[1..] == output + entries
  {
  }

  /** One fresh property: the loop body appends it unchanged. */
  lemma FreshStep(output: seq<Entry>, entries: seq<Entry>, behaviour: Value)
    requires |entries| > 0 && entries[0].key !in Keys(output)
    ensures MergeEntries(output, entries, behaviour)
         == MergeEntries(output + [entries[0]], entries[1..], behaviour)
  {
    var e := entries[0];
    assert Lookup(output, e.key) == Undefined;
    assert Combine(Undefined, e.value, behaviour) == e.value;
    FreshAssign(output, e.key, e.value);
  }

  /** The remaining properties stay fresh and distinct after the first is appended. */
  lemma FreshTail(output: seq<Entry>, entries: seq<Entry>)
    requires |entries| > 0 && UniqueKeys(entries)
    requires forall i | 0 <= i < |entries| :: entries[i].key !in Keys(output)
    ensures UniqueKeys(entries[1..])
    ensures forall i | 0 <= i < |entries[1..]| :: entries[1..][i].key !in Keys(output + [entries[0]])
  {
    var rest := entries[1..];
    var next := output + [entries[0]];
    assert Keys(next) == Keys(output) + [entries[0].key];
    forall i | 0 <= i < |rest|
      ensures rest[i].key !in Keys(next)
    {
      assert Keys(entries)[i + 1] != Keys(entries)[0];
    }
    forall i, j | 0 <= i < j < |rest|
      ensures Keys(rest)[i] != Keys(rest)[j]
    {
      assert Keys(entries)[i + 1] != Keys(entries)[j + 1];
    }
  }

  lemma {:induction false} FreshAssign(es: seq<Entry>, k: string, v: Value)
    requires k !in Keys(es)
    ensures Assign(es, k, v) == es + [Entry(k, v)]
    decreases |es|
  {
    if |es| > 0 {
      KeysCons(es);
      assert k !in Keys(es[1..]);
      FreshAssign(es[1..], k, v);
      assert Assign(es, k, v) == [es[0]] + Assign(es[1..], k, v);
      ConsAppend(es, Entry(k, v));
    }
  }

  lemma ConsAppend<T>(s: seq<T>, x: T)
    requires |s| > 0
    ensures [s[0]] + (s[1..] + [x]) == s + [x]
  {
  }

  /** Merging properties with distinct keys into `{}` copies them. */
  lemma MergeIntoEmpty(entries: seq<Entry>, behaviour: Value)
    requires UniqueKeys(entries)
    ensures MergeEntries([], entries, behaviour) == entries
  {
    MergeEntriesFresh([], entries, behaviour);
    assert [] + entries == entries;
  }

  /** `executeDeepMerge({}, [a, c], options)` unfolded: `a`'s properties, then `c`'s. */
  lemma ExecuteDeepMergePair(a: seq<Entry>, c: seq<Entry>, options: Value)
    requires !options.Null?
    ensures var b := NormalizedBehaviour(options);
            ExecuteDeepMerge(Obj([]), [Obj(a), Obj(c)], options)
            == Obj(MergeEntries(MergeEntries([], a, b), c, b))
  {
    var b := NormalizedBehaviour(options);
    var objs := OrEmptyAll([Obj(a), Obj(c)]);
    assert objs == [Obj(a), Obj(c)];
    assert objs[1..] == [Obj(c)];
    assert objs[1..][1..] == [];
    assert MergeSources([], objs, b) == MergeSources(MergeEntries([], a, b), [Obj(c)], b);
  }

  /** Merging two plain objects into `{}`: a copy of the first, then the second merged in. */
  lemma MergePairIntoEmpty(first: seq<Entry>, second: seq<Entry>, behaviour: Value)
    requires UniqueKeys(first)
    requires !Falsy(behaviour)
    ensures ExecuteDeepMerge(Obj([]), [Obj(first), Obj(second)], OptionsObject(behaviour))
         == Obj(MergeEntries(first, second, behaviour))
  {
    ExecuteDeepMergePair(first, second, OptionsObject(behaviour));
    MergeIntoEmpty(first, behaviour);
  }

  /** An incoming value that is not an object or array is assigned as it is. */
  lemma CombineNonContainer(existing: Value, value: Value, behaviour: Value)
    requires !value.Obj? && !value.Arr?
    ensures Combine(existing, value, behaviour) == value
  {
  }

  /**
   An incoming object onto a primitive, `null`, `undefined` or an array: the
   result is a copy of the incoming object.
   */
  lemma CombineObjectOntoNonObject(existing: Value, value: Value, behaviour: Value)
    requires value.Obj? && !existing.Obj?
    requires UniqueKeys(value.fields)
    ensures Combine(existing, value, behaviour) == value
  {
    if !existing.Undefined? {
      var b := NormalizedBehaviour(OptionsObject(behaviour));
      ExecuteDeepMergePair([], value.fields, OptionsObject(behaviour));
      MergeIntoEmpty(value.fields, b);
    }
  }

  /**
   An incoming object onto an existing object merges recursively: both sides'
   keys survive (existing keys first), and at each key the incoming value is
   combined into the existing one by the same rule; keys the incoming object
   does not name keep their existing value.
   */
  lemma CombineObjectOntoObject(existing: Value, value: Value, behaviour: Value, k: string)
    requires existing.Obj? && value.Obj?
    requires UniqueKeys(existing.fields) && UniqueKeys(value.fields)
    requires !Falsy(behaviour)
    ensures var r := Combine(existing, value, behaviour);
            && r.Obj?
            && Keys(r.fields) == AppendNewKeys(Keys(existing.fields), Keys(value.fields))
            && Lookup(r.fields, k)
               == if k in Keys(value.fields)
                  then Combine(Lookup(existing.fields, k), Lookup(value.fields, k), behaviour)
                  else Lookup(existing.fields, k)
  {
    MergePairIntoEmpty(existing.fields, value.fields, behaviour);
    MergeEntriesKeys(existing.fields, value.fields, behaviour);
    MergeEntriesLookup(existing.fields, value.fields, behaviour, k);
    if k in Keys(value.fields) {
      ValuesForUnique(value.fields, k);
    }
  }

  /** In an object with distinct keys a present key has exactly one value. */
  lemma {:induction false} ValuesForUnique(es: seq<Entry>, k: string)
    requires UniqueKeys(es) && k in Keys(es)
    ensures ValuesFor(es, k) == [Lookup(es, k)]
    decreases |es|
  {
    assert Keys(es) == [es[0].key] + Keys(es[1..]);
    if es[0].key == k {
      assert k !in Keys(es[1..]);
    } else {
      assert UniqueKeys(es[1..]) by {
        forall i, j | 0 <= i < j < |es[1..]| ensures Keys(es[1..])[i] != Keys(es[1..])[j] {
          assert Keys(es)[i + 1] != Keys(es)[j + 1];
        }
      }
      ValuesForUnique(es[1..], k);
    }
  }

  /**
   An incoming array onto an existing array is concatenated after it (existing
   elements first) exactly when the behaviour is `'merge'`; otherwise, and
   onto anything that is not an array, the result is a copy of the incoming
   array.
   */
  lemma CombineArray(existing: Value, value: Value, behaviour: Value)
    requires value.Arr?
    ensures var r := Combine(existing, value, behaviour);
            && r.Arr?
            && (existing.Arr? && behaviour == Prim(Str("merge")) ==>
                  r.items == existing.items + value.items && |r.items| == |existing.items| + |value.items|)
            && (!existing.Arr? || behaviour != Prim(Str("merge")) ==> r == value)
  {
  }
}
