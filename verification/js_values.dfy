/**
 The JavaScript values that `ObjectAssignDeep` walks: `null`, `undefined`,
 primitives, arrays and plain objects. A plain object is an ordered list of
 own enumerable properties, in insertion order; property read (`o[k]`) and
 property assignment (`o[k] = v`) are modelled on that list.
 */
module JsValues {
  import opened ArrayUtils

  /** The primitive kinds `typeof` can report. */
  datatype Prim =
    | Boolean(b: bool)
    | Number(x: real)
    | NotANumber
    | BigInt(i: int)
    | Str(s: string)
    | Symbol(id: nat)
    | Function(id: nat)

  datatype Value =
    | Null
    | Undefined
    | Prim(p: Prim)
    | Arr(items: seq<Value>)
    | Obj(fields: seq<Entry>)

  /** One own enumerable property of a plain object. */
  datatype Entry = Entry(key: string, value: Value)

  /** Result of an operation that may throw a `TypeError`. */
  datatype Result<T> = Ok(value: T) | TypeError(message: string)

  /** JavaScript falsiness: `null`, `undefined`, `false`, `0`, `NaN`, `''`, `0n`. */
  predicate Falsy(v: Value) {
    match v
    case Null => true
    case Undefined => true
    case Prim(p) =>
      p == Boolean(false) || p == Number(0.0) || p == NotANumber || p == Str("") || p == BigInt(0)
    case _ => false
  }

  /** `v || {}`: never falsy; a truthy value is kept, a falsy one becomes `{}`. */
  function OrEmpty(v: Value): (r: Value)
    ensures !Falsy(r)
    ensures !Falsy(v) ==> r == v
    ensures Falsy(v) ==> r == Obj([])
  {
    if Falsy(v) then Obj([]) else v
  }

  /** The property names of an object, in enumeration order. */
  function Keys(es: seq<Entry>): (ks: seq<string>)
    ensures |ks| == |es|
    ensures forall i | 0 <= i < |es| :: ks[i] == es[i].key
  {
    if |es| == 0 then [] else [es[0].key] + Keys(es[1..])
  }

  /** A JavaScript object never holds the same own property twice. */
  predicate UniqueKeys(es: seq<Entry>) {
    Distinct(Keys(es))
  }

  /** `o[k]`: the value of property `k`, or `undefined` when there is none. */
  function Lookup(es: seq<Entry>, k: string): (v: Value)
    ensures k !in Keys(es) ==> v == Undefined
    ensures k in Keys(es) ==> v == es[IndexOf(Keys(es), k)].value
  {
    if |es| == 0 then Undefined
    else if es[0].key == k then es[0].value
    else
      var v := Lookup(es[1..], k);
      KeysCons(es);
      v
  }

  lemma KeysCons(es: seq<Entry>)
    requires |es| > 0
    ensures Keys(es) == [es[0].key] + Keys(es[1..])
    ensures Keys(es)[1..] == Keys(es[1..])
  {
  }

  /** The key list after assigning `k`: unchanged when present, `k` appended otherwise. */
  function AddKey(ks: seq<string>, k: string): (r: seq<string>)
    ensures Distinct(ks) ==> Distinct(r)
  {
    if k in ks then ks else ks + [k]
  }

  /**
   `o[k] = v`: an existing property keeps its position and gets the new value;
   a new property is appended. Every other property is left alone.
   */
  function Assign(es: seq<Entry>, k: string, v: Value): (r: seq<Entry>)
    ensures Keys(r) == AddKey(Keys(es), k)
    ensures Lookup(r, k) == v
  {
    if |es| == 0 then [Entry(k, v)]
    else if es[0].key == k then
      assert Keys(es) == [k] + Keys(es[1..]);
      [Entry(k, v)] + es[1..]
    else
      var rest := Assign(es[1..], k, v);
      AssignCons(es, k, rest);
      [es[0]] + rest
  }

  lemma AssignCons(es: seq<Entry>, k: string, rest: seq<Entry>)
    requires |es| > 0 && es[0].key != k
    requires Keys(rest) == AddKey(Keys(es[1..]), k)
    ensures Keys([es[0]] + rest) == AddKey(Keys(es), k)
  {
    assert Keys(es) == [es[0].key] + Keys(es[1..]);
    assert Keys([es[0]] + rest) == [es[0].key] + Keys(rest);
  }

  /** Assigning `k` leaves every other property's value as it was. */
  lemma {:induction false} AssignOther(es: seq<Entry>, k: string, v: Value, j: string)
    requires j != k
    ensures Lookup(Assign(es, k, v), j) == Lookup(es, j)
  {
    if |es| > 0 && es[0].key != k {
      AssignOther(es[1..], k, v, j);
    }
  }

  /*
   Structural size of a value, used as a termination measure for the merge.
   Every property counts 2 on top of the size of its value.
   */

  function Size(v: Value): (n: nat)
    ensures n >= 1
  {
    match v
    case Arr(items) => 1 + SizeSeq(items)
    case Obj(fields) => 1 + SizeEntries(fields)
    case _ => 1
  }

  function SizeSeq(vs: seq<Value>): nat {
    if |vs| == 0 then 0 else Size(vs[0]) + SizeSeq(vs[1..])
  }

  function SizeEntries(es: seq<Entry>): nat {
    if |es| == 0 then 0 else 2 + Size(es[0].value) + SizeEntries(es[1..])
  }

  lemma {:induction false} SizeSeqAppend(a: seq<Value>, b: seq<Value>)
    ensures SizeSeq(a + b) == SizeSeq(a) + SizeSeq(b)
  {
    if |a| == 0 {
      assert a + b == b;
    } else {
      assert (a + b)[1..] == a[1..] + b;
      SizeSeqAppend(a[1..], b);
    }
  }

  lemma SizeSeqPair(a: Value, b: Value)
    ensures SizeSeq([a, b]) == Size(a) + Size(b)
  {
    assert [a, b][1..] == [b];
    assert SizeSeq([b]) == Size(b) + SizeSeq([b][1..]);
    assert [b][1..] == [];
  }

  /** A property that is present is strictly smaller than its object. */
  lemma {:induction false} LookupSize(es: seq<Entry>, k: string)
    ensures k in Keys(es) ==> Size(Lookup(es, k)) + 2 <= SizeEntries(es)
  {
    if |es| > 0 && es[0].key != k {
      assert Keys(es) == [es[0].key] + Keys(es[1..]);
      LookupSize(es[1..], k);
    }
  }

  /** How an assignment changes the size of an object. */
  lemma {:induction false} AssignSize(es: seq<Entry>, k: string, v: Value)
    ensures k in Keys(es) ==>
      SizeEntries(Assign(es, k, v)) == SizeEntries(es) - Size(Lookup(es, k)) + Size(v)
    ensures k !in Keys(es) ==>
      SizeEntries(Assign(es, k, v)) == SizeEntries(es) + 2 + Size(v)
  {
    if |es| > 0 {
      assert Keys(es) == [es[0].key] + Keys(es[1..]);
      if es[0].key != k {
        AssignSize(es[1..], k, v);
        var rest := Assign(es[1..], k, v);
        assert ([es[0]] + rest)[1..] == rest;
      } else {
        assert ([Entry(k, v)] + es[1..])[1..] == es[1..];
      }
    }
  }
}
