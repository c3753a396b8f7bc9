/**
  JavaScript values as `JSON.parse` produces them. `Undefined` is what reading an absent property
  yields. An object holds its own properties in the order `Object.entries` visits them.
 */
module Json {

  datatype Field<+V> = Field(key: string, value: V)

  predicate DistinctKeys<V>(fields: seq<Field<V>>) {
    forall i, j :: 0 <= i < j < |fields| ==> fields[i].key != fields[j].key
  }

  type Fields<+V> = fs: seq<Field<V>> | DistinctKeys(fs) witness []

  datatype Value =
    | Undefined
    | Null
    | Bool(b: bool)
    | Number(n: real)
    | NonFinite               // a literal too large for a double
    | String(s: string)
    | Array(items: seq<Value>)
    | Object(fields: Fields<Value>)

  function Lookup(fields: seq<Field<Value>>, key: string): (v: Value)
    ensures v != Undefined ==> exists i :: 0 <= i < |fields| && fields[i] == Field(key, v)
  {
    if fields == [] then Undefined
    else if fields[0].key == key then fields[0].value
    else
      var v := Lookup(fields[1..], key);
      assert forall i :: 0 <= i < |fields[1..]| ==> fields[1..][i] == fields[i + 1];
      v
  }

  /** Property access on a value that is neither `null` nor `undefined`. */
  function Get(v: Value, key: string): Value {
    if v.Object? then Lookup(v.fields, key) else Undefined
  }

  lemma {:induction false} LookupFinds(fields: seq<Field<Value>>, i: nat)
    requires DistinctKeys(fields) && i < |fields|
    ensures Lookup(fields, fields[i].key) == fields[i].value
  {
    if i > 0 {
      LookupFinds(fields[1..], i - 1);
    }
  }

  /** The properties of an object literal are found under their keys. */
  lemma ObjectHolds(fields: Fields<Value>)
    ensures forall i {:trigger fields[i]} :: 0 <= i < |fields| ==>
              Get(Object(fields), fields[i].key) == fields[i].value
  {
    forall i {:trigger fields[i]} | 0 <= i < |fields| ensures Get(Object(fields), fields[i].key) == fields[i].value {
      LookupFinds(fields, i);
    }
  }

  lemma {:induction false} LookupMisses(fields: seq<Field<Value>>, key: string)
    requires forall i :: 0 <= i < |fields| ==> fields[i].key != key
    ensures Lookup(fields, key) == Undefined
  {
    if fields != [] {
      LookupMisses(fields[1..], key);
    }
  }

  lemma FieldIsRead(fields: Fields<Value>, i: nat, key: string, value: Value)
    requires i < |fields| && fields[i] == Field(key, value)
    ensures Get(Object(fields), key) == value
  {
    LookupFinds(fields, i);
  }

  predicate Truthy(v: Value) {
    match v
    case Undefined => false
    case Null => false
    case Bool(b) => b
    case Number(n) => n != 0.0
    case NonFinite => true
    case String(s) => s != ""
    case Array(_) => true
    case Object(_) => true
  }
}
