/** JSON documents as the scripts hold them after parsing. */
module Json {
  import opened Common

  datatype Field = Field(key: string, value: Json)

  /** What Python's parser reads beside the numbers of the standard; it hands out one object for each. */
  datatype Constant = NaN | Infinity | MinusInfinity

  /** An object keeps its fields in document order; an int and a float are told apart even where they are equal. */
  datatype Json =
    | Null | Bool(b: bool) | Num(n: int) | Float(x: real) | Special(c: Constant)
    | Str(s: string) | Arr(items: seq<Json>) | Obj(fields: seq<Field>)

  /** `dict.get(key)`. */
  function Get(fields: seq<Field>, key: string): (r: Option<Json>)
    ensures r.Some? <==> exists i :: 0 <= i < |fields| && fields[i].key == key
  {
    if fields == [] then None
    else if fields[0].key == key then
      assert fields[0].key == key;
      Some(fields[0].value)
    else
      var r := Get(fields[1..], key);
      assert r.Some? ==> exists i :: 0 <= i < |fields[1..]| && fields[1..][i].key == key && fields[i + 1].key == key;
      assert forall i :: 0 < i < |fields| ==> fields[i] == fields[1..][i - 1];
      r
  }

  /** `obj[key] = value` on a key that is there. */
  function Set(fields: seq<Field>, key: string, value: Json): (r: seq<Field>)
    ensures |r| == |fields| && forall i :: 0 <= i < |r| ==> r[i].key == fields[i].key
  {
    if fields == [] then []
    else if fields[0].key == key then [Field(key, value)] + fields[1..]
    else [fields[0]] + Set(fields[1..], key, value)
  }

  /** `del obj[key]`. */
  function Del(fields: seq<Field>, key: string): seq<Field> {
    if fields == [] then []
    else if fields[0].key == key then fields[1..]
    else [fields[0]] + Del(fields[1..], key)
  }

  ghost predicate DistinctKeys(fields: seq<Field>) {
    forall i, j :: 0 <= i < j < |fields| ==> fields[i].key != fields[j].key
  }

  /** A parsed document has no object with a repeated key. */
  ghost predicate Parsed(doc: Json) {
    match doc
    case Arr(xs) => forall i :: 0 <= i < |xs| ==> Parsed(xs[i])
    case Obj(fs) => DistinctKeys(fs) && forall i :: 0 <= i < |fs| ==> Parsed(fs[i].value)
    case _ => true
  }

  lemma {:induction false} GetAt(fields: seq<Field>, i: nat)
    requires DistinctKeys(fields) && i < |fields|
    ensures Get(fields, fields[i].key) == Some(fields[i].value)
  {
    if i > 0 {
      assert DistinctKeys(fields[1..]);
      GetAt(fields[1..], i - 1);
    }
  }

  lemma {:induction false} GetSet(fields: seq<Field>, key: string, value: Json, k: string)
    requires Get(fields, key).Some?
    ensures Get(Set(fields, key, value), k) == if k == key then Some(value) else Get(fields, k)
  {
    if fields[0].key != key {
      GetSet(fields[1..], key, value, k);
    }
  }

  lemma {:induction false} GetDel(fields: seq<Field>, key: string, k: string)
    requires DistinctKeys(fields)
    ensures Get(Del(fields, key), k) == if k == key then None else Get(fields, k)
  {
    if fields != [] {
      assert DistinctKeys(fields[1..]);
      if fields[0].key == key {
        assert forall i :: 0 <= i < |fields[1..]| ==> fields[1..][i] == fields[i + 1];
      } else {
        GetDel(fields[1..], key, k);
      }
    }
  }

  /** The number that `==` compares: True is 1 and False is 0. */
  function Numeric(a: Json): Option<real> {
    match a
    case Bool(x) => Some(if x then 1.0 else 0.0)
    case Num(n) => Some(n as real)
    case Float(x) => Some(x)
    case _ => None
  }

  /** How Python's `in` and `list.remove` compare: by identity, which decides for the special constants, and else by
      `==`, under which an object's order does not count. */
  predicate PyEq(a: Json, b: Json) {
    match a
    case Null => b.Null?
    case Bool(_) => Numeric(b) == Numeric(a)
    case Num(_) => Numeric(b) == Numeric(a)
    case Float(_) => Numeric(b) == Numeric(a)
    case Special(c) => b.Special? && b.c == c
    case Str(s) => b.Str? && b.s == s
    case Arr(xs) => b.Arr? && |b.items| == |xs| && forall i :: 0 <= i < |xs| ==> PyEq(xs[i], b.items[i])
    case Obj(fs) =>
      b.Obj? && |b.fields| == |fs|
      && forall i :: 0 <= i < |fs| ==>
           Get(b.fields, fs[i].key).Some? && PyEq(fs[i].value, Get(b.fields, fs[i].key).value)
  }

  lemma {:induction false} PyEqReflexive(a: Json)
    requires Parsed(a)
    ensures PyEq(a, a)
  {
    match a
    case Arr(xs) =>
      forall i | 0 <= i < |xs| ensures PyEq(xs[i], xs[i]) {
        PyEqReflexive(xs[i]);
      }
    case Obj(fs) =>
      forall i | 0 <= i < |fs| ensures Get(fs, fs[i].key) == Some(fs[i].value) && PyEq(fs[i].value, fs[i].value) {
        GetAt(fs, i);
        PyEqReflexive(fs[i].value);
      }
    case _ =>
  }
}
