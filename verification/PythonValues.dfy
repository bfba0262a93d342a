/** The Python values a parsed Vector config is made of. */
module PythonValues {
  import opened Wrappers

  /** A dict is its entries in insertion order, its keys distinct. */
  datatype Py =
    | PyNone
    | PyBool(b: bool)
    | PyInt(i: int)
    | PyFloat(r: real)
    | PyStr(s: string)
    | PyList(items: seq<Py>)
    | PyDict(entries: Dict)

  type Dict = seq<(string, Py)>

  predicate Truthy(v: Py) {
    match v
    case PyNone => false
    case PyBool(b) => b
    case PyInt(i) => i != 0
    case PyFloat(r) => r != 0.0
    case PyStr(s) => s != ""
    case PyList(items) => items != []
    case PyDict(entries) => entries != []
  }

  /** The falsy values: None, False, zero, and whatever is empty. */
  lemma FalsyExactly(v: Py)
    ensures !Truthy(v) <==>
            || v in {PyNone, PyBool(false), PyInt(0), PyFloat(0.0)} || v in {PyStr(""), PyList([]), PyDict([])}
  {
  }

  ghost predicate Distinct<T>(xs: seq<T>) {
    forall i, j :: 0 <= i < j < |xs| ==> xs[i] != xs[j]
  }

  function KeysOf(d: Dict): seq<string> {
    seq(|d|, i requires 0 <= i < |d| => d[i].0)
  }

  /** `d.get(key)` */
  function Get(d: Dict, key: string): Option<Py> {
    if d == [] then None else if d[0].0 == key then Some(d[0].1) else Get(d[1..], key)
  }

  /** `d[key] = value` */
  function Assign(d: Dict, key: string, value: Py): Dict {
    if d == [] then [(key, value)]
    else if d[0].0 == key then [(key, value)] + d[1..]
    else [d[0]] + Assign(d[1..], key, value)
  }

  lemma {:induction false} GetAssign(d: Dict, key: string, value: Py, other: string)
    ensures Get(Assign(d, key, value), other) == if other == key then Some(value) else Get(d, other)
  {
    if d != [] && d[0].0 != key {
      GetAssign(d[1..], key, value, other);
    }
  }

  lemma {:induction false} GetMissing(d: Dict, key: string)
    ensures Get(d, key).None? <==> key !in KeysOf(d)
  {
    if d != [] {
      assert KeysOf(d) == [d[0].0] + KeysOf(d[1..]);
      GetMissing(d[1..], key);
    }
  }

  /** A key already there keeps its place. */
  lemma {:induction false} AssignKeepsPlaces(d: Dict, key: string, value: Py)
    requires key in KeysOf(d)
    ensures KeysOf(Assign(d, key, value)) == KeysOf(d)
  {
    if d != [] && d[0].0 != key {
      assert KeysOf(d) == [d[0].0] + KeysOf(d[1..]);
      AssignKeepsPlaces(d[1..], key, value);
      assert KeysOf(Assign(d, key, value)) == [d[0].0] + KeysOf(Assign(d[1..], key, value));
    }
  }

  lemma {:induction false} AssignNew(d: Dict, key: string, value: Py)
    requires key !in KeysOf(d)
    ensures Assign(d, key, value) == d + [(key, value)]
  {
    if d != [] {
      assert KeysOf(d)[0] == d[0].0 && KeysOf(d) == [d[0].0] + KeysOf(d[1..]);
      AssignNew(d[1..], key, value);
    }
  }

  lemma {:induction false} GetIsEntry(d: Dict, i: nat)
    requires i < |d| && Distinct(KeysOf(d))
    ensures Get(d, d[i].0) == Some(d[i].1)
  {
    if i > 0 {
      assert KeysOf(d)[0] != KeysOf(d)[i];
      assert forall k :: 0 <= k < |d| - 1 ==> KeysOf(d[1..])[k] == KeysOf(d)[k + 1];
      GetIsEntry(d[1..], i - 1);
    }
  }
}
