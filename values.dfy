/** Python values as they appear in the fields of a record, and the three
    Python notions the reconciliation engine leans on: truthiness (`if val:`),
    equality (`==`, `!=`, `in` on a list) and hashability (use as a dict key). */
module Values {

  datatype Option<+T> = None | Some(value: T)

  /** A computation on some state that either finished or raised an exception
      part-way, leaving the state it had reached. */
  datatype Attempt<+T> = Done(value: T) | Raised(state: T)

  /** The field values the service exchanges, as Python sees them after JSON
      decoding (floats are not modelled). */
  datatype Value =
    | VNone
    | VBool(b: bool)
    | VInt(i: int)
    | VStr(s: string)
    | VList(items: seq<Value>)
    | VTuple(items: seq<Value>)
    | VDict(entries: map<string, Value>)

  type Fields = map<string, Value>

  /** A string-keyed dict's items, in its iteration (insertion) order. */
  type Items = seq<(string, Value)>

  /** A record `{"id": ..., "fields": {...}}`; `id` is None when the key is absent. */
  datatype Record = Record(id: Option<string>, fields: Fields)

  /** `bool(v)`. */
  predicate Truthy(v: Value)
  {
    match v
    case VNone => false
    case VBool(b) => b
    case VInt(i) => i != 0
    case VStr(s) => s != ""
    case VList(items) => items != []
    case VTuple(items) => items != []
    case VDict(entries) => entries != map[]
  }

  /** `fields.get(key)`. */
  function Get(fields: Fields, key: string): (v: Value)
    ensures key !in fields ==> v == VNone
    ensures key in fields ==> v == fields[key]
  {
    if key in fields then fields[key] else VNone
  }

  /** `bool` is a subclass of `int` in Python. */
  predicate IsNumber(v: Value)
  {
    v.VBool? || v.VInt?
  }

  function NumberOf(v: Value): int
    requires IsNumber(v)
  {
    if v.VBool? then (if v.b then 1 else 0) else v.i
  }

  /** Python `a == b` on these values: numbers compare by value (`True == 1`),
      lists and tuples element-wise, dicts by key set and values. */
  predicate PyEq(a: Value, b: Value)
  {
    if IsNumber(a) || IsNumber(b) then
      IsNumber(a) && IsNumber(b) && NumberOf(a) == NumberOf(b)
    else
      match (a, b)
      case (VNone, VNone) => true
      case (VStr(x), VStr(y)) => x == y
      case (VList(xs), VList(ys)) =>
        |xs| == |ys| && forall i :: 0 <= i < |xs| ==> PyEq(xs[i], ys[i])
      case (VTuple(xs), VTuple(ys)) =>
        |xs| == |ys| && forall i :: 0 <= i < |xs| ==> PyEq(xs[i], ys[i])
      case (VDict(m), VDict(n)) =>
        m.Keys == n.Keys && forall k :: k in m ==> PyEq(m[k], n[k])
      case _ => false
  }

  /** `x in xs` for a Python list or tuple. */
  predicate InSeq(x: Value, xs: seq<Value>)
  {
    exists i :: 0 <= i < |xs| && PyEq(xs[i], x)
  }

  /** `hash(v)` succeeds: lists and dicts raise TypeError, also inside a tuple. */
  predicate Hashable(v: Value)
  {
    match v
    case VList(_) => false
    case VDict(_) => false
    case VTuple(items) => forall i :: 0 <= i < |items| ==> Hashable(items[i])
    case _ => true
  }

  /** The identity of a value as a dict key: equal keys (`==`) share one entry.
      Booleans are written as the integers they equal. */
  function Canon(v: Value): Value
  {
    match v
    case VBool(b) => VInt(if b then 1 else 0)
    case VTuple(items) => VTuple(seq(|items|, i requires 0 <= i < |items| => Canon(items[i])))
    case _ => v
  }

  lemma {:induction false} PyEqReflexive(a: Value)
    ensures PyEq(a, a)
  {
    match a
    case VList(xs) =>
      forall i | 0 <= i < |xs| ensures PyEq(xs[i], xs[i]) { PyEqReflexive(xs[i]); }
    case VTuple(xs) =>
      forall i | 0 <= i < |xs| ensures PyEq(xs[i], xs[i]) { PyEqReflexive(xs[i]); }
    case VDict(m) =>
      forall k | k in m ensures PyEq(m[k], m[k]) { PyEqReflexive(m[k]); }
    case _ =>
  }

  lemma {:induction false} PyEqSymmetric(a: Value, b: Value)
    requires PyEq(a, b)
    ensures PyEq(b, a)
  {
    if !IsNumber(a) && !IsNumber(b) {
      match (a, b)
      case (VList(xs), VList(ys)) =>
        forall i | 0 <= i < |ys| ensures PyEq(ys[i], xs[i]) { PyEqSymmetric(xs[i], ys[i]); }
      case (VTuple(xs), VTuple(ys)) =>
        forall i | 0 <= i < |ys| ensures PyEq(ys[i], xs[i]) { PyEqSymmetric(xs[i], ys[i]); }
      case (VDict(m), VDict(n)) =>
        forall k | k in n ensures PyEq(n[k], m[k]) { PyEqSymmetric(m[k], n[k]); }
      case _ =>
    }
  }

  /** Two hashable values land on the same dict entry exactly when Python
      considers them equal. */
  lemma {:induction false} CanonMatchesPyEq(a: Value, b: Value)
    requires Hashable(a) && Hashable(b)
    ensures Canon(a) == Canon(b) <==> PyEq(a, b)
  {
    match (a, b)
    case (VTuple(xs), VTuple(ys)) =>
      var cx, cy := Canon(a).items, Canon(b).items;
      forall i | 0 <= i < |xs| && i < |ys|
        ensures cx[i] == cy[i] <==> PyEq(xs[i], ys[i])
      {
        CanonMatchesPyEq(xs[i], ys[i]);
      }
      if |xs| == |ys| && forall i :: 0 <= i < |xs| ==> PyEq(xs[i], ys[i]) {
        assert cx == cy;
      }
    case _ =>
  }
}
