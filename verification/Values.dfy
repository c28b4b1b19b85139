/** JSON and TOML values, with the host language's equality on them. */
module Values {
  /** Null is Python's None. */
  datatype Value =
    | Null
    | Bool(b: bool)
    | Int(i: int)
    | Float(r: real)
    | Text(s: string)
    | List(items: seq<Value>)
    | Table(entries: map<string, Value>)

  /** One representative of the values equal to `v`: booleans and numbers of one value are equal, at any depth. */
  function Plain(v: Value): Value
  {
    match v
    case Bool(b) => Float(if b then 1.0 else 0.0)
    case Int(i) => Float(i as real)
    case List(items) => List(seq(|items|, k requires 0 <= k < |items| => Plain(items[k])))
    case Table(entries) => Table(map name | name in entries :: Plain(entries[name]))
    case _ => v
  }

  /** `left == right` */
  predicate Equal(left: Value, right: Value)
  {
    Plain(left) == Plain(right)
  }

  lemma OnlyNullEqualsNull(v: Value)
    ensures Equal(v, Null) <==> v == Null
  {
  }

  /** The number a value stands for. */
  function Number(v: Value): real
    requires v.Bool? || v.Int? || v.Float?
  {
    match v
    case Bool(b) => if b then 1.0 else 0.0
    case Int(i) => i as real
    case Float(r) => r
  }

  /** Equality, case by case: numbers and booleans by value, lists by element, tables by key. */
  lemma EqualIs(left: Value, right: Value)
    ensures Equal(left, right) <==>
      || (left.Null? && right.Null?)
      || ((left.Bool? || left.Int? || left.Float?) && (right.Bool? || right.Int? || right.Float?)
           && Number(left) == Number(right))
      || (left.Text? && right.Text? && left.s == right.s)
      || (left.List? && right.List? && |left.items| == |right.items|
           && forall k | 0 <= k < |left.items| :: Equal(left.items[k], right.items[k]))
      || (left.Table? && right.Table? && left.entries.Keys == right.entries.Keys
           && forall name | name in left.entries :: Equal(left.entries[name], right.entries[name]))
  {
    if left.List? && right.List? {
      ListsEqual(left.items, right.items);
    } else if left.Table? && right.Table? {
      TablesEqual(left.entries, right.entries);
    }
  }

  lemma ListsEqual(a: seq<Value>, b: seq<Value>)
    ensures Equal(List(a), List(b)) <==> |a| == |b| && forall k | 0 <= k < |a| :: Equal(a[k], b[k])
  {
    var p, q := Plain(List(a)).items, Plain(List(b)).items;
    if p == q {
      forall k | 0 <= k < |a| ensures Equal(a[k], b[k]) { assert p[k] == q[k]; }
    }
  }

  lemma TablesEqual(a: map<string, Value>, b: map<string, Value>)
    ensures Equal(Table(a), Table(b)) <==> a.Keys == b.Keys && forall name | name in a :: Equal(a[name], b[name])
  {
    var p, q := Plain(Table(a)).entries, Plain(Table(b)).entries;
    assert p.Keys == a.Keys && q.Keys == b.Keys;
    if p == q {
      forall name | name in a ensures Equal(a[name], b[name]) { assert p[name] == q[name]; }
    }
  }
}
