/**
 * The syntax trees the parser hands to the rename detector, as values.
 *
 * A javalang node is an object of some node class with a fixed tuple of
 * attributes; an attribute holds a scalar, a node, a list of nodes or None.
 * Node identity matters to the detector (hypotheses and paths compare nodes
 * with `is`/`==`, which for nodes is identity), so every node carries an
 * integer id assigned by the parser; two nodes are the same object exactly
 * when their ids agree. Attribute names of one node are distinct, as they are
 * in javalang, where they form the node class's `attrs` tuple.
 */
module JavaAst {

  /** A node class: its own name and the names of all its base classes. */
  datatype Kind = Kind(name: string, bases: set<string>)

  datatype Value =
    | Nil
    | Bool(b: bool)
    | Int(i: int)
    | Str(s: string)
    | StrSet(ss: set<string>)
    | List(items: seq<Value>)
    | Node(id: int, kind: Kind, fields: seq<Field>)

  /** One attribute slot of a node. */
  datatype Field = Field(attr: string, value: Value)

  /** A path: node, attribute name, node, attribute name, ... */
  type Path = seq<Value>

  /** Python's `type(v)`. */
  datatype PyType = NoneType | BoolType | IntType | StrType | SetType | ListType | NodeType(kind: Kind)

  function TypeOf(v: Value): PyType
  {
    match v
    case Nil => NoneType
    case Bool(_) => BoolType
    case Int(_) => IntType
    case Str(_) => StrType
    case StrSet(_) => SetType
    case List(_) => ListType
    case Node(_, k, _) => NodeType(k)
  }

  /** Neither a list nor a node: compared with `==` by the equality engines. */
  predicate IsScalar(v: Value)
  {
    !v.List? && !v.Node?
  }

  /**
   * What a comparison limited to the first level looks at: the Python type,
   * the length of a list, and the value of a scalar; never an attribute of a node.
   */
  predicate SameShape(a: Value, b: Value)
  {
    && TypeOf(a) == TypeOf(b)
    && (a.List? ==> |a.items| == |b.items|)
    && (IsScalar(a) ==> PyEq(a, b))
  }

  function BoolAsInt(b: bool): int
  {
    if b then 1 else 0
  }

  /**
   * Python's `a == b`: `True == 1`, lists compare element-wise, nodes (which
   * define no `__eq__`) by identity, values of unrelated types are unequal.
   */
  predicate PyEq(a: Value, b: Value)
    decreases a
  {
    match a
    case Nil => b.Nil?
    case Bool(x) => (b.Bool? && b.b == x) || (b.Int? && b.i == BoolAsInt(x))
    case Int(x) => (b.Int? && b.i == x) || (b.Bool? && BoolAsInt(b.b) == x)
    case Str(x) => b.Str? && b.s == x
    case StrSet(x) => b.StrSet? && b.ss == x
    case List(xs) =>
      b.List? && |xs| == |b.items| && forall i :: 0 <= i < |xs| ==> PyEq(xs[i], b.items[i])
    case Node(x, _, _) => b.Node? && b.id == x
  }

  /** `p == q` for two paths (Python lists). */
  predicate SamePath(p: Path, q: Path)
  {
    PyEq(List(p), List(q))
  }

  /** `x in xs` for a Python list. */
  predicate InValues(x: Value, xs: seq<Value>)
  {
    exists i :: 0 <= i < |xs| && PyEq(xs[i], x)
  }

  /** `isinstance(v, t)` for a node class named `t`. */
  predicate IsInstance(v: Value, t: string)
  {
    v.Node? && (v.kind.name == t || t in v.kind.bases)
  }

  /** `getattr(v, attr)`: the value of the named attribute, None when there is none. */
  function Get(v: Value, attr: string): Value
  {
    if v.Node? then Lookup(v.fields, attr) else Nil
  }

  function Lookup(fs: seq<Field>, attr: string): Value
  {
    if fs == [] then Nil
    else if fs[0].attr == attr then fs[0].value
    else Lookup(fs[1..], attr)
  }

  /** Iterating an attribute that holds a list; anything else contributes nothing. */
  function Items(v: Value): seq<Value>
  {
    if v.List? then v.items else []
  }

  /** Attribute names of every node are distinct, as javalang's `attrs` tuples are. */
  predicate WellFormed(v: Value)
    decreases v
  {
    match v
    case List(xs) => forall i :: 0 <= i < |xs| ==> WellFormed(xs[i])
    case Node(_, _, fs) =>
      && (forall i, j :: 0 <= i < j < |fs| ==> fs[i].attr != fs[j].attr)
      && (forall i :: 0 <= i < |fs| ==> WellFormed(fs[i].value))
    case _ => true
  }

  /** On a well-formed node, `getattr` finds the field's own value. */
  lemma {:induction false} GetField(v: Value, i: int)
    requires v.Node? && WellFormed(v) && 0 <= i < |v.fields|
    ensures Get(v, v.fields[i].attr) == v.fields[i].value
  {
    LookupDistinct(v.fields, i);
  }

  lemma {:induction false} LookupDistinct(fs: seq<Field>, i: int)
    requires 0 <= i < |fs|
    requires forall j, k :: 0 <= j < k < |fs| ==> fs[j].attr != fs[k].attr
    ensures Lookup(fs, fs[i].attr) == fs[i].value
  {
    if i > 0 {
      assert fs[0].attr != fs[i].attr;
      LookupDistinct(fs[1..], i - 1);
    }
  }

  /** Every value is `==` to itself. */
  lemma {:induction false} PyEqReflexive(a: Value)
    ensures PyEq(a, a)
    decreases a
  {
    if a.List? {
      forall i | 0 <= i < |a.items|
        ensures PyEq(a.items[i], a.items[i])
      {
        PyEqReflexive(a.items[i]);
      }
    }
  }

  /** `==` is symmetric on these values. */
  lemma {:induction false} PyEqSymmetric(a: Value, b: Value)
    requires PyEq(a, b)
    ensures PyEq(b, a)
    decreases a
  {
    if a.List? {
      forall i | 0 <= i < |a.items|
        ensures PyEq(b.items[i], a.items[i])
      {
        PyEqSymmetric(a.items[i], b.items[i]);
      }
    }
  }

  /** `==` is transitive on these values. */
  lemma {:induction false} PyEqTransitive(a: Value, b: Value, c: Value)
    requires PyEq(a, b) && PyEq(b, c)
    ensures PyEq(a, c)
    decreases a
  {
    if a.List? {
      forall i | 0 <= i < |a.items|
        ensures PyEq(a.items[i], c.items[i])
      {
        PyEqTransitive(a.items[i], b.items[i], c.items[i]);
      }
    }
  }

  lemma SamePathReflexive(p: Path)
    ensures SamePath(p, p)
  {
    PyEqReflexive(List(p));
  }

  /** A value that occurs in a list is `in` it. */
  lemma InValuesOfElement(xs: seq<Value>, i: int)
    requires 0 <= i < |xs|
    ensures InValues(xs[i], xs)
  {
    PyEqReflexive(xs[i]);
  }
}
